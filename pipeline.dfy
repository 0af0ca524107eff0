/** fixFile (main.go:76-129) without its file, mmap and goroutine plumbing:
    count the lines, split the file into that many pieces, trim the last
    piece, cut the lines into four static chunks, re-join each chunk with
    '\n' as one job, and classify each job on its own. The workers' results
    reach the router merged in an order the scheduler picks, which keeps
    each chunk's own order. */
module Pipeline {
  import opened Text
  import opened Results
  import opened LineCounter
  import opened LineScanner
  import opened Classifier

  /** lines[numLines-1] panics when the file holds no '\n' at all. */
  datatype FixError = IndexOutOfRange

  const Newline: set<char> := {'\n'}

  /** main.go:86-88: bytes.SplitN on '\n' into as many pieces as the file
      has '\n' bytes, then '\n' trimmed from both ends of the last piece. */
  function FileLines(data: string): Result<seq<string>, FixError>
  {
    var numLines := Count(data, '\n');
    if numLines == 0 then Err(IndexOutOfRange)
    else
      var pieces := SplitN(data, '\n', numLines);
      SplitNLength(data, '\n', numLines);
      Ok(pieces[numLines - 1 := Trim(pieces[numLines - 1], Newline)])
  }

  /** With n '\n' bytes there are n lines: the first n-1 are the file's
      own and the last is the file's last two, joined by their '\n' and
      trimmed of '\n' at both ends. */
  lemma FileLinesShape(data: string)
    requires Count(data, '\n') >= 1
    ensures var n, ps := Count(data, '\n'), Split(data, '\n');
      |ps| == n + 1 &&
      FileLines(data).Ok? &&
      |FileLines(data).value| == n &&
      FileLines(data).value[..n - 1] == ps[..n - 1] &&
      FileLines(data).value[n - 1] == Trim(ps[n - 1] + ['\n'] + ps[n], Newline)
  {
    var n, ps := Count(data, '\n'), Split(data, '\n');
    SplitLength(data, '\n');
    SplitNShape(data, '\n', n);
    assert ps[n - 1..] == [ps[n - 1], ps[n]];
    assert Join([ps[n - 1], ps[n]], '\n') == ps[n - 1] + ['\n'] + ps[n];
    assert FileLines(data).value[..n - 1] == SplitN(data, '\n', n)[..n - 1];
  }

  lemma {:induction false} JoinSnoc(ls: seq<string>, x: string, c: char)
    requires |ls| >= 1
    ensures Join(ls + [x], c) == Join(ls, c) + [c] + x
  {
    if |ls| > 1 {
      assert (ls + [x])[1..] == ls[1..] + [x];
      JoinSnoc(ls[1..], x, c);
      assert Join(ls + [x], c) == ls[0] + [c] + (Join(ls[1..], c) + [c] + x);
    } else {
      assert (ls + [x])[1..] == [x];
      assert Join([x], c) == x;
      assert Join(ls, c) == ls[0];
    }
  }

  lemma SplitSnocSeparator(s: string, c: char)
    ensures Split(s + [c], c) == Split(s, c) + [""]
  {
    var qs := Split(s, c);
    var ps := qs + [""];
    JoinSplit(s, c);
    JoinSnoc(qs, "", c);
    assert Join(ps, c) == s + [c];
    SplitPiecesFree(s, c);
    forall k | 0 <= k < |ps| ensures c !in ps[k] {
      if k < |qs| {
        assert ps[k] == qs[k];
      }
    }
    SplitJoin(ps, c);
  }

  lemma TrimNewlineEnd(x: string)
    requires '\n' !in x
    ensures Trim(x + ['\n'], Newline) == x
  {
    var y := x + ['\n'];
    if x == [] {
      assert y[1..] == [];
      assert TrimLeft(y, Newline) == [];
    } else {
      assert y[0] == x[0];
      assert x[0] in x;
      assert TrimLeft(y, Newline) == y;
      assert y[..|y| - 1] == x;
      assert TrimRight(y, Newline) == TrimRight(x, Newline);
      assert x[|x| - 1] in x;
    }
  }

  /** A file that ends in '\n' yields exactly its lines, with no spurious
      empty line after the last. */
  lemma FileLinesTerminated(data: string)
    requires data != [] && Last(data) == '\n'
    ensures FileLines(data) == Ok(Split(data[..|data| - 1], '\n'))
  {
    var body := data[..|data| - 1];
    assert data == body + ['\n'];
    CountAppend(body, ['\n'], '\n');
    var n := Count(data, '\n');
    FileLinesShape(data);
    SplitSnocSeparator(body, '\n');
    var ps, qs := Split(data, '\n'), Split(body, '\n');
    SplitLength(body, '\n');
    SplitPiecesFree(body, '\n');
    TrimNewlineEnd(qs[n - 1]);
    LastLineRestored(FileLines(data).value, ps, qs);
  }

  lemma LastLineRestored(ls: seq<string>, ps: seq<string>, qs: seq<string>)
    requires |ls| == |qs| >= 1 && ps == qs + [""]
    requires ls[..|ls| - 1] == ps[..|ls| - 1]
    requires ls[|ls| - 1] == Trim(ps[|ls| - 1] + ['\n'] + ps[|ls|], Newline)
    requires Trim(qs[|ls| - 1] + ['\n'], Newline) == qs[|ls| - 1]
    ensures ls == qs
  {
    var n := |ls|;
    assert ps[n] == "" && ps[n - 1] == qs[n - 1];
    assert ps[n - 1] + ['\n'] + ps[n] == qs[n - 1] + ['\n'];
    assert ps[..n - 1] == qs[..n - 1];
    assert ls == ls[..n - 1] + [ls[n - 1]];
    assert qs == qs[..n - 1] + [qs[n - 1]];
  }

  /** A file that does not end in '\n' yields a last line that still holds
      the file's final '\n' (unless the line before it is empty); the
      re-scan of its chunk splits it again. */
  lemma FileLinesUnterminated(data: string)
    requires Count(data, '\n') >= 1 && Last(data) != '\n'
    ensures var n, ps := Count(data, '\n'), Split(data, '\n');
      |ps| == n + 1 && FileLines(data).Ok? && |FileLines(data).value| == n &&
      (ps[n - 1] != "" ==> FileLines(data).value[n - 1] == ps[n - 1] + ['\n'] + ps[n])
  {
    var n, ps := Count(data, '\n'), Split(data, '\n');
    FileLinesShape(data);
    SplitPiecesFree(data, '\n');
    JoinSplit(data, '\n');
    if ps[n - 1] != "" {
      var piece := ps[n - 1] + ['\n'] + ps[n];
      assert ps[n] != [] && Last(ps[n]) == Last(data) by {
        LastPieceIsEnd(data, '\n');
      }
      assert piece[0] == ps[n - 1][0];
      assert TrimLeft(piece, Newline) == piece;
      assert Last(piece) == Last(ps[n]);
      assert TrimRight(piece, Newline) == piece;
    }
  }

  /** The last piece of a split is the end of the string. */
  lemma {:induction false} LastPieceIsEnd(s: string, c: char)
    requires s != [] && Last(s) != c
    ensures Last(Split(s, c)) != [] && Last(Last(Split(s, c))) == Last(s)
    decreases |s|
  {
    var i := Find(s, c);
    FindFirst(s, c);
    if i < |s| {
      var rest := s[i + 1..];
      assert rest[|rest| - 1] == s[|s| - 1];
      LastPieceIsEnd(rest, c);
      LastCons(s[..i], Split(rest, c));
    }
  }

  /** main.go:91-96: four static chunks cut at n/4, n/2 and n/2 + n/4. */
  function Partition(lines: seq<string>): seq<seq<string>>
  {
    var n := |lines|;
    [lines[..n / 4], lines[n / 4..n / 2], lines[n / 2..n / 2 + n / 4], lines[n / 2 + n / 4..]]
  }

  function Flatten<T>(chunks: seq<seq<T>>): seq<T>
  {
    if chunks == [] then [] else chunks[0] + Flatten(chunks[1..])
  }

  /** The chunks are contiguous, in order, and cover every line exactly
      once; their sizes are n/4, n/2 - n/4, n/4 and the rest. */
  lemma PartitionCovers(lines: seq<string>)
    ensures var n, chunks := |lines|, Partition(lines);
      |chunks| == 4 &&
      0 <= n / 4 <= n / 2 <= n / 2 + n / 4 <= n &&
      |chunks[0]| == n / 4 && |chunks[1]| == n / 2 - n / 4 &&
      |chunks[2]| == n / 4 && |chunks[3]| == n - n / 2 - n / 4 &&
      Flatten(chunks) == lines
  {
    var n, chunks := |lines|, Partition(lines);
    assert Flatten(chunks[3..]) == chunks[3] by {
      assert chunks[3..][1..] == [];
      assert chunks[3] + [] == chunks[3];
    }
    assert Flatten(chunks[2..]) == chunks[2] + chunks[3] by {
      assert chunks[2..][1..] == chunks[3..];
    }
    assert Flatten(chunks[1..]) == chunks[1] + (chunks[2] + chunks[3]) by {
      assert chunks[1..][1..] == chunks[2..];
    }
    assert Flatten(chunks) == chunks[0] + (chunks[1] + (chunks[2] + chunks[3]));
    assert lines == lines[..n / 4] + (lines[n / 4..n / 2] + (lines[n / 2..n / 2 + n / 4] + lines[n / 2 + n / 4..]));
  }

  /** main.go:109: the job handed to a worker is its chunk joined by '\n'. */
  function Jobs(chunks: seq<seq<string>>): (jobs: seq<string>)
    ensures |jobs| == |chunks|
  {
    if chunks == [] then [] else [Join(chunks[0], '\n')] + Jobs(chunks[1..])
  }

  function ClassifyJobs(jobs: seq<string>, expected: nat): (results: seq<seq<string>>)
    ensures |results| == |jobs|
  {
    if jobs == [] then [] else [RenderAll(Classify(Lines(jobs[0]), expected))] + ClassifyJobs(jobs[1..], expected)
  }

  /** What each of the four workers sends, chunk by chunk. */
  function ChunkResults(data: string, expected: nat): Result<seq<seq<string>>, FixError>
  {
    match FileLines(data)
    case Err(e) => Err(e)
    case Ok(lines) => Ok(ClassifyJobs(Jobs(Partition(lines)), expected))
  }

  /** fixFile up to the results channel: the line count, the split and
      trim, the partition, and one classifier run per chunk. The reader
      over the mapped file cannot fail, so check(err) never fires. */
  method FixFile(data: string, bufferSize: nat, expected: nat) returns (res: Result<seq<seq<string>>, FixError>)
    requires bufferSize > 0
    ensures res == ChunkResults(data, expected)
    ensures res.Err? <==> '\n' !in data
  {
    CountZero(data, '\n');
    var numLines, err := CountLines(Reader(data, 0, None), bufferSize);
    assert Reader(data, 0, None).Rest() == data;
    if numLines == 0 {
      return Err(IndexOutOfRange);
    }
    var lines := SplitN(data, '\n', numLines);
    SplitNLength(data, '\n', numLines);
    lines := lines[numLines - 1 := Trim(lines[numLines - 1], Newline)];
    var sub := Partition(lines);
    var jobs := Jobs(sub);
    var outs := RunWorkers(jobs, expected);
    return Ok(outs);
  }

  /** One classifier run per job, each on its own chunk. */
  method RunWorkers(jobs: seq<string>, expected: nat) returns (outs: seq<seq<string>>)
    ensures outs == ClassifyJobs(jobs, expected)
  {
    outs := [];
    for i := 0 to |jobs|
      invariant outs == ClassifyJobs(jobs[..i], expected)
    {
      var r := NormalizeLines(jobs[i], expected);
      ClassifyJobsSnoc(jobs[..i], jobs[i], expected);
      assert jobs[..i + 1] == jobs[..i] + [jobs[i]];
      outs := outs + [r];
    }
    assert jobs[..|jobs|] == jobs;
  }

  lemma {:induction false} ClassifyJobsSnoc(jobs: seq<string>, job: string, expected: nat)
    ensures ClassifyJobs(jobs + [job], expected) ==
      ClassifyJobs(jobs, expected) + [RenderAll(Classify(Lines(job), expected))]
  {
    if jobs == [] {
      assert [job][1..] == [];
    } else {
      assert (jobs + [job])[1..] == jobs[1..] + [job];
      ClassifyJobsSnoc(jobs[1..], job, expected);
    }
  }

  function ClassifyEach(chunks: seq<seq<string>>, expected: nat): seq<seq<Output>>
  {
    if chunks == [] then [] else [Classify(chunks[0], expected)] + ClassifyEach(chunks[1..], expected)
  }

  /** Classifying chunk by chunk agrees with classifying all lines in one
      run when no repair has to reach past a chunk's end: if every chunk but
      the last ends on a decision boundary, the per-chunk outputs, one chunk
      after another, are the sequential outputs. */
  lemma {:induction false} ChunkwiseIsSequential(chunks: seq<seq<string>>, expected: nat)
    requires forall i :: 0 <= i < |chunks| - 1 ==> Closed(chunks[i], expected)
    ensures Flatten(ClassifyEach(chunks, expected)) == Classify(Flatten(chunks), expected)
  {
    if chunks != [] {
      ChunkwiseIsSequential(chunks[1..], expected);
      if |chunks| == 1 {
        assert Flatten(chunks) == chunks[0] + Flatten(chunks[1..]);
        assert Flatten(chunks[1..]) == [];
        assert chunks[0] + [] == chunks[0];
        assert Flatten(ClassifyEach(chunks, expected)) == Classify(chunks[0], expected) + [];
      } else {
        assert Closed(chunks[0], expected);
        ClassifyAppend(chunks[0], Flatten(chunks[1..]), expected);
        assert ClassifyEach(chunks, expected)[1..] == ClassifyEach(chunks[1..], expected);
        assert Flatten(ClassifyEach(chunks, expected)) ==
          Classify(chunks[0], expected) + Flatten(ClassifyEach(chunks[1..], expected));
      }
    }
  }

  /** A chunk the re-scan gives back unchanged: no line holds '\n' or ends
      in '\r', and the last line is not empty. */
  ghost predicate Rescannable(chunk: seq<string>)
  {
    (forall k :: 0 <= k < |chunk| ==> '\n' !in chunk[k] && DropCR(chunk[k]) == chunk[k]) &&
    (chunk != [] ==> Last(chunk) != "")
  }

  lemma {:induction false} DropCRAllSame(ls: seq<string>)
    requires forall k :: 0 <= k < |ls| ==> DropCR(ls[k]) == ls[k]
    ensures DropCRAll(ls) == ls
  {
    if ls != [] {
      DropCRAllSame(ls[1..]);
      DropCRAllCons(ls[0], ls[1..]);
      assert ls == [ls[0]] + ls[1..];
    }
  }

  /** Joining a rescannable chunk with '\n' and scanning it again gives the
      chunk back. */
  lemma RescanChunk(chunk: seq<string>)
    requires Rescannable(chunk)
    ensures Lines(Join(chunk, '\n')) == chunk
  {
    LinesOfJoin(chunk);
    DropCRAllSame(chunk);
  }

  lemma {:induction false} RenderAllAppend(a: seq<Output>, b: seq<Output>)
    ensures RenderAll(a + b) == RenderAll(a) + RenderAll(b)
  {
    if a == [] {
      assert a + b == b;
    } else {
      assert (a + b)[1..] == a[1..] + b;
      RenderAllAppend(a[1..], b);
    }
  }

  /** What the workers send, job after job, is what one sequential run over
      all the lines would send, provided every chunk survives the re-join and
      re-scan unchanged and every chunk but the last ends on a decision
      boundary. */
  lemma {:induction false} JobsAreSequential(chunks: seq<seq<string>>, expected: nat)
    requires forall i :: 0 <= i < |chunks| ==> Rescannable(chunks[i])
    requires forall i :: 0 <= i < |chunks| - 1 ==> Closed(chunks[i], expected)
    ensures Flatten(ClassifyJobs(Jobs(chunks), expected)) == RenderAll(Classify(Flatten(chunks), expected))
  {
    if chunks != [] {
      var c, rest := chunks[0], chunks[1..];
      JobsAreSequential(rest, expected);
      RescanChunk(c);
      assert Jobs(chunks) == [Join(c, '\n')] + Jobs(rest);
      assert ClassifyJobs(Jobs(chunks), expected)[1..] == ClassifyJobs(Jobs(rest), expected);
      assert Flatten(ClassifyJobs(Jobs(chunks), expected)) ==
        RenderAll(Classify(c, expected)) + Flatten(ClassifyJobs(Jobs(rest), expected));
      assert Flatten(chunks) == c + Flatten(rest);
      if |chunks| == 1 {
        assert Flatten(rest) == [];
        assert c + [] == c;
      } else {
        assert Closed(c, expected);
        ClassifyAppend(c, Flatten(rest), expected);
        RenderAllAppend(Classify(c, expected), Classify(Flatten(rest), expected));
      }
    }
  }

  /** The caveat of static partitioning: a repair at the end of a chunk
      cannot see the next chunk's lines. With one '|' expected, the lines
      "a", "b|c", "d|e", "f|g" in one run repair "a" with the next two,
      but the four chunks of one line each repair "a" alone. */
  lemma PartitionSplitsRepair()
    ensures var lines := ["a", "b|c", "d|e", "f|g"];
      Classify(lines, 1)[0] == Output(Repaired, "ab|cd|e") &&
      Partition(lines)[0] == ["a"] &&
      Classify(Lines(Join(Partition(lines)[0], '\n')), 1) == [Output(Repaired, "a")]
  {
    var lines := ["a", "b|c", "d|e", "f|g"];
    WholeRunRepairs(lines);
    var chunk := Partition(lines)[0];
    assert chunk == ["a"];
    ChunkRunRepairs(chunk);
  }

  lemma WholeRunRepairs(lines: seq<string>)
    requires lines == ["a", "b|c", "d|e", "f|g"]
    ensures Classify(lines, 1)[0] == Output(Repaired, "ab|cd|e")
  {
    ExampleTrims();
    assert Count("a", '|') == 0;
    assert At(lines, 1) == "b|c" && At(lines, 2) == "d|e";
    assert "a" + "b|c" + "d|e" == "ab|cd|e";
    assert Decide(lines, 1) == Output(Repaired, "ab|cd|e");
    ClassifyUnfold(lines, 1);
  }

  lemma ChunkRunRepairs(chunk: seq<string>)
    requires chunk == ["a"]
    ensures Classify(Lines(Join(chunk, '\n')), 1) == [Output(Repaired, "a")]
  {
    ExampleTrims();
    assert Join(chunk, '\n') == "a";
    assert Find("a", '\n') == 1;
    assert DropCR("a") == "a";
    assert Lines("a") == chunk;
    assert Count("a", '|') == 0;
    assert "a" + "" + "" == "a";
    assert Decide(chunk, 1) == Output(Repaired, "a");
    ClassifyUnfold(chunk, 1);
    assert chunk[1..] == [];
  }

  lemma ExampleTrims()
    ensures TrimSpace("a") == "a" && TrimSpace("b|c") == "b|c" && TrimSpace("d|e") == "d|e" && TrimSpace("") == ""
  {
    assert TrimLeft("a", Whitespace) == "a" && TrimRight("a", Whitespace) == "a";
    assert TrimLeft("b|c", Whitespace) == "b|c" && TrimRight("b|c", Whitespace) == "b|c";
    assert TrimLeft("d|e", Whitespace) == "d|e" && TrimRight("d|e", Whitespace) == "d|e";
  }

  /** A schedule for the results channel: how the workers' sends
      interleave, naming for each received value the chunk that sent it. */
  ghost predicate Fits<T>(streams: seq<seq<T>>, schedule: seq<nat>)
  {
    (forall k :: 0 <= k < |schedule| ==> schedule[k] < |streams|) &&
    (forall i :: 0 <= i < |streams| ==> multiset(schedule)[i] == |streams[i]|)
  }

  /** The merged results stream under a schedule. */
  function Merge<T>(streams: seq<seq<T>>, schedule: seq<nat>): (merged: seq<T>)
    requires Fits(streams, schedule)
    ensures |merged| == |schedule|
    decreases |schedule|
  {
    if schedule == [] then []
    else
      var i := schedule[0];
      assert schedule == [i] + schedule[1..];
      assert multiset(schedule)[i] == multiset(schedule[1..])[i] + 1;
      var next := streams[i := streams[i][1..]];
      assert Fits(next, schedule[1..]) by {
        forall j | 0 <= j < |next| ensures multiset(schedule[1..])[j] == |next[j]| {
          assert multiset(schedule)[j] == multiset(schedule[1..])[j] + (if j == i then 1 else 0);
        }
      }
      [streams[i][0]] + Merge(next, schedule[1..])
  }

  /** The values the schedule attributes to chunk `i`, in arrival order. */
  function Pick<T>(merged: seq<T>, schedule: seq<nat>, i: nat): seq<T>
    requires |merged| == |schedule|
  {
    if schedule == [] then []
    else (if schedule[0] == i then [merged[0]] else []) + Pick(merged[1..], schedule[1..], i)
  }

  /** Whatever the interleaving, each chunk's results reach the router in
      the order its worker sent them. */
  lemma {:induction false} MergeKeepsChunkOrder<T>(streams: seq<seq<T>>, schedule: seq<nat>, i: nat)
    requires Fits(streams, schedule) && i < |streams|
    ensures Pick(Merge(streams, schedule), schedule, i) == streams[i]
    decreases |schedule|
  {
    if schedule == [] {
      assert multiset(schedule)[i] == 0;
    } else {
      var j := schedule[0];
      var next := streams[j := streams[j][1..]];
      assert schedule == [j] + schedule[1..];
      assert multiset(schedule)[j] == multiset(schedule[1..])[j] + 1;
      assert Fits(next, schedule[1..]) by {
        forall k | 0 <= k < |next| ensures multiset(schedule[1..])[k] == |next[k]| {
          assert multiset(schedule)[k] == multiset(schedule[1..])[k] + (if k == j then 1 else 0);
        }
      }
      var merged := Merge(streams, schedule);
      assert merged[1..] == Merge(next, schedule[1..]);
      MergeKeepsChunkOrder(next, schedule[1..], i);
      if j == i {
        assert streams[i] == [streams[i][0]] + next[i];
      }
    }
  }
}
