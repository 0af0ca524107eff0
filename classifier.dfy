/** normalizeLines (main.go:131-184): the record classifier one worker runs
    over one chunk. Each line is judged by its count of '|' against the
    expected count: too few starts a record split by an embedded line break,
    which is repaired by gluing on the next two lines; too many is passed
    through as bad; exactly right is normalized field by field. */
module Classifier {
  import opened Text
  import opened LineScanner

  datatype Kind = Good | Repaired | Bad

  /** One decision of the classifier, tagged. */
  datatype Output = Output(kind: Kind, text: string)

  /** The string a worker sends on the results channel: repaired and bad
      texts carry their tag as a prefix, a good text carries none. */
  function Render(o: Output): string
  {
    match o.kind
    case Good => o.text
    case Repaired => "trimmed:" + o.text
    case Bad => "bad:" + o.text
  }

  function RenderAll(os: seq<Output>): (r: seq<string>)
    ensures |r| == |os|
  {
    if os == [] then [] else [Render(os[0])] + RenderAll(os[1..])
  }

  /** Text() of the scanner k lines on: the line if there is one, else "". */
  function At(ls: seq<string>, k: nat): string
  {
    if k < |ls| then ls[k] else ""
  }

  /** What the good branch writes for one field: the trimmed field, then
      the escaped delimiter `\|`, or a line break when the field holds one. */
  function Field(v: string): string
  {
    TrimSpace(v) + (if '\n' in v then "\n" else "\\|")
  }

  function GoodText(vs: seq<string>): string
  {
    if vs == [] then "" else Field(vs[0]) + GoodText(vs[1..])
  }

  /** Lines a run of decisions takes from the scanner when each repair
      takes three. */
  function Weight(os: seq<Output>): nat
  {
    if os == [] then 0 else (if os[0].kind == Repaired then 3 else 1) + Weight(os[1..])
  }

  /** The decision taken for the line at the head of `ls`, which may look
      at the two lines after it. */
  function Decide(ls: seq<string>, expected: nat): Output
    requires ls != []
  {
    var line := ls[0];
    var delims := Count(line, '|');
    if delims < expected then
      Output(Repaired, TrimSpace(line) + TrimSpace(At(ls, 1)) + TrimSpace(At(ls, 2)))
    else if delims > expected then
      Output(Bad, line)
    else
      Output(Good, GoodText(Split(line, '|')))
  }

  /** How many lines that decision consumes: three for a repair, as far as
      the chunk has them, else one. */
  function Step(ls: seq<string>, expected: nat): (n: nat)
    requires ls != []
    ensures 1 <= n <= |ls|
    ensures n == (if Decide(ls, expected).kind == Repaired then Min(3, |ls|) else 1)
  {
    if Count(ls[0], '|') < expected then Min(3, |ls|) else 1
  }

  /** The decisions normalizeLines takes over the lines `ls` of one chunk,
      in line order. */
  function Classify(ls: seq<string>, expected: nat): (os: seq<Output>)
    decreases |ls|
  {
    if ls == [] then []
    else
      [Decide(ls, expected)] + Classify(ls[Step(ls, expected)..], expected)
  }

  /** Every line is consumed by exactly one decision, a repair consuming
      three: there are at most as many outputs as lines, and only a repair
      that runs off the end of the chunk takes fewer than three, so the
      lines the decisions account for overshoot by at most two. */
  lemma {:induction false} ClassifyConsumesEveryLine(ls: seq<string>, expected: nat)
    ensures |Classify(ls, expected)| <= |ls|
    ensures |ls| <= Weight(Classify(ls, expected)) <= |ls| + 2
    decreases |ls|
  {
    if ls != [] {
      var rest := ls[Step(ls, expected)..];
      ClassifyConsumesEveryLine(rest, expected);
      WeightCons(Decide(ls, expected), Classify(rest, expected));
    }
  }

  lemma WeightCons(o: Output, os: seq<Output>)
    ensures Weight([o] + os) == (if o.kind == Repaired then 3 else 1) + Weight(os)
  {
    assert ([o] + os)[1..] == os;
  }

  /** The lines end on a decision boundary: no repair runs past the end. */
  ghost predicate Closed(ls: seq<string>, expected: nat)
    decreases |ls|
  {
    ls == [] ||
    (Count(ls[0], '|') < expected && |ls| >= 3 && Closed(ls[3..], expected)) ||
    (Count(ls[0], '|') >= expected && Closed(ls[1..], expected))
  }

  /** The decisions consume exactly the lines of the chunk if and only if
      the chunk ends on a decision boundary. */
  lemma {:induction false} WeightExactIffClosed(ls: seq<string>, expected: nat)
    ensures Weight(Classify(ls, expected)) == |ls| <==> Closed(ls, expected)
    decreases |ls|
  {
    if ls != [] {
      var rest := ls[Step(ls, expected)..];
      WeightCons(Decide(ls, expected), Classify(rest, expected));
      WeightExactIffClosed(rest, expected);
    }
  }

  /** Outputs follow line order: lines that end on a decision boundary are
      classified the same whatever follows them, and ahead of it. */
  lemma {:induction false} ClassifyAppend(a: seq<string>, b: seq<string>, expected: nat)
    requires Closed(a, expected)
    ensures Classify(a + b, expected) == Classify(a, expected) + Classify(b, expected)
    decreases |a|
  {
    if a == [] {
      assert a + b == b;
    } else {
      var n := Step(a, expected);
      ClassifyAppendStep(a, b, expected);
      ClassifyAppend(a[n..], b, expected);
      ClassifyUnfold(a, expected);
      var d, x, y := Decide(a, expected), Classify(a[n..], expected), Classify(b, expected);
      AppendAssoc([d], x, y);
    }
  }

  lemma AppendAssoc<T>(d: seq<T>, x: seq<T>, y: seq<T>)
    ensures d + (x + y) == (d + x) + y
  {
  }

  lemma ClassifyAppendStep(a: seq<string>, b: seq<string>, expected: nat)
    requires a != [] && Closed(a, expected)
    ensures Closed(a[Step(a, expected)..], expected)
    ensures Classify(a + b, expected) ==
      [Decide(a, expected)] + Classify(a[Step(a, expected)..] + b, expected)
  {
    DecideAppend(a, b, expected);
    assert (a + b)[Step(a, expected)..] == a[Step(a, expected)..] + b;
    ClassifyUnfold(a + b, expected);
  }

  lemma ClassifyUnfold(ls: seq<string>, expected: nat)
    requires ls != []
    ensures Classify(ls, expected) == [Decide(ls, expected)] + Classify(ls[Step(ls, expected)..], expected)
  {
  }

  lemma DecideAppend(a: seq<string>, b: seq<string>, expected: nat)
    requires a != [] && Closed(a, expected)
    ensures Step(a + b, expected) == Step(a, expected)
    ensures Decide(a + b, expected) == Decide(a, expected)
    ensures Closed(a[Step(a, expected)..], expected)
  {
    assert (a + b)[0] == a[0];
    if Count(a[0], '|') < expected {
      assert (a + b)[1] == a[1] && (a + b)[2] == a[2];
    }
  }

  /** The fields with their delimiter escaped: each trimmed field followed by `\`. */
  function Escaped(vs: seq<string>): (r: seq<string>)
    ensures |r| == |vs|
  {
    if vs == [] then [] else [TrimSpace(vs[0]) + "\\"] + Escaped(vs[1..])
  }

  function TrimAll(vs: seq<string>): (r: seq<string>)
    ensures |r| == |vs|
  {
    if vs == [] then [] else [TrimSpace(vs[0])] + TrimAll(vs[1..])
  }

  function DropLastEach(ps: seq<string>): (r: seq<string>)
    ensures |r| == |ps|
  {
    if ps == [] then []
    else [if ps[0] == [] then [] else ps[0][..|ps[0]| - 1]] + DropLastEach(ps[1..])
  }

  /** Reading a good text back: split it at its `|` bytes and delete the
      `\` before each; the empty piece after the final `\|` is dropped. */
  function Unescape(out: string): seq<string>
  {
    var ps := Split(out, '|');
    DropLastEach(ps[..|ps| - 1])
  }

  /** With no line break in any field, a good text is the escaped fields
      joined by `|` and closed by one more. */
  lemma {:induction false} GoodTextIsJoin(vs: seq<string>)
    requires forall k :: 0 <= k < |vs| ==> '\n' !in vs[k]
    ensures GoodText(vs) == Join(Escaped(vs) + [""], '|')
  {
    if vs != [] {
      GoodTextIsJoin(vs[1..]);
      var tail := Escaped(vs[1..]) + [""];
      assert Escaped(vs) + [""] == [TrimSpace(vs[0]) + "\\"] + tail;
      assert (Escaped(vs) + [""])[1..] == tail;
    }
  }

  lemma {:induction false} UnescapeEscaped(vs: seq<string>)
    ensures DropLastEach(Escaped(vs)) == TrimAll(vs)
  {
    if vs != [] {
      UnescapeEscaped(vs[1..]);
      var e := TrimSpace(vs[0]) + "\\";
      assert e[..|e| - 1] == TrimSpace(vs[0]);
    }
  }

  /** Every `|` of `s` is the second byte of an escaped delimiter `\|`. */
  ghost predicate BarsEscaped(s: string)
  {
    forall i :: 0 <= i < |s| && s[i] == '|' ==> i > 0 && s[i - 1] == '\\'
  }

  lemma BarsEscapedCons(t: string, r: string)
    requires '|' !in t && BarsEscaped(r)
    ensures BarsEscaped(t + "\\|" + r)
  {
    var out := t + "\\|" + r;
    forall i | 0 <= i < |out| && out[i] == '|'
      ensures i > 0 && out[i - 1] == '\\'
    {
      if i > |t| + 1 {
        assert out[i] == r[i - |t| - 2];
      }
    }
  }

  /** Every `|` of a good text is the second byte of an escaped delimiter. */
  lemma {:induction false} GoodTextEscapesEveryBar(vs: seq<string>)
    requires forall k :: 0 <= k < |vs| ==> '\n' !in vs[k] && '|' !in vs[k]
    ensures BarsEscaped(GoodText(vs))
  {
    if vs != [] {
      GoodTextEscapesEveryBar(vs[1..]);
      TrimKeepsAbsent(vs[0], Whitespace, '|');
      assert Field(vs[0]) == TrimSpace(vs[0]) + "\\|";
      assert GoodText(vs) == TrimSpace(vs[0]) + "\\|" + GoodText(vs[1..]);
      BarsEscapedCons(TrimSpace(vs[0]), GoodText(vs[1..]));
    }
  }

  /** A record with exactly the expected count of '|' and no line break
      becomes a good text with one more `|` than it had, each escaped, and
      deleting the escapes gives back its expected+1 fields, trimmed, in
      order. */
  lemma GoodRecord(line: string, expected: nat)
    requires Count(line, '|') == expected && '\n' !in line
    ensures var vs := Split(line, '|');
      var out := GoodText(vs);
      |vs| == expected + 1 &&
      Count(out, '|') == expected + 1 &&
      BarsEscaped(out) &&
      Unescape(out) == TrimAll(vs)
  {
    var vs := Split(line, '|');
    SplitLength(line, '|');
    SplitPiecesFree(line, '|');
    SplitPiecesLack(line, '|', '\n');
    GoodTextIsJoin(vs);
    GoodTextEscapesEveryBar(vs);
    var ps := Escaped(vs) + [""];
    forall k | 0 <= k < |ps| ensures '|' !in ps[k] {
      if k < |vs| {
        EscapedAt(vs, k);
        TrimKeepsAbsent(vs[k], Whitespace, '|');
      }
    }
    SplitJoin(ps, '|');
    SplitLength(GoodText(vs), '|');
    assert ps[..|ps| - 1] == Escaped(vs);
    UnescapeEscaped(vs);
  }

  lemma {:induction false} EscapedAt(vs: seq<string>, k: nat)
    requires k < |vs|
    ensures Escaped(vs)[k] == TrimSpace(vs[k]) + "\\"
  {
    if k > 0 {
      EscapedAt(vs[1..], k - 1);
    }
  }

  lemma GoodTextSnoc(vs: seq<string>, v: string)
    ensures GoodText(vs + [v]) == GoodText(vs) + Field(v)
  {
    if vs == [] {
      assert [v][1..] == [];
    } else {
      assert (vs + [v])[1..] == vs[1..] + [v];
      GoodTextSnoc(vs[1..], v);
    }
  }

  /** The scanner lines still to be classified: the current token and the
      rest of the input, or nothing once Scan has failed. */
  function Pending(more: bool, token: string, rest: string): seq<string>
  {
    if more then [token] + Lines(rest) else []
  }

  lemma RenderClassifyUnfold(ls: seq<string>, expected: nat)
    requires ls != []
    ensures RenderAll(Classify(ls, expected)) ==
      [Render(Decide(ls, expected))] + RenderAll(Classify(ls[Step(ls, expected)..], expected))
  {
    ClassifyUnfold(ls, expected);
    var os := Classify(ls, expected);
    assert os[1..] == Classify(ls[Step(ls, expected)..], expected);
  }

  /** The good branch of normalizeLines: each field trimmed and followed
      by the escaped delimiter, or by a line break when it holds one. */
  method NormalizeRecord(values: seq<string>) returns (goodBuf: string)
    ensures goodBuf == GoodText(values)
  {
    goodBuf := "";
    for k := 0 to |values|
      invariant goodBuf == GoodText(values[..k])
    {
      var value := values[k];
      var trimmedValue := TrimSpace(value);
      goodBuf := goodBuf + trimmedValue;
      if '\n' !in value {
        goodBuf := goodBuf + "\\|";
      } else {
        goodBuf := goodBuf + "\n";
      }
      GoodTextSnoc(values[..k], value);
      assert values[..k + 1] == values[..k] + [value];
    }
    assert values[..|values|] == values;
  }

  /** A Scan past the k-th pending line yields it, or "" when there is none. */
  lemma ScanFollows(pending: seq<string>, k: nat, more: bool, token: string, after: seq<string>)
    requires pending[Min(k, |pending|)..] == (if more then [token] + after else [])
    requires !more ==> token == "" && after == []
    ensures token == At(pending, k) && after == pending[Min(k + 1, |pending|)..]
  {
    if more {
      assert pending[Min(k, |pending|)..][0] == pending[k];
      assert pending[Min(k + 1, |pending|)..] == pending[Min(k, |pending|)..][1..];
    }
  }

  /** The repair branch of normalizeLines: the current line glued to the
      next two the scanner yields, each trimmed, under the "trimmed:" tag;
      the two lines are consumed. */
  method RepairRecord(scanner: Scanner, line: string, ghost pending: seq<string>) returns (fixBuf: string)
    requires pending != [] && pending == [line] + Lines(scanner.rest)
    modifies scanner
    ensures fixBuf == "trimmed:" + (TrimSpace(line) + TrimSpace(At(pending, 1)) + TrimSpace(At(pending, 2)))
    ensures Lines(scanner.rest) == pending[Min(3, |pending|)..]
    ensures |scanner.rest| <= |old(scanner.rest)|
  {
    fixBuf := "trimmed:";
    fixBuf := fixBuf + TrimSpace(line);
    assert pending[Min(1, |pending|)..] == Lines(scanner.rest);
    var more2 := scanner.Scan();
    var line2 := scanner.token;
    ScanFollows(pending, 1, more2, line2, Lines(scanner.rest));
    fixBuf := fixBuf + TrimSpace(line2);
    var more3 := scanner.Scan();
    var line3 := scanner.token;
    ScanFollows(pending, 2, more3, line3, Lines(scanner.rest));
    fixBuf := fixBuf + TrimSpace(line3);
    AppendAssoc("trimmed:", TrimSpace(line), TrimSpace(line2));
    AppendAssoc("trimmed:", TrimSpace(line) + TrimSpace(line2), TrimSpace(line3));
  }

  /** One turn of normalizeLines: sending the rendering of the decision at
      the head of the pending lines leaves the lines after it pending. */
  lemma NextDecision(results: seq<string>, pending: seq<string>, out: string, rest: string,
                     expected: nat, target: seq<string>)
    requires pending != [] && out == Render(Decide(pending, expected))
    requires Lines(rest) == pending[Step(pending, expected)..]
    requires results + RenderAll(Classify(pending, expected)) == target
    ensures (results + [out]) + RenderAll(Classify(Lines(rest), expected)) == target
  {
    RenderClassifyUnfold(pending, expected);
    AppendAssoc(results, [out], RenderAll(Classify(Lines(rest), expected)));
  }

  /** normalizeLines over one job: what it sends on the results channel is
      the rendering of the decisions Classify takes over the job's lines. */
  method NormalizeLines(job: string, expected: nat) returns (results: seq<string>)
    ensures results == RenderAll(Classify(Lines(job), expected))
  {
    var scanner := new Scanner(job);
    results := [];
    var more := scanner.Scan();
    while more
      invariant !more ==> scanner.rest == []
      invariant results + RenderAll(Classify(Pending(more, scanner.token, scanner.rest), expected))
                == RenderAll(Classify(Lines(job), expected))
      decreases |scanner.rest| + (if more then 1 else 0)
    {
      ghost var pending := [scanner.token] + Lines(scanner.rest);
      var line := scanner.token;
      var delimCount := Count(line, '|');
      var values := Split(line, '|');
      var out: string;
      if delimCount < expected {
        out := RepairRecord(scanner, line, pending);
      } else if delimCount > expected {
        var badBuf := "bad:";
        badBuf := badBuf + line;
        out := badBuf;
      } else {
        out := NormalizeRecord(values);
      }
      NextDecision(results, pending, out, scanner.rest, expected, RenderAll(Classify(Lines(job), expected)));
      results := results + [out];
      more := scanner.Scan();
    }
  }
}
