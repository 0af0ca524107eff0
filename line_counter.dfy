/** countLines (main.go:192-211): the newline counter that sizes the line
    split. It reads its input through a fixed-size buffer, one window per
    Read call, and adds up the '\n' bytes of each window. */
module LineCounter {
  import opened Text
  import opened Results

  datatype ReadError = EOF | Fault

  /** An io.Reader over `data` that has delivered `pos` bytes so far and
      behaves as a bytes.Reader: each Read copies as much of the rest as
      fits and an exhausted reader answers io.EOF. `faultAt`, when present
      and inside the data, is where a failing reader stops delivering and
      answers a non-EOF error instead; the in-memory reader of the source
      has none. */
  datatype Reader = Reader(data: string, pos: nat, faultAt: Option<nat>)
  {
    predicate Valid() { pos <= |data| }

    predicate Faults() { faultAt.Some? && faultAt.value < |data| }

    /** Where delivery stops: the end of the data or the fault. */
    function End(): nat { if Faults() then faultAt.value else |data| }

    /** The bytes this reader will still deliver. */
    function Rest(): string
      requires Valid()
    {
      data[Min(pos, End())..End()]
    }
  }

  /** One Read call into `buf`. */
  method Read(r: Reader, buf: array<char>) returns (n: nat, err: Option<ReadError>, next: Reader)
    requires r.Valid()
    modifies buf
    ensures next == r.(pos := r.pos + n) && next.Valid()
    ensures r.pos < r.End() ==> err == None && n == Min(buf.Length, r.End() - r.pos)
    ensures r.pos < r.End() ==> buf[..n] == r.data[r.pos..r.pos + n]
    ensures r.pos >= r.End() ==> n == 0 && err == Some(if r.Faults() then Fault else EOF)
  {
    if r.pos >= r.End() {
      return 0, Some(if r.Faults() then Fault else EOF), r;
    }
    n := Min(buf.Length, r.End() - r.pos);
    for k := 0 to n
      invariant buf[..k] == r.data[r.pos..r.pos + k]
    {
      buf[k] := r.data[r.pos + k];
    }
    err, next := None, r.(pos := r.pos + n);
  }

  /** countLines: the number of '\n' bytes the reader delivers before
      io.EOF, for any positive buffer size; on any other error, that error
      with the count so far, which by then covers every delivered byte. */
  method CountLines(r: Reader, bufferSize: nat) returns (lineCount: nat, err: Option<ReadError>)
    requires r.Valid()
    requires bufferSize > 0
    ensures lineCount == Count(r.Rest(), '\n')
    ensures err == (if r.Faults() then Some(Fault) else None)
  {
    var buf := new char[bufferSize];
    lineCount := 0;
    var rd := r;
    while true
      invariant rd.Valid() && rd.data == r.data && rd.faultAt == r.faultAt
      invariant lineCount + Count(rd.Rest(), '\n') == Count(r.Rest(), '\n')
      decreases |rd.data| - rd.pos
    {
      var c, e, next := Read(rd, buf);
      if e.Some? && e != Some(EOF) {
        return lineCount, e;
      }
      lineCount := lineCount + Count(buf[..c], '\n');
      if e == Some(EOF) {
        return lineCount, None;
      }
      ConsumeWindow(rd, c);
      rd := next;
    }
  }

  /** The bytes still to come are the window just read followed by what
      comes after it. */
  lemma ConsumeWindow(r: Reader, n: nat)
    requires r.Valid() && r.pos + n <= r.End()
    ensures Count(r.Rest(), '\n') == Count(r.data[r.pos..r.pos + n], '\n') + Count(r.(pos := r.pos + n).Rest(), '\n')
  {
    assert r.Rest() == r.data[r.pos..r.pos + n] + r.(pos := r.pos + n).Rest();
    CountAppend(r.data[r.pos..r.pos + n], r.(pos := r.pos + n).Rest(), '\n');
  }
}
