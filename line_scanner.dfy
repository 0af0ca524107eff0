/** The bufio.Scanner with its default ScanLines split that normalizeLines
    (main.go:135-137) runs over one re-joined chunk. */
module LineScanner {
  import opened Text

  /** A line token loses one trailing '\r'. */
  function DropCR(s: string): string
  {
    if s != [] && Last(s) == '\r' then s[..|s| - 1] else s
  }

  function DropCRAll(ls: seq<string>): (r: seq<string>)
    ensures |r| == |ls|
  {
    if ls == [] then [] else [DropCR(ls[0])] + DropCRAll(ls[1..])
  }

  /** The tokens ScanLines cuts from `s`: the text up to each '\n', less a
      trailing '\r', and the unterminated text after the last '\n' when
      there is any. Each token consumes at least one byte. */
  function Lines(s: string): (ls: seq<string>)
    ensures |ls| <= |s|
    decreases |s|
  {
    if s == [] then []
    else
      var i := Find(s, '\n');
      if i == |s| then [DropCR(s)] else [DropCR(s[..i])] + Lines(s[i + 1..])
  }

  /** No token holds a '\n', so the line-break branch of the good path
      (main.go:174-176) can never be taken. */
  lemma {:induction false} LinesHaveNoNewline(s: string)
    ensures forall k :: 0 <= k < |Lines(s)| ==> '\n' !in Lines(s)[k]
    decreases |s|
  {
    if s != [] {
      var i := Find(s, '\n');
      FindFirst(s, '\n');
      if i < |s| {
        var rest := s[i + 1..];
        LinesHaveNoNewline(rest);
        DropCRKeepsAbsent(s[..i], '\n');
        ConsLacks(DropCR(s[..i]), Lines(rest), '\n');
      } else {
        DropCRKeepsAbsent(s, '\n');
      }
    }
  }

  lemma DropCRKeepsAbsent(s: string, c: char)
    requires c !in s
    ensures c !in DropCR(s)
  {
    if s != [] && Last(s) == '\r' {
      AbsentFromSlice(s, c, 0, |s| - 1);
    }
  }

  lemma LinesOfFirst(a: string, b: string)
    requires '\n' !in a
    ensures Lines(a + ['\n'] + b) == [DropCR(a)] + Lines(b)
  {
    var s := a + ['\n'] + b;
    FindAfter(a, '\n', b);
    assert s != [] && Find(s, '\n') < |s|;
    assert s[..|a|] == a;
    assert s[|a| + 1..] == b;
  }

  /** Re-scanning lines joined with '\n' gives them back, each less one
      trailing '\r', except that a final empty line disappears. */
  lemma {:induction false} LinesOfJoin(ls: seq<string>)
    requires forall k :: 0 <= k < |ls| ==> '\n' !in ls[k]
    ensures Lines(Join(ls, '\n')) ==
      if ls != [] && Last(ls) == "" then DropCRAll(ls[..|ls| - 1]) else DropCRAll(ls)
  {
    if |ls| == 1 {
      assert ls[..0] == [];
      FindFirst(ls[0], '\n');
    } else if |ls| > 1 {
      var tail := ls[1..];
      assert Join(ls, '\n') == ls[0] + ['\n'] + Join(tail, '\n');
      LinesOfFirst(ls[0], Join(tail, '\n'));
      LinesOfJoin(tail);
      assert Last(ls) == Last(tail);
      if Last(tail) == "" {
        DropCRAllCons(ls[0], tail[..|tail| - 1]);
        assert ls[..|ls| - 1] == [ls[0]] + tail[..|tail| - 1];
      } else {
        DropCRAllCons(ls[0], tail);
        assert ls == [ls[0]] + tail;
      }
    }
  }

  lemma DropCRAllCons(x: string, ls: seq<string>)
    ensures DropCRAll([x] + ls) == [DropCR(x)] + DropCRAll(ls)
  {
    assert ([x] + ls)[1..] == ls;
  }

  /** bufio.Scanner over an in-memory input. */
  class Scanner {
    /** The input not yet cut into tokens. */
    var rest: string
    /** What Text() returns: the last token cut, or "" after a failed Scan. */
    var token: string

    constructor (input: string)
      ensures rest == input && token == ""
    {
      rest, token := input, "";
    }

    /** Scan cuts the next token off the input; once the input is exhausted
        it answers false and leaves an empty token. */
    method Scan() returns (more: bool)
      modifies this
      ensures more == (old(rest) != [])
      ensures Lines(old(rest)) == if more then [token] + Lines(rest) else []
      ensures more ==> |rest| < |old(rest)|
      ensures !more ==> token == "" && rest == []
    {
      if rest == [] {
        token := "";
        return false;
      }
      var i := Find(rest, '\n');
      if i == |rest| {
        token, rest := DropCR(rest), [];
      } else {
        token, rest := DropCR(rest[..i]), rest[i + 1..];
      }
      return true;
    }
  }
}
