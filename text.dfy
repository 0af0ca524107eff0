/** Byte-string operations of Go's standard library that the line-repair
    pipeline relies on: bytes.Count/strings.Count, bytes.IndexByte and
    strings.IndexAny with a one-byte set, strings.Split, bytes.SplitN,
    bytes.Join, bytes.Trim, strings.TrimSpace and strings.HasPrefix.
    A `char` stands for one byte of the input. */
module Text {

  function Min(a: nat, b: nat): nat { if a <= b then a else b }

  /** Number of occurrences of the byte `c` in `s`. */
  function Count(s: string, c: char): nat
  {
    if s == [] then 0 else (if s[0] == c then 1 else 0) + Count(s[1..], c)
  }

  /** No occurrence counted means the byte is absent, and conversely. */
  lemma {:induction false} CountZero(s: string, c: char)
    ensures Count(s, c) == 0 <==> c !in s
  {
    if s != [] {
      CountZero(s[1..], c);
      assert s == [s[0]] + s[1..];
    }
  }

  lemma {:induction false} CountAppend(a: string, b: string, c: char)
    ensures Count(a + b, c) == Count(a, c) + Count(b, c)
  {
    if a == [] {
      assert a + b == b;
    } else {
      assert (a + b)[1..] == a[1..] + b;
      CountAppend(a[1..], b, c);
    }
  }

  /** bytes.IndexByte: the position of the first `c` in `s`, except that
      an absent byte gives |s| here where Go answers -1. */
  function Find(s: string, c: char): (i: nat)
    ensures i <= |s|
  {
    if s == [] || s[0] == c then 0 else 1 + Find(s[1..], c)
  }

  /** Find stops at the first `c`, and reaches |s| only when there is none. */
  lemma {:induction false} FindFirst(s: string, c: char)
    ensures Find(s, c) == |s| <==> c !in s
    ensures Find(s, c) < |s| ==> s[Find(s, c)] == c
    ensures c !in s[..Find(s, c)]
  {
    if s != [] && s[0] != c {
      FindFirst(s[1..], c);
      var j := Find(s[1..], c);
      assert s == [s[0]] + s[1..];
      assert s[..j + 1] == [s[0]] + s[1..][..j];
    }
  }

  /** A `c` at position k bounds where Find stops. */
  lemma {:induction false} FindBound(s: string, c: char, k: nat)
    requires k < |s| && s[k] == c
    ensures Find(s, c) <= k
  {
    if s[0] != c {
      FindBound(s[1..], c, k - 1);
    }
  }

  lemma FindAfter(a: string, c: char, b: string)
    requires c !in a
    ensures Find(a + [c] + b, c) == |a|
  {
    var s := a + [c] + b;
    FindFirst(s, c);
    FindBound(s, c, |a|);
    assert s[..Find(s, c)] == a[..Find(s, c)];
  }

  /** The byte occurs exactly when Find stops inside the string. */
  lemma {:induction false} CountFound(s: string, c: char)
    ensures Count(s, c) >= 1 <==> Find(s, c) < |s|
  {
    if s != [] && s[0] != c {
      CountFound(s[1..], c);
    }
  }

  /** Everything counted after the first occurrence, plus that one. */
  lemma {:induction false} CountAfterFirst(s: string, c: char)
    requires Find(s, c) < |s|
    ensures Count(s, c) == Count(s[Find(s, c) + 1..], c) + 1
  {
    if s[0] != c {
      var j := Find(s[1..], c);
      CountAfterFirst(s[1..], c);
      assert s[1..][j + 1..] == s[j + 2..];
    }
  }

  /** strings.Split with a one-byte separator: the pieces between the
      separators. */
  function Split(s: string, c: char): (r: seq<string>)
    ensures |r| >= 1
    decreases |s|
  {
    var i := Find(s, c);
    if i == |s| then [s] else [s[..i]] + Split(s[i + 1..], c)
  }

  /** There is always one piece more than there are separators. */
  lemma {:induction false} SplitLength(s: string, c: char)
    ensures |Split(s, c)| == Count(s, c) + 1
    decreases |s|
  {
    var i := Find(s, c);
    CountFound(s, c);
    if i < |s| {
      CountAfterFirst(s, c);
      SplitLength(s[i + 1..], c);
    }
  }

  /** No piece of a split holds the separator. */
  lemma {:induction false} SplitPiecesFree(s: string, c: char)
    ensures forall k :: 0 <= k < |Split(s, c)| ==> c !in Split(s, c)[k]
    decreases |s|
  {
    var i := Find(s, c);
    FindFirst(s, c);
    if i < |s| {
      var rest := s[i + 1..];
      SplitPiecesFree(rest, c);
      ConsLacks(s[..i], Split(rest, c), c);
    }
  }

  /** A byte absent from a string is absent from every piece of its split. */
  lemma {:induction false} SplitPiecesLack(s: string, c: char, d: char)
    requires d !in s
    ensures forall k :: 0 <= k < |Split(s, c)| ==> d !in Split(s, c)[k]
    decreases |s|
  {
    var i := Find(s, c);
    if i < |s| {
      var rest := s[i + 1..];
      AbsentFromSlice(s, d, 0, i);
      AbsentFromSlice(s, d, i + 1, |s|);
      SplitPiecesLack(rest, c, d);
      ConsLacks(s[..i], Split(rest, c), d);
    }
  }

  /** A byte absent from a string and from every string of a sequence is
      absent from every string of the longer sequence. */
  lemma ConsLacks(x: string, t: seq<string>, c: char)
    requires c !in x
    requires forall k :: 0 <= k < |t| ==> c !in t[k]
    ensures forall k :: 0 <= k < |[x] + t| ==> c !in ([x] + t)[k]
  {
    forall k | 0 <= k < |[x] + t| ensures c !in ([x] + t)[k] {
      if k > 0 {
        assert ([x] + t)[k] == t[k - 1];
      }
    }
  }

  /** bytes.Join with a one-byte separator. */
  function Join(ls: seq<string>, c: char): string
  {
    if |ls| == 0 then []
    else if |ls| == 1 then ls[0]
    else ls[0] + [c] + Join(ls[1..], c)
  }

  /** Joining the pieces of a split gives back the string. */
  lemma {:induction false} JoinSplit(s: string, c: char)
    ensures Join(Split(s, c), c) == s
    decreases |s|
  {
    var i := Find(s, c);
    if i < |s| {
      var rest := s[i + 1..];
      JoinSplit(rest, c);
      FindFirst(s, c);
      JoinCons(s[..i], Split(rest, c), c);
      Reassemble(s, i);
    }
  }

  /** Joining a piece in front of a non-empty sequence of pieces. */
  lemma JoinCons(x: string, t: seq<string>, c: char)
    requires t != []
    ensures Join([x] + t, c) == x + [c] + Join(t, c)
  {
    assert ([x] + t)[1..] == t;
  }

  /** A string is what comes before position i, the byte there, and what
      follows it. */
  lemma Reassemble(s: string, i: nat)
    requires i < |s|
    ensures s == s[..i] + [s[i]] + s[i + 1..]
  {
  }

  /** Splitting a join gives back the pieces when none holds the separator. */
  lemma {:induction false} SplitJoin(ls: seq<string>, c: char)
    requires |ls| >= 1
    requires forall k :: 0 <= k < |ls| ==> c !in ls[k]
    ensures Split(Join(ls, c), c) == ls
  {
    if |ls| > 1 {
      var s, tail := Join(ls, c), Join(ls[1..], c);
      assert s == ls[0] + [c] + tail;
      FindAfter(ls[0], c, tail);
      assert s[|ls[0]| + 1..] == tail;
      assert s[..|ls[0]|] == ls[0];
      SplitJoin(ls[1..], c);
    } else {
      FindFirst(ls[0], c);
    }
  }

  /** bytes.SplitN with a one-byte separator: for n > 0 at most n pieces,
      the last of which keeps the unsplit remainder; nothing when n == 0. */
  function SplitN(s: string, c: char, n: nat): seq<string>
    decreases n
  {
    if n == 0 then []
    else
      var i := Find(s, c);
      if n == 1 || i == |s| then [s] else [s[..i]] + SplitN(s[i + 1..], c, n - 1)
  }

  /** SplitN yields n pieces when the string has at least n-1 separators,
      else one more than it has. */
  lemma {:induction false} SplitNLength(s: string, c: char, n: nat)
    ensures n == 0 ==> SplitN(s, c, n) == []
    ensures 0 < n <= Count(s, c) + 1 ==> |SplitN(s, c, n)| == n
    ensures n > Count(s, c) + 1 ==> |SplitN(s, c, n)| == Count(s, c) + 1
    decreases n
  {
    if n > 0 {
      var i := Find(s, c);
      CountFound(s, c);
      if n > 1 && i < |s| {
        var rest := s[i + 1..];
        CountAfterFirst(s, c);
        SplitNLength(rest, c, n - 1);
        assert SplitN(s, c, n) == [s[..i]] + SplitN(rest, c, n - 1);
      }
    }
  }

  /** While the string has at least n pieces, SplitN keeps the first n-1
      pieces of Split and puts the rest, joined back together, last. */
  lemma {:induction false} SplitNShape(s: string, c: char, n: nat)
    requires 1 <= n <= |Split(s, c)|
    ensures SplitN(s, c, n) == Split(s, c)[..n - 1] + [Join(Split(s, c)[n - 1..], c)]
    decreases n
  {
    if n == 1 {
      SplitNOne(s, c);
    } else {
      var i := Find(s, c);
      var rest := s[i + 1..];
      SplitNShape(rest, c, n - 1);
      ShapeCons(s[..i], Split(rest, c), n - 2, c);
    }
  }

  /** With n == 1 the only piece is the whole string. */
  lemma SplitNOne(s: string, c: char)
    ensures SplitN(s, c, 1) == [s]
    ensures Join(Split(s, c)[0..], c) == s
  {
    JoinSplit(s, c);
    assert Split(s, c)[0..] == Split(s, c);
  }

  /** One more piece in front shifts the cut by one. */
  lemma ShapeCons(x: string, t: seq<string>, m: nat, c: char)
    requires m < |t|
    ensures [x] + (t[..m] + [Join(t[m..], c)]) == ([x] + t)[..m + 1] + [Join(([x] + t)[m + 1..], c)]
  {
    assert ([x] + t)[m + 1..] == t[m..];
    assert ([x] + t)[..m + 1] == [x] + t[..m];
  }

  function Last<T>(s: seq<T>): T
    requires |s| > 0
  {
    s[|s| - 1]
  }

  lemma LastCons<T>(x: T, a: seq<T>)
    requires a != []
    ensures Last([x] + a) == Last(a)
  {
  }

  /** bytes.TrimLeft: drops every leading byte in `cut`. */
  function TrimLeft(s: string, cut: set<char>): string
  {
    if s != [] && s[0] in cut then TrimLeft(s[1..], cut) else s
  }

  /** bytes.TrimRight: drops every trailing byte in `cut`. */
  function TrimRight(s: string, cut: set<char>): string
  {
    if s != [] && Last(s) in cut then TrimRight(s[..|s| - 1], cut) else s
  }

  /** What TrimLeft keeps is the suffix after its longest prefix of bytes in `cut`. */
  lemma {:induction false} TrimLeftSuffix(s: string, cut: set<char>)
    ensures var r := TrimLeft(s, cut);
      |r| <= |s| && r == s[|s| - |r|..] &&
      (forall k :: 0 <= k < |s| - |r| ==> s[k] in cut) &&
      (r != [] ==> r[0] !in cut)
  {
    if s != [] && s[0] in cut {
      var t, r := s[1..], TrimLeft(s, cut);
      TrimLeftSuffix(t, cut);
      assert r == TrimLeft(t, cut);
      forall k | 0 <= k < |s| - |r| ensures s[k] in cut {
        if k > 0 {
          assert s[k] == t[k - 1];
        }
      }
      assert s[|s| - |r|..] == t[|t| - |r|..];
    }
  }

  /** What TrimRight keeps is the prefix before its longest suffix of bytes in `cut`. */
  lemma {:induction false} TrimRightPrefix(s: string, cut: set<char>)
    ensures var r := TrimRight(s, cut);
      |r| <= |s| && r == s[..|r|] &&
      (forall k :: |r| <= k < |s| ==> s[k] in cut) &&
      (r != [] ==> Last(r) !in cut)
  {
    if s != [] && Last(s) in cut {
      var t, r := s[..|s| - 1], TrimRight(s, cut);
      TrimRightPrefix(t, cut);
      assert r == TrimRight(t, cut);
      forall k | |r| <= k < |s| ensures s[k] in cut {
        if k < |t| {
          assert s[k] == t[k];
        }
      }
      assert s[..|r|] == t[..|r|];
    }
  }

  /** bytes.Trim: both ends. */
  function Trim(s: string, cut: set<char>): string
  {
    TrimRight(TrimLeft(s, cut), cut)
  }

  lemma AbsentFromSlice(s: string, c: char, i: nat, j: nat)
    requires c !in s && i <= j <= |s|
    ensures c !in s[i..j]
  {
    forall k | 0 <= k < j - i ensures s[i..j][k] != c {
      assert s[i..j][k] == s[i + k];
    }
  }

  /** Trimming keeps a contiguous slice, so it adds no byte that was absent. */
  lemma TrimKeepsAbsent(s: string, cut: set<char>, c: char)
    requires c !in s
    ensures c !in Trim(s, cut)
  {
    var l := TrimLeft(s, cut);
    TrimLeftSuffix(s, cut);
    AbsentFromSlice(s, c, |s| - |l|, |s|);
    TrimRightPrefix(l, cut);
    AbsentFromSlice(l, c, 0, |TrimRight(l, cut)|);
  }

  /** The ASCII bytes strings.TrimSpace treats as white space. */
  const Whitespace: set<char> := {' ', '\t', '\n', '\r', '\U{0B}', '\U{0C}'}

  function TrimSpace(s: string): string
  {
    Trim(s, Whitespace)
  }

  predicate HasPrefix(s: string, p: string)
  {
    |p| <= |s| && s[..|p|] == p
  }
}
