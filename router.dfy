/** The output router at the end of fixFile (main.go:119-127). It reads
    each result string from the merged results channel and dispatches it
    by prefix alone: "trimmed:" to the repaired sink, "bad:" to the bad
    sink, anything else to the good sink. A tagged value's payload is what
    follows its first ':'. */
module Router {
  import opened Text
  import opened Classifier

  /** The router's reading of one result string. */
  function Route(v: string): Output
  {
    if HasPrefix(v, "trimmed:") then
      FindBound(v, ':', 7);
      Output(Repaired, v[Find(v, ':') + 1..])
    else if HasPrefix(v, "bad:") then
      FindBound(v, ':', 3);
      Output(Bad, v[Find(v, ':') + 1..])
    else Output(Good, v)
  }

  /** The payload taken after the first ':' is the value with its tag
      prefix removed; an untagged value is good and kept whole. */
  lemma RoutePayload(v: string)
    ensures HasPrefix(v, "trimmed:") ==> Route(v) == Output(Repaired, v[8..])
    ensures !HasPrefix(v, "trimmed:") && HasPrefix(v, "bad:") ==> Route(v) == Output(Bad, v[4..])
    ensures !HasPrefix(v, "trimmed:") && !HasPrefix(v, "bad:") ==> Route(v) == Output(Good, v)
  {
    if HasPrefix(v, "trimmed:") {
      assert v == "trimmed" + [':'] + v[8..];
      FindAfter("trimmed", ':', v[8..]);
    } else if HasPrefix(v, "bad:") {
      assert v == "bad" + [':'] + v[4..];
      FindAfter("bad", ':', v[4..]);
    }
  }

  /** The router recovers the classifier's decision from the string a
      worker sent if and only if that decision is not a good record whose
      text happens to begin with "trimmed:" or "bad:"; such a record is
      taken for a tagged one, since good texts carry no tag. */
  lemma RouteRender(o: Output)
    ensures Route(Render(o)) == o <==>
      !(o.kind == Good && (HasPrefix(o.text, "trimmed:") || HasPrefix(o.text, "bad:")))
  {
    var v := Render(o);
    RoutePayload(v);
    match o.kind
    case Repaired =>
      assert v[..8] == "trimmed:" && v[8..] == o.text;
    case Bad =>
      assert v[..4] == "bad:" && v[4..] == o.text;
      assert v[0] == 'b';
    case Good =>
  }

  /** A bad line comes out of the bad sink exactly as it went in,
      untrimmed and unchanged. */
  lemma BadLineRoundTrip(ls: seq<string>, expected: nat)
    requires ls != [] && Count(ls[0], '|') > expected
    ensures Route(RenderAll(Classify(ls, expected))[0]) == Output(Bad, ls[0])
  {
    RenderClassifyUnfold(ls, expected);
    RouteRender(Decide(ls, expected));
  }

  /** A repaired record comes out of the repaired sink as the trimmed
      current line and the two that follow it, or "" for each missing one. */
  lemma RepairedLineRoundTrip(ls: seq<string>, expected: nat)
    requires ls != [] && Count(ls[0], '|') < expected
    ensures Route(RenderAll(Classify(ls, expected))[0]) ==
      Output(Repaired, TrimSpace(ls[0]) + TrimSpace(At(ls, 1)) + TrimSpace(At(ls, 2)))
  {
    RenderClassifyUnfold(ls, expected);
    RouteRender(Decide(ls, expected));
  }

  /** A well-formed record whose first field, once trimmed, starts with
      "trimmed:" or "bad:" is classified good but routed to the repaired or
      bad sink, since the router tells the kinds apart by prefix alone. */
  lemma GoodRecordMisrouted(ls: seq<string>, expected: nat)
    requires ls != [] && Count(ls[0], '|') == expected
    ensures Decide(ls, expected).kind == Good
    ensures var first := TrimSpace(Split(ls[0], '|')[0]);
      var r := Route(RenderAll(Classify(ls, expected))[0]);
      (HasPrefix(first, "trimmed:") ==> r.kind == Repaired) &&
      (!HasPrefix(first, "trimmed:") && HasPrefix(first, "bad:") ==> r.kind == Bad)
  {
    var vs := Split(ls[0], '|');
    var out := GoodText(vs);
    RenderClassifyUnfold(ls, expected);
    assert RenderAll(Classify(ls, expected))[0] == out;
    var first := TrimSpace(vs[0]);
    GoodTextStartsWithFirst(vs);
    PrefixOfPrefix(out, first, "trimmed:");
    PrefixOfPrefix(out, first, "bad:");
    RoutePayload(out);
  }

  /** The good text begins with the first trimmed field. */
  lemma GoodTextStartsWithFirst(vs: seq<string>)
    requires vs != []
    ensures HasPrefix(GoodText(vs), TrimSpace(vs[0]))
  {
    var first := TrimSpace(vs[0]);
    var rest := Field(vs[0])[|first|..] + GoodText(vs[1..]);
    assert GoodText(vs) == first + rest;
    assert (first + rest)[..|first|] == first;
  }

  lemma PrefixOfPrefix(s: string, a: string, p: string)
    requires HasPrefix(s, a)
    ensures HasPrefix(a, p) ==> HasPrefix(s, p)
  {
    if HasPrefix(a, p) {
      assert s[..|p|] == s[..|a|][..|p|];
    }
  }

  function RouteEach(vs: seq<string>): (os: seq<Output>)
    ensures |os| == |vs|
  {
    if vs == [] then [] else [Route(vs[0])] + RouteEach(vs[1..])
  }

  /** The texts of the outputs of one kind, in order. */
  function Sink(os: seq<Output>, kind: Kind): seq<string>
  {
    if os == [] then []
    else (if os[0].kind == kind then [os[0].text] else []) + Sink(os[1..], kind)
  }

  lemma {:induction false} SinkAppend(a: seq<Output>, b: seq<Output>, kind: Kind)
    ensures Sink(a + b, kind) == Sink(a, kind) + Sink(b, kind)
  {
    if a == [] {
      assert a + b == b;
    } else {
      assert (a + b)[1..] == a[1..] + b;
      SinkAppend(a[1..], b, kind);
    }
  }

  lemma {:induction false} RouteEachAppend(a: seq<string>, b: seq<string>)
    ensures RouteEach(a + b) == RouteEach(a) + RouteEach(b)
  {
    if a == [] {
      assert a + b == b;
    } else {
      assert (a + b)[1..] == a[1..] + b;
      RouteEachAppend(a[1..], b);
    }
  }

  /** Every routed value lands in exactly one of the three sinks. */
  lemma {:induction false} SinksPartition(os: seq<Output>)
    ensures |Sink(os, Good)| + |Sink(os, Repaired)| + |Sink(os, Bad)| == |os|
  {
    if os != [] {
      SinksPartition(os[1..]);
    }
  }

  /** No good text carries a tag prefix. */
  ghost predicate Untagged(os: seq<Output>)
  {
    forall k :: 0 <= k < |os| && os[k].kind == Good ==>
      !HasPrefix(os[k].text, "trimmed:") && !HasPrefix(os[k].text, "bad:")
  }

  /** When no good text carries a tag prefix, routing the rendered results
      recovers every decision, so each sink receives exactly the texts of
      its kind, in order. */
  lemma {:induction false} RouteEachRenderAll(os: seq<Output>)
    requires Untagged(os)
    ensures RouteEach(RenderAll(os)) == os
  {
    if os != [] {
      RouteRender(os[0]);
      assert Untagged(os[1..]) by {
        forall k | 0 <= k < |os[1..]| && os[1..][k].kind == Good
          ensures !HasPrefix(os[1..][k].text, "trimmed:") && !HasPrefix(os[1..][k].text, "bad:")
        {
          assert os[1..][k] == os[k + 1];
        }
      }
      RouteEachRenderAll(os[1..]);
    }
  }

  /** One more value routed adds its payload to its own sink only. */
  lemma RouteSnoc(vs: seq<string>, v: string, kind: Kind)
    ensures Sink(RouteEach(vs + [v]), kind) ==
      Sink(RouteEach(vs), kind) + (if Route(v).kind == kind then [Route(v).text] else [])
  {
    RouteEachAppend(vs, [v]);
    assert RouteEach([v]) == [Route(v)];
    SinkAppend(RouteEach(vs), [Route(v)], kind);
    assert Sink([Route(v)], kind) == (if Route(v).kind == kind then [Route(v).text] else []) + Sink([], kind);
  }

  /** The router loop over the merged results: each value is appended to
      the sink its prefix selects, payloads in arrival order. */
  method RouteAll(results: seq<string>) returns (good: seq<string>, repaired: seq<string>, bad: seq<string>)
    ensures good == Sink(RouteEach(results), Good)
    ensures repaired == Sink(RouteEach(results), Repaired)
    ensures bad == Sink(RouteEach(results), Bad)
  {
    good, repaired, bad := [], [], [];
    for i := 0 to |results|
      invariant good == Sink(RouteEach(results[..i]), Good)
      invariant repaired == Sink(RouteEach(results[..i]), Repaired)
      invariant bad == Sink(RouteEach(results[..i]), Bad)
    {
      var v := results[i];
      assert results[..i + 1] == results[..i] + [v];
      RouteSnoc(results[..i], v, Good);
      RouteSnoc(results[..i], v, Repaired);
      RouteSnoc(results[..i], v, Bad);
      var o := Route(v);
      match o.kind
      case Repaired => repaired := repaired + [o.text];
      case Bad => bad := bad + [o.text];
      case Good => good := good + [o.text];
    }
    assert results[..|results|] == results;
  }
}
