/** fixFile from the workers to the router (main.go:98-127): the four result
    streams reach the router merged in whatever order the scheduler picks,
    and the router sorts them into its sinks. */
module Program {
  import opened Classifier
  import opened Router
  import opened Pipeline

  /** Routing each value of a stream, then picking the values of one chunk,
      is picking first and routing after. */
  lemma {:induction false} PickRouteEach(merged: seq<string>, schedule: seq<nat>, i: nat)
    requires |merged| == |schedule|
    ensures Pick(RouteEach(merged), schedule, i) == RouteEach(Pick(merged, schedule, i))
  {
    if schedule != [] {
      PickRouteEach(merged[1..], schedule[1..], i);
      var routed := RouteEach(merged);
      assert routed[0] == Route(merged[0]) && routed[1..] == RouteEach(merged[1..]);
      if schedule[0] == i {
        var rest := Pick(merged[1..], schedule[1..], i);
        RouteEachAppend([merged[0]], rest);
        assert RouteEach([merged[0]]) == [Route(merged[0])];
        assert Pick(merged, schedule, i) == [merged[0]] + rest;
        assert Pick(routed, schedule, i) == [routed[0]] + Pick(routed[1..], schedule[1..], i);
      } else {
        assert Pick(routed, schedule, i) == Pick(routed[1..], schedule[1..], i);
        assert Pick(merged, schedule, i) == Pick(merged[1..], schedule[1..], i);
      }
    }
  }

  /** Whatever the interleaving of the workers' sends, the values each sink
      receives from chunk i are, in order, the values of that kind among
      chunk i's own routed results. */
  lemma RoutedPerChunk(outs: seq<seq<string>>, schedule: seq<nat>, i: nat, kind: Kind)
    requires Fits(outs, schedule) && i < |outs|
    ensures var merged := Merge(outs, schedule);
      Sink(Pick(RouteEach(merged), schedule, i), kind) == Sink(RouteEach(outs[i]), kind)
  {
    var merged := Merge(outs, schedule);
    PickRouteEach(merged, schedule, i);
    MergeKeepsChunkOrder(outs, schedule, i);
  }

  /** The same for the results of one file: the four chunks' results, merged
      under any fitting schedule and routed, give each chunk's share of each
      sink as routing that chunk's results alone would. */
  lemma FileRoutedPerChunk(data: string, expected: nat, schedule: seq<nat>, i: nat, kind: Kind)
    requires ChunkResults(data, expected).Ok?
    requires Fits(ChunkResults(data, expected).value, schedule)
    requires i < |ChunkResults(data, expected).value|
    ensures var outs := ChunkResults(data, expected).value;
      |outs| == 4 &&
      Sink(Pick(RouteEach(Merge(outs, schedule)), schedule, i), kind) == Sink(RouteEach(outs[i]), kind)
  {
    var outs := ChunkResults(data, expected).value;
    var lines := FileLines(data).value;
    assert outs == ClassifyJobs(Jobs(Partition(lines)), expected);
    RoutedPerChunk(outs, schedule, i, kind);
  }
}
