/**
 * The flow-scenario generator of support_tools/create_scenario.py. Flows come in clusters that
 * share one end device (the hub). The first time step adds the initial flows; every later step
 * removes whole clusters, or a part of one, until the configured number of flows is gone, and
 * adds new clusters until the configured number of flows is reached. The module-level state of
 * the script (active_clusters, flow_set_size, next_flow_id) is a class; random.choice,
 * random.randint and secrets.randbelow read an oracle `roll`, the value of the n-th draw.
 */
module Scenario {
  import opened Optional
  import UtilFunctions

  /** One generated flow, as written to the scenario file. */
  datatype Flow = Flow(id: nat, frameSize: real, period: nat, source: int, destination: int)

  /**
   * A printed diagnostic of equal-traffic mode. The traffic line prints the drawn period where
   * its label says number of packages; the model keeps that value.
   */
  datatype Warning =
    | HyperCycleMismatch(hyperCycle: nat, period: nat)
    | TrafficMismatch(totalTraffic: int, period: nat)

  /** One entry of time_steps. */
  datatype TimeStep = TimeStep(time: nat, removeFlows: seq<nat>, addFlows: seq<Flow>)

  // ---------------------------------------------------------------------------------------
  // Lists of flows and clusters

  /** The flow ids, in order. */
  function Ids(flows: seq<Flow>): (ids: seq<nat>)
    ensures |ids| == |flows|
  {
    seq(|flows|, k requires 0 <= k < |flows| => flows[k].id)
  }

  /** lo, lo + 1, ..., lo + count - 1. */
  function Span(lo: nat, count: nat): (s: seq<nat>)
    ensures |s| == count
  {
    seq(count, k => lo + k)
  }

  /** All flows of the clusters, cluster after cluster. */
  function Flows(clusters: seq<seq<Flow>>): seq<Flow> {
    if clusters == [] then [] else Flows(clusters[..|clusters| - 1]) + clusters[|clusters| - 1]
  }

  lemma IdsAppend(a: seq<Flow>, b: seq<Flow>)
    ensures Ids(a + b) == Ids(a) + Ids(b)
  {
  }

  lemma SpanAppend(lo: nat, m: nat, n: nat)
    ensures Span(lo, m + n) == Span(lo, m) + Span(lo + m, n)
  {
  }

  /** Flattening distributes over concatenation of cluster lists. */
  lemma {:induction false} FlowsAppend(a: seq<seq<Flow>>, b: seq<seq<Flow>>)
    ensures Flows(a + b) == Flows(a) + Flows(b)
    decreases |b|
  {
    if b != [] {
      var init := b[..|b| - 1];
      FlowsAppend(a, init);
      assert (a + b)[..|a + b| - 1] == a + init;
    } else {
      assert a + b == a;
    }
  }

  /** The flows of a cluster list are those before cluster i, cluster i, and those after it. */
  lemma FlowsAround(clusters: seq<seq<Flow>>, i: nat)
    requires i < |clusters|
    ensures Flows(clusters) == Flows(clusters[..i]) + clusters[i] + Flows(clusters[i + 1..])
  {
    var front, after := clusters[..i + 1], clusters[i + 1..];
    assert clusters == front + after;
    FlowsAppend(front, after);
    FlowsPrefix(clusters, i);
  }

  lemma FlowsPrefix(clusters: seq<seq<Flow>>, i: nat)
    requires i < |clusters|
    ensures Flows(clusters[..i + 1]) == Flows(clusters[..i]) + clusters[i]
  {
    assert clusters[..i + 1][..i] == clusters[..i];
  }

  /** A list whose multiset lies within that of a span holds each value once, and only span values. */
  lemma WithinSpan(s: seq<nat>, n: nat)
    requires multiset(s) <= multiset(Span(0, n))
    ensures forall k :: 0 <= k < |s| ==> s[k] < n
    ensures forall i, j :: 0 <= i < j < |s| ==> s[i] != s[j]
  {
    var span := Span(0, n);
    forall k | 0 <= k < |s| ensures s[k] < n {
      assert s[k] in multiset(s);
    }
    forall i, j | 0 <= i < j < |s| ensures s[i] != s[j] {
      TwiceCounted(s, i, j);
      SpanCount(n, s[i]);
    }
  }

  lemma {:induction false} SpanCount(n: nat, v: nat)
    ensures multiset(Span(0, n))[v] <= 1
    ensures v < n ==> multiset(Span(0, n))[v] == 1
  {
    if n > 0 {
      SpanCount(n - 1, v);
      assert Span(0, n) == Span(0, n - 1) + [n - 1];
      assert v < n - 1 ==> v in Span(0, n - 1);
      if v == n - 1 {
        assert v !in Span(0, n - 1);
      }
    }
  }

  lemma TwiceCounted(s: seq<nat>, i: nat, j: nat)
    requires i < j < |s|
    ensures s[i] == s[j] ==> multiset(s)[s[i]] >= 2
  {
    assert s == s[..j] + s[j..];
    assert s[i] in s[..j];
    assert s[j] in s[j..];
    assert multiset(s) == multiset(s[..j]) + multiset(s[j..]);
  }

  // ---------------------------------------------------------------------------------------
  // Cluster sizes, end devices and frame sizes

  /** [x for x in cluster_sizes if x <= delta]. */
  function Choices(sizes: seq<int>, delta: int): (c: seq<int>)
    ensures forall x :: x in c <==> x in sizes && x <= delta
  {
    if sizes == [] then []
    else (if sizes[0] <= delta then [sizes[0]] else []) + Choices(sizes[1..], delta)
  }

  /** [x for x in end_devices if x != hub]. */
  function Others(devices: seq<int>, hub: int): (o: seq<int>)
    ensures forall x :: x in o <==> x in devices && x != hub
  {
    if devices == [] then []
    else (if devices[0] != hub then [devices[0]] else []) + Others(devices[1..], hub)
  }

  /** Every listed end device is the same node, so a hub has no partner. */
  predicate OneDevice(devices: seq<int>) {
    forall k :: 0 <= k < |devices| ==> devices[k] == devices[0]
  }

  lemma NoOthers(devices: seq<int>, hub: int)
    requires hub in devices
    ensures Others(devices, hub) == [] <==> OneDevice(devices)
  {
    if Others(devices, hub) == [] {
      assert forall x :: x in devices ==> x == hub;
      forall k | 0 <= k < |devices| ensures devices[k] == devices[0] {
        assert devices[k] in devices && devices[0] in devices;
      }
    } else {
      var x := Others(devices, hub)[0];
      assert x in Others(devices, hub);
      var k :| 0 <= k < |devices| && devices[k] == x;
      var h :| 0 <= h < |devices| && devices[h] == hub;
      assert devices[k] != devices[h];
    }
  }

  /**
   * (125 * equal_traffic) / (hyper_cycle / period): the frame size that gives every flow the same
   * traffic per hyper-cycle, in exact rationals.
   */
  function EqualShare(equalTraffic: int, hyperCycle: nat, period: nat): real
    requires period > 0 && hyperCycle > 0
  {
    (125 * equalTraffic) as real / (hyperCycle as real / period as real)
  }

  /** Every flow of the period sends the same amount per hyper-cycle, 125 bytes per unit. */
  lemma EqualShareTraffic(equalTraffic: int, hyperCycle: nat, period: nat)
    requires period > 0 && hyperCycle > 0
    ensures EqualShare(equalTraffic, hyperCycle, period) * (hyperCycle as real / period as real) == (125 * equalTraffic) as real
  {
    var frames := hyperCycle as real / period as real;
    assert frames > 0.0;
  }

  /**
   * With neither warning (the period divides the hyper-cycle and the traffic divides into its
   * frames), the frame size is the whole number of bytes the integer quotient gives.
   */
  lemma EqualShareWhole(equalTraffic: int, hyperCycle: nat, period: nat)
    requires period > 0 && hyperCycle > 0 && hyperCycle / period > 0
    requires hyperCycle % period == 0 && (125 * equalTraffic) % (hyperCycle / period) == 0
    ensures EqualShare(equalTraffic, hyperCycle, period) == ((125 * equalTraffic) / (hyperCycle / period)) as real
  {
    var frames := hyperCycle / period;
    var total := 125 * equalTraffic;
    var share := total / frames;
    assert hyperCycle == frames * period;
    assert (frames * period) as real == frames as real * period as real;
    assert hyperCycle as real / period as real == frames as real;
    assert total == share * frames;
    assert (share * frames) as real == share as real * frames as real;
  }

  /** Every configured period divides the hyper-cycle once all periods are positive. */
  lemma PeriodDividesHyperCycle(periods: seq<nat>, p: nat)
    requires p in periods && forall k :: 0 <= k < |periods| ==> periods[k] > 0
    ensures UtilFunctions.HyperCycle(periods) % p == 0 && UtilFunctions.HyperCycle(periods) / p > 0
  {
    var hc := UtilFunctions.HyperCycle(periods);
    var i :| 0 <= i < |periods| && periods[i] == p;
    assert UtilFunctions.Divides(p, hc);
    WholeQuotient(p, hc);
  }

  /** A positive multiple of p leaves no remainder and a positive quotient. */
  lemma WholeQuotient(p: nat, hc: nat)
    requires p > 0 && hc > 0 && UtilFunctions.Divides(p, hc)
    ensures hc % p == 0 && hc / p > 0
  {
    var m: int :| hc == p * m;
    UtilFunctions.MulSign(p, m);
    UtilFunctions.DivOfMultiple(p, m);
    var q, r := hc / p, hc % p;
    assert q == m;
    assert hc == p * q + r;
  }

  /** A zero period makes the hyper-cycle 0, so no drawn period leaves a frame count above 0. */
  lemma ZeroPeriodNoFrames(periods: seq<nat>, p: nat)
    requires 0 in periods && p > 0
    ensures UtilFunctions.HyperCycle(periods) / p == 0
  {
    var i :| 0 <= i < |periods| && periods[i] == 0;
  }

  /** The diagnostics printed for one flow of the period in equal-traffic mode, in order. */
  function FlowWarnings(equalTraffic: int, hyperCycle: nat, period: nat): seq<Warning>
    requires period > 0 && hyperCycle / period > 0
  {
    (if hyperCycle % period != 0 then [HyperCycleMismatch(hyperCycle, period)] else [])
    + (if (125 * equalTraffic) % (hyperCycle / period) != 0 then [TrafficMismatch(125 * equalTraffic, period)] else [])
  }

  /** The diagnostics of a whole cluster in equal-traffic mode. */
  function ClusterWarnings(equalTraffic: int, hyperCycle: nat, flows: seq<Flow>): seq<Warning>
    requires forall k :: 0 <= k < |flows| ==> flows[k].period > 0 && hyperCycle / flows[k].period > 0
  {
    if flows == [] then []
    else
      var last := flows[|flows| - 1];
      ClusterWarnings(equalTraffic, hyperCycle, flows[..|flows| - 1]) + FlowWarnings(equalTraffic, hyperCycle, last.period)
  }

  /** With positive periods no hyper-cycle line is ever printed; only the traffic check can fire. */
  lemma {:induction false} NoHyperCycleWarnings(equalTraffic: int, periods: seq<nat>, flows: seq<Flow>)
    requires forall k :: 0 <= k < |periods| ==> periods[k] > 0
    requires forall k :: 0 <= k < |flows| ==> flows[k].period in periods
    ensures forall k :: 0 <= k < |flows| ==> flows[k].period > 0 && UtilFunctions.HyperCycle(periods) / flows[k].period > 0
    ensures forall w :: w in ClusterWarnings(equalTraffic, UtilFunctions.HyperCycle(periods), flows) ==> w.TrafficMismatch?
  {
    var hc := UtilFunctions.HyperCycle(periods);
    forall k | 0 <= k < |flows| ensures flows[k].period > 0 && hc / flows[k].period > 0 && hc % flows[k].period == 0 {
      PeriodDividesHyperCycle(periods, flows[k].period);
    }
    if flows != [] {
      NoHyperCycleWarnings(equalTraffic, periods, flows[..|flows| - 1]);
    }
  }

  // ---------------------------------------------------------------------------------------
  // get_random_cluster_index

  /**
   * The running-sum search of get_random_cluster_index for a drawn flow number r: the first
   * cluster whose running sum of sizes exceeds r; None (the function falls off its end) when
   * no cluster does.
   */
  method ClusterIndex(clusters: seq<seq<Flow>>, r: nat) returns (index: Option<nat>)
    ensures index.Some? ==> index.value < |clusters|
    ensures index.Some? ==> |Flows(clusters[..index.value])| <= r < |Flows(clusters[..index.value + 1])|
    ensures index.None? <==> r >= |Flows(clusters)|
  {
    var accumulated := 0;
    for i := 0 to |clusters|
      invariant accumulated == |Flows(clusters[..i])| <= r
    {
      assert clusters[..i + 1][..i] == clusters[..i];
      accumulated := accumulated + |clusters[i]|;
      if accumulated > r {
        FlowsAppend(clusters[..i + 1], clusters[i + 1..]);
        assert clusters[..i + 1] + clusters[i + 1..] == clusters;
        return Some(i);
      }
    }
    assert clusters[..|clusters|] == clusters;
    return None;
  }

  /**
   * The cluster the search returns is the one that holds the r-th active flow, so a cluster is
   * drawn with probability proportional to its size; in particular it is never empty.
   */
  lemma ClusterIndexHoldsFlow(clusters: seq<seq<Flow>>, r: nat, i: nat)
    requires i < |clusters| && |Flows(clusters[..i])| <= r < |Flows(clusters[..i + 1])|
    ensures |Flows(clusters[..i + 1])| == |Flows(clusters[..i])| + |clusters[i]|
    ensures |clusters[i]| > 0
    ensures r < |Flows(clusters)| && Flows(clusters)[r] == clusters[i][r - |Flows(clusters[..i])|]
  {
    assert clusters[..i + 1][..i] == clusters[..i];
    FlowsAround(clusters, i);
  }

  /** At most one cluster brackets a flow number, so the search result is determined by r. */
  lemma ClusterIndexUnique(clusters: seq<seq<Flow>>, r: nat, i: nat, j: nat)
    requires i < |clusters| && |Flows(clusters[..i])| <= r < |Flows(clusters[..i + 1])|
    requires j < |clusters| && |Flows(clusters[..j])| <= r < |Flows(clusters[..j + 1])|
    ensures i == j
  {
    if i < j {
      FlowsPrefixGrows(clusters, i + 1, j);
    } else if j < i {
      FlowsPrefixGrows(clusters, j + 1, i);
    }
  }

  lemma FlowsPrefixGrows(clusters: seq<seq<Flow>>, m: nat, n: nat)
    requires m <= n <= |clusters|
    ensures |Flows(clusters[..m])| <= |Flows(clusters[..n])|
  {
    assert clusters[..n] == clusters[..m] + clusters[m..n];
    FlowsAppend(clusters[..m], clusters[m..n]);
  }

  /** cluster[:max_size]: at most the first n flows. */
  function Take(cluster: seq<Flow>, n: nat): (r: seq<Flow>)
    ensures |r| == if n < |cluster| then n else |cluster|
  {
    if n < |cluster| then cluster[..n] else cluster
  }

  /** cluster[max_size:]: what is left after the first n flows. */
  function Drop(cluster: seq<Flow>, n: nat): seq<Flow> {
    if n < |cluster| then cluster[n..] else []
  }

  /** Both slices together are the cluster, so a partial removal loses no flow. */
  lemma TakeDrop(cluster: seq<Flow>, n: nat)
    ensures Take(cluster, n) + Drop(cluster, n) == cluster
  {
    if n < |cluster| {
      assert cluster[..n] + cluster[n..] == cluster;
    }
  }

  /** Removing the flows `removed` from between `before` and `after` removes exactly their ids. */
  lemma RemovedIds(before: seq<Flow>, removed: seq<Flow>, rest: seq<Flow>, after: seq<Flow>)
    ensures |before + (removed + rest) + after| == |before + rest + after| + |removed|
    ensures multiset(Ids(before + (removed + rest) + after)) == multiset(Ids(before + rest + after)) + multiset(Ids(removed))
  {
    IdsAppend(before + (removed + rest), after);
    IdsAppend(before, removed + rest);
    IdsAppend(removed, rest);
    IdsAppend(before + rest, after);
    IdsAppend(before, rest);
  }

  /**
   * The generator's bookkeeping: flow_set_size counts the active flows, and every id handed out
   * so far (all ids below next) is either active or removed, exactly once.
   */
  ghost predicate Accounted(active: seq<seq<Flow>>, flowSetSize: int, removedIds: seq<nat>, next: nat) {
    && flowSetSize == |Flows(active)|
    && multiset(Ids(Flows(active))) + multiset(removedIds) == multiset(Span(0, next))
  }

  /** Under the bookkeeping no id is removed twice, and only issued ids are removed. */
  lemma RemovedOnce(active: seq<seq<Flow>>, flowSetSize: int, removedIds: seq<nat>, next: nat)
    requires Accounted(active, flowSetSize, removedIds, next)
    ensures forall i, j :: 0 <= i < j < |removedIds| ==> removedIds[i] != removedIds[j]
    ensures forall k :: 0 <= k < |removedIds| ==> removedIds[k] < next
  {
    assert multiset(removedIds) <= multiset(Span(0, next));
    WithinSpan(removedIds, next);
  }

  /**
   * Moving the flows `gone` from the active clusters to the removed ones keeps every issued id
   * accounted for once; the moved ids were issued, so they lie below the next id.
   */
  lemma RemovalAccounted(active: seq<seq<Flow>>, active': seq<seq<Flow>>, gone: seq<Flow>, flowSetSize: int, removedIds: seq<nat>, next: nat)
    requires Accounted(active, flowSetSize, removedIds, next)
    requires |Flows(active)| == |Flows(active')| + |gone|
    requires multiset(Ids(Flows(active))) == multiset(Ids(Flows(active'))) + multiset(Ids(gone))
    ensures Accounted(active', flowSetSize - |gone|, removedIds + Ids(gone), next)
    ensures forall k :: 0 <= k < |gone| ==> Ids(gone)[k] < next
  {
    assert multiset(Ids(gone)) <= multiset(Span(0, next));
    WithinSpan(Ids(gone), next);
  }

  /** Appending a cluster whose ids continue the span keeps every issued id accounted for once. */
  lemma AppendCluster(active: seq<seq<Flow>>, c: seq<Flow>, flowSetSize: int, removedIds: seq<nat>, next: nat)
    requires Accounted(active, flowSetSize, removedIds, next)
    requires Ids(c) == Span(next, |c|)
    ensures Accounted(active + [c], flowSetSize + |c|, removedIds, next + |c|)
  {
    assert (active + [c])[..|active|] == active;
    assert Flows(active + [c]) == Flows(active) + c;
    IdsAppend(Flows(active), c);
    SpanAppend(0, next, |c|);
  }

  /** All flows a run adds, step after step. */
  function AllAdds(steps: seq<TimeStep>): seq<Flow> {
    if steps == [] then [] else AllAdds(steps[..|steps| - 1]) + steps[|steps| - 1].addFlows
  }

  /** All flow ids a run removes, step after step. */
  function AllRemoves(steps: seq<TimeStep>): seq<nat> {
    if steps == [] then [] else AllRemoves(steps[..|steps| - 1]) + steps[|steps| - 1].removeFlows
  }

  /** The configured number, or 0 for a negative one: the count a while-loop up to it reaches. */
  function Count(n: int): nat {
    if n > 0 then n else 0
  }

  /** How often remove_random_flow_cluster redraws before it settles for a partial removal. */
  const RetryLimit: nat := 1000

  // ---------------------------------------------------------------------------------------
  // The generator state

  /** A generated flow joins two different end devices and uses a configured period. */
  ghost predicate Joins(f: Flow, hub: int, endDevices: seq<int>, periods: seq<nat>) {
    && f.period in periods
    && (f.source == hub || f.destination == hub)
    && f.source in endDevices && f.destination in endDevices && f.source != f.destination
  }

  class ScenarioGenerator {
    const endDevices: seq<int>
    const periods: seq<nat>
    const frameSizes: seq<int>
    const equalTraffic: int
    const clusterSizes: seq<int>
    /** lcm(*periods). */
    const hyperCycle: nat := UtilFunctions.HyperCycle(periods)
    /** The random source: the value the n-th draw returns. */
    const roll: nat -> nat
    /** The number of draws made so far. */
    var draws: nat
    /** The diagnostics printed so far. */
    var printed: seq<Warning>
    var activeClusters: seq<seq<Flow>>
    var flowSetSize: int
    var nextFlowId: nat
    /** The ids of the flows removed so far, in removal order. */
    ghost var removedIds: seq<nat>

    /**
     * flow_set_size counts the active flows, and every id handed out so far is either active or
     * removed, exactly once.
     */
    ghost predicate Valid()
      reads this`flowSetSize, this`activeClusters, this`removedIds, this`nextFlowId
    {
      Accounted(activeClusters, flowSetSize, removedIds, nextFlowId)
    }

    /** The configuration read from the ini file and the network, before the first flow. */
    constructor (endDevices: seq<int>, periods: seq<nat>, frameSizes: seq<int>, equalTraffic: int, clusterSizes: seq<int>, roll: nat -> nat)
      ensures this.endDevices == endDevices && this.periods == periods && this.frameSizes == frameSizes
      ensures this.equalTraffic == equalTraffic && this.clusterSizes == clusterSizes && this.roll == roll
      ensures hyperCycle == UtilFunctions.HyperCycle(periods)
      ensures draws == 0 && printed == [] && activeClusters == [] && flowSetSize == 0 && nextFlowId == 0 && removedIds == []
      ensures Valid()
    {
      this.endDevices := endDevices;
      this.periods := periods;
      this.frameSizes := frameSizes;
      this.equalTraffic := equalTraffic;
      this.clusterSizes := clusterSizes;
      this.roll := roll;
      draws := 0;
      printed := [];
      activeClusters := [];
      flowSetSize := 0;
      nextFlowId := 0;
      removedIds := [];
    }

    /**
     * A flow of a cluster around hub: it joins two different end devices, one of them the hub,
     * and uses a configured period; its frame size is the equal share of its period in
     * equal-traffic mode and a configured frame size otherwise.
     */
    ghost predicate Made(f: Flow, hub: int) {
      && Joins(f, hub, endDevices, periods)
      && (equalTraffic > 0 ==>
            f.period > 0 && hyperCycle > 0 && hyperCycle / f.period > 0 && f.frameSize == EqualShare(equalTraffic, hyperCycle, f.period))
      && (equalTraffic <= 0 ==> exists j :: 0 <= j < |frameSizes| && f.frameSize == frameSizes[j] as real)
    }

    /** A generated flow joins two different end devices over a configured period. */
    ghost predicate FlowOk(f: Flow) {
      f.period in periods && f.source in endDevices && f.destination in endDevices && f.source != f.destination
    }

    /** One draw below bound: random.choice picks index k, randint(0, 1) and randbelow the value. */
    method Draw(bound: nat) returns (k: nat)
      requires bound > 0
      modifies this`draws
      ensures k == roll(old(draws)) % bound && k < bound
      ensures draws == old(draws) + 1
    {
      k := roll(draws) % bound;
      draws := draws + 1;
    }

    /** get_next_cluster_size: a configured size within the remaining budget; none raises (None). */
    method NextClusterSize(delta: int) returns (size: Option<int>)
      modifies this`draws
      ensures size.None? <==> forall x :: x in clusterSizes ==> x > delta
      ensures size.Some? ==> size.value in clusterSizes && size.value <= delta
    {
      var choices := Choices(clusterSizes, delta);
      if choices == [] {
        return None;
      }
      var k := Draw(|choices|);
      assert choices[k] in choices;
      return Some(choices[k]);
    }

    /**
     * What a partly built cluster around hub satisfies: consecutive ids from idCounter, every flow
     * Made around the hub, and `after` is `before` followed by the diagnostics of its flows.
     */
    ghost predicate Grown(cluster: seq<Flow>, idCounter: nat, hub: int, before: seq<Warning>, after: seq<Warning>) {
      && Ids(cluster) == Span(idCounter, |cluster|)
      && (forall m :: 0 <= m < |cluster| ==> Made(cluster[m], hub))
      && (equalTraffic > 0 ==> forall m :: 0 <= m < |cluster| ==> cluster[m].period > 0 && hyperCycle / cluster[m].period > 0)
      && (equalTraffic > 0 ==> after == before + ClusterWarnings(equalTraffic, hyperCycle, cluster))
      && (equalTraffic <= 0 ==> after == before)
    }

    /**
     * generate_random_flow_cluster: a hub drawn once, then `size` flows. None stands for the
     * exceptions the script raises: no end device, no other end device, no period or frame size
     * to choose from, and the divisions by zero of equal-traffic mode (a zero period, or a
     * hyper-cycle of 0 frames, which any zero period causes).
     */
    method GenerateCluster(idCounter: nat, size: int) returns (r: Option<seq<Flow>>, ghost hub: int)
      modifies this`draws, this`printed
      ensures r.None? <==> endDevices == [] || (size > 0 && (OneDevice(endDevices) || periods == [] || frameSizes == [] || (equalTraffic > 0 && 0 in periods)))
      ensures r.Some? ==> |r.value| == (if size > 0 then size else 0) && Grown(r.value, idCounter, hub, old(printed), printed)
    {
      hub := 0;
      if endDevices == [] {
        return None, hub;
      }
      var k := Draw(|endDevices|);
      var clusterDevice := endDevices[k];
      hub := clusterDevice;
      var cluster: seq<Flow> := [];
      var i := 0;
      while i < size
        invariant 0 <= i && (i <= size || i == 0) && |cluster| == i
        invariant i > 0 ==> !OneDevice(endDevices) && periods != [] && frameSizes != [] && !(equalTraffic > 0 && 0 in periods)
        invariant Grown(cluster, idCounter, hub, old(printed), printed)
      {
        ghost var before := printed;
        var next := NextFlow(idCounter + i, clusterDevice);
        if next.None? {
          return None, hub;
        }
        GrowOne(cluster, next.value, idCounter, hub, old(printed), before, printed);
        cluster := cluster + [next.value];
        i := i + 1;
      }
      return Some(cluster), hub;
    }

    /** Appending a freshly drawn flow keeps a partly built cluster Grown. */
    lemma GrowOne(cluster: seq<Flow>, flow: Flow, idCounter: nat, hub: int, start: seq<Warning>, before: seq<Warning>, after: seq<Warning>)
      requires Grown(cluster, idCounter, hub, start, before)
      requires flow.id == idCounter + |cluster| && Made(flow, hub)
      requires equalTraffic > 0 ==> after == before + FlowWarnings(equalTraffic, hyperCycle, flow.period)
      requires equalTraffic <= 0 ==> after == before
      ensures Grown(cluster + [flow], idCounter, hub, start, after)
    {
      IdsAppend(cluster, [flow]);
      SpanAppend(idCounter, |cluster|, 1);
      assert (cluster + [flow])[..|cluster|] == cluster;
    }

    /**
     * One round of the cluster loop: the partner device and the direction, the period and the
     * frame size, drawn in that order, then the equal-traffic checks. None is an exception.
     */
    method NextFlow(id: nat, hub: int) returns (r: Option<Flow>)
      requires hub in endDevices
      modifies this`draws, this`printed
      ensures r.None? <==> OneDevice(endDevices) || periods == [] || frameSizes == [] || (equalTraffic > 0 && 0 in periods)
      ensures r.Some? ==> r.value.id == id && Made(r.value, hub)
      ensures r.Some? && equalTraffic > 0 ==> printed == old(printed) + FlowWarnings(equalTraffic, hyperCycle, r.value.period)
      ensures r.Some? && equalTraffic <= 0 ==> printed == old(printed)
    {
      var ends := DrawEnds(hub);
      if ends.None? {
        return None;
      }
      var (source, destination) := ends.value;
      if periods == [] {
        return None;
      }
      var k := Draw(|periods|);
      var period := periods[k];
      if frameSizes == [] {
        return None;
      }
      k := Draw(|frameSizes|);
      var frameSize := frameSizes[k] as real;
      if equalTraffic > 0 {
        var share := EqualFrameSize(period);
        if share.None? {
          if 0 !in periods {
            PeriodDividesHyperCycle(periods, period);
          }
          return None;
        }
        frameSize := share.value;
        if 0 in periods {
          ZeroPeriodNoFrames(periods, period);
        }
      }
      return Some(Flow(id, frameSize, period, source, destination));
    }

    /** The partner end device and the direction: the hub is the source unless randint gives 1. */
    method DrawEnds(hub: int) returns (ends: Option<(int, int)>)
      requires hub in endDevices
      modifies this`draws
      ensures ends.None? <==> OneDevice(endDevices)
      ensures ends.Some? ==> ends.value.0 == hub || ends.value.1 == hub
      ensures ends.Some? ==> ends.value.0 in endDevices && ends.value.1 in endDevices && ends.value.0 != ends.value.1
    {
      NoOthers(endDevices, hub);
      var others := Others(endDevices, hub);
      if others == [] {
        return None;
      }
      var k := Draw(|others|);
      var other := others[k];
      assert other in others;
      var direction := Draw(2);
      if direction == 1 {
        return Some((other, hub));
      }
      return Some((hub, other));
    }

    /**
     * The equal-traffic checks for a drawn period: the two diagnostics, and the divisions by zero
     * when the period or the frame count int(hyper_cycle / period) is 0.
     */
    method EqualFrameSize(period: nat) returns (frameSize: Option<real>)
      modifies this`printed
      ensures frameSize.None? <==> period == 0 || hyperCycle / period == 0
      ensures frameSize.Some? ==> hyperCycle > 0 && frameSize.value == EqualShare(equalTraffic, hyperCycle, period)
      ensures frameSize.Some? ==> printed == old(printed) + FlowWarnings(equalTraffic, hyperCycle, period)
    {
      if period == 0 {
        return None;
      }
      if hyperCycle % period != 0 {
        printed := printed + [HyperCycleMismatch(hyperCycle, period)];
      }
      if hyperCycle / period == 0 {
        return None;
      }
      if (125 * equalTraffic) % (hyperCycle / period) != 0 {
        printed := printed + [TrafficMismatch(125 * equalTraffic, period)];
      }
      return Some(EqualShare(equalTraffic, hyperCycle, period));
    }

    // -------------------------------------------------------------------------------------
    // Removing clusters

    /**
     * get_random_cluster_index: secrets.randbelow(flow_set_size), which raises for a size that
     * is not positive (None), then the running-sum search over the active clusters.
     */
    method RandomClusterIndex() returns (index: Option<nat>)
      modifies this`draws
      ensures flowSetSize <= 0 ==> index.None?
      ensures Valid() && flowSetSize > 0 ==> index.Some?
      ensures index.Some? ==> index.value < |activeClusters| && |activeClusters[index.value]| > 0
      ensures index.Some? ==> flowSetSize > 0
      ensures index.Some? ==>
        |Flows(activeClusters[..index.value])| <= roll(old(draws)) % flowSetSize < |Flows(activeClusters[..index.value + 1])|
    {
      if flowSetSize <= 0 {
        return None;
      }
      var r := Draw(flowSetSize);
      index := ClusterIndex(activeClusters, r);
      if index.Some? {
        ClusterIndexHoldsFlow(activeClusters, r, index.value);
      }
    }

    /**
     * remove_random_flow_cluster: draw clusters until one fits into max_size, at most RetryLimit
     * redraws. Normally the drawn cluster is deleted as a whole; once the retries are used up the
     * first max_size flows are removed and the rest stays active. The ghost results name the
     * drawn cluster and the branch taken. None is the exception of an empty flow set.
     */
    method RemoveRandomCluster(maxSize: nat) returns (removed: Option<seq<Flow>>, ghost index: nat, ghost exhausted: bool)
      requires maxSize > 0 && Valid()
      modifies this`draws, this`activeClusters
      ensures removed.None? <==> flowSetSize <= 0
      ensures removed.None? ==> activeClusters == old(activeClusters)
      ensures removed.Some? ==> index < |old(activeClusters)| && 1 <= |removed.value| <= maxSize
      ensures removed.Some? && !exhausted ==>
        removed.value == old(activeClusters)[index] && activeClusters == old(activeClusters)[..index] + old(activeClusters)[index + 1..]
      ensures removed.Some? && exhausted ==>
        removed.value == Take(old(activeClusters)[index], maxSize) && activeClusters == old(activeClusters)[index := Drop(old(activeClusters)[index], maxSize)]
      ensures removed.Some? ==> |Flows(old(activeClusters))| == |Flows(activeClusters)| + |removed.value|
      ensures removed.Some? ==> multiset(Ids(Flows(old(activeClusters)))) == multiset(Ids(Flows(activeClusters))) + multiset(Ids(removed.value))
    {
      var first := RandomClusterIndex();
      if first.None? {
        return None, 0, false;
      }
      var randomCluster: nat := first.value;
      var counter: nat := 0;
      ghost var clusters := activeClusters;
      while |activeClusters[randomCluster]| > maxSize
        invariant counter <= RetryLimit
        invariant activeClusters == clusters && randomCluster < |clusters| && |clusters[randomCluster]| > 0
        invariant flowSetSize > 0 && Valid()
        decreases RetryLimit - counter
      {
        if counter >= RetryLimit {
          break;
        }
        counter := counter + 1;
        var next := RandomClusterIndex();
        randomCluster := next.value;
      }
      index := randomCluster;
      var partial := counter >= RetryLimit;
      exhausted := partial;
      var gone := Excise(randomCluster, maxSize, partial);
      removed := Some(gone);
    }

    /**
     * The end of remove_random_flow_cluster for the drawn cluster i: delete it, or, when the
     * retries are used up (partial), keep all but its first maxSize flows.
     */
    method Excise(i: nat, maxSize: nat, partial: bool) returns (removed: seq<Flow>)
      requires i < |activeClusters| && |activeClusters[i]| > 0 && maxSize > 0
      requires !partial ==> |activeClusters[i]| <= maxSize
      modifies this`activeClusters
      ensures 1 <= |removed| <= maxSize
      ensures !partial ==> removed == old(activeClusters)[i] && activeClusters == old(activeClusters)[..i] + old(activeClusters)[i + 1..]
      ensures partial ==> removed == Take(old(activeClusters)[i], maxSize) && activeClusters == old(activeClusters)[i := Drop(old(activeClusters)[i], maxSize)]
      ensures |Flows(old(activeClusters))| == |Flows(activeClusters)| + |removed|
      ensures multiset(Ids(Flows(old(activeClusters)))) == multiset(Ids(Flows(activeClusters))) + multiset(Ids(removed))
    {
      var currentCluster := activeClusters[i];
      var before, after := activeClusters[..i], activeClusters[i + 1..];
      FlowsAround(activeClusters, i);
      if partial {
        var rest := Drop(currentCluster, maxSize);
        activeClusters := activeClusters[i := rest];
        assert activeClusters[..i] == before && activeClusters[i + 1..] == after;
        FlowsAround(activeClusters, i);
        removed := Take(currentCluster, maxSize);
        TakeDrop(currentCluster, maxSize);
        RemovedIds(Flows(before), removed, rest, Flows(after));
      } else {
        activeClusters := before + after;
        FlowsAppend(before, after);
        removed := currentCluster;
        assert currentCluster + [] == currentCluster;
        assert Flows(before) + [] + Flows(after) == Flows(before) + Flows(after);
        RemovedIds(Flows(before), currentCluster, [], Flows(after));
      }
    }

    /**
     * The removal loop of one time step: clusters are removed until `remove` flows are gone,
     * each removal limited to what is still to be removed. None is an exception on the way.
     */
    method RemoveFlows(remove: int) returns (removes: Option<seq<nat>>)
      requires Valid()
      modifies this`draws, this`activeClusters, this`flowSetSize, this`removedIds
      ensures removes.Some? ==> |removes.value| == Count(remove) && removedIds == old(removedIds) + removes.value
      ensures removes.Some? ==> forall k :: 0 <= k < |removes.value| ==> removes.value[k] < nextFlowId
      ensures Valid()
    {
      var ids: seq<nat> := [];
      var toBePerformed := remove;
      while toBePerformed > 0
        invariant Valid() && removedIds == old(removedIds) + ids
        invariant |ids| + Count(toBePerformed) == Count(remove) && (toBePerformed >= 0 || ids == [])
        invariant forall k :: 0 <= k < |ids| ==> ids[k] < nextFlowId
        decreases toBePerformed
      {
        var gone := RemoveOne(toBePerformed);
        if gone.None? {
          return None;
        }
        toBePerformed := toBePerformed - |gone.value|;
        IdsAccumulate(old(removedIds), ids, Ids(gone.value), removedIds, nextFlowId);
        ids := ids + Ids(gone.value);
      }
      return Some(ids);
    }

    /** The ids removed so far, extended by one round's, stay ids handed out before. */
    static lemma IdsAccumulate(r0: seq<nat>, ids: seq<nat>, taken: seq<nat>, r: seq<nat>, next: nat)
      requires r == r0 + ids + taken
      requires forall k :: 0 <= k < |ids| ==> ids[k] < next
      requires forall k :: 0 <= k < |taken| ==> taken[k] < next
      ensures r == r0 + (ids + taken)
      ensures forall k :: 0 <= k < |ids + taken| ==> (ids + taken)[k] < next
    {
      forall k | 0 <= k < |ids + taken| ensures (ids + taken)[k] < next {
        if k >= |ids| {
          assert (ids + taken)[k] == taken[k - |ids|];
        }
      }
    }

    /**
     * One round of the removal loop: remove a cluster, or part of one, of at most maxSize flows
     * and take its flows off flow_set_size.
     */
    method RemoveOne(maxSize: nat) returns (gone: Option<seq<Flow>>)
      requires maxSize > 0 && Valid()
      modifies this`draws, this`activeClusters, this`flowSetSize, this`removedIds
      ensures Valid()
      ensures gone.None? ==> removedIds == old(removedIds)
      ensures gone.Some? ==> 1 <= |gone.value| <= maxSize && removedIds == old(removedIds) + Ids(gone.value)
      ensures gone.Some? ==> forall k :: 0 <= k < |gone.value| ==> Ids(gone.value)[k] < nextFlowId
    {
      label before:
      var removed, index, exhausted := RemoveRandomCluster(maxSize);
      if removed.None? {
        return None;
      }
      gone := removed;
      RemovalAccounted(old@before(activeClusters), activeClusters, gone.value, flowSetSize, removedIds, nextFlowId);
      flowSetSize := flowSetSize - |gone.value|;
      removedIds := removedIds + Ids(gone.value);
    }

    // -------------------------------------------------------------------------------------
    // Adding clusters

    /**
     * The adding loop: clusters of configured sizes within the remaining budget until `amount`
     * flows are added; each flow takes the next id. It serves both the initial flows and the adds
     * of every later step. None is an exception on the way.
     */
    method AddClusters(amount: int) returns (added: Option<seq<Flow>>, ghost clusters: seq<seq<Flow>>)
      requires Valid() && forall x :: x in clusterSizes ==> x >= 1
      modifies this`draws, this`printed, this`activeClusters, this`flowSetSize, this`nextFlowId
      ensures added.Some? ==> |added.value| == Count(amount) && nextFlowId == old(nextFlowId) + |added.value|
      ensures added.Some? ==> Ids(added.value) == Span(old(nextFlowId), |added.value|)
      ensures added.Some? ==> forall k :: 0 <= k < |added.value| ==> FlowOk(added.value[k])
      ensures added.Some? ==> activeClusters == old(activeClusters) + clusters && Flows(clusters) == added.value
      ensures added.Some? ==> Valid()
      ensures removedIds == old(removedIds)
    {
      var adds: seq<Flow> := [];
      clusters := [];
      var internalCounter := 0;
      while internalCounter < amount
        invariant 0 <= internalCounter == |adds| && (internalCounter <= amount || internalCounter == 0)
        invariant nextFlowId == old(nextFlowId) + internalCounter && Ids(adds) == Span(old(nextFlowId), internalCounter)
        invariant activeClusters == old(activeClusters) + clusters && Flows(clusters) == adds
        invariant forall k :: 0 <= k < |adds| ==> FlowOk(adds[k])
        invariant Valid() && removedIds == old(removedIds)
        decreases amount - internalCounter
      {
        var cluster := AddCluster(amount - internalCounter);
        if cluster.None? {
          return None, clusters;
        }
        var c := cluster.value;
        ClustersStep(old(activeClusters), clusters, c);
        IdsAppend(adds, c);
        SpanAppend(old(nextFlowId), |adds|, |c|);
        clusters := clusters + [c];
        adds := adds + c;
        internalCounter := internalCounter + |c|;
      }
      return Some(adds), clusters;
    }

    /**
     * One round of the adding loop: draw a size within the budget, generate the cluster with the
     * next ids, hand the ids out one flow at a time, and make the cluster active.
     */
    method AddCluster(budget: int) returns (cluster: Option<seq<Flow>>)
      requires Valid() && budget > 0 && forall x :: x in clusterSizes ==> x >= 1
      modifies this`draws, this`printed, this`activeClusters, this`flowSetSize, this`nextFlowId
      ensures cluster.Some? ==> 1 <= |cluster.value| <= budget && nextFlowId == old(nextFlowId) + |cluster.value|
      ensures cluster.Some? ==> Ids(cluster.value) == Span(old(nextFlowId), |cluster.value|)
      ensures cluster.Some? ==> forall k :: 0 <= k < |cluster.value| ==> FlowOk(cluster.value[k])
      ensures cluster.Some? ==> activeClusters == old(activeClusters) + [cluster.value] && Valid()
      ensures removedIds == old(removedIds)
    {
      var size := NextClusterSize(budget);
      if size.None? {
        return None;
      }
      var generated, hub := GenerateCluster(nextFlowId, size.value);
      if generated.None? {
        return None;
      }
      var c := generated.value;
      forall k | 0 <= k < |c| ensures FlowOk(c[k]) {
        assert Made(c[k], hub);
      }
      Admit(c);
      return Some(c);
    }

    /** Printing a generated cluster advances the id counter; the cluster then becomes active. */
    method Admit(c: seq<Flow>)
      requires Valid() && Ids(c) == Span(nextFlowId, |c|)
      modifies this`activeClusters, this`flowSetSize, this`nextFlowId
      ensures nextFlowId == old(nextFlowId) + |c|
      ensures activeClusters == old(activeClusters) + [c] && Valid()
    {
      AppendCluster(activeClusters, c, flowSetSize, removedIds, nextFlowId);
      CountIds(|c|);
      flowSetSize := flowSetSize + |c|;
      activeClusters := activeClusters + [c];
    }

    /** The per-flow increments of the id counter while a cluster is printed. */
    method CountIds(count: nat)
      modifies this`nextFlowId
      ensures nextFlowId == old(nextFlowId) + count
    {
      for j := 0 to count
        invariant nextFlowId == old(nextFlowId) + j
      {
        nextFlowId := nextFlowId + 1;
      }
    }

    /** The flows of the appended clusters grow by the new cluster. */
    lemma ClustersStep(start: seq<seq<Flow>>, clusters: seq<seq<Flow>>, c: seq<Flow>)
      ensures start + clusters + [c] == start + (clusters + [c])
      ensures Flows(clusters + [c]) == Flows(clusters) + c
    {
      assert (clusters + [c])[..|clusters|] == clusters;
    }

    // -------------------------------------------------------------------------------------
    // The time steps

    /**
     * One later time step: first the removals, then the adds, recorded under the step's number.
     */
    method Step(step: nat, add: int, remove: int) returns (ts: Option<TimeStep>)
      requires Valid() && forall x :: x in clusterSizes ==> x >= 1
      modifies this`draws, this`printed, this`activeClusters, this`flowSetSize, this`nextFlowId, this`removedIds
      ensures ts.Some? ==> ts.value.time == step && |ts.value.removeFlows| == Count(remove) && |ts.value.addFlows| == Count(add)
      ensures ts.Some? ==> forall k :: 0 <= k < |ts.value.removeFlows| ==> ts.value.removeFlows[k] < old(nextFlowId)
      ensures ts.Some? ==> removedIds == old(removedIds) + ts.value.removeFlows
      ensures ts.Some? ==> Ids(ts.value.addFlows) == Span(old(nextFlowId), |ts.value.addFlows|) && nextFlowId == old(nextFlowId) + |ts.value.addFlows|
      ensures ts.Some? ==> Valid()
    {
      var removes := RemoveFlows(remove);
      if removes.None? {
        return None;
      }
      var adds, clusters := AddClusters(add);
      if adds.None? {
        return None;
      }
      return Some(TimeStep(step, removes.value, adds.value));
    }

    /**
     * The main program after loading: the initial step at time 0 with number_of_initial_flows new
     * flows, then one step per later time with the configured removes and adds. None stands for
     * an exception, the whole script failing.
     */
    method Run(initial: nat, steps: nat, add: int, remove: int) returns (r: Option<seq<TimeStep>>)
      requires Valid() && nextFlowId == 0 && removedIds == []
      requires forall x :: x in clusterSizes ==> x >= 1
      modifies this`draws, this`printed, this`activeClusters, this`flowSetSize, this`nextFlowId, this`removedIds
      ensures r.Some? ==> |r.value| == (if steps > 1 then steps else 1)
      ensures r.Some? ==> r.value[0].time == 0 && r.value[0].removeFlows == [] && Ids(r.value[0].addFlows) == Span(0, initial)
      ensures r.Some? ==> LaterSteps(r.value, add, remove)
      ensures r.Some? ==> Ids(AllAdds(r.value)) == Span(0, nextFlowId)
      ensures r.Some? ==> RemovedAfterAdded(r.value)
      ensures r.Some? ==> removedIds == AllRemoves(r.value) && Valid()
      ensures r.Some? ==> forall i, j :: 0 <= i < j < |AllRemoves(r.value)| ==> AllRemoves(r.value)[i] != AllRemoves(r.value)[j]
    {
      var initialFlows, clusters := AddClusters(initial);
      if initialFlows.None? {
        return None;
      }
      var timeSteps := [TimeStep(0, [], initialFlows.value)];
      assert AllAdds(timeSteps) == initialFlows.value by {
        assert timeSteps[..0] == [];
      }
      assert AllRemoves(timeSteps) == [] by {
        assert timeSteps[..0] == [];
      }
      nextFlowId := initial;
      var step := 1;
      while step < steps
        invariant 1 <= step == |timeSteps| && (step <= steps || step == 1)
        invariant timeSteps[0].time == 0 && timeSteps[0].removeFlows == [] && Ids(timeSteps[0].addFlows) == Span(0, initial)
        invariant LaterSteps(timeSteps, add, remove) && RemovedAfterAdded(timeSteps)
        invariant Ids(AllAdds(timeSteps)) == Span(0, nextFlowId)
        invariant removedIds == AllRemoves(timeSteps) && Valid()
      {
        ghost var next0 := nextFlowId;
        var ts := Step(step, add, remove);
        assert |AllAdds(timeSteps)| == next0;
        if ts.None? {
          return None;
        }
        StepsAppend(timeSteps, ts.value, add, remove);
        AddsContinue(timeSteps, ts.value, next0);
        timeSteps := timeSteps + [ts.value];
        step := step + 1;
      }
      RemovedOnce(activeClusters, flowSetSize, removedIds, nextFlowId);
      return Some(timeSteps);
    }
  }

  /** The ids of a step that continue the run's span extend it. */
  lemma AddsContinue(steps: seq<TimeStep>, ts: TimeStep, next: nat)
    requires Ids(AllAdds(steps)) == Span(0, next) && Ids(ts.addFlows) == Span(next, |ts.addFlows|)
    ensures Ids(AllAdds(steps + [ts])) == Span(0, next + |ts.addFlows|)
  {
    assert (steps + [ts])[..|steps|] == steps;
    IdsAppend(AllAdds(steps), ts.addFlows);
    SpanAppend(0, next, |ts.addFlows|);
  }

  /** Every step after the first carries its number and removes and adds the configured counts. */
  ghost predicate LaterSteps(steps: seq<TimeStep>, add: int, remove: int) {
    forall t :: 1 <= t < |steps| ==>
      steps[t].time == t && |steps[t].removeFlows| == Count(remove) && |steps[t].addFlows| == Count(add)
  }

  /** A step removes only flows that earlier steps added. */
  ghost predicate RemovedAfterAdded(steps: seq<TimeStep>) {
    forall t, k :: 1 <= t < |steps| && 0 <= k < |steps[t].removeFlows| ==> steps[t].removeFlows[k] < |AllAdds(steps[..t])|
  }

  /** Appending a time step extends the run's adds and removes and keeps the step properties. */
  lemma StepsAppend(steps: seq<TimeStep>, ts: TimeStep, add: int, remove: int)
    requires |steps| >= 1 && LaterSteps(steps, add, remove) && RemovedAfterAdded(steps)
    requires ts.time == |steps| && |ts.removeFlows| == Count(remove) && |ts.addFlows| == Count(add)
    requires forall k :: 0 <= k < |ts.removeFlows| ==> ts.removeFlows[k] < |AllAdds(steps)|
    ensures AllAdds(steps + [ts]) == AllAdds(steps) + ts.addFlows
    ensures AllRemoves(steps + [ts]) == AllRemoves(steps) + ts.removeFlows
    ensures LaterSteps(steps + [ts], add, remove) && RemovedAfterAdded(steps + [ts])
    ensures (steps + [ts])[0] == steps[0]
  {
    var steps' := steps + [ts];
    assert steps'[..|steps|] == steps;
    forall t, k | 1 <= t < |steps'| && 0 <= k < |steps'[t].removeFlows| ensures steps'[t].removeFlows[k] < |AllAdds(steps'[..t])| {
      if t < |steps| {
        assert steps'[..t] == steps[..t];
      }
    }
  }
}
