/**
 * The FirstFit scheduler of src/solver/scheduler/FirstFit.cpp.  The flows of a set are tried in
 * ascending id order, each with its first configuration and ASAP placement; a flow that does not
 * fit is skipped.  The active flows go first: when one of them does not fit, the solution is
 * empty, and the placements already made stay in the utilization list.
 */
module FirstFit {
  import opened Slots
  import opened UtilizationList
  import opened Graph
  import opened Placement
  import Sorting

  /** A solution set: (flow id, configuration id) pairs. */
  type Solution = seq<(nat, nat)>

  predicate Increasing(s: seq<nat>) {
    forall j, k :: 0 <= j < k < |s| ==> s[j] < s[k]
  }

  predicate IsLeast(m: nat, s: set<nat>) {
    m in s && forall y :: y in s ==> m <= y
  }

  lemma {:induction false} MinimumExists(s: set<nat>)
    requires s != {}
    ensures exists m :: IsLeast(m, s)
    decreases |s|
  {
    var x :| x in s;
    if s == {x} {
      assert IsLeast(x, s);
    } else {
      MinimumExists(s - {x});
      var m :| IsLeast(m, s - {x});
      var low := if x < m then x else m;
      forall y | y in s ensures low <= y {
        if y != x {
          assert y in s - {x};
        }
      }
      assert IsLeast(low, s);
    }
  }

  /** The least element of a non-empty set. */
  ghost function Least(s: set<nat>): (m: nat)
    requires s != {}
    ensures m in s && forall y :: y in s ==> m <= y
  {
    MinimumExists(s);
    var m :| IsLeast(m, s);
    m
  }

  /** The ids of a set in ascending order: the vector add_flows builds and sorts. */
  ghost function Ascending(s: set<nat>): (r: seq<nat>)
    ensures |r| == |s|
    decreases |s|
  {
    if s == {} then [] else [Least(s)] + Ascending(s - {Least(s)})
  }

  /** The ascending list holds exactly the set's elements. */
  lemma {:induction false} AscendingMembers(s: set<nat>)
    ensures forall x :: x in Ascending(s) <==> x in s
    decreases |s|
  {
    if s != {} {
      var m := Least(s);
      var rest := Ascending(s - {m});
      AscendingMembers(s - {m});
      assert Ascending(s) == [m] + rest;
      forall x ensures x in Ascending(s) <==> x in s {
        assert x in [m] + rest <==> x == m || x in rest;
      }
    }
  }

  lemma PrependSmallest(m: nat, rest: seq<nat>)
    requires Increasing(rest) && forall y :: y in rest ==> m < y
    ensures Increasing([m] + rest)
  {
    forall j, k | 0 <= j < k < |[m] + rest| ensures ([m] + rest)[j] < ([m] + rest)[k] {
      assert ([m] + rest)[k] == rest[k - 1] && rest[k - 1] in rest;
      if j > 0 {
        assert ([m] + rest)[j] == rest[j - 1];
      }
    }
  }

  /** Each id of the ascending list is larger than the one before. */
  lemma {:induction false} AscendingIncreasing(s: set<nat>)
    ensures Increasing(Ascending(s))
    decreases |s|
  {
    if s != {} {
      var m := Least(s);
      var rest := Ascending(s - {m});
      AscendingIncreasing(s - {m});
      AscendingMembers(s - {m});
      forall y | y in rest ensures m < y {
        assert y in s - {m};
      }
      PrependSmallest(m, rest);
      assert Ascending(s) == [m] + rest;
    }
  }

  /** The ascending list holds exactly the set's elements, each larger than the one before. */
  lemma AscendingSorts(s: set<nat>)
    ensures Increasing(Ascending(s))
    ensures forall x :: x in Ascending(s) <==> x in s
  {
    AscendingIncreasing(s);
    AscendingMembers(s);
  }

  lemma SameMembersBothEmpty(a: seq<nat>, b: seq<nat>)
    requires forall x :: x in a <==> x in b
    ensures a == [] <==> b == []
  {
    if a != [] {
      assert a[0] in a;
    }
    if b != [] {
      assert b[0] in b;
    }
  }

  /** Two increasing sequences with the same elements are equal. */
  lemma {:induction false} IncreasingUnique(a: seq<nat>, b: seq<nat>)
    requires Increasing(a) && Increasing(b) && forall x :: x in a <==> x in b
    ensures a == b
    decreases |a|
  {
    SameMembersBothEmpty(a, b);
    if a != [] {
      assert a[0] in b && b[0] in a;
      var j :| 0 <= j < |a| && a[j] == b[0];
      var k :| 0 <= k < |b| && b[k] == a[0];
      assert a[0] <= a[j] && b[0] <= b[k];
      forall x ensures x in a[1..] <==> x in b[1..] {
        if x in a[1..] {
          var i :| 0 <= i < |a[1..]| && a[1..][i] == x;
          assert a[i + 1] == x && a[0] < x;
        }
        if x in b[1..] {
          var i :| 0 <= i < |b[1..]| && b[1..][i] == x;
          assert b[i + 1] == x && b[0] < x;
        }
        assert x in a <==> x == a[0] || x in a[1..];
        assert x in b <==> x == b[0] || x in b[1..];
      }
      IncreasingUnique(a[1..], b[1..]);
      assert a == [a[0]] + a[1..] && b == [b[0]] + b[1..];
    }
  }

  /** Sort key of a flow id for the shared in-place sort. */
  function IdKey(x: nat): (int, int) {
    (x, 0)
  }

  /**
   * The ordered flow list of add_flows: the set's elements in the hash set's (arbitrary)
   * iteration order, then sorted.
   */
  method SortedIds(s: set<nat>) returns (ids: seq<nat>)
    ensures ids == Ascending(s)
  {
    var v: seq<nat> := [];
    var rest := s;
    while rest != {}
      invariant rest <= s
      invariant forall x :: x in v <==> x in s && x !in rest
      invariant forall j, k :: 0 <= j < k < |v| ==> v[j] != v[k]
      decreases |rest|
    {
      var x :| x in rest;
      v := v + [x];
      rest := rest - {x};
    }
    ids := Sorting.SortByKey(v, IdKey);
    forall j, k | 0 <= j < k < |ids| ensures ids[j] < ids[k] {
      assert Sorting.KeyLe(IdKey(ids[j]), IdKey(ids[k]));
      if ids[j] == ids[k] {
        DuplicateCountsTwice(ids, j, k);
        var p, p' := CountTwiceGivesPositions(v, ids[j]);
        assert false;
      }
    }
    forall x ensures x in ids <==> x in s {
      assert x in ids <==> x in multiset(ids);
      assert x in v <==> x in multiset(v);
    }
    AscendingSorts(s);
    IncreasingUnique(ids, Ascending(s));
  }

  /** The configuration FirstFit tries for a flow: the first one listed. */
  function FirstConfig(flows: map<nat, Flow>, configs: map<nat, Configuration>, id: nat): Configuration
    requires id in flows && flows[id].configurations != [] && flows[id].configurations[0] in configs
  {
    configs[flows[id].configurations[0]]
  }

  /**
   * A flow add_flows can try: getFlow and getConfiguration find it, it has a configuration
   * (front() of an empty list is undefined), its path lies on existing links, and its sizes and
   * times are size_t values with a positive period.
   */
  predicate Triable(flows: map<nat, Flow>, configs: map<nat, Configuration>, links: nat, hc: nat, id: nat) {
    id in flows && flows[id].configurations != [] && flows[id].configurations[0] in configs
    && (forall k :: 0 <= k < |FirstConfig(flows, configs, id).path| ==> FirstConfig(flows, configs, id).path[k] < links)
    && flows[id].frameSize <= SizeMax && flows[id].period > 0 && hc <= SizeMax
  }

  predicate AllTriable(flows: map<nat, Flow>, configs: map<nat, Configuration>, links: nat, hc: nat, ids: seq<nat>) {
    forall i :: 0 <= i < |ids| ==> Triable(flows, configs, links, hc, ids[i])
  }

  lemma AllTriableTail(flows: map<nat, Flow>, configs: map<nat, Configuration>, links: nat, hc: nat, ids: seq<nat>)
    requires AllTriable(flows, configs, links, hc, ids) && ids != []
    ensures AllTriable(flows, configs, links, hc, ids[1..])
  {
    forall i | 0 <= i < |ids[1..]| ensures Triable(flows, configs, links, hc, ids[1..][i]) {
      assert ids[1..][i] == ids[i + 1];
    }
  }

  /** ASAP placement leaves one list of each kind per queue. */
  lemma AsapShape(st: ListState, path: seq<nat>, frameSize: nat, period: nat, hc: nat, flow: nat, config: nat)
    requires Placeable(st, path, frameSize, period, hc)
    ensures Shaped(AsapOutcome(st, path, frameSize, period, hc, flow, config).state)
    ensures |AsapOutcome(st, path, frameSize, period, hc, flow, config).state.free| == |st.free|
  {
  }

  /** The ASAP attempt for one flow of add_flows. */
  function Attempt(st: ListState, flows: map<nat, Flow>, configs: map<nat, Configuration>, hc: nat, id: nat): (o: Outcome)
    requires Shaped(st) && Triable(flows, configs, |st.free|, hc, id)
    ensures Shaped(o.state) && |o.state.free| == |st.free|
  {
    var f := flows[id];
    var c := FirstConfig(flows, configs, id);
    AsapShape(st, c.path, f.frameSize, f.period, hc, f.id, c.id);
    AsapOutcome(st, c.path, f.frameSize, f.period, hc, f.id, c.id)
  }

  /**
   * add_flows over an ordered id list: each flow placed by ASAP with its first configuration,
   * the pair recorded only when the placement succeeded; with the state left behind.
   */
  function AddAll(st: ListState, ids: seq<nat>, flows: map<nat, Flow>, configs: map<nat, Configuration>, hc: nat): (r: (Solution, ListState))
    requires Shaped(st) && AllTriable(flows, configs, |st.free|, hc, ids)
    ensures Shaped(r.1) && |r.1.free| == |st.free|
    decreases |ids|
  {
    if ids == [] then ([], st)
    else
      var o := Attempt(st, flows, configs, hc, ids[0]);
      var rest := AddAll(o.state, ids[1..], flows, configs, hc);
      ((if o.ok then [(ids[0], flows[ids[0]].configurations[0])] else []) + rest.0, rest.1)
  }

  /** The pair add_flows records for the first flow of the list, if its placement succeeded. */
  function HeadPair(st: ListState, flows: map<nat, Flow>, configs: map<nat, Configuration>, hc: nat, id: nat): Solution
    requires Shaped(st) && Triable(flows, configs, |st.free|, hc, id)
  {
    if Attempt(st, flows, configs, hc, id).ok then [(id, flows[id].configurations[0])] else []
  }

  /** One step of add_flows: the head's pair, then the rest tried on the state the head left. */
  lemma AddAllStep(st: ListState, ids: seq<nat>, flows: map<nat, Flow>, configs: map<nat, Configuration>, hc: nat)
    requires Shaped(st) && AllTriable(flows, configs, |st.free|, hc, ids) && ids != []
    ensures AllTriable(flows, configs, |st.free|, hc, ids[1..])
    ensures AddAll(st, ids, flows, configs, hc).0 ==
              HeadPair(st, flows, configs, hc, ids[0]) + AddAll(Attempt(st, flows, configs, hc, ids[0]).state, ids[1..], flows, configs, hc).0
    ensures AddAll(st, ids, flows, configs, hc).1 == AddAll(Attempt(st, flows, configs, hc, ids[0]).state, ids[1..], flows, configs, hc).1
  {
    AllTriableTail(flows, configs, |st.free|, hc, ids);
  }

  /** The pairs add_flows records: at most one per flow tried, each with the flow's first configuration. */
  lemma {:induction false} AddAllMembers(st: ListState, ids: seq<nat>, flows: map<nat, Flow>, configs: map<nat, Configuration>, hc: nat)
    requires Shaped(st) && AllTriable(flows, configs, |st.free|, hc, ids)
    ensures |AddAll(st, ids, flows, configs, hc).0| <= |ids|
    ensures forall p :: p in AddAll(st, ids, flows, configs, hc).0 ==> p.0 in ids && p.1 == flows[p.0].configurations[0]
    decreases |ids|
  {
    if ids != [] {
      AddAllStep(st, ids, flows, configs, hc);
      var o := Attempt(st, flows, configs, hc, ids[0]);
      var rest := AddAll(o.state, ids[1..], flows, configs, hc).0;
      AddAllMembers(o.state, ids[1..], flows, configs, hc);
      forall p | p in AddAll(st, ids, flows, configs, hc).0 ensures p.0 in ids && p.1 == flows[p.0].configurations[0] {
        if p !in HeadPair(st, flows, configs, hc, ids[0]) {
          assert p in rest;
          assert p.0 in ids[1..];
        }
      }
    }
  }

  lemma TailIncreasing(ids: seq<nat>)
    requires Increasing(ids) && ids != []
    ensures Increasing(ids[1..])
    ensures forall x :: x in ids[1..] ==> ids[0] < x
  {
    forall j, k | 0 <= j < k < |ids[1..]| ensures ids[1..][j] < ids[1..][k] {
      assert ids[1..][j] == ids[j + 1] && ids[1..][k] == ids[k + 1];
    }
    forall x | x in ids[1..] ensures ids[0] < x {
      var i :| 0 <= i < |ids[1..]| && ids[1..][i] == x;
      assert ids[i + 1] == x;
    }
  }

  /** At most one pair for a smaller id in front of increasing pairs of larger ids stays increasing. */
  lemma PrependIncreasing(first: nat, head: Solution, rest: Solution)
    requires forall p :: p in head ==> p.0 == first
    requires |head| <= 1
    requires forall p :: p in rest ==> first < p.0
    requires forall j, k :: 0 <= j < k < |rest| ==> rest[j].0 < rest[k].0
    ensures forall j, k :: 0 <= j < k < |head + rest| ==> (head + rest)[j].0 < (head + rest)[k].0
  {
    var ps := head + rest;
    forall j, k | 0 <= j < k < |ps| ensures ps[j].0 < ps[k].0 {
      if j < |head| {
        assert ps[j] in head && ps[k] == rest[k - 1] && ps[k] in rest;
      } else {
        assert ps[j] == rest[j - |head|] && ps[k] == rest[k - |head|];
      }
    }
  }

  /** Flows tried in ascending id order are recorded in ascending id order. */
  lemma {:induction false} AddAllIncreasing(st: ListState, ids: seq<nat>, flows: map<nat, Flow>, configs: map<nat, Configuration>, hc: nat)
    requires Shaped(st) && AllTriable(flows, configs, |st.free|, hc, ids) && Increasing(ids)
    ensures forall j, k :: 0 <= j < k < |AddAll(st, ids, flows, configs, hc).0| ==>
              AddAll(st, ids, flows, configs, hc).0[j].0 < AddAll(st, ids, flows, configs, hc).0[k].0
    decreases |ids|
  {
    if ids != [] {
      AddAllStep(st, ids, flows, configs, hc);
      var o := Attempt(st, flows, configs, hc, ids[0]);
      var rest := AddAll(o.state, ids[1..], flows, configs, hc).0;
      TailIncreasing(ids);
      AddAllIncreasing(o.state, ids[1..], flows, configs, hc);
      AddAllMembers(o.state, ids[1..], flows, configs, hc);
      PrependIncreasing(ids[0], HeadPair(st, flows, configs, hc, ids[0]), rest);
    }
  }

  /** When every flow was recorded, the pairs are the flows in the order tried. */
  lemma {:induction false} AddAllComplete(st: ListState, ids: seq<nat>, flows: map<nat, Flow>, configs: map<nat, Configuration>, hc: nat)
    requires Shaped(st) && AllTriable(flows, configs, |st.free|, hc, ids)
    requires |AddAll(st, ids, flows, configs, hc).0| == |ids|
    ensures forall i :: 0 <= i < |ids| ==> AddAll(st, ids, flows, configs, hc).0[i].0 == ids[i]
    decreases |ids|
  {
    if ids != [] {
      AddAllStep(st, ids, flows, configs, hc);
      var o := Attempt(st, flows, configs, hc, ids[0]);
      var head := HeadPair(st, flows, configs, hc, ids[0]);
      var rest := AddAll(o.state, ids[1..], flows, configs, hc).0;
      AddAllMembers(o.state, ids[1..], flows, configs, hc);
      assert |head| == 1 && |rest| == |ids[1..]|;
      AddAllComplete(o.state, ids[1..], flows, configs, hc);
      PrependRecords(ids, head, rest);
    }
  }

  /** A recorded head flow in front of the pairs of the remaining flows, in order. */
  lemma PrependRecords(ids: seq<nat>, head: Solution, rest: Solution)
    requires |ids| == |head| + |rest| && |head| == 1 && head[0].0 == ids[0]
    requires forall i :: 0 <= i < |rest| ==> rest[i].0 == ids[1..][i]
    ensures forall i :: 0 <= i < |ids| ==> (head + rest)[i].0 == ids[i]
  {
    forall i | 0 <= i < |ids| ensures (head + rest)[i].0 == ids[i] {
      if i > 0 {
        assert (head + rest)[i] == rest[i - 1] && ids[i] == ids[1..][i - 1];
      }
    }
  }

  lemma Regroup<T>(a: seq<T>, b: seq<T>, c: seq<T>)
    ensures a + (b + c) == (a + b) + c
  {
  }

  /** Every flow tried has frames of at least one tick, so the reservation lemmas apply. */
  predicate LongFrames(flows: map<nat, Flow>, ids: seq<nat>) {
    forall i :: 0 <= i < |ids| ==> ids[i] in flows && flows[ids[i]].frameSize >= 125
  }

  /** add_flows keeps every queue tiled: each placement only carves free ticks. */
  lemma {:induction false} AddAllKeepsTiles(st: ListState, ids: seq<nat>, flows: map<nat, Flow>, configs: map<nat, Configuration>, hc: nat)
    requires Shaped(st) && AllTriable(flows, configs, |st.free|, hc, ids)
    requires TiledState(st, hc) && LongFrames(flows, ids)
    ensures TiledState(AddAll(st, ids, flows, configs, hc).1, hc)
    decreases |ids|
  {
    if ids != [] {
      var f := flows[ids[0]];
      var c := FirstConfig(flows, configs, ids[0]);
      AsapKeepsTiles(st, c.path, f.frameSize, f.period, hc, f.id, c.id);
      var o := Attempt(st, flows, configs, hc, ids[0]);
      assert AllTriable(flows, configs, |o.state.free|, hc, ids[1..]) by {
        forall i | 0 <= i < |ids[1..]| ensures Triable(flows, configs, |o.state.free|, hc, ids[1..][i]) {
          assert ids[1..][i] == ids[i + 1];
        }
      }
      assert LongFrames(flows, ids[1..]) by {
        forall i | 0 <= i < |ids[1..]| ensures ids[1..][i] in flows && flows[ids[1..][i]].frameSize >= 125 {
          assert ids[1..][i] == ids[i + 1];
        }
      }
      AddAllKeepsTiles(o.state, ids[1..], flows, configs, hc);
    }
  }

  predicate SetTriable(flows: map<nat, Flow>, configs: map<nat, Configuration>, links: nat, hc: nat, s: set<nat>) {
    forall id :: id in s ==> Triable(flows, configs, links, hc, id)
  }

  lemma AscendingTriable(flows: map<nat, Flow>, configs: map<nat, Configuration>, links: nat, hc: nat, s: set<nat>)
    requires SetTriable(flows, configs, links, hc, s)
    ensures AllTriable(flows, configs, links, hc, Ascending(s))
  {
    AscendingSorts(s);
    forall i | 0 <= i < |Ascending(s)| ensures Triable(flows, configs, links, hc, Ascending(s)[i]) {
      assert Ascending(s)[i] in Ascending(s);
    }
  }

  /** add_flows on a set of ids: the pairs it records and the state it leaves. */
  ghost function AddFlowSet(st: ListState, s: set<nat>, flows: map<nat, Flow>, configs: map<nat, Configuration>, hc: nat): (r: (Solution, ListState))
    requires Shaped(st) && SetTriable(flows, configs, |st.free|, hc, s)
    ensures Shaped(r.1) && |r.1.free| == |st.free|
  {
    AscendingTriable(flows, configs, |st.free|, hc, s);
    AddAll(st, Ascending(s), flows, configs, hc)
  }

  /**
   * solve: the active flows, then (only when all of them were placed) the required flows; the
   * empty solution otherwise, with the active placements left in the list.
   */
  ghost function SolveResult(st: ListState, active: set<nat>, required: set<nat>, flows: map<nat, Flow>, configs: map<nat, Configuration>, hc: nat): (r: (Solution, ListState))
    requires Shaped(st) && SetTriable(flows, configs, |st.free|, hc, active) && SetTriable(flows, configs, |st.free|, hc, required)
  {
    var a := AddFlowSet(st, active, flows, configs, hc);
    if |a.0| < |active| then ([], a.1)
    else
      var b := AddFlowSet(a.1, required, flows, configs, hc);
      (a.0 + b.0, b.1)
  }

  /**
   * add_flows on a set records at most one pair per flow of the set, each with the flow's first
   * configuration, and all of them, in ascending id order, exactly when every flow was placed.
   */
  lemma AddFlowSetPairs(st: ListState, s: set<nat>, flows: map<nat, Flow>, configs: map<nat, Configuration>, hc: nat)
    requires Shaped(st) && SetTriable(flows, configs, |st.free|, hc, s)
    ensures var r := AddFlowSet(st, s, flows, configs, hc).0;
      |r| <= |s|
      && (forall p :: p in r ==> p.0 in s && FirstPair(flows, p))
      && (forall j, k :: 0 <= j < k < |r| ==> r[j].0 < r[k].0)
      && (|r| == |s| ==> forall i :: 0 <= i < |s| ==> r[i].0 == Ascending(s)[i])
  {
    AscendingTriable(flows, configs, |st.free|, hc, s);
    AscendingSorts(s);
    AddAllMembers(st, Ascending(s), flows, configs, hc);
    AddAllIncreasing(st, Ascending(s), flows, configs, hc);
    if |AddFlowSet(st, s, flows, configs, hc).0| == |s| {
      AddAllComplete(st, Ascending(s), flows, configs, hc);
    }
  }

  /** The pairs of the active flows followed by those of the required flows. */
  lemma JoinPairs(x: Solution, y: Solution, active: set<nat>, required: set<nat>, flows: map<nat, Flow>)
    requires |x| == |active| && forall i :: 0 <= i < |active| ==> x[i].0 == Ascending(active)[i]
    requires forall p :: p in x ==> p.0 in active && FirstPair(flows, p)
    requires forall p :: p in y ==> p.0 in required && FirstPair(flows, p)
    ensures ActiveFirst(x + y, active, required, flows)
  {
    var r := x + y;
    forall i | 0 <= i < |active| ensures r[i].0 == Ascending(active)[i] {
      assert r[i] == x[i];
    }
    forall i | |active| <= i < |r| ensures r[i].0 in required {
      assert r[i] == y[i - |x|] && y[i - |x|] in y;
    }
    forall p | p in r ensures p.0 in active || p.0 in required {
      assert p in x || p in y;
    }
  }

  /**
   * Solution r holds every active flow first, in ascending id order, and after them only
   * required flows, each pair with the flow's first configuration.
   */
  ghost predicate ActiveFirst(r: Solution, active: set<nat>, required: set<nat>, flows: map<nat, Flow>) {
    |r| >= |active|
    && (forall i :: 0 <= i < |active| ==> r[i].0 == Ascending(active)[i])
    && (forall i :: |active| <= i < |r| ==> r[i].0 in required)
    && (forall p :: p in r ==> (p.0 in active || p.0 in required) && FirstPair(flows, p))
  }

  /** The pair holds a known flow with its first configuration. */
  predicate FirstPair(flows: map<nat, Flow>, p: (nat, nat)) {
    p.0 in flows && flows[p.0].configurations != [] && p.1 == flows[p.0].configurations[0]
  }

  /**
   * A non-empty solution holds every active flow first, in ascending id order, and after them
   * only required flows, each pair with the flow's first configuration.
   */
  lemma SolveAllActiveOrNothing(st: ListState, active: set<nat>, required: set<nat>, flows: map<nat, Flow>, configs: map<nat, Configuration>, hc: nat)
    requires Shaped(st) && SetTriable(flows, configs, |st.free|, hc, active) && SetTriable(flows, configs, |st.free|, hc, required)
    ensures var r := SolveResult(st, active, required, flows, configs, hc).0;
      r != [] ==> ActiveFirst(r, active, required, flows)
  {
    var a := AddFlowSet(st, active, flows, configs, hc);
    AddFlowSetPairs(st, active, flows, configs, hc);
    if |a.0| == |active| {
      var b := AddFlowSet(a.1, required, flows, configs, hc);
      assert SolveResult(st, active, required, flows, configs, hc).0 == a.0 + b.0;
      JoinedPairs(st, a, b, active, required, flows, configs, hc);
    }
  }

  /** The pairs of both add_flows calls, when the first placed every active flow. */
  lemma JoinedPairs(st: ListState, a: (Solution, ListState), b: (Solution, ListState), active: set<nat>, required: set<nat>, flows: map<nat, Flow>, configs: map<nat, Configuration>, hc: nat)
    requires Shaped(st) && SetTriable(flows, configs, |st.free|, hc, active) && SetTriable(flows, configs, |st.free|, hc, required)
    requires a == AddFlowSet(st, active, flows, configs, hc) && |a.0| == |active|
    requires Shaped(a.1) && |a.1.free| == |st.free|
    requires b == AddFlowSet(a.1, required, flows, configs, hc)
    ensures ActiveFirst(a.0 + b.0, active, required, flows)
  {
    AddFlowSetPairs(st, active, flows, configs, hc);
    AddFlowSetPairs(a.1, required, flows, configs, hc);
    JoinPairs(a.0, b.0, active, required, flows);
  }

  /** The flows of a set have frames of at least one tick. */
  predicate SetLongFrames(flows: map<nat, Flow>, s: set<nat>) {
    forall id :: id in s ==> id in flows && flows[id].frameSize >= 125
  }

  /**
   * add_flows: the ids in ascending order, each flow placed by ASAP with its first configuration,
   * and its pair appended to the solution when that succeeded.
   */
  method AddFlows(g: MultiLayeredGraph, search: set<nat>, ul: NetworkUtilizationList, result: Solution) returns (r: Solution)
    requires ul.Valid() && SetTriable(g.flows, g.configs, ul.links, ul.hyperCycle, search)
    modifies ul
    ensures ul.Valid()
    ensures r == result + AddFlowSet(old(ul.State()), search, g.flows, g.configs, ul.hyperCycle).0
    ensures ul.State() == AddFlowSet(old(ul.State()), search, g.flows, g.configs, ul.hyperCycle).1
    ensures old(ul.Consistent()) && SetLongFrames(g.flows, search) ==> ul.Consistent()
  {
    ghost var st0 := ul.State();
    ghost var consistent := ul.Consistent() && SetLongFrames(g.flows, search);
    ConsistentIsTiled(ul);
    var ids := SortedIds(search);
    AscendingTriable(g.flows, g.configs, ul.links, ul.hyperCycle, search);
    var added := PlaceInOrder(g, ids, ul);
    r := result + added;
    if consistent {
      AscendingLong(g.flows, search);
      AddAllKeepsTiles(st0, ids, g.flows, g.configs, ul.hyperCycle);
      ConsistentIsTiled(ul);
    }
  }

  lemma AscendingLong(flows: map<nat, Flow>, s: set<nat>)
    ensures SetLongFrames(flows, s) ==> LongFrames(flows, Ascending(s))
  {
    AscendingSorts(s);
    if SetLongFrames(flows, s) {
      forall i | 0 <= i < |Ascending(s)| ensures Ascending(s)[i] in flows && flows[Ascending(s)[i]].frameSize >= 125 {
        assert Ascending(s)[i] in Ascending(s);
      }
    }
  }

  /** The loop of add_flows over the sorted ids. */
  method PlaceInOrder(g: MultiLayeredGraph, ids: seq<nat>, ul: NetworkUtilizationList) returns (added: Solution)
    requires ul.Valid() && AllTriable(g.flows, g.configs, ul.links, ul.hyperCycle, ids)
    modifies ul
    ensures ul.Valid()
    ensures (added, ul.State()) == AddAll(old(ul.State()), ids, g.flows, g.configs, ul.hyperCycle)
  {
    ghost var spec := AddAll(ul.State(), ids, g.flows, g.configs, ul.hyperCycle);
    ghost var tail := spec;
    added := [];
    var i := 0;
    assert ids[i..] == ids && added + spec.0 == spec.0;
    while i < |ids|
      invariant 0 <= i <= |ids| && ul.Valid()
      invariant AllTriable(g.flows, g.configs, ul.links, ul.hyperCycle, ids[i..])
      invariant tail == AddAll(ul.State(), ids[i..], g.flows, g.configs, ul.hyperCycle)
      invariant spec == (added + tail.0, tail.1)
    {
      ghost var before := ul.State();
      var pair := AddOne(g, ul, ids[i]);
      AddAllFolds(before, ids, i, g.flows, g.configs, ul.hyperCycle, added, pair, spec);
      tail := AddAll(ul.State(), ids[i + 1..], g.flows, g.configs, ul.hyperCycle);
      added := added + pair;
      i := i + 1;
    }
    assert added + [] == added;
  }

  /** One round of the add_flows loop keeps the fold's remainder in step with the list. */
  lemma AddAllFolds(before: ListState, ids: seq<nat>, i: nat, flows: map<nat, Flow>, configs: map<nat, Configuration>, hc: nat,
                    added: Solution, pair: Solution, spec: (Solution, ListState))
    requires i < |ids| && Shaped(before) && AllTriable(flows, configs, |before.free|, hc, ids[i..])
    requires pair == HeadPair(before, flows, configs, hc, ids[i])
    requires spec == (added + AddAll(before, ids[i..], flows, configs, hc).0, AddAll(before, ids[i..], flows, configs, hc).1)
    ensures AllTriable(flows, configs, |before.free|, hc, ids[i + 1..])
    ensures var after := Attempt(before, flows, configs, hc, ids[i]).state;
      spec == ((added + pair) + AddAll(after, ids[i + 1..], flows, configs, hc).0, AddAll(after, ids[i + 1..], flows, configs, hc).1)
  {
    assert ids[i..][0] == ids[i] && ids[i..][1..] == ids[i + 1..];
    AddAllStep(before, ids[i..], flows, configs, hc);
    var rest := AddAll(Attempt(before, flows, configs, hc, ids[i]).state, ids[i + 1..], flows, configs, hc);
    Regroup(added, pair, rest.0);
  }

  /** One round of add_flows: ASAP with the flow's first configuration, and its pair on success. */
  method AddOne(g: MultiLayeredGraph, ul: NetworkUtilizationList, id: nat) returns (pair: Solution)
    requires ul.Valid() && Triable(g.flows, g.configs, ul.links, ul.hyperCycle, id)
    modifies ul
    ensures ul.Valid()
    ensures pair == HeadPair(old(ul.State()), g.flows, g.configs, ul.hyperCycle, id)
    ensures ul.State() == Attempt(old(ul.State()), g.flows, g.configs, ul.hyperCycle, id).state
  {
    var flow := g.flows[id];
    var configId := flow.configurations[0];
    var config := g.configs[configId];
    assert config == FirstConfig(g.flows, g.configs, id);
    var ok := PlaceConfigAsap(ul, config, flow);
    pair := if ok then [(id, configId)] else [];
  }

  /**
   * solve: add the active flows; if one of them was not placed return the empty solution,
   * otherwise add the required flows behind them.
   */
  method Solve(g: MultiLayeredGraph, active: set<nat>, required: set<nat>, ul: NetworkUtilizationList) returns (r: Solution)
    requires ul.Valid()
    requires SetTriable(g.flows, g.configs, ul.links, ul.hyperCycle, active)
    requires SetTriable(g.flows, g.configs, ul.links, ul.hyperCycle, required)
    modifies ul
    ensures ul.Valid()
    ensures (r, ul.State()) == SolveResult(old(ul.State()), active, required, g.flows, g.configs, ul.hyperCycle)
    ensures old(ul.Consistent()) && SetLongFrames(g.flows, active) && SetLongFrames(g.flows, required) ==> ul.Consistent()
  {
    ghost var st0 := ul.State();
    ghost var a := AddFlowSet(st0, active, g.flows, g.configs, ul.hyperCycle);
    r := AddFlows(g, active, ul, []);
    assert r == a.0 by {
      assert [] + a.0 == a.0;
    }
    if |r| < |active| {
      return [];
    }
    r := AddFlows(g, required, ul, r);
  }
}
