/**
 * The three-layer graph of src/graph/MultiLayeredGraph.cpp (flows, configurations, and a CSR
 * network layer of egress queues) with the helpers of include/graph/GraphStructOperations.h.
 * Identifiers are plain naturals; the hash maps of flows and configurations are Dafny maps.
 */
module Graph {

  datatype Flow = Flow(id: nat, frameSize: nat, period: nat, source: nat, destination: nat, configurations: seq<nat>)

  /** A configuration is one routed path (a list of egress queue ids) of a flow. */
  datatype Configuration = Configuration(id: nat, flow: nat, path: seq<nat>)

  /** An egress queue of a device towards one neighbour, with the configurations routed over it. */
  datatype EgressQueue = EgressQueue(id: nat, destination: nat, usedBy: seq<nat>, endDevice: bool)

  /** The elements of s outside `gone`, in their original order. */
  function Without(s: seq<nat>, gone: set<nat>): (r: seq<nat>)
    ensures |r| <= |s|
  {
    if s == [] then []
    else if s[0] in gone then Without(s[1..], gone)
    else [s[0]] + Without(s[1..], gone)
  }

  /** Without keeps exactly the elements outside `gone`, each as often as before. */
  lemma {:induction false} WithoutMembers(s: seq<nat>, gone: set<nat>)
    ensures forall x :: x in Without(s, gone) <==> x in s && x !in gone
    ensures forall x :: x in gone ==> multiset(Without(s, gone))[x] == 0
    ensures forall x :: x !in gone ==> multiset(Without(s, gone))[x] == multiset(s)[x]
  {
    if s != [] {
      WithoutMembers(s[1..], gone);
      assert s == [s[0]] + s[1..];
    }
  }

  /** Erasing one set of ids after another erases their union. */
  lemma {:induction false} WithoutTwice(s: seq<nat>, a: set<nat>, b: set<nat>)
    ensures Without(Without(s, a), b) == Without(s, a + b)
  {
    if s != [] {
      WithoutTwice(s[1..], a, b);
      var rest := Without(s[1..], a);
      if s[0] !in a {
        assert Without(s, a) == [s[0]] + rest;
        assert Without(s, a)[1..] == rest;
      } else {
        assert Without(s, a) == rest;
      }
    }
  }

  lemma {:induction false} WithoutNothing(s: seq<nat>, gone: set<nat>)
    requires forall x :: x in s ==> x !in gone
    ensures Without(s, gone) == s
  {
    if s != [] {
      WithoutNothing(s[1..], gone);
      assert s == [s[0]] + s[1..];
    }
  }

  /** use: the configuration becomes the last user of the queue. */
  function Use(q: EgressQueue, user: nat): (r: EgressQueue)
    ensures r.id == q.id && r.destination == q.destination && r.endDevice == q.endDevice
    ensures |r.usedBy| == |q.usedBy| + 1 && r.usedBy[..|q.usedBy|] == q.usedBy && r.usedBy[|q.usedBy|] == user
  {
    q.(usedBy := q.usedBy + [user])
  }

  /** unuse: std::erase of every occurrence of the id, keeping the other users in order. */
  function Unuse(q: EgressQueue, formerUser: nat): (r: EgressQueue)
    ensures r.id == q.id && r.destination == q.destination && r.endDevice == q.endDevice
    ensures formerUser !in r.usedBy
    ensures forall x :: x != formerUser ==> multiset(r.usedBy)[x] == multiset(q.usedBy)[x]
  {
    WithoutMembers(q.usedBy, {formerUser});
    q.(usedBy := Without(q.usedBy, {formerUser}))
  }

  /** unuse undoes use of a configuration that did not use the queue before. */
  lemma UnuseUndoesUse(q: EgressQueue, user: nat)
    requires user !in q.usedBy
    ensures Unuse(Use(q, user), user) == q
  {
    var s := q.usedBy + [user];
    WithoutNothing(q.usedBy, {user});
    WithoutAppend(q.usedBy, [user], {user});
    assert Without([user], {user}) == [];
  }

  lemma {:induction false} WithoutAppend(a: seq<nat>, b: seq<nat>, gone: set<nat>)
    ensures Without(a + b, gone) == Without(a, gone) + Without(b, gone)
  {
    if a != [] {
      WithoutAppend(a[1..], b, gone);
      assert (a + b)[1..] == a[1..] + b;
    } else {
      assert a + b == b;
    }
  }

  /** The queues insertNetworkDevice appends for a device with these neighbours, ids from `first`. */
  function NewQueues(first: nat, neighbors: seq<nat>): (r: seq<EgressQueue>)
    ensures |r| == |neighbors|
    ensures forall i :: 0 <= i < |r| ==>
              r[i] == EgressQueue(first + i, neighbors[i], [], |neighbors| == 1)
  {
    seq(|neighbors|, i requires 0 <= i < |neighbors| => EgressQueue(first + i, neighbors[i], [], |neighbors| == 1))
  }

  /** The configuration ids whose paths (looked up in `configs`) pass over queue q. */
  ghost function Through(configs: map<nat, Configuration>, cids: seq<nat>, q: nat): set<nat> {
    set c | c in cids && c in configs && q in configs[c].path
  }

  /**
   * The loops of removeFlow over one flow's configurations: every queue on a configuration's path
   * stops being used by it. Returns the new edge vector.
   */
  method UnlinkConfigs(edges: seq<EgressQueue>, configs: map<nat, Configuration>, cids: seq<nat>) returns (e: seq<EgressQueue>)
    requires forall c :: c in cids ==> c in configs
    requires forall c, link :: c in cids && link in configs[c].path ==> link < |edges|
    ensures |e| == |edges|
    ensures forall i :: 0 <= i < |e| ==>
              e[i] == edges[i].(usedBy := Without(edges[i].usedBy, Through(configs, cids, i)))
  {
    e := edges;
    var k := 0;
    forall i | 0 <= i < |e|
      ensures e[i] == edges[i].(usedBy := Without(edges[i].usedBy, Through(configs, cids[..0], i)))
    {
      assert Through(configs, cids[..0], i) == {};
      WithoutNothing(edges[i].usedBy, {});
    }
    while k < |cids|
      invariant 0 <= k <= |cids| && |e| == |edges|
      invariant forall i :: 0 <= i < |e| ==>
                  e[i] == edges[i].(usedBy := Without(edges[i].usedBy, Through(configs, cids[..k], i)))
    {
      var cid := cids[k];
      ghost var before := e;
      e := UnuseAlong(e, configs[cid].path, cid);
      forall i | 0 <= i < |e|
        ensures e[i] == edges[i].(usedBy := Without(edges[i].usedBy, Through(configs, cids[..k + 1], i)))
      {
        assert cids[..k + 1] == cids[..k] + [cid];
        var gone := Through(configs, cids[..k], i);
        var path := configs[cid].path;
        assert Through(configs, cids[..k + 1], i) == gone + (if i in path then {cid} else {});
        if i in path {
          WithoutTwice(edges[i].usedBy, gone, {cid});
        } else {
          assert gone + {} == gone;
        }
      }
      k := k + 1;
    }
    assert cids[..k] == cids;
  }

  /** The inner loop of removeFlow: unuse(queue, id) for every queue on one path. */
  method UnuseAlong(edges: seq<EgressQueue>, path: seq<nat>, id: nat) returns (e: seq<EgressQueue>)
    requires forall link :: link in path ==> link < |edges|
    ensures |e| == |edges|
    ensures forall i :: 0 <= i < |e| ==>
              e[i] == if i in path then edges[i].(usedBy := Without(edges[i].usedBy, {id})) else edges[i]
  {
    e := edges;
    var j := 0;
    while j < |path|
      invariant 0 <= j <= |path| && |e| == |edges|
      invariant forall i :: 0 <= i < |e| ==>
                  e[i] == if i in path[..j] then edges[i].(usedBy := Without(edges[i].usedBy, {id})) else edges[i]
    {
      var link := path[j];
      assert link in path;
      if link in path[..j] {
        WithoutTwice(edges[link].usedBy, {id}, {id});
        assert {id} + {id} == {id};
      }
      e := e[link := Unuse(e[link], id)];
      assert path[..j + 1] == path[..j] + [link];
      j := j + 1;
    }
    assert path[..j] == path;
  }

  /** insertConfiguration of GraphStructOperations: use(queue, id) along the path, in path order. */
  method UseAlong(edges: seq<EgressQueue>, path: seq<nat>, id: nat) returns (e: seq<EgressQueue>)
    requires forall link :: link in path ==> link < |edges|
    ensures |e| == |edges|
    ensures forall i :: 0 <= i < |e| ==>
              e[i] == edges[i].(usedBy := edges[i].usedBy + seq(multiset(path)[i], _ => id))
  {
    e := edges;
    var j := 0;
    while j < |path|
      invariant 0 <= j <= |path| && |e| == |edges|
      invariant forall i :: 0 <= i < |e| ==>
                  e[i] == edges[i].(usedBy := edges[i].usedBy + seq(multiset(path[..j])[i], _ => id))
    {
      var link := path[j];
      assert link in path;
      e := e[link := Use(e[link], id)];
      assert path[..j + 1] == path[..j] + [link];
      forall i | 0 <= i < |e|
        ensures e[i] == edges[i].(usedBy := edges[i].usedBy + seq(multiset(path[..j + 1])[i], _ => id))
      {
        if i == link {
          var n := multiset(path[..j])[i];
          assert seq(n + 1, _ => id) == seq(n, _ => id) + [id];
        }
      }
      j := j + 1;
    }
    assert path[..j] == path;
  }

  /** A queue on a configuration's path is used by it exactly as often as the path visits it. */
  lemma UsedAlong(edges: seq<EgressQueue>, e: seq<EgressQueue>, path: seq<nat>, id: nat, i: nat)
    requires |e| == |edges| && i < |e|
    requires e[i] == edges[i].(usedBy := edges[i].usedBy + seq(multiset(path)[i], _ => id))
    ensures i in path ==> id in e[i].usedBy
    ensures i !in path ==> e[i] == edges[i]
  {
    if i in path {
      assert multiset(path)[i] > 0;
      assert e[i].usedBy[|edges[i].usedBy|] == id;
    } else {
      assert seq(0, _ => id) == [];
      assert edges[i].usedBy + [] == edges[i].usedBy;
    }
  }

  lemma OffsetsMonotone(offsets: seq<nat>, d: nat, e: nat)
    requires forall i :: 0 <= i < |offsets| - 1 ==> offsets[i] <= offsets[i + 1]
    requires d <= e < |offsets|
    ensures offsets[d] <= offsets[e]
    decreases e - d
  {
    if d < e {
      OffsetsMonotone(offsets, d + 1, e);
    }
  }

  /** The loop of insertNetworkDevice: one queue per neighbour, appended in neighbour order. */
  method AppendQueues(edges: seq<EgressQueue>, neighbors: seq<nat>) returns (e: seq<EgressQueue>)
    ensures e == edges + NewQueues(|edges|, neighbors)
  {
    e := edges;
    var endDevice := |neighbors| == 1;
    var j := 0;
    while j < |neighbors|
      invariant 0 <= j <= |neighbors|
      invariant e == edges + NewQueues(|edges|, neighbors)[..j]
    {
      var nextId := |e|;
      e := e + [EgressQueue(nextId, neighbors[j], [], endDevice)];
      assert NewQueues(|edges|, neighbors)[..j + 1] == NewQueues(|edges|, neighbors)[..j] + [NewQueues(|edges|, neighbors)[j]];
      j := j + 1;
    }
    assert NewQueues(|edges|, neighbors)[..j] == NewQueues(|edges|, neighbors);
  }

  /** The CSR slice of device d. */
  function DeviceQueues(offsets: seq<nat>, edges: seq<EgressQueue>, d: nat): seq<EgressQueue>
    requires d + 1 < |offsets| && offsets[d] <= offsets[d + 1] <= |edges|
  {
    edges[offsets[d]..offsets[d + 1]]
  }

  /** Appending a device to the CSR arrays adds its slice and keeps the slice of each earlier device. */
  lemma CsrAppend(offsets: seq<nat>, edges: seq<EgressQueue>, neighbors: seq<nat>, o: seq<nat>, e: seq<EgressQueue>)
    requires |offsets| >= 1 && offsets[|offsets| - 1] == |edges|
    requires forall i :: 0 <= i < |offsets| - 1 ==> offsets[i] <= offsets[i + 1]
    requires o == offsets + [|edges| + |neighbors|] && e == edges + NewQueues(|edges|, neighbors)
    ensures forall i :: 0 <= i < |o| - 1 ==> o[i] <= o[i + 1]
    ensures DeviceQueues(o, e, |offsets| - 1) == NewQueues(|edges|, neighbors)
  {
  }

  lemma CsrAppendKeeps(offsets: seq<nat>, edges: seq<EgressQueue>, neighbors: seq<nat>, o: seq<nat>, e: seq<EgressQueue>, d: nat)
    requires |offsets| >= 1 && offsets[|offsets| - 1] == |edges|
    requires forall i :: 0 <= i < |offsets| - 1 ==> offsets[i] <= offsets[i + 1]
    requires o == offsets + [|edges| + |neighbors|] && e == edges + NewQueues(|edges|, neighbors)
    requires d < |offsets| - 1
    ensures offsets[d] <= offsets[d + 1] <= |edges| && o[d] <= o[d + 1] <= |e|
    ensures DeviceQueues(o, e, d) == DeviceQueues(offsets, edges, d)
  {
    OffsetsMonotone(offsets, d + 1, |offsets| - 1);
    assert o[d] == offsets[d] && o[d + 1] == offsets[d + 1];
  }

  /** The keys of a hash map, in its (unspecified) iteration order: each key once. */
  predicate ListsKeys(keys: set<nat>, order: seq<nat>) {
    (forall k :: 0 <= k < |order| ==> order[k] in keys)
    && (forall id :: id in keys ==> id in order)
    && (forall j, k :: 0 <= j < k < |order| ==> order[j] != order[k])
  }

  /** The flows' periods in the given order: what calculate_hyper_cycle folds. */
  function PeriodsOf(flows: map<nat, Flow>, order: seq<nat>): (r: seq<nat>)
    requires forall k :: 0 <= k < |order| ==> order[k] in flows
    ensures |r| == |order| && forall k :: 0 <= k < |order| ==> r[k] == flows[order[k]].period
  {
    if order == [] then [] else PeriodsOf(flows, order[..|order| - 1]) + [flows[order[|order| - 1]].period]
  }

  /** The position of an egress queue on a path: its first occurrence, as std::find returns it. */
  function Position(path: seq<nat>, q: nat): (h: nat)
    requires q in path
    ensures h < |path| && path[h] == q
    ensures forall k :: 0 <= k < h ==> path[k] != q
  {
    if path[0] == q then 0 else 1 + Position(path[1..], q)
  }

  class MultiLayeredGraph {
    var flows: map<nat, Flow>
    var configs: map<nat, Configuration>
    /** CSR offsets: device d owns edges[offsets[d]..offsets[d + 1]]. */
    var offsets: seq<nat>
    var edges: seq<EgressQueue>
    var configCounter: nat

    ghost predicate Valid()
      reads this
    {
      |offsets| >= 1 && offsets[0] == 0 && offsets[|offsets| - 1] == |edges|
      && (forall d :: 0 <= d < |offsets| - 1 ==> offsets[d] <= offsets[d + 1])
      && (forall i :: 0 <= i < |edges| ==> edges[i].id == i)
      && (forall c :: c in configs ==> c < configCounter)
    }

    /** A new graph: no devices, no queues, no flows, no configurations. */
    constructor ()
      ensures Valid()
      ensures NumberOfNetworkNodes() == 0 && NumberOfEgressQueues() == 0
      ensures flows == map[] && configs == map[] && configCounter == 0
    {
      flows := map[];
      configs := map[];
      offsets := [0];
      edges := [];
      configCounter := 0;
    }

    function NumberOfNetworkNodes(): nat
      reads this
      requires |offsets| >= 1
    {
      |offsets| - 1
    }

    function NumberOfEgressQueues(): nat
      reads this
    {
      |edges|
    }

    /** getEgressQueuesOf: the CSR slice of device d. */
    function EgressQueuesOf(d: nat): (r: seq<EgressQueue>)
      reads this
      requires Valid() && d < NumberOfNetworkNodes()
      ensures |r| == offsets[d + 1] - offsets[d]
    {
      OffsetsBounded(d);
      DeviceQueues(offsets, edges, d)
    }

    lemma OffsetsBounded(d: nat)
      requires Valid() && d < NumberOfNetworkNodes()
      ensures offsets[d] <= offsets[d + 1] <= |edges|
    {
      OffsetsMonotone(offsets, d + 1, |offsets| - 1);
    }

    /**
     * insertNetworkDevice: one new device with one egress queue per neighbour, numbered on from
     * the current queue count; the earlier devices keep their queues.
     */
    method InsertNetworkDevice(neighbors: seq<nat>)
      requires Valid()
      modifies this
      ensures Valid()
      ensures NumberOfNetworkNodes() == old(NumberOfNetworkNodes()) + 1
      ensures edges == old(edges) + NewQueues(old(|edges|), neighbors)
      ensures offsets == old(offsets) + [old(|edges|) + |neighbors|]
      ensures EgressQueuesOf(old(NumberOfNetworkNodes())) == NewQueues(old(|edges|), neighbors)
      ensures flows == old(flows) && configs == old(configs) && configCounter == old(configCounter)
    {
      var nextIndex := offsets[|offsets| - 1];
      var added := AppendQueues(edges, neighbors);
      CsrAppend(offsets, edges, neighbors, offsets + [nextIndex + |neighbors|], added);
      offsets := offsets + [nextIndex + |neighbors|];
      edges := added;
    }

    /** addFlow: inserts the flow, or overwrites the one with the same id. */
    method AddFlow(f: Flow)
      modifies this
      ensures flows == old(flows)[f.id := f]
      ensures configs == old(configs) && offsets == old(offsets) && edges == old(edges) && configCounter == old(configCounter)
    {
      flows := flows[f.id := f];
    }

    /** insertConfiguration of the graph: a fresh id, never handed out before. */
    method InsertConfiguration(flow: nat, path: seq<nat>) returns (id: nat)
      requires Valid()
      modifies this
      ensures Valid()
      ensures id == old(configCounter) && id !in old(configs) && configCounter == id + 1
      ensures configs == old(configs)[id := Configuration(id, flow, path)]
      ensures flows == old(flows) && offsets == old(offsets) && edges == old(edges)
    {
      id := configCounter;
      configCounter := configCounter + 1;
      configs := configs[id := Configuration(id, flow, path)];
    }

    /**
     * removeFlow: an unknown id changes nothing; otherwise the flow and its configurations go,
     * and every queue on those configurations' paths stops listing them as users.
     * getConfiguration and getEgressQueue use .at(), which throws on a missing id; the model
     * requires the flow's configurations to exist and lie on existing queues.
     */
    method RemoveFlow(id: nat)
      requires Valid()
      requires id in flows ==> FlowRemovable(flows[id])
      modifies this
      ensures Valid()
      ensures id !in old(flows) ==> flows == old(flows) && configs == old(configs) && edges == old(edges)
      ensures id in old(flows) ==>
                flows == old(flows) - {id}
                && configs == old(configs) - set c | c in old(flows[id].configurations)
                && |edges| == old(|edges|)
                && forall i :: 0 <= i < |edges| ==>
                     edges[i] == old(edges[i]).(usedBy := Without(old(edges[i].usedBy),
                                     Through(old(configs), old(flows[id].configurations), i)))
      ensures offsets == old(offsets) && configCounter == old(configCounter)
    {
      if id !in flows {
        return;
      }
      var cids := flows[id].configurations;
      var e := UnlinkConfigs(edges, configs, cids);
      edges := e;
      configs := configs - set c | c in cids;
      flows := flows - {id};
    }

    ghost predicate FlowRemovable(f: Flow)
      reads this
    {
      (forall c :: c in f.configurations ==> c in configs)
      && (forall c, link :: c in f.configurations && link in configs[c].path ==> link < |edges|)
    }
  }

  /**
   * insertConfiguration of GraphStructOperations: a fresh configuration for the flow, appended to
   * the flow's list and to used_by of every queue on its path (once per visit).
   */
  method LinkConfiguration(g: MultiLayeredGraph, flow: nat, path: seq<nat>) returns (id: nat)
    requires g.Valid() && flow in g.flows
    requires forall link :: link in path ==> link < |g.edges|
    modifies g
    ensures g.Valid()
    ensures id == old(g.configCounter) && id !in old(g.configs)
    ensures g.configs == old(g.configs)[id := Configuration(id, flow, path)]
    ensures g.flows == old(g.flows)[flow := old(g.flows[flow]).(configurations := old(g.flows[flow].configurations) + [id])]
    ensures |g.edges| == old(|g.edges|)
    ensures forall i :: 0 <= i < |g.edges| ==>
              g.edges[i] == old(g.edges[i]).(usedBy := old(g.edges[i].usedBy) + seq(multiset(path)[i], _ => id))
    ensures g.offsets == old(g.offsets)
  {
    id := g.InsertConfiguration(flow, path);
    var f := g.flows[flow];
    g.flows := g.flows[flow := f.(configurations := f.configurations + [id])];
    var e := UseAlong(g.edges, path, id);
    g.edges := e;
  }

  /** getFlowsOf: the flows owning the configurations that use the queue. */
  method FlowsOf(configs: map<nat, Configuration>, q: EgressQueue) returns (r: set<nat>)
    requires forall c :: c in q.usedBy ==> c in configs
    ensures forall f :: f in r <==> exists c :: c in q.usedBy && configs[c].flow == f
  {
    r := {};
    var j := 0;
    while j < |q.usedBy|
      invariant 0 <= j <= |q.usedBy|
      invariant forall f :: f in r <==> exists c :: c in q.usedBy[..j] && configs[c].flow == f
    {
      assert q.usedBy[..j + 1] == q.usedBy[..j] + [q.usedBy[j]];
      r := r + {configs[q.usedBy[j]].flow};
      j := j + 1;
    }
    assert q.usedBy[..j] == q.usedBy;
  }
}
