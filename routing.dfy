/**
 * Routing over the network layer (include/routing/RoutingUtil.h, src/routing/DijkstraOverlap.cpp,
 * src/routing/KShortest.cpp): a lazy Dijkstra over the egress queues, the multi-path search that
 * penalises the links of every path it finds, and Yen's k shortest paths.
 * The network is read-only here; it is the offsets and queues of the graph's compressed rows.
 */
module Routing {
  import opened Optional
  import opened Graph

  /** The network layer as the routing code reads it: device d owns queues offsets[d] .. offsets[d + 1] - 1. */
  datatype Network = Network(offsets: seq<nat>, edges: seq<EgressQueue>)

  /** A network whose rows are well formed and whose queues lead to existing devices. */
  predicate Routable(net: Network) {
    |net.offsets| >= 1 && net.offsets[0] == 0 && net.offsets[|net.offsets| - 1] == |net.edges|
    && (forall d :: 0 <= d < |net.offsets| - 1 ==> net.offsets[d] <= net.offsets[d + 1])
    && (forall q :: 0 <= q < |net.edges| ==> net.edges[q].id == q && net.edges[q].destination < |net.offsets| - 1)
  }

  function Nodes(net: Network): nat {
    if |net.offsets| == 0 then 0 else |net.offsets| - 1
  }

  /** Queue q is an egress queue of device u. */
  predicate Out(net: Network, u: nat, q: nat) {
    u + 1 < |net.offsets| && net.offsets[u] <= q < net.offsets[u + 1] && q < |net.edges|
  }

  function Dest(net: Network, q: nat): nat
    requires q < |net.edges|
  {
    net.edges[q].destination
  }

  /** The queues of a device lie inside the queue array. */
  lemma RowInside(net: Network, u: nat)
    requires Routable(net) && u < Nodes(net)
    ensures net.offsets[u] <= net.offsets[u + 1] <= |net.edges|
  {
    OffsetsMonotone(net.offsets, u + 1, |net.offsets| - 1);
  }

  /** A sequence of queues that leads from device x to device y, one hop at a time. */
  predicate IsPath(net: Network, p: seq<nat>, x: nat, y: nat)
    decreases |p|
  {
    if p == [] then x == y else Out(net, x, p[0]) && IsPath(net, p[1..], Dest(net, p[0]), y)
  }

  /** Every path leads from src to dst. */
  predicate PathsOk(net: Network, src: nat, dst: nat, paths: seq<seq<nat>>) {
    forall p :: p in paths ==> IsPath(net, p, src, dst)
  }

  /** No path occurs twice. */
  predicate Distinct(paths: seq<seq<nat>>) {
    forall i, j :: 0 <= i < j < |paths| ==> paths[i] != paths[j]
  }

  // ---------------------------------------------------------------------------
  // Weights

  /** increased_edge_weights: queues missing from the map weigh 1. */
  type WeightMap = map<nat, int>

  function W(w: WeightMap, q: nat): int {
    if q in w then w[q] else 1
  }

  predicate Positive(w: WeightMap) {
    forall q :: q in w ==> w[q] >= 1
  }

  /** The total weight of a path. */
  function Weight(w: WeightMap, p: seq<nat>): int
    decreases |p|
  {
    if p == [] then 0 else W(w, p[0]) + Weight(w, p[1..])
  }

  lemma {:induction false} WeightAtLeastHops(w: WeightMap, p: seq<nat>)
    requires Positive(w)
    ensures Weight(w, p) >= |p|
    decreases |p|
  {
    if p != [] {
      WeightAtLeastHops(w, p[1..]);
    }
  }

  /** Without increased weights a path weighs its hop count. */
  lemma {:induction false} UnitWeight(p: seq<nat>)
    ensures Weight(map[], p) == |p|
    decreases |p|
  {
    if p != [] {
      UnitWeight(p[1..]);
    }
  }

  // ---------------------------------------------------------------------------
  // getDijkstraShortestPath

  /** The initial frontier distance INT64_MAX - 1000000, which stands for "not reached". */
  const Inf: int := 0x7FFF_FFFF_FFFF_FFFF - 1000000

  /**
   * The search state: frontier_distances, link_from_predecessor, predecessor_id, the priority
   * queue of (node, distance) pairs with its duplicates, and checked_nodes.
   */
  datatype Search = Search(dist: seq<int>, link: seq<Option<nat>>, pred: seq<nat>, queue: multiset<(nat, int)>, checked: set<nat>)

  /** Sizes and ranges: every distance is between 0 and Inf, and each queue entry is at least its node's distance. */
  ghost predicate Shaped(net: Network, s: Search) {
    var n := Nodes(net);
    |s.dist| == n && |s.link| == n && |s.pred| == n
    && (forall v :: 0 <= v < n ==> 0 <= s.dist[v] <= Inf)
    && (forall c :: c in s.checked ==> c < n)
    && (forall f :: f in s.queue ==> f.0 < n && s.dist[f.0] <= f.1 < Inf)
  }

  /** Every reached device other than the source has a recorded link from its predecessor, no heavier than its distance says. */
  ghost predicate Linked(net: Network, w: WeightMap, src: nat, s: Search)
    requires Shaped(net, s) && src < Nodes(net)
  {
    s.dist[src] == 0 && forall v :: 0 <= v < Nodes(net) && v != src ==> LinkOk(net, w, s, v)
  }

  /** Device v is reached exactly when it has a link, and the link comes from its predecessor. */
  ghost predicate LinkOk(net: Network, w: WeightMap, s: Search, v: nat)
    requires Shaped(net, s) && v < Nodes(net)
  {
    (s.link[v].Some? <==> s.dist[v] < Inf)
    && (s.link[v].Some? ==>
          s.pred[v] < Nodes(net) && Out(net, s.pred[v], s.link[v].value) && Dest(net, s.link[v].value) == v
          && s.dist[s.pred[v]] + W(w, s.link[v].value) <= s.dist[v])
  }

  /** A reached device that is not expanded is waiting in the queue, unless it is already farther than the destination. */
  ghost predicate Queued(net: Network, dst: nat, s: Search)
    requires Shaped(net, s) && dst < Nodes(net)
  {
    forall v :: 0 <= v < Nodes(net) && v !in s.checked && s.dist[v] < Inf ==> (v, s.dist[v]) in s.queue || s.dist[dst] < s.dist[v]
  }

  /** Every queue of an expanded device has been relaxed. */
  ghost predicate Closed(net: Network, w: WeightMap, s: Search)
    requires Routable(net) && Shaped(net, s)
  {
    forall u, q :: u in s.checked && Out(net, u, q) ==> s.dist[Dest(net, q)] <= s.dist[u] + W(w, q)
  }

  /** Expanded devices are no farther than anything still queued. */
  ghost predicate Ordered(net: Network, s: Search)
    requires Shaped(net, s)
  {
    forall c, f :: c in s.checked && f in s.queue ==> s.dist[c] <= f.1
  }

  ghost predicate SearchOk(net: Network, w: WeightMap, src: nat, dst: nat, s: Search) {
    Routable(net) && Positive(w) && src < Nodes(net) && dst < Nodes(net)
    && Shaped(net, s) && Linked(net, w, src, s) && Queued(net, dst, s) && Closed(net, w, s) && Ordered(net, s)
  }

  lemma {:induction false} BoundedSetSize(s: set<nat>, n: nat)
    requires forall x :: x in s ==> x < n
    ensures |s| <= n
    decreases n
  {
    if n > 0 {
      BoundedSetSize(s - {n - 1}, n - 1);
    } else {
      assert s == {};
    }
  }

  /** e is an entry of least distance in m. */
  predicate IsTop(m: multiset<(nat, int)>, e: (nat, int)) {
    e in m && forall f :: f in m ==> e.1 <= f.1
  }

  /** priority_queue::top: a nonempty queue has an entry of least distance. */
  lemma {:induction false} TopExists(m: multiset<(nat, int)>)
    requires m != multiset{}
    ensures exists e :: IsTop(m, e)
    decreases |m|
  {
    var x :| x in m;
    var rest := m - multiset{x};
    if rest == multiset{} {
      assert m == multiset{x};
      assert IsTop(m, x);
    } else {
      TopExists(rest);
      var e :| IsTop(rest, e);
      assert m == rest + multiset{x};
      if x.1 < e.1 {
        assert IsTop(m, x);
      } else {
        assert IsTop(m, e);
      }
    }
  }

  /**
   * getDijkstraShortestPath: the queues of a lightest path from source to destination under the
   * given weights. None stands for the exception .value() raises when the destination was never
   * reached, which happens exactly when every path weighs Inf or more.
   */
  method Dijkstra(net: Network, source: nat, destination: nat, w: WeightMap) returns (path: Option<seq<nat>>)
    requires Routable(net) && Positive(w) && source < Nodes(net) && destination < Nodes(net)
    ensures path.Some? ==> IsPath(net, path.value, source, destination) && Weight(w, path.value) < Inf
    ensures path.Some? ==> forall p :: IsPath(net, p, source, destination) ==> Weight(w, path.value) <= Weight(w, p)
    ensures path.None? ==> forall p :: IsPath(net, p, source, destination) ==> Weight(w, p) >= Inf
    ensures source == destination ==> path == Some([])
  {
    var s := Explore(net, source, destination, w);
    path := ExtractPath(net, source, destination, w, s);
  }

  /** The setup and the main loop: pop, skip, or expand. */
  method Explore(net: Network, src: nat, dst: nat, w: WeightMap) returns (s: Search)
    requires Routable(net) && Positive(w) && src < Nodes(net) && dst < Nodes(net)
    ensures SearchOk(net, w, src, dst, s) && s.queue == multiset{}
  {
    var n := Nodes(net);
    var dist := seq(n, _ => Inf)[src := 0];
    s := Search(dist, seq(n, _ => None), seq(n, _ => 0), multiset{(src, 0)}, {});
    while s.queue != multiset{}
      invariant SearchOk(net, w, src, dst, s)
      decreases n - |s.checked|, |s.queue|
    {
      BoundedSetSize(s.checked, n);
      s := Visit(net, src, dst, w, s);
      BoundedSetSize(s.checked, n);
    }
  }

  /** One iteration of the main loop. */
  method Visit(net: Network, src: nat, dst: nat, w: WeightMap, s: Search) returns (t: Search)
    requires SearchOk(net, w, src, dst, s) && s.queue != multiset{}
    ensures SearchOk(net, w, src, dst, t)
    ensures (t.checked == s.checked && |t.queue| < |s.queue|) || (s.checked < t.checked && |t.checked| == |s.checked| + 1)
  {
    TopExists(s.queue);
    var top :| IsTop(s.queue, top);
    var popped := s.(queue := s.queue - multiset{top});
    var (u, d) := top;
    if s.dist[dst] < d {
      // useless path
      PopKeeps(net, w, src, dst, s, top);
      return popped;
    }
    if u in s.checked {
      PopKeeps(net, w, src, dst, s, top);
      return popped;
    }
    t := ExpandTop(net, src, dst, w, s, top);
  }

  /** The expansion branch: u = top.0 is expanded and marked as checked. */
  method ExpandTop(net: Network, src: nat, dst: nat, w: WeightMap, s: Search, top: (nat, int)) returns (t: Search)
    requires SearchOk(net, w, src, dst, s) && IsTop(s.queue, top)
    requires top.1 <= s.dist[dst] && top.0 !in s.checked
    ensures SearchOk(net, w, src, dst, t)
    ensures s.checked < t.checked && |t.checked| == |s.checked| + 1
  {
    var u := top.0;
    var popped := s.(queue := s.queue - multiset{top});
    TopIsFresh(net, w, src, dst, s, top);
    ShrinkKeeps(net, w, src, s, popped);
    var e := Expand(net, w, src, popped, u);
    t := e.(checked := e.checked + {u});
    ExpandKeepsShape(net, w, src, u, e, t);
    ExpandKeepsOrder(net, w, dst, s, top, popped, e, t);
    FreshMember(s.checked, u);
  }

  lemma FreshMember(a: set<nat>, u: nat)
    requires u !in a
    ensures a < a + {u} && |a + {u}| == |a| + 1
  {
  }

  /** Dropping the top entry when it is skipped keeps the search invariant. */
  lemma PopKeeps(net: Network, w: WeightMap, src: nat, dst: nat, s: Search, top: (nat, int))
    requires SearchOk(net, w, src, dst, s) && top in s.queue
    requires s.dist[dst] < top.1 || top.0 in s.checked
    ensures SearchOk(net, w, src, dst, s.(queue := s.queue - multiset{top}))
  {
    var t := s.(queue := s.queue - multiset{top});
    ShrinkKeeps(net, w, src, s, t);
    forall v | 0 <= v < Nodes(net) && v !in t.checked && t.dist[v] < Inf && s.dist[dst] >= s.dist[v]
      ensures (v, t.dist[v]) in t.queue
    {
      assert (v, s.dist[v]) in s.queue;
      assert (v, s.dist[v]) != top;
    }
  }

  /** Taking entries out of the queue keeps everything but Queued. */
  lemma ShrinkKeeps(net: Network, w: WeightMap, src: nat, s: Search, t: Search)
    requires Routable(net) && src < Nodes(net) && Shaped(net, s) && Linked(net, w, src, s) && Closed(net, w, s) && Ordered(net, s)
    requires t == s.(queue := t.queue) && t.queue <= s.queue
    ensures Shaped(net, t) && Linked(net, w, src, t) && Closed(net, w, t) && Ordered(net, t)
  {
    forall v | 0 <= v < Nodes(net) && v != src ensures LinkOk(net, w, t, v) {
      assert LinkOk(net, w, s, v);
    }
  }

  /** The search state with u marked as checked has the same links as before. */
  lemma LinkedFrame(net: Network, w: WeightMap, src: nat, e: Search, t: Search)
    requires src < Nodes(net) && Shaped(net, e) && Shaped(net, t) && Linked(net, w, src, e)
    requires t.dist == e.dist && t.link == e.link && t.pred == e.pred
    ensures Linked(net, w, src, t)
  {
    forall v | 0 <= v < Nodes(net) && v != src ensures LinkOk(net, w, t, v) {
      assert LinkOk(net, w, e, v);
    }
  }

  /** An entry popped for expansion carries its node's current distance. */
  lemma TopIsFresh(net: Network, w: WeightMap, src: nat, dst: nat, s: Search, top: (nat, int))
    requires SearchOk(net, w, src, dst, s) && IsTop(s.queue, top)
    requires top.1 <= s.dist[dst] && top.0 !in s.checked
    ensures s.dist[top.0] == top.1
  {
    var u := top.0;
    assert s.dist[u] <= top.1;
    if s.dist[u] < Inf && (u, s.dist[u]) in s.queue {
      assert top.1 <= s.dist[u];
    }
  }

  /** State of the relaxation loop over the queues of u, with q the next queue to look at. */
  ghost predicate Relaxing(net: Network, w: WeightMap, src: nat, u: nat, s: Search, e: Search, q: nat)
    requires Routable(net) && u < Nodes(net) && src < Nodes(net) && Shaped(net, s)
  {
    Shaped(net, e) && Linked(net, w, src, e) && e.checked == s.checked
    && e.dist[u] == s.dist[u]
    && Lowered(net, s, e)
    && Grown(s.queue, e.queue, s.dist[u])
    && RelaxedUpTo(net, w, u, s.dist[u], e, q)
  }

  /** Distances only go down, and each lowered distance has been queued. */
  ghost predicate Lowered(net: Network, s: Search, e: Search)
    requires Shaped(net, s) && Shaped(net, e)
  {
    forall v :: 0 <= v < Nodes(net) ==> e.dist[v] <= s.dist[v] && (e.dist[v] < s.dist[v] ==> (v, e.dist[v]) in e.queue)
  }

  /** The queue only grew, by entries farther than d. */
  ghost predicate Grown(before: multiset<(nat, int)>, after: multiset<(nat, int)>, d: int) {
    before <= after && forall f :: f in after ==> f in before || f.1 > d
  }

  /** The queues of u before q have been relaxed from distance d. */
  ghost predicate RelaxedUpTo(net: Network, w: WeightMap, u: nat, d: int, e: Search, q: nat)
    requires Routable(net) && Shaped(net, e) && u < Nodes(net)
  {
    forall r :: net.offsets[u] <= r < q && r < |net.edges| ==> e.dist[Dest(net, r)] <= d + W(w, r)
  }

  /** The expansion of u: every queue of u is relaxed. */
  method Expand(net: Network, w: WeightMap, src: nat, s: Search, u: nat) returns (e: Search)
    requires Routable(net) && Positive(w) && src < Nodes(net) && u < Nodes(net)
    requires Shaped(net, s) && Linked(net, w, src, s) && s.dist[u] < Inf
    ensures Relaxing(net, w, src, u, s, e, net.offsets[u + 1])
  {
    RowInside(net, u);
    e := s;
    var q := net.offsets[u];
    while q < net.offsets[u + 1]
      invariant net.offsets[u] <= q <= net.offsets[u + 1]
      invariant Relaxing(net, w, src, u, s, e, q)
    {
      e := Relax(net, w, src, s, u, e, q);
      q := q + 1;
    }
  }

  /** One relaxation: a shorter way to the queue's destination is recorded and queued. */
  method Relax(net: Network, w: WeightMap, src: nat, s: Search, u: nat, e: Search, q: nat) returns (e': Search)
    requires Routable(net) && Positive(w) && src < Nodes(net) && u < Nodes(net)
    requires Shaped(net, s) && s.dist[u] < Inf
    requires net.offsets[u] <= q < net.offsets[u + 1] <= |net.edges|
    requires Relaxing(net, w, src, u, s, e, q)
    ensures Relaxing(net, w, src, u, s, e', q + 1)
  {
    var x := Dest(net, q);
    var next := e.dist[u] + W(w, q);
    if next < e.dist[x] {
      e' := Search(e.dist[x := next], e.link[x := Some(q)], e.pred[x := u], e.queue + multiset{(x, next)}, e.checked);
      assert Out(net, u, q);
      RelaxShaped(net, e, x, next, e');
      RelaxLinked(net, w, src, e, u, q, next, e');
      RelaxLowered(net, s, e, x, next, e');
      RelaxGrown(s.queue, e.queue, s.dist[u], (x, next));
      RelaxedNext(net, w, u, s.dist[u], e, q, e');
    } else {
      e' := e;
      SkipKeeps(net, w, u, s.dist[u], e, q);
    }
  }

  lemma RelaxShaped(net: Network, e: Search, x: nat, next: int, e': Search)
    requires Shaped(net, e) && x < Nodes(net) && 0 <= next < e.dist[x]
    requires e'.dist == e.dist[x := next] && e'.queue == e.queue + multiset{(x, next)} && e'.checked == e.checked
    requires |e'.link| == |e'.pred| == Nodes(net)
    ensures Shaped(net, e')
  {
  }

  lemma RelaxLinked(net: Network, w: WeightMap, src: nat, e: Search, u: nat, q: nat, next: int, e': Search)
    requires src < Nodes(net) && u < Nodes(net) && Out(net, u, q) && W(w, q) >= 1
    requires Shaped(net, e) && Linked(net, w, src, e) && next == e.dist[u] + W(w, q)
    requires Dest(net, q) < Nodes(net) && next < e.dist[Dest(net, q)]
    requires e'.dist == e.dist[Dest(net, q) := next] && e'.link == e.link[Dest(net, q) := Some(q)]
    requires e'.pred == e.pred[Dest(net, q) := u]
    requires Shaped(net, e')
    ensures Linked(net, w, src, e')
  {
    var x := Dest(net, q);
    assert x != src;
    forall v | 0 <= v < Nodes(net) && v != src ensures LinkOk(net, w, e', v) {
      assert LinkOk(net, w, e, v);
      if v != x && e.link[v].Some? {
        assert e'.dist[e'.pred[v]] <= e.dist[e.pred[v]];
      }
    }
  }

  lemma RelaxLowered(net: Network, s: Search, e: Search, x: nat, next: int, e': Search)
    requires Shaped(net, s) && Shaped(net, e) && Shaped(net, e') && Lowered(net, s, e) && x < Nodes(net)
    requires e'.dist == e.dist[x := next] && e'.queue == e.queue + multiset{(x, next)} && next < e.dist[x]
    ensures Lowered(net, s, e')
  {
  }

  lemma RelaxGrown(before: multiset<(nat, int)>, after: multiset<(nat, int)>, d: int, f: (nat, int))
    requires Grown(before, after, d) && f.1 > d
    ensures Grown(before, after + multiset{f}, d)
  {
  }

  lemma RelaxedNext(net: Network, w: WeightMap, u: nat, d: int, e: Search, q: nat, e': Search)
    requires Routable(net) && u < Nodes(net) && Shaped(net, e) && Shaped(net, e') && RelaxedUpTo(net, w, u, d, e, q) && q < |net.edges|
    requires forall v :: 0 <= v < Nodes(net) ==> e'.dist[v] <= e.dist[v]
    requires e'.dist[Dest(net, q)] <= d + W(w, q)
    ensures RelaxedUpTo(net, w, u, d, e', q + 1)
  {
    forall r | net.offsets[u] <= r < q + 1 && r < |net.edges| ensures e'.dist[Dest(net, r)] <= d + W(w, r) {
      if r < q {
        assert e.dist[Dest(net, r)] <= d + W(w, r);
      }
    }
  }

  lemma SkipKeeps(net: Network, w: WeightMap, u: nat, d: int, e: Search, q: nat)
    requires Routable(net) && u < Nodes(net) && Shaped(net, e) && RelaxedUpTo(net, w, u, d, e, q) && q < |net.edges|
    requires e.dist[Dest(net, q)] <= d + W(w, q)
    ensures RelaxedUpTo(net, w, u, d, e, q + 1)
  {
  }

  /** Expanded devices keep their distance through the expansion of u. */
  lemma ExpandKeepsChecked(net: Network, s: Search, top: (nat, int), e: Search)
    requires Shaped(net, s) && Ordered(net, s) && IsTop(s.queue, top)
    requires Shaped(net, e) && Lowered(net, s, e) && Grown(s.queue - multiset{top}, e.queue, top.1)
    ensures forall c :: c in s.checked ==> e.dist[c] == s.dist[c]
  {
    forall c | c in s.checked ensures e.dist[c] == s.dist[c] {
      var d := e.dist[c];
      assert s.dist[c] <= top.1;
      assert d < s.dist[c] ==> (c, d) in e.queue;
    }
  }

  /** After the expansion of u, with u marked as checked, the search invariant holds again. */
  lemma ExpandKeepsShape(net: Network, w: WeightMap, src: nat, u: nat, e: Search, t: Search)
    requires src < Nodes(net) && u < Nodes(net) && Shaped(net, e) && Linked(net, w, src, e)
    requires t == e.(checked := e.checked + {u})
    ensures Shaped(net, t) && Linked(net, w, src, t)
  {
    LinkedFrame(net, w, src, e, t);
  }

  lemma ExpandKeepsOrder(net: Network, w: WeightMap, dst: nat, s: Search, top: (nat, int), p: Search, e: Search, t: Search)
    requires Routable(net) && dst < Nodes(net) && top.0 < Nodes(net)
    requires Shaped(net, s) && Queued(net, dst, s) && Closed(net, w, s) && Ordered(net, s) && IsTop(s.queue, top)
    requires p.dist == s.dist && Shaped(net, p) && Shaped(net, e) && Shaped(net, t) && e.dist[top.0] == top.1
    requires Lowered(net, p, e) && Grown(s.queue - multiset{top}, e.queue, top.1)
    requires RelaxedUpTo(net, w, top.0, top.1, e, net.offsets[top.0 + 1])
    requires t.dist == e.dist && t.queue == e.queue && t.checked == s.checked + {top.0}
    ensures Queued(net, dst, t) && Closed(net, w, t) && Ordered(net, t)
  {
    assert Lowered(net, s, e) by {
      assert Lowered(net, p, e);
    }
    ExpandKeepsChecked(net, s, top, e);
    ExpandClosed(net, w, s, top.0, e, t);
    ExpandOrdered(net, s, top, e, t);
    ExpandQueued(net, dst, s, top, e, t);
  }

  lemma ExpandClosed(net: Network, w: WeightMap, s: Search, u: nat, e: Search, t: Search)
    requires Routable(net) && u < Nodes(net) && Shaped(net, s) && Shaped(net, e) && Shaped(net, t) && Closed(net, w, s)
    requires forall c :: c in s.checked ==> e.dist[c] == s.dist[c]
    requires forall v :: 0 <= v < Nodes(net) ==> e.dist[v] <= s.dist[v]
    requires RelaxedUpTo(net, w, u, e.dist[u], e, net.offsets[u + 1])
    requires t.dist == e.dist && t.checked == s.checked + {u}
    ensures Closed(net, w, t)
  {
    forall c, q | c in t.checked && Out(net, c, q) ensures t.dist[Dest(net, q)] <= t.dist[c] + W(w, q) {
      if c != u {
        assert s.dist[Dest(net, q)] <= s.dist[c] + W(w, q);
      }
    }
  }

  lemma ExpandOrdered(net: Network, s: Search, top: (nat, int), e: Search, t: Search)
    requires Shaped(net, s) && Shaped(net, e) && Shaped(net, t) && Ordered(net, s) && IsTop(s.queue, top)
    requires Grown(s.queue - multiset{top}, e.queue, top.1)
    requires forall c :: c in s.checked ==> e.dist[c] == s.dist[c]
    requires e.dist[top.0] == top.1
    requires t.dist == e.dist && t.queue == e.queue && t.checked == s.checked + {top.0}
    ensures Ordered(net, t)
  {
    forall c, f | c in t.checked && f in t.queue ensures t.dist[c] <= f.1 {
      if f in s.queue - multiset{top} {
        assert f in s.queue;
      }
    }
  }

  lemma ExpandQueued(net: Network, dst: nat, s: Search, top: (nat, int), e: Search, t: Search)
    requires dst < Nodes(net) && Shaped(net, s) && Shaped(net, e) && Shaped(net, t) && Queued(net, dst, s)
    requires Lowered(net, s, e) && Grown(s.queue - multiset{top}, e.queue, top.1)
    requires t.dist == e.dist && t.queue == e.queue && t.checked == s.checked + {top.0}
    ensures Queued(net, dst, t)
  {
    forall v | 0 <= v < Nodes(net) && v !in t.checked && t.dist[v] < Inf && t.dist[dst] >= t.dist[v]
      ensures (v, t.dist[v]) in t.queue
    {
      if e.dist[v] == s.dist[v] {
        assert (v, s.dist[v]) in s.queue;
        assert (v, s.dist[v]) != top;
        assert (v, s.dist[v]) in s.queue - multiset{top};
      }
    }
  }

  /** When the queue has run dry, no path from any device x is lighter than the destination's distance allows. */
  lemma {:induction false} NoShortcut(net: Network, w: WeightMap, src: nat, dst: nat, s: Search, p: seq<nat>, x: nat)
    requires SearchOk(net, w, src, dst, s) && s.queue == multiset{}
    requires x < Nodes(net) && IsPath(net, p, x, dst)
    ensures s.dist[dst] <= s.dist[x] + Weight(w, p)
    decreases |p|
  {
    WeightAtLeastHops(w, p);
    if p != [] {
      var y := Dest(net, p[0]);
      NoShortcut(net, w, src, dst, s, p[1..], y);
      if x in s.checked {
        assert s.dist[y] <= s.dist[x] + W(w, p[0]);
      }
    }
  }

  /** Walking the predecessor links back from the destination. */
  method ExtractPath(net: Network, src: nat, dst: nat, w: WeightMap, s: Search) returns (path: Option<seq<nat>>)
    requires SearchOk(net, w, src, dst, s) && s.queue == multiset{}
    ensures path.Some? ==> IsPath(net, path.value, src, dst) && Weight(w, path.value) < Inf
    ensures path.Some? ==> forall p :: IsPath(net, p, src, dst) ==> Weight(w, path.value) <= Weight(w, p)
    ensures path.None? ==> forall p :: IsPath(net, p, src, dst) ==> Weight(w, p) >= Inf
    ensures src == dst ==> path == Some([])
  {
    var hops: seq<nat> := [];
    var current: nat := dst;
    while current != src
      invariant current < Nodes(net) && IsPath(net, hops, current, dst)
      invariant s.dist[current] + Weight(w, hops) <= s.dist[dst]
      invariant s.dist[current] < Inf || (current == dst && hops == [])
      invariant hops != [] ==> s.dist[dst] < Inf
      decreases s.dist[current]
    {
      assert LinkOk(net, w, s, current);
      if s.link[current].None? {
        forall p | IsPath(net, p, src, dst) ensures Weight(w, p) >= Inf {
          NoShortcut(net, w, src, dst, s, p, src);
        }
        return None;
      }
      var q := s.link[current].value;
      assert ([q] + hops)[1..] == hops;
      hops := [q] + hops;
      current := s.pred[current];
    }
    forall p | IsPath(net, p, src, dst) ensures Weight(w, hops) <= Weight(w, p) {
      NoShortcut(net, w, src, dst, s, p, src);
    }
    if src == dst {
      assert IsPath(net, [], src, dst) && Weight(w, []) == 0;
      WeightAtLeastHops(w, hops);
    }
    return Some(hops);
  }
}
