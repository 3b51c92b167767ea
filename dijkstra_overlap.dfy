/**
 * DijkstraOverlap (src/routing/DijkstraOverlap.cpp): repeated shortest-path searches where every
 * queue used by a found path becomes 2 heavier, so that later searches prefer other queues.
 * The search stops once enough distinct candidates are collected or after DUPLICATE_PATH_LIMIT
 * searches that found a path already collected.
 */
module DijkstraOverlap {
  import opened Optional
  import opened Routing
  import UtilFunctions

  /** DUPLICATE_PATH_LIMIT. */
  const DuplicatePathLimit: nat := 10

  /** The weights after each hop of p, in order, has been made 2 heavier. */
  function Penalized(w: WeightMap, p: seq<nat>): WeightMap
    decreases |p|
  {
    if p == [] then w
    else
      var v := Penalized(w, p[..|p| - 1]);
      v[p[|p| - 1] := W(v, p[|p| - 1]) + 2]
  }

  /** Each use of a queue on the path adds 2 to its weight; the other queues keep theirs. */
  lemma {:induction false} PenalizedCounts(w: WeightMap, p: seq<nat>, q: nat)
    ensures W(Penalized(w, p), q) == W(w, q) + 2 * multiset(p)[q]
    decreases |p|
  {
    if p != [] {
      var init := p[..|p| - 1];
      PenalizedCounts(w, init, q);
      assert p == init + [p[|p| - 1]];
      assert multiset(p) == multiset(init) + multiset{p[|p| - 1]};
    }
  }

  /** The map gains exactly the queues of the path. */
  lemma {:induction false} PenalizedKeys(w: WeightMap, p: seq<nat>)
    ensures Penalized(w, p).Keys == w.Keys + set q | q in p
    decreases |p|
  {
    if p != [] {
      var init := p[..|p| - 1];
      PenalizedKeys(w, init);
      assert p == init + [p[|p| - 1]];
      assert (set q | q in p) == (set q | q in init) + {p[|p| - 1]};
    }
  }

  /** Penalising keeps every weight at least 1, so the next search stays well defined. */
  lemma PenalizedPositive(w: WeightMap, p: seq<nat>)
    requires Positive(w)
    ensures Positive(Penalized(w, p))
  {
    forall q | q in Penalized(w, p) ensures Penalized(w, p)[q] >= 1 {
      PenalizedCounts(w, p, q);
      PenalizedKeys(w, p);
    }
  }

  /** The loop that modifies the weight of every hop of the found path. */
  method Penalize(w: WeightMap, p: seq<nat>) returns (v: WeightMap)
    ensures v == Penalized(w, p)
  {
    v := w;
    var i := 0;
    while i < |p|
      invariant 0 <= i <= |p|
      invariant v == Penalized(w, p[..i])
    {
      var hop := p[i];
      var weight := 1;
      if hop in v {
        weight := v[hop];
      }
      weight := weight + 2;
      assert p[..i + 1][..i] == p[..i];
      v := v[hop := weight];
      i := i + 1;
    }
    assert p[..|p|] == p;
  }

  /**
   * findRoutes. None stands for the failed search (the source reads the link of an unreached
   * destination and throws). The ghost counter duplicates reports the duplicate searches.
   */
  method FindRoutes(net: Network, source: nat, destination: nat, candidates: nat) returns (r: Option<seq<seq<nat>>>, ghost duplicates: nat)
    requires Routable(net) && source < Nodes(net) && destination < Nodes(net)
    ensures r.Some? ==> |r.value| <= candidates && Distinct(r.value)
    ensures r.Some? ==> PathsOk(net, source, destination, r.value)
    ensures r.Some? && |r.value| < candidates ==> duplicates == DuplicatePathLimit
    ensures r.Some? && candidates > 0 ==> |r.value| > 0 && forall p :: IsPath(net, p, source, destination) ==> |r.value[0]| <= |p|
    ensures r.None? ==> candidates > 0 && source != destination
    ensures candidates > 0 && (forall p :: !IsPath(net, p, source, destination)) ==> r.None?
    ensures source == destination ==> r == Some(if candidates == 0 then [] else [[]])
  {
    var w: WeightMap := map[];
    var paths: seq<seq<nat>> := [];
    var duplicateCounter := 0;
    while |paths| < candidates && duplicateCounter < DuplicatePathLimit
      invariant Positive(w) && |paths| <= candidates && duplicateCounter <= DuplicatePathLimit
      invariant Distinct(paths) && PathsOk(net, source, destination, paths)
      invariant paths == [] ==> w == map[] && duplicateCounter == 0
      invariant paths != [] ==> forall p :: IsPath(net, p, source, destination) ==> |paths[0]| <= |p|
      invariant source == destination ==> paths == [] || paths == [[]]
      decreases candidates - |paths| + DuplicatePathLimit - duplicateCounter
    {
      var found := Dijkstra(net, source, destination, w);
      if found.None? {
        return None, duplicateCounter;
      }
      var path := found.value;
      if paths == [] {
        forall p | IsPath(net, p, source, destination) ensures |path| <= |p| {
          UnitWeight(path);
          UnitWeight(p);
        }
      }
      PenalizedPositive(w, path);
      w := Penalize(w, path);
      if UtilFunctions.VectorContains(paths, path) {
        duplicateCounter := duplicateCounter + 1;
      } else {
        paths := paths + [path];
      }
    }
    if paths != [] {
      assert IsPath(net, paths[0], source, destination);
    }
    return Some(paths), duplicateCounter;
  }
}
