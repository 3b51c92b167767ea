/**
 * KShortest (src/routing/KShortest.cpp): Yen's k shortest paths over hop counts. Every hop of the
 * last accepted path is a spur node; links that would repeat an accepted path from the same root
 * and the out-links of the root's devices are made LARGE_NUMBER heavy, a spur path is searched,
 * and root plus spur becomes a candidate when it avoids every heavy link.
 */
module KShortest {
  import opened Optional
  import opened Routing
  import UtilFunctions

  /** LARGE_NUMBER: the weight of an effectively removed link. */
  const LargeNumber: int := 1000000

  // ---------------------------------------------------------------------------
  // Paths

  /** Extending a path by an out-link of its end. */
  lemma {:induction false} PathSnoc(net: Network, p: seq<nat>, x: nat, y: nat, q: nat)
    requires IsPath(net, p, x, y) && Out(net, y, q)
    ensures IsPath(net, p + [q], x, Dest(net, q))
    decreases |p|
  {
    if p != [] {
      assert (p + [q])[1..] == p[1..] + [q];
      PathSnoc(net, p[1..], Dest(net, p[0]), y, q);
    }
  }

  /** A path to y followed by a path from y. */
  lemma {:induction false} PathAppend(net: Network, p: seq<nat>, s: seq<nat>, x: nat, y: nat, z: nat)
    requires IsPath(net, p, x, y) && IsPath(net, s, y, z)
    ensures IsPath(net, p + s, x, z)
    decreases |p|
  {
    if p == [] {
      assert p + s == s;
    } else {
      assert (p + s)[1..] == p[1..] + s;
      PathAppend(net, p[1..], s, Dest(net, p[0]), y, z);
    }
  }

  /** The devices a walk of p from x leaves, one per hop. */
  ghost function Trace(net: Network, p: seq<nat>, x: nat): (t: seq<nat>)
    ensures |t| == |p|
    decreases |p|
  {
    if p == [] then [] else [x] + Trace(net, p[1..], if p[0] < |net.edges| then Dest(net, p[0]) else x)
  }

  /** On a path, hop j leaves device Trace[j], and the next hop leaves where hop j arrives. */
  lemma {:induction false} TraceOut(net: Network, p: seq<nat>, x: nat, y: nat, j: nat)
    requires IsPath(net, p, x, y) && j < |p|
    ensures Out(net, Trace(net, p, x)[j], p[j])
    ensures j == 0 ==> Trace(net, p, x)[j] == x
    ensures j + 1 < |p| ==> Trace(net, p, x)[j + 1] == Dest(net, p[j])
    decreases |p|
  {
    if j > 0 {
      TraceOut(net, p[1..], Dest(net, p[0]), y, j - 1);
    }
  }

  // ---------------------------------------------------------------------------
  // Removing links

  /** Path r repeats the root: its first min(|r|, |root|) hops are those of the root. */
  predicate SharesRoot(r: seq<nat>, root: seq<nat>) {
    var end := if |r| < |root| then |r| else |root|;
    r[..end] == root[..end]
  }

  /** The compare loop: same iff r and root agree up to the shorter one. */
  method SameUpTo(r: seq<nat>, root: seq<nat>) returns (same: bool)
    ensures same <==> SharesRoot(r, root)
  {
    var end := if |r| < |root| then |r| else |root|;
    var c := 0;
    while c < end
      invariant 0 <= c <= end
      invariant r[..c] == root[..c]
    {
      if r[c] != root[c] {
        assert r[..end][c] != root[..end][c];
        return false;
      }
      assert r[..c + 1] == r[..c] + [r[c]] && root[..c + 1] == root[..c] + [root[c]];
      c := c + 1;
    }
    return true;
  }

  /** The next links of the accepted paths that continue the root. */
  ghost function Blocked(paths: seq<seq<nat>>, root: seq<nat>): set<nat> {
    set r | r in paths && |root| < |r| && r[..|root|] == root :: r[|root|]
  }

  /** An accepted path that ends inside the root: reading its next link is out of range. */
  ghost predicate EndsInRoot(paths: seq<seq<nat>>, root: seq<nat>) {
    exists r :: r in paths && |r| <= |root| && r == root[..|r|]
  }

  /**
   * The weights after the loop over the accepted paths: the next link of each path that shares
   * the root becomes LARGE_NUMBER heavy, and None when such a path has no next link.
   */
  function Blocking(paths: seq<seq<nat>>, root: seq<nat>, w: WeightMap): Option<WeightMap>
    decreases |paths|
  {
    if paths == [] then Some(w)
    else
      match Blocking(paths[..|paths| - 1], root, w)
      case None => None
      case Some(v) =>
        var r := paths[|paths| - 1];
        if !SharesRoot(r, root) then Some(v)
        else if |r| <= |root| then None
        else Some(v[r[|root|] := LargeNumber])
  }

  /** SharesRoot splits into a path inside the root and a path that continues it. */
  lemma SharesRootCases(r: seq<nat>, root: seq<nat>)
    ensures SharesRoot(r, root) && |r| <= |root| <==> |r| <= |root| && r == root[..|r|]
    ensures SharesRoot(r, root) && |root| < |r| <==> |root| < |r| && r[..|root|] == root
  {
    if |r| <= |root| {
      assert r[..|r|] == r;
    }
  }

  lemma EndsInRootLast(paths: seq<seq<nat>>, root: seq<nat>)
    requires paths != []
    ensures EndsInRoot(paths, root)
        <==> EndsInRoot(paths[..|paths| - 1], root) || (|paths[|paths| - 1]| <= |root| && paths[|paths| - 1] == root[..|paths[|paths| - 1]|])
  {
    var init := paths[..|paths| - 1];
    var r := paths[|paths| - 1];
    assert paths == init + [r];
    if EndsInRoot(paths, root) {
      var r' :| r' in paths && |r'| <= |root| && r' == root[..|r'|];
      if r' != r {
        assert r' in init;
      }
    }
    if EndsInRoot(init, root) {
      var r' :| r' in init && |r'| <= |root| && r' == root[..|r'|];
      assert r' in paths;
    }
  }

  lemma BlockedLast(paths: seq<seq<nat>>, root: seq<nat>)
    requires paths != []
    ensures var r := paths[|paths| - 1];
      Blocked(paths, root) == Blocked(paths[..|paths| - 1], root) + (if |root| < |r| && r[..|root|] == root then {r[|root|]} else {})
  {
    var init := paths[..|paths| - 1];
    var r := paths[|paths| - 1];
    assert paths == init + [r];
    forall q | q in Blocked(paths, root) ensures q in Blocked(init, root) || (|root| < |r| && r[..|root|] == root && q == r[|root|]) {
      var r' :| r' in paths && |root| < |r'| && r'[..|root|] == root && q == r'[|root|];
      if r' != r {
        assert r' in init;
      }
    }
  }

  /** The loop fails exactly when an accepted path ends inside the root. */
  lemma {:induction false} BlockingFails(paths: seq<seq<nat>>, root: seq<nat>, w: WeightMap)
    ensures Blocking(paths, root, w).None? <==> EndsInRoot(paths, root)
    decreases |paths|
  {
    if paths != [] {
      BlockingFails(paths[..|paths| - 1], root, w);
      EndsInRootLast(paths, root);
      SharesRootCases(paths[|paths| - 1], root);
    }
  }

  /** When it succeeds, exactly the blocked links are added, with LARGE_NUMBER. */
  lemma {:induction false} BlockingAdds(paths: seq<seq<nat>>, root: seq<nat>, w: WeightMap)
    requires Blocking(paths, root, w).Some?
    ensures Blocking(paths, root, w).value.Keys == w.Keys + Blocked(paths, root)
    ensures forall q :: q in Blocking(paths, root, w).value ==>
              Blocking(paths, root, w).value[q] == if q in Blocked(paths, root) then LargeNumber else w[q]
    decreases |paths|
  {
    if paths != [] {
      var init := paths[..|paths| - 1];
      var r := paths[|paths| - 1];
      BlockingAdds(init, root, w);
      BlockedLast(paths, root);
      SharesRootCases(r, root);
      var v := Blocking(init, root, w).value;
      if SharesRoot(r, root) {
        assert Blocking(paths, root, w).value == v[r[|root|] := LargeNumber];
      } else {
        assert Blocking(paths, root, w).value == v;
      }
    }
  }

  /** Once the loop has failed on a prefix, it fails on the whole list. */
  lemma {:induction false} BlockingFailStays(paths: seq<seq<nat>>, root: seq<nat>, w: WeightMap, j: nat)
    requires j <= |paths| && Blocking(paths[..j], root, w).None?
    ensures Blocking(paths, root, w).None?
    decreases |paths| - j
  {
    if j < |paths| {
      assert paths[..j + 1][..j] == paths[..j];
      BlockingFailStays(paths, root, w, j + 1);
    } else {
      assert paths[..j] == paths;
    }
  }

  /** The loop over the accepted paths (lines 33 to 45). */
  method BlockRepeats(paths: seq<seq<nat>>, root: seq<nat>, w: WeightMap) returns (res: Option<WeightMap>)
    ensures res == Blocking(paths, root, w)
  {
    var v := w;
    var j := 0;
    while j < |paths|
      invariant 0 <= j <= |paths|
      invariant Blocking(paths[..j], root, w) == Some(v)
    {
      var r := paths[j];
      assert paths[..j + 1][..j] == paths[..j] && paths[..j + 1][j] == r;
      var same := SameUpTo(r, root);
      if same {
        var end := if |r| < |root| then |r| else |root|;
        if end >= |r| {
          BlockingFailStays(paths, root, w, j + 1);
          return None;
        }
        v := v[r[end] := LargeNumber];
      }
      j := j + 1;
    }
    assert paths[..j] == paths;
    return Some(v);
  }

  /** effectivelyRemoveNode: every egress queue of the device becomes LARGE_NUMBER heavy. */
  method RemoveNode(net: Network, node: nat, w: WeightMap) returns (v: WeightMap)
    requires Routable(net) && node < Nodes(net)
    ensures forall q :: q in v <==> q in w || Out(net, node, q)
    ensures forall q :: q in v ==> v[q] == if Out(net, node, q) then LargeNumber else w[q]
  {
    RowInside(net, node);
    v := w;
    var q := net.offsets[node];
    while q < net.offsets[node + 1]
      invariant net.offsets[node] <= q <= net.offsets[node + 1]
      invariant forall k :: k in v <==> k in w || (net.offsets[node] <= k < q)
      invariant forall k :: k in v ==> v[k] == if net.offsets[node] <= k < q then LargeNumber else w[k]
    {
      v := v[net.edges[q].id := LargeNumber];
      q := q + 1;
    }
  }

  /** A link leaving one of the first n devices the root passes. */
  ghost predicate LeavesRoot(net: Network, root: seq<nat>, src: nat, n: nat, q: nat) {
    exists j :: 0 <= j < n && j < |root| && Out(net, Trace(net, root, src)[j], q)
  }

  lemma LeavesRootNext(net: Network, root: seq<nat>, src: nat, n: nat, q: nat)
    requires n < |root|
    ensures LeavesRoot(net, root, src, n + 1, q) <==> LeavesRoot(net, root, src, n, q) || Out(net, Trace(net, root, src)[n], q)
  {
  }

  /** The loop over the root: the devices before the spur node are effectively removed. */
  method RemoveRoot(net: Network, src: nat, root: seq<nat>, w: WeightMap, ghost spur: nat) returns (v: WeightMap)
    requires Routable(net) && IsPath(net, root, src, spur)
    ensures forall q :: q in v <==> q in w || LeavesRoot(net, root, src, |root|, q)
    ensures forall q :: q in v ==> v[q] == if LeavesRoot(net, root, src, |root|, q) then LargeNumber else w[q]
  {
    v := w;
    var previous := src;
    var i := 0;
    while i < |root|
      invariant 0 <= i <= |root|
      invariant i < |root| ==> previous == Trace(net, root, src)[i]
      invariant forall q :: q in v <==> q in w || LeavesRoot(net, root, src, i, q)
      invariant forall q :: q in v ==> v[q] == if LeavesRoot(net, root, src, i, q) then LargeNumber else w[q]
    {
      TraceOut(net, root, src, spur, i);
      forall q {
        LeavesRootNext(net, root, src, i, q);
      }
      v := RemoveNode(net, previous, v);
      previous := net.edges[root[i]].destination;
      i := i + 1;
    }
  }

  // ---------------------------------------------------------------------------
  // findRoutes

  predicate Disjoint(a: seq<seq<nat>>, b: seq<seq<nat>>) {
    forall p :: p in b ==> p !in a
  }

  /** std::ranges::any_of over the spur path, negated: no hop of p is in the map. */
  predicate Avoids(p: seq<nat>, w: WeightMap) {
    forall h :: h in p ==> h !in w
  }

  /** A candidate root + spur never repeats an accepted path. */
  lemma NotRepeated(paths: seq<seq<nat>>, root: seq<nat>, spur: seq<nat>, w: WeightMap, w': WeightMap)
    requires !EndsInRoot(paths, root) && Blocked(paths, root) <= w.Keys && w.Keys <= w'.Keys && Avoids(spur, w')
    ensures root + spur !in paths
  {
    var total := root + spur;
    assert total[..|root|] == root;
    if spur == [] {
      assert total == root[..|total|];
    } else {
      assert total[|root|] == spur[0] && spur[0] !in w';
      assert total[|root|] !in Blocked(paths, root);
    }
  }

  /**
   * What one spur step did: it fails when an accepted path ends in the root;
   * otherwise w weighs exactly the next links of the accepted paths sharing the
   * root and the out-links of the root's devices, all at LARGE_NUMBER, and the
   * step fails only when no path from the spur node is lighter than Inf; on
   * success spur is a lightest path under w, and root + spur is appended when
   * it avoids w and is new.
   */
  ghost predicate SpurStep(net: Network, src: nat, dst: nat, paths: seq<seq<nat>>, root: seq<nat>, spurNode: nat,
                           b: seq<seq<nat>>, res: Option<seq<seq<nat>>>, w: WeightMap, spur: seq<nat>)
  {
    && (EndsInRoot(paths, root) ==> res.None?)
    && (!EndsInRoot(paths, root) ==> forall q :: q in w <==> q in Blocked(paths, root) || LeavesRoot(net, root, src, |root|, q))
    && (!EndsInRoot(paths, root) ==> forall q :: q in w ==> w[q] == LargeNumber)
    && (res.None? && !EndsInRoot(paths, root) ==> forall p :: IsPath(net, p, spurNode, dst) ==> Weight(w, p) >= Inf)
    && (res.Some? ==> IsPath(net, spur, spurNode, dst) && forall p :: IsPath(net, p, spurNode, dst) ==> Weight(w, spur) <= Weight(w, p))
    && (res.Some? ==> res.value == if Avoids(spur, w) && root + spur !in b then b + [root + spur] else b)
  }

  /** One spur search for the hop i of the last accepted path (lines 27 to 72). */
  method SpurCandidate(net: Network, src: nat, dst: nat, paths: seq<seq<nat>>, root: seq<nat>, spurNode: nat, b: seq<seq<nat>>)
    returns (res: Option<seq<seq<nat>>>, ghost w: WeightMap, ghost spur: seq<nat>)
    requires Routable(net) && dst < Nodes(net) && spurNode < Nodes(net)
    requires IsPath(net, root, src, spurNode) && PathsOk(net, src, dst, b) && Distinct(b) && Disjoint(paths, b)
    ensures res.Some? ==> PathsOk(net, src, dst, res.value) && Distinct(res.value) && Disjoint(paths, res.value)
    ensures res.Some? ==> res.value == b || (|res.value| == |b| + 1 && res.value[..|b|] == b && |root| <= |res.value[|b|]| && res.value[|b|][..|root|] == root)
    ensures SpurStep(net, src, dst, paths, root, spurNode, b, res, w, spur)
  {
    var blocked := BlockRepeats(paths, root, map[]);
    BlockingFails(paths, root, map[]);
    if blocked.None? {
      return None, map[], [];
    }
    BlockingAdds(paths, root, map[]);
    var weights := RemoveRoot(net, src, root, blocked.value, spurNode);
    w := weights;
    assert Positive(weights);
    var found := Dijkstra(net, spurNode, dst, weights);
    if found.None? {
      return None, w, [];
    }
    spur := found.value;
    var valid := Avoids(found.value, weights);
    var total := root + found.value;
    if valid && !UtilFunctions.VectorContains(b, total) {
      NotRepeated(paths, root, spur, blocked.value, w);
      PathAppend(net, root, spur, src, spurNode, dst);
      assert total[..|root|] == root;
      return Some(b + [total]), w, spur;
    }
    return Some(b), w, spur;
  }

  /** c starts with b: candidates are only ever appended. */
  predicate Extends(b: seq<seq<nat>>, c: seq<seq<nat>>) {
    |b| <= |c| && c[..|b|] == b
  }

  lemma ExtendsTrans(a: seq<seq<nat>>, b: seq<seq<nat>>, c: seq<seq<nat>>)
    requires Extends(a, b) && Extends(b, c)
    ensures Extends(a, c)
  {
    assert c[..|a|] == c[..|b|][..|a|];
  }

  /** The spur search as the loop sees it: the candidates only grow, and stay valid. */
  method SpurHop(net: Network, src: nat, dst: nat, paths: seq<seq<nat>>, root: seq<nat>, spurNode: nat, b: seq<seq<nat>>)
    returns (res: Option<seq<seq<nat>>>)
    requires Routable(net) && dst < Nodes(net) && spurNode < Nodes(net)
    requires IsPath(net, root, src, spurNode) && PathsOk(net, src, dst, b) && Distinct(b) && Disjoint(paths, b)
    ensures res.Some? ==> PathsOk(net, src, dst, res.value) && Distinct(res.value) && Disjoint(paths, res.value)
    ensures res.Some? ==> Extends(b, res.value)
    ensures EndsInRoot(paths, root) ==> res.None?
  {
    ghost var w, spur;
    res, w, spur := SpurCandidate(net, src, dst, paths, root, spurNode, b);
    if res.Some? && res.value != b {
      assert res.value[..|b|] == b;
    }
  }

  /** The loop over the hops of the last accepted path (lines 23 to 73). */
  method SpurPaths(net: Network, src: nat, dst: nat, paths: seq<seq<nat>>, b: seq<seq<nat>>) returns (res: Option<seq<seq<nat>>>)
    requires Routable(net) && src < Nodes(net) && dst < Nodes(net) && |paths| >= 1
    requires PathsOk(net, src, dst, paths) && PathsOk(net, src, dst, b) && Distinct(b) && Disjoint(paths, b)
    ensures res.Some? ==> PathsOk(net, src, dst, res.value) && Distinct(res.value) && Disjoint(paths, res.value)
    ensures paths[|paths| - 1] == [] ==> res == Some(b)
    ensures res.Some? ==> Extends(b, res.value)
  {
    var previous := paths[|paths| - 1];
    var spurNode := src;
    var candidates := b;
    var i := 0;
    while i < |previous|
      invariant 0 <= i <= |previous|
      invariant IsPath(net, previous[..i], src, spurNode) && IsPath(net, previous[i..], spurNode, dst)
      invariant PathsOk(net, src, dst, candidates) && Distinct(candidates) && Disjoint(paths, candidates)
      invariant i == 0 ==> candidates == b
      invariant Extends(b, candidates)
    {
      var hop := previous[i];
      assert previous[i..][1..] == previous[i + 1..];
      var next := SpurHop(net, src, dst, paths, previous[..i], spurNode, candidates);
      if next.None? {
        return None;
      }
      ExtendsTrans(b, candidates, next.value);
      candidates := next.value;
      PathSnoc(net, previous[..i], src, spurNode, hop);
      assert previous[..i] + [hop] == previous[..i + 1];
      spurNode := net.edges[hop].destination;
      i := i + 1;
    }
    return Some(candidates);
  }

  /** Removing the candidate at index m. */
  lemma TakeOut(a: seq<seq<nat>>, b: seq<seq<nat>>, m: nat)
    requires m < |b| && Distinct(a) && Distinct(b) && Disjoint(a, b)
    ensures Distinct(a + [b[m]]) && Distinct(b[..m] + b[m + 1..]) && Disjoint(a + [b[m]], b[..m] + b[m + 1..])
    ensures forall p :: p in b[..m] + b[m + 1..] ==> p in b
  {
    var rest := b[..m] + b[m + 1..];
    var grown := a + [b[m]];
    forall i, j | 0 <= i < j < |grown| ensures grown[i] != grown[j] {
      assert grown[i] == a[i];
      if j == |a| {
        assert b[m] in b;
      } else {
        assert grown[j] == a[j];
      }
    }
    forall i | 0 <= i < |rest| ensures rest[i] != b[m] && rest[i] in b {
      if i < m {
        assert rest[i] == b[i];
      } else {
        assert rest[i] == b[i + 1];
      }
    }
    forall i, j | 0 <= i < j < |rest| ensures rest[i] != rest[j] {
      var i' := if i < m then i else i + 1;
      var j' := if j < m then j else j + 1;
      assert rest[i] == b[i'] && rest[j] == b[j'];
    }
  }

  /** The index of a shortest candidate. */
  function Shortest(b: seq<seq<nat>>): (m: nat)
    requires b != []
    ensures m < |b| && forall j :: 0 <= j < |b| ==> |b[m]| <= |b[j]|
    decreases |b|
  {
    if |b| == 1 then 0
    else
      var t := Shortest(b[1..]) + 1;
      if |b[0]| <= |b[t]| then 0 else t
  }

  /** Sorting the candidates by length and moving the front one to the accepted paths. */
  method TakeShortest(net: Network, src: nat, dst: nat, a: seq<seq<nat>>, b: seq<seq<nat>>) returns (a': seq<seq<nat>>, b': seq<seq<nat>>)
    requires b != [] && PathsOk(net, src, dst, a) && Distinct(a) && PathsOk(net, src, dst, b) && Distinct(b) && Disjoint(a, b)
    ensures PathsOk(net, src, dst, a') && Distinct(a') && PathsOk(net, src, dst, b') && Distinct(b') && Disjoint(a', b')
    ensures |a'| == |a| + 1 && a'[..|a|] == a && a'[|a|] in b && |b'| == |b| - 1
    ensures forall p :: p in b ==> |a'[|a|]| <= |p|
  {
    ghost var shortest := Shortest(b);
    var m :| 0 <= m < |b| && forall j :: 0 <= j < |b| ==> |b[m]| <= |b[j]|;
    TakeOut(a, b, m);
    a' := a + [b[m]];
    b' := b[..m] + b[m + 1..];
    assert a'[..|a|] == a;
  }

  /**
   * findRoutes. None stands for a failed search (a link of an unreached device or an accepted
   * path that ends inside the root is read and throws).
   */
  method FindRoutes(net: Network, source: nat, destination: nat, candidates: nat) returns (r: Option<seq<seq<nat>>>)
    requires Routable(net) && source < Nodes(net) && destination < Nodes(net)
    ensures r.Some? ==> 1 <= |r.value| && (|r.value| <= candidates || |r.value| == 1)
    ensures r.Some? ==> PathsOk(net, source, destination, r.value) && Distinct(r.value)
    ensures r.Some? ==> forall p :: IsPath(net, p, source, destination) ==> |r.value[0]| <= |p|
    ensures (forall p :: !IsPath(net, p, source, destination)) ==> r.None?
    ensures source == destination ==> r == Some([[]])
  {
    var first := Dijkstra(net, source, destination, map[]);
    if first.None? {
      return None;
    }
    forall p | IsPath(net, p, source, destination) ensures |first.value| <= |p| {
      UnitWeight(first.value);
      UnitWeight(p);
    }
    var accepted := [first.value];
    var b: seq<seq<nat>> := [];
    var k := 1;
    while k < candidates
      invariant 1 <= k && |accepted| == k && (k <= candidates || k == 1)
      invariant accepted[0] == first.value
      invariant PathsOk(net, source, destination, accepted) && Distinct(accepted)
      invariant PathsOk(net, source, destination, b) && Distinct(b) && Disjoint(accepted, b)
      invariant source == destination ==> accepted == [[]] && b == []
    {
      var next := SpurPaths(net, source, destination, accepted, b);
      if next.None? {
        return None;
      }
      b := next.value;
      if b == [] {
        break;
      }
      accepted, b := TakeShortest(net, source, destination, accepted, b);
      k := k + 1;
    }
    return Some(accepted);
  }
}
