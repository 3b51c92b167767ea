/**
 * The topology generators of support_tools/create_network_graph.py. Each generator builds its
 * graph by add_edge calls inside counter-driven loops; a graph is modelled as the sequence of
 * those calls, in order. Graphs made by networkx (gnp_random_graph, circulant_graph,
 * random_tree) are inputs, and every secrets.randbelow / random.choice draw is the value of an
 * oracle `roll` at the draw's loop index.
 */
module NetworkGraph {
  import opened Optional

  /** One add_edge(u, v) call. */
  type Edge = (nat, nat)

  /** The switch in row `row`, column `col` of a mesh with `b` switches per row; also the device slot `i` of switch `s` with `d` devices per switch. */
  function Slot(b: nat, row: nat, col: nat): nat {
    RowStart(b, row) + col
  }

  /** row * b, as repeated addition, so that proofs about the grid stay linear. */
  function RowStart(b: nat, row: nat): nat {
    if row == 0 then 0 else RowStart(b, row - 1) + b
  }

  lemma {:induction false} RowStartIsProduct(b: nat, row: nat)
    ensures RowStart(b, row) == row * b
  {
    if row > 0 {
      RowStartIsProduct(b, row - 1);
      assert row * b == (row - 1) * b + b;
    }
  }

  lemma {:induction false} RowStartMono(b: nat, s: nat, m: nat)
    requires s < m
    ensures RowStart(b, s) + b <= RowStart(b, m)
    decreases m - s
  {
    if s + 1 < m {
      RowStartMono(b, s, m - 1);
    }
  }

  lemma {:induction false} MulLe(x: nat, y: nat, d: nat)
    requires x <= y
    ensures x * d <= y * d
    decreases y - x
  {
    if x < y {
      MulLe(x, y - 1, d);
      assert y * d == (y - 1) * d + d;
    }
  }

  /** q * n + r == k with 0 <= r < n fixes the quotient and the remainder of k by n. */
  lemma DivModUnique(n: nat, q: nat, r: nat, k: nat)
    requires r < n && k == q * n + r
    ensures k / n == q && k % n == r
  {
    var q', r' := k / n, k % n;
    assert k == q' * n + r';
    if q' < q {
      MulLe(q' + 1, q, n);
      assert false;
    } else if q < q' {
      MulLe(q + 1, q', n);
      assert false;
    }
  }

  // ---------------------------------------------------------------------------------------
  // create_mesh_graph: the switch grid

  /** The links the grid loop adds at the switch in row `row`, column `col` of an a x b mesh. */
  function NodeLinks(a: nat, b: nat, row: nat, col: nat): seq<Edge> {
    var k := Slot(b, row, col);
    (if col < b - 1 then [(k, k + 1)] else []) + (if row < a - 1 then [(k, k + b)] else [])
  }

  /** The links added for the first `cols` switches of row `row`. */
  function RowLinks(a: nat, b: nat, row: nat, cols: nat): seq<Edge> {
    if cols == 0 then [] else RowLinks(a, b, row, cols - 1) + NodeLinks(a, b, row, cols - 1)
  }

  /** The links added for the first `rows` rows. */
  function GridLinks(a: nat, b: nat, rows: nat): seq<Edge> {
    if rows == 0 then [] else GridLinks(a, b, rows - 1) + RowLinks(a, b, rows - 1, b)
  }

  /** A mesh link: a switch to its right neighbour within its row, or to the switch below it. */
  predicate MeshLink(a: nat, b: nat, e: Edge) {
    exists row: nat, col: nat :: row < a && col < b && e.0 == Slot(b, row, col) &&
      ((col < b - 1 && e.1 == e.0 + 1) || (row < a - 1 && e.1 == e.0 + b))
  }

  /** Link e comes before link f in lexicographic order. */
  predicate Before(e: Edge, f: Edge) {
    e.0 < f.0 || (e.0 == f.0 && e.1 < f.1)
  }

  /** Every link comes before the next one. */
  predicate Increasing(s: seq<Edge>) {
    forall i :: 0 < i < |s| ==> Before(s[i - 1], s[i])
  }

  /** An increasing list is strictly increasing between any two positions, hence free of repeated links. */
  lemma {:induction false} IncreasingPairwise(s: seq<Edge>, i: nat, j: nat)
    requires Increasing(s) && i < j < |s|
    ensures Before(s[i], s[j]) && s[i] != s[j]
    decreases j - i
  {
    if i + 1 < j {
      IncreasingPairwise(s, i, j - 1);
      assert Before(s[j - 1], s[j]);
    }
  }

  lemma {:induction false} RowLinksCount(a: nat, b: nat, row: nat, cols: nat)
    requires 1 <= b && cols <= b
    ensures |RowLinks(a, b, row, cols)| == (if cols < b then cols else b - 1) + (if row < a - 1 then cols else 0)
  {
    if cols > 0 {
      RowLinksCount(a, b, row, cols - 1);
      assert |RowLinks(a, b, row, cols)| == |RowLinks(a, b, row, cols - 1)| + |NodeLinks(a, b, row, cols - 1)|;
      assert |NodeLinks(a, b, row, cols - 1)| == (if cols < b then 1 else 0) + (if row < a - 1 then 1 else 0);
    }
  }

  lemma {:induction false} GridLinksCount(a: nat, b: nat, rows: nat)
    requires 1 <= a && 1 <= b && rows <= a
    ensures |GridLinks(a, b, rows)| == RowStart(b - 1, rows) + RowStart(b, if rows < a then rows else a - 1)
  {
    if rows > 0 {
      GridLinksCount(a, b, rows - 1);
      RowLinksCount(a, b, rows - 1, b);
    }
  }

  /** An a x b mesh has a*(b-1) horizontal and b*(a-1) vertical links, and none when a side is empty. */
  lemma MeshLinkCount(a: nat, b: nat)
    ensures a >= 1 && b >= 1 ==> |GridLinks(a, b, a)| == a * (b - 1) + b * (a - 1)
    ensures a == 0 || b == 0 ==> GridLinks(a, b, a) == []
  {
    if a >= 1 && b >= 1 {
      GridLinksCount(a, b, a);
      RowStartIsProduct(b - 1, a);
      RowStartIsProduct(b, a - 1);
    } else if b == 0 {
      GridLinksEmptyRows(a);
    }
  }

  lemma {:induction false} GridLinksEmptyRows(rows: nat)
    ensures GridLinks(rows, 0, rows) == []
  {
    if rows > 0 {
      GridLinksEmptyRowsUpTo(rows, rows);
    }
  }

  lemma {:induction false} GridLinksEmptyRowsUpTo(a: nat, rows: nat)
    ensures GridLinks(a, 0, rows) == []
  {
    if rows > 0 {
      GridLinksEmptyRowsUpTo(a, rows - 1);
    }
  }

  /** Every link of s leaves a switch in [lo, hi), towards a higher switch id. */
  predicate Within(s: seq<Edge>, lo: nat, hi: nat) {
    forall k :: 0 <= k < |s| ==> lo <= s[k].0 < hi && s[k].0 < s[k].1
  }

  lemma WithinConcat(x: seq<Edge>, y: seq<Edge>, lo: nat, m: nat, hi: nat)
    requires Within(x, lo, m) && Within(y, m, hi) && lo <= m <= hi
    ensures Within(x + y, lo, hi)
  {
    var s := x + y;
    forall k | 0 <= k < |s| ensures lo <= s[k].0 < hi && s[k].0 < s[k].1 {
      if k < |x| {
        assert s[k] == x[k];
      } else {
        assert s[k] == y[k - |x|];
      }
    }
  }

  /** Two increasing lists, the first leaving lower switches than the second, concatenate to an increasing list. */
  lemma IncreasingConcat(x: seq<Edge>, y: seq<Edge>, lo: nat, m: nat, hi: nat)
    ensures Increasing(x) && Increasing(y) && Within(x, lo, m) && Within(y, m, hi) ==> Increasing(x + y)
  {
    if !(Increasing(x) && Increasing(y) && Within(x, lo, m) && Within(y, m, hi)) {
      return;
    }
    var s := x + y;
    forall i | 0 < i < |s| ensures Before(s[i - 1], s[i]) {
      if i < |x| {
        assert s[i - 1] == x[i - 1] && s[i] == x[i];
      } else if i > |x| {
        assert s[i - 1] == y[i - 1 - |x|] && s[i] == y[i - |x|];
      } else {
        assert s[i - 1] == x[|x| - 1] && s[i] == y[0];
      }
    }
  }

  lemma NodeLinksBounds(a: nat, b: nat, row: nat, col: nat)
    requires col < b
    ensures Within(NodeLinks(a, b, row, col), Slot(b, row, col), Slot(b, row, col) + 1)
    ensures Increasing(NodeLinks(a, b, row, col))
  {
    var k := Slot(b, row, col);
    var right: seq<Edge> := if col < b - 1 then [(k, k + 1)] else [];
    var down: seq<Edge> := if row < a - 1 then [(k, k + b)] else [];
    assert NodeLinks(a, b, row, col) == right + down;
    if col < b - 1 && row < a - 1 {
      assert NodeLinks(a, b, row, col) == [(k, k + 1), (k, k + b)];
    }
  }

  /** The links of the first `cols` switches of a row leave those switches, upwards. */
  lemma {:induction false} RowLinksBounds(a: nat, b: nat, row: nat, cols: nat)
    requires cols <= b
    ensures Within(RowLinks(a, b, row, cols), Slot(b, row, 0), Slot(b, row, cols))
  {
    if cols > 0 {
      var init := RowLinks(a, b, row, cols - 1);
      var last := NodeLinks(a, b, row, cols - 1);
      RowLinksBounds(a, b, row, cols - 1);
      NodeLinksBounds(a, b, row, cols - 1);
      assert RowLinks(a, b, row, cols) == init + last;
      WithinConcat(init, last, Slot(b, row, 0), Slot(b, row, cols - 1), Slot(b, row, cols));
    }
  }

  lemma {:induction false} RowLinksIncreasing(a: nat, b: nat, row: nat, cols: nat)
    requires cols <= b
    ensures Increasing(RowLinks(a, b, row, cols))
  {
    if cols > 0 {
      var init := RowLinks(a, b, row, cols - 1);
      var last := NodeLinks(a, b, row, cols - 1);
      RowLinksIncreasing(a, b, row, cols - 1);
      RowLinksBounds(a, b, row, cols - 1);
      NodeLinksBounds(a, b, row, cols - 1);
      assert RowLinks(a, b, row, cols) == init + last;
      IncreasingConcat(init, last, Slot(b, row, 0), Slot(b, row, cols - 1), Slot(b, row, cols));
    }
  }

  lemma {:induction false} RowLinksMesh(a: nat, b: nat, row: nat, cols: nat)
    requires row < a && cols <= b
    ensures forall e :: e in RowLinks(a, b, row, cols) ==> MeshLink(a, b, e)
  {
    if cols > 0 {
      var init := RowLinks(a, b, row, cols - 1);
      var last := NodeLinks(a, b, row, cols - 1);
      RowLinksMesh(a, b, row, cols - 1);
      assert RowLinks(a, b, row, cols) == init + last;
      forall e | e in last ensures MeshLink(a, b, e) {
        assert row < a && cols - 1 < b && e.0 == Slot(b, row, cols - 1);
      }
    }
  }

  lemma {:induction false} GridLinksWithin(a: nat, b: nat, rows: nat)
    ensures Within(GridLinks(a, b, rows), 0, Slot(b, rows, 0))
  {
    if rows > 0 {
      var init := GridLinks(a, b, rows - 1);
      var last := RowLinks(a, b, rows - 1, b);
      GridLinksWithin(a, b, rows - 1);
      RowLinksBounds(a, b, rows - 1, b);
      assert Slot(b, rows - 1, b) == Slot(b, rows, 0);
      WithinConcat(init, last, 0, Slot(b, rows - 1, 0), Slot(b, rows, 0));
    }
  }

  lemma {:induction false} GridLinksIncreasing(a: nat, b: nat, rows: nat)
    ensures Increasing(GridLinks(a, b, rows))
  {
    if rows > 0 {
      var init := GridLinks(a, b, rows - 1);
      var last := RowLinks(a, b, rows - 1, b);
      GridLinksIncreasing(a, b, rows - 1);
      RowLinksIncreasing(a, b, rows - 1, b);
      GridLinksWithin(a, b, rows - 1);
      RowLinksBounds(a, b, rows - 1, b);
      IncreasingConcat(init, last, 0, Slot(b, rows - 1, 0), Slot(b, rows - 1, b));
      assert GridLinks(a, b, rows) == init + last;
    }
  }

  lemma GridLinksBounds(a: nat, b: nat, rows: nat)
    ensures Within(GridLinks(a, b, rows), 0, Slot(b, rows, 0))
    ensures Increasing(GridLinks(a, b, rows))
  {
    GridLinksWithin(a, b, rows);
    GridLinksIncreasing(a, b, rows);
  }

  lemma {:induction false} GridLinksMesh(a: nat, b: nat, rows: nat)
    requires rows <= a
    ensures forall e :: e in GridLinks(a, b, rows) ==> MeshLink(a, b, e)
  {
    if rows > 0 {
      var init := GridLinks(a, b, rows - 1);
      var last := RowLinks(a, b, rows - 1, b);
      assert GridLinks(a, b, rows) == init + last;
      forall e | e in GridLinks(a, b, rows) ensures MeshLink(a, b, e) {
        if e in init {
          GridLinksMesh(a, b, rows - 1);
        } else {
          RowLinksMesh(a, b, rows - 1, b);
        }
      }
    }
  }

  lemma {:induction false} RowLinksComplete(a: nat, b: nat, row: nat, cols: nat, col: nat)
    requires col < cols
    ensures col < b - 1 ==> (Slot(b, row, col), Slot(b, row, col) + 1) in RowLinks(a, b, row, cols)
    ensures row < a - 1 ==> (Slot(b, row, col), Slot(b, row, col) + b) in RowLinks(a, b, row, cols)
  {
    var init, last := RowLinks(a, b, row, cols - 1), NodeLinks(a, b, row, cols - 1);
    assert RowLinks(a, b, row, cols) == init + last;
    if col < cols - 1 {
      RowLinksComplete(a, b, row, cols - 1, col);
    }
  }

  lemma {:induction false} GridLinksComplete(a: nat, b: nat, rows: nat, row: nat, col: nat)
    requires row < rows && col < b
    ensures col < b - 1 ==> (Slot(b, row, col), Slot(b, row, col) + 1) in GridLinks(a, b, rows)
    ensures row < a - 1 ==> (Slot(b, row, col), Slot(b, row, col) + b) in GridLinks(a, b, rows)
  {
    var init, last := GridLinks(a, b, rows - 1), RowLinks(a, b, rows - 1, b);
    assert GridLinks(a, b, rows) == init + last;
    if row < rows - 1 {
      GridLinksComplete(a, b, rows - 1, row, col);
    } else {
      RowLinksComplete(a, b, row, b, col);
    }
  }

  /**
   * The grid loop links exactly the mesh links: k to k+1 unless k ends its row, k to k+b unless k
   * is in the last row; each link once, from the lower to the higher switch id.
   */
  lemma GridIsMesh(a: nat, b: nat)
    ensures forall e :: e in GridLinks(a, b, a) <==> MeshLink(a, b, e)
    ensures forall i, j :: 0 <= i < j < |GridLinks(a, b, a)| ==> Before(GridLinks(a, b, a)[i], GridLinks(a, b, a)[j])
    ensures forall e :: e in GridLinks(a, b, a) ==> e.0 < e.1
  {
    forall e: Edge | MeshLink(a, b, e) ensures e in GridLinks(a, b, a) {
      MeshLinkInGrid(a, b, e);
    }
    GridLinksMesh(a, b, a);
    GridLinksBounds(a, b, a);
    forall i, j | 0 <= i < j < |GridLinks(a, b, a)| ensures Before(GridLinks(a, b, a)[i], GridLinks(a, b, a)[j]) {
      IncreasingPairwise(GridLinks(a, b, a), i, j);
    }
  }

  lemma MeshLinkInGrid(a: nat, b: nat, e: Edge)
    requires MeshLink(a, b, e)
    ensures e in GridLinks(a, b, a)
  {
    var row: nat, col: nat :| row < a && col < b && e.0 == Slot(b, row, col) &&
      ((col < b - 1 && e.1 == e.0 + 1) || (row < a - 1 && e.1 == e.0 + b));
    GridLinksComplete(a, b, a, row, col);
    if col < b - 1 && e.1 == e.0 + 1 {
      assert e == (Slot(b, row, col), Slot(b, row, col) + 1);
    } else {
      assert e == (Slot(b, row, col), Slot(b, row, col) + b);
    }
  }

  /** The nested grid loop of create_mesh_graph. */
  method SwitchGrid(a: nat, b: nat) returns (links: seq<Edge>)
    ensures links == GridLinks(a, b, a)
  {
    links := [];
    var counter := 0;
    var currentDim := 0;
    while currentDim < a
      invariant currentDim <= a
      invariant links == GridLinks(a, b, currentDim) && counter == Slot(b, currentDim, 0)
    {
      var row;
      row, counter := SwitchRow(a, b, currentDim, counter);
      links := links + row;
      assert Slot(b, currentDim, b) == Slot(b, currentDim + 1, 0);
      currentDim := currentDim + 1;
    }
  }

  /** The inner loop of create_mesh_graph: the links of the switches of one row. */
  method SwitchRow(a: nat, b: nat, currentDim: nat, start: nat) returns (row: seq<Edge>, counter: nat)
    requires start == Slot(b, currentDim, 0)
    ensures row == RowLinks(a, b, currentDim, b) && counter == Slot(b, currentDim, b)
  {
    row := [];
    counter := start;
    var nodeInDim := 0;
    while nodeInDim < b
      invariant nodeInDim <= b
      invariant row == RowLinks(a, b, currentDim, nodeInDim)
      invariant counter == Slot(b, currentDim, nodeInDim)
    {
      var added: seq<Edge> := [];
      if nodeInDim < b - 1 {
        added := added + [(counter, counter + 1)];
      }
      if currentDim < a - 1 {
        added := added + [(counter, counter + b)];
      }
      assert added == NodeLinks(a, b, currentDim, nodeInDim);
      row := row + added;
      counter := counter + 1;
      nodeInDim := nodeInDim + 1;
    }
  }

  // ---------------------------------------------------------------------------------------
  // create_mesh_graph: the end devices

  /**
   * `d` devices per switch for switches 0..n-1: device ids run consecutively from n, each device
   * has exactly one link, and device slot i of switch s is linked to s.
   */
  predicate PerSwitch(n: nat, d: nat, links: seq<Edge>) {
    && |links| == n * d
    && (forall k :: 0 <= k < |links| ==> links[k].1 == n + k && links[k].0 < n)
    && (forall s, i :: 0 <= s < n && 0 <= i < d ==> Slot(d, s, i) < |links| && links[Slot(d, s, i)].0 == s)
  }

  /** The device loop of create_mesh_graph, for switches 0..n-1. */
  method AttachPerSwitch(n: nat, d: nat) returns (links: seq<Edge>)
    ensures PerSwitch(n, d, links)
  {
    links := [];
    var endDeviceId: nat := n;
    var switch: nat := 0;
    while switch < n
      invariant switch <= n
      invariant |links| == RowStart(d, switch) && endDeviceId == n + |links|
      invariant forall k :: 0 <= k < |links| ==> links[k].1 == n + k && links[k].0 < n
      invariant forall s, i :: 0 <= s < switch && 0 <= i < d ==> Slot(d, s, i) < |links| && links[Slot(d, s, i)].0 == s
    {
      var i: nat := 0;
      while i < d
        invariant i <= d
        invariant |links| == Slot(d, switch, i) && endDeviceId == n + |links|
        invariant forall k :: 0 <= k < |links| ==> links[k].1 == n + k && links[k].0 < n
        invariant forall s, j :: 0 <= s < switch && 0 <= j < d ==> Slot(d, s, j) < |links| && links[Slot(d, s, j)].0 == s
        invariant forall j :: 0 <= j < i ==> links[Slot(d, switch, j)].0 == switch
      {
        links := links + [(switch, endDeviceId)];
        endDeviceId := endDeviceId + 1;
        i := i + 1;
      }
      switch := switch + 1;
    }
    RowStartIsProduct(d, n);
  }

  /**
   * create_mesh_graph: the grid links of an a x b mesh, then `d` devices on every switch. Devices
   * are numbered from a*b, the first id after the switches.
   */
  method MeshGraph(a: nat, b: nat, d: nat) returns (links: seq<Edge>)
    ensures |links| == |GridLinks(a, b, a)| + a * b * d
    ensures links[..|GridLinks(a, b, a)|] == GridLinks(a, b, a)
    ensures PerSwitch(a * b, d, links[|GridLinks(a, b, a)|..])
  {
    var grid := SwitchGrid(a, b);
    var devices := AttachPerSwitch(a * b, d);
    links := grid + devices;
    assert links[|grid|..] == devices;
  }

  /** create_even_mesh_graph: a square mesh. */
  method EvenMeshGraph(meshLength: nat, d: nat) returns (links: seq<Edge>)
    ensures |links| == |GridLinks(meshLength, meshLength, meshLength)| + meshLength * meshLength * d
    ensures links[..|GridLinks(meshLength, meshLength, meshLength)|] == GridLinks(meshLength, meshLength, meshLength)
    ensures PerSwitch(meshLength * meshLength, d, links[|GridLinks(meshLength, meshLength, meshLength)|..])
  {
    links := MeshGraph(meshLength, meshLength, d);
  }

  // ---------------------------------------------------------------------------------------
  // create_circle_graph_with_exactly_x_end_nodes_per_switch

  /** Appends, to the circulant graph `ring` on n switches, device n+i on switch (n+i) mod n for every i < n*x. */
  method EvenRing(n: nat, x: nat, ring: seq<Edge>) returns (links: seq<Edge>)
    ensures |links| == |ring| + n * x && links[..|ring|] == ring
    ensures forall i :: 0 <= i < n * x ==> links[|ring|..][i] == (n + i, (n + i) % n)
  {
    var added: seq<Edge> := [];
    var i: nat := 0;
    while i < n * x
      invariant i <= n * x && |added| == i
      invariant forall j :: 0 <= j < i ==> added[j] == (n + j, (n + j) % n)
    {
      var endNode: nat := i + n;
      added := added + [(endNode, endNode % n)];
      i := i + 1;
    }
    links := ring + added;
    assert links[..|ring|] == ring && links[|ring|..] == added;
  }

  lemma QuotientBelow(i: nat, n: nat, x: nat)
    requires i < n * x
    ensures n > 0 && i / n < x && i == Slot(n, i / n, i % n)
  {
    if n == 0 {
      assert false;
    }
    var q, r := i / n, i % n;
    DivisionParts(i, n, q, r);
    RowStartIsProduct(n, q);
    if q >= x {
      MulLe(x, q, n);
      assert false;
    }
  }

  lemma DivisionParts(i: nat, n: nat, q: nat, r: nat)
    requires n > 0 && q == i / n && r == i % n
    ensures i == q * n + r && r < n
  {
  }

  /**
   * Every switch s < n gets exactly x devices from EvenRing: those at positions Slot(n, k, s),
   * k < x, which are distinct, and every device position is one of them.
   */
  lemma EvenRingShares(n: nat, x: nat)
    ensures forall k, s :: 0 <= k < x && 0 <= s < n ==> Slot(n, k, s) < n * x && (n + Slot(n, k, s)) % n == s
    ensures forall i :: 0 <= i < n * x ==> i / n < x && i % n < n && i == Slot(n, i / n, i % n)
  {
    forall k, s | 0 <= k < x && 0 <= s < n ensures Slot(n, k, s) < n * x && (n + Slot(n, k, s)) % n == s {
      RowStartMono(n, k, x);
      RowStartIsProduct(n, x);
      RowStartIsProduct(n, k + 1);
      assert x * n == n * x;
      DivModUnique(n, k + 1, s, n + Slot(n, k, s));
    }
    forall i | 0 <= i < n * x ensures i / n < x && i % n < n && i == Slot(n, i / n, i % n) {
      QuotientBelow(i, n, x);
    }
  }

  // ---------------------------------------------------------------------------------------
  // create_even_random_graph

  /** Appends, to the random switch graph g on n switches, device n+s on every switch s. */
  method EvenRandom(n: nat, g: seq<Edge>) returns (links: seq<Edge>)
    ensures |links| == |g| + n && links[..|g|] == g
    ensures forall s :: 0 <= s < n ==> links[|g|..][s] == (s, n + s)
  {
    var added: seq<Edge> := [];
    var endDevice: nat := n;
    var switch: nat := 0;
    while switch < n
      invariant switch <= n && endDevice == n + switch && |added| == switch
      invariant forall s :: 0 <= s < switch ==> added[s] == (s, n + s)
    {
      added := added + [(switch, endDevice)];
      endDevice := endDevice + 1;
      switch := switch + 1;
    }
    links := g + added;
    assert links[..|g|] == g && links[|g|..] == added;
  }

  // ---------------------------------------------------------------------------------------
  // create_random_graph and create_circle_graph

  /**
   * Appends, to the switch graph g on n switches, `devices` devices: device i+n on switch
   * secrets.randbelow(n), which draws roll(i) mod n. randbelow(0) raises: None.
   */
  method AttachRandomly(n: nat, devices: nat, g: seq<Edge>, roll: nat -> nat) returns (r: Option<seq<Edge>>)
    ensures r.None? <==> n == 0 && devices > 0
    ensures r.Some? ==> |r.value| == |g| + devices && r.value[..|g|] == g
    ensures r.Some? ==> forall i :: 0 <= i < devices ==> r.value[|g|..][i].0 == i + n && r.value[|g|..][i].1 < n
  {
    var added: seq<Edge> := [];
    var i: nat := 0;
    while i < devices
      invariant i <= devices && |added| == i && (n == 0 ==> i == 0)
      invariant forall j :: 0 <= j < i ==> added[j].0 == j + n && added[j].1 < n
    {
      var endNode: nat := i + n;
      if n == 0 {
        return None;
      }
      var switch: nat := roll(i) % n;
      added := added + [(endNode, switch)];
      i := i + 1;
    }
    var links := g + added;
    assert links[..|g|] == g && links[|g|..] == added;
    return Some(links);
  }

  // ---------------------------------------------------------------------------------------
  // create_tree_graph

  /** The degree of node x: its number of link ends, a self-loop counting twice as in networkx. */
  function Degree(g: seq<Edge>, x: nat): nat {
    if g == [] then 0
    else Degree(g[..|g| - 1], x) + (if g[|g| - 1].0 == x then 1 else 0) + (if g[|g| - 1].1 == x then 1 else 0)
  }

  /** The switches 0..switches-1 of the tree with degree 1, in node order. */
  method LeafSwitches(switches: nat, tree: seq<Edge>) returns (leaves: seq<nat>)
    ensures leaves == LeavesOf(switches, tree)
  {
    leaves := [];
    var x: nat := 0;
    while x < switches
      invariant x <= switches
      invariant leaves == LeavesOf(x, tree)
    {
      if Degree(tree, x) == 1 {
        leaves := leaves + [x];
      }
      x := x + 1;
    }
  }

  /**
   * The device loops of create_tree_graph: device switches+i on the i-th leaf switch for every
   * leaf, then devices up to `devices` on leaf switches drawn by random.choice (roll(i) mod the
   * number of leaves). random.choice on no leaves raises: None. `warned` is the console warning
   * printed when there are more leaves than requested devices (one device per leaf is still added).
   */
  method AttachToLeaves(switches: nat, devices: nat, tree: seq<Edge>, roll: nat -> nat) returns (r: Option<seq<Edge>>, warned: bool)
    ensures warned <==> |LeavesOf(switches, tree)| > devices
    ensures r.None? <==> LeavesOf(switches, tree) == [] && devices > 0
    ensures r.Some? ==> |r.value| == |tree| + (if devices < |LeavesOf(switches, tree)| then |LeavesOf(switches, tree)| else devices)
    ensures r.Some? ==> r.value[..|tree|] == tree
    ensures r.Some? ==> forall i :: 0 <= i < |LeavesOf(switches, tree)| ==> r.value[|tree|..][i] == (switches + i, LeavesOf(switches, tree)[i])
    ensures r.Some? ==> forall i :: |LeavesOf(switches, tree)| <= i < devices ==>
      r.value[|tree|..][i].0 == switches + i && r.value[|tree|..][i].1 in LeavesOf(switches, tree)
  {
    var leaves := LeafSwitches(switches, tree);
    warned := |leaves| > devices;
    var added: seq<Edge> := [];
    var i: nat := 0;
    while i < |leaves|
      invariant i <= |leaves| && |added| == i
      invariant forall j :: 0 <= j < i ==> added[j] == (switches + j, leaves[j])
    {
      added := added + [(switches + i, leaves[i])];
      i := i + 1;
    }
    while i < devices
      invariant |leaves| <= i && (|leaves| < devices ==> i <= devices) && |added| == i
      invariant leaves == [] ==> i == 0
      invariant devices <= |leaves| ==> i == |leaves|
      invariant forall j :: 0 <= j < |leaves| ==> added[j] == (switches + j, leaves[j])
      invariant forall j :: |leaves| <= j < i ==> added[j].0 == switches + j && added[j].1 in leaves
    {
      if leaves == [] {
        return None, warned;
      }
      added := added + [(switches + i, leaves[roll(i) % |leaves|])];
      i := i + 1;
    }
    var links := tree + added;
    assert links[..|tree|] == tree && links[|tree|..] == added;
    return Some(links), warned;
  }

  /** The leaf list create_tree_graph computes: the switches of degree 1, in node order. */
  function LeavesOf(switches: nat, tree: seq<Edge>): seq<nat> {
    if switches == 0 then []
    else LeavesOf(switches - 1, tree) + (if Degree(tree, switches - 1) == 1 then [switches - 1] else [])
  }

  /** The leaf list holds exactly the degree-1 switches, each once, in ascending order. */
  lemma {:induction false} LeavesOfShape(switches: nat, tree: seq<Edge>)
    ensures forall x: nat :: x in LeavesOf(switches, tree) <==> x < switches && Degree(tree, x) == 1
    ensures forall i, j :: 0 <= i < j < |LeavesOf(switches, tree)| ==> LeavesOf(switches, tree)[i] < LeavesOf(switches, tree)[j]
  {
    if switches > 0 {
      var init := LeavesOf(switches - 1, tree);
      var leaves := LeavesOf(switches, tree);
      LeavesOfShape(switches - 1, tree);
      assert leaves == init + (if Degree(tree, switches - 1) == 1 then [switches - 1] else []);
      forall i, j | 0 <= i < j < |leaves| ensures leaves[i] < leaves[j] {
        if j < |init| {
          assert leaves[i] == init[i] && leaves[j] == init[j];
        } else {
          assert leaves[i] == init[i] && leaves[i] in init;
        }
      }
    }
  }
}
