/**
 * The edge-list reader of include/IO/InputParser.h: extractNextIntegerFromLine, which reads one
 * number off the front of a line, and the part of parseNetworkGraph that turns the lines of an
 * edge list into a symmetric adjacency list and then into the devices of a MultiLayeredGraph.
 * Opening the file is left out: the model starts from the lines std::getline yields.
 */
module InputParser {
  import opened Optional
  import opened Slots
  import opened UtilFunctions
  import opened Graph
  import Sorting

  /** size_t arithmetic is modulo 2^64. */
  const Word: nat := SizeMax + 1

  predicate IsDigit(c: char) {
    '0' <= c <= '9'
  }

  /** The characters that end a number: ':' and ',' and the six that std::isspace accepts in the C locale. */
  predicate IsDelimiter(c: char) {
    c == ':' || c == ',' || c == ' ' || c == '\t' || c == '\n' || c == '\U{000B}' || c == '\U{000C}' || c == '\r'
  }

  /** find_first_of over the ten digits. */
  function FirstDigit(s: seq<char>): (r: Option<nat>)
    ensures r.None? <==> forall k :: 0 <= k < |s| ==> !IsDigit(s[k])
    ensures r.Some? ==> r.value < |s| && IsDigit(s[r.value]) && forall k :: 0 <= k < r.value ==> !IsDigit(s[k])
  {
    if s == [] then None
    else if IsDigit(s[0]) then Some(0)
    else
      var rest := FirstDigit(s[1..]);
      assert forall k :: 1 <= k < |s| ==> s[k] == s[1..][k - 1];
      if rest.None? then None else Some(rest.value + 1)
  }

  /** How many characters the digit loop reads: all of them up to the first delimiter. */
  function TokenLength(s: seq<char>): (n: nat)
    ensures n <= |s| && (forall k :: 0 <= k < n ==> !IsDelimiter(s[k])) && (n < |s| ==> IsDelimiter(s[n]))
  {
    if s == [] || IsDelimiter(s[0]) then 0
    else
      assert forall k :: 1 <= k < |s| ==> s[k] == s[1..][k - 1];
      1 + TokenLength(s[1..])
  }

  /** TokenLength is the only count with its ensures. */
  lemma {:induction false} TokenLengthIs(s: seq<char>, n: nat)
    requires n <= |s| && (forall k :: 0 <= k < n ==> !IsDelimiter(s[k])) && (n < |s| ==> IsDelimiter(s[n]))
    ensures TokenLength(s) == n
    decreases n
  {
    if n > 0 {
      assert !IsDelimiter(s[0]);
      assert forall k :: 0 <= k < |s| - 1 ==> s[1..][k] == s[k + 1];
      TokenLengthIs(s[1..], n - 1);
    }
  }

  /** The view after remove_prefix of the characters before the first digit (all of it when there is none). */
  function FromFirstDigit(line: seq<char>): seq<char> {
    match FirstDigit(line)
    case None => line
    case Some(i) => line[i..]
  }

  /** node = node * 10 + (c - '0') in size_t for each character read, whether or not it is a digit. */
  function Accumulate(s: seq<char>): (v: nat)
    ensures v < Word
  {
    if s == [] then 0 else (Accumulate(s[..|s| - 1]) * 10 + (s[|s| - 1] as int - '0' as int)) % Word
  }

  /** extractNextIntegerFromLine as a value: the number read and what remains of the view. */
  function Extract(line: seq<char>): (nat, seq<char>) {
    var from := FromFirstDigit(line);
    var n := TokenLength(from);
    (Accumulate(from[..n]), from[n..])
  }

  /** The extraction: find_first_of and remove_prefix, then the digit loop. */
  method ExtractNextInteger(line: seq<char>) returns (node: nat, rest: seq<char>)
    ensures (node, rest) == Extract(line)
  {
    var from := SkipToDigit(line);
    var count;
    node, count := ReadDigits(from);
    rest := from[count..];
  }

  /** find_first_of over the digits, and remove_prefix when there is one. */
  method SkipToDigit(line: seq<char>) returns (from: seq<char>)
    ensures from == FromFirstDigit(line)
  {
    var skip := 0;
    while skip < |line| && !IsDigit(line[skip])
      invariant 0 <= skip <= |line|
      invariant forall k :: 0 <= k < skip ==> !IsDigit(line[k])
    {
      skip := skip + 1;
    }
    if skip < |line| {
      assert FirstDigit(line) == Some(skip);
      return line[skip..];
    }
    return line;
  }

  /** The digit loop: every character up to a delimiter is folded into the number. */
  method ReadDigits(from: seq<char>) returns (node: nat, count: nat)
    ensures count == TokenLength(from) && node == Accumulate(from[..count])
  {
    node := 0;
    count := 0;
    while count < |from| && !IsDelimiter(from[count])
      invariant 0 <= count <= |from|
      invariant forall k :: 0 <= k < count ==> !IsDelimiter(from[k])
      invariant node == Accumulate(from[..count])
    {
      assert from[..count + 1][..count] == from[..count];
      node := (node * 10 + (from[count] as int - '0' as int)) % Word;
      count := count + 1;
    }
    TokenLengthIs(from, count);
  }

  // ---------------------------------------------------------------------------
  // Reading back what a decimal writer wrote

  function DigitChar(d: nat): (c: char)
    requires d < 10
    ensures IsDigit(c) && c as int - '0' as int == d
  {
    ('0' as int + d) as char
  }

  /** The decimal notation of n, most significant digit first. */
  function Decimal(n: nat): (s: seq<char>)
    ensures |s| > 0 && forall k :: 0 <= k < |s| ==> IsDigit(s[k])
  {
    if n < 10 then [DigitChar(n)] else Decimal(n / 10) + [DigitChar(n % 10)]
  }

  /** The digit loop reads a number written in decimal back, as long as it fits in size_t. */
  lemma {:induction false} AccumulateDecimal(n: nat)
    requires n < Word
    ensures Accumulate(Decimal(n)) == n
  {
    var s := Decimal(n);
    if n >= 10 {
      var high, low := n / 10, n % 10;
      AccumulateDecimal(high);
      assert s[..|s| - 1] == Decimal(high) && s[|s| - 1] as int - '0' as int == low;
      DecimalDigits(n, high, low);
    }
  }

  /** Putting the last digit back after the others gives n again. */
  lemma DecimalDigits(n: nat, high: nat, low: nat)
    requires n < Word && high == n / 10 && low == n % 10
    ensures (high * 10 + low) % Word == n
  {
  }

  /**
   * A number written in decimal after any text without digits, and followed by a delimiter or
   * by nothing, is read back exactly, and the view is left at the delimiter.
   */
  lemma ExtractReadsDecimal(junk: seq<char>, n: nat, rest: seq<char>)
    requires forall k :: 0 <= k < |junk| ==> !IsDigit(junk[k])
    requires n < Word && (rest == [] || IsDelimiter(rest[0]))
    ensures Extract(junk + Decimal(n) + rest) == (n, rest)
  {
    var d := Decimal(n);
    var from := d + rest;
    SkipsJunk(junk, from);
    assert junk + d + rest == junk + from;
    DigitsEndAtDelimiter(d, rest);
    AccumulateDecimal(n);
  }

  /** The digit loop stops at the delimiter after the digits. */
  lemma DigitsEndAtDelimiter(d: seq<char>, rest: seq<char>)
    requires forall k :: 0 <= k < |d| ==> IsDigit(d[k])
    requires rest == [] || IsDelimiter(rest[0])
    ensures TokenLength(d + rest) == |d| && (d + rest)[..|d|] == d && (d + rest)[|d|..] == rest
  {
    TokenLengthIs(d + rest, |d|);
  }

  /** remove_prefix drops exactly the text before the first digit. */
  lemma SkipsJunk(junk: seq<char>, from: seq<char>)
    requires forall k :: 0 <= k < |junk| ==> !IsDigit(junk[k])
    requires from != [] && IsDigit(from[0])
    ensures FromFirstDigit(junk + from) == from
  {
    var line := junk + from;
    assert IsDigit(line[|junk|]);
    assert FirstDigit(line) == Some(|junk|);
    assert line[|junk|..] == from;
  }

  // ---------------------------------------------------------------------------
  // The adjacency list

  /** Lines starting with '#' or '%' are comments. */
  predicate Comment(line: seq<char>) {
    |line| > 0 && (line[0] == '#' || line[0] == '%')
  }

  /** The two node ids of an edge line. */
  function Endpoints(line: seq<char>): (nat, nat) {
    var first := Extract(line);
    (first.0, Extract(first.1).0)
  }

  /** std::vector::resize to at least n: new entries are empty lists. */
  function Grow(adj: seq<seq<nat>>, n: nat): (r: seq<seq<nat>>)
    ensures |r| == if |adj| < n then n else |adj|
    ensures forall x :: 0 <= x < |r| ==> r[x] == if x < |adj| then adj[x] else []
  {
    if |adj| < n then adj + seq(n - |adj|, _ => []) else adj
  }

  /** Appends b to a's list unless it is already there. */
  function Link(adj: seq<seq<nat>>, a: nat, b: nat): (r: seq<seq<nat>>)
    requires a < |adj|
    ensures |r| == |adj|
    ensures forall x :: 0 <= x < |adj| && x != a ==> r[x] == adj[x]
    ensures forall y :: y in r[a] <==> y in adj[a] || y == b
  {
    if VectorContains(adj[a], b) then adj else adj[a := adj[a] + [b]]
  }

  predicate Symmetric(adj: seq<seq<nat>>) {
    forall a, k :: 0 <= a < |adj| && 0 <= k < |adj[a]| ==> adj[a][k] < |adj| && a in adj[adj[a][k]]
  }

  predicate NoDuplicates(adj: seq<seq<nat>>) {
    forall a, j, k :: 0 <= a < |adj| && 0 <= j < k < |adj[a]| ==> adj[a][j] != adj[a][k]
  }

  lemma LinkKeepsNoDuplicates(adj: seq<seq<nat>>, a: nat, b: nat)
    requires a < |adj| && NoDuplicates(adj)
    ensures NoDuplicates(Link(adj, a, b))
  {
    if b !in adj[a] {
      var l := adj[a] + [b];
      assert forall j, k :: 0 <= j < k < |l| ==> l[j] != l[k];
    }
  }

  /** An edge line's effect: the list grows to cover both ids and each id becomes the other's neighbour. */
  function AddEdge(adj: seq<seq<nat>>, a: nat, b: nat): (r: seq<seq<nat>>)
    ensures |r| == if |adj| < a + 1 || |adj| < b + 1 then (if a < b then b + 1 else a + 1) else |adj|
    ensures forall x, y :: 0 <= x < |r| ==>
              (y in r[x] <==> (x < |adj| && y in adj[x]) || (x == a && y == b) || (x == b && y == a))
  {
    var grown := Grow(adj, if a < b then b + 1 else a + 1);
    Link(Link(grown, a, b), b, a)
  }

  /** An edge keeps the list symmetric and without duplicates. */
  lemma AddEdgeKeepsShape(adj: seq<seq<nat>>, a: nat, b: nat)
    requires Symmetric(adj) && NoDuplicates(adj)
    ensures Symmetric(AddEdge(adj, a, b)) && NoDuplicates(AddEdge(adj, a, b))
  {
    var grown := Grow(adj, if a < b then b + 1 else a + 1);
    assert NoDuplicates(grown);
    LinkKeepsNoDuplicates(grown, a, b);
    LinkKeepsNoDuplicates(Link(grown, a, b), b, a);
    var r := AddEdge(adj, a, b);
    forall x, k | 0 <= x < |r| && 0 <= k < |r[x]| ensures r[x][k] < |r| && x in r[r[x][k]] {
      var y := r[x][k];
      assert y in r[x];
      if x < |adj| && y in adj[x] {
        var m :| 0 <= m < |adj[x]| && adj[x][m] == y;
      }
    }
  }

  /** One line of the edge list. */
  function AddLine(adj: seq<seq<nat>>, line: seq<char>): (r: seq<seq<nat>>)
    ensures |r| >= |adj|
  {
    if Comment(line) then adj else AddEdge(adj, Endpoints(line).0, Endpoints(line).1)
  }

  /** The edges the lines name, in order: one per line that is not a comment. */
  function EdgeList(lines: seq<seq<char>>): (r: seq<(nat, nat)>)
    ensures |r| <= |lines|
    decreases |lines|
  {
    if lines == [] then []
    else
      var line := lines[|lines| - 1];
      EdgeList(lines[..|lines| - 1]) + if Comment(line) then [] else [Endpoints(line)]
  }

  /** The adjacency list after adding the given edges in order. */
  function Build(edges: seq<(nat, nat)>): (adj: seq<seq<nat>>)
    decreases |edges|
  {
    if edges == [] then [] else AddEdge(Build(edges[..|edges| - 1]), edges[|edges| - 1].0, edges[|edges| - 1].1)
  }

  /** The adjacency list after the given lines. */
  function Adjacency(lines: seq<seq<char>>): (adj: seq<seq<nat>>) {
    Build(EdgeList(lines))
  }

  /** a and b are joined by one of the edges, in either direction. */
  predicate Joined(edges: seq<(nat, nat)>, a: nat, b: nat) {
    (a, b) in edges || (b, a) in edges
  }

  /** One more line: its edge is added to the list, or nothing changes for a comment. */
  lemma AdjacencyStep(lines: seq<seq<char>>, i: nat)
    requires i < |lines|
    ensures Adjacency(lines[..i + 1]) == AddLine(Adjacency(lines[..i]), lines[i])
  {
    var init := lines[..i];
    var line := lines[i];
    assert lines[..i + 1][..i] == init;
    var edges := EdgeList(lines[..i + 1]);
    if Comment(line) {
      assert edges == EdgeList(init);
    } else {
      assert edges == EdgeList(init) + [Endpoints(line)];
      assert edges[..|edges| - 1] == EdgeList(init);
      assert edges[|edges| - 1] == Endpoints(line);
    }
  }

  /** The adjacency list built from any edges is symmetric and has no duplicates. */
  lemma {:induction false} BuildShape(edges: seq<(nat, nat)>)
    ensures Symmetric(Build(edges)) && NoDuplicates(Build(edges))
    decreases |edges|
  {
    if edges != [] {
      var e := edges[|edges| - 1];
      BuildShape(edges[..|edges| - 1]);
      AddEdgeKeepsShape(Build(edges[..|edges| - 1]), e.0, e.1);
    }
  }

  /** b is a neighbour of a exactly when an edge joins them, and every id on an edge has a list. */
  lemma {:induction false} BuildIsEdgeList(edges: seq<(nat, nat)>)
    ensures forall a: nat, b: nat :: Joined(edges, a, b) ==> a < |Build(edges)| && b < |Build(edges)|
    ensures forall a, b :: 0 <= a < |Build(edges)| ==> (b in Build(edges)[a] <==> Joined(edges, a, b))
    decreases |edges|
  {
    if edges != [] {
      var init := edges[..|edges| - 1];
      var e := edges[|edges| - 1];
      assert edges == init + [e];
      BuildIsEdgeList(init);
      var adj := Build(edges);
      forall a: nat, b: nat | Joined(edges, a, b) ensures a < |adj| && b < |adj| {
        JoinedSnoc(init, e, a, b);
      }
      forall a, b | 0 <= a < |adj| ensures b in adj[a] <==> Joined(edges, a, b) {
        JoinedSnoc(init, e, a, b);
      }
    }
  }

  lemma JoinedSnoc(edges: seq<(nat, nat)>, e: (nat, nat), a: nat, b: nat)
    ensures Joined(edges + [e], a, b) <==> Joined(edges, a, b) || e == (a, b) || e == (b, a)
  {
  }

  /** The list spans the ids up to the largest one on an edge, and no further. */
  lemma {:induction false} BuildSpan(edges: seq<(nat, nat)>)
    ensures Build(edges) != [] ==> exists e :: e in edges && (e.0 == |Build(edges)| - 1 || e.1 == |Build(edges)| - 1)
    decreases |edges|
  {
    if edges != [] {
      var init := edges[..|edges| - 1];
      var e := edges[|edges| - 1];
      assert edges == init + [e];
      BuildSpan(init);
    }
  }

  // ---------------------------------------------------------------------------
  // parseNetworkGraph

  /** The neighbour each egress queue leads to. */
  function Destinations(qs: seq<EgressQueue>): (r: seq<nat>)
    ensures |r| == |qs| && forall k :: 0 <= k < |qs| ==> r[k] == qs[k].destination
  {
    seq(|qs|, k requires 0 <= k < |qs| => qs[k].destination)
  }

  function Ascending(x: nat): (int, int) {
    (x, 0)
  }

  /** Device d of the graph was built from the neighbour list l: its queues lead to l's ids in ascending order. */
  ghost predicate DeviceFrom(g: MultiLayeredGraph, d: nat, l: seq<nat>)
    reads g
    requires g.Valid() && d < g.NumberOfNetworkNodes()
  {
    var qs := g.EgressQueuesOf(d);
    Sorting.SortedBy(Destinations(qs), Ascending) && multiset(Destinations(qs)) == multiset(l)
    && forall k :: 0 <= k < |qs| ==> qs[k].usedBy == [] && (qs[k].endDevice <==> |l| == 1)
  }

  /** The lines of an edge list whose ids stay below 2^64 - 1, so that max + 1 does not wrap in resize. */
  predicate IdsFit(lines: seq<seq<char>>) {
    forall e :: e in EdgeList(lines) ==> e.0 < SizeMax && e.1 < SizeMax
  }

  /**
   * parseNetworkGraph after the file is open: one device per id 0 .. max id, each with one
   * egress queue per neighbour, in ascending neighbour order.
   */
  method ParseNetworkGraph(lines: seq<seq<char>>) returns (g: MultiLayeredGraph)
    requires IdsFit(lines)
    ensures fresh(g) && g.Valid()
    ensures g.flows == map[] && g.configs == map[]
    ensures g.NumberOfNetworkNodes() == |Adjacency(lines)|
    ensures forall d :: 0 <= d < |Adjacency(lines)| ==> DeviceFrom(g, d, Adjacency(lines)[d])
  {
    var adj := ReadLines(lines);
    g := new MultiLayeredGraph();
    var d := 0;
    while d < |adj|
      invariant 0 <= d <= |adj|
      invariant g.Valid() && g.NumberOfNetworkNodes() == d
      invariant g.flows == map[] && g.configs == map[]
      invariant forall e :: 0 <= e < d ==> DeviceFrom(g, e, adj[e])
    {
      var sorted := Sorting.SortByKey(adj[d], Ascending);
      AddDevice(g, sorted, adj[d]);
      d := d + 1;
    }
  }

  /** The std::getline loop: each line is read into the adjacency list. */
  method ReadLines(lines: seq<seq<char>>) returns (adj: seq<seq<nat>>)
    ensures adj == Adjacency(lines)
  {
    adj := [];
    var i := 0;
    while i < |lines|
      invariant 0 <= i <= |lines|
      invariant adj == Adjacency(lines[..i])
    {
      AdjacencyStep(lines, i);
      adj := ReadLine(adj, lines[i]);
      i := i + 1;
    }
    assert lines[..i] == lines;
  }

  /** The body of the reading loop. */
  method ReadLine(adj: seq<seq<nat>>, line: seq<char>) returns (r: seq<seq<nat>>)
    ensures r == AddLine(adj, line)
  {
    if |line| > 0 && (line[0] == '#' || line[0] == '%') {
      return adj;
    }
    var a, rest := ExtractNextInteger(line);
    var b, _ := ExtractNextInteger(rest);
    r := Connect(adj, a, b);
  }

  /** The resize and the two guarded appends of one edge. */
  method Connect(adj: seq<seq<nat>>, a: nat, b: nat) returns (r: seq<seq<nat>>)
    ensures r == AddEdge(adj, a, b)
  {
    r := adj;
    var size := if a < b then b + 1 else a + 1;
    if |r| < size {
      r := r + seq(size - |r|, _ => []);
    }
    assert r == Grow(adj, size);
    ghost var grown := r;
    if !VectorContains(r[a], b) {
      r := r[a := r[a] + [b]];
    }
    assert r == Link(grown, a, b);
    ghost var linked := r;
    if !VectorContains(r[b], a) {
      r := r[b := r[b] + [a]];
    }
  }

  /** insertNetworkDevice with the sorted list; the devices before it keep their queues. */
  method AddDevice(g: MultiLayeredGraph, sorted: seq<nat>, ghost l: seq<nat>)
    requires g.Valid() && Sorting.SortedBy(sorted, Ascending) && multiset(sorted) == multiset(l)
    modifies g
    ensures g.Valid() && g.NumberOfNetworkNodes() == old(g.NumberOfNetworkNodes()) + 1
    ensures g.flows == old(g.flows) && g.configs == old(g.configs)
    ensures DeviceFrom(g, old(g.NumberOfNetworkNodes()), l)
    ensures forall e, l' :: 0 <= e < old(g.NumberOfNetworkNodes()) && old(DeviceFrom(g, e, l')) ==> DeviceFrom(g, e, l')
  {
    ghost var offsets := g.offsets;
    ghost var edges := g.edges;
    ghost var before := map e | 0 <= e < g.NumberOfNetworkNodes() :: g.EgressQueuesOf(e);
    g.InsertNetworkDevice(sorted);
    assert |sorted| == |l| by {
      assert |multiset(sorted)| == |multiset(l)|;
    }
    assert Destinations(NewQueues(|edges|, sorted)) == sorted;
    forall e | 0 <= e < |offsets| - 1 ensures g.EgressQueuesOf(e) == before[e] {
      CsrAppendKeeps(offsets, edges, sorted, g.offsets, g.edges, e);
    }
  }
}
