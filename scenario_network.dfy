/**
 * How support_tools/create_scenario.py reads a network edge list (the file the topology
 * generators write, one "source<TAB>destination" line per link) and picks the end devices: the
 * nodes with exactly one distinct neighbour. Python's str.split, int() and dict insertion order
 * are written out; opening the file is not modelled, the lines are the input.
 */
module ScenarioNetwork {
  import opened Optional
  import InputParser

  // ---------------------------------------------------------------------------------------
  // str.split and str.replace

  /** str.split(sep): the pieces between the occurrences of sep, always at least one. */
  function Split(s: string, sep: char): (parts: seq<string>)
    ensures |parts| >= 1
    ensures forall k :: 0 <= k < |parts| ==> sep !in parts[k]
  {
    if s == [] then [[]]
    else if s[0] == sep then [[]] + Split(s[1..], sep)
    else
      var rest := Split(s[1..], sep);
      [[s[0]] + rest[0]] + rest[1..]
  }

  /** sep.join(parts). */
  function Join(parts: seq<string>, sep: char): string
    requires |parts| >= 1
  {
    if |parts| == 1 then parts[0] else parts[0] + [sep] + Join(parts[1..], sep)
  }

  /** Splitting and joining back gives the original text. */
  lemma {:induction false} JoinSplit(s: string, sep: char)
    ensures Join(Split(s, sep), sep) == s
  {
    if s != [] {
      JoinSplit(s[1..], sep);
      var rest := Split(s[1..], sep);
      var parts := Split(s, sep);
      assert s == [s[0]] + s[1..];
      if s[0] == sep {
        assert parts == [[]] + rest;
        assert parts[1..] == rest;
        assert Join(parts, sep) == [] + [sep] + Join(rest, sep);
      } else {
        assert parts == [[s[0]] + rest[0]] + rest[1..];
        if |rest| == 1 {
          assert Join(parts, sep) == [s[0]] + rest[0];
        } else {
          assert parts[1..] == rest[1..];
          assert Join(rest, sep) == rest[0] + [sep] + Join(rest[1..], sep);
          assert Join(parts, sep) == ([s[0]] + rest[0]) + [sep] + Join(rest[1..], sep);
        }
      }
    }
  }

  /** Pieces free of sep, joined with sep, split back into the same pieces. */
  lemma {:induction false} SplitJoin(parts: seq<string>, sep: char)
    requires |parts| >= 1 && forall k :: 0 <= k < |parts| ==> sep !in parts[k]
    ensures Split(Join(parts, sep), sep) == parts
    decreases |parts|, |parts[0]|
  {
    var p := parts[0];
    if |parts| == 1 {
      SplitPiece(p, [], sep);
      assert p + [] == p;
    } else {
      SplitJoin(parts[1..], sep);
      SplitPiece(p, [sep] + Join(parts[1..], sep), sep);
      assert Join(parts, sep) == p + ([sep] + Join(parts[1..], sep));
      assert ([sep] + Join(parts[1..], sep))[1..] == Join(parts[1..], sep);
      assert parts == [p] + parts[1..];
    }
  }

  /** A piece free of sep in front of a text that is empty or starts with sep extends the first piece. */
  lemma {:induction false} SplitPiece(p: string, t: string, sep: char)
    requires sep !in p && (t == [] || t[0] == sep)
    ensures t == [] ==> Split(p + t, sep) == [p]
    ensures t != [] ==> Split(p + t, sep) == [p] + Split(t[1..], sep)
    decreases |p|
  {
    if p != [] {
      SplitPiece(p[1..], t, sep);
      assert (p + t)[1..] == p[1..] + t;
      assert [p[0]] + p[1..] == p;
    } else {
      assert p + t == t;
    }
  }

  /** line.replace('\r', '').replace('\n', ''). */
  function Strip(s: string): (r: string)
    ensures '\r' !in r && '\n' !in r && |r| <= |s|
  {
    if s == [] then []
    else (if s[0] == '\r' || s[0] == '\n' then [] else [s[0]]) + Strip(s[1..])
  }

  /** Stripping removes exactly the carriage returns and line feeds: text without them is kept. */
  lemma {:induction false} StripKeeps(s: string, t: string)
    requires '\r' !in s && '\n' !in s
    ensures Strip(s + t) == s + Strip(t)
  {
    if s != [] {
      StripKeeps(s[1..], t);
      assert (s + t)[1..] == s[1..] + t;
      assert [s[0]] + s[1..] == s;
    } else {
      assert s + t == t;
    }
  }

  // ---------------------------------------------------------------------------------------
  // int()

  /** The value of a string of decimal digits, with unbounded integers. */
  function DigitsValue(s: string): nat
    requires forall k :: 0 <= k < |s| ==> InputParser.IsDigit(s[k])
  {
    if s == [] then 0
    else
      assert InputParser.IsDigit(s[|s| - 1]);
      DigitsValue(s[..|s| - 1]) * 10 + (s[|s| - 1] as int - '0' as int)
  }

  /**
   * int(text) for an optional sign and one or more digits; anything else raises ValueError (None).
   * The whitespace and digit separators Python also accepts are not modelled.
   */
  function ParseInt(s: string): (r: Option<int>)
    ensures r.Some? ==> |s| > 0
  {
    var sign := if s != [] && (s[0] == '-' || s[0] == '+') then 1 else 0;
    var digits := s[sign..];
    if digits == [] || exists k :: 0 <= k < |digits| && !InputParser.IsDigit(digits[k]) then None
    else
      var magnitude: int := DigitsValue(digits);
      Some(if sign == 1 && s[0] == '-' then -magnitude else magnitude)
  }

  /** str(n) for an integer. */
  function IntText(n: int): string {
    if n < 0 then ['-'] + InputParser.Decimal(-n) else InputParser.Decimal(n)
  }

  lemma {:induction false} DigitsValueDecimal(n: nat)
    ensures DigitsValue(InputParser.Decimal(n)) == n
  {
    var s := InputParser.Decimal(n);
    if n >= 10 {
      DigitsValueDecimal(n / 10);
      assert s[..|s| - 1] == InputParser.Decimal(n / 10);
    }
  }

  /** int() reads back what str() wrote. */
  lemma ParseIntText(n: int)
    ensures ParseInt(IntText(n)) == Some(n)
  {
    var s := IntText(n);
    if n < 0 {
      DigitsValueDecimal(-n);
      assert s[1..] == InputParser.Decimal(-n);
    } else {
      DigitsValueDecimal(n);
    }
  }

  // ---------------------------------------------------------------------------------------
  // One line of the edge list

  datatype LineResult = Skipped | Link(v1: int, v2: int) | Malformed

  /**
   * A comment ('#' or '%') or a line shorter than 3 characters is skipped. Otherwise the line is
   * split at tabs when it has one, else at spaces, after removing '\r' and '\n', and the first
   * two pieces are read as integers; fewer than two pieces or a piece int() rejects is an error.
   */
  function ReadLine(line: string): (r: LineResult)
    ensures r.Link? ==> |line| >= 3 && line[0] != '#' && line[0] != '%'
    ensures r.Skipped? <==> |line| < 3 || line[0] == '#' || line[0] == '%'
  {
    if |line| < 3 || line[0] == '#' || line[0] == '%' then Skipped
    else
      var separator := if '\t' in line then '\t' else ' ';
      var split := Split(Strip(line), separator);
      if |split| < 2 then Malformed
      else
        match (ParseInt(split[0]), ParseInt(split[1]))
        case (Some(v1), Some(v2)) => Link(v1, v2)
        case _ => Malformed
  }

  /**
   * The line create_network_graph.py writes for an edge, "u<TAB>v<LF>", is read back as that
   * edge: the two tools agree on the file format.
   */
  lemma ReadsWrittenLink(u: int, v: int)
    ensures ReadLine(IntText(u) + ['\t'] + IntText(v) + ['\n']) == Link(u, v)
  {
    var a, b := IntText(u), IntText(v);
    var line := a + ['\t'] + b + ['\n'];
    WrittenLineHead(u, v);
    WrittenLineSplit(u, v);
    assert |line| >= 3 && line[0] != '#' && line[0] != '%' && '\t' in line;
    var split := Split(Strip(line), '\t');
    assert split == [a, b];
    ParseIntText(u);
    ParseIntText(v);
    assert ParseInt(split[0]) == Some(u) && ParseInt(split[1]) == Some(v);
  }

  /** A written edge line is long enough, is no comment and holds a tab. */
  lemma WrittenLineHead(u: int, v: int)
    ensures var line := IntText(u) + ['\t'] + IntText(v) + ['\n'];
      |line| >= 3 && line[0] != '#' && line[0] != '%' && '\t' in line
  {
    var a, b := IntText(u), IntText(v);
    var line := a + ['\t'] + b + ['\n'];
    assert line[|a|] == '\t';
    assert line[0] == a[0];
    if u >= 0 {
      assert InputParser.IsDigit(a[0]);
    }
  }

  /** Stripping a written edge line and splitting it at the tab gives back the two numbers. */
  lemma WrittenLineSplit(u: int, v: int)
    ensures var a, b := IntText(u), IntText(v);
      Split(Strip(a + ['\t'] + b + ['\n']), '\t') == [a, b]
  {
    var a, b := IntText(u), IntText(v);
    var line := a + ['\t'] + b + ['\n'];
    NoControl(u);
    NoControl(v);
    assert line == (a + ['\t'] + b) + ['\n'];
    StripKeeps(a + ['\t'] + b, ['\n']);
    assert Strip(['\n']) == [];
    assert Strip(line) == a + ['\t'] + b;
    assert a + ['\t'] + b == Join([a, b], '\t');
    SplitJoin([a, b], '\t');
  }

  /** Written integers hold no tab, carriage return or line feed. */
  lemma NoControl(n: int)
    ensures '\t' !in IntText(n) && '\r' !in IntText(n) && '\n' !in IntText(n)
  {
    var d := InputParser.Decimal(if n < 0 then -n else n);
    assert forall k :: 0 <= k < |d| ==> InputParser.IsDigit(d[k]);
    if n < 0 {
      assert IntText(n) == ['-'] + d;
    }
  }

  // ---------------------------------------------------------------------------------------
  // The graph dictionary

  /** The links of the lines, in order, or None when a line is malformed. */
  function Links(lines: seq<string>): Option<seq<(int, int)>> {
    if lines == [] then Some([])
    else
      match Links(lines[..|lines| - 1])
      case None => None
      case Some(links) =>
        match ReadLine(lines[|lines| - 1])
        case Skipped => Some(links)
        case Link(v1, v2) => Some(links + [(v1, v2)])
        case Malformed => None
  }

  /** The dictionary's keys in insertion order: each link adds v1, then v2, when new. */
  function KeyOrder(links: seq<(int, int)>): seq<int> {
    if links == [] then []
    else
      var keys := KeyOrder(links[..|links| - 1]);
      var (v1, v2) := links[|links| - 1];
      var keys' := if v1 in keys then keys else keys + [v1];
      if v2 in keys' then keys' else keys' + [v2]
  }

  /** graph[x]: the other end of every link at x, in link order; a self-loop lists x twice. */
  function Neighbours(links: seq<(int, int)>, x: int): seq<int> {
    if links == [] then []
    else
      var (v1, v2) := links[|links| - 1];
      Neighbours(links[..|links| - 1], x) + (if v1 == x then [v2] else []) + (if v2 == x then [v1] else [])
  }

  predicate Endpoint(links: seq<(int, int)>, x: int) {
    exists k :: 0 <= k < |links| && (links[k].0 == x || links[k].1 == x)
  }

  /** The keys are the link endpoints, each once. */
  lemma {:induction false} KeyOrderShape(links: seq<(int, int)>)
    ensures forall x :: x in KeyOrder(links) <==> Endpoint(links, x)
    ensures forall i, j :: 0 <= i < j < |KeyOrder(links)| ==> KeyOrder(links)[i] != KeyOrder(links)[j]
  {
    if links != [] {
      var init := links[..|links| - 1];
      KeyOrderShape(init);
      forall x ensures Endpoint(links, x) <==> Endpoint(init, x) || x == links[|links| - 1].0 || x == links[|links| - 1].1 {
        if Endpoint(links, x) {
          var k :| 0 <= k < |links| && (links[k].0 == x || links[k].1 == x);
          if k < |init| {
            assert init[k] == links[k];
          }
        }
        if Endpoint(init, x) {
          var k :| 0 <= k < |init| && (init[k].0 == x || init[k].1 == x);
          assert links[k] == init[k];
        }
      }
    }
  }

  /** The links are undirected: y is listed at x exactly as often as x is listed at y. */
  lemma {:induction false} NeighboursSymmetric(links: seq<(int, int)>, x: int, y: int)
    ensures multiset(Neighbours(links, x))[y] == multiset(Neighbours(links, y))[x]
  {
    if links != [] {
      NeighboursSymmetric(links[..|links| - 1], x, y);
    }
  }

  /** A malformed line makes the whole file fail, whatever follows it. */
  lemma {:induction false} LinksNonePersists(lines: seq<string>, i: nat)
    requires i <= |lines| && Links(lines[..i]).None?
    ensures Links(lines).None?
    decreases |lines|
  {
    if i < |lines| {
      var init := lines[..|lines| - 1];
      assert init[..i] == lines[..i];
      LinksNonePersists(init, i);
    } else {
      assert lines[..i] == lines;
    }
  }

  /** What the reading loop keeps: keys is the insertion order of graph, built from links. */
  ghost predicate Loaded(links: seq<(int, int)>, keys: seq<int>, graph: map<int, seq<int>>) {
    && keys == KeyOrder(links)
    && (forall x :: x in graph <==> x in keys)
    && (forall x :: x in graph ==> graph[x] == Neighbours(links, x))
  }

  /**
   * The reading loop and the dictionary it fills: `keys` is the insertion order of `graph`.
   * A malformed line raises (None).
   */
  method LoadNetwork(lines: seq<string>) returns (r: Option<(seq<int>, map<int, seq<int>>)>)
    ensures r.None? <==> Links(lines).None?
    ensures r.Some? ==> Loaded(Links(lines).value, r.value.0, r.value.1)
  {
    var keys: seq<int> := [];
    var graph: map<int, seq<int>> := map[];
    ghost var links: seq<(int, int)> := [];
    var i := 0;
    while i < |lines|
      invariant i <= |lines|
      invariant Links(lines[..i]) == Some(links)
      invariant Loaded(links, keys, graph)
    {
      assert lines[..i + 1][..i] == lines[..i];
      match ReadLine(lines[i]) {
        case Skipped =>
        case Malformed =>
          LinksNonePersists(lines, i + 1);
          return None;
        case Link(v1, v2) =>
          keys, graph := AddLink(links, keys, graph, v1, v2);
          links := links + [(v1, v2)];
      }
      i := i + 1;
    }
    assert lines[..i] == lines;
    return Some((keys, graph));
  }

  /** The body of the reading loop for one link: both ends become keys, each lists the other. */
  method AddLink(ghost links: seq<(int, int)>, keys: seq<int>, graph: map<int, seq<int>>, v1: int, v2: int)
    returns (keys': seq<int>, graph': map<int, seq<int>>)
    requires Loaded(links, keys, graph)
    ensures Loaded(links + [(v1, v2)], keys', graph')
  {
    keys', graph' := keys, graph;
    if v1 !in graph' {
      NeighboursAbsent(links, v1);
      graph' := graph'[v1 := []];
      keys' := keys' + [v1];
    }
    if v2 !in graph' {
      NeighboursAbsent(links, v2);
      graph' := graph'[v2 := []];
      keys' := keys' + [v2];
    }
    graph' := graph'[v1 := graph'[v1] + [v2]];
    graph' := graph'[v2 := graph'[v2] + [v1]];
    var links' := links + [(v1, v2)];
    assert links'[..|links|] == links;
    assert keys' == KeyOrder(links');
    forall x | x in graph' ensures graph'[x] == Neighbours(links', x) {
      NeighboursStep(links, v1, v2, x);
    }
  }

  /** A new link adds its other end to the neighbours of each of its ends. */
  lemma NeighboursStep(links: seq<(int, int)>, v1: int, v2: int, x: int)
    ensures Neighbours(links + [(v1, v2)], x) == Neighbours(links, x) + (if v1 == x then [v2] else []) + (if v2 == x then [v1] else [])
  {
    assert (links + [(v1, v2)])[..|links|] == links;
  }

  /** A node outside the key order has no neighbours yet. */
  lemma NeighboursAbsent(links: seq<(int, int)>, x: int)
    requires x !in KeyOrder(links)
    ensures Neighbours(links, x) == []
  {
    KeyOrderShape(links);
    NeighboursOfNonEndpoint(links, x);
  }

  lemma {:induction false} NeighboursOfNonEndpoint(links: seq<(int, int)>, x: int)
    requires !Endpoint(links, x)
    ensures Neighbours(links, x) == []
  {
    if links != [] {
      var init := links[..|links| - 1];
      forall k | 0 <= k < |init| ensures init[k].0 != x && init[k].1 != x {
        assert links[k] == init[k];
      }
      NeighboursOfNonEndpoint(init, x);
    }
  }

  // ---------------------------------------------------------------------------------------
  // End devices

  /** len(set(value)) == 1: every neighbour is the same node. */
  predicate OneNeighbour(adjacent: seq<int>) {
    |adjacent| > 0 && forall k :: 0 <= k < |adjacent| ==> adjacent[k] == adjacent[0]
  }

  /** A list has exactly one distinct element iff OneNeighbour holds. */
  lemma OneNeighbourIsOneElement(adjacent: seq<int>)
    ensures OneNeighbour(adjacent) <==> |set y | y in adjacent| == 1
  {
    var s := set y | y in adjacent;
    if OneNeighbour(adjacent) {
      assert s == {adjacent[0]};
    } else if adjacent == [] {
      assert s == {};
    } else {
      var k :| 0 <= k < |adjacent| && adjacent[k] != adjacent[0];
      assert {adjacent[0], adjacent[k]} <= s;
      assert |{adjacent[0], adjacent[k]}| == 2;
      SubsetCard({adjacent[0], adjacent[k]}, s);
    }
  }

  lemma SubsetCard(a: set<int>, b: set<int>)
    requires a <= b
    ensures |a| <= |b|
  {
    assert b == a + (b - a);
  }

  /** The keys, in their order, whose neighbour list holds one distinct node. */
  function EndKeys(keys: seq<int>, graph: map<int, seq<int>>): (ds: seq<int>)
    requires forall k :: 0 <= k < |keys| ==> keys[k] in graph
    ensures forall x :: x in ds <==> x in keys && x in graph && OneNeighbour(graph[x])
    ensures |ds| <= |keys|
    decreases |keys|
  {
    if keys == [] then []
    else
      var init := keys[..|keys| - 1];
      var last := keys[|keys| - 1];
      assert keys == init + [last];
      EndKeys(init, graph) + (if OneNeighbour(graph[last]) then [last] else [])
  }

  /** No value occurs twice. */
  predicate Unique(s: seq<int>) {
    forall i, j :: 0 <= i < j < |s| ==> s[i] != s[j]
  }

  /** Dictionary keys are distinct, and so are the end devices drawn from them. */
  lemma {:induction false} EndKeysDistinct(keys: seq<int>, graph: map<int, seq<int>>)
    requires forall k :: 0 <= k < |keys| ==> keys[k] in graph
    requires Unique(keys)
    ensures Unique(EndKeys(keys, graph))
    decreases |keys|
  {
    if keys != [] {
      var init := keys[..|keys| - 1];
      var last := keys[|keys| - 1];
      assert keys == init + [last];
      EndKeysDistinct(init, graph);
      var pre := EndKeys(init, graph);
      assert Unique(pre);
      assert last !in pre;
      if OneNeighbour(graph[last]) {
        var ds := pre + [last];
        assert EndKeys(keys, graph) == ds;
        forall i, j | 0 <= i < j < |ds| ensures ds[i] != ds[j] {
          assert ds[i] == pre[i];
          if j == |pre| {
            assert pre[i] in pre;
          } else {
            assert ds[j] == pre[j];
          }
        }
      } else {
        assert EndKeys(keys, graph) == pre;
      }
    }
  }

  /** The loop over the keys of the neighbour dictionary (lines 141 to 144). */
  method EndDevices(keys: seq<int>, graph: map<int, seq<int>>) returns (devices: seq<int>)
    requires forall k :: 0 <= k < |keys| ==> keys[k] in graph
    ensures devices == EndKeys(keys, graph)
    ensures forall x :: x in devices <==> x in keys && x in graph && OneNeighbour(graph[x])
  {
    devices := [];
    var i := 0;
    while i < |keys|
      invariant 0 <= i <= |keys|
      invariant devices == EndKeys(keys[..i], graph)
    {
      assert keys[..i + 1][..i] == keys[..i];
      var value := graph[keys[i]];
      var single := |value| > 0;
      var k := 0;
      while k < |value|
        invariant k <= |value|
        invariant single <==> |value| > 0 && forall m :: 0 <= m < k ==> value[m] == value[0]
      {
        single := single && value[k] == value[0];
        k := k + 1;
      }
      if single {
        devices := devices + [keys[i]];
      }
      i := i + 1;
    }
    assert keys[..i] == keys;
  }

  /** A link at x: one of its ends is x. */
  predicate At(link: (int, int), x: int) {
    link.0 == x || link.1 == x
  }

  /**
   * In a loaded graph, a link endpoint is an end device exactly when all its links lead to one
   * and the same node.
   */
  lemma EndDevicesOfLinks(links: seq<(int, int)>, x: int)
    requires Endpoint(links, x)
    ensures OneNeighbour(Neighbours(links, x)) <==>
      forall k, j :: 0 <= k < |links| && 0 <= j < |links| && At(links[k], x) && At(links[j], x) ==> Other(links[k], x) == Other(links[j], x)
  {
    var k0 :| 0 <= k0 < |links| && (links[k0].0 == x || links[k0].1 == x);
    NeighboursListsOthers(links, x);
    NeighboursNonEmpty(links, x, k0);
    var n := Neighbours(links, x);
    if OneNeighbour(n) {
      forall k, j | 0 <= k < |links| && 0 <= j < |links| && At(links[k], x) && At(links[j], x) ensures Other(links[k], x) == Other(links[j], x) {
        NeighboursHasOther(links, x, k);
        NeighboursHasOther(links, x, j);
      }
    } else {
      var m :| 0 <= m < |n| && n[m] != n[0];
      assert ListedOther(links, x, n[0]) && ListedOther(links, x, n[m]);
      var k :| 0 <= k < |links| && At(links[k], x) && Other(links[k], x) == n[0];
      var j :| 0 <= j < |links| && At(links[j], x) && Other(links[j], x) == n[m];
      assert Other(links[k], x) != Other(links[j], x);
    }
  }

  /** The end of a link at x that is not x (x itself for a self-loop). */
  function Other(link: (int, int), x: int): int {
    if link.0 == x then link.1 else link.0
  }

  /** y is the other end of some link at x. */
  predicate ListedOther(links: seq<(int, int)>, x: int, y: int) {
    exists k :: 0 <= k < |links| && At(links[k], x) && Other(links[k], x) == y
  }

  /** Every entry of graph[x] is the other end of a link at x. */
  lemma {:induction false} NeighboursListsOthers(links: seq<(int, int)>, x: int)
    ensures forall m :: 0 <= m < |Neighbours(links, x)| ==> ListedOther(links, x, Neighbours(links, x)[m])
  {
    if links != [] {
      var init := links[..|links| - 1];
      NeighboursListsOthers(init, x);
      var n := Neighbours(links, x);
      var last := |links| - 1;
      var (v1, v2) := links[last];
      assert n == Neighbours(init, x) + (if v1 == x then [v2] else []) + (if v2 == x then [v1] else []);
      forall m | 0 <= m < |n| ensures ListedOther(links, x, n[m]) {
        if m < |Neighbours(init, x)| {
          assert ListedOther(init, x, Neighbours(init, x)[m]);
          var k :| 0 <= k < |init| && At(init[k], x) && Other(init[k], x) == Neighbours(init, x)[m];
          assert links[k] == init[k];
        } else {
          assert links[last] == (v1, v2);
          if v1 == x {
            assert Other(links[last], x) == v2;
          } else {
            assert v2 == x && Other(links[last], x) == v1;
          }
        }
      }
    }
  }

  /** The other end of every link at x is listed in graph[x]. */
  lemma {:induction false} NeighboursHasOther(links: seq<(int, int)>, x: int, k: nat)
    requires k < |links| && At(links[k], x)
    ensures Other(links[k], x) in Neighbours(links, x)
  {
    var init := links[..|links| - 1];
    if k < |init| {
      assert links[k] == init[k];
      NeighboursHasOther(init, x, k);
    }
  }

  lemma NeighboursNonEmpty(links: seq<(int, int)>, x: int, k: nat)
    requires k < |links| && At(links[k], x)
    ensures |Neighbours(links, x)| > 0
  {
    NeighboursHasOther(links, x, k);
  }
}
