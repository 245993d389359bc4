/**
  The colouring pass of `create_directory_graph`: `max_size` over the size
  attributes, and for each node the number its colour is computed from (its
  own size when positive, otherwise the summed size of its descendants).
 */
module NodeWeights {
  import opened Wrappers
  import opened Sums
  import opened PathNames
  import opened Metadata
  import opened HierarchyGraph
  import opened SeqFacts

  /** `p` is a walk in the undirected graph: consecutive nodes are joined by an edge. */
  ghost predicate IsPath(edges: set<set<Node>>, p: seq<Node>) {
    |p| >= 1 && forall i :: 0 <= i < |p| - 1 ==> {p[i], p[i + 1]} in edges
  }

  /** `b` can be reached from `a`, following edges either way. */
  ghost predicate Reachable(edges: set<set<Node>>, a: Node, b: Node) {
    exists p :: IsPath(edges, p) && p[0] == a && p[|p| - 1] == b
  }

  /** Two paths that start with the same part (the same root or first name). */
  predicate SameTop(m: Node, n: Node) {
    |m| >= 1 && |n| >= 1 && m[0] == n[0]
  }

  /** Every other node with the same top-level part as `n`. */
  function Component(nodes: set<Node>, n: Node): (r: set<Node>)
    ensures r <= nodes && n !in r
  {
    set m | m in nodes && m != n && SameTop(m, n)
  }

  /** `nx.descendants(G, n)`: every other node reachable from `n`. */
  ghost function Descendants(nodes: set<Node>, edges: set<set<Node>>, n: Node): (r: set<Node>)
    ensures r <= nodes && n !in r
  {
    set m | m in nodes && m != n && Reachable(edges, n, m)
  }

  lemma ReachableStep(edges: set<set<Node>>, a: Node, b: Node, c: Node)
    requires Reachable(edges, a, b) && {b, c} in edges
    ensures Reachable(edges, a, c)
  {
    var p :| IsPath(edges, p) && p[0] == a && p[|p| - 1] == b;
    var q := p + [c];
    assert forall i :: 0 <= i < |q| - 1 ==> q[i] == p[i] || i == |p| - 1;
    assert IsPath(edges, q);
  }

  lemma ReachableSym(edges: set<set<Node>>, a: Node, b: Node)
    requires Reachable(edges, a, b)
    ensures Reachable(edges, b, a)
  {
    var p :| IsPath(edges, p) && p[0] == a && p[|p| - 1] == b;
    var q := seq(|p|, i requires 0 <= i < |p| => p[|p| - 1 - i]);
    forall i | 0 <= i < |q| - 1
      ensures {q[i], q[i + 1]} in edges
    {
      var j := |p| - 2 - i;
      assert {p[j], p[j + 1]} in edges;
      assert q[i] == p[j + 1] && q[i + 1] == p[j];
      assert {q[i], q[i + 1]} == {p[j], p[j + 1]};
    }
    assert IsPath(edges, q) && q[0] == b && q[|q| - 1] == a;
  }

  lemma {:induction false} ReachableTrans(edges: set<set<Node>>, a: Node, b: Node, c: Node)
    requires Reachable(edges, a, b) && Reachable(edges, b, c)
    ensures Reachable(edges, a, c)
  {
    var q :| IsPath(edges, q) && q[0] == b && q[|q| - 1] == c;
    ReachableAlong(edges, a, q, |q| - 1);
  }

  lemma {:induction false} ReachableAlong(edges: set<set<Node>>, a: Node, q: seq<Node>, i: nat)
    requires IsPath(edges, q) && i < |q| && Reachable(edges, a, q[0])
    ensures Reachable(edges, a, q[i])
  {
    if i > 0 {
      ReachableAlong(edges, a, q, i - 1);
      ReachableStep(edges, a, q[i - 1], q[i]);
    }
  }

  /** Every node reaches itself. */
  lemma ReachableRefl(edges: set<set<Node>>, a: Node)
    ensures Reachable(edges, a, a)
  {
    assert IsPath(edges, [a]);
  }

  /** The two ends of an edge reach each other. */
  lemma ReachableEdge(edges: set<set<Node>>, a: Node, b: Node)
    requires {a, b} in edges
    ensures Reachable(edges, a, b)
  {
    ReachableRefl(edges, a);
    ReachableStep(edges, a, a, b);
  }

  /** When every node below the top level is joined to its parent, every node reaches its top-level node. */
  lemma {:induction false} ReachesTop(nodes: set<Node>, edges: set<set<Node>>, u: Node)
    requires ParentsJoined(nodes, edges) && u in nodes && |u| >= 1
    ensures Reachable(edges, u, u[..1])
    decreases |u|
  {
    if |u| == 1 {
      assert u[..1] == u;
      ReachableRefl(edges, u);
    } else {
      var v := Parent(u);
      assert {v, u} == {u, v};
      ReachableEdge(edges, u, v);
      ReachesTop(nodes, edges, v);
      assert v[..1] == u[..1];
      ReachableTrans(edges, u, v, v[..1]);
    }
  }

  /** Along a walk from a node of a hierarchy, every node is a node with the same top-level part. */
  lemma {:induction false} PathKeepsTop(nodes: set<Node>, edges: set<set<Node>>, p: seq<Node>, i: nat)
    requires ParentsJoined(nodes, edges) && EdgesToParents(nodes, edges)
    requires IsPath(edges, p) && p[0] in nodes && |p[0]| >= 1 && i < |p|
    ensures p[i] in nodes && SameTop(p[i], p[0])
  {
    if i > 0 {
      PathKeepsTop(nodes, edges, p, i - 1);
      EdgeKeepsTop(nodes, edges, p[i - 1], p[i]);
    }
  }

  /** Following one edge from a node leads to a node with the same top-level part. */
  lemma EdgeKeepsTop(nodes: set<Node>, edges: set<set<Node>>, a: Node, b: Node)
    requires ParentsJoined(nodes, edges) && EdgesToParents(nodes, edges)
    requires a in nodes && {a, b} in edges
    ensures b in nodes && |b| >= 1 && (|a| >= 1 ==> SameTop(a, b))
  {
    var m :| m in nodes && |m| >= 2 && {a, b} == {Parent(m), m};
    assert a in {Parent(m), m} && b in {Parent(m), m};
    assert Parent(m)[0] == m[0];
  }

  /**
    In a hierarchy, which is undirected, `nx.descendants` of a node is its
    whole connected component: every other node with the same top-level part,
    whether above, below or beside it.
   */
  lemma DescendantsAreComponent(nodes: set<Node>, edges: set<set<Node>>, n: Node)
    requires Hierarchy(nodes, edges) && n in nodes
    ensures Descendants(nodes, edges, n) == Component(nodes, n)
  {
    forall m | m in nodes && m != n
      ensures Reachable(edges, n, m) <==> SameTop(m, n)
    {
      ReachableIffSameTop(nodes, edges, n, m);
    }
  }

  lemma ReachableIffSameTop(nodes: set<Node>, edges: set<set<Node>>, n: Node, m: Node)
    requires Hierarchy(nodes, edges) && n in nodes && m in nodes
    ensures Reachable(edges, n, m) <==> SameTop(m, n)
  {
    if Reachable(edges, n, m) {
      var p :| IsPath(edges, p) && p[0] == n && p[|p| - 1] == m;
      PathKeepsTop(nodes, edges, p, |p| - 1);
    }
    if SameTop(m, n) {
      ReachesTop(nodes, edges, n);
      ReachesTop(nodes, edges, m);
      assert m[..1] == n[..1];
      ReachableSym(edges, m, m[..1]);
      ReachableTrans(edges, n, n[..1], m);
    }
  }

  /**
    The directory size as line 147 computes it: the sizes summed over
    `nx.descendants(G, node)`, which on the undirected graph is the node's
    whole component.
   */
  ghost function DirSizeAsWritten(nodes: set<Node>, edges: set<set<Node>>, size: map<Node, nat>, n: Node): (r: nat)
    requires nodes <= size.Keys
    ensures Hierarchy(nodes, edges) && n in nodes ==> r == SumOver(Component(nodes, n), size)
  {
    if Hierarchy(nodes, edges) && n in nodes then
      DescendantsAreComponent(nodes, edges, n);
      SumOver(Descendants(nodes, edges, n), size)
    else
      SumOver(Descendants(nodes, edges, n), size)
  }

  /** The nodes strictly below `n` in the hierarchy: its subdirectories and files at any depth. */
  function Below(nodes: set<Node>, n: Node): set<Node> {
    set m | m in nodes && |n| < |m| && m[..|n|] == n
  }

  /** The evidently intended directory size: the sizes summed over the nodes below it. */
  ghost function SubtreeSize(nodes: set<Node>, size: map<Node, nat>, n: Node): nat
    requires nodes <= size.Keys
  {
    SumOver(Below(nodes, n), size)
  }

  /** The nodes below a node are among its descendants, so line 147 never counts less. */
  lemma SubtreeWithinDescendants(nodes: set<Node>, edges: set<set<Node>>, size: map<Node, nat>, n: Node)
    requires Hierarchy(nodes, edges) && n in nodes && nodes <= size.Keys
    ensures Below(nodes, n) <= Descendants(nodes, edges, n)
    ensures SubtreeSize(nodes, size, n) <= DirSizeAsWritten(nodes, edges, size, n)
  {
    DescendantsAreComponent(nodes, edges, n);
    forall m | m in Below(nodes, n)
      ensures SameTop(m, n)
    {
      assert m[..|n|][0] == m[0];
    }
    SumOverSubset(Below(nodes, n), Descendants(nodes, edges, n), size);
  }

  /** The records of `root/a/f1` (100 bytes) and `root/b/f2` (300 bytes), with the paths the walk joins. */
  function SiblingRecords(): seq<FileRecord> {
    [FileRecord(Join(Join("root", "a"), "f1"), 100),
     FileRecord(Join(Join("root", "b"), "f2"), 300)]
  }

  lemma SiblingParts()
    ensures Rows(SiblingRecords()) == [Row(["root", "a", "f1"], 100), Row(["root", "b", "f2"], 300)]
  {
    var rs := SiblingRecords();
    var r := Rows(rs);
    SiblingPathParts(rs[0].path, rs[1].path);
    assert r[0] == Row(["root", "a", "f1"], 100);
    assert r[1] == Row(["root", "b", "f2"], 300);
  }

  lemma SiblingPathParts(p: string, q: string)
    requires p == Join(Join("root", "a"), "f1") && q == Join(Join("root", "b"), "f2")
    ensures Parts(p) == ["root", "a", "f1"] && Parts(q) == ["root", "b", "f2"]
  {
    assert ValidName("root") && ValidName("a") && ValidName("b") && ValidName("f1") && ValidName("f2");
    PartsOfNestedJoin("root", "a", "f1");
    PartsOfNestedJoin("root", "b", "f2");
  }

  lemma PartsOfNestedJoin(top: string, mid: string, leaf: string)
    requires ValidName(top) && ValidName(mid) && ValidName(leaf)
    ensures Parts(Join(Join(top, mid), leaf)) == [top, mid, leaf]
  {
    PartsOfName(top);
    PartsOfJoin(top, mid);
    PartsOfJoin(Join(top, mid), leaf);
  }

  lemma PrefixesOfThree(p: Node)
    requires |p| == 3
    ensures Prefixes(p) == {p[..1], p[..2], p}
  {
    assert Prefixes(p) == Prefixes(p[..2]) + {p};
    assert p[..2][..1] == p[..1];
    assert Prefixes(p[..2]) == Prefixes(p[..1]) + {p[..2]};
    assert p[..1][..0] == [];
    assert Prefixes(p[..1]) == {} + {p[..1]};
  }

  /**
    Line 147 as written: for `root/a`, which holds only the 100-byte file, the
    summed size also counts the 300 bytes of its sibling `root/b/f2`.
   */
  lemma DirSizeCountsSiblings()
    ensures var rs := Rows(SiblingRecords());
      var nodes, edges, size := NodesOf(rs), EdgesOf(rs), SizesOf(rs);
      nodes <= size.Keys && ["root", "a"] in nodes &&
      size[["root", "a"]] == 0 &&
      DirSizeAsWritten(nodes, edges, size, ["root", "a"]) == 400 &&
      SubtreeSize(nodes, size, ["root", "a"]) == 100
  {
    SiblingParts();
    SiblingTrees(Rows(SiblingRecords()), "root", "a", "f1", "b", "f2");
  }

  /**
    Two files in sibling directories `t/x/f` and `t/y/g`: the size line 147
    gives `t/x` is the sum of both files, while the subtree holds only the first.
   */
  lemma SiblingTrees(rs: seq<Row>, t: string, x: string, f: string, y: string, g: string)
    requires |rs| == 2 && x != y
    requires rs[0].parts == [t, x, f] && rs[1].parts == [t, y, g]
    ensures var nodes, edges, size := NodesOf(rs), EdgesOf(rs), SizesOf(rs);
      nodes <= size.Keys && [t, x] in nodes && size[[t, x]] == 0 &&
      DirSizeAsWritten(nodes, edges, size, [t, x]) == rs[0].sizeBytes + rs[1].sizeBytes &&
      SubtreeSize(nodes, size, [t, x]) == rs[0].sizeBytes
  {
    var p1: Node := [t, x, f];
    var p2: Node := [t, y, g];
    var r, a, b: Node := [t], [t, x], [t, y];
    SiblingNodes(rs, t, x, f, y, g);
    var nodes := NodesOf(rs);
    SiblingSizes(rs, t, x, f, y, g);
    var size := SizesOf(rs);
    BuiltGraphIsHierarchy(rs);
    DescendantsAreComponent(nodes, EdgesOf(rs), a);
    SiblingComponent(nodes, t, x, f, y, g);
    SumOfFour(size, r, p1, b, p2);
    SiblingBelow(nodes, t, x, f, y, g);
    SumOverSingleton(p1, size);
  }

  lemma SiblingNodes(rs: seq<Row>, t: string, x: string, f: string, y: string, g: string)
    requires |rs| == 2
    requires rs[0].parts == [t, x, f] && rs[1].parts == [t, y, g]
    ensures NodesOf(rs) == {[t], [t, x], [t, x, f], [t, y], [t, y, g]}
  {
    var p1: Node := [t, x, f];
    var p2: Node := [t, y, g];
    assert p1[..2] == [t, x] && p1[..1] == [t] && p2[..2] == [t, y] && p2[..1] == [t];
    PrefixesOfThree(p1);
    PrefixesOfThree(p2);
    NodesOfTwo(rs);
  }

  lemma SiblingSizes(rs: seq<Row>, t: string, x: string, f: string, y: string, g: string)
    requires |rs| == 2 && x != y
    requires rs[0].parts == [t, x, f] && rs[1].parts == [t, y, g]
    requires NodesOf(rs) == {[t], [t, x], [t, x, f], [t, y], [t, y, g]}
    ensures var size := SizesOf(rs);
      NodesOf(rs) <= size.Keys &&
      size[[t]] == 0 && size[[t, x]] == 0 && size[[t, y]] == 0 &&
      size[[t, x, f]] == rs[0].sizeBytes && size[[t, y, g]] == rs[1].sizeBytes
  {
    SizesKeys(rs);
    SiblingLeafSizes(rs, t, x, f, y, g);
    SiblingInnerSize(rs, [t]);
    SiblingInnerSize(rs, [t, x]);
    SiblingInnerSize(rs, [t, y]);
  }

  lemma SiblingLeafSizes(rs: seq<Row>, t: string, x: string, f: string, y: string, g: string)
    requires |rs| == 2 && x != y
    requires rs[0].parts == [t, x, f] && rs[1].parts == [t, y, g]
    ensures var size := SizesOf(rs);
      [t, x, f] in size && [t, y, g] in size &&
      size[[t, x, f]] == rs[0].sizeBytes && size[[t, y, g]] == rs[1].sizeBytes
  {
    forall j | 0 < j < |rs|
      ensures !PrefixNode(rs[0].parts, rs[j].parts)
    {
      assert j == 1;
      assert [t, y, g][..3] == [t, y, g];
    }
    LeafNodeSize(rs, 0);
    LeafNodeSize(rs, 1);
  }

  lemma SiblingInnerSize(rs: seq<Row>, n: Node)
    requires |rs| == 2 && |n| < 3 && n in NodesOf(rs)
    requires |rs[0].parts| == 3 && |rs[1].parts| == 3
    ensures n in SizesOf(rs) && SizesOf(rs)[n] == 0
  {
    forall k | 0 <= k < |rs|
      ensures rs[k].parts != n
    {
      assert k == 0 || k == 1;
    }
    InnerNodeSize(rs, n);
  }

  lemma SiblingComponent(nodes: set<Node>, t: string, x: string, f: string, y: string, g: string)
    requires x != y && nodes == {[t], [t, x], [t, x, f], [t, y], [t, y, g]}
    ensures (set m | m in nodes && m != [t, x] && SameTop(m, [t, x])) == {[t], [t, x, f], [t, y], [t, y, g]}
  {
  }

  lemma SiblingBelow(nodes: set<Node>, t: string, x: string, f: string, y: string, g: string)
    requires x != y && nodes == {[t], [t, x], [t, x, f], [t, y], [t, y, g]}
    ensures Below(nodes, [t, x]) == {[t, x, f]}
  {
    assert [t, x, f][..2] == [t, x];
    assert [t, y, g][..2] == [t, y];
  }

  /** The sum over four distinct elements. */
  lemma SumOfFour(size: map<Node, nat>, a: Node, b: Node, c: Node, d: Node)
    requires a in size && b in size && c in size && d in size
    requires a != b && a != c && a != d && b != c && b != d && c != d
    ensures SumOver({a, b, c, d}, size) == size[a] + size[b] + size[c] + size[d]
  {
    var s := {a, b, c, d};
    SumOverRemove(s, size, a);
    assert s - {a} == {b, c, d};
    SumOverRemove({b, c, d}, size, b);
    assert {b, c, d} - {b} == {c, d};
    SumOverRemove({c, d}, size, c);
    assert {c, d} - {c} == {d};
    SumOverSingleton(d, size);
  }

  lemma NodesOfTwo(rs: seq<Row>)
    requires |rs| == 2
    ensures NodesOf(rs) == Prefixes(rs[0].parts) + Prefixes(rs[1].parts)
  {
    assert NodesOf(rs) == NodesOf(rs[..1]) + Prefixes(rs[1].parts);
    assert rs[..1][..0] == [] && rs[..1][0] == rs[0];
    assert NodesOf(rs[..1]) == {} + Prefixes(rs[0].parts);
  }

  /**
    `max(nx.get_node_attributes(G, 'size').values())`: `None` stands for the
    `ValueError` that `max` raises on no values.
   */
  method MaxNodeSize(size: map<Node, nat>) returns (r: Option<nat>)
    ensures r.None? <==> size == map[]
    ensures r.Some? ==> forall n :: n in size ==> size[n] <= r.value
    ensures r.Some? ==> exists n :: n in size && size[n] == r.value
  {
    r := None;
    var rest := size.Keys;
    while rest != {}
      invariant rest <= size.Keys
      invariant r.None? <==> rest == size.Keys
      invariant r.Some? ==> forall n :: n in size.Keys - rest ==> size[n] <= r.value
      invariant r.Some? ==> exists n :: n in size.Keys - rest && size[n] == r.value
      decreases |rest|
    {
      var n :| n in rest;
      if r.None? || size[n] > r.value {
        r := Some(size[n]);
      }
      rest := rest - {n};
    }
    if r.None? {
      assert size.Keys == {};
    }
  }

  /** `sum(G.nodes[m]['size'] for m in s)`. */
  method SumSizes(s: set<Node>, size: map<Node, nat>) returns (total: nat)
    requires s <= size.Keys
    ensures total == SumOver(s, size)
  {
    total := 0;
    var rest := s;
    while rest != {}
      invariant rest <= s
      invariant total + SumOver(rest, size) == SumOver(s, size)
      decreases |rest|
    {
      var m :| m in rest;
      SumOverRemove(rest, size, m);
      total := total + size[m];
      rest := rest - {m};
    }
  }

  /**
    The loop over `G.nodes()`: the number each node's colour ratio is taken
    from, its own size when positive and otherwise line 147's `dir_size`, the
    summed size of `nx.descendants(G, node)`.  On the built graph those are the
    other nodes of the node's component.
   */
  method ColourWeights(g: Graph) returns (weights: map<Node, nat>)
    requires g.nodes <= g.size.Keys && Hierarchy(g.nodes, g.edges)
    ensures weights.Keys == g.nodes
    ensures forall n :: n in g.nodes ==>
      weights[n] == if g.size[n] > 0 then g.size[n] else DirSizeAsWritten(g.nodes, g.edges, g.size, n)
  {
    weights := map[];
    var rest := g.nodes;
    while rest != {}
      invariant rest <= g.nodes
      invariant weights.Keys == g.nodes - rest
      invariant forall n :: n in weights ==>
        weights[n] == if g.size[n] > 0 then g.size[n] else DirSizeAsWritten(g.nodes, g.edges, g.size, n)
      decreases |rest|
    {
      var node :| node in rest;
      var size := g.size[node];
      if size > 0 {
        weights := weights[node := size];
      } else {
        var dirSize := SumSizes(Component(g.nodes, node), g.size);
        assert dirSize == DirSizeAsWritten(g.nodes, g.edges, g.size, node);
        weights := weights[node := dirSize];
      }
      rest := rest - {node};
    }
  }

  /** Why `create_directory_graph` raises before drawing. */
  datatype GraphError =
    | NoSizes       // `max` of no values
    | ZeroMaxSize   // `dir_size / max_size` with `max_size == 0`

  /** What the drawing is made from: the graph, the largest size, and each node's colour weight. */
  datatype Drawing = Drawing(nodes: set<Node>, edges: set<set<Node>>, maxSize: nat, weights: map<Node, nat>)

  datatype GraphOutcome = Raised(error: GraphError) | Drawn(drawing: Drawing)

  /**
    `create_directory_graph(metadata_df)` up to the layout: build the graph,
    take the largest size, and compute every node's colour weight.  With all
    sizes 0 the first node's ratio divides by zero.
   */
  method CreateDirectoryGraph(records: seq<FileRecord>) returns (r: GraphOutcome)
    ensures r == Raised(NoSizes) <==> NodesOf(Rows(records)) == {}
    ensures r == Raised(ZeroMaxSize) <==>
      NodesOf(Rows(records)) != {} && forall n :: n in SizesOf(Rows(records)) ==> SizesOf(Rows(records))[n] == 0
    ensures r.Drawn? <==> exists n :: n in SizesOf(Rows(records)) && SizesOf(Rows(records))[n] > 0
    ensures r.Drawn? ==> var d := r.drawing;
      d.nodes == NodesOf(Rows(records)) && d.edges == EdgesOf(Rows(records)) && d.nodes <= SizesOf(Rows(records)).Keys &&
      (forall n :: n in d.nodes ==> SizesOf(Rows(records))[n] <= d.maxSize) &&
      (exists n :: n in d.nodes && SizesOf(Rows(records))[n] == d.maxSize) &&
      d.weights.Keys == d.nodes &&
      forall n :: n in d.nodes ==>
        d.weights[n] == if SizesOf(Rows(records))[n] > 0 then SizesOf(Rows(records))[n]
                        else DirSizeAsWritten(d.nodes, d.edges, SizesOf(Rows(records)), n)
  {
    var g := BuildGraph(records);
    SizesKeys(Rows(records));
    var maxSize := MaxNodeSize(g.size);
    if maxSize.None? {
      assert g.size.Keys == {};
      return Raised(NoSizes);
    }
    if maxSize.value == 0 {
      return Raised(ZeroMaxSize);
    }
    BuiltGraphIsHierarchy(Rows(records));
    var weights := ColourWeights(g);
    return Drawn(Drawing(g.nodes, g.edges, maxSize.value, weights));
  }

  /** No record's parts are a prefix of, or equal to, another record's: the records are the files of one tree. */
  predicate FileTree(rs: seq<Row>) {
    forall j, k :: 0 <= j < |rs| && 0 <= k < |rs| && j != k ==> !PrefixNode(rs[j].parts, rs[k].parts)
  }

  /** `p` lies strictly below `n`. */
  predicate IsBelow(n: Node, p: seq<string>) {
    |n| < |p| && p[..|n|] == n
  }

  /** The records of the files strictly below `n`, in order. */
  function RowsBelow(rs: seq<Row>, n: Node): seq<Row> {
    if rs == [] then []
    else RowsBelow(rs[..|rs| - 1], n) + (if IsBelow(n, rs[|rs| - 1].parts) then [rs[|rs| - 1]] else [])
  }

  /** The full-path nodes of the records strictly below `n`. */
  function LeafSet(rs: seq<Row>, n: Node): set<Node> {
    if rs == [] then {}
    else LeafSet(rs[..|rs| - 1], n) + (if IsBelow(n, rs[|rs| - 1].parts) then {rs[|rs| - 1].parts} else {})
  }

  lemma {:induction false} LeafSetSound(rs: seq<Row>, n: Node, m: Node) returns (k: nat)
    requires m in LeafSet(rs, n)
    ensures k < |rs| && m == rs[k].parts && IsBelow(n, m)
  {
    var init := rs[..|rs| - 1];
    if m in LeafSet(init, n) {
      k := LeafSetSound(init, n, m);
    } else {
      k := |rs| - 1;
    }
  }

  lemma {:induction false} LeafSetComplete(rs: seq<Row>, n: Node, k: nat)
    requires k < |rs|
    ensures IsBelow(n, rs[k].parts) ==> rs[k].parts in LeafSet(rs, n)
  {
    var init := rs[..|rs| - 1];
    if k < |init| {
      assert init[k] == rs[k];
      LeafSetComplete(init, n, k);
    }
  }

  lemma FileTreeInit(rs: seq<Row>)
    requires FileTree(rs) && rs != []
    ensures FileTree(rs[..|rs| - 1])
  {
    var init := rs[..|rs| - 1];
    forall j, k | 0 <= j < |init| && 0 <= k < |init| && j != k
      ensures !PrefixNode(init[j].parts, init[k].parts)
    {
      assert init[j] == rs[j] && init[k] == rs[k];
    }
  }

  /** The sizes `f` gives the full paths of the records below `n`. */
  ghost predicate WeighsLeaves(rs: seq<Row>, n: Node, f: map<Node, nat>) {
    forall k :: 0 <= k < |rs| && IsBelow(n, rs[k].parts) ==>
      rs[k].parts in f && f[rs[k].parts] == rs[k].sizeBytes
  }

  /** Summing the given weights of the leaves below `n` totals the records below `n`. */
  lemma {:induction false} LeafSum(rs: seq<Row>, n: Node, f: map<Node, nat>)
    requires FileTree(rs) && WeighsLeaves(rs, n, f)
    ensures LeafSet(rs, n) <= f.Keys && SumOver(LeafSet(rs, n), f) == RowsTotal(RowsBelow(rs, n))
  {
    if rs != [] {
      FileTreeInit(rs);
      WeighsLeavesInit(rs, n, f);
      LeafSum(rs[..|rs| - 1], n, f);
      LeafSumStep(rs, n, f);
    }
  }

  lemma WeighsLeavesInit(rs: seq<Row>, n: Node, f: map<Node, nat>)
    requires rs != [] && WeighsLeaves(rs, n, f)
    ensures WeighsLeaves(rs[..|rs| - 1], n, f)
  {
    var init := rs[..|rs| - 1];
    forall k | 0 <= k < |init| && IsBelow(n, init[k].parts)
      ensures init[k].parts in f && f[init[k].parts] == init[k].sizeBytes
    {
      assert init[k] == rs[k];
    }
  }

  lemma LeafSumStep(rs: seq<Row>, n: Node, f: map<Node, nat>)
    requires rs != [] && FileTree(rs) && WeighsLeaves(rs, n, f)
    requires var init := rs[..|rs| - 1];
      LeafSet(init, n) <= f.Keys && SumOver(LeafSet(init, n), f) == RowsTotal(RowsBelow(init, n))
    ensures LeafSet(rs, n) <= f.Keys && SumOver(LeafSet(rs, n), f) == RowsTotal(RowsBelow(rs, n))
  {
    var init := rs[..|rs| - 1];
    var last := rs[|rs| - 1];
    var x := last.parts;
    var a := LeafSet(init, n);
    if IsBelow(n, x) {
      assert LeafSet(rs, n) == a + {x};
      assert x in f && f[x] == last.sizeBytes;
      LastLeafIsNew(rs, n);
      AddOneToSum(a, x, f);
      assert RowsBelow(rs, n) == RowsBelow(init, n) + [last];
      RowsTotalSnoc(RowsBelow(init, n), last);
    } else {
      assert LeafSet(rs, n) == a + {};
      assert a + {} == a;
      assert RowsBelow(rs, n) == RowsBelow(init, n) + [];
      assert RowsBelow(init, n) + [] == RowsBelow(init, n);
    }
  }

  lemma AddOneToSum(a: set<Node>, x: Node, f: map<Node, nat>)
    requires a <= f.Keys && x in f && x !in a
    ensures SumOver(a + {x}, f) == f[x] + SumOver(a, f)
  {
    SumOverRemove(a + {x}, f, x);
    assert (a + {x}) - {x} == a;
  }

  lemma RowsTotalSnoc(rs: seq<Row>, r: Row)
    ensures RowsTotal(rs + [r]) == RowsTotal(rs) + r.sizeBytes
  {
    TakeOfAppend(rs, [r]);
  }

  /** In one tree, the last record's path is not among the earlier leaves. */
  lemma LastLeafIsNew(rs: seq<Row>, n: Node)
    requires FileTree(rs) && rs != [] && IsBelow(n, rs[|rs| - 1].parts)
    ensures rs[|rs| - 1].parts !in LeafSet(rs[..|rs| - 1], n)
  {
    var init := rs[..|rs| - 1];
    var x := rs[|rs| - 1].parts;
    forall k | 0 <= k < |init|
      ensures init[k].parts != x
    {
      assert init[k] == rs[k];
      assert x[..|x|] == x;
      assert !PrefixNode(rs[|rs| - 1].parts, rs[k].parts);
    }
    LeafSetOnlyPaths(init, n, x);
  }

  lemma {:induction false} LeafSetOnlyPaths(rs: seq<Row>, n: Node, m: Node)
    requires forall k :: 0 <= k < |rs| ==> rs[k].parts != m
    ensures m !in LeafSet(rs, n)
  {
    if rs != [] {
      var init := rs[..|rs| - 1];
      forall k | 0 <= k < |init|
        ensures init[k].parts != m
      {
        assert init[k] == rs[k];
      }
      LeafSetOnlyPaths(init, n, m);
    }
  }

  /**
    The corrected directory size counts exactly the files below the node:
    for the records of one tree, summing the sizes of the nodes below `n`
    gives the total size of the records under `n`.
   */
  lemma SubtreeSizeCountsFilesBelow(rs: seq<Row>, n: Node)
    requires FileTree(rs)
    ensures NodesOf(rs) <= SizesOf(rs).Keys
    ensures SubtreeSize(NodesOf(rs), SizesOf(rs), n) == RowsTotal(RowsBelow(rs, n))
  {
    var nodes, size := NodesOf(rs), SizesOf(rs);
    SizesKeys(rs);
    var b := Below(nodes, n);
    var l := LeafSet(rs, n);
    forall k | 0 <= k < |rs| && IsBelow(n, rs[k].parts)
      ensures rs[k].parts in size && size[rs[k].parts] == rs[k].sizeBytes
    {
      forall j | k < j < |rs|
        ensures !PrefixNode(rs[k].parts, rs[j].parts)
      {
      }
      LeafNodeSize(rs, k);
    }
    assert WeighsLeaves(rs, n, size);
    LeafSum(rs, n, size);
    forall m | m in l
      ensures m in b
    {
      var k := LeafSetSound(rs, n, m);
      assert m[..|m|] == m;
      NodeOfRecord(rs, k, m);
    }
    forall m | m in b - l
      ensures size[m] == 0
    {
      forall k | 0 <= k < |rs|
        ensures rs[k].parts != m
      {
        LeafSetComplete(rs, n, k);
      }
      InnerNodeSize(rs, m);
    }
    assert b == l + (b - l);
    SumOverUnion(l, b - l, size);
    SumOverZero(b - l, size);
  }
}
