/**
  `create_directory_graph`: one node per non-empty prefix of each record's
  path parts, an undirected edge from each prefix to its one-longer
  extension, and a `size` attribute written on every visit (the record's
  size on its full path, 0 on the proper prefixes).

  A node is identified by its parts prefix; the source keys it by the joined
  string `os.path.join(*parts[:i+1])`.  The two keyings give the same graph
  when that join is one-to-one on the prefixes that occur, which this module
  takes as given rather than proves.
 */
module HierarchyGraph {
  import opened Wrappers
  import opened PathNames
  import opened Metadata
  import opened Sums
  import opened SeqFacts

  type Node = seq<string>

  /** What the loop reads from one row of the table: `Path(row['path']).parts` and `row['size_bytes']`. */
  datatype Row = Row(parts: seq<string>, sizeBytes: nat)

  /** The rows of the records, in order. */
  function Rows(records: seq<FileRecord>): (r: seq<Row>)
    ensures |r| == |records|
  {
    seq(|records|, k requires 0 <= k < |records| => Row(Parts(records[k].path), records[k].sizeBytes))
  }

  /** The summed sizes of the rows. */
  function RowsTotal(rs: seq<Row>): nat {
    if rs == [] then 0 else RowsTotal(rs[..|rs| - 1]) + rs[|rs| - 1].sizeBytes
  }

  /** The rows carry the records' sizes: their total is the records' byte total. */
  lemma {:induction false} RowsTotalIsTotal(records: seq<FileRecord>)
    ensures RowsTotal(Rows(records)) == TotalSize(records)
  {
    if records != [] {
      var init := records[..|records| - 1];
      assert Rows(records)[..|records| - 1] == Rows(init);
      RowsTotalIsTotal(init);
    }
  }

  /** `n` is one of the non-empty prefixes of `p`. */
  predicate PrefixNode(n: Node, p: seq<string>) {
    1 <= |n| <= |p| && n == p[..|n|]
  }

  /** The parent of a node: the prefix one part shorter. */
  function Parent(n: Node): (r: Node)
    requires |n| >= 2
    ensures |r| == |n| - 1 && PrefixNode(r, n)
  {
    n[..|n| - 1]
  }

  /** The nodes one record's loop adds: the non-empty prefixes of its parts. */
  function Prefixes(p: seq<string>): set<Node>
    decreases |p|
  {
    if p == [] then {} else Prefixes(p[..|p| - 1]) + {p}
  }

  /** The edges one record's loop adds: each prefix below the first, joined to its parent. */
  function ParentEdges(p: seq<string>): set<set<Node>>
    decreases |p|
  {
    if |p| <= 1 then {} else ParentEdges(p[..|p| - 1]) + {{p[..|p| - 1], p}}
  }

  /** The node set after adding the records in order. */
  function NodesOf(rs: seq<Row>): set<Node> {
    if rs == [] then {} else NodesOf(rs[..|rs| - 1]) + Prefixes(rs[|rs| - 1].parts)
  }

  /** The edge set after adding the records in order. */
  function EdgesOf(rs: seq<Row>): set<set<Node>> {
    if rs == [] then {} else EdgesOf(rs[..|rs| - 1]) + ParentEdges(rs[|rs| - 1].parts)
  }

  /**
    The `size` attributes after the first `i` visits of one record's loop
    starting from `m`: each visit overwrites the attribute of its prefix.
   */
  function RecordWrites(m: map<Node, nat>, p: seq<string>, sizeBytes: nat, i: nat): map<Node, nat>
    requires i <= |p|
    decreases i
  {
    if i == 0 then m
    else RecordWrites(m, p, sizeBytes, i - 1)[p[..i] := if i == |p| then sizeBytes else 0]
  }

  /** The `size` attributes after adding the records in order. */
  function SizesOf(rs: seq<Row>): map<Node, nat> {
    if rs == [] then map[]
    else
      var p := rs[|rs| - 1].parts;
      RecordWrites(SizesOf(rs[..|rs| - 1]), p, rs[|rs| - 1].sizeBytes, |p|)
  }

  /** The `networkx.Graph` the function builds, with the attributes it uses. */
  class Graph {
    var nodes: set<Node>
    var size: map<Node, nat>
    /** Undirected edges, each the set of its two ends. */
    var edges: set<set<Node>>

    /** `nx.Graph()`. */
    constructor ()
      ensures nodes == {} && size == map[] && edges == {}
    {
      nodes, size, edges := {}, map[], {};
    }

    /** `G.add_node(n, size=s)`: adds `n` if new, and sets its attribute either way. */
    method AddNode(n: Node, s: nat)
      modifies this
      ensures nodes == old(nodes) + {n}
      ensures size == old(size)[n := s]
      ensures edges == old(edges)
    {
      nodes := nodes + {n};
      size := size[n := s];
    }

    /** `G.add_edge(u, v)`: adds missing ends without attributes, and the edge. */
    method AddEdge(u: Node, v: Node)
      modifies this
      ensures nodes == old(nodes) + {u, v}
      ensures size == old(size)
      ensures edges == old(edges) + {{u, v}}
    {
      nodes := nodes + {u, v};
      edges := edges + {{u, v}};
    }
  }

  /**
    The loop of `create_directory_graph` that adds the nodes and edges:
    for each record in order, for each prefix of its parts, the node with its
    size attribute and, below the first, the edge from its parent.
   */
  method BuildGraph(records: seq<FileRecord>) returns (g: Graph)
    ensures g.nodes == NodesOf(Rows(records))
    ensures g.edges == EdgesOf(Rows(records))
    ensures g.size == SizesOf(Rows(records))
  {
    ghost var rows := Rows(records);
    g := new Graph();
    for k := 0 to |records|
      invariant g.nodes == NodesOf(rows[..k])
      invariant g.edges == EdgesOf(rows[..k])
      invariant g.size == SizesOf(rows[..k])
    {
      var pathParts := Parts(records[k].path);
      assert rows[k] == Row(pathParts, records[k].sizeBytes);
      AddRecord(g, pathParts, records[k].sizeBytes);
      AddRecordStep(rows, k);
    }
    assert rows[..|records|] == rows;
  }

  /** The inner loop for one row: each prefix of its parts in turn. */
  method AddRecord(g: Graph, pathParts: seq<string>, sizeBytes: nat)
    modifies g
    ensures g.nodes == old(g.nodes) + Prefixes(pathParts)
    ensures g.edges == old(g.edges) + ParentEdges(pathParts)
    ensures g.size == RecordWrites(old(g.size), pathParts, sizeBytes, |pathParts|)
  {
    for i := 0 to |pathParts|
      invariant g.nodes == old(g.nodes) + Prefixes(pathParts[..i])
      invariant g.edges == old(g.edges) + ParentEdges(pathParts[..i])
      invariant g.size == RecordWrites(old(g.size), pathParts, sizeBytes, i)
    {
      var current := pathParts[..i + 1];
      AddPrefixStep(pathParts, i);
      g.AddNode(current, if i == |pathParts| - 1 then sizeBytes else 0);
      if i > 0 {
        var parent := pathParts[..i];
        g.AddEdge(parent, current);
      }
    }
    assert pathParts[..|pathParts|] == pathParts;
  }

  /** Visiting prefix `i + 1` adds that node, and its edge from the parent when it has one. */
  lemma AddPrefixStep(p: seq<string>, i: nat)
    requires i < |p|
    ensures Prefixes(p[..i + 1]) == Prefixes(p[..i]) + {p[..i + 1]}
    ensures i > 0 ==> p[..i] in Prefixes(p[..i])
    ensures ParentEdges(p[..i + 1]) == ParentEdges(p[..i]) + (if i > 0 then {{p[..i], p[..i + 1]}} else {})
  {
    TakeTake(p, i);
    if i > 0 {
      assert p[..i] == p[..i][..|p[..i]| - 1] + [p[..i][i - 1]];
    }
  }

  /** After the inner loop, the graph is that of one more record. */
  lemma AddRecordStep(rs: seq<Row>, k: nat)
    requires k < |rs|
    ensures var p := rs[k].parts;
      NodesOf(rs[..k + 1]) == NodesOf(rs[..k]) + Prefixes(p) &&
      EdgesOf(rs[..k + 1]) == EdgesOf(rs[..k]) + ParentEdges(p) &&
      SizesOf(rs[..k + 1]) == RecordWrites(SizesOf(rs[..k]), p, rs[k].sizeBytes, |p|)
  {
    TakeTake(rs, k);
  }

  /** The nodes of one record are exactly the non-empty prefixes of its parts. */
  lemma {:induction false} PrefixesExact(p: seq<string>, n: Node)
    ensures n in Prefixes(p) <==> PrefixNode(n, p)
    decreases |p|
  {
    if p != [] {
      var q := p[..|p| - 1];
      PrefixesExact(q, n);
      assert p[..|p|] == p;
      if |n| <= |q| {
        assert p[..|n|] == q[..|n|];
      }
    }
  }

  /** Each edge of one record joins a prefix to its parent. */
  lemma {:induction false} ParentEdgesSound(p: seq<string>, e: set<Node>) returns (n: Node)
    requires e in ParentEdges(p)
    ensures |n| >= 2 && PrefixNode(n, p) && e == {Parent(n), n}
    decreases |p|
  {
    var q := p[..|p| - 1];
    if e in ParentEdges(q) {
      n := ParentEdgesSound(q, e);
      assert p[..|n|] == q[..|n|];
    } else {
      n := p;
    }
  }

  /** Each prefix below the first is joined to its parent. */
  lemma {:induction false} ParentEdgesComplete(p: seq<string>, n: Node)
    requires |n| >= 2 && PrefixNode(n, p)
    ensures {Parent(n), n} in ParentEdges(p)
    decreases |p|
  {
    if |n| < |p| {
      var q := p[..|p| - 1];
      assert q[..|n|] == p[..|n|];
      ParentEdgesComplete(q, n);
    } else {
      assert n == p;
    }
  }

  /** A node of the graph is a non-empty prefix of some record's parts, and each such prefix is a node. */
  lemma {:induction false} NodesExact(rs: seq<Row>, n: Node)
    ensures n in NodesOf(rs) <==> exists k :: 0 <= k < |rs| && PrefixNode(n, rs[k].parts)
  {
    if rs != [] {
      var init := rs[..|rs| - 1];
      NodesExact(init, n);
      PrefixesExact(rs[|rs| - 1].parts, n);
      if exists k :: 0 <= k < |rs| && PrefixNode(n, rs[k].parts) {
        var k :| 0 <= k < |rs| && PrefixNode(n, rs[k].parts);
        if k < |init| {
          assert init[k] == rs[k];
        }
      }
      if exists k :: 0 <= k < |init| && PrefixNode(n, init[k].parts) {
        var k :| 0 <= k < |init| && PrefixNode(n, init[k].parts);
        assert rs[k] == init[k];
      }
    }
  }

  /** Nodes are non-empty. */
  lemma NodesNonEmpty(rs: seq<Row>, n: Node)
    requires n in NodesOf(rs)
    ensures |n| >= 1
  {
    NodesExact(rs, n);
  }

  /** Every non-empty prefix of a node is a node. */
  lemma NodesPrefixClosed(rs: seq<Row>, n: Node, j: nat)
    requires n in NodesOf(rs) && 1 <= j <= |n|
    ensures n[..j] in NodesOf(rs)
  {
    NodesExact(rs, n);
    var k :| 0 <= k < |rs| && PrefixNode(n, rs[k].parts);
    assert PrefixNode(n[..j], rs[k].parts);
    NodesExact(rs, n[..j]);
  }

  /** Every edge joins a node below the first level to its parent. */
  lemma {:induction false} EdgeSound(rs: seq<Row>, e: set<Node>) returns (n: Node)
    requires e in EdgesOf(rs)
    ensures n in NodesOf(rs) && |n| >= 2 && e == {Parent(n), n}
  {
    var init := rs[..|rs| - 1];
    if e in EdgesOf(init) {
      n := EdgeSound(init, e);
    } else {
      n := ParentEdgesSound(rs[|rs| - 1].parts, e);
      PrefixesExact(rs[|rs| - 1].parts, n);
    }
  }

  /** Every node below the first level is joined to its parent. */
  lemma {:induction false} EdgeComplete(rs: seq<Row>, n: Node)
    requires n in NodesOf(rs) && |n| >= 2
    ensures {Parent(n), n} in EdgesOf(rs)
  {
    var init := rs[..|rs| - 1];
    if n in NodesOf(init) {
      EdgeComplete(init, n);
    } else {
      PrefixesExact(rs[|rs| - 1].parts, n);
      ParentEdgesComplete(rs[|rs| - 1].parts, n);
    }
  }

  /** `{u, v}` is an edge exactly when one of them is a node and the other its parent. */
  lemma EdgesExact(rs: seq<Row>, u: Node, v: Node)
    ensures {u, v} in EdgesOf(rs) <==>
      (v in NodesOf(rs) && |v| >= 2 && u == Parent(v)) || (u in NodesOf(rs) && |u| >= 2 && v == Parent(u))
  {
    if {u, v} in EdgesOf(rs) {
      var n := EdgeSound(rs, {u, v});
      assert u in {Parent(n), n} && v in {Parent(n), n};
    }
    if v in NodesOf(rs) && |v| >= 2 && u == Parent(v) {
      EdgeComplete(rs, v);
    }
    if u in NodesOf(rs) && |u| >= 2 && v == Parent(u) {
      EdgeComplete(rs, u);
      assert {u, v} == {Parent(u), u};
    }
  }

  /** After the first `i` visits of one record, the visited prefixes carry the written values and nothing else changed. */
  lemma {:induction false} RecordWritesAt(m: map<Node, nat>, p: seq<string>, sizeBytes: nat, i: nat, n: Node)
    requires i <= |p|
    ensures var w := RecordWrites(m, p, sizeBytes, i); var visited := PrefixNode(n, p) && |n| <= i;
      (n in w <==> n in m || visited) &&
      (visited ==> w[n] == if n == p then sizeBytes else 0) &&
      (!visited && n in m ==> w[n] == m[n])
    decreases i
  {
    if i > 0 {
      RecordWritesAt(m, p, sizeBytes, i - 1, n);
      if n == p[..i] {
        assert |n| == i;
        assert n == p <==> i == |p|;
      }
    }
  }

  /** Every node has a `size` attribute, and only nodes have one. */
  lemma {:induction false} SizesKeys(rs: seq<Row>)
    ensures SizesOf(rs).Keys == NodesOf(rs)
  {
    if rs != [] {
      var init := rs[..|rs| - 1];
      var last := rs[|rs| - 1];
      var p := last.parts;
      SizesKeys(init);
      forall n
        ensures n in SizesOf(rs) <==> n in NodesOf(rs)
      {
        RecordWritesAt(SizesOf(init), p, last.sizeBytes, |p|, n);
        PrefixesExact(p, n);
      }
    }
  }

  /** The index of the last record whose parts pass through `n`, or -1. */
  function LastWriter(rs: seq<Row>, n: Node): (r: int)
    ensures -1 <= r < |rs|
    ensures r >= 0 ==> PrefixNode(n, rs[r].parts)
  {
    if rs == [] then -1
    else if PrefixNode(n, rs[|rs| - 1].parts) then |rs| - 1
    else LastWriter(rs[..|rs| - 1], n)
  }

  /** No record after `LastWriter` passes through the node. */
  lemma {:induction false} LastWriterIsLast(rs: seq<Row>, n: Node, k: nat)
    requires LastWriter(rs, n) < k < |rs|
    ensures !PrefixNode(n, rs[k].parts)
  {
    var init := rs[..|rs| - 1];
    if k < |init| {
      LastWriterIsLast(init, n, k);
      assert init[k] == rs[k];
    }
  }

  /**
    Last write wins: a node's `size` is the one written by the last record
    whose parts pass through it, that record's size if the node is its full
    path and 0 if it is a proper prefix.
   */
  lemma {:induction false} SizeIsLastWrite(rs: seq<Row>, n: Node)
    requires n in NodesOf(rs)
    ensures LastWriter(rs, n) >= 0
    ensures var k := LastWriter(rs, n);
      n in SizesOf(rs) && SizesOf(rs)[n] == (if n == rs[k].parts then rs[k].sizeBytes else 0)
  {
    var init := rs[..|rs| - 1];
    var last := rs[|rs| - 1];
    var p := last.parts;
    SizesKeys(rs);
    RecordWritesAt(SizesOf(init), p, last.sizeBytes, |p|, n);
    if !PrefixNode(n, p) {
      PrefixesExact(p, n);
      SizeIsLastWrite(init, n);
      SizesKeys(init);
    }
  }

  /** A node that is no record's full path has size 0. */
  lemma InnerNodeSize(rs: seq<Row>, n: Node)
    requires n in NodesOf(rs)
    requires forall k :: 0 <= k < |rs| ==> rs[k].parts != n
    ensures n in SizesOf(rs) && SizesOf(rs)[n] == 0
  {
    SizeIsLastWrite(rs, n);
  }

  /** A record's full path that no later record passes through carries that record's size. */
  lemma LeafNodeSize(rs: seq<Row>, k: nat)
    requires k < |rs| && rs[k].parts != []
    requires forall j :: k < j < |rs| ==> !PrefixNode(rs[k].parts, rs[j].parts)
    ensures var n := rs[k].parts; n in SizesOf(rs) && SizesOf(rs)[n] == rs[k].sizeBytes
  {
    var n := rs[k].parts;
    assert PrefixNode(n, rs[k].parts) by { assert n[..|n|] == n; }
    NodeOfRecord(rs, k, n);
    LastWriterAtLeast(rs, n, k);
    SizeIsLastWrite(rs, n);
    assert LastWriter(rs, n) == k;
  }

  lemma {:induction false} NodeOfRecord(rs: seq<Row>, k: nat, n: Node)
    requires k < |rs| && PrefixNode(n, rs[k].parts)
    ensures n in NodesOf(rs)
  {
    var init := rs[..|rs| - 1];
    if k < |init| {
      assert init[k] == rs[k];
      NodeOfRecord(init, k, n);
    } else {
      PrefixesExact(rs[k].parts, n);
    }
  }

  lemma {:induction false} LastWriterAtLeast(rs: seq<Row>, n: Node, k: nat)
    requires k < |rs| && PrefixNode(n, rs[k].parts)
    ensures LastWriter(rs, n) >= k
  {
    var init := rs[..|rs| - 1];
    if k < |init| && !PrefixNode(n, rs[|rs| - 1].parts) {
      assert init[k] == rs[k];
      LastWriterAtLeast(init, n, k);
    }
  }

  /**
    The shape of a directory hierarchy: nodes are non-empty, each node below
    the top level has its parent as a node and an edge to it, and every edge
    is such a parent edge.
   */
  ghost predicate Hierarchy(nodes: set<Node>, edges: set<set<Node>>) {
    (forall n :: n in nodes ==> |n| >= 1) && ParentsJoined(nodes, edges) && EdgesToParents(nodes, edges)
  }

  /** Each node below the top level has its parent as a node and an edge to it. */
  ghost predicate ParentsJoined(nodes: set<Node>, edges: set<set<Node>>) {
    forall n :: n in nodes && |n| >= 2 ==> Parent(n) in nodes && {Parent(n), n} in edges
  }

  /** Every edge joins a node below the top level to its parent. */
  ghost predicate EdgesToParents(nodes: set<Node>, edges: set<set<Node>>) {
    forall e :: e in edges ==> exists n :: n in nodes && |n| >= 2 && e == {Parent(n), n}
  }

  /** The graph built from any records has the shape of a hierarchy. */
  lemma BuiltGraphIsHierarchy(rs: seq<Row>)
    ensures Hierarchy(NodesOf(rs), EdgesOf(rs))
  {
    AllNodesNonEmpty(rs);
    AllParentsJoined(rs);
    AllEdgesToParents(rs);
    HierarchyIntro(NodesOf(rs), EdgesOf(rs));
  }

  lemma AllNodesNonEmpty(rs: seq<Row>)
    ensures forall n :: n in NodesOf(rs) ==> |n| >= 1
  {
    forall n | n in NodesOf(rs)
      ensures |n| >= 1
    {
      NodesNonEmpty(rs, n);
    }
  }

  lemma AllParentsJoined(rs: seq<Row>)
    ensures forall n :: n in NodesOf(rs) && |n| >= 2 ==> Parent(n) in NodesOf(rs) && {Parent(n), n} in EdgesOf(rs)
  {
    forall n | n in NodesOf(rs) && |n| >= 2
      ensures Parent(n) in NodesOf(rs) && {Parent(n), n} in EdgesOf(rs)
    {
      ParentJoined(rs, n);
    }
  }

  lemma ParentJoined(rs: seq<Row>, n: Node)
    requires n in NodesOf(rs) && |n| >= 2
    ensures Parent(n) in NodesOf(rs) && {Parent(n), n} in EdgesOf(rs)
  {
    NodesPrefixClosed(rs, n, |n| - 1);
    EdgeComplete(rs, n);
  }

  lemma AllEdgesToParents(rs: seq<Row>)
    ensures forall e :: e in EdgesOf(rs) ==> exists n :: n in NodesOf(rs) && |n| >= 2 && e == {Parent(n), n}
  {
    forall e | e in EdgesOf(rs)
      ensures exists n :: n in NodesOf(rs) && |n| >= 2 && e == {Parent(n), n}
    {
      var n := EdgeSound(rs, e);
    }
  }

  lemma HierarchyIntro(nodes: set<Node>, edges: set<set<Node>>)
    requires forall n :: n in nodes ==> |n| >= 1
    requires forall n :: n in nodes && |n| >= 2 ==> Parent(n) in nodes && {Parent(n), n} in edges
    requires forall e :: e in edges ==> exists n :: n in nodes && |n| >= 2 && e == {Parent(n), n}
    ensures Hierarchy(nodes, edges)
  {
  }
}
