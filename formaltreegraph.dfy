/**
 * A variation tree seen as a set of nodes and a set of child-to-parent edges.
 */
module FormalTreeGraph {
  import opened Wrappers

  /** A node of a variation tree, named by its identity. */
  type TreeNodeId = int

  /** A variation tree: a node and its subtrees; the parent of a node is the node whose subtree holds it. */
  datatype Tree = Tree(id: TreeNodeId, children: seq<Tree>)

  /** `Edge(child, parent)`. */
  datatype Edge = Edge(child: TreeNodeId, parent: TreeNodeId)

  /** The record `FormalTreeGraph(nodes, edges)`. */
  datatype Graph = Graph(nodes: set<TreeNodeId>, edges: set<Edge>)

  /** The visits of `forAllPreorder`: each node with its parent, a node before its subtrees. */
  function Preorder(t: Tree, parent: Option<TreeNodeId>): (r: seq<(TreeNodeId, Option<TreeNodeId>)>)
    ensures |r| >= 1 && r[0] == (t.id, parent)
    decreases t, 1
  {
    [(t.id, parent)] + PreorderAll(t.children, t.id)
  }

  /** The visits of the subtrees `ts` of the node `parent`, one subtree after the other. */
  function PreorderAll(ts: seq<Tree>, parent: TreeNodeId): (r: seq<(TreeNodeId, Option<TreeNodeId>)>)
    decreases ts, 0
  {
    if ts == [] then [] else Preorder(ts[0], Some(parent)) + PreorderAll(ts[1..], parent)
  }

  /** Every node of the tree, defined by its structure. */
  function Nodes(t: Tree): set<TreeNodeId>
    decreases t, 1
  {
    {t.id} + NodesAll(t.children)
  }

  function NodesAll(ts: seq<Tree>): set<TreeNodeId>
    decreases ts, 0
  {
    if ts == [] then {} else Nodes(ts[0]) + NodesAll(ts[1..])
  }

  /** Every edge from a node to the root of one of its subtrees, defined by the structure. */
  function Edges(t: Tree): set<Edge>
    decreases t, 1
  {
    EdgesAll(t.children, t.id)
  }

  function EdgesAll(ts: seq<Tree>, parent: TreeNodeId): set<Edge>
    decreases ts, 0
  {
    if ts == [] then {} else {Edge(ts[0].id, parent)} + Edges(ts[0]) + EdgesAll(ts[1..], parent)
  }

  /** The nodes a list of visits meets. */
  function VisitedNodes(vs: seq<(TreeNodeId, Option<TreeNodeId>)>): set<TreeNodeId>
  {
    set i | 0 <= i < |vs| :: vs[i].0
  }

  /** The edges a list of visits records: one per visited node that has a parent. */
  function VisitedEdges(vs: seq<(TreeNodeId, Option<TreeNodeId>)>): set<Edge>
  {
    set i | 0 <= i < |vs| && vs[i].1.Some? :: Edge(vs[i].0, vs[i].1.value)
  }

  lemma VisitedAppend(a: seq<(TreeNodeId, Option<TreeNodeId>)>, b: seq<(TreeNodeId, Option<TreeNodeId>)>)
    ensures VisitedNodes(a + b) == VisitedNodes(a) + VisitedNodes(b)
    ensures VisitedEdges(a + b) == VisitedEdges(a) + VisitedEdges(b)
  {
    var ab := a + b;
    assert forall i :: 0 <= i < |b| ==> ab[|a| + i] == b[i];
    assert forall i :: 0 <= i < |a| ==> ab[i] == a[i];
    assert VisitedNodes(a + b) == VisitedNodes(a) + VisitedNodes(b) by {
      forall x | x in VisitedNodes(a + b) ensures x in VisitedNodes(a) + VisitedNodes(b) {
        var i :| 0 <= i < |ab| && ab[i].0 == x;
        if i >= |a| { assert b[i - |a|].0 == x; }
      }
    }
    assert VisitedEdges(a + b) == VisitedEdges(a) + VisitedEdges(b) by {
      forall e | e in VisitedEdges(a + b) ensures e in VisitedEdges(a) + VisitedEdges(b) {
        var i :| 0 <= i < |ab| && ab[i].1.Some? && Edge(ab[i].0, ab[i].1.value) == e;
        if i >= |a| { assert b[i - |a|] == ab[i]; }
      }
    }
  }

  /**
   * A preorder traversal meets exactly the nodes of the tree and records
   * exactly its edges, plus an edge to the given parent for the root.
   */
  lemma {:induction false} PreorderVisits(t: Tree, parent: Option<TreeNodeId>)
    ensures VisitedNodes(Preorder(t, parent)) == Nodes(t)
    ensures VisitedEdges(Preorder(t, parent)) ==
      Edges(t) + (if parent.Some? then {Edge(t.id, parent.value)} else {})
    decreases t, 1
  {
    var head: seq<(TreeNodeId, Option<TreeNodeId>)> := [(t.id, parent)];
    PreorderAllVisits(t.children, t.id);
    VisitedAppend(head, PreorderAll(t.children, t.id));
    assert head[0] == (t.id, parent) && |head| == 1;
    assert VisitedNodes(head) == {t.id} by {
      assert head[0].0 in VisitedNodes(head);
    }
    assert VisitedEdges(head) == (if parent.Some? then {Edge(t.id, parent.value)} else {}) by {
      if parent.Some? {
        assert Edge(head[0].0, head[0].1.value) in VisitedEdges(head);
      }
    }
  }

  lemma {:induction false} PreorderAllVisits(ts: seq<Tree>, parent: TreeNodeId)
    ensures VisitedNodes(PreorderAll(ts, parent)) == NodesAll(ts)
    ensures VisitedEdges(PreorderAll(ts, parent)) == EdgesAll(ts, parent)
    decreases ts, 0
  {
    if ts != [] {
      PreorderVisits(ts[0], Some(parent));
      PreorderAllVisits(ts[1..], parent);
      VisitedAppend(Preorder(ts[0], Some(parent)), PreorderAll(ts[1..], parent));
    }
  }

  /**
   * `fromTree`: the traversal callback adds every node it meets to `nodes`
   * and, for a node with a parent, the edge to that parent to `edges`.
   */
  method FromTree(t: Tree) returns (r: Graph)
    ensures r.nodes == Nodes(t) && r.edges == Edges(t)
  {
    var visits := Preorder(t, None);
    var nodes: set<TreeNodeId> := {};
    var edges: set<Edge> := {};
    for i := 0 to |visits|
      invariant nodes == VisitedNodes(visits[..i]) && edges == VisitedEdges(visits[..i])
    {
      var v := visits[i];
      VisitedAppend(visits[..i], [v]);
      assert visits[..i + 1] == visits[..i] + [v];
      nodes := nodes + {v.0};
      if v.1.Some? {
        edges := edges + {Edge(v.0, v.1.value)};
      } else {
        assert VisitedEdges([v]) == {};
      }
    }
    assert visits[..|visits|] == visits;
    PreorderVisits(t, None);
    r := Graph(nodes, edges);
  }

  /** Both ends of every edge are nodes of the tree. */
  lemma {:induction false} EdgesWithinNodes(t: Tree)
    ensures forall e :: e in Edges(t) ==> e.child in Nodes(t) && e.parent in Nodes(t)
    decreases t, 1
  {
    EdgesAllWithinNodes(t.children, t.id);
  }

  lemma {:induction false} EdgesAllWithinNodes(ts: seq<Tree>, parent: TreeNodeId)
    ensures forall e :: e in EdgesAll(ts, parent) ==> e.child in NodesAll(ts) && (e.parent == parent || e.parent in NodesAll(ts))
    decreases ts, 0
  {
    if ts != [] {
      EdgesWithinNodes(ts[0]);
      EdgesAllWithinNodes(ts[1..], parent);
    }
  }

  /** The nodes of a tree in which no identity occurs twice. */
  predicate UniqueIds(t: Tree)
    decreases t, 1
  {
    t.id !in NodesAll(t.children) && UniqueIdsAll(t.children)
  }

  predicate UniqueIdsAll(ts: seq<Tree>)
    decreases ts, 0
  {
    ts == [] || (UniqueIds(ts[0]) && Nodes(ts[0]) !! NodesAll(ts[1..]) && UniqueIdsAll(ts[1..]))
  }

  /** Where no identity occurs twice, the root is the child of no edge. */
  lemma RootHasNoEdge(t: Tree)
    requires UniqueIds(t)
    ensures forall e :: e in Edges(t) ==> e.child != t.id
  {
    EdgesAllWithinNodes(t.children, t.id);
  }

  /** `equals`: the same node set and the same edge set. */
  predicate Equals(a: Graph, b: Graph)
  {
    a.nodes == b.nodes && a.edges == b.edges
  }

  /** Two trees give equal graphs exactly when they have the same nodes and the same edges. */
  lemma EqualsOfTrees(s: Tree, t: Tree)
    ensures Equals(Graph(Nodes(s), Edges(s)), Graph(Nodes(t), Edges(t))) <==> Nodes(s) == Nodes(t) && Edges(s) == Edges(t)
  {
  }

  /** The order of the subtrees does not matter: swapping two subtrees gives an equal graph. */
  lemma SwapChildren(id: TreeNodeId, a: Tree, b: Tree)
    ensures Equals(Graph(Nodes(Tree(id, [a, b])), Edges(Tree(id, [a, b]))),
                   Graph(Nodes(Tree(id, [b, a])), Edges(Tree(id, [b, a]))))
  {
    assert [a, b][1..] == [b] && [b, a][1..] == [a];
    assert [b][1..] == [] && [a][1..] == [];
    assert NodesAll([b]) == Nodes(b) + NodesAll([]);
    assert NodesAll([a]) == Nodes(a) + NodesAll([]);
    assert NodesAll([a, b]) == Nodes(a) + NodesAll([b]);
    assert NodesAll([b, a]) == Nodes(b) + NodesAll([a]);
    assert EdgesAll([b], id) == {Edge(b.id, id)} + Edges(b) + EdgesAll([], id);
    assert EdgesAll([a], id) == {Edge(a.id, id)} + Edges(a) + EdgesAll([], id);
    assert EdgesAll([a, b], id) == {Edge(a.id, id)} + Edges(a) + EdgesAll([b], id);
    assert EdgesAll([b, a], id) == {Edge(b.id, id)} + Edges(b) + EdgesAll([a], id);
  }
}
