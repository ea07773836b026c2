/**
 * The edges of a line graph: one line per parent link of a node, labelled
 * with the time(s) at which the link holds, and the reading of such a line back
 * into parent links of the node graph.
 */
module EdgeLabelFormat {
  import opened Wrappers
  import opened DiffTypes
  import opened DiffGraph
  import opened DiffEdits
  import DiffEditor
  import Strings

  /**
   * The constants of `LineGraphConstants` that the format uses: the prefix of
   * an edge line and the three edge-label prefixes. That class is not part of
   * this model, so they are parameters.
   */
  datatype Constants = Constants(edge: string, beforeAndAfter: string, before: string, after: string)

  /**
   * The label prefixes are read back by the ordered tests of
   * `connectAccordingToLabel`: BEFORE_AND_AFTER_PARENT is tested first, so it
   * may extend another prefix, but no prefix may start with one tested before
   * it (the values "ba", "b" and "a" qualify).
   */
  predicate Ordered(k: Constants)
  {
    !(k.beforeAndAfter <= k.before) && !(k.beforeAndAfter <= k.after) && !(k.before <= k.after)
  }

  /** The link an edge label denotes. */
  datatype EdgeKind = BeforeAndAfter | BeforeOnly | AfterOnly

  /** The prefix tests of `connectAccordingToLabel`, in their order; an unknown label is refused. */
  function KindOf(k: Constants, edgeLabel: string): (r: Result<EdgeKind>)
    ensures r.Err? <==> !(k.beforeAndAfter <= edgeLabel) && !(k.before <= edgeLabel) && !(k.after <= edgeLabel)
    ensures r.Err? ==> r.error == IllegalArgument
  {
    if k.beforeAndAfter <= edgeLabel then Ok(BeforeAndAfter)
    else if k.before <= edgeLabel then Ok(BeforeOnly)
    else if k.after <= edgeLabel then Ok(AfterOnly)
    else Err(IllegalArgument)
  }

  /**
   * Each prefix written by `getParentEdgeLines` is read back as the link it
   * stands for exactly when no prefix tested before it is a prefix of it.
   */
  lemma KindOfPrefixes(k: Constants)
    ensures KindOf(k, k.beforeAndAfter) == Ok(BeforeAndAfter)
    ensures KindOf(k, k.before) == Ok(BeforeOnly) <==> !(k.beforeAndAfter <= k.before)
    ensures KindOf(k, k.after) == Ok(AfterOnly) <==> !(k.beforeAndAfter <= k.after) && !(k.before <= k.after)
    ensures Ordered(k) <==>
      KindOf(k, k.before) == Ok(BeforeOnly) && KindOf(k, k.after) == Ok(AfterOnly)
  {
  }

  /** A BEFORE_AND_AFTER label is recognised whatever follows its prefix, since it is tested first. */
  lemma BeforeAndAfterFirst(k: Constants, rest: string)
    ensures KindOf(k, k.beforeAndAfter + rest) == Ok(BeforeAndAfter)
  {
    assert (k.beforeAndAfter + rest)[..|k.beforeAndAfter|] == k.beforeAndAfter;
  }

  /** Drops the truth value of `addChild`, keeping its exception and its graph. */
  function Unit(o: Outcome<bool>): (r: Outcome<()>)
    ensures r.graph == o.graph && (r.result.Ok? <==> o.result.Ok?)
    ensures r.result.Err? ==> r.result.error == o.result.error
  {
    if o.result.Err? then Outcome(Err(o.result.error), o.graph) else Outcome(Ok(()), o.graph)
  }

  /**
   * `connectAccordingToLabel` as written: for a BEFORE_AND_AFTER label it calls
   * `child.addAfterChild(child)`, which makes the child its own parent after the
   * edit, and then `parent.addBeforeChild(child)`.
   */
  function LabelEditAsWritten(g: Graph, k: Constants, child: NodeId, parent: NodeId, edgeLabel: string): (r: Outcome<()>)
    requires child in g && parent in g
    ensures r.graph.Keys == g.Keys
  {
    match KindOf(k, edgeLabel)
    case Err(e) => Outcome(Err(e), g)
    case Ok(BeforeAndAfter) =>
      var o := AddChild(g, child, child, AFTER);
      if o.result.Err? then Unit(o) else Unit(AddChild(o.graph, parent, child, BEFORE))
    case Ok(BeforeOnly) => Unit(AddChild(g, parent, child, BEFORE))
    case Ok(AfterOnly) => Unit(AddChild(g, parent, child, AFTER))
  }

  /**
   * `connectAccordingToLabel` as its comment intends ("the child-parent
   * relationship remains the same"): a BEFORE_AND_AFTER label makes the parent
   * the child's parent at both times, after first, then before.
   */
  function LabelEdit(g: Graph, k: Constants, child: NodeId, parent: NodeId, edgeLabel: string): (r: Outcome<()>)
    requires child in g && parent in g
    ensures r.graph.Keys == g.Keys
    ensures KindOf(k, edgeLabel).Err? ==> r == Outcome(Err(IllegalArgument), g)
  {
    match KindOf(k, edgeLabel)
    case Err(e) => Outcome(Err(e), g)
    case Ok(BeforeAndAfter) =>
      var o := AddChild(g, parent, child, AFTER);
      if o.result.Err? then Unit(o) else Unit(AddChild(o.graph, parent, child, BEFORE))
    case Ok(BeforeOnly) => Unit(AddChild(g, parent, child, BEFORE))
    case Ok(AfterOnly) => Unit(AddChild(g, parent, child, AFTER))
  }

  /** Following a node's own parent link never ends: the chain from `n` has no top. */
  lemma {:induction false} SelfParentNotRooted(g: Graph, t: Time, n: NodeId, k: nat)
    requires n in g && g[n].Parent(t) == Some(n)
    ensures !Rooted(g, t, n, k)
    decreases k
  {
    if k > 0 {
      SelfParentNotRooted(g, t, n, k - 1);
    }
  }

  /**
   * As written, reading a BEFORE_AND_AFTER edge for an unchanged node without
   * parents makes the node its own parent after the edit, so the parent chains
   * after the edit are no longer finite, and `parent` is not its AFTER parent.
   */
  lemma BeforeAndAfterSelfLink(g: Graph, k: Constants, child: NodeId, parent: NodeId, rest: string)
    requires child in g && parent in g && child != parent
    requires g[child].diffType == NON && g[child].IsRoot()
    ensures var r := LabelEditAsWritten(g, k, child, parent, k.beforeAndAfter + rest);
      r.result.Ok? && r.graph[child].afterParent == Some(child) &&
      r.graph[child].beforeParent == Some(parent) && !Acyclic(r.graph, AFTER)
  {
    BeforeAndAfterFirst(k, rest);
    var r := LabelEditAsWritten(g, k, child, parent, k.beforeAndAfter + rest);
    SelfParentNotRooted(r.graph, AFTER, child, |r.graph|);
  }

  /** Corrected, the same edge makes `parent` the node's parent at both times. */
  lemma BeforeAndAfterLinksBoth(g: Graph, k: Constants, child: NodeId, parent: NodeId, rest: string)
    requires child in g && parent in g
    requires g[child].diffType == NON && g[child].IsRoot()
    ensures var r := LabelEdit(g, k, child, parent, k.beforeAndAfter + rest);
      r.result.Ok? && r.graph[child].afterParent == Some(parent) && r.graph[child].beforeParent == Some(parent)
  {
    BeforeAndAfterFirst(k, rest);
  }

  /**
   * The effect of one edge label on the child's parent slots: BEFORE_PARENT
   * links at BEFORE only, AFTER_PARENT at AFTER only, BEFORE_AND_AFTER at both;
   * a link at a time at which the child does not exist is skipped, and the
   * other slot and the child's change type stay as they were; the two-way
   * links stay consistent.
   */
  lemma LabelEditLinks(g: Graph, k: Constants, child: NodeId, parent: NodeId, edgeLabel: string)
    requires child in g && parent in g && KindOf(k, edgeLabel).Ok?
    requires KindOf(k, edgeLabel).value != AfterOnly && g[child].diffType.ExistsAtTime(BEFORE) ==>
      g[child].beforeParent.None?
    requires KindOf(k, edgeLabel).value != BeforeOnly && g[child].diffType.ExistsAtTime(AFTER) ==>
      g[child].afterParent.None?
    ensures var r := LabelEdit(g, k, child, parent, edgeLabel);
      var kind := KindOf(k, edgeLabel).value;
      var d := g[child].diffType;
      r.result.Ok? && r.graph[child].diffType == d &&
      r.graph[child].beforeParent ==
        (if kind != AfterOnly && d.ExistsAtTime(BEFORE) then Some(parent) else g[child].beforeParent) &&
      r.graph[child].afterParent ==
        (if kind != BeforeOnly && d.ExistsAtTime(AFTER) then Some(parent) else g[child].afterParent)
    ensures Linked(g) ==> Linked(LabelEdit(g, k, child, parent, edgeLabel).graph)
  {
    var kind := KindOf(k, edgeLabel).value;
    if kind == BeforeAndAfter {
      AddChildAttaches(g, parent, child, AFTER);
      AddChildAttaches(AddChild(g, parent, child, AFTER).graph, parent, child, BEFORE);
      if Linked(g) {
        AddChildKeepsLinks(g, parent, child, AFTER);
        AddChildKeepsLinks(AddChild(g, parent, child, AFTER).graph, parent, child, BEFORE);
      }
    } else {
      var t := if kind == BeforeOnly then BEFORE else AFTER;
      AddChildAttaches(g, parent, child, t);
      if Linked(g) {
        AddChildKeepsLinks(g, parent, child, t);
      }
    }
  }

  /**
   * `connect`: the line must start with the edge prefix; its space-separated
   * fields 1, 2 and 3 are the child's id, the parent's id and the label; both
   * ids must denote nodes read before. Java evaluates the fields, then both
   * ids, then the two look-ups, so the exceptions come in that order.
   */
  function LineEdit(g: Graph, k: Constants, ids: map<int, NodeId>, line: string): (r: Outcome<()>)
    requires forall i :: i in ids ==> ids[i] in g
    ensures r.graph.Keys == g.Keys
    ensures !(k.edge <= line) ==> r == Outcome(Err(IllegalArgument), g)
  {
    if !(k.edge <= line) then Outcome(Err(IllegalArgument), g)
    else
      var edge := Strings.JavaSplit(line, ' ');
      if |edge| < 4 then Outcome(Err(IndexOutOfBounds), g)
      else
        var from := Strings.ParseInt(edge[1]);
        if from.Err? then Outcome(Err(from.error), g)
        else
          var to := Strings.ParseInt(edge[2]);
          if to.Err? then Outcome(Err(to.error), g)
          else if from.value !in ids || to.value !in ids then Outcome(Err(IllegalArgument), g)
          else LabelEdit(g, k, ids[from.value], ids[to.value], edge[3])
  }

  /**
   * The fields of a well-formed edge line are found where the writer put them:
   * `edge child parent label` connects the nodes with those ids by that label;
   * an id that was not read before is refused.
   */
  lemma LineEditFields(g: Graph, k: Constants, ids: map<int, NodeId>, c: nat, p: nat, edgeLabel: string)
    requires forall i :: i in ids ==> ids[i] in g
    requires ' ' !in k.edge && ' ' !in edgeLabel && edgeLabel != [] && k.edge != []
    requires c <= Strings.IntMax && p <= Strings.IntMax
    ensures var line := Strings.Join([k.edge, Strings.NatToString(c), Strings.NatToString(p), edgeLabel], " ");
      LineEdit(g, k, ids, line) ==
        if c in ids && p in ids then LabelEdit(g, k, ids[c], ids[p], edgeLabel)
        else Outcome(Err(IllegalArgument), g)
  {
    var parts := [k.edge, Strings.NatToString(c), Strings.NatToString(p), edgeLabel];
    assert ' ' !in parts[1] && ' ' !in parts[2] by {
      assert forall i :: 0 <= i < |parts[1]| ==> parts[1][i] != ' ';
      assert forall i :: 0 <= i < |parts[2]| ==> parts[2][i] != ' ';
    }
    Strings.JavaSplitJoin(parts, ' ');
    var line := Strings.Join(parts, " ");
    assert line == k.edge + " " + Strings.Join(parts[1..], " ");
    assert k.edge <= line;
    Strings.ParseIntOfNatToString(c);
    Strings.ParseIntOfNatToString(p);
  }

  /** The parent links of `n` as `getParentEdgeLines` writes them: (parent, label prefix) pairs. */
  function ParentEdges(k: Constants, g: Graph, n: NodeId): (r: seq<(NodeId, string)>)
    requires n in g
    ensures |r| <= 2 && (r == [] <==> g[n].IsRoot())
  {
    var b := g[n].beforeParent;
    var a := g[n].afterParent;
    if b.Some? && a.Some? && b.value == a.value then [(b.value, k.beforeAndAfter)]
    else (if b.Some? then [(b.value, k.before)] else []) + (if a.Some? then [(a.value, k.after)] else [])
  }

  /**
   * `getParentEdgeLines`: one line per entry of `ParentEdges`, each ended by a
   * line break; `edgeToLineGraph` (the abstract method that renders one edge)
   * is a parameter.
   */
  function GetParentEdgeLines(k: Constants, edgeToLineGraph: (NodeId, NodeId, string) -> string, g: Graph, n: NodeId): (r: string)
    requires n in g
    ensures r == "" <==> g[n].IsRoot()
  {
    EdgeLines(edgeToLineGraph, n, ParentEdges(k, g, n))
  }

  function EdgeLines(edgeToLineGraph: (NodeId, NodeId, string) -> string, n: NodeId, es: seq<(NodeId, string)>): (r: string)
    ensures r == "" <==> es == []
  {
    if es == [] then "" else edgeToLineGraph(n, es[0].0, es[0].1) + LineBreak + EdgeLines(edgeToLineGraph, n, es[1..])
  }

  /** Reads the given edges of `child` back, one `connectAccordingToLabel` after the other. */
  function ReadEdges(g: Graph, k: Constants, child: NodeId, es: seq<(NodeId, string)>): (r: Outcome<()>)
    requires child in g && forall i :: 0 <= i < |es| ==> es[i].0 in g
    ensures r.graph.Keys == g.Keys
    decreases |es|
  {
    if es == [] then Outcome(Ok(()), g)
    else
      var o := LabelEdit(g, k, child, es[0].0, es[0].1);
      if o.result.Err? then o else ReadEdges(o.graph, k, child, es[1..])
  }

  /**
   * Round trip of the edge format: writing the parent links of `n` and reading
   * them back into a graph in which `n` has no parent yet restores both parent
   * slots, provided `n` only has parents at times at which it exists.
   */
  lemma EdgesRoundTrip(k: Constants, g: Graph, g0: Graph, n: NodeId)
    requires Ordered(k) && n in g && n in g0 && g0[n].IsRoot()
    requires g0[n].diffType == g[n].diffType
    requires g[n].beforeParent.Some? ==> g[n].beforeParent.value in g0 && g[n].diffType.ExistsAtTime(BEFORE)
    requires g[n].afterParent.Some? ==> g[n].afterParent.value in g0 && g[n].diffType.ExistsAtTime(AFTER)
    ensures var es := ParentEdges(k, g, n);
      (forall i :: 0 <= i < |es| ==> es[i].0 in g0) &&
      var r := ReadEdges(g0, k, n, es);
      r.result.Ok? && r.graph[n].beforeParent == g[n].beforeParent && r.graph[n].afterParent == g[n].afterParent
  {
    var es := ParentEdges(k, g, n);
    var b, a := g[n].beforeParent, g[n].afterParent;
    KindOfPrefixes(k);
    if b.Some? && a.Some? && b.value == a.value {
      LabelEditLinks(g0, k, n, b.value, k.beforeAndAfter);
    } else if b.Some? {
      LabelEditLinks(g0, k, n, b.value, k.before);
      if a.Some? {
        var g1 := LabelEdit(g0, k, n, b.value, k.before).graph;
        assert es[1..] == [(a.value, k.after)];
        LabelEditLinks(g1, k, n, a.value, k.after);
        var g2 := LabelEdit(g1, k, n, a.value, k.after).graph;
        assert ReadEdges(g1, k, n, es[1..]) == ReadEdges(g2, k, n, []);
      }
    } else if a.Some? {
      LabelEditLinks(g0, k, n, a.value, k.after);
    }
  }

  /** `connectAccordingToLabel` on the node heap, corrected as `LabelEdit` describes. */
  method ConnectAccordingToLabel(h: DiffEditor.NodeHeap, k: Constants, child: NodeId, parent: NodeId, edgeLabel: string)
    returns (r: Result<()>)
    requires child in h.nodes && parent in h.nodes
    modifies h
    ensures Outcome(r, h.nodes) == LabelEdit(old(h.nodes), k, child, parent, edgeLabel)
  {
    var kind := KindOf(k, edgeLabel);
    if kind.Err? {
      return Err(kind.error);
    }
    var added: Result<bool>;
    if kind.value == BeforeAndAfter {
      added := h.AddChild(parent, child, AFTER);
      if added.Err? {
        return Err(added.error);
      }
      added := h.AddChild(parent, child, BEFORE);
    } else if kind.value == BeforeOnly {
      added := h.AddChild(parent, child, BEFORE);
    } else {
      added := h.AddChild(parent, child, AFTER);
    }
    if added.Err? {
      return Err(added.error);
    }
    return Ok(());
  }

  /** `connect` on the node heap. */
  method Connect(h: DiffEditor.NodeHeap, k: Constants, ids: map<int, NodeId>, line: string) returns (r: Result<()>)
    requires forall i :: i in ids ==> ids[i] in h.nodes
    modifies h
    ensures Outcome(r, h.nodes) == LineEdit(old(h.nodes), k, ids, line)
  {
    if !(k.edge <= line) {
      return Err(IllegalArgument);
    }
    var edge := Strings.JavaSplit(line, ' ');
    if |edge| < 4 {
      return Err(IndexOutOfBounds);
    }
    var from := Strings.ParseInt(edge[1]);
    if from.Err? {
      return Err(from.error);
    }
    var to := Strings.ParseInt(edge[2]);
    if to.Err? {
      return Err(to.error);
    }
    if from.value !in ids || to.value !in ids {
      return Err(IllegalArgument);
    }
    r := ConnectAccordingToLabel(h, k, ids[from.value], ids[to.value], edge[3]);
  }
}
