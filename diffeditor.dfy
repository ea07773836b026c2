/**
 * The attach and detach operations of `DiffNode` as they run: methods that
 * update the parent slots and child orders of the node heap in place. Each
 * is proved to leave exactly the graph that the matching function of
 * `DiffEdits` describes, so the lemmas there apply to the new state.
 */
module DiffEditor {
  import opened Wrappers
  import opened DiffTypes
  import opened DiffGraph
  import DiffEdits

  /** All `DiffNode` objects of one diff, by identity. */
  class NodeHeap {
    var nodes: Graph

    constructor(g: Graph)
      ensures nodes == g
    {
      nodes := g;
    }

    /** `child.setParent(p, t)`, asserting that the slot is empty. */
    method SetParent(c: NodeId, t: Time, p: NodeId) returns (r: Result<()>)
      requires c in nodes
      modifies this
      ensures DiffEdits.SetParent(old(nodes), c, t, p).Ok? ==>
        r == Ok(()) && nodes == DiffEdits.SetParent(old(nodes), c, t, p).value
      ensures DiffEdits.SetParent(old(nodes), c, t, p).Err? ==> r == Err(AssertionFailure) && nodes == old(nodes)
    {
      if nodes[c].Parent(t).Some? {
        return Err(AssertionFailure);
      }
      nodes := nodes[c := nodes[c].WithParent(t, Some(p))];
      return Ok(());
    }

    /** `p.addChild(c, t)`. */
    method AddChild(p: NodeId, c: NodeId, t: Time) returns (r: Result<bool>)
      requires p in nodes && c in nodes
      modifies this
      ensures DiffEdits.Outcome(r, nodes) == DiffEdits.AddChild(old(nodes), p, c, t)
      ensures old(Linked(nodes)) ==> Linked(nodes)
    {
      ghost var g := nodes;
      if Linked(g) {
        DiffEdits.AddChildKeepsLinks(g, p, c, t);
      }
      if !nodes[c].diffType.ExistsAtTime(t) {
        return Ok(false);
      }
      if nodes[c].Parent(t).Some? {
        return Err(IllegalArgument);
      }
      if !IsChild(nodes, p, c) {
        nodes := nodes[p := nodes[p].(childOrder := nodes[p].childOrder + [c])];
      }
      var _ := SetParent(c, t, p);
      return Ok(true);
    }

    /** `p.insertChild(c, index, t)`. */
    method InsertChild(p: NodeId, c: NodeId, index: int, t: Time) returns (r: Result<bool>)
      requires p in nodes && c in nodes
      modifies this
      ensures DiffEdits.Outcome(r, nodes) == DiffEdits.InsertChild(old(nodes), p, c, index, t)
    {
      if !nodes[c].diffType.ExistsAtTime(t) {
        return Ok(false);
      }
      if !IsChild(nodes, p, c) {
        var order := nodes[p].childOrder;
        if !(0 <= index <= |order|) {
          return Err(IndexOutOfBounds);
        }
        nodes := nodes[p := nodes[p].(childOrder := order[..index] + [c] + order[index..])];
      }
      var slot := SetParent(c, t, p);
      if slot.Err? {
        return Err(slot.error);
      }
      return Ok(true);
    }

    /** `p.removeChild(c, t)`, searching the child order by identity. */
    method RemoveChild(p: NodeId, c: NodeId, t: Time) returns (r: bool)
      requires p in nodes && c in nodes
      modifies this
      ensures DiffEdits.Outcome(Ok(r), nodes) == DiffEdits.RemoveChild(old(nodes), p, c, t)
      ensures old(Linked(nodes)) ==> Linked(nodes) && !IsChildAt(nodes, p, c, t)
    {
      ghost var g := nodes;
      if Linked(g) {
        DiffEdits.RemoveChildKeepsLinks(g, p, c, t);
      }
      if !IsChildAt(nodes, p, c, t) {
        return false;
      }
      nodes := nodes[c := nodes[c].WithParent(t, None)];
      if !IsChild(nodes, p, c) {
        nodes := nodes[p := nodes[p].(childOrder := DiffEdits.RemoveFirst(nodes[p].childOrder, c))];
      }
      return true;
    }

    /**
     * The `removeIf` pass of `p.removeChildren(t)` over `order`: every node
     * that is a child of `p` at `t` loses that parent and is collected as an
     * orphan; the nodes still linked to `p` are collected in `kept`.
     */
    method ClearChildrenAt(p: NodeId, t: Time, order: seq<NodeId>) returns (kept: seq<NodeId>, orphans: seq<NodeId>)
      modifies this
      ensures (nodes, kept, orphans) == DiffEdits.RemoveChildrenFold(old(nodes), p, t, order)
    {
      ghost var g := nodes;
      kept, orphans := [], [];
      var i := 0;
      assert order[i..] == order;
      while i < |order|
        invariant 0 <= i <= |order| && nodes.Keys == g.Keys
        invariant DiffEdits.RemoveChildrenFold(nodes, p, t, order[i..]).0 == DiffEdits.RemoveChildrenFold(g, p, t, order).0
        invariant kept + DiffEdits.RemoveChildrenFold(nodes, p, t, order[i..]).1 == DiffEdits.RemoveChildrenFold(g, p, t, order).1
        invariant orphans + DiffEdits.RemoveChildrenFold(nodes, p, t, order[i..]).2 == DiffEdits.RemoveChildrenFold(g, p, t, order).2
      {
        var c := order[i];
        assert order[i..][0] == c && order[i..][1..] == order[i + 1..];
        DiffEdits.RemoveChildrenFoldStep(nodes, p, t, order[i..]);
        if IsChildAt(nodes, p, c, t) {
          orphans := orphans + [c];
          nodes := nodes[c := nodes[c].WithParent(t, None)];
          if IsChildAt(nodes, p, c, t.Other()) {
            kept := kept + [c];
          }
        } else {
          kept := kept + [c];
        }
        i := i + 1;
      }
      assert order[i..] == [];
      assert DiffEdits.RemoveChildrenFold(nodes, p, t, []) == (nodes, [], []);
      assert kept + [] == kept && orphans + [] == orphans;
    }

    /** `p.removeChildren(t)`: returns the orphans. */
    method RemoveChildren(p: NodeId, t: Time) returns (orphans: seq<NodeId>)
      requires p in nodes
      modifies this
      ensures DiffEdits.Outcome(Ok(orphans), nodes) == DiffEdits.RemoveChildren(old(nodes), p, t)
      ensures old(Linked(nodes)) ==> Linked(nodes) && forall x :: !IsChildAt(nodes, p, x, t)
    {
      ghost var g := nodes;
      if Linked(g) {
        DiffEdits.RemoveChildrenKeepsLinks(g, p, t);
      }
      var kept;
      kept, orphans := ClearChildrenAt(p, t, nodes[p].childOrder);
      nodes := nodes[p := nodes[p].(childOrder := kept)];
    }

    /** `p.addChildren(cs, t)`. */
    method AddChildren(p: NodeId, cs: seq<NodeId>, t: Time) returns (r: Result<()>)
      requires p in nodes && forall x :: x in cs ==> x in nodes
      modifies this
      ensures DiffEdits.Outcome(r, nodes) == DiffEdits.AddChildren(old(nodes), p, cs, t)
    {
      ghost var g := nodes;
      var i := 0;
      while i < |cs|
        invariant 0 <= i <= |cs| && nodes.Keys == g.Keys
        invariant DiffEdits.AddChildren(nodes, p, cs[i..], t) == DiffEdits.AddChildren(g, p, cs, t)
      {
        assert cs[i] in cs;
        assert cs[i..] == [cs[i]] + cs[i + 1..];
        var added := AddChild(p, cs[i], t);
        if added.Err? {
          return Err(added.error);
        }
        i := i + 1;
      }
      return Ok(());
    }

    /** `p.removeChildren(cs)`. */
    method RemoveGivenChildren(p: NodeId, cs: seq<NodeId>)
      requires p in nodes && forall x :: x in cs ==> x in nodes
      modifies this
      ensures nodes == DiffEdits.RemoveGivenChildren(old(nodes), p, cs)
      ensures old(Linked(nodes)) ==> Linked(nodes) && forall x :: x in cs ==> !IsChild(nodes, p, x)
    {
      ghost var g := nodes;
      var i := 0;
      while i < |cs|
        invariant 0 <= i <= |cs| && nodes.Keys == g.Keys
        invariant DiffEdits.RemoveGivenChildren(nodes, p, cs[i..]) == DiffEdits.RemoveGivenChildren(g, p, cs)
      {
        assert cs[i] in cs;
        assert cs[i..] == [cs[i]] + cs[i + 1..];
        var _ := RemoveChild(p, cs[i], BEFORE);
        var _ := RemoveChild(p, cs[i], AFTER);
        i := i + 1;
      }
      if Linked(g) {
        DiffEdits.RemoveGivenChildrenSpec(g, p, cs);
      }
    }

    /** `p.stealChildrenOf(o)`. */
    method StealChildrenOf(p: NodeId, o: NodeId) returns (r: Result<()>)
      requires p in nodes && o in nodes
      modifies this
      ensures DiffEdits.Outcome(r, nodes) == DiffEdits.StealChildrenOf(old(nodes), p, o)
      ensures old(Linked(nodes) && TimesRespected(nodes)) && p != o ==>
        r.Ok? && Linked(nodes) && nodes[o].childOrder == [] && forall x :: !IsChild(nodes, o, x)
    {
      ghost var g := nodes;
      if Linked(g) && TimesRespected(g) && p != o {
        DiffEdits.StealChildrenOfSpec(g, p, o);
      }
      var before := RemoveChildren(o, BEFORE);
      r := AddChildren(p, before, BEFORE);
      if r.Err? {
        return;
      }
      var after := RemoveChildren(o, AFTER);
      r := AddChildren(p, after, AFTER);
    }

    /** `c.drop()`. */
    method Drop(c: NodeId)
      requires c in nodes && DiffEdits.ParentsIn(nodes, c)
      modifies this
      ensures nodes == DiffEdits.Drop(old(nodes), c)
      ensures old(Linked(nodes)) ==> Linked(nodes) && nodes[c].IsRoot()
    {
      ghost var g := nodes;
      if Linked(g) {
        DiffEdits.DropSpec(g, c);
      }
      if nodes[c].beforeParent.Some? {
        var _ := RemoveChild(nodes[c].beforeParent.value, c, BEFORE);
      }
      if nodes[c].afterParent.Some? {
        var _ := RemoveChild(nodes[c].afterParent.value, c, AFTER);
      }
    }

    /** `c.addBelow(b, a)`. */
    method AddBelow(c: NodeId, b: Option<NodeId>, a: Option<NodeId>) returns (r: Result<bool>)
      requires c in nodes && (b.Some? ==> b.value in nodes) && (a.Some? ==> a.value in nodes)
      modifies this
      ensures DiffEdits.Outcome(r, nodes) == DiffEdits.AddBelow(old(nodes), c, b, a)
    {
      var success := false;
      if b.Some? {
        var added := AddChild(b.value, c, BEFORE);
        if added.Err? {
          return Err(added.error);
        }
        success := success || added.value;
      }
      if a.Some? {
        var added := AddChild(a.value, c, AFTER);
        if added.Err? {
          return Err(added.error);
        }
        success := success || added.value;
      }
      return Ok(success);
    }
  }
}
