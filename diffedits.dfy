/**
 * The attach and detach operations of `DiffNode`, as effects on the node
 * graph: each returns what the Java method returns (or the exception it
 * throws) together with the graph it leaves behind.
 */
module DiffEdits {
  import opened Wrappers
  import opened DiffTypes
  import opened DiffGraph

  /** The value or exception of a call and the node graph after it. */
  datatype Outcome<+T> = Outcome(result: Result<T>, graph: Graph)

  /** `List.remove(Object)` on a list of node identities: drops the first occurrence. */
  function RemoveFirst(s: seq<NodeId>, c: NodeId): (r: seq<NodeId>)
    ensures multiset(r) == multiset(s) - multiset{c}
    ensures forall x :: x in r ==> x in s
    ensures forall x :: x != c ==> (x in r <==> x in s)
  {
    if s == [] then []
    else if s[0] == c then
      assert s == [s[0]] + s[1..];
      s[1..]
    else
      assert s == [s[0]] + s[1..];
      [s[0]] + RemoveFirst(s[1..], c)
  }

  /** Removing from a list without duplicates removes every occurrence and keeps it duplicate-free. */
  lemma {:induction false} RemoveFirstNoDuplicates(s: seq<NodeId>, c: NodeId)
    requires NoDuplicates(s)
    ensures NoDuplicates(RemoveFirst(s, c)) && c !in RemoveFirst(s, c)
    decreases |s|
  {
    if s != [] {
      assert s[0] !in s[1..];
      assert NoDuplicates(s[1..]);
      RemoveFirstNoDuplicates(s[1..], c);
    }
  }

  /** `setParent`'s assertion: the slot at `t` must be empty. */
  function SetParent(g: Graph, c: NodeId, t: Time, p: NodeId): (r: Result<Graph>)
    requires c in g
    ensures r.Ok? <==> g[c].Parent(t).None?
    ensures r.Err? ==> r.error == AssertionFailure
    ensures r.Ok? ==> r.value.Keys == g.Keys && r.value[c] == g[c].WithParent(t, Some(p))
    ensures r.Ok? ==> forall n :: n in g && n != c ==> r.value[n] == g[n]
  {
    if g[c].Parent(t).Some? then Err(AssertionFailure)
    else Ok(g[c := g[c].WithParent(t, Some(p))])
  }

  /**
   * `p.addChild(c, t)`: nothing happens unless `c` exists at `t`; a `c` that
   * already has a parent at `t` is refused; otherwise `c` is appended to the
   * child order unless it is a child already, and gets `p` as parent at `t`.
   */
  function AddChild(g: Graph, p: NodeId, c: NodeId, t: Time): (r: Outcome<bool>)
    requires p in g && c in g
    ensures r.graph.Keys == g.Keys
    ensures !g[c].diffType.ExistsAtTime(t) ==> r == Outcome(Ok(false), g)
    ensures g[c].diffType.ExistsAtTime(t) && g[c].Parent(t).Some? ==> r == Outcome(Err(IllegalArgument), g)
    ensures r.result == Ok(true) ==> IsChildAt(r.graph, p, c, t)
    ensures r.result.Ok? || r.result == Err(IllegalArgument)
  {
    if !g[c].diffType.ExistsAtTime(t) then Outcome(Ok(false), g)
    else if g[c].Parent(t).Some? then Outcome(Err(IllegalArgument), g)
    else
      var g1 := if IsChild(g, p, c) then g else g[p := g[p].(childOrder := g[p].childOrder + [c])];
      assert g1[c].Parent(t).None?;
      Outcome(Ok(true), SetParent(g1, c, t, p).value)
  }

  /** Every node keeps the attributes `equals` compares. */
  ghost predicate SameAttrs(g: Graph, g': Graph)
  {
    g'.Keys == g.Keys && forall x :: x in g ==> Attrs(g'[x]) == Attrs(g[x])
  }

  /**
   * `insertChild(c, index, t)`: like `addChild` but without the check for an
   * existing parent; `c` is put at `index` of the child order, where
   * `List.add` refuses an index outside `0..size`. The assertion in
   * `setParent` fails after the child order was changed already.
   */
  function InsertChild(g: Graph, p: NodeId, c: NodeId, index: int, t: Time): (r: Outcome<bool>)
    requires p in g && c in g
    ensures r.graph.Keys == g.Keys
    ensures !g[c].diffType.ExistsAtTime(t) ==> r == Outcome(Ok(false), g)
    ensures r.result.Ok? ==> r.result.value == g[c].diffType.ExistsAtTime(t)
    ensures r.result == Ok(true) ==> IsChildAt(r.graph, p, c, t)
    ensures r.result == Err(IndexOutOfBounds) <==>
      g[c].diffType.ExistsAtTime(t) && !IsChild(g, p, c) && !(0 <= index <= |g[p].childOrder|)
    ensures r.result == Err(IndexOutOfBounds) ==> r.graph == g
    ensures r.result == Err(AssertionFailure) <==>
      g[c].diffType.ExistsAtTime(t) && g[c].Parent(t).Some? && (IsChild(g, p, c) || 0 <= index <= |g[p].childOrder|)
    ensures r.result.Err? ==> r.result.error in {IndexOutOfBounds, AssertionFailure}
  {
    if !g[c].diffType.ExistsAtTime(t) then Outcome(Ok(false), g)
    else
      var order := g[p].childOrder;
      if !IsChild(g, p, c) && !(0 <= index <= |order|) then Outcome(Err(IndexOutOfBounds), g)
      else
        var g1 := if IsChild(g, p, c) then g else g[p := g[p].(childOrder := order[..index] + [c] + order[index..])];
        assert g1[c].Parent(t) == g[c].Parent(t);
        match SetParent(g1, c, t, p)
        case Ok(g2) => Outcome(Ok(true), g2)
        case Err(e) => Outcome(Err(e), g1)
  }

  /**
   * `g'` is `g` after `c` got `p` as its parent at `t` and `p`'s child order
   * became `order`; nothing else changes.
   */
  ghost predicate Attached(g: Graph, g': Graph, p: NodeId, c: NodeId, t: Time, order: seq<NodeId>)
    requires p in g && c in g
  {
    SameAttrs(g, g') &&
    (forall x, u :: x in g ==>
      g'[x].Parent(u) == if x == c && u == t then Some(p) else g[x].Parent(u)) &&
    (forall x :: x in g && x != p ==> g'[x].childOrder == g[x].childOrder) &&
    g'[p].childOrder == order
  }

  /**
   * Giving a parentless `c` the parent `p` keeps the links consistent
   * provided `c` enters `p`'s child order exactly when it was not a child.
   */
  lemma AttachedKeepsLinks(g: Graph, g': Graph, p: NodeId, c: NodeId, t: Time, order: seq<NodeId>)
    requires Linked(g) && p in g && c in g && g[c].Parent(t).None?
    requires Attached(g, g', p, c, t, order)
    requires IsChild(g, p, c) ==> order == g[p].childOrder
    requires !IsChild(g, p, c) ==>
      NoDuplicates(order) && forall x :: x in order <==> x in g[p].childOrder || x == c
    ensures Linked(g')
    ensures TimesRespected(g) && g[c].diffType.ExistsAtTime(t) ==> TimesRespected(g')
  {
    forall q, x | q in g' && x in g'
      ensures x in g'[q].childOrder <==> IsChild(g', q, x)
    {
      AttachedListing(g, g', p, c, t, order, q, x);
    }
    forall x | x in g' ensures (g'[x].beforeParent.Some? ==> g'[x].beforeParent.value in g') &&
      (g'[x].afterParent.Some? ==> g'[x].afterParent.value in g') &&
      (forall i :: 0 <= i < |g'[x].childOrder| ==> g'[x].childOrder[i] in g') {
      assert g'[x].Parent(BEFORE) == if x == c && BEFORE == t then Some(p) else g[x].Parent(BEFORE);
      assert g'[x].Parent(AFTER) == if x == c && AFTER == t then Some(p) else g[x].Parent(AFTER);
      if x == p {
        forall i | 0 <= i < |order| ensures order[i] in g' {
          assert order[i] in g[p].childOrder || order[i] == c;
        }
      }
    }
    if TimesRespected(g) && g[c].diffType.ExistsAtTime(t) {
      forall x, u | x in g' && g'[x].Parent(u).Some? ensures g'[x].diffType.ExistsAtTime(u) {
        assert Attrs(g'[x]) == Attrs(g[x]);
      }
    }
  }

  /** After attaching, `x` is listed by `q` exactly when `q` is its parent at some time. */
  lemma AttachedListing(g: Graph, g': Graph, p: NodeId, c: NodeId, t: Time, order: seq<NodeId>, q: NodeId, x: NodeId)
    requires Linked(g) && p in g && c in g && g[c].Parent(t).None?
    requires Attached(g, g', p, c, t, order)
    requires IsChild(g, p, c) ==> order == g[p].childOrder
    requires !IsChild(g, p, c) ==> forall y :: y in order <==> y in g[p].childOrder || y == c
    requires q in g' && x in g'
    ensures x in g'[q].childOrder <==> IsChild(g', q, x)
  {
    var u := t.Other();
    assert g'[x].Parent(t) == if x == c && t == t then Some(p) else g[x].Parent(t);
    assert g'[x].Parent(u) == if x == c && u == t then Some(p) else g[x].Parent(u);
    assert t == BEFORE || t == AFTER;
    assert IsChild(g', q, x) <==> IsChildAt(g', q, x, t) || IsChildAt(g', q, x, u);
    assert IsChild(g, q, x) <==> IsChildAt(g, q, x, t) || IsChildAt(g, q, x, u);
    if q == p && x == c {
      assert IsChildAt(g', q, x, t);
      if IsChild(g, p, c) { assert c in g[p].childOrder; }
    } else if q == p {
      assert IsChild(g', q, x) == IsChild(g, q, x);
    } else {
      assert g'[q].childOrder == g[q].childOrder;
      assert IsChild(g', q, x) == IsChild(g, q, x);
    }
  }

  lemma AppendNoDuplicates(s: seq<NodeId>, c: NodeId)
    requires NoDuplicates(s) && c !in s
    ensures NoDuplicates(s + [c]) && forall x :: x in s + [c] <==> x in s || x == c
  {
  }

  lemma InsertNoDuplicates(s: seq<NodeId>, c: NodeId, i: nat)
    requires NoDuplicates(s) && c !in s && i <= |s|
    ensures NoDuplicates(s[..i] + [c] + s[i..])
    ensures forall x :: x in s[..i] + [c] + s[i..] <==> x in s || x == c
  {
    assert s == s[..i] + s[i..];
    var r := s[..i] + [c] + s[i..];
    forall j, k | 0 <= j < k < |r| ensures r[j] != r[k] {
      if j < i && k > i { assert r[k] == s[k - 1]; }
      else if j > i { assert r[j] == s[j - 1] && r[k] == s[k - 1]; }
      else if j == i { assert r[k] == s[k - 1]; }
    }
  }

  /**
   * A successful `addChild` attaches `c` below `p` at `t`, appending it to the
   * child order iff it was no child yet; a failing one changes nothing.
   */
  lemma AddChildAttaches(g: Graph, p: NodeId, c: NodeId, t: Time)
    requires p in g && c in g
    ensures AddChild(g, p, c, t).result == Ok(true) ==>
      g[c].Parent(t).None? &&
      Attached(g, AddChild(g, p, c, t).graph, p, c, t,
        if IsChild(g, p, c) then g[p].childOrder else g[p].childOrder + [c])
    ensures AddChild(g, p, c, t).result != Ok(true) ==> AddChild(g, p, c, t).graph == g
  {
  }

  /** `addChild` keeps the links consistent and the times respected. */
  lemma AddChildKeepsLinks(g: Graph, p: NodeId, c: NodeId, t: Time)
    requires Linked(g) && p in g && c in g
    ensures Linked(AddChild(g, p, c, t).graph)
    ensures TimesRespected(g) ==> TimesRespected(AddChild(g, p, c, t).graph)
  {
    AddChildAttaches(g, p, c, t);
    if AddChild(g, p, c, t).result == Ok(true) {
      if !IsChild(g, p, c) {
        assert c !in g[p].childOrder;
        AppendNoDuplicates(g[p].childOrder, c);
      }
      AttachedKeepsLinks(g, AddChild(g, p, c, t).graph, p, c, t,
        if IsChild(g, p, c) then g[p].childOrder else g[p].childOrder + [c]);
    }
  }

  /**
   * A successful `insertChild` puts a `c` that was no child yet at position
   * `index` of the child order and keeps the links consistent.
   */
  lemma InsertChildKeepsLinks(g: Graph, p: NodeId, c: NodeId, index: int, t: Time)
    requires Linked(g) && p in g && c in g
    ensures InsertChild(g, p, c, index, t).result == Ok(true) ==>
      Linked(InsertChild(g, p, c, index, t).graph)
    ensures InsertChild(g, p, c, index, t).result == Ok(true) && !IsChild(g, p, c) ==>
      0 <= index < |InsertChild(g, p, c, index, t).graph[p].childOrder| &&
      InsertChild(g, p, c, index, t).graph[p].childOrder[index] == c
    ensures TimesRespected(g) && InsertChild(g, p, c, index, t).result == Ok(true) ==>
      TimesRespected(InsertChild(g, p, c, index, t).graph)
  {
    var r := InsertChild(g, p, c, index, t);
    if r.result == Ok(true) {
      var order := g[p].childOrder;
      if IsChild(g, p, c) {
        AttachedKeepsLinks(g, r.graph, p, c, t, order);
      } else {
        assert c !in order;
        InsertNoDuplicates(order, c, index);
        var order' := order[..index] + [c] + order[index..];
        assert Attached(g, r.graph, p, c, t, order');
        AttachedKeepsLinks(g, r.graph, p, c, t, order');
        assert order'[index] == c;
      }
    }
  }

  /**
   * `p.removeChild(c, t)`: answers whether `p` is `c`'s parent at `t`; if so,
   * `dropChild` empties that slot and `removeFromCache` takes `c` out of the
   * child order unless it is still a child at the other time. The child order
   * is searched by identity here; `RemoveChildAsWritten` searches it by
   * `equals`, as the Java list does.
   */
  function RemoveChild(g: Graph, p: NodeId, c: NodeId, t: Time): (r: Outcome<bool>)
    requires p in g && c in g
    ensures r.result == Ok(IsChildAt(g, p, c, t))
    ensures !IsChildAt(g, p, c, t) ==> r.graph == g
    ensures r.graph.Keys == g.Keys
    ensures IsChildAt(g, p, c, t) ==> r.graph[c].Parent(t).None?
    ensures forall x, u :: x in g && (x != c || u != t) ==> r.graph[x].Parent(u) == g[x].Parent(u)
  {
    if !IsChildAt(g, p, c, t) then Outcome(Ok(false), g)
    else
      var g1 := g[c := g[c].WithParent(t, None)];
      if IsChild(g1, p, c) then Outcome(Ok(true), g1)
      else Outcome(Ok(true), g1[p := g1[p].(childOrder := RemoveFirst(g1[p].childOrder, c))])
  }

  /** `g'` is `g` after `c` lost its parent at `t` and `p`'s child order became `order`. */
  ghost predicate Detached(g: Graph, g': Graph, p: NodeId, c: NodeId, t: Time, order: seq<NodeId>)
    requires p in g && c in g
  {
    SameAttrs(g, g') &&
    (forall x, u :: x in g ==>
      g'[x].Parent(u) == if x == c && u == t then None else g[x].Parent(u)) &&
    (forall x :: x in g && x != p ==> g'[x].childOrder == g[x].childOrder) &&
    g'[p].childOrder == order
  }

  /**
   * Detaching a child keeps the links consistent provided `c` leaves `p`'s
   * child order exactly when it is no child at the other time either.
   */
  lemma DetachedKeepsLinks(g: Graph, g': Graph, p: NodeId, c: NodeId, t: Time, order: seq<NodeId>)
    requires Linked(g) && p in g && IsChildAt(g, p, c, t)
    requires Detached(g, g', p, c, t, order)
    requires IsChildAt(g, p, c, t.Other()) ==> order == g[p].childOrder
    requires !IsChildAt(g, p, c, t.Other()) ==>
      NoDuplicates(order) && forall x :: x in order <==> x in g[p].childOrder && x != c
    ensures Linked(g')
    ensures TimesRespected(g) ==> TimesRespected(g')
  {
    forall q, x | q in g' && x in g'
      ensures x in g'[q].childOrder <==> IsChild(g', q, x)
    {
      DetachedListing(g, g', p, c, t, order, q, x);
    }
    forall x | x in g' ensures (g'[x].beforeParent.Some? ==> g'[x].beforeParent.value in g') &&
      (g'[x].afterParent.Some? ==> g'[x].afterParent.value in g') &&
      (forall i :: 0 <= i < |g'[x].childOrder| ==> g'[x].childOrder[i] in g') {
      assert g'[x].Parent(BEFORE) == if x == c && BEFORE == t then None else g[x].Parent(BEFORE);
      assert g'[x].Parent(AFTER) == if x == c && AFTER == t then None else g[x].Parent(AFTER);
      if x == p {
        forall i | 0 <= i < |order| ensures order[i] in g' {
          if IsChildAt(g, p, c, t.Other()) {
            assert order[i] == g[p].childOrder[i];
          } else {
            assert order[i] in order;
            ListedInGraph(g, p, order[i]);
          }
        }
      }
    }
    if TimesRespected(g) {
      forall x, u | x in g' && g'[x].Parent(u).Some? ensures g'[x].diffType.ExistsAtTime(u) {
        assert Attrs(g'[x]) == Attrs(g[x]);
        assert g'[x].Parent(u) == if x == c && u == t then None else g[x].Parent(u);
      }
    }
  }

  /** A node listed as a child in a closed graph is a node of the graph. */
  lemma ListedInGraph(g: Graph, n: NodeId, y: NodeId)
    requires Closed(g) && n in g && y in g[n].childOrder
    ensures y in g
  {
    var j :| 0 <= j < |g[n].childOrder| && g[n].childOrder[j] == y;
  }

  /** After detaching, `x` is listed by `q` exactly when `q` is its parent at some time. */
  lemma DetachedListing(g: Graph, g': Graph, p: NodeId, c: NodeId, t: Time, order: seq<NodeId>, q: NodeId, x: NodeId)
    requires Linked(g) && p in g && IsChildAt(g, p, c, t)
    requires Detached(g, g', p, c, t, order)
    requires IsChildAt(g, p, c, t.Other()) ==> order == g[p].childOrder
    requires !IsChildAt(g, p, c, t.Other()) ==> forall y :: y in order <==> y in g[p].childOrder && y != c
    requires q in g' && x in g'
    ensures x in g'[q].childOrder <==> IsChild(g', q, x)
  {
    var u := t.Other();
    assert g'[x].Parent(t) == if x == c && t == t then None else g[x].Parent(t);
    assert g'[x].Parent(u) == if x == c && u == t then None else g[x].Parent(u);
    assert t == BEFORE || t == AFTER;
    assert IsChild(g', q, x) <==> IsChildAt(g', q, x, t) || IsChildAt(g', q, x, u);
    assert IsChild(g, q, x) <==> IsChildAt(g, q, x, t) || IsChildAt(g, q, x, u);
    if q == p && x == c {
      assert IsChild(g', q, x) <==> IsChildAt(g, p, c, u);
    } else if q == p {
      assert IsChild(g', q, x) == IsChild(g, q, x);
    } else {
      assert g'[q].childOrder == g[q].childOrder;
      assert IsChild(g', q, x) == IsChild(g, q, x);
    }
  }

  /** Detaching never creates a parent link. */
  lemma DetachedShrinks(g: Graph, g': Graph, p: NodeId, c: NodeId, t: Time, order: seq<NodeId>)
    requires p in g && c in g && Detached(g, g', p, c, t, order)
    ensures forall q, x :: IsChild(g', q, x) ==> IsChild(g, q, x)
    ensures !IsChildAt(g', p, c, t)
  {
    forall q, x | IsChild(g', q, x) ensures IsChild(g, q, x) {
      assert g'[x].Parent(BEFORE) == if x == c && BEFORE == t then None else g[x].Parent(BEFORE);
      assert g'[x].Parent(AFTER) == if x == c && AFTER == t then None else g[x].Parent(AFTER);
    }
    assert g'[c].Parent(t) == None;
  }

  /** What a successful `removeChild` changes. */
  lemma RemoveChildDetaches(g: Graph, p: NodeId, c: NodeId, t: Time)
    requires p in g && IsChildAt(g, p, c, t)
    ensures Detached(g, RemoveChild(g, p, c, t).graph, p, c, t,
      if IsChildAt(g, p, c, t.Other()) then g[p].childOrder else RemoveFirst(g[p].childOrder, c))
  {
    var g1 := g[c := g[c].WithParent(t, None)];
    assert IsChild(g1, p, c) == IsChildAt(g, p, c, t.Other());
    assert g1[p].childOrder == g[p].childOrder;
    var g' := RemoveChild(g, p, c, t).graph;
    if IsChildAt(g, p, c, t.Other()) {
      assert g' == g1;
    } else {
      assert g' == g1[p := g1[p].(childOrder := RemoveFirst(g[p].childOrder, c))];
    }
    forall x, u | x in g ensures g'[x].Parent(u) == if x == c && u == t then None else g[x].Parent(u) {
      assert g'[x].Parent(u) == g1[x].Parent(u);
    }
    forall x | x in g ensures Attrs(g'[x]) == Attrs(g[x]) {
      assert Attrs(g'[x]) == Attrs(g1[x]);
    }
  }

  /**
   * After `removeChild` the slot at `t` is empty, and `c` stays in the child
   * order iff `p` is still its parent at the other time; the links stay
   * consistent and no parent link is created.
   */
  lemma RemoveChildKeepsLinks(g: Graph, p: NodeId, c: NodeId, t: Time)
    requires Linked(g) && p in g && c in g
    ensures Linked(RemoveChild(g, p, c, t).graph)
    ensures TimesRespected(g) ==> TimesRespected(RemoveChild(g, p, c, t).graph)
    ensures !IsChildAt(RemoveChild(g, p, c, t).graph, p, c, t)
    ensures IsChildAt(g, p, c, t) ==>
      (c in RemoveChild(g, p, c, t).graph[p].childOrder <==> IsChildAt(g, p, c, t.Other()))
    ensures forall q, x :: IsChild(RemoveChild(g, p, c, t).graph, q, x) ==> IsChild(g, q, x)
  {
    var g' := RemoveChild(g, p, c, t).graph;
    if IsChildAt(g, p, c, t) {
      var order := g[p].childOrder;
      RemoveChildDetaches(g, p, c, t);
      if IsChildAt(g, p, c, t.Other()) {
        DetachedKeepsLinks(g, g', p, c, t, order);
        DetachedShrinks(g, g', p, c, t, order);
        assert c in order;
      } else {
        RemoveFirstNoDuplicates(order, c);
        DetachedKeepsLinks(g, g', p, c, t, RemoveFirst(order, c));
        DetachedShrinks(g, g', p, c, t, RemoveFirst(order, c));
      }
    }
  }

  /** `childOrder.remove(c)` as Java's list runs it: drops the first entry that `equals` `c`. */
  function RemoveFirstEqual(g: Graph, s: seq<NodeId>, c: NodeId): (r: seq<NodeId>)
    requires c in g && forall i :: 0 <= i < |s| ==> s[i] in g
    ensures |r| <= |s| && forall x :: x in r ==> x in s
    ensures (exists i :: 0 <= i < |s| && Attrs(g[s[i]]) == Attrs(g[c])) ==> |r| == |s| - 1
  {
    if s == [] then []
    else if Attrs(g[s[0]]) == Attrs(g[c]) then s[1..]
    else
      var rest := RemoveFirstEqual(g, s[1..], c);
      assert (exists i :: 0 <= i < |s| && Attrs(g[s[i]]) == Attrs(g[c])) ==>
        exists i :: 0 <= i < |s[1..]| && Attrs(g[s[1..][i]]) == Attrs(g[c]) by {
        if exists i :: 0 <= i < |s| && Attrs(g[s[i]]) == Attrs(g[c]) {
          var i :| 0 <= i < |s| && Attrs(g[s[i]]) == Attrs(g[c]);
          assert s[1..][i - 1] == s[i];
        }
      }
      [s[0]] + rest
  }

  /**
   * `removeChild` as written: `removeFromCache` calls `List.remove(Object)`,
   * which compares with `DiffNode.equals`, so it takes out the first child
   * with the same attributes, which need not be `c`.
   */
  function RemoveChildAsWritten(g: Graph, p: NodeId, c: NodeId, t: Time): (r: Outcome<bool>)
    requires p in g && c in g
    requires forall i :: 0 <= i < |g[p].childOrder| ==> g[p].childOrder[i] in g
    ensures r.result == Ok(IsChildAt(g, p, c, t))
    ensures !IsChildAt(g, p, c, t) ==> r.graph == g
    ensures r.graph.Keys == g.Keys
  {
    if !IsChildAt(g, p, c, t) then Outcome(Ok(false), g)
    else
      var g1 := g[c := g[c].WithParent(t, None)];
      if IsChild(g1, p, c) then Outcome(Ok(true), g1)
      else Outcome(Ok(true), g1[p := g1[p].(childOrder := RemoveFirstEqual(g1, g1[p].childOrder, c))])
  }

  /** An artifact removed by the edit, attached below node 0 before the edit. */
  function Twin(): Node
  {
    CreateArtifact(REM, InvalidLine(), InvalidLine(), []).(beforeParent := Some(0))
  }

  /** A root with two children that `equals` considers equal. */
  function TwinSiblings(): (g: Graph)
    ensures g.Keys == {0, 1, 2}
  {
    map[0 := CreateRoot().(childOrder := [1, 2]), 1 := Twin(), 2 := Twin()]
  }

  lemma TwinSiblingsLinked()
    ensures Linked(TwinSiblings()) && TimesRespected(TwinSiblings())
  {
    var g := TwinSiblings();
    forall q, x | q in g && x in g ensures x in g[q].childOrder <==> IsChild(g, q, x) {
      assert q == 0 || q == 1 || q == 2;
      assert x == 0 || x == 1 || x == 2;
    }
    forall n, t | n in g && g[n].Parent(t).Some? ensures g[n].diffType.ExistsAtTime(t) {
      assert n == 0 || n == 1 || n == 2;
    }
  }

  /**
   * Removing the second of two equal siblings as written takes the first out
   * of the child order: afterwards node 1 is a child that is not listed, and
   * node 2 is listed but no child. The identity-based `RemoveChild` keeps the
   * links consistent on the same input.
   */
  lemma RemoveChildAsWrittenLosesSibling()
    ensures Linked(TwinSiblings())
    ensures RemoveChildAsWritten(TwinSiblings(), 0, 2, BEFORE).graph[0].childOrder == [2]
    ensures IsChildAt(RemoveChildAsWritten(TwinSiblings(), 0, 2, BEFORE).graph, 0, 1, BEFORE)
    ensures !Linked(RemoveChildAsWritten(TwinSiblings(), 0, 2, BEFORE).graph)
    ensures RemoveChild(TwinSiblings(), 0, 2, BEFORE).graph[0].childOrder == [1]
    ensures Linked(RemoveChild(TwinSiblings(), 0, 2, BEFORE).graph)
  {
    var g := TwinSiblings();
    TwinSiblingsLinked();
    var g' := RemoveChildAsWritten(g, 0, 2, BEFORE).graph;
    var g1 := g[2 := g[2].WithParent(BEFORE, None)];
    assert Attrs(g1[1]) == Attrs(g1[2]);
    assert RemoveFirstEqual(g1, [1, 2], 2) == [2];
    assert 1 !in g'[0].childOrder && IsChild(g', 0, 1);
    RemoveChildKeepsLinks(g, 0, 2, BEFORE);
    assert RemoveFirst([1, 2], 2) == [1] by {
      assert RemoveFirst([2], 2) == [];
    }
  }

  /** The members of `s` whose parent at `t` is `p`, in the order of `s`. */
  function ChildrenAt(g: Graph, p: NodeId, s: seq<NodeId>, t: Time): (r: seq<NodeId>)
    ensures forall x :: x in r <==> x in s && IsChildAt(g, p, x, t)
    ensures NoDuplicates(s) ==> NoDuplicates(r)
    decreases |s|
  {
    if s == [] then []
    else
      var rest := ChildrenAt(g, p, s[1..], t);
      assert NoDuplicates(s) ==> NoDuplicates(s[1..]) && s[0] !in rest;
      (if IsChildAt(g, p, s[0], t) then [s[0]] else []) + rest
  }

  /** `ChildrenAt` only looks at the parent slots at `t` of the members of `s`. */
  lemma {:induction false} ChildrenAtFrame(g: Graph, g': Graph, p: NodeId, s: seq<NodeId>, t: Time)
    requires forall x :: x in s ==> (x in g <==> x in g') && (x in g ==> g'[x].Parent(t) == g[x].Parent(t))
    ensures ChildrenAt(g', p, s, t) == ChildrenAt(g, p, s, t)
    decreases |s|
  {
    if s != [] {
      ChildrenAtFrame(g, g', p, s[1..], t);
    }
  }

  /**
   * The predicate of `childOrder.removeIf` in `removeChildren(t)`, applied to
   * `s` from left to right: every child at `t` is dropped and collected as an
   * orphan, and it stays in the list iff it is still a child at the other
   * time. Yields the graph, the kept list and the orphans.
   */
  function RemoveChildrenFold(g: Graph, p: NodeId, t: Time, s: seq<NodeId>): (r: (Graph, seq<NodeId>, seq<NodeId>))
    ensures r.0.Keys == g.Keys
    ensures forall x :: x in r.2 ==> x in g
    decreases |s|
  {
    if s == [] then (g, [], [])
    else if !IsChildAt(g, p, s[0], t) then
      var r := RemoveChildrenFold(g, p, t, s[1..]);
      (r.0, [s[0]] + r.1, r.2)
    else
      var g1 := g[s[0] := g[s[0]].WithParent(t, None)];
      var r := RemoveChildrenFold(g1, p, t, s[1..]);
      (r.0, if IsChildAt(g1, p, s[0], t.Other()) then [s[0]] + r.1 else r.1, [s[0]] + r.2)
  }

  /** One step of the fold: the head of `s` is handled on its own, the rest on the updated graph. */
  lemma RemoveChildrenFoldStep(g: Graph, p: NodeId, t: Time, s: seq<NodeId>)
    requires s != []
    ensures var c := s[0];
      var orphan := IsChildAt(g, p, c, t);
      var g1 := if orphan then g[c := g[c].WithParent(t, None)] else g;
      var kept := !orphan || IsChildAt(g1, p, c, t.Other());
      var r := RemoveChildrenFold(g1, p, t, s[1..]);
      RemoveChildrenFold(g, p, t, s) ==
        (r.0, (if kept then [c] else []) + r.1, (if orphan then [c] else []) + r.2)
  {
    var c := s[0];
    if IsChildAt(g, p, c, t) {
      var g1 := g[c := g[c].WithParent(t, None)];
      var r := RemoveChildrenFold(g1, p, t, s[1..]);
      if IsChildAt(g1, p, c, t.Other()) {
        assert RemoveChildrenFold(g, p, t, s) == (r.0, [c] + r.1, [c] + r.2);
      } else {
        assert RemoveChildrenFold(g, p, t, s) == (r.0, r.1, [c] + r.2);
        assert [] + r.1 == r.1;
      }
    } else {
      var r := RemoveChildrenFold(g, p, t, s[1..]);
      assert RemoveChildrenFold(g, p, t, s) == (r.0, [c] + r.1, r.2);
      assert [] + r.2 == r.2;
    }
  }

  /** Over a list of distinct children, the fold clears exactly their slots at `t`. */
  lemma {:induction false} RemoveChildrenFoldSpec(g: Graph, p: NodeId, t: Time, s: seq<NodeId>)
    requires NoDuplicates(s) && forall x :: x in s ==> IsChild(g, p, x)
    ensures RemoveChildrenFold(g, p, t, s).2 == ChildrenAt(g, p, s, t)
    ensures RemoveChildrenFold(g, p, t, s).1 == ChildrenAt(g, p, s, t.Other())
    ensures forall x :: x in g ==>
      RemoveChildrenFold(g, p, t, s).0[x] == if x in s && IsChildAt(g, p, x, t) then g[x].WithParent(t, None) else g[x]
    decreases |s|
  {
    if s != [] {
      var c := s[0];
      assert NoDuplicates(s[1..]) && c !in s[1..];
      if !IsChildAt(g, p, c, t) {
        assert IsChildAt(g, p, c, t.Other()) by {
          assert c in s;
          if t == BEFORE { assert t.Other() == AFTER; } else { assert t.Other() == BEFORE; }
        }
        RemoveChildrenFoldSpec(g, p, t, s[1..]);
      } else {
        var g1 := g[c := g[c].WithParent(t, None)];
        forall x | x in s[1..] ensures IsChild(g1, p, x) {
          assert x != c && x in s;
        }
        RemoveChildrenFoldSpec(g1, p, t, s[1..]);
        ChildrenAtFrame(g, g1, p, s[1..], t);
        ChildrenAtFrame(g, g1, p, s[1..], t.Other());
      }
    }
  }

  /**
   * `p.removeChildren(t)`: returns the orphans; afterwards the child order
   * holds the kept nodes.
   */
  function RemoveChildren(g: Graph, p: NodeId, t: Time): (r: Outcome<seq<NodeId>>)
    requires p in g
    ensures r.result.Ok? && r.graph.Keys == g.Keys
    ensures forall x :: x in r.result.value ==> x in g
  {
    var f := RemoveChildrenFold(g, p, t, g[p].childOrder);
    Outcome(Ok(f.2), f.0[p := f.0[p].(childOrder := f.1)])
  }

  /**
   * `g'` is `g` after every child of `p` at `t` lost that parent and `p`'s
   * child order became `order`; nothing else changes.
   */
  ghost predicate Cleared(g: Graph, g': Graph, p: NodeId, t: Time, order: seq<NodeId>)
    requires p in g
  {
    SameAttrs(g, g') &&
    (forall x, u :: x in g ==>
      g'[x].Parent(u) == if u == t && IsChildAt(g, p, x, t) then None else g[x].Parent(u)) &&
    (forall x :: x in g && x != p ==> g'[x].childOrder == g[x].childOrder) &&
    g'[p].childOrder == order
  }

  /** Clearing all children at `t` and keeping those at the other time keeps the links consistent. */
  lemma ClearedKeepsLinks(g: Graph, g': Graph, p: NodeId, t: Time)
    requires Linked(g) && p in g
    requires Cleared(g, g', p, t, ChildrenAt(g, p, g[p].childOrder, t.Other()))
    ensures Linked(g')
    ensures TimesRespected(g) ==> TimesRespected(g')
    ensures forall x :: !IsChildAt(g', p, x, t)
    ensures forall q, x :: IsChild(g', q, x) ==> IsChild(g, q, x)
  {
    var order := ChildrenAt(g, p, g[p].childOrder, t.Other());
    forall q, x | q in g' && x in g'
      ensures x in g'[q].childOrder <==> IsChild(g', q, x)
    {
      ClearedListing(g, g', p, t, q, x);
    }
    forall x | x in g' ensures (g'[x].beforeParent.Some? ==> g'[x].beforeParent.value in g') &&
      (g'[x].afterParent.Some? ==> g'[x].afterParent.value in g') &&
      (forall i :: 0 <= i < |g'[x].childOrder| ==> g'[x].childOrder[i] in g') {
      assert g'[x].Parent(BEFORE) == if BEFORE == t && IsChildAt(g, p, x, t) then None else g[x].Parent(BEFORE);
      assert g'[x].Parent(AFTER) == if AFTER == t && IsChildAt(g, p, x, t) then None else g[x].Parent(AFTER);
      if x == p {
        forall i | 0 <= i < |order| ensures order[i] in g' {
          assert order[i] in order;
        }
      }
    }
    forall x | true ensures !IsChildAt(g', p, x, t) {
      if x in g' {
        assert g'[x].Parent(t) == if t == t && IsChildAt(g, p, x, t) then None else g[x].Parent(t);
      }
    }
    forall q, x | IsChild(g', q, x) ensures IsChild(g, q, x) {
      assert g'[x].Parent(BEFORE) == if BEFORE == t && IsChildAt(g, p, x, t) then None else g[x].Parent(BEFORE);
      assert g'[x].Parent(AFTER) == if AFTER == t && IsChildAt(g, p, x, t) then None else g[x].Parent(AFTER);
    }
    if TimesRespected(g) {
      forall x, u | x in g' && g'[x].Parent(u).Some? ensures g'[x].diffType.ExistsAtTime(u) {
        assert Attrs(g'[x]) == Attrs(g[x]);
        assert g'[x].Parent(u) == if u == t && IsChildAt(g, p, x, t) then None else g[x].Parent(u);
      }
    }
  }

  /** The two parent slots of `x` after clearing `p`'s children at `t`. */
  lemma ClearedSlots(g: Graph, g': Graph, p: NodeId, t: Time, order: seq<NodeId>, x: NodeId)
    requires p in g && x in g && Cleared(g, g', p, t, order)
    ensures x in g'
    ensures g'[x].Parent(t) == if IsChildAt(g, p, x, t) then None else g[x].Parent(t)
    ensures g'[x].Parent(t.Other()) == g[x].Parent(t.Other())
  {
    assert g'[x].Parent(t) == if t == t && IsChildAt(g, p, x, t) then None else g[x].Parent(t);
    assert g'[x].Parent(t.Other()) == if t.Other() == t && IsChildAt(g, p, x, t) then None else g[x].Parent(t.Other());
  }

  /** After clearing, `x` is listed by `q` exactly when `q` is its parent at some time. */
  lemma ClearedListing(g: Graph, g': Graph, p: NodeId, t: Time, q: NodeId, x: NodeId)
    requires Linked(g) && p in g
    requires Cleared(g, g', p, t, ChildrenAt(g, p, g[p].childOrder, t.Other()))
    requires q in g' && x in g'
    ensures x in g'[q].childOrder <==> IsChild(g', q, x)
  {
    var u := t.Other();
    ClearedSlots(g, g', p, t, ChildrenAt(g, p, g[p].childOrder, u), x);
    assert IsChild(g', q, x) <==> IsChildAt(g', q, x, t) || IsChildAt(g', q, x, u) by {
      assert t == BEFORE || t == AFTER;
    }
    if q == p {
      assert IsChild(g', p, x) <==> IsChildAt(g, p, x, u);
      assert x in g'[p].childOrder <==> x in g[p].childOrder && IsChildAt(g, p, x, u);
      assert IsChildAt(g, p, x, u) ==> IsChild(g, p, x);
    } else {
      assert g'[q].childOrder == g[q].childOrder;
      assert IsChildAt(g', q, x, t) <==> IsChildAt(g, q, x, t);
      assert IsChild(g', q, x) <==> IsChild(g, q, x) by {
        assert t == BEFORE || t == AFTER;
      }
    }
  }

  /** What `removeChildren(t)` changes. */
  lemma RemoveChildrenClears(g: Graph, p: NodeId, t: Time)
    requires Linked(g) && p in g
    ensures RemoveChildren(g, p, t).result.value == ChildrenAt(g, p, g[p].childOrder, t)
    ensures Cleared(g, RemoveChildren(g, p, t).graph, p, t, ChildrenAt(g, p, g[p].childOrder, t.Other()))
  {
    var s := g[p].childOrder;
    forall x | x in s ensures IsChild(g, p, x) { }
    RemoveChildrenFoldSpec(g, p, t, s);
    var f := RemoveChildrenFold(g, p, t, s);
    var g' := f.0[p := f.0[p].(childOrder := f.1)];
    assert RemoveChildren(g, p, t) == Outcome(Ok(f.2), g');
    forall x | x in g
      ensures f.0[x] == if IsChildAt(g, p, x, t) then g[x].WithParent(t, None) else g[x]
    {
      if IsChildAt(g, p, x, t) { assert x in s; }
    }
    FoldCleared(g, f.0, p, t, f.1);
  }

  lemma FoldCleared(g: Graph, gf: Graph, p: NodeId, t: Time, kept: seq<NodeId>)
    requires p in g && gf.Keys == g.Keys
    requires forall x :: x in g ==>
      gf[x] == if IsChildAt(g, p, x, t) then g[x].WithParent(t, None) else g[x]
    ensures Cleared(g, gf[p := gf[p].(childOrder := kept)], p, t, kept)
  {
    var g' := gf[p := gf[p].(childOrder := kept)];
    forall x, u | x in g
      ensures g'[x].Parent(u) == if u == t && IsChildAt(g, p, x, t) then None else g[x].Parent(u)
    {
      assert g'[x].Parent(u) == gf[x].Parent(u);
    }
    forall x | x in g ensures Attrs(g'[x]) == Attrs(g[x]) {
      assert Attrs(g'[x]) == Attrs(gf[x]);
    }
  }

  /**
   * `removeChildren(t)` returns exactly the former children at `t`, in child
   * order and each once.
   */
  lemma RemoveChildrenReturnsChildren(g: Graph, p: NodeId, t: Time)
    requires Linked(g) && p in g
    ensures RemoveChildren(g, p, t).result.value == ChildrenAt(g, p, g[p].childOrder, t)
    ensures forall x :: x in RemoveChildren(g, p, t).result.value <==> IsChildAt(g, p, x, t)
    ensures NoDuplicates(RemoveChildren(g, p, t).result.value)
  {
    RemoveChildrenClears(g, p, t);
    forall x | IsChildAt(g, p, x, t) ensures x in g[p].childOrder { }
  }

  /**
   * After `removeChildren(t)` no node has `p` as parent at `t`, the child
   * order keeps exactly the children at the other time, no parent link is
   * created and the links stay consistent.
   */
  lemma RemoveChildrenKeepsLinks(g: Graph, p: NodeId, t: Time)
    requires Linked(g) && p in g
    ensures Linked(RemoveChildren(g, p, t).graph)
    ensures TimesRespected(g) ==> TimesRespected(RemoveChildren(g, p, t).graph)
    ensures forall x :: !IsChildAt(RemoveChildren(g, p, t).graph, p, x, t)
    ensures RemoveChildren(g, p, t).graph[p].childOrder == ChildrenAt(g, p, g[p].childOrder, t.Other())
    ensures forall q, x :: IsChild(RemoveChildren(g, p, t).graph, q, x) ==> IsChild(g, q, x)
  {
    var g' := RemoveChildren(g, p, t).graph;
    RemoveChildrenClears(g, p, t);
    ClearedKeepsLinks(g, g', p, t);
  }

  /**
   * `p.addChildren(cs, t)`: `addChild` for each node in turn; the first
   * exception ends the loop.
   */
  function AddChildren(g: Graph, p: NodeId, cs: seq<NodeId>, t: Time): (r: Outcome<()>)
    requires p in g && forall x :: x in cs ==> x in g
    ensures r.graph.Keys == g.Keys
    ensures r.result.Err? ==> r.result.error == IllegalArgument
    decreases |cs|
  {
    if cs == [] then Outcome(Ok(()), g)
    else
      var o := AddChild(g, p, cs[0], t);
      if o.result.Err? then Outcome(Err(o.result.error), o.graph)
      else AddChildren(o.graph, p, cs[1..], t)
  }

  /** The members of `cs` that `addChildren` appends to `p`'s child order. */
  function Appended(g: Graph, p: NodeId, cs: seq<NodeId>, t: Time): (r: seq<NodeId>)
    requires forall x :: x in cs ==> x in g
    ensures forall x :: x in r <==> x in cs && g[x].diffType.ExistsAtTime(t) && !IsChild(g, p, x)
    decreases |cs|
  {
    if cs == [] then []
    else
      var c := cs[0];
      assert c in cs;
      (if g[c].diffType.ExistsAtTime(t) && !IsChild(g, p, c) then [c] else []) +
      Appended(g, p, cs[1..], t)
  }

  lemma {:induction false} AppendedFrame(g: Graph, g': Graph, p: NodeId, cs: seq<NodeId>, t: Time)
    requires forall x :: x in cs ==>
      x in g && x in g' && g'[x].diffType == g[x].diffType &&
      g'[x].beforeParent == g[x].beforeParent && g'[x].afterParent == g[x].afterParent
    ensures Appended(g', p, cs, t) == Appended(g, p, cs, t)
    decreases |cs|
  {
    if cs != [] {
      assert IsChild(g', p, cs[0]) == IsChild(g, p, cs[0]);
      AppendedFrame(g, g', p, cs[1..], t);
    }
  }

  /**
   * `g'` is `g` after every node of `cs` that exists at `t` got `p` as parent
   * at `t`, and `p`'s child order grew by `Appended`.
   */
  ghost predicate AttachedAll(g: Graph, g': Graph, p: NodeId, cs: seq<NodeId>, t: Time)
    requires p in g && forall x :: x in cs ==> x in g
  {
    SameAttrs(g, g') &&
    (forall x, u :: x in g ==>
      g'[x].Parent(u) == if u == t && x in cs && g[x].diffType.ExistsAtTime(t) then Some(p) else g[x].Parent(u)) &&
    (forall x :: x in g && x != p ==> g'[x].childOrder == g[x].childOrder) &&
    g'[p].childOrder == g[p].childOrder + Appended(g, p, cs, t)
  }

  /** One `addChild` followed by the rest of the loop attaches the whole list. */
  lemma AttachedAllStep(g: Graph, g1: Graph, g': Graph, p: NodeId, cs: seq<NodeId>, t: Time)
    requires p in g && cs != [] && cs[0] in g && NoDuplicates(cs) && forall x :: x in cs ==> x in g
    requires g[cs[0]].diffType.ExistsAtTime(t)
    requires Attached(g, g1, p, cs[0], t,
      if IsChild(g, p, cs[0]) then g[p].childOrder else g[p].childOrder + [cs[0]])
    requires AttachedAll(g1, g', p, cs[1..], t)
    ensures AttachedAll(g, g', p, cs, t)
  {
    var c := cs[0];
    assert cs == [c] + cs[1..];
    assert c !in cs[1..];
    forall x | x in cs[1..] ensures x in g1 && g1[x].diffType == g[x].diffType &&
      g1[x].beforeParent == g[x].beforeParent && g1[x].afterParent == g[x].afterParent {
      assert x != c && x in g;
      assert g1[x].Parent(BEFORE) == g[x].Parent(BEFORE) && g1[x].Parent(AFTER) == g[x].Parent(AFTER);
      assert Attrs(g1[x]) == Attrs(g[x]);
    }
    AttachedAllStepOrder(g, g1, g', p, cs, t);
    forall x, u | x in g ensures
      g'[x].Parent(u) == if u == t && x in cs && g[x].diffType.ExistsAtTime(t) then Some(p) else g[x].Parent(u)
    {
      assert Attrs(g1[x]) == Attrs(g[x]);
      assert g1[x].Parent(u) == if x == c && u == t then Some(p) else g[x].Parent(u);
      assert g'[x].Parent(u) ==
        if u == t && x in cs[1..] && g1[x].diffType.ExistsAtTime(t) then Some(p) else g1[x].Parent(u);
    }
    forall x | x in g ensures Attrs(g'[x]) == Attrs(g[x]) {
      assert Attrs(g1[x]) == Attrs(g[x]);
    }
  }

  lemma AttachedAllStepOrder(g: Graph, g1: Graph, g': Graph, p: NodeId, cs: seq<NodeId>, t: Time)
    requires p in g && p in g1 && p in g' && cs != [] && cs[0] in g && NoDuplicates(cs)
    requires forall x :: x in cs ==> x in g
    requires g[cs[0]].diffType.ExistsAtTime(t)
    requires forall x :: x in cs[1..] ==>
      x in g1 && g1[x].diffType == g[x].diffType &&
      g1[x].beforeParent == g[x].beforeParent && g1[x].afterParent == g[x].afterParent
    requires g1[p].childOrder == if IsChild(g, p, cs[0]) then g[p].childOrder else g[p].childOrder + [cs[0]]
    requires g'[p].childOrder == g1[p].childOrder + Appended(g1, p, cs[1..], t)
    ensures g'[p].childOrder == g[p].childOrder + Appended(g, p, cs, t)
  {
    var c := cs[0];
    var rest := Appended(g, p, cs[1..], t);
    assert Appended(g1, p, cs[1..], t) == rest by {
      AppendedFrame(g, g1, p, cs[1..], t);
    }
    var head: seq<NodeId> := if IsChild(g, p, c) then [] else [c];
    assert Appended(g, p, cs, t) == head + rest;
    assert g'[p].childOrder == g[p].childOrder + (head + rest) by {
      ConsAppend(g[p].childOrder, c, rest, IsChild(g, p, c));
    }
  }

  /** Appending `c` unless it is listed, then `rest`, is appending both to the original order. */
  lemma ConsAppend(o: seq<NodeId>, c: NodeId, rest: seq<NodeId>, listed: bool)
    ensures (if listed then o else o + [c]) + rest == o + ((if listed then [] else [c]) + rest)
  {
    if listed { assert [] + rest == rest; }
  }

  /**
   * Adding distinct nodes without a parent at `t` never throws: each that
   * exists at `t` gets `p` as parent, is appended to the child order unless
   * it was a child already, and the links stay consistent.
   */
  lemma {:induction false} AddChildrenSpec(g: Graph, p: NodeId, cs: seq<NodeId>, t: Time)
    requires Linked(g) && p in g && NoDuplicates(cs)
    requires forall x :: x in cs ==> x in g && g[x].Parent(t).None?
    ensures AddChildren(g, p, cs, t).result.Ok?
    ensures AttachedAll(g, AddChildren(g, p, cs, t).graph, p, cs, t)
    ensures Linked(AddChildren(g, p, cs, t).graph)
    ensures TimesRespected(g) ==> TimesRespected(AddChildren(g, p, cs, t).graph)
    decreases |cs|
  {
    if cs == [] {
      assert Appended(g, p, cs, t) == [];
      assert g[p].childOrder + [] == g[p].childOrder;
    } else {
      var c := cs[0];
      var o := AddChild(g, p, c, t);
      AddChildAttaches(g, p, c, t);
      AddChildKeepsLinks(g, p, c, t);
      assert NoDuplicates(cs[1..]) && c !in cs[1..];
      if o.result == Ok(true) {
        forall x | x in cs[1..] ensures x in o.graph && o.graph[x].Parent(t).None? {
          assert x != c;
        }
        AddChildrenSpec(o.graph, p, cs[1..], t);
        AttachedAllStep(g, o.graph, AddChildren(g, p, cs, t).graph, p, cs, t);
      } else {
        AddChildrenSpec(g, p, cs[1..], t);
        var g' := AddChildren(g, p, cs, t).graph;
        assert cs == [c] + cs[1..];
        assert Appended(g, p, cs, t) == Appended(g, p, cs[1..], t);
        forall x, u | x in g ensures
          g'[x].Parent(u) == if u == t && x in cs && g[x].diffType.ExistsAtTime(t) then Some(p) else g[x].Parent(u)
        {
          if x == c { assert !g[x].diffType.ExistsAtTime(t); }
        }
      }
    }
  }

  /**
   * `p.stealChildrenOf(o)`: the children of `o` before the edit move to `p`
   * first, then those after the edit.
   */
  function StealChildrenOf(g: Graph, p: NodeId, o: NodeId): (r: Outcome<()>)
    requires p in g && o in g
    ensures r.graph.Keys == g.Keys
  {
    var before := RemoveChildren(g, o, BEFORE);
    var addedBefore := AddChildren(before.graph, p, before.result.value, BEFORE);
    if addedBefore.result.Err? then addedBefore
    else
      var after := RemoveChildren(addedBefore.graph, o, AFTER);
      AddChildren(after.graph, p, after.result.value, AFTER)
  }

  /** A node that is nobody's parent has an empty child order in a consistent graph. */
  lemma NoChildrenNoOrder(g: Graph, o: NodeId)
    requires Linked(g) && o in g && forall x :: !IsChild(g, o, x)
    ensures g[o].childOrder == []
  {
    FirstInOrderIsChild(g, o);
  }

  lemma FirstInOrderIsChild(g: Graph, o: NodeId)
    requires Linked(g) && o in g
    ensures g[o].childOrder != [] ==> IsChild(g, o, g[o].childOrder[0])
  {
    if g[o].childOrder != [] {
      assert g[o].childOrder[0] in g[o].childOrder;
    }
  }

  /**
   * `stealChildrenOf(o)` with `o` other than `p` never throws on a
   * consistent graph; afterwards `o` has no children, every former child of
   * `o` at a time is a child of `p` at that time, no other parent slot
   * changes, and the links stay consistent.
   */
  lemma StealChildrenOfSpec(g: Graph, p: NodeId, o: NodeId)
    requires Linked(g) && TimesRespected(g) && p in g && o in g && p != o
    ensures StealChildrenOf(g, p, o).result.Ok?
    ensures Linked(StealChildrenOf(g, p, o).graph) && TimesRespected(StealChildrenOf(g, p, o).graph)
    ensures forall x :: !IsChild(StealChildrenOf(g, p, o).graph, o, x)
    ensures StealChildrenOf(g, p, o).graph[o].childOrder == []
    ensures forall x, u :: x in g ==>
      StealChildrenOf(g, p, o).graph[x].Parent(u) == if IsChildAt(g, o, x, u) then Some(p) else g[x].Parent(u)
    ensures SameAttrs(g, StealChildrenOf(g, p, o).graph)
  {
    var g1, g2, orphansBefore := StealHalf(g, p, o, BEFORE);
    var g3, g4, orphansAfter := StealHalf(g2, p, o, AFTER);
    assert StealChildrenOf(g, p, o) == AddChildren(g3, p, orphansAfter, AFTER);
    forall x, u | x in g ensures g4[x].Parent(u) == if IsChildAt(g, o, x, u) then Some(p) else g[x].Parent(u) {
      StealStep(g, g1, g2, g3, g4, p, o, orphansBefore, orphansAfter, x, u);
    }
    forall x | x in g ensures Attrs(g4[x]) == Attrs(g[x]) {
      assert Attrs(g4[x]) == Attrs(g3[x]) == Attrs(g2[x]) == Attrs(g1[x]);
    }
    forall x ensures !IsChild(g4, o, x) {
      if x in g {
        assert g4[x].Parent(BEFORE) == if IsChildAt(g, o, x, BEFORE) then Some(p) else g[x].Parent(BEFORE);
        assert g4[x].Parent(AFTER) == if IsChildAt(g, o, x, AFTER) then Some(p) else g[x].Parent(AFTER);
      }
    }
    NoChildrenNoOrder(g4, o);
  }

  /** One half of `stealChildrenOf`: `o.removeChildren(t)` then `p.addChildren(orphans, t)`. */
  lemma StealHalf(g: Graph, p: NodeId, o: NodeId, t: Time) returns (g1: Graph, g2: Graph, orphans: seq<NodeId>)
    requires Linked(g) && TimesRespected(g) && p in g && o in g && p != o
    ensures orphans == RemoveChildren(g, o, t).result.value && g1 == RemoveChildren(g, o, t).graph
    ensures forall y :: y in orphans ==> y in g1
    ensures AddChildren(g1, p, orphans, t).result.Ok? && g2 == AddChildren(g1, p, orphans, t).graph
    ensures forall y :: y in orphans <==> IsChildAt(g, o, y, t)
    ensures Cleared(g, g1, o, t, ChildrenAt(g, o, g[o].childOrder, t.Other()))
    ensures AttachedAll(g1, g2, p, orphans, t)
    ensures Linked(g2) && TimesRespected(g2)
  {
    var b := RemoveChildren(g, o, t);
    g1 := b.graph;
    orphans := b.result.value;
    RemoveChildrenReturnsChildren(g, o, t);
    RemoveChildrenKeepsLinks(g, o, t);
    RemoveChildrenClears(g, o, t);
    forall x | x in orphans ensures x in g1 && g1[x].Parent(t).None? {
      assert IsChildAt(g, o, x, t);
    }
    AddChildrenSpec(g1, p, orphans, t);
    g2 := AddChildren(g1, p, orphans, t).graph;
  }

  /** The parent slot of one node across the four stages of `stealChildrenOf`. */
  lemma StealStep(g: Graph, g1: Graph, g2: Graph, g3: Graph, g4: Graph, p: NodeId, o: NodeId,
                  orphansBefore: seq<NodeId>, orphansAfter: seq<NodeId>, x: NodeId, u: Time)
    requires TimesRespected(g) && p in g && o in g && x in g && p != o
    requires forall y :: y in orphansBefore <==> IsChildAt(g, o, y, BEFORE)
    requires Cleared(g, g1, o, BEFORE, ChildrenAt(g, o, g[o].childOrder, AFTER))
    requires forall y :: y in orphansBefore ==> y in g1
    requires AttachedAll(g1, g2, p, orphansBefore, BEFORE)
    requires forall y :: y in orphansAfter <==> IsChildAt(g2, o, y, AFTER)
    requires Cleared(g2, g3, o, AFTER, ChildrenAt(g2, o, g2[o].childOrder, BEFORE))
    requires forall y :: y in orphansAfter ==> y in g3
    requires AttachedAll(g3, g4, p, orphansAfter, AFTER)
    ensures g4[x].Parent(u) == if IsChildAt(g, o, x, u) then Some(p) else g[x].Parent(u)
  {
    assert Attrs(g1[x]) == Attrs(g[x]);
    assert Attrs(g3[x]) == Attrs(g2[x]);
    assert Attrs(g2[x]) == Attrs(g1[x]);
    assert g1[x].Parent(BEFORE) == if IsChildAt(g, o, x, BEFORE) then None else g[x].Parent(BEFORE);
    assert g1[x].Parent(AFTER) == g[x].Parent(AFTER);
    assert g2[x].Parent(BEFORE) ==
      if x in orphansBefore && g1[x].diffType.ExistsAtTime(BEFORE) then Some(p) else g1[x].Parent(BEFORE);
    assert g2[x].Parent(AFTER) == g1[x].Parent(AFTER);
    assert g3[x].Parent(AFTER) == if IsChildAt(g2, o, x, AFTER) then None else g2[x].Parent(AFTER);
    assert g3[x].Parent(BEFORE) == g2[x].Parent(BEFORE);
    assert g4[x].Parent(AFTER) ==
      if x in orphansAfter && g3[x].diffType.ExistsAtTime(AFTER) then Some(p) else g3[x].Parent(AFTER);
    assert g4[x].Parent(BEFORE) == g3[x].Parent(BEFORE);
    assert IsChildAt(g, o, x, BEFORE) ==> g[x].diffType.ExistsAtTime(BEFORE);
    assert IsChildAt(g, o, x, AFTER) ==> g[x].diffType.ExistsAtTime(AFTER);
  }

  /** `p.removeChildren(cs)`: `removeChild` at both times for each node in turn. */
  function RemoveGivenChildren(g: Graph, p: NodeId, cs: seq<NodeId>): (r: Graph)
    requires p in g && forall x :: x in cs ==> x in g
    ensures r.Keys == g.Keys
    decreases |cs|
  {
    if cs == [] then g
    else
      var c := cs[0];
      assert c in cs;
      var g1 := RemoveChild(g, p, c, BEFORE).graph;
      var g2 := RemoveChild(g1, p, c, AFTER).graph;
      RemoveGivenChildren(g2, p, cs[1..])
  }

  /**
   * After `removeChildren(cs)` none of the given nodes is a child of `p` at
   * either time, no parent link is created and the links stay consistent.
   */
  lemma {:induction false} RemoveGivenChildrenSpec(g: Graph, p: NodeId, cs: seq<NodeId>)
    requires Linked(g) && p in g && forall x :: x in cs ==> x in g
    ensures Linked(RemoveGivenChildren(g, p, cs))
    ensures TimesRespected(g) ==> TimesRespected(RemoveGivenChildren(g, p, cs))
    ensures forall x :: x in cs ==> !IsChild(RemoveGivenChildren(g, p, cs), p, x)
    ensures forall q, x :: IsChild(RemoveGivenChildren(g, p, cs), q, x) ==> IsChild(g, q, x)
    decreases |cs|
  {
    if cs != [] {
      var c := cs[0];
      assert c in cs;
      var g1 := RemoveChild(g, p, c, BEFORE).graph;
      var g2 := RemoveChild(g1, p, c, AFTER).graph;
      RemoveChildKeepsLinks(g, p, c, BEFORE);
      RemoveChildKeepsLinks(g1, p, c, AFTER);
      assert g2[c].Parent(BEFORE) == g1[c].Parent(BEFORE);
      assert !IsChild(g2, p, c);
      var r := RemoveGivenChildren(g2, p, cs[1..]);
      assert RemoveGivenChildren(g, p, cs) == r;
      RemoveGivenChildrenSpec(g2, p, cs[1..]);
      forall x | x in cs ensures !IsChild(r, p, x) {
        if x != c { assert x in cs[1..]; }
      }
      forall q, x | IsChild(r, q, x) ensures IsChild(g, q, x) {
        assert IsChild(g2, q, x);
        assert IsChild(g1, q, x);
      }
    }
  }

  /** The parents of `c` are nodes of the graph. */
  predicate ParentsIn(g: Graph, c: NodeId)
    requires c in g
  {
    (g[c].beforeParent.Some? ==> g[c].beforeParent.value in g) &&
    (g[c].afterParent.Some? ==> g[c].afterParent.value in g)
  }

  /** `c.drop()`: removes `c` from its parent before and then from its parent after the edit. */
  function Drop(g: Graph, c: NodeId): (r: Graph)
    requires c in g && ParentsIn(g, c)
    ensures r.Keys == g.Keys
  {
    var g1 := match g[c].beforeParent
      case Some(b) => RemoveChild(g, b, c, BEFORE).graph
      case None => g;
    assert g1[c].Parent(AFTER) == g[c].Parent(AFTER);
    match g1[c].afterParent
    case Some(a) => RemoveChild(g1, a, c, AFTER).graph
    case None => g1
  }

  /**
   * After `drop` the node is a root and in no child order; every other
   * parent slot is unchanged and the links stay consistent.
   */
  lemma DropSpec(g: Graph, c: NodeId)
    requires Linked(g) && c in g
    ensures Drop(g, c)[c].IsRoot()
    ensures forall x, u :: x in g && x != c ==> Drop(g, c)[x].Parent(u) == g[x].Parent(u)
    ensures forall q :: q in g ==> c !in Drop(g, c)[q].childOrder
    ensures SameAttrs(g, Drop(g, c))
    ensures Linked(Drop(g, c))
    ensures TimesRespected(g) ==> TimesRespected(Drop(g, c))
  {
    var g1 := if g[c].beforeParent.Some? then RemoveChild(g, g[c].beforeParent.value, c, BEFORE).graph else g;
    if g[c].beforeParent.Some? {
      var b := g[c].beforeParent.value;
      RemoveChildKeepsLinks(g, b, c, BEFORE);
      RemoveChildSameAttrs(g, b, c, BEFORE);
    }
    var g2 := Drop(g, c);
    if g1[c].afterParent.Some? {
      var a := g1[c].afterParent.value;
      RemoveChildKeepsLinks(g1, a, c, AFTER);
      RemoveChildSameAttrs(g1, a, c, AFTER);
    }
    assert g2[c].Parent(BEFORE).None?;
    forall q | q in g ensures c !in g2[q].childOrder {
      assert !IsChild(g2, q, c);
    }
  }

  /** `removeChild` keeps every node's attributes. */
  lemma RemoveChildSameAttrs(g: Graph, p: NodeId, c: NodeId, t: Time)
    requires p in g && c in g
    ensures SameAttrs(g, RemoveChild(g, p, c, t).graph)
  {
    if IsChildAt(g, p, c, t) {
      RemoveChildDetaches(g, p, c, t);
    }
  }

  /**
   * `c.addBelow(b, a)`: `addChild` below the given parents, before first;
   * answers whether at least one of them took `c`.
   */
  function AddBelow(g: Graph, c: NodeId, b: Option<NodeId>, a: Option<NodeId>): (r: Outcome<bool>)
    requires c in g && (b.Some? ==> b.value in g) && (a.Some? ==> a.value in g)
    ensures r.graph.Keys == g.Keys
    ensures r.result.Err? ==> r.result.error == IllegalArgument
    ensures r.result.Ok? ==>
      r.result.value == ((b.Some? && g[c].diffType.ExistsAtTime(BEFORE)) || (a.Some? && g[c].diffType.ExistsAtTime(AFTER)))
  {
    var r1 := if b.Some? then AddChild(g, b.value, c, BEFORE) else Outcome(Ok(false), g);
    if r1.result.Err? then Outcome(Err(r1.result.error), r1.graph)
    else
      assert r1.graph[c].diffType == g[c].diffType by {
        if b.Some? { AddChildAttaches(g, b.value, c, BEFORE); }
      }
      var r2 := if a.Some? then AddChild(r1.graph, a.value, c, AFTER) else Outcome(Ok(false), r1.graph);
      if r2.result.Err? then Outcome(Err(r2.result.error), r2.graph)
      else Outcome(Ok(r1.result.value || r2.result.value), r2.graph)
  }

  /** `addChild` of a node without parent at `t` that exists at `t`, described as new parent slots. */
  lemma AddChildToOrphan(g: Graph, p: NodeId, c: NodeId, t: Time)
    requires Linked(g) && TimesRespected(g) && p in g && c in g
    requires g[c].Parent(t).None? && g[c].diffType.ExistsAtTime(t)
    ensures AddChild(g, p, c, t).result == Ok(true)
    ensures forall x, u :: x in g ==>
      AddChild(g, p, c, t).graph[x].Parent(u) == if x == c && u == t then Some(p) else g[x].Parent(u)
    ensures SameAttrs(g, AddChild(g, p, c, t).graph)
    ensures Linked(AddChild(g, p, c, t).graph) && TimesRespected(AddChild(g, p, c, t).graph)
  {
    AddChildAttaches(g, p, c, t);
    AddChildKeepsLinks(g, p, c, t);
  }

  /**
   * `addBelow` on a root attaches it below the given parents at the times
   * where it exists and keeps the links consistent.
   */
  lemma AddBelowSpec(g: Graph, c: NodeId, b: Option<NodeId>, a: Option<NodeId>)
    requires Linked(g) && TimesRespected(g) && c in g && g[c].IsRoot()
    requires b.Some? ==> b.value in g && g[c].diffType.ExistsAtTime(BEFORE)
    requires a.Some? ==> a.value in g && g[c].diffType.ExistsAtTime(AFTER)
    ensures AddBelow(g, c, b, a).result == Ok(b.Some? || a.Some?)
    ensures forall x, u :: x in g ==>
      AddBelow(g, c, b, a).graph[x].Parent(u) == if x == c then (if u == BEFORE then b else a) else g[x].Parent(u)
    ensures Linked(AddBelow(g, c, b, a).graph)
  {
    var g1 := if b.Some? then AddChild(g, b.value, c, BEFORE).graph else g;
    if b.Some? { AddChildToOrphan(g, b.value, c, BEFORE); }
    assert g1[c].Parent(AFTER).None? && Attrs(g1[c]) == Attrs(g[c]);
    if a.Some? { AddChildToOrphan(g1, a.value, c, AFTER); }
    var g2 := if a.Some? then AddChild(g1, a.value, c, AFTER).graph else g1;
    assert AddBelow(g, c, b, a).graph == g2;
    forall x, u | x in g ensures g2[x].Parent(u) == if x == c then (if u == BEFORE then b else a) else g[x].Parent(u) {
      assert g1[x].Parent(u) == if x == c && u == BEFORE then b else g[x].Parent(u);
    }
  }

  /**
   * `drop` and then `addBelow` with the former parents restores every parent
   * slot and every child order's contents (only positions may differ), and
   * answers whether the node had a parent.
   */
  lemma DropThenAddBelow(g: Graph, c: NodeId)
    requires Linked(g) && TimesRespected(g) && c in g
    ensures ParentsIn(g, c)
    ensures AddBelow(Drop(g, c), c, g[c].beforeParent, g[c].afterParent).result == Ok(!g[c].IsRoot())
    ensures forall x, u :: x in g ==>
      AddBelow(Drop(g, c), c, g[c].beforeParent, g[c].afterParent).graph[x].Parent(u) == g[x].Parent(u)
    ensures Linked(AddBelow(Drop(g, c), c, g[c].beforeParent, g[c].afterParent).graph)
    ensures forall q, x :: q in g ==>
      (x in AddBelow(Drop(g, c), c, g[c].beforeParent, g[c].afterParent).graph[q].childOrder <==> x in g[q].childOrder)
  {
    var b := g[c].beforeParent;
    var a := g[c].afterParent;
    DropSpec(g, c);
    var g1 := Drop(g, c);
    assert Attrs(g1[c]) == Attrs(g[c]);
    AddBelowSpec(g1, c, b, a);
    var g3 := AddBelow(g1, c, b, a).graph;
    forall x, u | x in g ensures g3[x].Parent(u) == g[x].Parent(u) {
      if x == c {
        assert g3[c].Parent(u) == if u == BEFORE then b else a;
      }
    }
    SameParentsSameOrders(g, g3);
  }

  /** In consistent graphs the parent slots determine the contents of every child order. */
  lemma SameParentsSameOrders(g: Graph, g': Graph)
    requires Linked(g) && Linked(g') && g'.Keys == g.Keys
    requires forall x, u :: x in g ==> g'[x].Parent(u) == g[x].Parent(u)
    ensures forall q, x :: q in g ==> (x in g'[q].childOrder <==> x in g[q].childOrder)
  {
    forall q, x | q in g ensures x in g'[q].childOrder <==> x in g[q].childOrder {
      if x in g {
        assert g'[x].Parent(BEFORE) == g[x].Parent(BEFORE) && g'[x].Parent(AFTER) == g[x].Parent(AFTER);
        assert IsChild(g', q, x) == IsChild(g, q, x);
      } else {
        assert x !in g'[q].childOrder && x !in g[q].childOrder;
      }
    }
  }

  /** `addBelow` on a root and then `drop` leave every parent slot as it was. */
  lemma AddBelowThenDrop(g: Graph, c: NodeId, b: Option<NodeId>, a: Option<NodeId>)
    requires Linked(g) && TimesRespected(g) && c in g && g[c].IsRoot()
    requires b.Some? ==> b.value in g && g[c].diffType.ExistsAtTime(BEFORE)
    requires a.Some? ==> a.value in g && g[c].diffType.ExistsAtTime(AFTER)
    ensures ParentsIn(AddBelow(g, c, b, a).graph, c)
    ensures forall x, u :: x in g ==> Drop(AddBelow(g, c, b, a).graph, c)[x].Parent(u) == g[x].Parent(u)
  {
    AddBelowSpec(g, c, b, a);
    var g1 := AddBelow(g, c, b, a).graph;
    DropSpec(g1, c);
  }
}
