/**
 * `DiffNode.assertConsistency`: the checks one node makes on itself and on
 * the parent slots of its children, and the class invariant of the two-way
 * links they are meant to enforce.
 */
module Consistency {
  import opened Wrappers
  import opened DiffTypes
  import opened DiffGraph

  /**
   * The loop body of `assertConsistency` for child `c` of `n`, as written:
   * the parent slots of `c` are compared with `c`'s own parent slots, so
   * only the first conjunct can ever fail.
   */
  predicate ChildCheckAsWritten(g: Graph, n: NodeId, c: NodeId)
    requires c in g
  {
    IsChild(g, n, c) &&
    (g[c].beforeParent.Some? ==> IsChildAt(g, g[c].beforeParent.value, c, BEFORE)) &&
    (g[c].afterParent.Some? ==> IsChildAt(g, g[c].afterParent.value, c, AFTER))
  }

  /**
   * The loop body as its messages describe it: `c` names `n` as a parent,
   * and each parent of `c` lists `c` among its children.
   */
  predicate ChildCheck(g: Graph, n: NodeId, c: NodeId)
    requires c in g
  {
    IsChild(g, n, c) &&
    (g[c].beforeParent.Some? ==> g[c].beforeParent.value in g && c in g[g[c].beforeParent.value].childOrder) &&
    (g[c].afterParent.Some? ==> g[c].afterParent.value in g && c in g[g[c].afterParent.value].childOrder)
  }

  /** A node with exactly one parent was edited; one with two parents was not. */
  predicate EditMatchesParents(x: Node)
  {
    (x.beforeParent.None? && x.afterParent.Some? ==> x.diffType == ADD) &&
    (x.beforeParent.Some? && x.afterParent.None? ==> x.diffType == REM) &&
    (x.beforeParent.Some? && x.afterParent.Some? ==> x.diffType == NON)
  }

  /** ELSE and ELIF nodes hang below IF or ELIF nodes at both times. */
  predicate BranchParentsAreConditions(g: Graph, n: NodeId)
    requires n in g
  {
    (g[n].IsElse() || g[n].IsElif()) ==>
      (g[n].beforeParent.Some? && g[n].beforeParent.value in g ==>
        g[g[n].beforeParent.value].nodeType.IsConditionalAnnotation()) &&
      (g[n].afterParent.Some? && g[n].afterParent.value in g ==>
        g[g[n].afterParent.value].nodeType.IsConditionalAnnotation())
  }

  /** Exactly the IF and ELIF nodes carry a direct formula. */
  predicate FormulaIffCondition(x: Node)
  {
    x.nodeType.IsConditionalAnnotation() <==> x.formula.Some?
  }

  /** The checks of `assertConsistency` that concern `n` itself. */
  predicate NodeCheck(g: Graph, n: NodeId)
    requires n in g
  {
    EditMatchesParents(g[n]) && BranchParentsAreConditions(g, n) && FormulaIffCondition(g[n])
  }

  /** Everything `assertConsistency` checks on `n`, as written. */
  ghost predicate ConsistentAsWritten(g: Graph, n: NodeId)
    requires Closed(g) && n in g
  {
    (forall c :: c in g[n].childOrder ==> ChildCheckAsWritten(g, n, c)) && NodeCheck(g, n)
  }

  /** Everything `assertConsistency` is meant to check on `n`. */
  ghost predicate Consistent(g: Graph, n: NodeId)
    requires Closed(g) && n in g
  {
    (forall c :: c in g[n].childOrder ==> ChildCheck(g, n, c)) && NodeCheck(g, n)
  }

  /** Every node listed as a child in a closed graph is a node of the graph. */
  lemma ChildrenInGraph(g: Graph, n: NodeId)
    requires Closed(g) && n in g
    ensures forall c :: c in g[n].childOrder ==> c in g
  {
    forall c | c in g[n].childOrder
      ensures c in g
    {
      var i :| 0 <= i < |g[n].childOrder| && g[n].childOrder[i] == c;
    }
  }

  /**
   * `n.assertConsistency()`: fails with an assertion error as soon as one of
   * the checks fails, in the order of the source.
   */
  method AssertConsistency(g: Graph, n: NodeId) returns (r: Result<()>)
    requires Closed(g) && n in g
    ensures r.Ok? <==> ConsistentAsWritten(g, n)
    ensures r.Err? ==> r.error == AssertionFailure
  {
    ChildrenInGraph(g, n);
    var order := g[n].childOrder;
    for i := 0 to |order|
      invariant forall j :: 0 <= j < i ==> ChildCheckAsWritten(g, n, order[j])
    {
      var c := order[i];
      if !IsChild(g, n, c) {
        assert c in g[n].childOrder && !ChildCheckAsWritten(g, n, c);
        return Err(AssertionFailure);
      }
      if g[c].beforeParent.Some? && !IsChildAt(g, g[c].beforeParent.value, c, BEFORE) {
        return Err(AssertionFailure);
      }
      if g[c].afterParent.Some? && !IsChildAt(g, g[c].afterParent.value, c, AFTER) {
        return Err(AssertionFailure);
      }
    }
    var x := g[n];
    if x.beforeParent.None? && x.afterParent.Some? && x.diffType != ADD {
      return Err(AssertionFailure);
    }
    if x.beforeParent.Some? && x.afterParent.None? && x.diffType != REM {
      return Err(AssertionFailure);
    }
    if x.beforeParent.Some? && x.afterParent.Some? && x.diffType != NON {
      return Err(AssertionFailure);
    }
    if x.IsElse() || x.IsElif() {
      if x.beforeParent.Some? && !g[x.beforeParent.value].nodeType.IsConditionalAnnotation() {
        return Err(AssertionFailure);
      }
      if x.afterParent.Some? && !g[x.afterParent.value].nodeType.IsConditionalAnnotation() {
        return Err(AssertionFailure);
      }
    }
    if x.nodeType.IsConditionalAnnotation() != x.formula.Some? {
      return Err(AssertionFailure);
    }
    return Ok(());
  }

  /**
   * The parent-side checks of the loop are tautologies: whatever the graph,
   * the as-written check of a child reduces to `isChild`.
   */
  lemma ChildCheckAsWrittenIsChild(g: Graph, n: NodeId, c: NodeId)
    requires c in g
    ensures ChildCheckAsWritten(g, n, c) <==> IsChild(g, n, c)
  {
  }

  /** When the links are consistent, the corrected and the as-written checks agree. */
  lemma LinkedChecksAgree(g: Graph, n: NodeId)
    requires Linked(g) && n in g
    ensures ConsistentAsWritten(g, n) <==> Consistent(g, n)
    ensures forall c :: c in g[n].childOrder ==> ChildCheck(g, n, c)
  {
    ChildrenInGraph(g, n);
    forall c | c in g[n].childOrder
      ensures ChildCheck(g, n, c)
    {
      assert IsChild(g, n, c);
      if g[c].beforeParent.Some? {
        var q := g[c].beforeParent.value;
        assert q in g && IsChild(g, q, c);
      }
      if g[c].afterParent.Some? {
        var q := g[c].afterParent.value;
        assert q in g && IsChild(g, q, c);
      }
    }
  }

  /**
   * The documented invariant of a whole diff: the links are two-way, and
   * every node passes the node checks of `assertConsistency`.
   */
  ghost predicate WellFormed(g: Graph)
  {
    Linked(g) && forall n :: n in g ==> NodeCheck(g, n)
  }

  /** On a well-formed diff every node passes the corrected consistency check. */
  lemma WellFormedConsistent(g: Graph)
    requires WellFormed(g)
    ensures forall n :: n in g ==> Consistent(g, n) && ConsistentAsWritten(g, n)
  {
    forall n | n in g
      ensures Consistent(g, n) && ConsistentAsWritten(g, n)
    {
      LinkedChecksAgree(g, n);
    }
  }

  /** `c` occurs in the child list of some node. */
  ghost predicate Listed(g: Graph, c: NodeId)
  {
    exists n :: n in g && c in g[n].childOrder
  }

  /**
   * Conversely, if every node passes the corrected check, child lists hold
   * no duplicates and every node with a parent is listed somewhere, the
   * links are two-way.
   */
  lemma ConsistentEverywhereLinked(g: Graph)
    requires Closed(g)
    requires forall n :: n in g ==> Consistent(g, n)
    requires forall p :: p in g ==> NoDuplicates(g[p].childOrder)
    requires forall c :: c in g && !g[c].IsRoot() ==> Listed(g, c)
    ensures Linked(g)
  {
    forall p, c | p in g && c in g
      ensures c in g[p].childOrder <==> IsChild(g, p, c)
    {
      if c in g[p].childOrder {
        assert ChildCheck(g, p, c);
      }
      if IsChild(g, p, c) {
        var n :| n in g && c in g[n].childOrder;
        assert ChildCheck(g, n, c);
      }
    }
  }

  /**
   * A graph whose links are broken: node 2 names node 0 as its parent
   * before the edit, but only node 1, its parent after the edit, lists it.
   */
  function UnlistedBeforeChild(): (g: Graph)
    ensures Closed(g) && 1 in g && 2 in g && g[2].beforeParent == Some(0)
  {
    map[0 := Node(NON, IF, InvalidLine(), InvalidLine(), Some(Formulas.True), [], None, None, []),
        1 := Node(NON, IF, InvalidLine(), InvalidLine(), Some(Formulas.True), [], Some(0), Some(0), [2]),
        2 := Node(NON, ARTIFACT, InvalidLine(), InvalidLine(), None, [], Some(0), Some(1), [])]
  }

  /**
   * The as-written check of node 1 accepts the broken graph, while the
   * corrected check rejects it.
   */
  lemma AsWrittenMissesUnlistedChild()
    ensures !Linked(UnlistedBeforeChild())
    ensures ConsistentAsWritten(UnlistedBeforeChild(), 1)
    ensures !Consistent(UnlistedBeforeChild(), 1)
  {
    var g := UnlistedBeforeChild();
    assert IsChild(g, 0, 2) && 2 !in g[0].childOrder;
    assert g[1].childOrder == [2];
    assert !ChildCheck(g, 1, 2);
  }
}
