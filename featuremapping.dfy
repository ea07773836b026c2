/**
 * Feature mappings and presence conditions of diff nodes (equations (1) and (2)
 * of the variation-diff model): the clause lists, the formulas built from them,
 * the loops that compute them, and their meaning.
 *
 * A node of kind IF or ELIF must carry a formula. A missing formula that would
 * end up inside a clause list is reported as `NullFormula`; where Java
 * dereferences it (`List.of(null)`) it is a `NullPointer`.
 */
module FeatureMapping {
  import opened Wrappers
  import opened Formulas
  import opened DiffTypes
  import opened DiffGraph
  import opened DiffQueries

  /** Prepends `acc` to a successful clause list and passes an exception through. */
  function Prepend(acc: seq<Formula>, r: Result<seq<Formula>>): Result<seq<Formula>>
  {
    if r.Err? then r else Ok(acc + r.value)
  }

  ghost function HeightOf(g: Graph, t: Time, a: Option<NodeId>): nat
    requires Acyclic(g, t) && (a.Some? ==> a.value in g)
  {
    if a.Some? then Height(g, t, a.value) + 1 else 0
  }

  /**
   * The negations an ELSE or ELIF collects while walking up from its parent
   * `a`: one per ELIF passed, and finally the governing IF's. Any other node on
   * the way breaks the chain.
   */
  function ChainNegations(g: Graph, t: Time, a: Option<NodeId>): (r: Result<seq<Formula>>)
    requires Acyclic(g, t) && (a.Some? ==> a.value in g)
    ensures r.Ok? ==> a.Some? && NegationsOfChain(g, Path(g, t, a.value), r.value)
    decreases HeightOf(g, t, a)
  {
    match a
    case None => Err(NullPointer)
    case Some(m) =>
      var node := g[m];
      if node.IsIf() then
        if node.formula.None? then Err(NullFormula) else Ok([Negate(node.formula.value)])
      else if node.IsElif() then
        if node.formula.None? then Err(NullFormula)
        else
          var p := node.Parent(t);
          ParentStep(g, t, m);
          var rest := ChainNegations(g, t, p);
          if rest.Err? then rest
          else
            ChainStep(g, t, m, rest.value);
            Ok([Negate(node.formula.value)] + rest.value)
      else Err(BrokenChain)
  }

  /**
   * `negs` negates, in order, the formulas of a prefix of chain `P` that
   * consists of ELIF nodes ended by an IF node.
   */
  ghost predicate NegationsOfChain(g: Graph, P: seq<NodeId>, negs: seq<Formula>)
  {
    1 <= |negs| <= |P| &&
    (forall i :: 0 <= i < |P| ==> P[i] in g) &&
    g[P[|negs| - 1]].IsIf() &&
    (forall i :: 0 <= i < |negs| - 1 ==> g[P[i]].IsElif()) &&
    (forall i :: 0 <= i < |negs| ==> g[P[i]].formula.Some? && negs[i] == Negate(g[P[i]].formula.value))
  }

  lemma ChainStep(g: Graph, t: Time, m: NodeId, rest: seq<Formula>)
    requires Acyclic(g, t) && m in g && g[m].IsElif() && g[m].formula.Some? && g[m].Parent(t).Some?
    requires g[m].Parent(t).value in g
    requires NegationsOfChain(g, Path(g, t, g[m].Parent(t).value), rest)
    ensures NegationsOfChain(g, Path(g, t, m), [Negate(g[m].formula.value)] + rest)
  {
    ParentHeight(g, t, m);
    var P := Path(g, t, m);
    var Q := Path(g, t, g[m].Parent(t).value);
    assert P == [m] + Q;
    var negs := [Negate(g[m].formula.value)] + rest;
    forall i | 0 <= i < |negs| ensures g[P[i]].formula.Some? && negs[i] == Negate(g[P[i]].formula.value) {
      if i > 0 { assert P[i] == Q[i - 1] && negs[i] == rest[i - 1]; }
    }
    forall i | 0 <= i < |negs| - 1 ensures g[P[i]].IsElif() {
      if i > 0 { assert P[i] == Q[i - 1]; }
    }
    assert P[|negs| - 1] == Q[|rest| - 1];
  }

  /**
   * `getFeatureMappingClauses(t)`: an IF (or the root) is mapped by its own
   * formula; an ELIF by its formula and the negations of the chain above it;
   * an ELSE by those negations only; an artifact by its parent's clauses.
   */
  function FeatureMappingClauses(g: Graph, t: Time, n: NodeId): (r: Result<seq<Formula>>)
    requires Acyclic(g, t) && n in g
    ensures r.Ok? ==> |r.value| >= 1
    ensures r.Ok? && (g[n].IsIf() || g[n].nodeType == ROOT) ==> g[n].formula.Some? && r.value == [g[n].formula.value]
    decreases Height(g, t, n)
  {
    var node := g[n];
    var parent := node.Parent(t);
    if node.IsElse() || node.IsElif() then
      ParentStep(g, t, n);
      var negations := ChainNegations(g, t, parent);
      if negations.Err? then negations
      else if node.IsElif() then
        if node.formula.None? then Err(NullFormula) else Ok([node.formula.value] + negations.value)
      else negations
    else if node.IsArtifact() then
      match parent
      case None => Err(NullPointer)
      case Some(p) =>
        ParentHeight(g, t, n);
        FeatureMappingClauses(g, t, p)
    else
      if node.formula.None? then Err(NullPointer) else Ok([node.formula.value])
  }

  /** `getFeatureMapping(t)`: a single clause is returned bare, several are conjoined. */
  function FeatureMapping(g: Graph, t: Time, n: NodeId): (r: Result<Formula>)
    requires Acyclic(g, t) && n in g
    ensures r.Ok? <==> FeatureMappingClauses(g, t, n).Ok?
    ensures r.Ok? ==> forall a: Assignment :: Eval(r.value, a) == Eval(And(FeatureMappingClauses(g, t, n).value), a)
  {
    var cs := FeatureMappingClauses(g, t, n);
    if cs.Err? then Err(cs.error)
    else if |cs.value| == 1 then Ok(cs.value[0])
    else Ok(And(cs.value))
  }

  /**
   * Mutual exclusion of the branches of a chain: whatever satisfies the feature
   * mapping of an ELIF or ELSE falsifies the formula of every ELIF above it and
   * of the governing IF, and satisfies the ELIF's own formula.
   */
  lemma BranchesExclude(g: Graph, t: Time, n: NodeId, a: Assignment, i: nat)
    requires Acyclic(g, t) && n in g && (g[n].IsElif() || g[n].IsElse())
    requires FeatureMappingClauses(g, t, n).Ok?
    requires Eval(And(FeatureMappingClauses(g, t, n).value), a)
    ensures g[n].Parent(t).Some? && g[n].Parent(t).value in g
    ensures ChainNegations(g, t, g[n].Parent(t)).Ok?
    ensures i < |ChainNegations(g, t, g[n].Parent(t)).value| ==>
      var m := Path(g, t, n)[i + 1];
      (g[m].IsIf() || g[m].IsElif()) && g[m].formula.Some? && !Eval(g[m].formula.value, a)
    ensures g[n].IsElif() ==> g[n].formula.Some? && Eval(g[n].formula.value, a)
  {
    ChainClauses(g, t, n);
    var p := g[n].Parent(t);
    var cs := FeatureMappingClauses(g, t, n).value;
    var negs := ChainNegations(g, t, p).value;
    var off := if g[n].IsElif() then 1 else 0;
    var Q := Path(g, t, p.value);
    if i < |negs| {
      assert Path(g, t, n)[i + 1] == Q[i];
      assert cs[off + i] == negs[i];
      assert Eval(cs[off + i], a);
      NegationFalsifies(g, Q, negs, a, i);
    }
    if g[n].IsElif() {
      assert Eval(cs[0], a);
    }
  }

  /** The clauses of an ELSE or ELIF: its own formula (ELIF only), then the chain's negations. */
  lemma ChainClauses(g: Graph, t: Time, n: NodeId)
    requires Acyclic(g, t) && n in g && (g[n].IsElif() || g[n].IsElse())
    requires FeatureMappingClauses(g, t, n).Ok?
    ensures g[n].Parent(t).Some? && g[n].Parent(t).value in g
    ensures Path(g, t, n) == [n] + Path(g, t, g[n].Parent(t).value)
    ensures ChainNegations(g, t, g[n].Parent(t)).Ok?
    ensures g[n].IsElif() ==>
      g[n].formula.Some? &&
      FeatureMappingClauses(g, t, n).value == [g[n].formula.value] + ChainNegations(g, t, g[n].Parent(t)).value
    ensures g[n].IsElse() ==>
      FeatureMappingClauses(g, t, n).value == ChainNegations(g, t, g[n].Parent(t)).value
  {
    ParentStep(g, t, n);
  }

  lemma NegationFalsifies(g: Graph, Q: seq<NodeId>, negs: seq<Formula>, a: Assignment, i: nat)
    requires NegationsOfChain(g, Q, negs) && i < |negs| && Eval(negs[i], a)
    ensures (g[Q[i]].IsIf() || g[Q[i]].IsElif()) && g[Q[i]].formula.Some? && !Eval(g[Q[i]].formula.value, a)
  {
    assert i < |negs| - 1 ==> g[Q[i]].IsElif();
  }

  /** The IF that ends the chain starting at `a` (`while (!correspondingIf.isIf())`). */
  function GoverningIf(g: Graph, t: Time, a: Option<NodeId>): (r: Result<NodeId>)
    requires Acyclic(g, t) && (a.Some? ==> a.value in g)
    ensures r.Ok? ==>
      r.value in g && g[r.value].IsIf() && a.Some? && Height(g, t, r.value) <= Height(g, t, a.value)
    decreases HeightOf(g, t, a)
  {
    match a
    case None => Err(NullPointer)
    case Some(m) =>
      if g[m].IsIf() then Ok(m)
      else
        var p := g[m].Parent(t);
        ParentStep(g, t, m);
        GoverningIf(g, t, p)
  }

  /** Where the chain of negations succeeds, it ends at the governing IF. */
  lemma {:induction false} GoverningIfEndsChain(g: Graph, t: Time, a: Option<NodeId>)
    requires Acyclic(g, t) && (a.Some? ==> a.value in g)
    requires ChainNegations(g, t, a).Ok?
    ensures GoverningIf(g, t, a).Ok?
    ensures GoverningIf(g, t, a).value == Path(g, t, a.value)[|ChainNegations(g, t, a).value| - 1]
    decreases HeightOf(g, t, a)
  {
    var m := a.value;
    if !g[m].IsIf() {
      var p := g[m].Parent(t);
      ParentStep(g, t, m);
      GoverningIfEndsChain(g, t, p);
      assert Path(g, t, m) == [m] + Path(g, t, p.value);
    }
  }

  /**
   * `getPresenceConditionClauses(t)`: the clauses of the node's feature mapping
   * followed by the presence condition of the enclosing annotation.
   */
  function PresenceConditionClauses(g: Graph, t: Time, n: NodeId): (r: Result<seq<Formula>>)
    requires Acyclic(g, t) && n in g
    ensures r.Ok? ==> |r.value| >= 1
    decreases Height(g, t, n)
  {
    var node := g[n];
    var parent := node.Parent(t);
    if node.IsElse() || node.IsElif() then
      var clauses := FeatureMappingClauses(g, t, n);
      if clauses.Err? then clauses
      else
        ParentStep(g, t, n);
        var correspondingIf := GoverningIf(g, t, parent);
        if correspondingIf.Err? then Err(correspondingIf.error)
        else
          var m := correspondingIf.value;
          match g[m].Parent(t)
          case None => clauses
          case Some(outer) =>
            ParentHeight(g, t, m);
            Prepend(clauses.value, PresenceConditionClauses(g, t, outer))
    else if node.IsArtifact() then
      match parent
      case None => Err(NullPointer)
      case Some(p) =>
        ParentHeight(g, t, n);
        PresenceConditionClauses(g, t, p)
    else
      ParentStep(g, t, n);
      var base := if parent.None? then Ok([]) else PresenceConditionClauses(g, t, parent.value);
      if base.Err? then base
      else if node.formula.None? then Err(NullFormula)
      else Ok(base.value + [node.formula.value])
  }

  /**
   * `getPresenceCondition(t)`: the conjunction of the clauses; a node that does
   * not exist at `t` has none (WrongTimeException).
   */
  function PresenceCondition(g: Graph, t: Time, n: NodeId): (r: Result<Formula>)
    requires Acyclic(g, t) && n in g
    ensures r == Err(WrongTime) <==> !g[n].diffType.ExistsAtTime(t)
    ensures r.Ok? ==> PresenceConditionClauses(g, t, n).Ok? && r.value == And(PresenceConditionClauses(g, t, n).value)
    ensures g[n].diffType.ExistsAtTime(t) && PresenceConditionClauses(g, t, n).Ok? ==> r.Ok?
  {
    if g[n].diffType.ExistsAtTime(t) then
      var cs := PresenceConditionClauses(g, t, n);
      if cs.Err? then
        PresenceConditionClausesNeverWrongTime(g, t, n);
        Err(cs.error)
      else Ok(And(cs.value))
    else Err(WrongTime)
  }

  lemma {:induction false} PresenceConditionClausesNeverWrongTime(g: Graph, t: Time, n: NodeId)
    requires Acyclic(g, t) && n in g
    ensures PresenceConditionClauses(g, t, n).Err? ==> PresenceConditionClauses(g, t, n).error != WrongTime
    decreases Height(g, t, n)
  {
    FeatureMappingClausesNeverWrongTime(g, t, n);
    var node := g[n];
    match node.Parent(t)
    case None =>
    case Some(p) =>
      ParentHeight(g, t, n);
      PresenceConditionClausesNeverWrongTime(g, t, p);
      if node.IsElse() || node.IsElif() {
        var ci := GoverningIf(g, t, node.Parent(t));
        if ci.Ok? && g[ci.value].Parent(t).Some? {
          ParentHeight(g, t, ci.value);
          PresenceConditionClausesNeverWrongTime(g, t, g[ci.value].Parent(t).value);
        }
      }
  }

  lemma {:induction false} ChainNegationsNeverWrongTime(g: Graph, t: Time, a: Option<NodeId>)
    requires Acyclic(g, t) && (a.Some? ==> a.value in g)
    ensures ChainNegations(g, t, a).Err? ==> ChainNegations(g, t, a).error != WrongTime
    decreases HeightOf(g, t, a)
  {
    if a.Some? && g[a.value].Parent(t).Some? {
      ParentHeight(g, t, a.value);
      ChainNegationsNeverWrongTime(g, t, g[a.value].Parent(t));
    }
  }

  lemma {:induction false} FeatureMappingClausesNeverWrongTime(g: Graph, t: Time, n: NodeId)
    requires Acyclic(g, t) && n in g
    ensures FeatureMappingClauses(g, t, n).Err? ==> FeatureMappingClauses(g, t, n).error != WrongTime
    decreases Height(g, t, n)
  {
    ParentStep(g, t, n);
    ChainNegationsNeverWrongTime(g, t, g[n].Parent(t));
    if g[n].IsArtifact() && g[n].Parent(t).Some? {
      ParentHeight(g, t, n);
      FeatureMappingClausesNeverWrongTime(g, t, g[n].Parent(t).value);
    }
  }

  /** The feature mapping clauses are always among the presence condition clauses. */
  lemma {:induction false} PresenceConditionImpliesFeatureMapping(g: Graph, t: Time, n: NodeId, a: Assignment)
    requires Acyclic(g, t) && n in g
    requires PresenceConditionClauses(g, t, n).Ok? && FeatureMappingClauses(g, t, n).Ok?
    requires Eval(And(PresenceConditionClauses(g, t, n).value), a)
    ensures Eval(And(FeatureMappingClauses(g, t, n).value), a)
    decreases Height(g, t, n)
  {
    var node := g[n];
    var pcs := PresenceConditionClauses(g, t, n).value;
    var fms := FeatureMappingClauses(g, t, n).value;
    if node.IsElse() || node.IsElif() {
      assert fms == pcs[..|fms|];
      forall i | 0 <= i < |fms| ensures Eval(fms[i], a) { assert fms[i] == pcs[i]; }
    } else if node.IsArtifact() {
      ParentHeight(g, t, n);
      PresenceConditionImpliesFeatureMapping(g, t, node.Parent(t).value, a);
    } else {
      assert fms == [pcs[|pcs| - 1]];
      assert Eval(pcs[|pcs| - 1], a);
    }
  }

  /** An IF below a parent refines the parent's presence condition. */
  lemma IfRefinesParent(g: Graph, t: Time, n: NodeId, a: Assignment)
    requires Acyclic(g, t) && n in g && g[n].IsIf() && g[n].Parent(t).Some?
    requires PresenceConditionClauses(g, t, n).Ok?
    requires Eval(And(PresenceConditionClauses(g, t, n).value), a)
    ensures g[n].Parent(t).value in g
    ensures PresenceConditionClauses(g, t, g[n].Parent(t).value).Ok?
    ensures Eval(And(PresenceConditionClauses(g, t, g[n].Parent(t).value).value), a)
  {
    var p := g[n].Parent(t).value;
    ParentHeight(g, t, n);
    var base := PresenceConditionClauses(g, t, p).value;
    var pcs := PresenceConditionClauses(g, t, n).value;
    assert pcs == base + [g[n].formula.value];
    forall i | 0 <= i < |base| ensures Eval(base[i], a) { assert pcs[i] == base[i]; }
  }

  lemma PrependStep(acc: seq<Formula>, x: Formula, r: Result<seq<Formula>>)
    ensures Prepend(acc + [x], r) == Prepend(acc, Prepend([x], r))
  {
    if r.Ok? { assert acc + [x] + r.value == acc + ([x] + r.value); }
  }

  /**
   * The loop of `getFeatureMappingClauses`: walks the ancestors of an ELSE or
   * ELIF from its parent up to the first IF, negating each formula on the way.
   */
  method GetFeatureMappingClauses(g: Graph, t: Time, n: NodeId) returns (r: Result<seq<Formula>>)
    requires Acyclic(g, t) && n in g
    ensures r == FeatureMappingClauses(g, t, n)
    decreases Height(g, t, n)
  {
    var node := g[n];
    var parent := node.Parent(t);
    if node.IsElse() || node.IsElif() {
      ParentStep(g, t, n);
      var and: seq<Formula> := [];
      var ancestor := parent;
      assert Prepend(and, ChainNegations(g, t, ancestor)) == ChainNegations(g, t, parent) by {
        var c := ChainNegations(g, t, parent);
        if c.Ok? { assert [] + c.value == c.value; }
      }
      while ancestor.None? || !g[ancestor.value].IsIf()
        invariant ancestor.Some? ==> ancestor.value in g
        invariant Prepend(and, ChainNegations(g, t, ancestor)) == ChainNegations(g, t, parent)
        decreases HeightOf(g, t, ancestor)
      {
        if ancestor.None? {
          return Err(NullPointer);
        }
        var anc := g[ancestor.value];
        if anc.IsElif() {
          if anc.formula.None? {
            return Err(NullFormula);
          }
          ParentStep(g, t, ancestor.value);
          PrependStep(and, Negate(anc.formula.value), ChainNegations(g, t, anc.Parent(t)));
          and := and + [Negate(anc.formula.value)];
        } else {
          return Err(BrokenChain);
        }
        if anc.Parent(t).Some? { ParentHeight(g, t, ancestor.value); }
        ancestor := anc.Parent(t);
      }
      var last := g[ancestor.value];
      if last.formula.None? {
        return Err(NullFormula);
      }
      and := and + [Negate(last.formula.value)];
      assert Ok(and) == ChainNegations(g, t, parent);
      if node.IsElif() {
        if node.formula.None? {
          return Err(NullFormula);
        }
        and := [node.formula.value] + and;
      }
      return Ok(and);
    } else if node.IsArtifact() {
      if parent.None? {
        return Err(NullPointer);
      }
      ParentHeight(g, t, n);
      r := GetFeatureMappingClauses(g, t, parent.value);
    } else {
      if node.formula.None? {
        return Err(NullPointer);
      }
      return Ok([node.formula.value]);
    }
  }

  /**
   * `getPresenceConditionClauses`, with its loop that searches the IF
   * governing an ELSE or ELIF.
   */
  method GetPresenceConditionClauses(g: Graph, t: Time, n: NodeId) returns (r: Result<seq<Formula>>)
    requires Acyclic(g, t) && n in g
    ensures r == PresenceConditionClauses(g, t, n)
    decreases Height(g, t, n)
  {
    var node := g[n];
    var parent := node.Parent(t);
    if node.IsElse() || node.IsElif() {
      var clauses := GetFeatureMappingClauses(g, t, n);
      if clauses.Err? {
        return clauses;
      }
      ParentStep(g, t, n);
      var correspondingIf := parent;
      while correspondingIf.None? || !g[correspondingIf.value].IsIf()
        invariant correspondingIf.Some? ==> correspondingIf.value in g
        invariant GoverningIf(g, t, correspondingIf) == GoverningIf(g, t, parent)
        decreases HeightOf(g, t, correspondingIf)
      {
        if correspondingIf.None? {
          return Err(NullPointer);
        }
        var c := correspondingIf.value;
        if g[c].Parent(t).Some? { ParentHeight(g, t, c); }
        correspondingIf := g[c].Parent(t);
      }
      var m := correspondingIf.value;
      var outerNesting := g[m].Parent(t);
      if outerNesting.Some? {
        ParentHeight(g, t, m);
        var outer := GetPresenceConditionClauses(g, t, outerNesting.value);
        r := Prepend(clauses.value, outer);
      } else {
        r := clauses;
      }
    } else if node.IsArtifact() {
      if parent.None? {
        return Err(NullPointer);
      }
      ParentHeight(g, t, n);
      r := GetPresenceConditionClauses(g, t, parent.value);
    } else {
      var clauses: seq<Formula> := [];
      if parent.Some? {
        ParentHeight(g, t, n);
        var base := GetPresenceConditionClauses(g, t, parent.value);
        if base.Err? {
          return base;
        }
        clauses := base.value;
      }
      if node.formula.None? {
        return Err(NullFormula);
      }
      r := Ok(clauses + [node.formula.value]);
    }
  }
}
