/**
 * The catalogue of the nine elementary edit patterns, the inlined decision
 * tree that classifies an artifact node, and the separate `Refactoring` edit
 * class.
 */
module EditPatterns {
  import opened Wrappers
  import opened Formulas
  import opened DiffTypes
  import opened DiffGraph
  import opened DiffQueries
  import opened FeatureMapping
  import Sat

  datatype Pattern =
    | AddToPC | AddWithMapping
    | RemFromPC | RemWithMapping
    | Specialization | Generalization | Reconfiguration | Refactoring | Untouched
  {
    /** `getName`: the name of the pattern class. */
    function Name(): string
    {
      match this
      case AddToPC => "AddToPC"
      case AddWithMapping => "AddWithMapping"
      case RemFromPC => "RemFromPC"
      case RemWithMapping => "RemWithMapping"
      case Specialization => "Specialization"
      case Generalization => "Generalization"
      case Reconfiguration => "Reconfiguration"
      case Refactoring => "Refactoring"
      case Untouched => "Untouched"
    }

    /** `getDiffType`: the kind of node a pattern applies to. */
    function Type(): DiffType
    {
      match this
      case AddToPC | AddWithMapping => ADD
      case RemFromPC | RemWithMapping => REM
      case _ => NON
    }
  }

  /** `All`: the nine patterns in their order of appearance in the paper. */
  const All: seq<Pattern> := [
    AddToPC, AddWithMapping,
    RemFromPC, RemWithMapping,
    Specialization, Generalization, Reconfiguration, Refactoring, Untouched
  ]

  /** Every pattern occurs in `All`, exactly once. */
  lemma AllEnumerates(p: Pattern)
    ensures p in All
    ensures forall i, j :: 0 <= i < j < |All| ==> All[i] != All[j]
  {
  }

  /** No two patterns share a name. */
  lemma NamesInjective(p: Pattern, q: Pattern)
    ensures p.Name() == q.Name() ==> p == q
  {
    if p.Name() == q.Name() {
      assert |p.Name()| == |q.Name()| && p.Name()[0] == q.Name()[0];
    }
  }

  /** The entries of `s` that apply to nodes of type `d`, in the order of `s`. */
  function OfType(s: seq<Pattern>, d: DiffType): seq<Pattern>
  {
    if s == [] then []
    else OfType(s[..|s| - 1], d) + (if s[|s| - 1].Type() == d then [s[|s| - 1]] else [])
  }

  /** Appending an entry to `s` appends it to its own group and leaves the others alone. */
  lemma OfTypeSnoc(s: seq<Pattern>, p: Pattern)
    ensures forall d :: OfType(s + [p], d) == OfType(s, d) + (if p.Type() == d then [p] else [])
  {
    assert (s + [p])[..|s|] == s;
  }

  /** The group of `d` holds exactly the entries of `s` of type `d`, and no more of them than `s` has. */
  lemma {:induction false} OfTypeMembers(s: seq<Pattern>, d: DiffType)
    ensures forall p :: p in OfType(s, d) <==> p in s && p.Type() == d
    ensures |OfType(s, d)| <= |s|
  {
    if s != [] {
      var init := s[..|s| - 1];
      OfTypeMembers(init, d);
      assert s == init + [s[|s| - 1]];
    }
  }

  /** The static initialiser of `PatternsByType`: one pass over `All`, appending to each type's group. */
  method PatternsByType() returns (m: map<DiffType, seq<Pattern>>)
    ensures forall d :: d in m <==> OfType(All, d) != []
    ensures forall d :: d in m ==> m[d] == OfType(All, d)
  {
    m := map[];
    for i := 0 to |All|
      invariant forall d :: d in m <==> OfType(All[..i], d) != []
      invariant forall d :: d in m ==> m[d] == OfType(All[..i], d)
    {
      var p := All[i];
      assert All[..i + 1] == All[..i] + [p];
      OfTypeSnoc(All[..i], p);
      var group := if p.Type() in m then m[p.Type()] else [];
      m := m[p.Type() := group + [p]];
    }
    assert All[..|All|] == All;
  }

  /** The three groups, each in `All`'s order. */
  lemma PatternsByTypeGroups()
    ensures OfType(All, ADD) == [AddToPC, AddWithMapping]
    ensures OfType(All, REM) == [RemFromPC, RemWithMapping]
    ensures OfType(All, NON) == [Specialization, Generalization, Reconfiguration, Refactoring, Untouched]
  {
    var s0: seq<Pattern> := [];
    var s1 := s0 + [AddToPC];
    var s2 := s1 + [AddWithMapping];
    var s3 := s2 + [RemFromPC];
    var s4 := s3 + [RemWithMapping];
    var s5 := s4 + [Specialization];
    var s6 := s5 + [Generalization];
    var s7 := s6 + [Reconfiguration];
    var s8 := s7 + [Refactoring];
    var s9 := s8 + [Untouched];
    OfTypeSnoc(s0, AddToPC);
    OfTypeSnoc(s1, AddWithMapping);
    OfTypeSnoc(s2, RemFromPC);
    OfTypeSnoc(s3, RemWithMapping);
    OfTypeSnoc(s4, Specialization);
    OfTypeSnoc(s5, Generalization);
    OfTypeSnoc(s6, Reconfiguration);
    OfTypeSnoc(s7, Refactoring);
    OfTypeSnoc(s8, Untouched);
    assert s9 == All;
  }

  /** `fromName`: the first pattern of `All` with the given name. */
  method FromName(name: string) returns (r: Option<Pattern>)
    ensures r.Some? ==> r.value in All && r.value.Name() == name
    ensures r.None? <==> forall p :: p in All ==> p.Name() != name
    ensures forall p: Pattern :: p.Name() == name ==> r == Some(p)
  {
    for i := 0 to |All|
      invariant forall j :: 0 <= j < i ==> All[j].Name() != name
    {
      if All[i].Name() == name {
        forall p: Pattern | p.Name() == name ensures p == All[i] {
          NamesInjective(p, All[i]);
        }
        return Some(All[i]);
      }
    }
    forall p: Pattern ensures p in All { AllEnumerates(p); }
    return None;
  }

  /**
   * The last steps of the decision tree for an unchanged node: which of the
   * two variant sets contains the other, and whether the node moved.
   */
  function ClassifyUnchanged(beforeSubsetOfAfter: bool, afterSubsetOfBefore: bool, samePath: bool): (r: Pattern)
    ensures r.Type() == NON
  {
    if beforeSubsetOfAfter && afterSubsetOfBefore then
      if samePath then Untouched else Refactoring
    else if beforeSubsetOfAfter then Generalization
    else if afterSubsetOfBefore then Specialization
    else Reconfiguration
  }

  /**
   * `match(node)`: rejects non-artifacts; classifies an added or removed
   * artifact by the change type of its parent; classifies an unchanged one
   * by comparing its presence conditions (without the oracle when they are
   * syntactically equal).
   */
  function Match(l: Sat.Logic, g: Graph, n: NodeId): (r: Result<Pattern>)
    requires Acyclic(g, BEFORE) && Acyclic(g, AFTER) && n in g
    ensures !g[n].IsArtifact() ==> r == Err(IllegalArgument)
    ensures r.Ok? ==> r.value.Type() == g[n].diffType
    ensures g[n].IsArtifact() && g[n].diffType == ADD ==> (r.Ok? <==> g[n].afterParent.Some?)
    ensures g[n].IsArtifact() && g[n].diffType == REM ==> (r.Ok? <==> g[n].beforeParent.Some?)
    ensures g[n].IsArtifact() && g[n].diffType == NON ==>
      (r.Ok? <==> PresenceCondition(g, BEFORE, n).Ok? && PresenceCondition(g, AFTER, n).Ok?)
  {
    var x := g[n];
    if !x.IsArtifact() then Err(IllegalArgument)
    else if x.diffType == ADD then
      if x.afterParent.None? then Err(NullPointer)
      else
        ParentHeight(g, AFTER, n);
        Ok(if g[x.afterParent.value].diffType == ADD then AddWithMapping else AddToPC)
    else if x.diffType == REM then
      if x.beforeParent.None? then Err(NullPointer)
      else
        ParentHeight(g, BEFORE, n);
        Ok(if g[x.beforeParent.value].diffType == REM then RemWithMapping else RemFromPC)
    else
      var pcb := PresenceCondition(g, BEFORE, n);
      var pca := PresenceCondition(g, AFTER, n);
      if pcb.Err? then Err(pcb.error)
      else if pca.Err? then Err(pca.error)
      else if pcb.value == pca.value then
        Ok(ClassifyUnchanged(true, true, BeforePathEqualsAfterPath(g, n)))
      else
        Ok(ClassifyUnchanged(Sat.Implies(l, pcb.value, pca.value), Sat.Implies(l, pca.value, pcb.value),
                             BeforePathEqualsAfterPath(g, n)))
  }

  /** An added artifact is AddWithMapping iff its parent after the edit was added too, else AddToPC. */
  lemma MatchAdded(l: Sat.Logic, g: Graph, n: NodeId)
    requires Acyclic(g, BEFORE) && Acyclic(g, AFTER) && n in g
    requires g[n].IsArtifact() && g[n].diffType == ADD && g[n].afterParent.Some?
    ensures g[n].afterParent.value in g
    ensures Match(l, g, n) == Ok(AddWithMapping) || Match(l, g, n) == Ok(AddToPC)
    ensures Match(l, g, n) == Ok(AddWithMapping) <==> g[g[n].afterParent.value].diffType == ADD
  {
    ParentHeight(g, AFTER, n);
  }

  /** A removed artifact is RemWithMapping iff its parent before the edit was removed too, else RemFromPC. */
  lemma MatchRemoved(l: Sat.Logic, g: Graph, n: NodeId)
    requires Acyclic(g, BEFORE) && Acyclic(g, AFTER) && n in g
    requires g[n].IsArtifact() && g[n].diffType == REM && g[n].beforeParent.Some?
    ensures g[n].beforeParent.value in g
    ensures Match(l, g, n) == Ok(RemWithMapping) || Match(l, g, n) == Ok(RemFromPC)
    ensures Match(l, g, n) == Ok(RemWithMapping) <==> g[g[n].beforeParent.value].diffType == REM
  {
    ParentHeight(g, BEFORE, n);
  }

  /** The presence conditions of an unchanged artifact that `match` compares. */
  ghost predicate UnchangedWithConditions(g: Graph, n: NodeId)
  {
    Acyclic(g, BEFORE) && Acyclic(g, AFTER) && n in g &&
    g[n].IsArtifact() && g[n].diffType == NON &&
    PresenceCondition(g, BEFORE, n).Ok? && PresenceCondition(g, AFTER, n).Ok?
  }

  /**
   * With a sound oracle an unchanged artifact gets exactly one of the five
   * NON patterns, decided by the variant sets of its two presence conditions.
   */
  lemma MatchUnchanged(l: Sat.Logic, g: Graph, n: NodeId)
    requires Sat.Sound(l) && UnchangedWithConditions(g, n)
    ensures var b := PresenceCondition(g, BEFORE, n).value;
      var a := PresenceCondition(g, AFTER, n).value;
      var same := BeforePathEqualsAfterPath(g, n);
      (Match(l, g, n) == Ok(Untouched) <==> Formulas.Equivalent(b, a) && same) &&
      (Match(l, g, n) == Ok(Refactoring) <==> Formulas.Equivalent(b, a) && !same) &&
      (Match(l, g, n) == Ok(Generalization) <==> Entails(b, a) && !Entails(a, b)) &&
      (Match(l, g, n) == Ok(Specialization) <==> Entails(a, b) && !Entails(b, a)) &&
      (Match(l, g, n) == Ok(Reconfiguration) <==> !Entails(b, a) && !Entails(a, b))
  {
    var b := PresenceCondition(g, BEFORE, n).value;
    var a := PresenceCondition(g, AFTER, n).value;
    assert Formulas.Equivalent(b, a) <==> Entails(b, a) && Entails(a, b) by {
      if Entails(b, a) && Entails(a, b) {
        forall v: Assignment ensures Eval(b, v) == Eval(a, v) {
          assert Eval(b, v) ==> Eval(a, v);
          assert Eval(a, v) ==> Eval(b, v);
        }
      }
    }
    if b == a {
      assert Formulas.Equivalent(b, a);
    }
  }

  /** Syntactically equal presence conditions are classified without asking the oracle. */
  lemma EqualConditionsNeedNoOracle(l: Sat.Logic, l': Sat.Logic, g: Graph, n: NodeId)
    requires UnchangedWithConditions(g, n)
    requires PresenceCondition(g, BEFORE, n) == PresenceCondition(g, AFTER, n)
    ensures Match(l, g, n) == Match(l', g, n)
    ensures Match(l, g, n) == Ok(Untouched) || Match(l, g, n) == Ok(Refactoring)
  {
  }

  /**
   * `Refactoring.matchesArtifactNode`: the two presence conditions are
   * equivalent and the node moved. Both presence conditions are needed, so
   * a node that does not exist at both times fails.
   */
  function RefactoringMatches(l: Sat.Logic, g: Graph, n: NodeId): (r: Result<bool>)
    requires Acyclic(g, BEFORE) && Acyclic(g, AFTER) && n in g
    ensures g[n].diffType == ADD ==> r == Err(WrongTime)
    ensures g[n].diffType == REM ==> r.Err?
    ensures r.Ok? <==> PresenceCondition(g, BEFORE, n).Ok? && PresenceCondition(g, AFTER, n).Ok?
    ensures r.Ok? && BeforePathEqualsAfterPath(g, n) ==> !r.value
    ensures Sat.Sound(l) && r.Ok? ==>
      (r.value <==> Formulas.Equivalent(PresenceCondition(g, BEFORE, n).value, PresenceCondition(g, AFTER, n).value)
                    && !BeforePathEqualsAfterPath(g, n))
  {
    var pcb := PresenceCondition(g, BEFORE, n);
    var pca := PresenceCondition(g, AFTER, n);
    if pcb.Err? then Err(pcb.error)
    else if pca.Err? then Err(pca.error)
    else Ok(Sat.Equivalent(l, pcb.value, pca.value) && !BeforePathEqualsAfterPath(g, n))
  }

  /** With a sound oracle the edit class and the inlined catalogue agree on every unchanged artifact. */
  lemma RefactoringAgreesWithMatch(l: Sat.Logic, g: Graph, n: NodeId)
    requires Sat.Sound(l) && UnchangedWithConditions(g, n)
    ensures RefactoringMatches(l, g, n) == Ok(Match(l, g, n) == Ok(Refactoring))
  {
    MatchUnchanged(l, g, n);
  }
}
