/**
 * `ViewAnalysis.getUniquePartialConfigs`: the negated presence conditions of
 * the changed artifacts of a diff are collected as regular CNFs, every subset
 * of them is conjoined into a candidate view, the satisfiable candidates are
 * kept and semantic duplicates are removed.
 */
module ViewAnalysis {
  import opened Wrappers
  import opened Formulas
  import opened DiffTypes
  import opened DiffGraph
  import opened FeatureMapping
  import opened Bits
  import opened Sorting
  import Strings
  import NodeIds
  import Sat
  import EditPatterns

  /** No value occurs twice. */
  predicate Distinct<T(==)>(s: seq<T>)
  {
    forall i, j :: 0 <= i < j < |s| ==> s[i] != s[j]
  }

  /** `getChildren` of a prop4j node. */
  function Children(f: Formula): seq<Formula>
  {
    match f
    case And(cs) => cs
    case Or(cs) => cs
    case Not(x) => [x]
    case Implies(x, y) => [x, y]
    case Equals(x, y) => [x, y]
    case _ => []
  }

  /** The variable of a literal. */
  function VarName(f: Formula): string
  {
    if f.Lit? then f.name else ""
  }

  /** The literal comparator of `sortRegularCNF`: by variable name. */
  predicate LiteralLeq(a: Formula, b: Formula)
  {
    Strings.LexLeq(VarName(a), VarName(b))
  }

  /**
   * The clause comparator of `sortRegularCNF`: by number of literals, then by
   * the string form (`show`, standing for `Arrays.toString`) of the literals.
   */
  predicate ClauseLeq(show: seq<Formula> -> string, a: Formula, b: Formula)
  {
    |Children(a)| < |Children(b)| ||
    (|Children(a)| == |Children(b)| && Strings.LexLeq(show(Children(a)), show(Children(b))))
  }

  lemma LiteralLeqTotalPreorder()
    ensures TotalPreorder(LiteralLeq)
  {
    forall a: Formula, b: Formula ensures LiteralLeq(a, b) || LiteralLeq(b, a) {
      Strings.LexLeqTotal(VarName(a), VarName(b));
    }
    forall a: Formula, b: Formula, c: Formula | LiteralLeq(a, b) && LiteralLeq(b, c) ensures LiteralLeq(a, c) {
      Strings.LexLeqTrans(VarName(a), VarName(b), VarName(c));
    }
  }

  lemma ClauseLeqTotalPreorder(show: seq<Formula> -> string)
    ensures TotalPreorder((a, b) => ClauseLeq(show, a, b))
  {
    forall a: Formula, b: Formula ensures ClauseLeq(show, a, b) || ClauseLeq(show, b, a) {
      Strings.LexLeqTotal(show(Children(a)), show(Children(b)));
    }
    forall a: Formula, b: Formula, c: Formula | ClauseLeq(show, a, b) && ClauseLeq(show, b, c)
      ensures ClauseLeq(show, a, c)
    {
      if |Children(a)| == |Children(b)| == |Children(c)| {
        Strings.LexLeqTrans(show(Children(a)), show(Children(b)), show(Children(c)));
      }
    }
  }

  /** A clause with its literals sorted by variable name. */
  function SortClause(c: Formula): (r: Formula)
    requires Sat.IsRegularClause(c)
    ensures Sat.IsRegularClause(r) && SortedBy(r.children, LiteralLeq)
    ensures multiset(r.children) == multiset(c.children)
  {
    LiteralLeqTotalPreorder();
    var r := Or(SortBy(c.children, LiteralLeq));
    assert forall i :: 0 <= i < |r.children| ==> r.children[i] in multiset(c.children);
    r
  }

  /** A conjunction holds iff each of its members holds; a disjunction iff one of them does. */
  lemma EvalMembers(xs: seq<Formula>, a: Assignment)
    ensures Eval(And(xs), a) <==> forall x :: x in xs ==> Eval(x, a)
    ensures Eval(Or(xs), a) <==> exists x :: x in xs && Eval(x, a)
  {
    if Eval(Or(xs), a) {
      var i :| 0 <= i < |xs| && Eval(xs[i], a);
      assert xs[i] in xs;
    }
    if exists x :: x in xs && Eval(x, a) {
      var x :| x in xs && Eval(x, a);
      var i :| 0 <= i < |xs| && xs[i] == x;
    }
    if forall x :: x in xs ==> Eval(x, a) {
      forall i | 0 <= i < |xs| ensures Eval(xs[i], a) { assert xs[i] in xs; }
    }
  }

  /** Formulas with the same elements in some order have the same models as disjunctions and as conjunctions. */
  lemma EvalPermutation(xs: seq<Formula>, ys: seq<Formula>, a: Assignment)
    requires multiset(xs) == multiset(ys)
    ensures Eval(Or(xs), a) == Eval(Or(ys), a)
    ensures Eval(And(xs), a) == Eval(And(ys), a)
  {
    forall x | x in xs ensures x in ys { assert x in multiset(xs); }
    forall y | y in ys ensures y in xs { assert y in multiset(ys); }
    EvalMembers(xs, a);
    EvalMembers(ys, a);
  }

  /** The clauses of a regular CNF, each with its literals sorted. */
  function SortedClauses(f: Formula): (r: seq<Formula>)
    requires Sat.IsRegularCNF(f)
    ensures |r| == |f.children|
    ensures forall i :: 0 <= i < |r| ==> r[i] == SortClause(f.children[i])
  {
    seq(|f.children|, i requires 0 <= i < |f.children| => SortClause(f.children[i]))
  }

  /** Sorting the literals of each clause and then the clauses keeps the models of the CNF. */
  lemma SortedCNFEquivalent(f: Formula, sorted: seq<Formula>)
    requires Sat.IsRegularCNF(f) && multiset(sorted) == multiset(SortedClauses(f))
    ensures Formulas.Equivalent(And(sorted), f)
  {
    var cs := SortedClauses(f);
    forall a: Assignment ensures Eval(And(sorted), a) == Eval(f, a) {
      EvalPermutation(sorted, cs, a);
      forall i | 0 <= i < |cs| ensures Eval(cs[i], a) == Eval(f.children[i], a) {
        EvalPermutation(cs[i].children, f.children[i].children, a);
      }
    }
  }

  /** The clauses of a regular CNF, sorted by the clause comparator after sorting each clause. */
  function SortCNF(show: seq<Formula> -> string, f: Formula): (r: Formula)
    requires Sat.IsRegularCNF(f)
    ensures Sat.IsRegularCNF(r) && |r.children| == |f.children|
    ensures SortedBy(r.children, (a, b) => ClauseLeq(show, a, b))
    ensures forall i :: 0 <= i < |r.children| ==> SortedBy(r.children[i].children, LiteralLeq)
    ensures Formulas.Equivalent(r, f)
  {
    ClauseLeqTotalPreorder(show);
    var sorted := SortBy(SortedClauses(f), (a, b) => ClauseLeq(show, a, b));
    SortedClausesKept(f, sorted);
    And(sorted)
  }

  /** Any reordering of the sorted clauses is a regular CNF with sorted clauses, equivalent to the input. */
  lemma SortedClausesKept(f: Formula, sorted: seq<Formula>)
    requires Sat.IsRegularCNF(f) && multiset(sorted) == multiset(SortedClauses(f))
    ensures Sat.IsRegularCNF(And(sorted)) && |sorted| == |f.children|
    ensures forall i :: 0 <= i < |sorted| ==> SortedBy(sorted[i].children, LiteralLeq)
    ensures Formulas.Equivalent(And(sorted), f)
  {
    var cs := SortedClauses(f);
    forall i | 0 <= i < |sorted| ensures sorted[i] in cs {
      assert sorted[i] in multiset(sorted);
    }
    assert |sorted| == |cs| by {
      assert |multiset(sorted)| == |multiset(cs)|;
    }
    SortedCNFEquivalent(f, sorted);
  }

  /**
   * `sortRegularCNF(f)`: asserts that `f` is a conjunction, sorts the literals
   * of every clause by variable name and then the clauses by the clause
   * comparator. A clause that is not a disjunction of literals makes the
   * literal comparator's cast fail.
   */
  function SortRegularCNF(show: seq<Formula> -> string, f: Formula): (r: Result<Formula>)
    ensures !f.And? ==> r == Err(AssertionFailure)
    ensures f.And? ==> (r.Ok? <==> Sat.IsRegularCNF(f))
    ensures f.And? && !Sat.IsRegularCNF(f) ==> r == Err(ClassCast)
    ensures r.Ok? ==> Sat.IsRegularCNF(r.value) && |r.value.children| == |f.children|
    ensures r.Ok? ==> SortedBy(r.value.children, (a, b) => ClauseLeq(show, a, b))
    ensures r.Ok? ==> forall i :: 0 <= i < |r.value.children| ==> SortedBy(r.value.children[i].children, LiteralLeq)
    ensures r.Ok? ==> Formulas.Equivalent(r.value, f)
  {
    if !f.And? then Err(AssertionFailure)
    else if !Sat.IsRegularCNF(f) then Err(ClassCast)
    else Ok(SortCNF(show, f))
  }

  /** The total number of literals of a conjunction of clauses. */
  function ClauseLengths(f: Formula): nat
  {
    Sum(seq(|Children(f)|, i requires 0 <= i < |Children(f)| => |Children(Children(f)[i])|))
  }

  /** `numberOfLiteralsInRegularCNF(f)`: asserts a conjunction and sums the lengths of its clauses. */
  function NumberOfLiteralsInRegularCNF(f: Formula): (r: Result<nat>)
    ensures r.Err? <==> !f.And?
    ensures r.Err? ==> r.error == AssertionFailure
    ensures Sat.IsRegularCNF(f) ==> r == Ok(NumberOfLiterals(f))
  {
    if !f.And? then Err(AssertionFailure)
    else
      assert Sat.IsRegularCNF(f) ==> ClauseLengths(f) == NumberOfLiterals(f) by {
        if Sat.IsRegularCNF(f) { RegularCNFLiterals(f); }
      }
      Ok(ClauseLengths(f))
  }

  lemma {:induction false} SumOfOnes(n: nat, s: seq<nat>)
    requires |s| == n && forall i :: 0 <= i < n ==> s[i] == 1
    ensures Sum(s) == n
  {
    if n > 0 {
      SumOfOnes(n - 1, s[1..]);
    }
  }

  /** On a regular CNF the clause lengths add up to the number of literal leaves. */
  lemma RegularCNFLiterals(f: Formula)
    requires Sat.IsRegularCNF(f)
    ensures ClauseLengths(f) == NumberOfLiterals(f)
  {
    var cs := f.children;
    forall i | 0 <= i < |cs| ensures NumberOfLiterals(cs[i]) == |Children(cs[i])| {
      var lits := cs[i].children;
      SumOfOnes(|lits|, seq(|lits|, k requires 0 <= k < |lits| => NumberOfLiterals(lits[k])));
    }
    assert seq(|cs|, i requires 0 <= i < |cs| => NumberOfLiterals(cs[i]))
        == seq(|Children(f)|, i requires 0 <= i < |Children(f)| => |Children(Children(f)[i])|);
  }

  /** `LinkedHashSet.add`: appends `x` unless it is already present. */
  function AddToSet(s: seq<Formula>, x: Formula): (r: seq<Formula>)
    ensures Distinct(s) ==> Distinct(r)
    ensures forall y :: y in r <==> y in s || y == x
    ensures x in s ==> r == s
  {
    if x in s then s else s + [x]
  }

  /**
   * One deselected presence condition: the presence condition at `t`, with
   * true and false eliminated twice, negated, converted to a regular CNF and
   * sorted.
   */
  function DeselectedPC(l: Sat.Logic, show: seq<Formula> -> string, g: Graph, t: Time, a: NodeId, simplify: bool): (r: Result<Formula>)
    requires Acyclic(g, t) && a in g
    ensures PresenceCondition(g, t, a).Err? ==> r == Err(PresenceCondition(g, t, a).error)
    ensures r.Ok? ==> Sat.IsRegularCNF(r.value)
    ensures Sat.Sound(l) && PresenceCondition(g, t, a).Ok? ==>
      r.Ok? && Formulas.Equivalent(r.value, Not(PresenceCondition(g, t, a).value))
  {
    var pc := PresenceCondition(g, t, a);
    if pc.Err? then Err(pc.error)
    else
      var f := l.eliminateTrueAndFalse(l.eliminateTrueAndFalse(pc.value));
      var cnf := l.toRegularCNF(Negate(f), simplify);
      var r := SortRegularCNF(show, cnf);
      assert Sat.Sound(l) ==> r.Ok? && Formulas.Equivalent(r.value, Not(pc.value)) by {
        if Sat.Sound(l) {
          forall v: Assignment ensures Eval(r.value, v) == Eval(Not(pc.value), v) {
            assert Eval(r.value, v) == Eval(cnf, v);
            assert Eval(f, v) == Eval(l.eliminateTrueAndFalse(pc.value), v) == Eval(pc.value, v);
          }
        }
      }
      r
  }

  /** An artifact whose deselected presence conditions are collected: it is not classified Untouched. */
  ghost predicate Contributes(l: Sat.Logic, g: Graph, a: NodeId)
  {
    Acyclic(g, BEFORE) && Acyclic(g, AFTER) && a in g &&
    g[a].IsArtifact() && EditPatterns.Match(l, g, a) != Ok(EditPatterns.Untouched)
  }

  /** `f` is the deselected presence condition of a contributing node among `order[..n]`. */
  ghost predicate Collected(l: Sat.Logic, show: seq<Formula> -> string, g: Graph, order: seq<NodeId>, n: nat,
                            simplify: bool, f: Formula)
    requires n <= |order|
  {
    exists i, t :: 0 <= i < n && Contributes(l, g, order[i]) && DeselectedPC(l, show, g, t, order[i], simplify) == Ok(f)
  }

  /** A contributing node adds its two deselected presence conditions. */
  lemma CollectedContributing(l: Sat.Logic, show: seq<Formula> -> string, g: Graph, order: seq<NodeId>, i: nat, simplify: bool)
    requires i < |order| && Contributes(l, g, order[i])
    ensures forall f :: Collected(l, show, g, order, i + 1, simplify, f) <==>
      Collected(l, show, g, order, i, simplify, f) ||
      DeselectedPC(l, show, g, BEFORE, order[i], simplify) == Ok(f) ||
      DeselectedPC(l, show, g, AFTER, order[i], simplify) == Ok(f)
  {
    forall f | Collected(l, show, g, order, i + 1, simplify, f)
      ensures Collected(l, show, g, order, i, simplify, f) ||
        DeselectedPC(l, show, g, BEFORE, order[i], simplify) == Ok(f) ||
        DeselectedPC(l, show, g, AFTER, order[i], simplify) == Ok(f)
    {
      var j, t :| 0 <= j < i + 1 && Contributes(l, g, order[j]) && DeselectedPC(l, show, g, t, order[j], simplify) == Ok(f);
      if j < i {
        assert Collected(l, show, g, order, i, simplify, f);
      } else {
        assert t == BEFORE || t == AFTER;
      }
    }
    forall f | Collected(l, show, g, order, i, simplify, f)
      ensures Collected(l, show, g, order, i + 1, simplify, f)
    {
      var j, t :| 0 <= j < i && Contributes(l, g, order[j]) && DeselectedPC(l, show, g, t, order[j], simplify) == Ok(f);
      assert 0 <= j < i + 1;
    }
  }

  /** A node that does not contribute adds nothing. */
  lemma CollectedSkipped(l: Sat.Logic, show: seq<Formula> -> string, g: Graph, order: seq<NodeId>, i: nat, simplify: bool)
    requires i < |order| && !Contributes(l, g, order[i])
    ensures forall f :: Collected(l, show, g, order, i + 1, simplify, f) <==> Collected(l, show, g, order, i, simplify, f)
  {
    forall f | Collected(l, show, g, order, i + 1, simplify, f)
      ensures Collected(l, show, g, order, i, simplify, f)
    {
      var j, t :| 0 <= j < i + 1 && Contributes(l, g, order[j]) && DeselectedPC(l, show, g, t, order[j], simplify) == Ok(f);
      assert j != i;
    }
    forall f | Collected(l, show, g, order, i, simplify, f)
      ensures Collected(l, show, g, order, i + 1, simplify, f)
    {
      var j, t :| 0 <= j < i && Contributes(l, g, order[j]) && DeselectedPC(l, show, g, t, order[j], simplify) == Ok(f);
      assert 0 <= j < i + 1;
    }
  }

  /** Adding the two deselected presence conditions of a contributing node keeps the loop's invariant. */
  lemma CollectedStep(l: Sat.Logic, show: seq<Formula> -> string, g: Graph, order: seq<NodeId>, i: nat, simplify: bool,
                      pcs: seq<Formula>, before: Formula, after: Formula)
    requires i < |order| && Contributes(l, g, order[i])
    requires DeselectedPC(l, show, g, BEFORE, order[i], simplify) == Ok(before)
    requires DeselectedPC(l, show, g, AFTER, order[i], simplify) == Ok(after)
    requires forall f :: f in pcs <==> Collected(l, show, g, order, i, simplify, f)
    ensures forall f :: f in AddToSet(AddToSet(pcs, before), after) <==> Collected(l, show, g, order, i + 1, simplify, f)
  {
    CollectedContributing(l, show, g, order, i, simplify);
  }

  /**
   * The first loop of `getUniquePartialConfigs` over the nodes of the diff in
   * traversal order: it collects the deselected presence conditions of the
   * contributing artifacts at both times into an insertion-ordered set.
   */
  method CollectDeselectedPCs(l: Sat.Logic, show: seq<Formula> -> string, g: Graph, order: seq<NodeId>, simplify: bool)
    returns (r: Result<seq<Formula>>)
    requires Acyclic(g, BEFORE) && Acyclic(g, AFTER) && forall a :: a in order ==> a in g
    ensures r.Ok? ==> Distinct(r.value)
    ensures r.Ok? ==> forall f :: f in r.value ==> Sat.IsRegularCNF(f)
    ensures r.Ok? ==> forall f :: f in r.value <==> Collected(l, show, g, order, |order|, simplify, f)
    ensures r.Err? ==>
      exists i, t :: 0 <= i < |order| && Contributes(l, g, order[i]) && DeselectedPC(l, show, g, t, order[i], simplify) == Err(r.error)
  {
    var pcs: seq<Formula> := [];
    for i := 0 to |order|
      invariant Distinct(pcs) && forall f :: f in pcs ==> Sat.IsRegularCNF(f)
      invariant forall f :: f in pcs <==> Collected(l, show, g, order, i, simplify, f)
    {
      var a := order[i];
      assert a in order;
      if g[a].IsArtifact() && EditPatterns.Match(l, g, a) != Ok(EditPatterns.Untouched) {
        assert Contributes(l, g, a);
        var before := DeselectedPC(l, show, g, BEFORE, a, simplify);
        if before.Err? {
          assert Contributes(l, g, order[i]) && DeselectedPC(l, show, g, BEFORE, order[i], simplify) == Err(before.error);
          return Err(before.error);
        }
        var after := DeselectedPC(l, show, g, AFTER, a, simplify);
        if after.Err? {
          assert Contributes(l, g, order[i]) && DeselectedPC(l, show, g, AFTER, order[i], simplify) == Err(after.error);
          return Err(after.error);
        }
        CollectedStep(l, show, g, order, i, simplify, pcs, before.value, after.value);
        pcs := AddToSet(AddToSet(pcs, before.value), after.value);
      } else {
        CollectedSkipped(l, show, g, order, i, simplify);
      }
    }
    return Ok(pcs);
  }

  /**
   * The comparator that orders the collected list before the enumeration: by
   * number of clauses, then by `numberOfLiteralsInRegularCNF`.
   */
  predicate PCLeq(a: Formula, b: Formula)
  {
    |Children(a)| < |Children(b)| ||
    (|Children(a)| == |Children(b)| && ClauseLengths(a) <= ClauseLengths(b))
  }

  lemma PCLeqTotalPreorder()
    ensures TotalPreorder(PCLeq)
  {
  }

  /** The entries of `pcs` from index `i` on whose bit is set in `b`, in list order. */
  function SubsetFrom(pcs: seq<Formula>, b: nat, i: nat): seq<Formula>
    decreases |pcs| - i
  {
    if i >= |pcs| then []
    else (if Bit(b, i) == 1 then [pcs[i]] else []) + SubsetFrom(pcs, b, i + 1)
  }

  /** The subset of `pcs` that the bit vector `b` deselects. */
  function Subset(pcs: seq<Formula>, b: nat): seq<Formula>
  {
    SubsetFrom(pcs, b, 0)
  }

  /** An entry is selected exactly when some index holding it has its bit set. */
  lemma {:induction false} SubsetFromMembers(pcs: seq<Formula>, b: nat, i: nat, x: Formula)
    ensures x in SubsetFrom(pcs, b, i) <==> exists k :: i <= k < |pcs| && Bit(b, k) == 1 && pcs[k] == x
    decreases |pcs| - i
  {
    if i < |pcs| {
      SubsetFromMembers(pcs, b, i + 1, x);
      var head := if Bit(b, i) == 1 then [pcs[i]] else [];
      assert SubsetFrom(pcs, b, i) == head + SubsetFrom(pcs, b, i + 1);
      if x in head {
        assert i <= i < |pcs| && Bit(b, i) == 1 && pcs[i] == x;
      }
      if exists k :: i <= k < |pcs| && Bit(b, k) == 1 && pcs[k] == x {
        var k :| i <= k < |pcs| && Bit(b, k) == 1 && pcs[k] == x;
        if k == i {
          assert x in head;
        } else {
          assert i + 1 <= k;
        }
      }
    }
  }

  /** No bits left from `i` on select nothing. */
  lemma {:induction false} SubsetFromEmpty(pcs: seq<Formula>, b: nat, i: nat)
    requires Shr(b, i) == 0
    ensures SubsetFrom(pcs, b, i) == []
    decreases |pcs| - i
  {
    if i < |pcs| {
      SubsetFromEmpty(pcs, b, i + 1);
    }
  }

  /**
   * The inner loop of the enumeration: walks the bits of `b` from the lowest
   * up and stops once `Integer.bitCount(b)` entries are taken.
   */
  method SubsetOf(pcs: seq<Formula>, b: nat) returns (subset: seq<Formula>)
    requires b < Pow2(|pcs|)
    ensures subset == Subset(pcs, b)
    ensures |subset| == PopCount(b)
  {
    ShrBelowPow2(b, |pcs|);
    var remaining := PopCount(b);
    subset := [];
    var i := 0;
    while remaining > 0
      invariant i <= |pcs| && remaining == PopCount(Shr(b, i))
      invariant |subset| + remaining == PopCount(b)
      invariant subset + SubsetFrom(pcs, b, i) == Subset(pcs, b)
      decreases Shr(b, i)
    {
      PopCountZero(Shr(b, i));
      assert i != |pcs|;
      if Bit(b, i) == 1 {
        subset := subset + [pcs[i]];
        remaining := remaining - 1;
      }
      i := i + 1;
    }
    PopCountZero(Shr(b, i));
    SubsetFromEmpty(pcs, b, i);
  }

  /** The candidate view of the bit vector `b`: the conjunction of its subset, converted to CNF. */
  function ViewFormula(l: Sat.Logic, pcs: seq<Formula>, b: nat, simplify: bool): Formula
  {
    l.toCNF(And(Subset(pcs, b)), simplify)
  }

  /** A sound solver accepts a candidate view exactly when its subset can hold together. */
  lemma ViewSatisfiable(l: Sat.Logic, pcs: seq<Formula>, b: nat, simplify: bool)
    requires Sat.Sound(l)
    ensures Sat.IsSatisfiable(l, ViewFormula(l, pcs, b, simplify)) <==> Satisfiable(And(Subset(pcs, b)))
    ensures Formulas.Equivalent(ViewFormula(l, pcs, b, simplify), And(Subset(pcs, b)))
  {
    var v := ViewFormula(l, pcs, b, simplify);
    assert Formulas.Equivalent(v, And(Subset(pcs, b)));
    if Satisfiable(v) {
      var a :| Eval(v, a);
      assert Eval(And(Subset(pcs, b)), a);
    }
    if Satisfiable(And(Subset(pcs, b))) {
      var a :| Eval(And(Subset(pcs, b)), a);
      assert Eval(v, a);
    }
  }

  /**
   * As written, an unsatisfiable `b` is followed by `b + (1 << Integer.lowestOneBit(b)) + 1`;
   * Java takes the shift distance modulo 32. The distance is a power of two
   * below `2^30`, so its residue is 0, 1, 2, 4, 8 or 16 and the shift never
   * reaches the sign bit.
   */
  function SkipAsWritten(b: nat): nat
  {
    Pow2(LowestOneBit(b) % 32)
  }

  /**
   * The corrected skip: the `LowestOneBit(b) - 1` bit vectors after `b` all
   * keep every bit of `b`, so their subsets contain the unsatisfiable one.
   */
  function Skip(b: nat): (r: nat)
    ensures b > 0 ==> r < LowestOneBit(b)
  {
    if b == 0 then 0
    else
      LowestOneBitPositive(b);
      LowestOneBit(b) - 1
  }

  /** The powerset loop as written: from bit vector `b` up to `size`, with the as-written skip. */
  function EnumerateAsWritten(l: Sat.Logic, pcs: seq<Formula>, simplify: bool, b: nat, size: int): seq<Formula>
    decreases size - b
  {
    if b >= size then []
    else
      var v := ViewFormula(l, pcs, b, simplify);
      if Sat.IsSatisfiable(l, v) then [v] + EnumerateAsWritten(l, pcs, simplify, b + 1, size)
      else EnumerateAsWritten(l, pcs, simplify, b + SkipAsWritten(b) + 1, size)
  }

  /** The powerset loop with the corrected skip: the satisfiable candidate views from `b` up to `size`. */
  function Enumerate(l: Sat.Logic, pcs: seq<Formula>, simplify: bool, b: nat, size: nat): seq<Formula>
    decreases size - b
  {
    if b >= size then []
    else
      var v := ViewFormula(l, pcs, b, simplify);
      if Sat.IsSatisfiable(l, v) then [v] + Enumerate(l, pcs, simplify, b + 1, size)
      else Enumerate(l, pcs, simplify, b + Skip(b) + 1, size)
  }

  /** "Every config denotes a view": each enumerated formula is an accepted candidate view from `b` on. */
  lemma {:induction false} EnumerateSound(l: Sat.Logic, pcs: seq<Formula>, simplify: bool, b: nat, size: nat, v: Formula)
    requires v in Enumerate(l, pcs, simplify, b, size)
    ensures exists c: nat :: b <= c < size && v == ViewFormula(l, pcs, c, simplify) && Sat.IsSatisfiable(l, v)
    decreases size - b
  {
    var w := ViewFormula(l, pcs, b, simplify);
    if Sat.IsSatisfiable(l, w) {
      if v != w {
        EnumerateSound(l, pcs, simplify, b + 1, size, v);
      }
    } else {
      EnumerateSound(l, pcs, simplify, b + Skip(b) + 1, size, v);
    }
  }

  /** Adding less than the lowest set bit selects a superset. */
  lemma SubsetGrows(pcs: seq<Formula>, b: nat, k: nat)
    requires k < LowestOneBit(b)
    ensures forall x :: x in Subset(pcs, b) ==> x in Subset(pcs, b + k)
  {
    forall x | x in Subset(pcs, b) ensures x in Subset(pcs, b + k) {
      SubsetFromMembers(pcs, b, 0, x);
      var i :| 0 <= i < |pcs| && Bit(b, i) == 1 && pcs[i] == x;
      AddBelowLowestKeepsBits(b, k, i);
      SubsetFromMembers(pcs, b + k, 0, x);
    }
  }

  /** A model of a conjunction is a model of the conjunction of fewer members. */
  lemma SatisfiableSubconjunction(xs: seq<Formula>, ys: seq<Formula>)
    requires forall x :: x in xs ==> x in ys
    requires Satisfiable(And(ys))
    ensures Satisfiable(And(xs))
  {
    var a :| Eval(And(ys), a);
    EvalMembers(ys, a);
    EvalMembers(xs, a);
  }

  /** The candidates the corrected skip passes over after an unsatisfiable `b` are unsatisfiable. */
  lemma SkippedUnsatisfiable(l: Sat.Logic, pcs: seq<Formula>, simplify: bool, b: nat, c: nat)
    requires Sat.Sound(l) && !Sat.IsSatisfiable(l, ViewFormula(l, pcs, b, simplify))
    requires b <= c <= b + Skip(b)
    ensures !Satisfiable(And(Subset(pcs, c)))
  {
    ViewSatisfiable(l, pcs, b, simplify);
    if Satisfiable(And(Subset(pcs, c))) {
      if b > 0 {
        SubsetGrows(pcs, b, c - b);
      }
      SatisfiableSubconjunction(Subset(pcs, b), Subset(pcs, c));
    }
  }

  /**
   * An accepted candidate `c` from `b` on is enumerated when no rejected
   * candidate between `b` and `c` makes the loop skip over `c`.
   */
  lemma {:induction false} EnumerateReaches(l: Sat.Logic, pcs: seq<Formula>, simplify: bool, b: nat, size: nat, c: nat)
    requires b <= c < size && Sat.IsSatisfiable(l, ViewFormula(l, pcs, c, simplify))
    requires forall k :: b <= k < c && !Sat.IsSatisfiable(l, ViewFormula(l, pcs, k, simplify)) ==> k + Skip(k) < c
    ensures ViewFormula(l, pcs, c, simplify) in Enumerate(l, pcs, simplify, b, size)
    decreases size - b
  {
    var v := ViewFormula(l, pcs, b, simplify);
    var w := ViewFormula(l, pcs, c, simplify);
    if Sat.IsSatisfiable(l, v) {
      var rest := Enumerate(l, pcs, simplify, b + 1, size);
      assert Enumerate(l, pcs, simplify, b, size) == [v] + rest;
      if b < c {
        EnumerateReaches(l, pcs, simplify, b + 1, size, c);
        assert w in rest;
      } else {
        assert w == v;
      }
    } else {
      assert Enumerate(l, pcs, simplify, b, size) == Enumerate(l, pcs, simplify, b + Skip(b) + 1, size);
      EnumerateReaches(l, pcs, simplify, b + Skip(b) + 1, size, c);
    }
  }

  /** "Every possible view is included": each satisfiable candidate from `b` on is enumerated. */
  lemma EnumerateComplete(l: Sat.Logic, pcs: seq<Formula>, simplify: bool, b: nat, size: nat, c: nat)
    requires Sat.Sound(l) && b <= c < size && Satisfiable(And(Subset(pcs, c)))
    ensures ViewFormula(l, pcs, c, simplify) in Enumerate(l, pcs, simplify, b, size)
  {
    ViewSatisfiable(l, pcs, c, simplify);
    forall k | b <= k < c && !Sat.IsSatisfiable(l, ViewFormula(l, pcs, k, simplify)) ensures k + Skip(k) < c {
      if c <= k + Skip(k) {
        SkippedUnsatisfiable(l, pcs, simplify, k, c);
        assert false;
      }
    }
    EnumerateReaches(l, pcs, simplify, b, size, c);
  }

  /** The bit vector selecting the entries of `pcs` from `i` on that occur in `s`; bit 0 stands for entry `i`. */
  function MaskFrom(pcs: seq<Formula>, s: seq<Formula>, i: nat): nat
    decreases |pcs| - i
  {
    if i >= |pcs| then 0 else (if pcs[i] in s then 1 else 0) + 2 * MaskFrom(pcs, s, i + 1)
  }

  lemma {:induction false} MaskFromBits(pcs: seq<Formula>, s: seq<Formula>, i: nat, k: nat)
    requires i + k < |pcs|
    ensures Bit(MaskFrom(pcs, s, i), k) == if pcs[i + k] in s then 1 else 0
    decreases k
  {
    if k > 0 {
      MaskFromBits(pcs, s, i + 1, k - 1);
      ShrHalf(MaskFrom(pcs, s, i), k - 1);
    }
  }

  lemma {:induction false} MaskFromBound(pcs: seq<Formula>, s: seq<Formula>, i: nat)
    requires i <= |pcs|
    ensures MaskFrom(pcs, s, i) < Pow2(|pcs| - i)
    decreases |pcs| - i
  {
    if i < |pcs| {
      MaskFromBound(pcs, s, i + 1);
    }
  }

  /** Every list of entries of `pcs` is, up to order and repetition, the subset of some bit vector. */
  lemma SubsetOfMask(pcs: seq<Formula>, s: seq<Formula>)
    requires forall x :: x in s ==> x in pcs
    ensures MaskFrom(pcs, s, 0) < Pow2(|pcs|)
    ensures forall x :: x in Subset(pcs, MaskFrom(pcs, s, 0)) <==> x in s
  {
    var b := MaskFrom(pcs, s, 0);
    MaskFromBound(pcs, s, 0);
    forall x ensures x in Subset(pcs, b) <==> x in s {
      SubsetFromMembers(pcs, b, 0, x);
      if x in s {
        var k :| 0 <= k < |pcs| && pcs[k] == x;
        MaskFromBits(pcs, s, 0, k);
      }
      if x in Subset(pcs, b) {
        var k :| 0 <= k < |pcs| && Bit(b, k) == 1 && pcs[k] == x;
        MaskFromBits(pcs, s, 0, k);
      }
    }
  }

  /** Conjunctions of the same members have the same models. */
  lemma SameMembersEquivalent(xs: seq<Formula>, ys: seq<Formula>)
    requires forall x :: x in xs <==> x in ys
    ensures Formulas.Equivalent(And(xs), And(ys))
  {
    forall a: Assignment ensures Eval(And(xs), a) == Eval(And(ys), a) {
      EvalMembers(xs, a);
      EvalMembers(ys, a);
    }
  }

  /** One round of the powerset loop keeps its invariant: an accepted candidate is appended, a rejected one skips ahead. */
  lemma EnumerateStep(l: Sat.Logic, pcs: seq<Formula>, simplify: bool, size: nat, all: seq<Formula>,
                      b: nat, done: seq<Formula>, b': nat, done': seq<Formula>)
    requires b < size && done + Enumerate(l, pcs, simplify, b, size) == all
    requires var v := ViewFormula(l, pcs, b, simplify);
      if Sat.IsSatisfiable(l, v) then done' == done + [v] && b' == b + 1
      else done' == done && b' == b + Skip(b) + 1
    ensures done' + Enumerate(l, pcs, simplify, b', size) == all
  {
    var v := ViewFormula(l, pcs, b, simplify);
    if Sat.IsSatisfiable(l, v) {
      assert Enumerate(l, pcs, simplify, b, size) == [v] + Enumerate(l, pcs, simplify, b + 1, size);
    }
  }

  /** The candidate view of one bit vector: its subset, built by the inner loop, conjoined and converted to CNF. */
  method CandidateView(l: Sat.Logic, pcs: seq<Formula>, b: nat, simplify: bool) returns (view: Formula)
    requires b < Pow2(|pcs|)
    ensures view == ViewFormula(l, pcs, b, simplify)
  {
    var subset := SubsetOf(pcs, b);
    view := l.toCNF(And(subset), simplify);
  }

  /**
   * The powerset loop with the corrected skip over all `2^|pcs|` bit vectors:
   * the satisfiable candidate views in ascending bit-vector order.
   */
  method EnumerateViews(l: Sat.Logic, pcs: seq<Formula>, simplify: bool) returns (configs: seq<Formula>)
    ensures configs == Enumerate(l, pcs, simplify, 0, Pow2(|pcs|))
  {
    var size := Pow2(|pcs|);
    configs := [];
    var b := 0;
    while b < size
      invariant configs + Enumerate(l, pcs, simplify, b, size) == Enumerate(l, pcs, simplify, 0, size)
      decreases size - b
    {
      var view := CandidateView(l, pcs, b, simplify);
      ghost var b0, done0 := b, configs;
      if Sat.IsSatisfiable(l, view) {
        configs := configs + [view];
        b := b + 1;
      } else {
        b := b + Skip(b) + 1;
      }
      EnumerateStep(l, pcs, simplify, size, Enumerate(l, pcs, simplify, 0, size), b0, done0, b, configs);
    }
  }

  /**
   * The size check and the powerset loop as written: 32 or more entries fail
   * the assertion; for 31 entries `1 << 31` wraps to a negative `int`, which
   * `new ArrayList<>(powsetSize)` rejects.
   */
  function ViewsAsWritten(l: Sat.Logic, pcs: seq<Formula>, simplify: bool): Result<seq<Formula>>
  {
    if |pcs| >= 32 then Err(AssertionFailure)
    else
      var size := NodeIds.Wrap32(Pow2(|pcs|));
      if size < 0 then Err(IllegalArgument)
      else Ok(EnumerateAsWritten(l, pcs, simplify, 0, size))
  }

  /** Deselecting `true` gives the unsatisfiable clause set; the second entry is satisfiable on its own. */
  const SkipExample: seq<Formula> := [And([Or([])]), And([Or([Lit("x", true)])])]

  /**
   * The as-written skip loses a view: bit vector 1 is unsatisfiable, so the
   * loop jumps from 1 to 4 and never tries bit vector 2, whose subset does
   * not contain the unsatisfiable entry. The corrected loop enumerates it.
   */
  lemma SkipLosesView(l: Sat.Logic, simplify: bool)
    requires Sat.Sound(l)
    ensures Satisfiable(And(Subset(SkipExample, 2)))
    ensures ViewFormula(l, SkipExample, 2, simplify) != ViewFormula(l, SkipExample, 0, simplify)
    ensures ViewsAsWritten(l, SkipExample, simplify) == Ok([ViewFormula(l, SkipExample, 0, simplify)])
    ensures ViewFormula(l, SkipExample, 2, simplify) in Enumerate(l, SkipExample, simplify, 0, 4)
  {
    SkipExampleAsWritten(l, simplify);
    SkipExampleViewsDiffer(l, simplify);
    EnumerateComplete(l, SkipExample, simplify, 0, 4, 2);
  }

  /** The views of bit vectors 0 and 2 over the example have different models. */
  lemma SkipExampleViewsDiffer(l: Sat.Logic, simplify: bool)
    requires Sat.Sound(l)
    ensures Satisfiable(And(Subset(SkipExample, 2)))
    ensures ViewFormula(l, SkipExample, 2, simplify) != ViewFormula(l, SkipExample, 0, simplify)
  {
    SkipExampleSubsets();
    SkipExampleModels();
    ViewSatisfiable(l, SkipExample, 0, simplify);
    ViewSatisfiable(l, SkipExample, 2, simplify);
    assert Eval(ViewFormula(l, SkipExample, 0, simplify), AllFalse()) != Eval(ViewFormula(l, SkipExample, 2, simplify), AllFalse());
  }

  /** The as-written loop over the example accepts bit vector 0, rejects 1 and then stops. */
  lemma SkipExampleAsWritten(l: Sat.Logic, simplify: bool)
    requires Sat.Sound(l)
    ensures ViewsAsWritten(l, SkipExample, simplify) == Ok([ViewFormula(l, SkipExample, 0, simplify)])
  {
    SkipExampleAccepts(l, simplify);
    SkipExampleLoop(l, simplify);
    assert NodeIds.Wrap32(Pow2(2)) == 4;
  }

  /** A sound solver accepts the view of bit vector 0 of the example and rejects that of bit vector 1. */
  lemma SkipExampleAccepts(l: Sat.Logic, simplify: bool)
    requires Sat.Sound(l)
    ensures Sat.IsSatisfiable(l, ViewFormula(l, SkipExample, 0, simplify))
    ensures !Sat.IsSatisfiable(l, ViewFormula(l, SkipExample, 1, simplify))
  {
    SkipExampleSubsets();
    SkipExampleModels();
    ViewSatisfiable(l, SkipExample, 0, simplify);
    ViewSatisfiable(l, SkipExample, 1, simplify);
  }

  /** Whenever bit vector 0 is accepted and 1 rejected, the as-written loop over four bit vectors keeps only the first. */
  lemma SkipExampleLoop(l: Sat.Logic, simplify: bool)
    requires Sat.IsSatisfiable(l, ViewFormula(l, SkipExample, 0, simplify))
    requires !Sat.IsSatisfiable(l, ViewFormula(l, SkipExample, 1, simplify))
    ensures EnumerateAsWritten(l, SkipExample, simplify, 0, 4) == [ViewFormula(l, SkipExample, 0, simplify)]
  {
    assert SkipAsWritten(1) == 2;
    assert EnumerateAsWritten(l, SkipExample, simplify, 4, 4) == [];
    assert EnumerateAsWritten(l, SkipExample, simplify, 1, 4) == [];
  }

  /** The subsets of the first three bit vectors over the example. */
  lemma SkipExampleSubsets()
    ensures Subset(SkipExample, 0) == []
    ensures Subset(SkipExample, 1) == [SkipExample[0]]
    ensures Subset(SkipExample, 2) == [SkipExample[1]]
  {
    var pcs := SkipExample;
    assert Bit(1, 1) == 0 && Bit(2, 0) == 0 && Bit(2, 1) == 1;
    assert SubsetFrom(pcs, 0, 1) == [] && SubsetFrom(pcs, 1, 1) == [] && SubsetFrom(pcs, 2, 1) == [pcs[1]];
  }

  /** The example's first entry has no model; its second holds when `x` does. */
  lemma SkipExampleModels()
    ensures Eval(And([]), AllTrue())
    ensures !Satisfiable(And([SkipExample[0]]))
    ensures Eval(And([SkipExample[1]]), AllTrue())
    ensures !Eval(And([SkipExample[1]]), AllFalse())
  {
    var pcs := SkipExample;
    var lit := Lit("x", true);
    assert pcs[1] == And([Or([lit])]);
    assert Eval(lit, AllTrue()) && !Eval(lit, AllFalse());
    assert [Or([lit])][0] == Or([lit]) && [lit][0] == lit;
    assert Eval(Or([lit]), AllTrue());
    assert !Eval(Or([lit]), AllFalse());
    assert !Eval(pcs[1], AllFalse());
    assert [pcs[1]][0] == pcs[1];
    forall a: Assignment ensures !Eval(And([pcs[0]]), a) {
      assert !Eval(pcs[0].children[0], a);
    }
  }

  /**
   * Thirty-one entries pass the size assertion but make the as-written loop
   * throw, while the corrected enumeration over `2^31` bit vectors still
   * contains the view of the empty subset.
   */
  lemma PowersetSizeOverflows(l: Sat.Logic, pcs: seq<Formula>, simplify: bool)
    requires |pcs| == 31
    ensures ViewsAsWritten(l, pcs, simplify) == Err(IllegalArgument)
    ensures Sat.Sound(l) ==> ViewFormula(l, pcs, 0, simplify) in Enumerate(l, pcs, simplify, 0, Pow2(|pcs|))
  {
    Pow2ThirtyOne();
    assert NodeIds.Wrap32(Pow2(31)) == -0x8000_0000;
    if Sat.Sound(l) {
      SubsetFromEmpty(pcs, 0, 0);
      assert Eval(And([]), AllTrue());
      EnumerateComplete(l, pcs, simplify, 0, Pow2(|pcs|), 0);
    }
  }

  /**
   * The inner loop of the duplicate removal: the first entry after `i` and
   * below `len` that the solver finds equivalent to entry `i`.
   */
  method FindLaterEquivalent(l: Sat.Logic, cs: seq<Formula>, i: nat, len: nat) returns (found: bool, j: nat)
    requires i < len <= |cs|
    ensures found <==> exists k :: i < k < len && Sat.Equivalent(l, cs[k], cs[i])
    ensures found ==> i < j < len && Sat.Equivalent(l, cs[j], cs[i])
  {
    j := i + 1;
    while j < len
      invariant i < j <= len
      invariant forall k :: i < k < j ==> !Sat.Equivalent(l, cs[k], cs[i])
    {
      if Sat.Equivalent(l, cs[j], cs[i]) {
        return true, j;
      }
      j := j + 1;
    }
    return false, j;
  }

  /** Each entry dropped behind `len` has an equivalent entry before `len`. */
  ghost predicate Covered(cs: seq<Formula>, len: nat)
    requires len <= |cs|
  {
    forall q :: len <= q < |cs| ==> exists k :: 0 <= k < len && Formulas.Equivalent(cs[k], cs[q])
  }

  /** `Collections.swap(cs, i, j)`. */
  function Swap(cs: seq<Formula>, i: nat, j: nat): (r: seq<Formula>)
    requires i < |cs| && j < |cs|
    ensures |r| == |cs| && r[i] == cs[j] && r[j] == cs[i]
    ensures forall k :: 0 <= k < |cs| && k != i && k != j ==> r[k] == cs[k]
    ensures multiset(r) == multiset(cs)
  {
    cs[i := cs[j]][j := cs[i]]
  }

  /** Dropping an entry that has a later equivalent keeps every dropped entry covered. */
  lemma DropKeepsCovered(l: Sat.Logic, cs: seq<Formula>, i: nat, j: nat, len: nat)
    requires Sat.Sound(l) && i < j < len <= |cs| && Covered(cs, len)
    requires Sat.Equivalent(l, cs[j], cs[i])
    ensures Covered(Swap(cs, i, len - 1), len - 1)
  {
    var r := Swap(cs, i, len - 1);
    var jj := if j == len - 1 then i else j;
    assert r[jj] == cs[j] && jj < len - 1;
    forall q | len - 1 <= q < |r| ensures exists k :: 0 <= k < len - 1 && Formulas.Equivalent(r[k], r[q]) {
      if q == len - 1 {
        assert Formulas.Equivalent(r[jj], r[q]);
      } else {
        var k :| 0 <= k < len && Formulas.Equivalent(cs[k], cs[q]);
        assert r[q] == cs[q];
        if k == i {
          assert Formulas.Equivalent(r[jj], r[q]);
        } else if k == len - 1 {
          assert Formulas.Equivalent(r[i], r[q]);
        } else {
          assert Formulas.Equivalent(r[k], r[q]);
        }
      }
    }
  }

  /**
   * The semantic duplicate removal of `getUniquePartialConfigs`: an entry
   * with an equivalent later entry is swapped to the end of the live part,
   * which then shrinks, and the same position is examined again.
   */
  method RemoveDuplicates(l: Sat.Logic, configs: seq<Formula>) returns (r: seq<Formula>)
    ensures multiset(r) <= multiset(configs)
    ensures forall p, q :: 0 <= p < q < |r| ==> !Sat.Equivalent(l, r[q], r[p])
    ensures Sat.Sound(l) ==> forall x :: x in configs ==> exists y :: y in r && Formulas.Equivalent(y, x)
  {
    var cs := configs;
    var len := |cs|;
    var i := 0;
    while i < len
      invariant i <= len <= |cs| && multiset(cs) == multiset(configs)
      invariant forall p, q :: 0 <= p < i && p < q < len ==> !Sat.Equivalent(l, cs[q], cs[p])
      invariant Sat.Sound(l) ==> Covered(cs, len)
      decreases len - i
    {
      var found, j := FindLaterEquivalent(l, cs, i, len);
      if found {
        if Sat.Sound(l) {
          DropKeepsCovered(l, cs, i, j, len);
        }
        DropKeepsDistinct(l, cs, i, len);
        cs := Swap(cs, i, len - 1);
        len := len - 1;
      } else {
        i := i + 1;
      }
    }
    r := cs[..len];
    assert cs == r + cs[len..];
    if Sat.Sound(l) {
      CoveredByPrefix(cs, len, configs);
    }
  }

  /** Swapping entry `i` to the end of the live part keeps the entries before `i` free of later equivalents. */
  lemma DropKeepsDistinct(l: Sat.Logic, cs: seq<Formula>, i: nat, len: nat)
    requires i < len <= |cs|
    requires forall p, q :: 0 <= p < i && p < q < len ==> !Sat.Equivalent(l, cs[q], cs[p])
    ensures var r := Swap(cs, i, len - 1);
      forall p, q :: 0 <= p < i && p < q < len - 1 ==> !Sat.Equivalent(l, r[q], r[p])
  {
    var r := Swap(cs, i, len - 1);
    forall p, q | 0 <= p < i && p < q < len - 1 ensures !Sat.Equivalent(l, r[q], r[p]) {
      assert r[p] == cs[p];
      if q == i {
        assert r[q] == cs[len - 1];
      } else {
        assert r[q] == cs[q];
      }
    }
  }

  /** When every entry behind `len` is covered, every entry of a permutation of `cs` has an equivalent before `len`. */
  lemma CoveredByPrefix(cs: seq<Formula>, len: nat, configs: seq<Formula>)
    requires len <= |cs| && multiset(cs) == multiset(configs) && Covered(cs, len)
    ensures forall x :: x in configs ==> exists y :: y in cs[..len] && Formulas.Equivalent(y, x)
  {
    var r := cs[..len];
    forall x | x in configs ensures exists y :: y in r && Formulas.Equivalent(y, x) {
      assert x in multiset(cs);
      var q :| 0 <= q < |cs| && cs[q] == x;
      if q < len {
        assert r[q] == x && Formulas.Equivalent(x, x);
      } else {
        var k :| 0 <= k < len && Formulas.Equivalent(cs[k], cs[q]);
        assert r[k] == cs[k];
      }
    }
  }

  /** Every kept view is satisfiable and has the models of a conjunction of entries of `pcs`. */
  lemma UniqueViewsSound(l: Sat.Logic, pcs: seq<Formula>, simplify: bool, unique: seq<Formula>)
    requires Sat.Sound(l)
    requires multiset(unique) <= multiset(Enumerate(l, pcs, simplify, 0, Pow2(|pcs|)))
    ensures forall v :: v in unique ==>
      Satisfiable(v) && exists s :: Formulas.Equivalent(v, And(s)) && forall f :: f in s ==> f in pcs
  {
    forall v | v in unique
      ensures Satisfiable(v) && exists s :: Formulas.Equivalent(v, And(s)) && forall f :: f in s ==> f in pcs
    {
      assert v in multiset(unique);
      EnumerateSound(l, pcs, simplify, 0, Pow2(|pcs|), v);
      var c: nat :| c < Pow2(|pcs|) && v == ViewFormula(l, pcs, c, simplify) && Sat.IsSatisfiable(l, v);
      ViewSatisfiable(l, pcs, c, simplify);
      forall f | f in Subset(pcs, c) ensures f in pcs {
        SubsetFromMembers(pcs, c, 0, f);
      }
    }
  }

  /** Every satisfiable conjunction of entries of `pcs` has the models of a kept view. */
  lemma UniqueViewsComplete(l: Sat.Logic, pcs: seq<Formula>, simplify: bool, unique: seq<Formula>, s: seq<Formula>)
    requires Sat.Sound(l)
    requires forall x :: x in Enumerate(l, pcs, simplify, 0, Pow2(|pcs|)) ==>
      exists y :: y in unique && Formulas.Equivalent(y, x)
    requires (forall f :: f in s ==> f in pcs) && Satisfiable(And(s))
    ensures exists v :: v in unique && Formulas.Equivalent(v, And(s))
  {
    SubsetOfMask(pcs, s);
    var b := MaskFrom(pcs, s, 0);
    SameMembersEquivalent(Subset(pcs, b), s);
    var a :| Eval(And(s), a);
    assert Eval(And(Subset(pcs, b)), a);
    EnumerateComplete(l, pcs, simplify, 0, Pow2(|pcs|), b);
    var x := ViewFormula(l, pcs, b, simplify);
    ViewSatisfiable(l, pcs, b, simplify);
    var y :| y in unique && Formulas.Equivalent(y, x);
    assert Formulas.Equivalent(y, And(s));
  }

  /**
   * `getUniquePartialConfigs(d, simplify)` over the nodes of `g` in the
   * traversal order `order`, with the corrected skip and powerset size: the
   * deselected presence conditions are collected, checked to be fewer than
   * 32, sorted, every subset is tried as a view, and semantic duplicates are
   * removed.
   */
  method GetUniquePartialConfigs(l: Sat.Logic, show: seq<Formula> -> string, g: Graph, order: seq<NodeId>, simplify: bool)
    returns (r: Result<seq<Formula>>)
    requires Acyclic(g, BEFORE) && Acyclic(g, AFTER) && forall a :: a in order ==> a in g
    ensures r.Err? ==>
      (exists i, t :: 0 <= i < |order| && Contributes(l, g, order[i]) &&
        DeselectedPC(l, show, g, t, order[i], simplify) == Err(r.error)) ||
      (r.error == AssertionFailure &&
        exists s :: |s| >= 32 && Distinct(s) && forall f :: f in s ==> Collected(l, show, g, order, |order|, simplify, f))
    ensures r.Ok? ==> forall p, q :: 0 <= p < q < |r.value| ==> !Sat.Equivalent(l, r.value[q], r.value[p])
    ensures r.Ok? && Sat.Sound(l) ==> forall v :: v in r.value ==>
      Satisfiable(v) &&
      exists s :: Formulas.Equivalent(v, And(s)) && forall f :: f in s ==> Collected(l, show, g, order, |order|, simplify, f)
    ensures r.Ok? && Sat.Sound(l) ==> forall s ::
      (forall f :: f in s ==> Collected(l, show, g, order, |order|, simplify, f)) && Satisfiable(And(s)) ==>
      exists v :: v in r.value && Formulas.Equivalent(v, And(s))
  {
    var collected := CollectDeselectedPCs(l, show, g, order, simplify);
    if collected.Err? {
      return Err(collected.error);
    }
    var pcs := collected.value;
    if |pcs| >= 32 {
      return Err(AssertionFailure);
    }
    PCLeqTotalPreorder();
    var sorted := SortBy(pcs, PCLeq);
    assert forall f :: f in sorted <==> f in pcs by {
      forall f ensures f in sorted <==> f in pcs {
        assert f in sorted <==> f in multiset(sorted);
      }
    }
    var configs := EnumerateViews(l, sorted, simplify);
    var unique := RemoveDuplicates(l, configs);
    if Sat.Sound(l) {
      UniqueViewsSound(l, sorted, simplify, unique);
      forall s | (forall f :: f in s ==> Collected(l, show, g, order, |order|, simplify, f)) && Satisfiable(And(s))
        ensures exists v :: v in unique && Formulas.Equivalent(v, And(s))
      {
        UniqueViewsComplete(l, sorted, simplify, unique, s);
      }
    }
    return Ok(unique);
  }
}
