/**
 * The recursive queries of a diff node along its parent chain at one time:
 * depths, the governing IF node, the amount of change and path equality.
 * An absent parent where one is dereferenced is Java's NullPointerException.
 */
module DiffQueries {
  import opened Wrappers
  import opened DiffTypes
  import opened DiffGraph

  /** No node of the sequence is an IF node. */
  ghost predicate NoIf(g: Graph, s: seq<NodeId>)
    requires forall i :: 0 <= i < |s| ==> s[i] in g
  {
    forall i :: 0 <= i < |s| ==> !g[s[i]].IsIf()
  }

  /** The number of IF nodes in the sequence. */
  ghost function CountIfs(g: Graph, s: seq<NodeId>): nat
    requires forall i :: 0 <= i < |s| ==> s[i] in g
    ensures CountIfs(g, s) <= |s|
  {
    if |s| == 0 then 0 else (if g[s[0]].IsIf() then 1 else 0) + CountIfs(g, s[1..])
  }

  /**
   * `getIfNode(t)`: the first IF node on the chain upwards from `n`,
   * none if the chain reaches a root first.
   */
  function IfNode(g: Graph, t: Time, n: NodeId): (r: Result<Option<NodeId>>)
    requires Acyclic(g, t) && n in g
    ensures r.Ok? && r.value.Some? ==>
      var m := r.value.value;
      m in g && g[m].IsIf() && Height(g, t, m) <= Height(g, t, n) &&
      Path(g, t, n)[Height(g, t, n) - Height(g, t, m)] == m &&
      NoIf(g, Path(g, t, n)[..Height(g, t, n) - Height(g, t, m)])
    ensures r == Ok(None) ==> NoIf(g, Path(g, t, n)) && g[Top(g, t, n)].IsRoot()
    ensures r.Err? ==> NoIf(g, Path(g, t, n)) && !g[Top(g, t, n)].IsRoot() && r.error == NullPointer
    decreases Height(g, t, n)
  {
    if g[n].IsIf() then
      assert Path(g, t, n)[..0] == [];
      Ok(Some(n))
    else if g[n].IsRoot() then Ok(None)
    else match g[n].Parent(t)
      case None => Err(NullPointer)
      case Some(p) =>
        ParentHeight(g, t, n);
        var r := IfNode(g, t, p);
        IfNodeStep(g, t, n, p, r);
        r
  }

  /** One step of `IfNode`: the answer for the parent is the answer for a non-IF child. */
  lemma IfNodeStep(g: Graph, t: Time, n: NodeId, p: NodeId, r: Result<Option<NodeId>>)
    requires Acyclic(g, t) && n in g && !g[n].IsIf() && g[n].Parent(t) == Some(p)
    requires p in g && Height(g, t, p) + 1 == Height(g, t, n)
    requires r.Ok? && r.value.Some? ==>
      var m := r.value.value;
      m in g && g[m].IsIf() && Height(g, t, m) <= Height(g, t, p) &&
      Path(g, t, p)[Height(g, t, p) - Height(g, t, m)] == m &&
      NoIf(g, Path(g, t, p)[..Height(g, t, p) - Height(g, t, m)])
    requires r == Ok(None) ==> NoIf(g, Path(g, t, p)) && g[Top(g, t, p)].IsRoot()
    requires r.Err? ==> NoIf(g, Path(g, t, p)) && !g[Top(g, t, p)].IsRoot()
    ensures r.Ok? && r.value.Some? ==>
      var m := r.value.value;
      m in g && Height(g, t, m) <= Height(g, t, n) &&
      Path(g, t, n)[Height(g, t, n) - Height(g, t, m)] == m &&
      NoIf(g, Path(g, t, n)[..Height(g, t, n) - Height(g, t, m)])
    ensures r == Ok(None) ==> NoIf(g, Path(g, t, n)) && g[Top(g, t, n)].IsRoot()
    ensures r.Err? ==> NoIf(g, Path(g, t, n)) && !g[Top(g, t, n)].IsRoot()
  {
    var P := Path(g, t, n);
    assert P == [n] + Path(g, t, p);
    TopOfParent(g, t, n);
    if r.Ok? && r.value.Some? {
      var m := r.value.value;
      var i := Height(g, t, p) - Height(g, t, m);
      assert P[..i + 1] == [n] + Path(g, t, p)[..i];
    }
  }

  /** `getDepth(t)`: the length of the chain to the root. */
  function Depth(g: Graph, t: Time, n: NodeId): (r: Result<nat>)
    requires Acyclic(g, t) && n in g
    ensures r.Ok? <==> g[Top(g, t, n)].IsRoot()
    ensures r.Ok? ==> r.value == Height(g, t, n)
    ensures r.Err? ==> r.error == NullPointer
    decreases Height(g, t, n)
  {
    if g[n].IsRoot() then Ok(0)
    else match g[n].Parent(t)
      case None => Err(NullPointer)
      case Some(p) =>
        ParentHeight(g, t, n);
        TopOfParent(g, t, n);
        var d := Depth(g, t, p);
        if d.Err? then d else Ok(d.value + 1)
  }

  /** `getAnnotationDepth(t)`: the number of IF nodes above the root on the chain. */
  function AnnotationDepth(g: Graph, t: Time, n: NodeId): (r: Result<nat>)
    requires Acyclic(g, t) && n in g
    ensures r.Ok? <==> g[Top(g, t, n)].IsRoot()
    ensures r.Ok? ==> r.value == CountIfs(g, Path(g, t, n)[..|Path(g, t, n)| - 1])
    ensures r.Err? ==> r.error == NullPointer
    decreases Height(g, t, n)
  {
    if g[n].IsRoot() then Ok(0)
    else match g[n].Parent(t)
      case None => Err(NullPointer)
      case Some(p) =>
        ParentHeight(g, t, n);
        TopOfParent(g, t, n);
        var d := AnnotationDepth(g, t, p);
        var P := Path(g, t, n);
        assert P == [n] + Path(g, t, p);
        assert P[..|P| - 1][1..] == Path(g, t, p)[..|Path(g, t, p)| - 1];
        if d.Err? then d
        else if g[n].IsIf() then Ok(d.value + 1)
        else Ok(d.value)
  }

  /** There are never more annotations on the way to the root than steps. */
  lemma AnnotationDepthAtMostDepth(g: Graph, t: Time, n: NodeId)
    requires Acyclic(g, t) && n in g
    ensures AnnotationDepth(g, t, n).Ok? <==> Depth(g, t, n).Ok?
    ensures AnnotationDepth(g, t, n).Ok? ==> AnnotationDepth(g, t, n).value <= Depth(g, t, n).value
  {
  }

  /**
   * `beforePathEqualsAfterPath`: true iff the chain of parents before the edit
   * is the very same chain as after the edit.
   */
  function BeforePathEqualsAfterPath(g: Graph, n: NodeId): (r: bool)
    requires Acyclic(g, BEFORE) && Acyclic(g, AFTER) && n in g
    ensures r <==> Path(g, BEFORE, n) == Path(g, AFTER, n)
    decreases Height(g, BEFORE, n)
  {
    var b := g[n].Parent(BEFORE);
    var a := g[n].Parent(AFTER);
    if b == a then
      if b.None? then true
      else
        ParentHeight(g, BEFORE, n);
        ParentHeight(g, AFTER, n);
        assert Path(g, BEFORE, n) == [n] + Path(g, BEFORE, b.value);
        assert Path(g, AFTER, n) == [n] + Path(g, AFTER, b.value);
        var r := BeforePathEqualsAfterPath(g, b.value);
        assert r <==> Path(g, BEFORE, n) == Path(g, AFTER, n) by {
          if Path(g, BEFORE, n) == Path(g, AFTER, n) {
            assert Path(g, BEFORE, n)[1..] == Path(g, AFTER, n)[1..];
          }
        }
        r
    else
      assert Path(g, BEFORE, n) != Path(g, AFTER, n) by {
        if b.None? {
          assert |Path(g, BEFORE, n)| == 1 < |Path(g, AFTER, n)|;
        } else if a.None? {
          assert |Path(g, AFTER, n)| == 1 < |Path(g, BEFORE, n)|;
        } else {
          assert Path(g, BEFORE, n)[1] == b.value && Path(g, AFTER, n)[1] == a.value;
        }
      }
      false
  }

  /** A node whose two parents differ never has equal paths, whatever lies above. */
  lemma DifferentParentsDifferentPaths(g: Graph, n: NodeId)
    requires Acyclic(g, BEFORE) && Acyclic(g, AFTER) && n in g
    requires g[n].Parent(BEFORE) != g[n].Parent(AFTER)
    ensures !BeforePathEqualsAfterPath(g, n)
  {
  }

  /** An annotation that exists only at time `t`: it is a change visible at `t` alone. */
  ghost predicate ChangedAnnotation(g: Graph, t: Time, n: NodeId)
    requires n in g
  {
    g[n].nodeType in {IF, ELIF, ELSE} && g[n].diffType == ThatExistsOnlyAt(t)
  }

  /** The number of changed annotations in the sequence. */
  ghost function CountChanged(g: Graph, t: Time, s: seq<NodeId>): nat
    requires forall i :: 0 <= i < |s| ==> s[i] in g
  {
    if |s| == 0 then 0 else (if ChangedAnnotation(g, t, s[0]) then 1 else 0) + CountChanged(g, t, s[1..])
  }

  lemma {:induction false} CountChangedSuffix(g: Graph, t: Time, s: seq<NodeId>, i: nat)
    requires forall k :: 0 <= k < |s| ==> s[k] in g
    requires i <= |s|
    ensures CountChanged(g, t, s[i..]) <= CountChanged(g, t, s)
    decreases i
  {
    if i > 0 {
      CountChangedSuffix(g, t, s[1..], i - 1);
      assert s[1..][i - 1..] == s[i..];
    }
  }

  /** Above the IF node found from `p` there are no more changed annotations than above `p`. */
  lemma AboveGoverningIf(g: Graph, t: Time, p: NodeId, m: NodeId, q: NodeId)
    requires Acyclic(g, t) && p in g
    requires IfNode(g, t, p) == Ok(Some(m)) && m in g && g[m].Parent(t) == Some(q) && q in g
    ensures CountChanged(g, t, Path(g, t, q)) <= CountChanged(g, t, Path(g, t, p))
  {
    var P := Path(g, t, p);
    var k := Height(g, t, p) - Height(g, t, m);
    assert 0 <= k < |P| && P[k] == m;
    ChainAbove(g, t, p, k, q);
    CountChangedSuffix(g, t, P, k + 1);
  }

  /** The chain above the `k`-th node of a chain is the rest of that chain. */
  lemma ChainAbove(g: Graph, t: Time, p: NodeId, k: nat, q: NodeId)
    requires Acyclic(g, t) && p in g && k < |Path(g, t, p)|
    requires g[Path(g, t, p)[k]].Parent(t) == Some(q) && q in g
    ensures k + 1 < |Path(g, t, p)| && Path(g, t, q) == Path(g, t, p)[k + 1..]
  {
    var P := Path(g, t, p);
    var m := P[k];
    PathSuffix(g, t, p, k);
    ParentHeight(g, t, m);
    assert Path(g, t, m) == [m] + Path(g, t, q);
    assert P[k..] == [m] + Path(g, t, q);
    assert P[k + 1..] == P[k..][1..];
  }

  /**
   * `getChangeAmount(t)`: counts changed annotations on the way to the root.
   * A changed ELIF or ELSE counts once for its whole chain: counting resumes
   * above the governing IF.
   */
  function ChangeAmount(g: Graph, t: Time, n: NodeId): (r: Result<nat>)
    requires Acyclic(g, t) && n in g
    ensures r.Ok? ==> r.value <= CountChanged(g, t, Path(g, t, n))
    ensures r.Err? ==> r.error == NullPointer
    decreases Height(g, t, n)
  {
    var node := g[n];
    var P := Path(g, t, n);
    if node.IsRoot() then Ok(0)
    else match node.Parent(t)
      case None => Err(NullPointer)
      case Some(p) =>
        ParentHeight(g, t, n);
        assert P == [n] + Path(g, t, p);
        var changed := node.diffType == ThatExistsOnlyAt(t);
        if node.IsIf() && changed then
          var c := ChangeAmount(g, t, p);
          if c.Err? then c else Ok(c.value + 1)
        else if (node.IsElif() || node.IsElse()) && changed then
          var i := IfNode(g, t, p);
          if i.Err? then Err(i.error)
          else if i.value.None? then Err(NullPointer)
          else
            var m := i.value.value;
            match g[m].Parent(t)
            case None => Err(NullPointer)
            case Some(q) =>
              ParentHeight(g, t, m);
              var c := ChangeAmount(g, t, q);
              if c.Err? then c
              else
                AboveGoverningIf(g, t, p, m, q);
                Ok(c.value + 1)
        else
          var c := ChangeAmount(g, t, p);
          c
  }

  /** The index of the first IF node in `s`, if there is one. */
  function FirstIf(g: Graph, s: seq<NodeId>): (r: Option<nat>)
    requires forall i :: 0 <= i < |s| ==> s[i] in g
    ensures r.Some? ==> r.value < |s| && g[s[r.value]].IsIf() && NoIf(g, s[..r.value])
    ensures r.None? ==> NoIf(g, s)
  {
    if |s| == 0 then None
    else if g[s[0]].IsIf() then
      assert s[..0] == [];
      Some(0)
    else
      match FirstIf(g, s[1..])
      case None => None
      case Some(j) =>
        assert s[..j + 1] == [s[0]] + s[1..][..j];
        Some(j + 1)
  }

  /** The first IF of a sequence is the first IF that `NoIf` lets through. */
  lemma FirstIfUnique(g: Graph, s: seq<NodeId>, k: nat)
    requires forall i :: 0 <= i < |s| ==> s[i] in g
    requires k < |s| && g[s[k]].IsIf() && NoIf(g, s[..k])
    ensures FirstIf(g, s) == Some(k)
  {
    var r := FirstIf(g, s);
    forall i | 0 <= i < k ensures !g[s[i]].IsIf() {
      assert s[..k][i] == s[i];
    }
    if r.Some? {
      forall i | 0 <= i < r.value ensures !g[s[i]].IsIf() {
        assert s[..r.value][i] == s[i];
      }
    }
  }

  /**
   * The change amount read off a parent chain `s` (the node first, the top
   * last): each annotation that exists only at `t` counts once, but after a
   * changed ELIF or ELSE counting resumes above the first IF further up, so
   * the other branches of its chain are not counted. The count ends with 0 at
   * a root; a chain that ends anywhere else, or that has no IF (or nothing
   * above that IF) where one is needed, has no count: `NullPointer`.
   */
  ghost function Collapsed(g: Graph, t: Time, s: seq<NodeId>): (r: Result<nat>)
    requires forall i :: 0 <= i < |s| ==> s[i] in g
    decreases |s|
  {
    if |s| == 0 then Err(NullPointer)
    else if g[s[0]].IsRoot() then Ok(0)
    else if |s| == 1 then Err(NullPointer)
    else
      var changed := g[s[0]].diffType == ThatExistsOnlyAt(t);
      var above :=
        if changed && (g[s[0]].IsElif() || g[s[0]].IsElse()) then
          match FirstIf(g, s[1..])
          case None => Err(NullPointer)
          case Some(j) => Collapsed(g, t, s[1..][j + 1..])
        else Collapsed(g, t, s[1..]);
      if above.Err? then above
      else if ChangedAnnotation(g, t, s[0]) then Ok(above.value + 1)
      else above
  }

  /** `Collapsed` past a changed ELIF or ELSE: one, plus the count above the first IF further up. */
  lemma CollapsedBranchStep(g: Graph, t: Time, s: seq<NodeId>)
    requires forall i :: 0 <= i < |s| ==> s[i] in g
    requires |s| > 1 && !g[s[0]].IsRoot()
    requires g[s[0]].diffType == ThatExistsOnlyAt(t) && (g[s[0]].IsElif() || g[s[0]].IsElse())
    ensures Collapsed(g, t, s) ==
      match FirstIf(g, s[1..])
      case None => Err(NullPointer)
      case Some(j) =>
        var above := Collapsed(g, t, s[1..][j + 1..]);
        if above.Err? then above else Ok(above.value + 1)
  {
  }

  /** `Collapsed` past any other node: the count above, plus one for a changed IF. */
  lemma CollapsedPlainStep(g: Graph, t: Time, s: seq<NodeId>)
    requires forall i :: 0 <= i < |s| ==> s[i] in g
    requires |s| > 1 && !g[s[0]].IsRoot()
    requires !(g[s[0]].diffType == ThatExistsOnlyAt(t) && (g[s[0]].IsElif() || g[s[0]].IsElse()))
    ensures Collapsed(g, t, s) ==
      var above := Collapsed(g, t, s[1..]);
      if above.Err? then above
      else if g[s[0]].diffType == ThatExistsOnlyAt(t) && g[s[0]].IsIf() then Ok(above.value + 1)
      else above
  {
  }

  /** `getIfNode` finds the first IF of the chain, and fails or finds none iff the chain has no IF. */
  lemma IfNodeIsFirstIf(g: Graph, t: Time, p: NodeId)
    requires Acyclic(g, t) && p in g
    ensures var i := IfNode(g, t, p);
      var f := FirstIf(g, Path(g, t, p));
      (i.Ok? && i.value.Some? <==> f.Some?) &&
      (f.Some? ==> i.value.value == Path(g, t, p)[f.value])
  {
    var Q := Path(g, t, p);
    var i := IfNode(g, t, p);
    if i.Ok? && i.value.Some? {
      var m := i.value.value;
      var k := Height(g, t, p) - Height(g, t, m);
      assert m in g && g[m].IsIf() && 0 <= k < |Q| && Q[k] == m && NoIf(g, Q[..k]);
      FirstIfUnique(g, Q, k);
    } else {
      assert NoIf(g, Q);
      assert FirstIf(g, Q).None?;
    }
  }

  /** `Collapsed` past a changed ELIF or ELSE whose first IF further up is at index `k + 1`. */
  lemma CollapsedAboveIf(g: Graph, t: Time, s: seq<NodeId>, k: nat, c: Result<nat>)
    requires forall i :: 0 <= i < |s| ==> s[i] in g
    requires |s| > 1 && !g[s[0]].IsRoot()
    requires g[s[0]].diffType == ThatExistsOnlyAt(t) && (g[s[0]].IsElif() || g[s[0]].IsElse())
    requires FirstIf(g, s[1..]) == Some(k) && k + 1 < |s|
    requires Collapsed(g, t, s[1..][k + 1..]) == c
    ensures Collapsed(g, t, s) == if c.Err? then c else Ok(c.value + 1)
  {
    CollapsedBranchStep(g, t, s);
  }

  /** `ChangeAmount` of a changed ELIF or ELSE whose governing IF `m` has the parent `q`. */
  lemma ChangeAmountAboveIf(g: Graph, t: Time, n: NodeId, p: NodeId, m: NodeId, q: NodeId, c: Result<nat>)
    requires Acyclic(g, t) && n in g && !g[n].IsRoot() && g[n].Parent(t) == Some(p)
    requires g[n].diffType == ThatExistsOnlyAt(t) && (g[n].IsElif() || g[n].IsElse())
    requires p in g && IfNode(g, t, p) == Ok(Some(m)) && m in g && g[m].Parent(t) == Some(q) && q in g
    requires c == ChangeAmount(g, t, q)
    ensures ChangeAmount(g, t, n) == if c.Err? then c else Ok(c.value + 1)
  {
  }

  /** `ChangeAmount` of a changed ELIF or ELSE whose governing IF `m` has no parent: `NullPointer`. */
  lemma ChangeAmountIfWithoutParent(g: Graph, t: Time, n: NodeId, p: NodeId, m: NodeId)
    requires Acyclic(g, t) && n in g && !g[n].IsRoot() && g[n].Parent(t) == Some(p)
    requires g[n].diffType == ThatExistsOnlyAt(t) && (g[n].IsElif() || g[n].IsElse())
    requires p in g && IfNode(g, t, p) == Ok(Some(m)) && m in g && g[m].Parent(t).None?
    ensures ChangeAmount(g, t, n) == Err(NullPointer)
  {
  }

  /**
   * `getChangeAmount` computes the collapsed count of the node's chain, and
   * fails exactly where that count is undefined.
   */
  lemma {:induction false} ChangeAmountCollapses(g: Graph, t: Time, n: NodeId)
    requires Acyclic(g, t) && n in g
    ensures ChangeAmount(g, t, n) == Collapsed(g, t, Path(g, t, n))
    decreases Height(g, t, n), 2
  {
    var P := Path(g, t, n);
    var node := g[n];
    if node.IsRoot() {
      assert P[0] == n;
      assert Collapsed(g, t, P) == Ok(0);
    } else if node.Parent(t).None? {
      assert P == [n];
      assert Collapsed(g, t, P) == Err(NullPointer);
    } else if (node.IsElif() || node.IsElse()) && node.diffType == ThatExistsOnlyAt(t) {
      BranchCollapses(g, t, n, node.Parent(t).value);
    } else {
      PlainCollapses(g, t, n, node.Parent(t).value);
    }
  }

  /** `ChangeAmountCollapses` for a changed ELIF or ELSE with the parent `p`. */
  lemma {:induction false} BranchCollapses(g: Graph, t: Time, n: NodeId, p: NodeId)
    requires Acyclic(g, t) && n in g && !g[n].IsRoot() && g[n].Parent(t) == Some(p)
    requires (g[n].IsElif() || g[n].IsElse()) && g[n].diffType == ThatExistsOnlyAt(t)
    ensures ChangeAmount(g, t, n) == Collapsed(g, t, Path(g, t, n))
    decreases Height(g, t, n), 1
  {
    var P := Path(g, t, n);
    ParentHeight(g, t, n);
    var Q := Path(g, t, p);
    assert P == [n] + Q;
    assert P[1..] == Q;
    var i := IfNode(g, t, p);
    IfNodeIsFirstIf(g, t, p);
    if i.Ok? && i.value.Some? {
      var m := i.value.value;
      var k := FirstIf(g, Q).value;
      match g[m].Parent(t)
      case None =>
        assert ParentLink(g, t, Q, k);
        assert P[1..][k + 1..] == [];
        CollapsedAboveIf(g, t, P, k, Err(NullPointer));
        ChangeAmountIfWithoutParent(g, t, n, p, m);
      case Some(q) =>
        BranchAboveIfCollapses(g, t, n, p, m, q);
    } else {
      CollapsedBranchStep(g, t, P);
      assert ChangeAmount(g, t, n) == Err(NullPointer);
      assert Collapsed(g, t, P) == Err(NullPointer);
    }
  }

  /** `BranchCollapses` where the governing IF `m` has the parent `q`. */
  lemma {:induction false} BranchAboveIfCollapses(g: Graph, t: Time, n: NodeId, p: NodeId, m: NodeId, q: NodeId)
    requires Acyclic(g, t) && n in g && !g[n].IsRoot() && g[n].Parent(t) == Some(p)
    requires (g[n].IsElif() || g[n].IsElse()) && g[n].diffType == ThatExistsOnlyAt(t)
    requires p in g && Height(g, t, p) + 1 == Height(g, t, n)
    requires IfNode(g, t, p) == Ok(Some(m)) && m in g && g[m].Parent(t) == Some(q)
    requires FirstIf(g, Path(g, t, p)).Some? && Path(g, t, p)[FirstIf(g, Path(g, t, p)).value] == m
    ensures ChangeAmount(g, t, n) == Collapsed(g, t, Path(g, t, n))
    decreases Height(g, t, n), 0
  {
    var P := Path(g, t, n);
    var Q := Path(g, t, p);
    assert P[1..] == Q;
    var k := FirstIf(g, Q).value;
    ParentHeight(g, t, m);
    ChainAbove(g, t, p, k, q);
    ChangeAmountCollapses(g, t, q);
    var c := ChangeAmount(g, t, q);
    CollapsedAboveIf(g, t, P, k, c);
    ChangeAmountAboveIf(g, t, n, p, m, q, c);
  }

  /** `ChangeAmountCollapses` for any other node with the parent `p`. */
  lemma {:induction false} PlainCollapses(g: Graph, t: Time, n: NodeId, p: NodeId)
    requires Acyclic(g, t) && n in g && !g[n].IsRoot() && g[n].Parent(t) == Some(p)
    requires !((g[n].IsElif() || g[n].IsElse()) && g[n].diffType == ThatExistsOnlyAt(t))
    ensures ChangeAmount(g, t, n) == Collapsed(g, t, Path(g, t, n))
    decreases Height(g, t, n), 0
  {
    var P := Path(g, t, n);
    ParentHeight(g, t, n);
    assert P == [n] + Path(g, t, p);
    assert P[1..] == Path(g, t, p);
    CollapsedPlainStep(g, t, P);
    ChangeAmountCollapses(g, t, p);
    var c := ChangeAmount(g, t, p);
    var d := if c.Err? then c else if g[n].diffType == ThatExistsOnlyAt(t) && g[n].IsIf() then Ok(c.value + 1) else c;
    assert ChangeAmount(g, t, n) == d;
    assert Collapsed(g, t, P) == d;
  }

  /** No annotation on the chain that exists only at `t` is an ELIF or an ELSE. */
  ghost predicate NoChangedBranch(g: Graph, t: Time, s: seq<NodeId>)
    requires forall i :: 0 <= i < |s| ==> s[i] in g
  {
    forall i :: 0 <= i < |s| ==> !(ChangedAnnotation(g, t, s[i]) && !g[s[i]].IsIf())
  }

  /**
   * Without a changed ELIF or ELSE on the chain nothing is collapsed: a chain
   * that ends at a root counts every changed IF below that root.
   */
  lemma {:induction false} CollapsedCountsAll(g: Graph, t: Time, s: seq<NodeId>)
    requires forall i :: 0 <= i < |s| ==> s[i] in g
    requires |s| > 0 && g[s[|s| - 1]].IsRoot() && NoChangedBranch(g, t, s)
    requires forall i :: 0 <= i < |s| - 1 ==> !g[s[i]].IsRoot()
    ensures Collapsed(g, t, s) == Ok(CountChanged(g, t, s[..|s| - 1]))
    decreases |s|
  {
    if |s| > 1 {
      var s' := s[1..];
      assert NoChangedBranch(g, t, s') by {
        forall i | 0 <= i < |s'| ensures !(ChangedAnnotation(g, t, s'[i]) && !g[s'[i]].IsIf()) {
          assert s'[i] == s[i + 1];
        }
      }
      assert forall i :: 0 <= i < |s'| - 1 ==> !g[s'[i]].IsRoot() by {
        forall i | 0 <= i < |s'| - 1 ensures !g[s'[i]].IsRoot() {
          assert s'[i] == s[i + 1];
        }
      }
      assert !(ChangedAnnotation(g, t, s[0]) && !g[s[0]].IsIf());
      assert !g[s[0]].IsRoot();
      CollapsedCountsAll(g, t, s');
      assert s[..|s| - 1][1..] == s'[..|s'| - 1];
    } else {
      assert s[..0] == [];
    }
  }

  /**
   * On a chain from `n` up to a root with no changed ELIF or ELSE,
   * `getChangeAmount` is exactly the number of annotations below the root
   * that exist only at `t`; in particular it is 0 on a chain without changes.
   */
  lemma ChangeAmountCountsChanged(g: Graph, t: Time, n: NodeId)
    requires Acyclic(g, t) && n in g
    requires g[Top(g, t, n)].IsRoot() && NoChangedBranch(g, t, Path(g, t, n))
    ensures var P := Path(g, t, n);
      ChangeAmount(g, t, n) == Ok(CountChanged(g, t, P[..|P| - 1]))
  {
    var P := Path(g, t, n);
    assert Top(g, t, n) == P[|P| - 1];
    assert g[P[|P| - 1]].IsRoot();
    assert NoChangedBranch(g, t, P);
    BelowTopNotRoot(g, t, P);
    CollapsedCountsAll(g, t, P);
    ChangeAmountCollapses(g, t, n);
  }

  /** Every node of a chain below its top has a parent, so it is no root. */
  lemma BelowTopNotRoot(g: Graph, t: Time, s: seq<NodeId>)
    requires forall i :: ParentLink(g, t, s, i)
    ensures forall i :: 0 <= i < |s| - 1 ==> s[i] in g && !g[s[i]].IsRoot()
  {
    forall i | 0 <= i < |s| - 1 ensures s[i] in g && !g[s[i]].IsRoot() {
      assert ParentLink(g, t, s, i);
    }
  }
}
