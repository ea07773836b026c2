/**
 * The node structure of a variation diff, kept as an arena: every node has an
 * identity (`NodeId`), one parent slot per point in time, and one ordered list
 * of children shared by both times.
 */
module DiffGraph {
  import opened Wrappers
  import opened Formulas
  import opened DiffTypes
  import Strings

  /** The identity of a node object. */
  type NodeId = int

  datatype Node = Node(
    diffType: DiffType,
    nodeType: NodeType,
    from: DiffLineNumber,
    to: DiffLineNumber,
    formula: Option<Formula>,
    lines: seq<string>,
    beforeParent: Option<NodeId>,
    afterParent: Option<NodeId>,
    childOrder: seq<NodeId>)
  {
    /** `getParent(t)`. */
    function Parent(t: Time): Option<NodeId>
    {
      if t == BEFORE then beforeParent else afterParent
    }

    /** This node with its parent slot at time `t` replaced. */
    function WithParent(t: Time, p: Option<NodeId>): (r: Node)
      ensures r.Parent(t) == p && r.Parent(t.Other()) == Parent(t.Other())
      ensures r.childOrder == childOrder && r.diffType == diffType && r.nodeType == nodeType
    {
      if t == BEFORE then this.(beforeParent := p) else this.(afterParent := p)
    }

    /** `isRoot`: no parent at either time. */
    predicate IsRoot() { beforeParent.None? && afterParent.None? }

    predicate IsIf() { nodeType == IF }
    predicate IsElif() { nodeType == ELIF }
    predicate IsElse() { nodeType == ELSE }
    predicate IsArtifact() { nodeType == ARTIFACT }
  }

  /** All nodes of a diff, by identity. */
  type Graph = map<NodeId, Node>

  /** `createRoot`: an unchanged IF node whose formula is true. */
  function CreateRoot(): (r: Node)
    ensures r.IsRoot() && r.IsIf() && r.diffType == NON && r.formula == Some(True)
    ensures r.childOrder == []
  {
    Node(NON, IF, InvalidLine(), InvalidLine(), Some(True), [], None, None, [])
  }

  /** `createArtifact`: an artifact node has no formula. */
  function CreateArtifact(d: DiffType, from: DiffLineNumber, to: DiffLineNumber, lines: seq<string>): (r: Node)
    ensures r.IsArtifact() && r.formula.None? && r.IsRoot() && r.childOrder == []
    ensures r.diffType == d && r.from == from && r.to == to && r.lines == lines
  {
    Node(d, ARTIFACT, from, to, None, lines, None, None, [])
  }

  /** `isChild(c, t)`: `p` is the parent of `c` at time `t` (by identity). */
  predicate IsChildAt(g: Graph, p: NodeId, c: NodeId, t: Time)
  {
    c in g && g[c].Parent(t) == Some(p)
  }

  /** `isChild(c)`: `p` is the parent of `c` before or after the edit. */
  predicate IsChild(g: Graph, p: NodeId, c: NodeId)
  {
    IsChildAt(g, p, c, BEFORE) || IsChildAt(g, p, c, AFTER)
  }

  /** Every identity a node refers to denotes a node of the graph. */
  ghost predicate Closed(g: Graph)
  {
    forall n :: n in g ==>
      (g[n].beforeParent.Some? ==> g[n].beforeParent.value in g) &&
      (g[n].afterParent.Some? ==> g[n].afterParent.value in g) &&
      (forall i :: 0 <= i < |g[n].childOrder| ==> g[n].childOrder[i] in g)
  }

  /** No node occurs twice in the same child list. */
  ghost predicate NoDuplicates(s: seq<NodeId>)
  {
    forall i, j :: 0 <= i < j < |s| ==> s[i] != s[j]
  }

  /**
   * The documented invariant of the two-way links: `c` is in `p`'s child order
   * iff `p` is the parent of `c` at some time, and each child is listed once.
   */
  ghost predicate Linked(g: Graph)
  {
    Closed(g) &&
    (forall p, c :: p in g && c in g ==> (c in g[p].childOrder <==> IsChild(g, p, c))) &&
    (forall p :: p in g ==> NoDuplicates(g[p].childOrder))
  }

  /** A node has a parent only at the times at which it exists. */
  ghost predicate TimesRespected(g: Graph)
  {
    forall n, t :: n in g && g[n].Parent(t).Some? ==> g[n].diffType.ExistsAtTime(t)
  }

  /** Following parents at time `t` from `n` ends within `k` steps at a node without parent at `t`. */
  ghost predicate Rooted(g: Graph, t: Time, n: NodeId, k: nat)
    decreases k
  {
    n in g && (g[n].Parent(t).None? || (k > 0 && Rooted(g, t, g[n].Parent(t).value, k - 1)))
  }

  /** Every parent chain at time `t` is finite (there is no cycle of parents at `t`). */
  ghost predicate Acyclic(g: Graph, t: Time)
  {
    forall n :: n in g ==> Rooted(g, t, n, |g|)
  }

  ghost function HeightFuel(g: Graph, t: Time, n: NodeId, k: nat): nat
    requires Rooted(g, t, n, k)
    decreases k
  {
    if g[n].Parent(t).None? then 0 else 1 + HeightFuel(g, t, g[n].Parent(t).value, k - 1)
  }

  lemma {:induction false} HeightFuelIndependent(g: Graph, t: Time, n: NodeId, k1: nat, k2: nat)
    requires Rooted(g, t, n, k1) && Rooted(g, t, n, k2)
    ensures HeightFuel(g, t, n, k1) == HeightFuel(g, t, n, k2)
    decreases k1
  {
    if g[n].Parent(t).Some? {
      HeightFuelIndependent(g, t, g[n].Parent(t).value, k1 - 1, k2 - 1);
    }
  }

  /** The number of parent steps at time `t` from `n` to the top of its chain. */
  ghost function Height(g: Graph, t: Time, n: NodeId): nat
    requires Acyclic(g, t) && n in g
  {
    HeightFuel(g, t, n, |g|)
  }

  /** The parent at `t` is a node of the graph and one step closer to the top. */
  lemma ParentHeight(g: Graph, t: Time, n: NodeId)
    requires Acyclic(g, t) && n in g && g[n].Parent(t).Some?
    ensures g[n].Parent(t).value in g
    ensures Height(g, t, g[n].Parent(t).value) + 1 == Height(g, t, n)
  {
    var p := g[n].Parent(t).value;
    assert Rooted(g, t, n, |g|);
    assert Rooted(g, t, p, |g| - 1);
    assert Rooted(g, t, p, |g|);
    HeightFuelIndependent(g, t, p, |g| - 1, |g|);
  }

  /** `ParentHeight` for a parent slot that may be empty. */
  lemma ParentStep(g: Graph, t: Time, n: NodeId)
    requires Acyclic(g, t) && n in g
    ensures g[n].Parent(t).Some? ==>
      g[n].Parent(t).value in g && Height(g, t, g[n].Parent(t).value) + 1 == Height(g, t, n)
  {
    if g[n].Parent(t).Some? { ParentHeight(g, t, n); }
  }

  /** The `i`-th node of the chain `s` has the next one as its parent at time `t`. */
  ghost predicate ParentLink(g: Graph, t: Time, s: seq<NodeId>, i: int)
  {
    0 <= i < |s| - 1 ==> s[i] in g && g[s[i]].Parent(t) == Some(s[i + 1])
  }

  /** The chain of nodes from `n` up to the top, following parents at time `t`. */
  function Path(g: Graph, t: Time, n: NodeId): (r: seq<NodeId>)
    requires Acyclic(g, t) && n in g
    ensures |r| == Height(g, t, n) + 1 && r[0] == n
    ensures forall i :: 0 <= i < |r| ==> r[i] in g
    ensures forall i :: ParentLink(g, t, r, i)
    ensures g[r[|r| - 1]].Parent(t).None?
    decreases Height(g, t, n)
  {
    match g[n].Parent(t)
    case None => [n]
    case Some(p) =>
      ParentHeight(g, t, n);
      var rest := Path(g, t, p);
      var r := [n] + rest;
      assert forall i :: ParentLink(g, t, r, i) by {
        forall i ensures ParentLink(g, t, r, i) {
          if 1 <= i { assert ParentLink(g, t, rest, i - 1); }
        }
      }
      r
  }

  /** The last node of the chain: the one without a parent at time `t`. */
  function Top(g: Graph, t: Time, n: NodeId): (r: NodeId)
    requires Acyclic(g, t) && n in g
    ensures r in g && g[r].Parent(t).None?
  {
    var p := Path(g, t, n);
    p[|p| - 1]
  }

  /** The top of the chain does not change when we start one step higher. */
  lemma TopOfParent(g: Graph, t: Time, n: NodeId)
    requires Acyclic(g, t) && n in g && g[n].Parent(t).Some?
    ensures g[n].Parent(t).value in g
    ensures Top(g, t, g[n].Parent(t).value) == Top(g, t, n)
  {
    ParentHeight(g, t, n);
  }

  /** Dropping the first `i` nodes of a chain leaves the chain of the `i`-th node. */
  lemma {:induction false} PathSuffix(g: Graph, t: Time, n: NodeId, i: nat)
    requires Acyclic(g, t) && n in g && i < |Path(g, t, n)|
    ensures Path(g, t, n)[i..] == Path(g, t, Path(g, t, n)[i])
    decreases i
  {
    if i > 0 {
      var p := g[n].Parent(t).value;
      ParentHeight(g, t, n);
      assert Path(g, t, n) == [n] + Path(g, t, p);
      PathSuffix(g, t, p, i - 1);
      assert Path(g, t, n)[i..] == Path(g, t, p)[i - 1..];
    }
  }

  /** The attributes Java's `DiffNode.equals` compares; it ignores identity and links. */
  function Attrs(n: Node): (DiffType, NodeType, DiffLineNumber, DiffLineNumber, Option<Formula>, seq<string>)
  {
    (n.diffType, n.nodeType, n.from, n.to, n.formula, n.lines)
  }

  /** `StringUtils.LINEBREAK`. */
  const LineBreak: string := "\n"

  function PrefixAll(prefix: string, lines: seq<string>): (r: seq<string>)
    ensures |r| == |lines| && forall i :: 0 <= i < |r| ==> r[i] == prefix + lines[i]
  {
    seq(|lines|, i requires 0 <= i < |lines| => prefix + lines[i])
  }

  /**
   * `toTextDiffLine(diffType, lines)`: every line prefixed with the diff type's
   * symbol, joined with line breaks.
   */
  function ToTextDiffLine(d: DiffType, lines: seq<string>): (r: string)
  {
    d.Symbol() + Strings.Join(lines, LineBreak + d.Symbol())
  }

  lemma {:induction false} JoinPrefixed(prefix: string, lines: seq<string>)
    requires |lines| >= 1
    ensures prefix + Strings.Join(lines, LineBreak + prefix) == Strings.Join(PrefixAll(prefix, lines), LineBreak)
    decreases |lines|
  {
    if |lines| > 1 {
      JoinPrefixed(prefix, lines[1..]);
      assert PrefixAll(prefix, lines)[1..] == PrefixAll(prefix, lines[1..]);
    }
  }

  /**
   * Splitting the text-diff rendering at line breaks gives back each line with
   * the diff type's symbol in front (for lines without line breaks); no lines
   * give the bare symbol.
   */
  lemma TextDiffLineSplits(d: DiffType, lines: seq<string>)
    requires forall i :: 0 <= i < |lines| ==> '\n' !in lines[i]
    ensures |lines| == 0 ==> ToTextDiffLine(d, lines) == d.Symbol()
    ensures |lines| > 0 ==> Strings.SplitOn(ToTextDiffLine(d, lines), '\n') == PrefixAll(d.Symbol(), lines)
  {
    if |lines| > 0 {
      JoinPrefixed(d.Symbol(), lines);
      var ps := PrefixAll(d.Symbol(), lines);
      forall i | 0 <= i < |ps| ensures '\n' !in ps[i] {
        assert ps[i] == d.Symbol() + lines[i];
        assert '\n' !in d.Symbol();
      }
      Strings.SplitJoin(ps, '\n');
    }
  }
}
