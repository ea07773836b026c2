/**
 * What the semantic patterns share: the matches they report, the feature
 * contexts built from those, and the scans over a node's children that look
 * for added artifacts and for the last added annotation of some kinds.
 */
module SemanticPatterns {
  import opened Wrappers
  import opened Formulas
  import opened DiffTypes
  import opened DiffGraph

  /** `PatternMatch`: the pattern's name, the range of diff lines it spans and the feature mappings it records. */
  datatype PatternMatch = PatternMatch(name: string, fromLine: int, toLine: int, mappings: seq<Formula>)

  /** `FeatureContext`: a formula describing where a pattern applies. */
  datatype FeatureContext = FeatureContext(formula: Formula)

  /**
   * The trees the patterns are run on: the two-way links agree, parents exist
   * only at the times their children exist, and the AFTER chains are finite.
   */
  ghost predicate WellFormed(g: Graph)
  {
    Linked(g) && TimesRespected(g) && Acyclic(g, AFTER)
  }

  /** `child.isArtifact() && child.isAdd()`. */
  predicate AddedArtifact(g: Graph, c: NodeId)
  {
    c in g && g[c].IsArtifact() && g[c].diffType == ADD
  }

  /** An added node whose node type is one of `kinds`. */
  predicate AddedOf(g: Graph, c: NodeId, kinds: set<NodeType>)
  {
    c in g && g[c].diffType == ADD && g[c].nodeType in kinds
  }

  /** Some node of `cs` is an added artifact. */
  predicate HasAddedArtifact(g: Graph, cs: seq<NodeId>)
  {
    exists i :: 0 <= i < |cs| && AddedArtifact(g, cs[i])
  }

  /** The last added node of `cs` whose type is one of `kinds`, if any. */
  function LastAdded(g: Graph, cs: seq<NodeId>, kinds: set<NodeType>): (r: Option<NodeId>)
    ensures r.None? <==> forall i :: 0 <= i < |cs| ==> !AddedOf(g, cs[i], kinds)
    ensures r.Some? ==> AddedOf(g, r.value, kinds)
    ensures r.Some? ==>
      exists i :: 0 <= i < |cs| && cs[i] == r.value && forall j :: i < j < |cs| ==> !AddedOf(g, cs[j], kinds)
    decreases |cs|
  {
    if cs == [] then None
    else if AddedOf(g, cs[|cs| - 1], kinds) then Some(cs[|cs| - 1])
    else
      var r := LastAdded(g, cs[..|cs| - 1], kinds);
      assert forall i :: 0 <= i < |cs| - 1 ==> cs[..|cs| - 1][i] == cs[i];
      r
  }

  /**
   * The loop over the children that sets `addedCode` when it meets an added
   * artifact and remembers the last added node of the given kinds.
   */
  method ScanChildren(g: Graph, cs: seq<NodeId>, kinds: set<NodeType>) returns (addedCode: bool, last: Option<NodeId>)
    ensures addedCode == HasAddedArtifact(g, cs)
    ensures last == LastAdded(g, cs, kinds)
  {
    addedCode := false;
    last := None;
    for i := 0 to |cs|
      invariant addedCode == HasAddedArtifact(g, cs[..i])
      invariant last == LastAdded(g, cs[..i], kinds)
    {
      assert cs[..i + 1][..i] == cs[..i];
      if AddedArtifact(g, cs[i]) {
        addedCode := true;
      }
      if AddedOf(g, cs[i], kinds) {
        last := Some(cs[i]);
      }
      assert cs[..i + 1][i] == cs[i];
    }
    assert cs[..|cs|] == cs;
  }

  /** An added child has the node as its AFTER parent and is one step further from the top. */
  lemma AddedChildHeight(g: Graph, p: NodeId, c: NodeId)
    requires WellFormed(g) && p in g && c in g[p].childOrder && g[c].diffType == ADD
    ensures c in g && g[c].afterParent == Some(p)
    ensures Height(g, AFTER, c) == Height(g, AFTER, p) + 1 && Height(g, AFTER, c) <= |g|
  {
    assert c in g;
    assert IsChild(g, p, c);
    assert g[c].Parent(BEFORE).None?;
    ParentHeight(g, AFTER, c);
    HeightFuelBound(g, AFTER, c, |g|);
  }

  /** A parent chain within `k` steps has at most `k` steps. */
  lemma {:induction false} HeightFuelBound(g: Graph, t: Time, n: NodeId, k: nat)
    requires Rooted(g, t, n, k)
    ensures HeightFuel(g, t, n, k) <= k
    decreases k
  {
    if g[n].Parent(t).Some? {
      HeightFuelBound(g, t, g[n].Parent(t).value, k - 1);
    }
  }
}
