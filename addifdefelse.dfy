/**
 * The semantic pattern AddIfdefElse: an added IF with added code, no ELIF
 * child, and an added ELSE child that has added code of its own.
 */
module AddIfdefElse {
  import opened Wrappers
  import opened Formulas
  import opened DiffTypes
  import opened DiffGraph
  import opened SemanticPatterns
  import FeatureMapping

  const PatternName: string := "AddIfdefElse"

  /** Some node of `cs` is an ELIF, whatever its change type. */
  predicate HasElif(g: Graph, cs: seq<NodeId>)
  {
    exists i :: 0 <= i < |cs| && cs[i] in g && g[cs[i]].IsElif()
  }

  /**
   * `match`: nothing unless the node is an added IF without ELIF children that
   * has added code and an added ELSE child; the last such ELSE must have added
   * code too. The match spans from the IF's first line to the ELSE's last line
   * and records the IF's AFTER feature mapping.
   */
  function Match(g: Graph, n: NodeId): (r: Result<Option<PatternMatch>>)
    requires WellFormed(g) && n in g
    ensures r.Ok? && r.value.Some? ==> g[n].diffType == ADD && g[n].IsIf()
    ensures r.Err? ==> FeatureMapping.FeatureMapping(g, AFTER, n).Err?
  {
    var x := g[n];
    if !(x.diffType == ADD && x.IsIf()) then Ok(None)
    else if HasElif(g, x.childOrder) then Ok(None)
    else
      var addedCodeInIf := HasAddedArtifact(g, x.childOrder);
      var elseNode := LastAdded(g, x.childOrder, {ELSE});
      if elseNode.None? || !addedCodeInIf then Ok(None)
      else if !HasAddedArtifact(g, g[elseNode.value].childOrder) then Ok(None)
      else
        var fm := FeatureMapping.FeatureMapping(g, AFTER, n);
        if fm.Err? then Err(fm.error)
        else Ok(Some(PatternMatch(PatternName, x.from.inDiff, g[elseNode.value].to.inDiff, [fm.value])))
  }

  /**
   * A match is an added IF without ELIF children that has added code and
   * whose last added ELSE child has added code; it spans from the IF's first
   * line to that ELSE's last line and records the IF's AFTER feature mapping.
   */
  lemma MatchSound(g: Graph, n: NodeId)
    requires WellFormed(g) && n in g && Match(g, n).Ok? && Match(g, n).value.Some?
    ensures !HasElif(g, g[n].childOrder) && HasAddedArtifact(g, g[n].childOrder)
    ensures var e := LastAdded(g, g[n].childOrder, {ELSE});
      e.Some? && HasAddedArtifact(g, g[e.value].childOrder) &&
      Match(g, n).value.value == PatternMatch(PatternName, g[n].from.inDiff, g[e.value].to.inDiff,
        [FeatureMapping.FeatureMapping(g, AFTER, n).value])
  {
  }

  /**
   * The converse: an added IF with a feature mapping, added code, no ELIF
   * child and an added ELSE child whose last one has added code, matches.
   */
  lemma MatchComplete(g: Graph, n: NodeId)
    requires WellFormed(g) && n in g && g[n].diffType == ADD && g[n].IsIf()
    requires FeatureMapping.FeatureMapping(g, AFTER, n).Ok?
    requires !HasElif(g, g[n].childOrder) && HasAddedArtifact(g, g[n].childOrder)
    requires var e := LastAdded(g, g[n].childOrder, {ELSE}); e.Some? && HasAddedArtifact(g, g[e.value].childOrder)
    ensures Match(g, n).Ok? && Match(g, n).value.Some?
  {
  }

  /**
   * The loop over the IF's children: it gives up at the first ELIF, and
   * otherwise notes added code and the last added ELSE.
   */
  method ScanIfChildren(g: Graph, cs: seq<NodeId>) returns (hasElif: bool, addedCode: bool, elseNode: Option<NodeId>)
    ensures hasElif == HasElif(g, cs)
    ensures !hasElif ==> addedCode == HasAddedArtifact(g, cs) && elseNode == LastAdded(g, cs, {ELSE})
  {
    addedCode := false;
    elseNode := None;
    for i := 0 to |cs|
      invariant !HasElif(g, cs[..i])
      invariant addedCode == HasAddedArtifact(g, cs[..i])
      invariant elseNode == LastAdded(g, cs[..i], {ELSE})
    {
      assert cs[..i + 1][..i] == cs[..i];
      assert cs[..i + 1][i] == cs[i];
      if cs[i] in g && g[cs[i]].IsElif() {
        return true, addedCode, elseNode;
      }
      if AddedArtifact(g, cs[i]) {
        addedCode := true;
      }
      if AddedOf(g, cs[i], {ELSE}) {
        elseNode := Some(cs[i]);
      }
    }
    assert cs[..|cs|] == cs;
    return false, addedCode, elseNode;
  }

  /** `match` with its two loops over children. */
  method MatchNode(g: Graph, n: NodeId) returns (r: Result<Option<PatternMatch>>)
    requires WellFormed(g) && n in g
    ensures r == Match(g, n)
  {
    var x := g[n];
    if !(x.diffType == ADD && x.IsIf()) {
      return Ok(None);
    }
    var hasElif, addedCodeInIf, elseNode := ScanIfChildren(g, x.childOrder);
    if hasElif {
      return Ok(None);
    }
    if elseNode.None? || !addedCodeInIf {
      return Ok(None);
    }
    var addedCodeInElse, _ := ScanChildren(g, g[elseNode.value].childOrder, {});
    if !addedCodeInElse {
      return Ok(None);
    }
    var fm := FeatureMapping.FeatureMapping(g, AFTER, n);
    if fm.Err? {
      return Err(fm.error);
    }
    return Ok(Some(PatternMatch(PatternName, x.from.inDiff, g[elseNode.value].to.inDiff, [fm.value])));
  }

  /**
   * `getFeatureContexts`: the recorded mapping and its negation; a match
   * without a mapping makes Java's array access fail.
   */
  function FeatureContexts(m: PatternMatch): (r: Result<seq<FeatureContext>>)
    ensures r.Ok? <==> |m.mappings| >= 1
    ensures r.Err? ==> r.error == IndexOutOfBounds
    ensures r.Ok? ==> |r.value| == 2
    ensures r.Ok? ==> forall a: Assignment ::
      Eval(r.value[0].formula, a) == Eval(m.mappings[0], a) && Eval(r.value[1].formula, a) == !Eval(m.mappings[0], a)
  {
    if |m.mappings| == 0 then Err(IndexOutOfBounds)
    else Ok([FeatureContext(m.mappings[0]), FeatureContext(Not(m.mappings[0]))])
  }

  /**
   * The two contexts of a match split the configurations: each one satisfies
   * exactly one of them, the IF's or the ELSE's.
   */
  lemma ContextsOfMatchSplit(g: Graph, n: NodeId, a: Assignment)
    requires WellFormed(g) && n in g && Match(g, n).Ok? && Match(g, n).value.Some?
    ensures var r := FeatureContexts(Match(g, n).value.value);
      r.Ok? && Eval(r.value[0].formula, a) != Eval(r.value[1].formula, a) &&
      r.value[0].formula == FeatureMapping.FeatureMapping(g, AFTER, n).value
  {
  }
}
