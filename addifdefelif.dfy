/**
 * The semantic pattern AddIfdefElifSEM: an added IF with added code whose
 * last added ELIF child starts a chain of added ELIF/ELSE annotations, each
 * of which has added code of its own.
 */
module AddIfdefElif {
  import opened Wrappers
  import opened Formulas
  import opened DiffTypes
  import opened DiffGraph
  import opened SemanticPatterns
  import FeatureMapping

  const PatternName: string := "AddIfdefElifSEM"

  /** The annotation `isValidElif` continues with below `n`: its last added ELIF or ELSE child. */
  function Next(g: Graph, n: NodeId): (r: Option<NodeId>)
    requires n in g
    ensures r.Some? ==> r.value in g[n].childOrder && AddedOf(g, r.value, {ELIF, ELSE})
  {
    LastAdded(g, g[n].childOrder, {ELIF, ELSE})
  }

  /**
   * The annotations `isValidElif` visits from `n`: it goes on below a node
   * exactly when that node has added code and a next annotation.
   */
  ghost function Chain(g: Graph, n: NodeId): (r: seq<NodeId>)
    requires WellFormed(g) && n in g
    ensures |r| >= 1 && r[0] == n
    ensures forall i :: 0 <= i < |r| ==> r[i] in g
    ensures forall i :: 0 <= i < |r| - 1 ==>
      HasAddedArtifact(g, g[r[i]].childOrder) && Next(g, r[i]) == Some(r[i + 1])
    ensures !HasAddedArtifact(g, g[r[|r| - 1]].childOrder) || Next(g, r[|r| - 1]).None?
    decreases |g| - Height(g, AFTER, n)
  {
    var next := Next(g, n);
    if HasAddedArtifact(g, g[n].childOrder) && next.Some? then
      AddedChildHeight(g, n, next.value);
      [n] + Chain(g, next.value)
    else [n]
  }

  /**
   * `isValidElif(n, mappings)`: the truth value it returns and the mappings
   * list as it leaves it. Before going on below `n` it appends `n`'s AFTER
   * feature mapping, so an exception there ends the search.
   */
  function ValidElif(g: Graph, n: NodeId, mappings: seq<Formula>): (r: Result<(bool, seq<Formula>)>)
    requires WellFormed(g) && n in g
    decreases |g| - Height(g, AFTER, n)
  {
    var addedCode := HasAddedArtifact(g, g[n].childOrder);
    var next := Next(g, n);
    if addedCode && next.Some? then
      var fm := FeatureMapping.FeatureMapping(g, AFTER, n);
      if fm.Err? then Err(fm.error)
      else
        AddedChildHeight(g, n, next.value);
        ValidElif(g, next.value, mappings + [fm.value])
    else Ok((addedCode, mappings))
  }

  /** The AFTER feature mappings of the nodes `ns` succeed and are `fms`. */
  ghost predicate MappingsAre(g: Graph, ns: seq<NodeId>, fms: seq<Formula>)
    requires Acyclic(g, AFTER) && forall i :: 0 <= i < |ns| ==> ns[i] in g
  {
    |fms| == |ns| && forall i :: 0 <= i < |ns| ==> FeatureMapping.FeatureMapping(g, AFTER, ns[i]) == Ok(fms[i])
  }

  /** The AFTER feature mappings of all nodes of the chain `c` but the last succeed. */
  ghost predicate ChainMapped(g: Graph, c: seq<NodeId>)
    requires Acyclic(g, AFTER) && forall i :: 0 <= i < |c| ==> c[i] in g
  {
    forall i :: 0 <= i < |c| - 1 ==> FeatureMapping.FeatureMapping(g, AFTER, c[i]).Ok?
  }

  /** Every node of the chain `c` has an added artifact among its children. */
  ghost predicate ChainHasCode(g: Graph, c: seq<NodeId>)
    requires forall i :: 0 <= i < |c| ==> c[i] in g
  {
    forall i :: 0 <= i < |c| ==> HasAddedArtifact(g, g[c[i]].childOrder)
  }

  /** `isValidElif` fails exactly when the feature mapping of a chain node other than the last one fails. */
  lemma {:induction false} ValidElifFails(g: Graph, n: NodeId, mappings: seq<Formula>)
    requires WellFormed(g) && n in g
    ensures ValidElif(g, n, mappings).Ok? <==> ChainMapped(g, Chain(g, n))
    decreases |g| - Height(g, AFTER, n)
  {
    var c := Chain(g, n);
    var next := Next(g, n);
    if HasAddedArtifact(g, g[n].childOrder) && next.Some? {
      AddedChildHeight(g, n, next.value);
      var fm := FeatureMapping.FeatureMapping(g, AFTER, n);
      var c' := Chain(g, next.value);
      assert c == [n] + c';
      assert forall i :: 0 <= i < |c'| ==> c'[i] == c[i + 1];
      if fm.Ok? {
        ValidElifFails(g, next.value, mappings + [fm.value]);
        assert ChainMapped(g, c) <==> ChainMapped(g, c') by {
          if ChainMapped(g, c') {
            forall i | 0 <= i < |c| - 1 ensures FeatureMapping.FeatureMapping(g, AFTER, c[i]).Ok? {
              if i > 0 { assert c[i] == c'[i - 1]; }
            }
          }
        }
      } else {
        assert c[0] == n;
      }
    }
  }

  /** Where `isValidElif` succeeds, it answers whether every node of its chain has added code. */
  lemma {:induction false} ValidElifAnswer(g: Graph, n: NodeId, mappings: seq<Formula>)
    requires WellFormed(g) && n in g && ValidElif(g, n, mappings).Ok?
    ensures ValidElif(g, n, mappings).value.0 <==> ChainHasCode(g, Chain(g, n))
    decreases |g| - Height(g, AFTER, n)
  {
    var c := Chain(g, n);
    var next := Next(g, n);
    if HasAddedArtifact(g, g[n].childOrder) && next.Some? {
      AddedChildHeight(g, n, next.value);
      var fm := FeatureMapping.FeatureMapping(g, AFTER, n);
      var c' := Chain(g, next.value);
      assert c == [n] + c';
      assert forall i :: 0 <= i < |c'| ==> c'[i] == c[i + 1];
      ValidElifAnswer(g, next.value, mappings + [fm.value]);
    } else {
      assert c == [n];
    }
  }

  /** A sequence that starts with `xs + [x]` starts with `xs`, followed by `x`. */
  lemma ExtendedPrefix<T>(xs: seq<T>, x: T, s: seq<T>)
    requires |xs| + 1 <= |s| && s[..|xs| + 1] == xs + [x]
    ensures s[..|xs|] == xs && s[|xs|..] == [x] + s[|xs| + 1..]
  {
    assert s[..|xs|] == s[..|xs| + 1][..|xs|];
    assert s[|xs|] == (xs + [x])[|xs|];
  }

  /** All but the last element of `[x] + s`, for a non-empty `s`. */
  lemma ConsButLast<T>(x: T, s: seq<T>)
    requires |s| >= 1
    ensures ([x] + s)[..|s|] == [x] + s[..|s| - 1]
  {
  }

  /** Prepending a node and its mapping keeps `MappingsAre`. */
  lemma MappingsAreCons(g: Graph, n: NodeId, ns: seq<NodeId>, fm: Formula, fms: seq<Formula>)
    requires Acyclic(g, AFTER) && n in g && forall i :: 0 <= i < |ns| ==> ns[i] in g
    requires FeatureMapping.FeatureMapping(g, AFTER, n) == Ok(fm) && MappingsAre(g, ns, fms)
    ensures MappingsAre(g, [n] + ns, [fm] + fms)
  {
    var ns', fms' := [n] + ns, [fm] + fms;
    forall i | 0 <= i < |ns'| ensures FeatureMapping.FeatureMapping(g, AFTER, ns'[i]) == Ok(fms'[i]) {
      if i > 0 { assert ns'[i] == ns[i - 1] && fms'[i] == fms[i - 1]; }
    }
  }

  /**
   * Where `isValidElif` succeeds, it has appended to `mappings` the feature
   * mappings of all nodes of its chain but the last, in chain order.
   */
  lemma {:induction false} ValidElifMappings(g: Graph, n: NodeId, mappings: seq<Formula>)
    requires WellFormed(g) && n in g && ValidElif(g, n, mappings).Ok?
    ensures var c := Chain(g, n);
      var m := ValidElif(g, n, mappings).value.1;
      |mappings| <= |m| && m[..|mappings|] == mappings && MappingsAre(g, c[..|c| - 1], m[|mappings|..])
    decreases |g| - Height(g, AFTER, n)
  {
    var c := Chain(g, n);
    var next := Next(g, n);
    if HasAddedArtifact(g, g[n].childOrder) && next.Some? {
      AddedChildHeight(g, n, next.value);
      var fm := FeatureMapping.FeatureMapping(g, AFTER, n).value;
      var c' := Chain(g, next.value);
      var m' := mappings + [fm];
      ValidElifMappings(g, next.value, m');
      assert ValidElif(g, n, mappings) == ValidElif(g, next.value, m');
      var rest := ValidElif(g, next.value, m').value.1;
      ExtendedPrefix(mappings, fm, rest);
      assert c == [n] + c';
      ConsButLast(n, c');
      MappingsAreCons(g, n, c'[..|c'| - 1], fm, rest[|m'|..]);
    } else {
      assert c == [n];
      assert mappings[|mappings|..] == [];
    }
  }

  /**
   * `getMatches`: nothing unless the node is an added IF; its AFTER feature
   * mapping starts the mappings; there is a match only if it has added code,
   * an added ELIF child, and the chain from its last added ELIF child is valid.
   * The match spans the IF's diff lines.
   */
  function Matches(g: Graph, n: NodeId): (r: Result<seq<PatternMatch>>)
    requires WellFormed(g) && n in g
    ensures r.Ok? ==> |r.value| <= 1
    ensures !(g[n].diffType == ADD && g[n].IsIf()) ==> r == Ok([])
  {
    var x := g[n];
    if !(x.diffType == ADD && x.IsIf()) then Ok([])
    else
      var addedCodeInIf := HasAddedArtifact(g, x.childOrder);
      var elif := LastAdded(g, x.childOrder, {ELIF});
      var fm := FeatureMapping.FeatureMapping(g, AFTER, n);
      if fm.Err? then Err(fm.error)
      else if elif.None? || !addedCodeInIf then Ok([])
      else
        var v := ValidElif(g, elif.value, [fm.value]);
        if v.Err? then Err(v.error)
        else if !v.value.0 then Ok([])
        else Ok([PatternMatch(PatternName, x.from.inDiff, x.to.inDiff, v.value.1)])
  }

  /**
   * An added IF whose feature mappings along the chain succeed matches
   * exactly when it has added code, has an added ELIF child, and every node of
   * the chain from its last added ELIF child has added code. The match then
   * spans the IF's lines and records the IF's own mapping followed by those of
   * the chain nodes but the last, one per annotation.
   */
  lemma MatchesChain(g: Graph, n: NodeId)
    requires WellFormed(g) && n in g && g[n].diffType == ADD && g[n].IsIf()
    requires FeatureMapping.FeatureMapping(g, AFTER, n).Ok?
    requires LastAdded(g, g[n].childOrder, {ELIF}).Some?
    ensures var elif := LastAdded(g, g[n].childOrder, {ELIF}).value;
      var c := Chain(g, elif);
      var r := Matches(g, n);
      ChainMapped(g, c) ==>
        r.Ok? &&
        (|r.value| == 1 <==> HasAddedArtifact(g, g[n].childOrder) && ChainHasCode(g, c)) &&
        (|r.value| == 1 ==>
          var m := r.value[0];
          m.fromLine == g[n].from.inDiff && m.toLine == g[n].to.inDiff && |m.mappings| >= 1 &&
          m.mappings[0] == FeatureMapping.FeatureMapping(g, AFTER, n).value &&
          MappingsAre(g, c[..|c| - 1], m.mappings[1..]))
  {
    var elif := LastAdded(g, g[n].childOrder, {ELIF}).value;
    assert elif in g;
    var fm := FeatureMapping.FeatureMapping(g, AFTER, n).value;
    ValidElifFails(g, elif, [fm]);
    if ValidElif(g, elif, [fm]).Ok? {
      ValidElifAnswer(g, elif, [fm]);
      ValidElifMappings(g, elif, [fm]);
    }
  }

  /**
   * `isValidElif` as a recursive method: `mappings` is the list it appends
   * to, passed in and handed back.
   */
  method IsValidElif(g: Graph, n: NodeId, mappings: seq<Formula>) returns (r: Result<(bool, seq<Formula>)>)
    requires WellFormed(g) && n in g
    ensures r == ValidElif(g, n, mappings)
    decreases |g| - Height(g, AFTER, n)
  {
    var addedCode, next := ScanChildren(g, g[n].childOrder, {ELIF, ELSE});
    if addedCode && next.Some? {
      var fm := FeatureMapping.FeatureMapping(g, AFTER, n);
      if fm.Err? {
        return Err(fm.error);
      }
      AddedChildHeight(g, n, next.value);
      r := IsValidElif(g, next.value, mappings + [fm.value]);
      return;
    }
    return Ok((addedCode, mappings));
  }

  /** `getMatches` with its loop over the IF's children. */
  method GetMatches(g: Graph, n: NodeId) returns (r: Result<seq<PatternMatch>>)
    requires WellFormed(g) && n in g
    ensures r == Matches(g, n)
  {
    var x := g[n];
    if !(x.diffType == ADD && x.IsIf()) {
      return Ok([]);
    }
    var addedCodeInIf, elif := ScanChildren(g, x.childOrder, {ELIF});
    var fm := FeatureMapping.FeatureMapping(g, AFTER, n);
    if fm.Err? {
      return Err(fm.error);
    }
    if elif.None? || !addedCodeInIf {
      return Ok([]);
    }
    var v := IsValidElif(g, elif.value, [fm.value]);
    if v.Err? {
      return Err(v.error);
    }
    if !v.value.0 {
      return Ok([]);
    }
    return Ok([PatternMatch(PatternName, x.from.inDiff, x.to.inDiff, v.value.1)]);
  }

  /** `getFeatureContexts`: one context per recorded mapping, in the same order. */
  method GetFeatureContexts(m: PatternMatch) returns (r: array<FeatureContext>)
    ensures fresh(r) && r.Length == |m.mappings|
    ensures forall i :: 0 <= i < r.Length ==> r[i] == FeatureContext(m.mappings[i])
  {
    r := new FeatureContext[|m.mappings|](_ => FeatureContext(True));
    for i := 0 to r.Length
      invariant forall j :: 0 <= j < i ==> r[j] == FeatureContext(m.mappings[j])
    {
      r[i] := FeatureContext(m.mappings[i]);
    }
  }
}
