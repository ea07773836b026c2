/**
 * The node labels of mined edit patterns: an artifact is written as `c`
 * followed by the index of its elementary pattern, any other node as `m`
 * followed by the ordinals of its change type and its node type; and the
 * decoding of such a label back into a node of a line graph.
 */
module MiningFormats {
  import opened Wrappers
  import opened Formulas
  import opened DiffTypes
  import opened DiffGraph
  import opened EditPatterns
  import Strings
  import Sat

  const CodePrefix: string := "c"
  const MacroPrefix: string := "m"

  /** The first index at or after `i` where `All` holds `p`. */
  function IndexFrom(p: Pattern, i: nat): (r: Result<nat>)
    requires i <= |All|
    ensures r.Ok? ==> i <= r.value < |All| && All[r.value] == p && forall j :: i <= j < r.value ==> All[j] != p
    ensures r.Err? ==> r.error == IllegalArgument && forall j :: i <= j < |All| ==> All[j] != p
    decreases |All| - i
  {
    if i == |All| then Err(IllegalArgument)
    else if p == All[i] then Ok(i)
    else IndexFrom(p, i + 1)
  }

  /** `toId`: the index of `p` in `All`; it cannot fail, because `All` lists every pattern. */
  function ToId(p: Pattern): (r: Result<nat>)
    ensures r.Ok? && r.value < |All| && All[r.value] == p
  {
    AllEnumerates(p);
    IndexFrom(p, 0)
  }

  /** `fromId`: `All.get(id)`. */
  function FromId(id: int): (r: Result<Pattern>)
    ensures r.Ok? <==> 0 <= id < |All|
    ensures r.Err? ==> r.error == IndexOutOfBounds
  {
    if 0 <= id < |All| then Ok(All[id]) else Err(IndexOutOfBounds)
  }

  /** `fromId(toId(p)) == p`, and `toId` is the inverse of `fromId` on the valid indices. */
  lemma IdRoundTrip(p: Pattern, id: int)
    ensures FromId(ToId(p).value) == Ok(p)
    ensures 0 <= id < |All| ==> ToId(FromId(id).value) == Ok(id)
  {
    AllEnumerates(p);
  }

  /**
   * `toLabel`: an artifact is labelled with the index of the pattern `match`
   * finds for it (and fails where `match` fails); any other node with its
   * change type and node type, a root counting as IF.
   */
  function ToLabel(l: Sat.Logic, g: Graph, n: NodeId): (r: Result<string>)
    requires Acyclic(g, BEFORE) && Acyclic(g, AFTER) && n in g
    ensures g[n].IsArtifact() ==>
      (r.Ok? <==> Match(l, g, n).Ok?) &&
      (r.Ok? ==> r.value == CodePrefix + Strings.NatToString(ToId(Match(l, g, n).value).value))
    ensures !g[n].IsArtifact() ==> r.Ok? && |r.value| == 3 && r.value[0] == 'm'
  {
    var x := g[n];
    if x.IsArtifact() then
      var p := Match(l, g, n);
      if p.Err? then Err(p.error)
      else Ok(CodePrefix + Strings.NatToString(ToId(p.value).value))
    else
      var t := if x.IsRoot() then IF else x.nodeType;
      Ok(MacroPrefix + Strings.NatToString(x.diffType.Ordinal()) + Strings.NatToString(t.Ordinal()))
  }

  /** The decoded pair of change type and node type. */
  datatype Types = Types(diffType: DiffType, nodeType: NodeType)

  /**
   * `fromEncodedTypes`: a `c` label is decoded through the pattern index
   * after it; an `m` label through the single digits at indices 1 and 2;
   * a decoded ROOT is rejected, and any other label fails the assertion.
   * Java evaluates the change type before the node type, so its errors come first.
   */
  function FromEncodedTypes(tag: string): (r: Result<Types>)
    ensures r.Ok? && CodePrefix <= tag ==> r.value.nodeType == ARTIFACT
    ensures r.Ok? && !(CodePrefix <= tag) ==>
      |tag| >= 3 && '0' <= tag[1] <= '2' && '1' <= tag[2] <= '4' &&
      r.value.diffType.Ordinal() == tag[1] as int - '0' as int &&
      r.value.nodeType.Ordinal() == tag[2] as int - '0' as int
    ensures r.Ok? ==> r.value.nodeType != ROOT
    ensures !(CodePrefix <= tag) && !(MacroPrefix <= tag) ==> r == Err(AssertionFailure)
  {
    if CodePrefix <= tag then
      var id := Strings.ParseInt(tag[|CodePrefix|..]);
      if id.Err? then Err(id.error)
      else
        var p := FromId(id.value);
        if p.Err? then Err(p.error)
        else Ok(Types(p.value.Type(), ARTIFACT))
    else if !(MacroPrefix <= tag) then Err(AssertionFailure)
    else
      var diffTypeBegin := |MacroPrefix|;
      var nodeTypeBegin := diffTypeBegin + 1;
      if |tag| < nodeTypeBegin then Err(IndexOutOfBounds)
      else
        var d := Strings.ParseInt(tag[diffTypeBegin..nodeTypeBegin]);
        if d.Err? then Err(d.error)
        else if !(0 <= d.value < 3) then Err(IndexOutOfBounds)
        else if |tag| < nodeTypeBegin + 1 then Err(IndexOutOfBounds)
        else
          var t := Strings.ParseInt(tag[nodeTypeBegin..nodeTypeBegin + 1]);
          if t.Err? then Err(t.error)
          else if !(0 <= t.value < 5) then Err(IndexOutOfBounds)
          else if NodeTypeOfOrdinal(t.value) == ROOT then Err(IllegalArgument)
          else Ok(Types(DiffTypeOfOrdinal(d.value), NodeTypeOfOrdinal(t.value)))
  }

  /** The one-digit decimal string of a value below ten parses back to it. */
  lemma ParseDigit(k: nat)
    requires k < 10
    ensures Strings.NatToString(k) == [Strings.DigitChar(k)]
    ensures Strings.ParseInt([Strings.DigitChar(k)]) == Ok(k)
  {
    Strings.ParseIntOfNatToString(k);
  }

  /** `fromEncodedTypes("c" + k)` is the change type of pattern `k`, with node type ARTIFACT. */
  lemma DecodeCodeLabel(k: nat)
    requires k < |All|
    ensures FromEncodedTypes(CodePrefix + Strings.NatToString(k)) == Ok(Types(All[k].Type(), ARTIFACT))
  {
    var tag := CodePrefix + Strings.NatToString(k);
    assert tag[|CodePrefix|..] == Strings.NatToString(k);
    Strings.ParseIntOfNatToString(k);
  }

  /**
   * An `m` label is decoded from its characters at indices 1 and 2 alone:
   * whatever follows them does not matter.
   */
  lemma MacroLabelIgnoresRest(tag: string, rest: string)
    requires |tag| == 3 && MacroPrefix <= tag && !(CodePrefix <= tag)
    ensures FromEncodedTypes(tag + rest) == FromEncodedTypes(tag)
  {
    var long := tag + rest;
    assert long[..3] == tag;
    assert long[1..2] == tag[1..2] && long[2..3] == tag[2..3];
  }

  /**
   * Round trip for every node that is no artifact: decoding its label gives
   * back its change type and its node type, IF for a root; a non-root node of
   * type ROOT is refused.
   */
  lemma MacroRoundTrip(l: Sat.Logic, g: Graph, n: NodeId)
    requires Acyclic(g, BEFORE) && Acyclic(g, AFTER) && n in g && !g[n].IsArtifact()
    ensures var t := if g[n].IsRoot() then IF else g[n].nodeType;
      FromEncodedTypes(ToLabel(l, g, n).value) ==
        if t == ROOT then Err(IllegalArgument) else Ok(Types(g[n].diffType, t))
  {
    var x := g[n];
    var t := if x.IsRoot() then IF else x.nodeType;
    var dc := Strings.DigitChar(x.diffType.Ordinal());
    var tc := Strings.DigitChar(t.Ordinal());
    ParseDigit(x.diffType.Ordinal());
    ParseDigit(t.Ordinal());
    var tag := ToLabel(l, g, n).value;
    assert tag == ['m', dc, tc];
    assert tag[1..2] == [dc] && tag[2..3] == [tc];
    OrdinalRoundTrip(x.diffType);
    NodeTypeOrdinalRoundTrip(t);
  }

  /** Round trip for an artifact that `match` classifies: its change type comes back, and type ARTIFACT. */
  lemma CodeRoundTrip(l: Sat.Logic, g: Graph, n: NodeId)
    requires Acyclic(g, BEFORE) && Acyclic(g, AFTER) && n in g && g[n].IsArtifact()
    requires Match(l, g, n).Ok?
    ensures FromEncodedTypes(ToLabel(l, g, n).value) == Ok(Types(g[n].diffType, ARTIFACT))
  {
    DecodeCodeLabel(ToId(Match(l, g, n).value).value);
  }

  /** The examples of the format's documentation: AddWithMapping gives `c1`, a removed ELSE gives `m23`. */
  lemma LabelExamples(l: Sat.Logic, g: Graph, n: NodeId, e: NodeId)
    requires Acyclic(g, BEFORE) && Acyclic(g, AFTER) && n in g && e in g
    requires g[n].IsArtifact() && Match(l, g, n) == Ok(AddWithMapping)
    requires g[e].nodeType == ELSE && g[e].diffType == REM && !g[e].IsRoot()
    ensures ToLabel(l, g, n) == Ok("c1")
    ensures ToLabel(l, g, e) == Ok("m23")
  {
    assert ToId(AddWithMapping).value == 1;
    ParseDigit(1);
    ParseDigit(2);
    ParseDigit(3);
    assert Strings.DigitChar(1) == '1' && Strings.DigitChar(2) == '2' && Strings.DigitChar(3) == '3';
    assert ToLabel(l, g, n).value == CodePrefix + "1";
    assert ToLabel(l, g, e).value == MacroPrefix + "2" + "3";
    assert CodePrefix + "1" == "c1" && MacroPrefix + "2" + "3" == "m23";
  }

  /**
   * `MiningNodeFormat.fromLabelAndId`: the two types come from the label
   * alone; both line numbers are the id in all three coordinates; the node has
   * no label lines and no parents; an artifact has no formula and every other
   * node the formula True.
   */
  function FromLabelAndId(nodeLabel: string, nodeId: int): (r: Result<Node>)
    ensures r.Ok? <==> FromEncodedTypes(nodeLabel).Ok?
    ensures r.Ok? ==>
      var ts := FromEncodedTypes(nodeLabel).value;
      r.value.diffType == ts.diffType && r.value.nodeType == ts.nodeType &&
      r.value.from == DiffLineNumber(nodeId, nodeId, nodeId) && r.value.to == r.value.from &&
      r.value.lines == [] && r.value.IsRoot() && r.value.childOrder == [] &&
      (r.value.formula.None? <==> ts.nodeType == ARTIFACT) &&
      (r.value.formula.Some? ==> r.value.formula.value == True)
  {
    var line := DiffLineNumber(nodeId, nodeId, nodeId);
    var types := FromEncodedTypes(nodeLabel);
    if types.Err? then Err(types.error)
    else if types.value.nodeType == ARTIFACT then Ok(CreateArtifact(types.value.diffType, line, line, []))
    else Ok(Node(types.value.diffType, types.value.nodeType, line, line, Some(True), [], None, None, []))
  }

  /**
   * Writing a node that is no artifact (and not of type ROOT) and reading it
   * back keeps its change type and its node type; the line numbers become the id.
   */
  lemma LineGraphRoundTrip(l: Sat.Logic, g: Graph, n: NodeId, id: int)
    requires Acyclic(g, BEFORE) && Acyclic(g, AFTER) && n in g && !g[n].IsArtifact() && g[n].nodeType != ROOT
    ensures var r := FromLabelAndId(ToLabel(l, g, n).value, id);
      r.Ok? && r.value.diffType == g[n].diffType &&
      r.value.nodeType == (if g[n].IsRoot() then IF else g[n].nodeType) &&
      r.value.formula == Some(True)
  {
    MacroRoundTrip(l, g, n);
  }
}
