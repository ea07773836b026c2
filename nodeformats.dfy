/**
 * Two node label formats: the full format, which writes every attribute of a
 * node on a line of its own, and the composite-pattern format used for mined
 * patterns, which writes an artifact's edit class or an annotation's kind.
 */
module NodeFormats {
  import opened Wrappers
  import opened Formulas
  import opened DiffTypes
  import opened DiffGraph
  import opened EditPatterns
  import Strings
  import Sat

  /** `getLabel`: the node's lines, separated by line breaks. */
  function Label(x: Node): (r: string)
    ensures x.lines == [] ==> r == ""
    ensures |x.lines| == 1 ==> r == x.lines[0]
  {
    Strings.Join(x.lines, LineBreak)
  }

  /**
   * The `toString` methods the full format calls on a line number and on a
   * formula; neither is part of this model, so they are parameters.
   */
  datatype Printers = Printers(lineNumber: DiffLineNumber -> string, formula: Formula -> string)

  /**
   * `FullNodeFormat.toMultilineLabel`: the change type, the node type, the
   * first and the last line number and the formula (empty where there is
   * none), followed by every label line unchanged.
   */
  function MultilineLabel(pr: Printers, x: Node): (r: seq<string>)
    ensures |r| == 5 + |x.lines|
    ensures r[0] == x.diffType.Name() && r[1] == x.nodeType.Name()
    ensures r[2] == pr.lineNumber(x.from) && r[3] == pr.lineNumber(x.to)
    ensures r[4] == (if x.formula.None? then "" else pr.formula(x.formula.value))
    ensures r[5..] == x.lines
  {
    [x.diffType.Name(), x.nodeType.Name(), pr.lineNumber(x.from), pr.lineNumber(x.to),
     if x.formula.None? then "" else pr.formula(x.formula.value)] + x.lines
  }

  /** `FullNodeFormat.toLabel`: the lines of `toMultilineLabel`, separated by semicolons. */
  function FullLabel(pr: Printers, x: Node): string
  {
    Strings.Join(MultilineLabel(pr, x), ";")
  }

  /** No line of the multi-line label holds a semicolon. */
  predicate SemicolonFree(pr: Printers, x: Node)
  {
    forall i :: 0 <= i < |MultilineLabel(pr, x)| ==> ';' !in MultilineLabel(pr, x)[i]
  }

  /**
   * Where no line holds a semicolon, splitting the one-line label at its
   * semicolons gives the multi-line label back, so the change type and the
   * node type are its first two fields and the label lines follow the fifth.
   */
  lemma FullLabelSplitsBack(pr: Printers, x: Node)
    requires SemicolonFree(pr, x)
    ensures Strings.SplitOn(FullLabel(pr, x), ';') == MultilineLabel(pr, x)
    ensures var fields := Strings.SplitOn(FullLabel(pr, x), ';');
      fields[0] == x.diffType.Name() && fields[1] == x.nodeType.Name() && fields[5..] == x.lines
  {
    Strings.SplitJoin(MultilineLabel(pr, x), ';');
  }

  /**
   * `RWCompositePatternNodeFormat.toLabel`: an artifact is written as the name
   * of the edit class `match` finds for it, a `<br>` and its label (and fails
   * where `match` fails); any other node as its change type, an underscore
   * and a text chosen by its node type.
   */
  function CompositeLabel(l: Sat.Logic, g: Graph, n: NodeId): (r: Result<string>)
    requires Acyclic(g, BEFORE) && Acyclic(g, AFTER) && n in g
    ensures g[n].IsArtifact() ==>
      (r.Ok? <==> Match(l, g, n).Ok?) &&
      (r.Ok? ==> r.value == Match(l, g, n).value.Name() + "<br>" + Label(g[n]))
    ensures !g[n].IsArtifact() ==> r.Ok? && g[n].diffType.Name() + "_" <= r.value
  {
    var x := g[n];
    if x.IsArtifact() then
      var p := Match(l, g, n);
      if p.Err? then Err(p.error) else Ok(p.value.Name() + "<br>" + Label(x))
    else
      Ok(x.diffType.Name() + "_" + AnnotationText(x))
  }

  /**
   * The text after the underscore for an annotation: `mapping<br> ` (with its
   * space) and the label for IF, `elif<br>` and the label for ELIF, just
   * `else` for ELSE, and otherwise the node type, `<br>` and the label.
   */
  function AnnotationText(x: Node): (r: string)
    ensures x.nodeType == IF ==> r == "mapping<br> " + Label(x)
    ensures x.nodeType == ELIF ==> r == "elif<br>" + Label(x)
    ensures x.nodeType == ELSE ==> r == "else"
    ensures x.nodeType == ROOT || x.nodeType == ARTIFACT ==> r == x.nodeType.Name() + "<br>" + Label(x)
  {
    match x.nodeType
    case IF => "mapping<br> " + Label(x)
    case ELSE => "else"
    case ELIF => "elif<br>" + Label(x)
    case _ => x.nodeType.Name() + "<br>" + Label(x)
  }

  /** Every change type's name has three letters. */
  lemma DiffTypeNameLength(d: DiffType)
    ensures |d.Name()| == 3
  {
  }

  /** The first and the third character of an annotation's text, by node type. */
  lemma AnnotationTextMarks(x: Node)
    requires x.nodeType != ARTIFACT
    ensures var s := AnnotationText(x);
      |s| >= 3 &&
      s[0] == (match x.nodeType case IF => 'm' case ROOT => 'R' case _ => 'e') &&
      s[2] == (match x.nodeType case IF => 'p' case ELIF => 'i' case ELSE => 's' case _ => 'O')
  {
  }

  /** Equal texts after equal prefixes are equal. */
  lemma SamePrefixSameRest(a: string, b: string, c: string)
    requires a + b == a + c
    ensures b == c
  {
    assert b == (a + b)[|a|..];
    assert c == (a + c)[|a|..];
  }

  /**
   * The text of an annotation determines its node type and, except for an
   * ELSE, its label.
   */
  lemma AnnotationTextInjective(x: Node, y: Node)
    requires x.nodeType != ARTIFACT && y.nodeType != ARTIFACT
    requires AnnotationText(x) == AnnotationText(y)
    ensures x.nodeType == y.nodeType
    ensures x.nodeType != ELSE ==> Label(x) == Label(y)
  {
    AnnotationTextMarks(x);
    AnnotationTextMarks(y);
    match x.nodeType
    case IF => SamePrefixSameRest("mapping<br> ", Label(x), Label(y));
    case ELIF => SamePrefixSameRest("elif<br>", Label(x), Label(y));
    case ROOT =>
      assert ROOT.Name() + "<br>" == "ROOT<br>";
      SamePrefixSameRest("ROOT<br>", Label(x), Label(y));
    case ELSE =>
  }

  /**
   * Two annotations with the same composite label agree on their change type
   * and their node type, and on their label unless they are ELSE nodes.
   */
  lemma CompositeLabelDeterminesTypes(l: Sat.Logic, g: Graph, n: NodeId, m: NodeId)
    requires Acyclic(g, BEFORE) && Acyclic(g, AFTER) && n in g && m in g
    requires !g[n].IsArtifact() && !g[m].IsArtifact()
    requires CompositeLabel(l, g, n) == CompositeLabel(l, g, m)
    ensures g[n].diffType == g[m].diffType && g[n].nodeType == g[m].nodeType
    ensures g[n].nodeType != ELSE ==> Label(g[n]) == Label(g[m])
  {
    var x, y := g[n], g[m];
    var s := CompositeLabel(l, g, n).value;
    DiffTypeNameLength(x.diffType);
    DiffTypeNameLength(y.diffType);
    assert s[..3] == x.diffType.Name() && s[..3] == y.diffType.Name();
    assert x.diffType == y.diffType;
    assert AnnotationText(x) == s[4..] == AnnotationText(y);
    AnnotationTextInjective(x, y);
  }

  /** The example of the format: an added ELSE is written `ADD_else`, whatever its lines. */
  lemma CompositeLabelOfAddedElse(l: Sat.Logic, g: Graph, n: NodeId)
    requires Acyclic(g, BEFORE) && Acyclic(g, AFTER) && n in g
    requires g[n].nodeType == ELSE && g[n].diffType == ADD
    ensures CompositeLabel(l, g, n) == Ok("ADD_else")
  {
    assert ADD.Name() + "_" + "else" == "ADD_else";
  }
}
