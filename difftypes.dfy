/**
 * The enumerations a variation-diff node is built from: the two points in time
 * of an edit, the kind of change, the kind of node, and line numbers.
 */
module DiffTypes {

  /** Before or after the edit. */
  datatype Time = BEFORE | AFTER
  {
    /** `Time.other()`. */
    function Other(): (r: Time)
      ensures r != this
    {
      if this == BEFORE then AFTER else BEFORE
    }
  }

  /** Inserted, unchanged or removed. */
  datatype DiffType = ADD | NON | REM
  {
    /** `existsAtTime`: added elements exist only after, removed ones only before the edit. */
    predicate ExistsAtTime(t: Time)
    {
      match this
      case ADD => t == AFTER
      case REM => t == BEFORE
      case NON => true
    }

    /** The symbol that prefixes a line of this kind in a text-based diff. */
    function Symbol(): string
    {
      match this
      case ADD => "+"
      case REM => "-"
      case NON => " "
    }

    /** The enum constant's name, as `toString` prints it. */
    function Name(): string
    {
      match this
      case ADD => "ADD"
      case REM => "REM"
      case NON => "NON"
    }

    /** The declaration index of the constant (ADD = 0, NON = 1, REM = 2). */
    function Ordinal(): (r: nat)
      ensures r < 3
    {
      match this
      case ADD => 0
      case NON => 1
      case REM => 2
    }
  }

  /** `DiffType.values()[i]`. */
  function DiffTypeOfOrdinal(i: nat): (r: DiffType)
    requires i < 3
    ensures r.Ordinal() == i
  {
    if i == 0 then ADD else if i == 1 then NON else REM
  }

  /** `DiffType.thatExistsOnlyAt(t)`. */
  function ThatExistsOnlyAt(t: Time): (r: DiffType)
    ensures r.ExistsAtTime(t) && !r.ExistsAtTime(t.Other())
  {
    if t == BEFORE then REM else ADD
  }

  lemma OrdinalRoundTrip(d: DiffType)
    ensures DiffTypeOfOrdinal(d.Ordinal()) == d
  {
  }

  /** The kind of a node: the root, a conditional annotation, an else branch, or an artifact. */
  datatype NodeType = ROOT | IF | ELIF | ELSE | ARTIFACT
  {
    /** `isConditionalAnnotation`: annotations that carry a formula of their own. */
    predicate IsConditionalAnnotation() { this == IF || this == ELIF }

    /** `isAnnotation`: everything except an artifact. */
    predicate IsAnnotation() { this != ARTIFACT }

    /** The enum constant's name, as `toString` prints it. */
    function Name(): string
    {
      match this
      case ROOT => "ROOT"
      case IF => "IF"
      case ELIF => "ELIF"
      case ELSE => "ELSE"
      case ARTIFACT => "ARTIFACT"
    }

    /** The declaration index of the constant (ROOT = 0, IF = 1, ELIF = 2, ELSE = 3, ARTIFACT = 4). */
    function Ordinal(): (r: nat)
      ensures r < 5
    {
      match this
      case ROOT => 0
      case IF => 1
      case ELIF => 2
      case ELSE => 3
      case ARTIFACT => 4
    }
  }

  /** `NodeType.values()[i]`. */
  function NodeTypeOfOrdinal(i: nat): (r: NodeType)
    requires i < 5
    ensures r.Ordinal() == i
  {
    if i == 0 then ROOT else if i == 1 then IF else if i == 2 then ELIF else if i == 3 then ELSE else ARTIFACT
  }

  lemma NodeTypeOrdinalRoundTrip(n: NodeType)
    ensures NodeTypeOfOrdinal(n.Ordinal()) == n
  {
  }

  /** A line number in the diff, before the edit and after the edit. */
  datatype DiffLineNumber = DiffLineNumber(inDiff: int, beforeEdit: int, afterEdit: int)

  /** `DiffLineNumber.InvalidLineNumber`. */
  const InvalidLineNumber: int := -1

  /** `DiffLineNumber.Invalid()`. */
  function InvalidLine(): DiffLineNumber
  {
    DiffLineNumber(InvalidLineNumber, InvalidLineNumber, InvalidLineNumber)
  }
}
