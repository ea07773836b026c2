/**
 * `DiffNode.getID` and `DiffNode.fromID`: a node's line number in the diff,
 * diff type and node type packed into one 32-bit Java `int`.
 */
module NodeIds {
  import opened Wrappers
  import opened Formulas
  import opened DiffTypes
  import opened DiffGraph

  const TwoTo31: int := 0x8000_0000
  const TwoTo32: int := 0x1_0000_0000

  /** A value of Java's `int` type. */
  predicate IsInt32(x: int) { -TwoTo31 <= x < TwoTo31 }

  /** Two's complement wrap-around of Java `int` arithmetic. */
  function Wrap32(x: int): (r: int)
    ensures IsInt32(r)
    ensures IsInt32(x) ==> r == x
    ensures (r - x) % TwoTo32 == 0
  {
    (x + TwoTo31) % TwoTo32 - TwoTo31
  }

  /** `ID_OFFSET`: the number of bits given to each type ordinal. */
  const IdOffset: nat := 3

  /** `x << 3` on a Java `int`. */
  function Shl3(x: int): int { Wrap32(x * 8) }

  /** `x << 6` on a Java `int`. */
  function Shl6(x: int): int { Wrap32(x * 64) }

  /** The range check of `getID`: shifting left by six and back loses no bits. */
  predicate IdLineCheck(lineNumber: int) { Shl6(lineNumber) / 64 == lineNumber }

  /** Exactly the 26-bit signed line numbers survive the check. */
  lemma IdLineCheckRange(lineNumber: int)
    requires IsInt32(lineNumber)
    ensures IdLineCheck(lineNumber) <==> -0x200_0000 <= lineNumber < 0x200_0000
  {
    var w := Shl6(lineNumber);
    if -0x200_0000 <= lineNumber < 0x200_0000 {
      assert IsInt32(lineNumber * 64);
    } else {
      assert (w - lineNumber * 64) % TwoTo32 == 0;
      var k := (w - lineNumber * 64) / TwoTo32;
      assert w == lineNumber * 64 + k * TwoTo32;
      assert w == (lineNumber + k * 0x400_0000) * 64;
      assert w / 64 == lineNumber + k * 0x400_0000;
      assert -0x200_0000 <= w / 64 < 0x200_0000;
    }
  }

  /** `getID`: fails its assertion if the line number does not fit into 26 bits. */
  function GetID(n: Node): (r: Result<int>)
    requires IsInt32(n.from.inDiff)
    ensures r.Ok? <==> -0x200_0000 <= n.from.inDiff + 1 < 0x200_0000
    ensures r.Ok? ==> IsInt32(r.value)
    ensures r.Ok? ==>
      r.value == (n.from.inDiff + 1) * 64 + n.diffType.Ordinal() * 8 + n.nodeType.Ordinal()
    ensures r.Err? ==> r.error == AssertionFailure
  {
    var lineNumber := Wrap32(1 + n.from.inDiff);
    assert lineNumber == 1 + n.from.inDiff || n.from.inDiff + 1 == TwoTo31;
    IdLineCheckRange(lineNumber);
    if !IdLineCheck(lineNumber) then Err(AssertionFailure)
    else
      var id := Shl3(Wrap32(Shl3(lineNumber) + n.diffType.Ordinal()));
      var id' := Wrap32(id + n.nodeType.Ordinal());
      assert IsInt32(lineNumber * 8);
      assert IsInt32((lineNumber * 8 + n.diffType.Ordinal()) * 8);
      Ok(id')
  }

  /** `fromID(id, label)`: rebuilds a root-less node from an id; the label is given as lines. */
  function FromID(id: int, lines: seq<string>): (r: Result<Node>)
    requires IsInt32(id)
    ensures r.Ok? <==> id % 8 < 5 && (id / 8) % 8 < 3
    ensures r.Err? ==> r.error == IndexOutOfBounds
    ensures r.Ok? ==>
      r.value.nodeType.Ordinal() == id % 8 && r.value.diffType.Ordinal() == (id / 8) % 8 &&
      r.value.from == DiffLineNumber(id / 64 - 1, InvalidLineNumber, InvalidLineNumber) &&
      r.value.to == InvalidLine() && r.value.lines == lines &&
      r.value.IsRoot() && r.value.childOrder == [] &&
      (r.value.formula == Some(True) <==> r.value.nodeType.IsConditionalAnnotation()) &&
      (r.value.formula.None? <==> !r.value.nodeType.IsConditionalAnnotation())
  {
    var nodeTypeOrdinal := id % 8;
    var diffTypeOrdinal := (id / 8) % 8;
    var fromInDiff := id / 64 - 1;
    if nodeTypeOrdinal >= 5 then Err(IndexOutOfBounds)
    else if diffTypeOrdinal >= 3 then Err(IndexOutOfBounds)
    else
      var nodeType := NodeTypeOfOrdinal(nodeTypeOrdinal);
      Ok(Node(
        DiffTypeOfOrdinal(diffTypeOrdinal),
        nodeType,
        DiffLineNumber(fromInDiff, InvalidLineNumber, InvalidLineNumber),
        InvalidLine(),
        if nodeType.IsConditionalAnnotation() then Some(True) else None,
        lines,
        None, None, []))
  }

  /**
   * `fromID(getID(n))` recovers the node type, the diff type and the line
   * number in the diff of every node whose line number fits into 26 bits.
   */
  lemma IdRoundTrip(n: Node, lines: seq<string>)
    requires IsInt32(n.from.inDiff) && -0x200_0000 <= n.from.inDiff + 1 < 0x200_0000
    ensures GetID(n).Ok?
    ensures FromID(GetID(n).value, lines).Ok?
    ensures FromID(GetID(n).value, lines).value.nodeType == n.nodeType
    ensures FromID(GetID(n).value, lines).value.diffType == n.diffType
    ensures FromID(GetID(n).value, lines).value.from.inDiff == n.from.inDiff
  {
    var id := GetID(n).value;
    var l := n.from.inDiff + 1;
    var d := n.diffType.Ordinal();
    var t := n.nodeType.Ordinal();
    assert id == (l * 8 + d) * 8 + t;
    assert id % 8 == t && id / 8 == l * 8 + d;
    assert (id / 8) % 8 == d && id / 64 == (id / 8) / 8 == l;
    NodeTypeOrdinalRoundTrip(n.nodeType);
    OrdinalRoundTrip(n.diffType);
  }

  /** Within the 26-bit range, nodes with equal ids agree on the three packed attributes. */
  lemma IdInjective(a: Node, b: Node)
    requires IsInt32(a.from.inDiff) && -0x200_0000 <= a.from.inDiff + 1 < 0x200_0000
    requires IsInt32(b.from.inDiff) && -0x200_0000 <= b.from.inDiff + 1 < 0x200_0000
    requires GetID(a) == GetID(b)
    ensures a.nodeType == b.nodeType && a.diffType == b.diffType && a.from.inDiff == b.from.inDiff
  {
    IdRoundTrip(a, []);
    IdRoundTrip(b, []);
  }
}
