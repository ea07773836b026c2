/**
 * The helpers that metadata objects use to merge their values and to print
 * themselves as `name: value` lines. A Java `null` is `None`.
 */
module Metadata {
  import opened Wrappers
  import Strings

  /**
   * `mergeEqual`: `None` is neutral; two present values must be equal, and
   * `Assert.assertTrue` fails otherwise. The merge is the present value, if any.
   */
  function MergeEqual<T(==)>(a: Option<T>, b: Option<T>): (r: Result<Option<T>>)
    ensures b.None? ==> r == Ok(a)
    ensures r.Ok? <==> a.None? || b.None? || a == b
    ensures r.Err? ==> r.error == AssertionFailure
    ensures r.Ok? && a.Some? ==> r.value == a
    ensures r.Ok? && b.Some? ==> r.value == b
    ensures r.Ok? && a.None? && b.None? ==> r.value.None?
  {
    if b.None? then Ok(a)
    else if a.Some? && a != b then Err(AssertionFailure)
    else Ok(b)
  }

  /** Merging with a failure propagates the failure. */
  function ThenMergeEqual<T(==)>(r: Result<Option<T>>, c: Option<T>): (s: Result<Option<T>>)
    ensures r.Err? ==> s == r
  {
    if r.Err? then r else MergeEqual(r.value, c)
  }

  /** `mergeEqual` is commutative and idempotent. */
  lemma MergeEqualCommutes<T>(a: Option<T>, b: Option<T>)
    ensures MergeEqual(a, b) == MergeEqual(b, a)
    ensures MergeEqual(a, a) == Ok(a)
  {
  }

  /** Merging three values gives the same outcome in either grouping. */
  lemma MergeEqualAssociates<T>(a: Option<T>, b: Option<T>, c: Option<T>)
    ensures ThenMergeEqual(MergeEqual(a, b), c) ==
      (var bc := MergeEqual(b, c); if bc.Err? then bc else MergeEqual(a, bc.value))
  {
  }

  /**
   * `mergeIfEqualElse`: `None` is neutral on either side; two equal present
   * values merge to the first, and `ifUnequal` is applied only to two unequal ones.
   */
  function MergeIfEqualElse<T(==)>(a: Option<T>, b: Option<T>, ifUnequal: (T, T) -> T): (r: Option<T>)
    ensures b.None? ==> r == a
    ensures a.None? ==> r == b
    ensures a.Some? && b.Some? && a == b ==> r == a
    ensures a.Some? && b.Some? && a != b ==> r == Some(ifUnequal(a.value, b.value))
  {
    if b.None? then a
    else if a.None? then b
    else if a == b then a
    else Some(ifUnequal(a.value, b.value))
  }

  /**
   * Where `mergeEqual` succeeds, `mergeIfEqualElse` agrees with it whatever
   * the operator for unequal values: that operator is never used.
   */
  lemma MergeIfEqualElseExtends<T>(a: Option<T>, b: Option<T>, ifUnequal: (T, T) -> T)
    requires MergeEqual(a, b).Ok?
    ensures MergeIfEqualElse(a, b, ifUnequal) == MergeEqual(a, b).value
  {
  }

  /** With a commutative operator, `mergeIfEqualElse` is commutative. */
  lemma MergeIfEqualElseCommutes<T>(a: Option<T>, b: Option<T>, ifUnequal: (T, T) -> T)
    requires forall x, y :: ifUnequal(x, y) == ifUnequal(y, x)
    ensures MergeIfEqualElse(a, b, ifUnequal) == MergeIfEqualElse(b, a, ifUnequal)
  {
  }

  /** `show(name, value)`: one `name: value` line. */
  function Show<V>(name: string, value: V, toString: V -> string): (r: string)
    ensures |r| == |name| + 2 + |toString(value)| + 1
    ensures r[..|name|] == name && r[|name|..|name| + 2] == ": " && r[|r| - 1] == '\n'
    ensures r[|name| + 2..|r| - 1] == toString(value)
  {
    name + ": " + toString(value) + "\n"
  }

  /** `show(properties)`: the lines of all entries, in iteration order. */
  function ShowEntries<V>(entries: seq<(string, V)>, toString: V -> string): string
    decreases |entries|
  {
    if entries == [] then "" else Show(entries[0].0, entries[0].1, toString) + ShowEntries(entries[1..], toString)
  }

  /** The text of an entry list followed by another is the two texts one after the other. */
  lemma {:induction false} ShowEntriesAppend<V>(a: seq<(string, V)>, b: seq<(string, V)>, toString: V -> string)
    ensures ShowEntries(a + b, toString) == ShowEntries(a, toString) + ShowEntries(b, toString)
    decreases |a|
  {
    if a == [] {
      assert a + b == b;
    } else {
      assert (a + b)[0] == a[0];
      assert (a + b)[1..] == a[1..] + b;
      ShowEntriesAppend(a[1..], b, toString);
    }
  }

  /** `show(properties)`: the loop that appends each entry's line to a string builder. */
  method ShowAll<V>(entries: seq<(string, V)>, toString: V -> string) returns (result: string)
    ensures result == ShowEntries(entries, toString)
  {
    result := "";
    for i := 0 to |entries|
      invariant result == ShowEntries(entries[..i], toString)
    {
      ShowEntriesAppend(entries[..i], [entries[i]], toString);
      assert entries[..i + 1] == entries[..i] + [entries[i]];
      assert ShowEntries([entries[i]], toString) == Show(entries[i].0, entries[i].1, toString) + ShowEntries([], toString);
      result := result + Show(entries[i].0, entries[i].1, toString);
    }
    assert entries[..|entries|] == entries;
  }

  /** The lines `show(properties)` prints, without their line breaks. */
  function Lines<V>(entries: seq<(string, V)>, toString: V -> string): (r: seq<string>)
    ensures |r| == |entries|
    ensures forall i :: 0 <= i < |r| ==> r[i] == entries[i].0 + ": " + toString(entries[i].1)
    decreases |entries|
  {
    if entries == [] then [] else [entries[0].0 + ": " + toString(entries[0].1)] + Lines(entries[1..], toString)
  }

  /** The printed text is its lines, each ended by a line break. */
  lemma {:induction false} ShowEntriesIsLines<V>(entries: seq<(string, V)>, toString: V -> string)
    ensures ShowEntries(entries, toString) == Strings.Join(Lines(entries, toString) + [""], "\n")
    decreases |entries|
  {
    if entries != [] {
      ShowEntriesIsLines(entries[1..], toString);
      var ls := Lines(entries, toString);
      assert ls + [""] == [ls[0]] + (Lines(entries[1..], toString) + [""]);
    }
  }

  /** No printed line holds a line break when no name and no printed value does. */
  lemma LinesHaveNoBreak<V>(entries: seq<(string, V)>, toString: V -> string)
    requires forall i :: 0 <= i < |entries| ==> '\n' !in entries[i].0 && '\n' !in toString(entries[i].1)
    ensures forall i :: 0 <= i < |entries| ==> '\n' !in Lines(entries, toString)[i]
  {
    var ls := Lines(entries, toString);
    forall i | 0 <= i < |entries| ensures '\n' !in ls[i] {
      var n, v := entries[i].0, toString(entries[i].1);
      assert ls[i] == (n + ": ") + v;
      assert '\n' !in ": ";
    }
  }

  /**
   * Where no name and no printed value holds a line break, splitting the
   * printed text at line breaks gives back one line per entry, in order,
   * followed by the empty piece after the last break.
   */
  lemma ShowEntriesSplitsBack<V>(entries: seq<(string, V)>, toString: V -> string)
    requires forall i :: 0 <= i < |entries| ==> '\n' !in entries[i].0 && '\n' !in toString(entries[i].1)
    ensures Strings.SplitOn(ShowEntries(entries, toString), '\n') == Lines(entries, toString) + [""]
  {
    var ps := Lines(entries, toString) + [""];
    var text := ShowEntries(entries, toString);
    assert text == Strings.Join(ps, ['\n']) by {
      ShowEntriesIsLines(entries, toString);
    }
    assert forall i :: 0 <= i < |ps| ==> '\n' !in ps[i] by {
      LinesHaveNoBreak(entries, toString);
    }
    Strings.SplitJoin(ps, '\n');
  }
}
