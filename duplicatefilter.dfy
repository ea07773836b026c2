/**
 * The duplicate filter: keeps each tree of a list unless it is equal, under
 * a given equality test, to a tree kept before it.
 */
module DuplicateFilter {

  /** No tree of `kept` is equal to `candidate` (`distinct.stream().noneMatch(t -> equality(candidate, t))`). */
  predicate NoneMatch<T>(equality: (T, T) -> bool, candidate: T, kept: seq<T>)
  {
    forall i :: 0 <= i < |kept| ==> !equality(candidate, kept[i])
  }

  /** The list `filterDuplicates` returns for `trees`. */
  function Filtered<T>(equality: (T, T) -> bool, trees: seq<T>): (r: seq<T>)
    ensures |r| <= |trees|
    ensures trees == [] <==> r == []
    decreases |trees|
  {
    if trees == [] then []
    else
      var kept := Filtered(equality, trees[..|trees| - 1]);
      if NoneMatch(equality, trees[|trees| - 1], kept) then kept + [trees[|trees| - 1]] else kept
  }

  /** `a` is `b` with some elements left out, the rest in their order. */
  ghost predicate Subsequence<T>(a: seq<T>, b: seq<T>)
    decreases |b|
  {
    if a == [] then true
    else if b == [] then false
    else (a[|a| - 1] == b[|b| - 1] && Subsequence(a[..|a| - 1], b[..|b| - 1])) || Subsequence(a, b[..|b| - 1])
  }

  /** The empty list is a subsequence of any list. */
  lemma EmptySubsequence<T>(b: seq<T>)
    ensures Subsequence([], b)
  {
  }

  /** The result is a subsequence of the input: trees keep their order, none is invented. */
  lemma {:induction false} FilteredSubsequence<T>(equality: (T, T) -> bool, trees: seq<T>)
    ensures Subsequence(Filtered(equality, trees), trees)
    decreases |trees|
  {
    if trees != [] {
      var front := trees[..|trees| - 1];
      FilteredSubsequence(equality, front);
      var kept := Filtered(equality, front);
      if NoneMatch(equality, trees[|trees| - 1], kept) {
        assert (kept + [trees[|trees| - 1]])[..|kept|] == kept;
      } else if kept != [] {
        assert Filtered(equality, trees) == kept;
      }
    }
  }

  /** The result for a prefix of the input is a prefix of the result. */
  lemma {:induction false} FilteredPrefix<T>(equality: (T, T) -> bool, trees: seq<T>, k: nat)
    requires k <= |trees|
    ensures Filtered(equality, trees[..k]) <= Filtered(equality, trees)
    decreases |trees| - k
  {
    if k < |trees| {
      FilteredPrefix(equality, trees[..|trees| - 1], k);
      assert trees[..|trees| - 1][..k] == trees[..k];
    } else {
      assert trees[..k] == trees;
    }
  }

  /** No tree of `r` is equal to a tree before it. */
  predicate Distinct<T>(equality: (T, T) -> bool, r: seq<T>)
  {
    forall i, j :: 0 <= i < j < |r| ==> !equality(r[j], r[i])
  }

  /** No kept tree is equal to a tree kept before it. */
  lemma {:induction false} FilteredDistinct<T>(equality: (T, T) -> bool, trees: seq<T>)
    ensures Distinct(equality, Filtered(equality, trees))
    decreases |trees|
  {
    if trees != [] {
      var kept := Filtered(equality, trees[..|trees| - 1]);
      FilteredDistinct(equality, trees[..|trees| - 1]);
      var x := trees[|trees| - 1];
      if NoneMatch(equality, x, kept) {
        var r := kept + [x];
        forall i, j | 0 <= i < j < |r| ensures !equality(r[j], r[i]) {
          if j == |kept| {
            assert r[j] == x && r[i] == kept[i];
            assert !equality(x, kept[i]);
          } else {
            assert r[j] == kept[j] && r[i] == kept[i];
            assert !equality(kept[j], kept[i]);
          }
        }
        assert Filtered(equality, trees) == r;
      }
    }
  }

  /**
   * A tree of the input is kept exactly when no tree kept before it is equal
   * to it; a tree that is dropped is equal to a tree of the result.
   */
  lemma FilteredKeeps<T>(equality: (T, T) -> bool, trees: seq<T>, k: nat)
    requires k < |trees|
    ensures var before := Filtered(equality, trees[..k]);
      Filtered(equality, trees[..k + 1]) ==
        if NoneMatch(equality, trees[k], before) then before + [trees[k]] else before
    ensures var r := Filtered(equality, trees);
      !NoneMatch(equality, trees[k], Filtered(equality, trees[..k])) ==>
        exists i :: 0 <= i < |r| && equality(trees[k], r[i])
  {
    var before := Filtered(equality, trees[..k]);
    assert trees[..k + 1][..k] == trees[..k];
    if !NoneMatch(equality, trees[k], before) {
      var i :| 0 <= i < |before| && equality(trees[k], before[i]);
      FilteredPrefix(equality, trees, k);
      assert before[i] == Filtered(equality, trees)[i];
    }
  }

  /** The first tree of a non-empty input is always kept, at the front. */
  lemma {:induction false} FilteredKeepsFirst<T>(equality: (T, T) -> bool, trees: seq<T>)
    requires trees != []
    ensures Filtered(equality, trees)[0] == trees[0]
  {
    FilteredPrefix(equality, trees, 1);
    assert trees[..1][..0] == [];
  }

  /** `distinct.stream().noneMatch(...)`. */
  method NoneMatches<T>(equality: (T, T) -> bool, candidate: T, kept: seq<T>) returns (b: bool)
    ensures b == NoneMatch(equality, candidate, kept)
  {
    for i := 0 to |kept|
      invariant NoneMatch(equality, candidate, kept[..i])
    {
      if equality(candidate, kept[i]) {
        return false;
      }
    }
    return true;
  }

  /** `filterDuplicates`: one pass over the input that appends each tree no kept tree equals. */
  method FilterDuplicates<T>(equality: (T, T) -> bool, treesWithDuplicates: seq<T>) returns (distinct: seq<T>)
    ensures distinct == Filtered(equality, treesWithDuplicates)
  {
    distinct := [];
    for i := 0 to |treesWithDuplicates|
      invariant distinct == Filtered(equality, treesWithDuplicates[..i])
    {
      var candidate := treesWithDuplicates[i];
      assert treesWithDuplicates[..i + 1][..i] == treesWithDuplicates[..i];
      var none := NoneMatches(equality, candidate, distinct);
      if none {
        distinct := distinct + [candidate];
      }
    }
    assert treesWithDuplicates[..|treesWithDuplicates|] == treesWithDuplicates;
  }
}
