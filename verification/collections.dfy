/** Sequence helpers shared by the game modules. */
module Collections {

  datatype Option<T> = None | Some(value: T)

  /** No element occurs twice. */
  predicate Distinct<T(==)>(xs: seq<T>)
  {
    forall i, j :: 0 <= i < j < |xs| ==> xs[i] != xs[j]
  }

  /** The elements of `xs` that are not `gone`, in their original order:
      what remains of a list after removing the entries flagged for deletion. */
  function Keep<T(==)>(xs: seq<T>, gone: T -> bool): (r: seq<T>)
    ensures |r| <= |xs|
    ensures forall k :: 0 <= k < |r| ==> r[k] in xs && !gone(r[k])
    ensures forall k :: 0 <= k < |xs| && !gone(xs[k]) ==> xs[k] in r
  {
    if xs == [] then []
    else (if gone(xs[0]) then [] else [xs[0]]) + Keep(xs[1..], gone)
  }

  /** Removing entries from a concatenation removes them from each part. */
  lemma {:induction false} KeepAppend<T>(xs: seq<T>, ys: seq<T>, gone: T -> bool)
    ensures Keep(xs + ys, gone) == Keep(xs, gone) + Keep(ys, gone)
  {
    if xs == [] {
      assert xs + ys == ys;
    } else {
      assert (xs + ys)[0] == xs[0];
      assert (xs + ys)[1..] == xs[1..] + ys;
      KeepAppend(xs[1..], ys, gone);
    }
  }

  /** Filtering a list extended by one element. */
  lemma KeepSnoc<T>(xs: seq<T>, x: T, gone: T -> bool)
    ensures Keep(xs + [x], gone) == Keep(xs, gone) + (if gone(x) then [] else [x])
  {
    KeepAppend(xs, [x], gone);
    assert [x][1..] == [];
  }

  lemma SplitLast<T>(xs: seq<T>)
    requires |xs| > 0
    ensures xs == xs[..|xs| - 1] + [xs[|xs| - 1]]
  {
  }

  /** Dropping the last element of a duplicate-free list leaves a
      duplicate-free list without that element. */
  lemma DistinctInit<T>(xs: seq<T>)
    requires |xs| > 0 && Distinct(xs)
    ensures Distinct(xs[..|xs| - 1]) && xs[|xs| - 1] !in xs[..|xs| - 1]
  {
  }

  /** Appending a new element keeps a list duplicate-free. */
  lemma DistinctSnoc<T>(xs: seq<T>, x: T)
    requires Distinct(xs) && x !in xs
    ensures Distinct(xs + [x])
  {
  }
}
