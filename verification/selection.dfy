/** Order-preserving selection of the elements of a sequence whose key lies
    in a given set: the shape of both `groupby(...).get_group(k)` and
    `frame[frame[col].isin(values)]`. */
module Selection {

  /** `a` arises from `b` by deleting elements: the elements of `a` occur in
      `b` in the same order. */
  predicate Subsequence<T(==)>(a: seq<T>, b: seq<T>)
    decreases |b|
  {
    a == [] || (b != [] && ((a[0] == b[0] && Subsequence(a[1..], b[1..])) || Subsequence(a, b[1..])))
  }

  /** The elements of `xs` whose key lies in `ks`, in their original order. */
  function Select<T(==,!new), K>(xs: seq<T>, key: T -> K, ks: set<K>): (r: seq<T>)
    ensures forall x :: x in r <==> x in xs && key(x) in ks
    ensures Subsequence(r, xs)
    ensures |r| <= |xs|
  {
    if xs == [] then []
    else
      assert xs == [xs[0]] + xs[1..];
      var rest := Select(xs[1..], key, ks);
      if key(xs[0]) in ks then
        assert ([xs[0]] + rest)[1..] == rest;
        [xs[0]] + rest
      else
        rest
  }

  /** Selection keeps every occurrence of a selected element and drops every
      occurrence of the others. */
  lemma {:induction false} SelectCount<T(!new), K>(xs: seq<T>, key: T -> K, ks: set<K>, x: T)
    ensures multiset(Select(xs, key, ks))[x] == if key(x) in ks then multiset(xs)[x] else 0
  {
    if xs != [] {
      assert xs == [xs[0]] + xs[1..];
      SelectCount(xs[1..], key, ks, x);
    }
  }

  /** Selecting by two disjoint key sets splits the selection by their union. */
  lemma SelectSplit<T(!new), K>(xs: seq<T>, key: T -> K, a: set<K>, b: set<K>)
    requires a !! b
    ensures multiset(Select(xs, key, a + b))
         == multiset(Select(xs, key, a)) + multiset(Select(xs, key, b))
  {
  }

  /** Selection only depends on the multiset of its input. */
  lemma SelectPermutation<T(!new), K>(xs: seq<T>, ys: seq<T>, key: T -> K, ks: set<K>)
    requires multiset(xs) == multiset(ys)
    ensures multiset(Select(xs, key, ks)) == multiset(Select(ys, key, ks))
  {
    forall x
      ensures multiset(Select(xs, key, ks))[x] == multiset(Select(ys, key, ks))[x]
    {
      SelectCount(xs, key, ks, x);
      SelectCount(ys, key, ks, x);
    }
  }

  /** Selection distributes over concatenation. */
  lemma {:induction false} SelectAppend<T(!new), K>(xs: seq<T>, ys: seq<T>, key: T -> K, ks: set<K>)
    ensures Select(xs + ys, key, ks) == Select(xs, key, ks) + Select(ys, key, ks)
  {
    if xs == [] {
      assert xs + ys == ys;
    } else {
      assert (xs + ys)[1..] == xs[1..] + ys;
      SelectAppend(xs[1..], ys, key, ks);
    }
  }

  /** A selection that every element passes is the identity. */
  lemma {:induction false} SelectAll<T(!new), K>(xs: seq<T>, key: T -> K, ks: set<K>)
    requires forall x :: x in xs ==> key(x) in ks
    ensures Select(xs, key, ks) == xs
  {
    if xs != [] {
      assert xs == [xs[0]] + xs[1..];
      SelectAll(xs[1..], key, ks);
    }
  }
}
