/** The order of the result tables. The groups are visited in ascending key
    order, so within the tables of new and of changed entries the rows of one
    key stay together and keys ascend. The table of deleted entries is two
    such runs: first the rows at vanished dates of shared keys, then the
    whole groups of keys the current snapshot no longer has. */
module Ordering {
  import opened Records
  import opened KeyOrder
  import opened Comparator

  /** Keys never decrease along `xs`. */
  predicate InKeyOrder<T>(xs: seq<T>, key: T -> Key) {
    forall i, j :: 0 <= i < j < |xs| ==> key(xs[i]) == key(xs[j]) || KeyLess(key(xs[i]), key(xs[j]))
  }

  /** Two runs in key order, every key of the first at most every key of the
      second, make one run in key order. */
  lemma InKeyOrderAppend<T>(a: seq<T>, b: seq<T>, key: T -> Key)
    requires InKeyOrder(a, key) && InKeyOrder(b, key)
    requires forall x, y :: x in a && y in b ==> key(x) == key(y) || KeyLess(key(x), key(y))
    ensures InKeyOrder(a + b, key)
  {
  }

  /** Every row the visit of current group `k` contributes has key `k`. */
  lemma GroupStepKeys(current: seq<Row>, previous: seq<Row>, k: Key)
    ensures var step := CurrentGroupStep(current, previous, k);
      && (forall x :: x in step.newEntries ==> KeyOf(x) == k)
      && (forall x :: x in step.deletedEntries ==> KeyOf(x) == k)
      && (forall x :: x in step.changedEntries ==> ChangedKey(x) == k)
  {
  }

  /** The first loop emits its rows in the order of the keys it visits. */
  lemma {:induction false} CurrentPassInKeyOrder(current: seq<Row>, previous: seq<Row>, ks: seq<Key>)
    requires StrictlySorted(ks)
    ensures var r := CurrentPass(current, previous, ks);
      && InKeyOrder(r.newEntries, KeyOf)
      && InKeyOrder(r.deletedEntries, KeyOf)
      && InKeyOrder(r.changedEntries, ChangedKey)
      && (forall x :: x in r.newEntries ==> KeyOf(x) in ks)
      && (forall x :: x in r.deletedEntries ==> KeyOf(x) in ks)
      && (forall x :: x in r.changedEntries ==> ChangedKey(x) in ks)
  {
    if ks != [] {
      var k := ks[0];
      var here := CurrentGroupStep(current, previous, k);
      var rest := CurrentPass(current, previous, ks[1..]);
      assert StrictlySorted(ks[1..]);
      CurrentPassInKeyOrder(current, previous, ks[1..]);
      GroupStepKeys(current, previous, k);
      assert forall k' :: k' in ks[1..] ==> KeyLess(k, k');
      InKeyOrderAppend(here.newEntries, rest.newEntries, KeyOf);
      InKeyOrderAppend(here.deletedEntries, rest.deletedEntries, KeyOf);
      InKeyOrderAppend(here.changedEntries, rest.changedEntries, ChangedKey);
    }
  }

  /** The second loop emits whole groups in the order of the keys it visits. */
  lemma {:induction false} PreviousPassInKeyOrder(current: seq<Row>, previous: seq<Row>, ks: seq<Key>)
    requires StrictlySorted(ks)
    ensures InKeyOrder(PreviousPass(current, previous, ks), KeyOf)
    ensures forall x :: x in PreviousPass(current, previous, ks) ==> KeyOf(x) in ks && KeyOf(x) !in KeySet(current)
  {
    if ks != [] {
      var k := ks[0];
      var here := PreviousGroupStep(current, previous, k);
      var rest := PreviousPass(current, previous, ks[1..]);
      assert StrictlySorted(ks[1..]);
      PreviousPassInKeyOrder(current, previous, ks[1..]);
      assert forall k' :: k' in ks[1..] ==> KeyLess(k, k');
      InKeyOrderAppend(here, rest, KeyOf);
    }
  }

  /** New and changed entries ascend by key; deleted entries are a run of
      rows with keys the current snapshot has, followed by a run of rows
      with keys it lacks, each ascending by key. */
  lemma CompareFilesInKeyOrder(current: seq<Row>, previous: seq<Row>)
    ensures InKeyOrder(CompareFiles(current, previous).newEntries, KeyOf)
    ensures InKeyOrder(CompareFiles(current, previous).changedEntries, ChangedKey)
    ensures var deleted := CompareFiles(current, previous).deletedEntries;
      exists n :: 0 <= n <= |deleted|
        && InKeyOrder(deleted[..n], KeyOf) && InKeyOrder(deleted[n..], KeyOf)
        && (forall x :: x in deleted[..n] ==> KeyOf(x) in KeySet(current))
        && (forall x :: x in deleted[n..] ==> KeyOf(x) !in KeySet(current))
  {
    var first := CurrentPass(current, previous, SortedKeys(current));
    var second := PreviousPass(current, previous, SortedKeys(previous));
    CurrentPassInKeyOrder(current, previous, SortedKeys(current));
    PreviousPassInKeyOrder(current, previous, SortedKeys(previous));
    var deleted := CompareFiles(current, previous).deletedEntries;
    var n := |first.deletedEntries|;
    assert deleted[..n] == first.deletedEntries;
    assert deleted[n..] == second;
  }
}
