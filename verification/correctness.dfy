/** The grouped algorithm computes, up to row order, exactly the row-by-row
    reference tables: grouping by key, diffing date sets and comparing at
    common dates neither loses nor invents nor duplicates a row. */
module Correctness {
  import opened Records
  import opened Selection
  import opened KeyOrder
  import opened Comparator
  import opened Reference

  /** Splitting the head off a sequence without repetitions. */
  lemma DistinctCons<T>(xs: seq<T>)
    requires xs != [] && Distinct(xs)
    ensures Distinct(xs[1..])
    ensures xs[0] !in Elems(xs[1..])
    ensures Elems(xs) == {xs[0]} + Elems(xs[1..])
  {
  }

  /** A selection no element passes is empty. */
  lemma SelectEmpty<T(!new), K>(xs: seq<T>, key: T -> K, ks: set<K>)
    requires forall x :: x in xs ==> key(x) !in ks
    ensures Select(xs, key, ks) == []
  {
  }

  /** A group of a snapshot that has no row with that key is empty. */
  lemma AbsentGroup(rows: seq<Row>, k: Key)
    requires k !in KeySet(rows)
    ensures Group(rows, k) == []
  {
    SelectEmpty(rows, KeyOf, {k});
  }

  /** The dates of the group with key `k` are the dates at which the
      snapshot has a row with key `k`. */
  lemma GroupDates(rows: seq<Row>, k: Key, d: int)
    ensures d in DateSet(Group(rows, k)) <==> Slot(k, d) in SlotSet(rows)
  {
  }

  /** Selecting the rows of group `k` by a date set that marks exactly the
      unmatched rows of that group yields group `k` of the unmatched rows. */
  lemma {:induction false} DatesMarkUnmatched(a: seq<Row>, k: Key, dates: set<int>, slots: set<Slot>)
    requires forall r :: r in a && KeyOf(r) == k ==> (r.deliveryDate in dates <==> SlotOf(r) !in slots)
    ensures Select(Group(a, k), DateOf, dates) == Group(Unmatched(a, slots), k)
  {
    if a != [] {
      var x := a[0];
      assert a == [x] + a[1..];
      DatesMarkUnmatched(a[1..], k, dates, slots);
      var head := if KeyOf(x) == k then [x] else [];
      assert Group(a, k) == head + Group(a[1..], k);
      SelectAppend(head, Group(a[1..], k), DateOf, dates);
      var kept := if SlotOf(x) in slots then [] else [x];
      assert Unmatched(a, slots) == kept + Unmatched(a[1..], slots);
      SelectAppend(kept, Unmatched(a[1..], slots), KeyOf, {k});
    }
  }

  /** For one key, the rows of `a` at dates the other snapshot's group lacks
      are exactly the rows of `a` with that key and no counterpart in `b`. */
  lemma SharedGroupDiff(a: seq<Row>, b: seq<Row>, k: Key)
    ensures Select(Group(a, k), DateOf, DateSet(Group(a, k)) - DateSet(Group(b, k)))
         == Group(Unmatched(a, SlotSet(b)), k)
  {
    var dates := DateSet(Group(a, k)) - DateSet(Group(b, k));
    forall r | r in a && KeyOf(r) == k
      ensures r.deliveryDate in dates <==> SlotOf(r) !in SlotSet(b)
    {
      assert r in Group(a, k);
      GroupDates(b, k, r.deliveryDate);
    }
    DatesMarkUnmatched(a, k, dates, SlotSet(b));
  }

  /** A group whose key the other snapshot lacks is unmatched as a whole. */
  lemma WholeGroup(a: seq<Row>, b: seq<Row>, k: Key)
    requires k !in KeySet(b)
    ensures Group(a, k) == Group(Unmatched(a, SlotSet(b)), k)
  {
    AbsentGroup(b, k);
    SharedGroupDiff(a, b, k);
    SelectAll(Group(a, k), DateOf, DateSet(Group(a, k)) - DateSet(Group(b, k)));
  }

  /** The new rows one current group contributes. */
  lemma NewStep(current: seq<Row>, previous: seq<Row>, k: Key)
    ensures CurrentGroupStep(current, previous, k).newEntries
         == Group(Unmatched(current, SlotSet(previous)), k)
  {
    if k !in KeySet(previous) {
      WholeGroup(current, previous, k);
    } else {
      SharedGroupDiff(current, previous, k);
    }
  }

  /** The deleted rows one current group contributes. */
  lemma DeletedStep(current: seq<Row>, previous: seq<Row>, k: Key)
    ensures CurrentGroupStep(current, previous, k).deletedEntries
         == Group(Unmatched(previous, SlotSet(current)), k)
  {
    if k !in KeySet(previous) {
      SelectEmpty(Unmatched(previous, SlotSet(current)), KeyOf, {k});
    } else {
      SharedGroupDiff(previous, current, k);
    }
  }

  /** The deleted rows one previous group contributes in the second loop. */
  lemma PreviousStep(current: seq<Row>, previous: seq<Row>, k: Key)
    ensures PreviousGroupStep(current, previous, k)
         == Select(Unmatched(previous, SlotSet(current)), KeyOf, {k} - KeySet(current))
  {
    if k !in KeySet(current) {
      assert {k} - KeySet(current) == {k};
      WholeGroup(previous, current, k);
    } else {
      SelectEmpty(Unmatched(previous, SlotSet(current)), KeyOf, {k} - KeySet(current));
    }
  }

  /** Selecting changed rows by a key of their current row is selecting the
      current rows first. */
  lemma {:induction false} SelectChangedPairs<K>(
    cs: seq<Row>, previous: seq<Row>, f: Row -> K, g: ChangedRow -> K, ks: set<K>)
    requires forall x: ChangedRow :: g(x) == f(x.row)
    ensures Select(ChangedPairs(cs, previous), g, ks) == ChangedPairs(Select(cs, f, ks), previous)
  {
    if cs != [] {
      var c := cs[0];
      assert cs == [c] + cs[1..];
      SelectChangedPairs(cs[1..], previous, f, g, ks);
      SelectAppend(PairsOf(c, previous), ChangedPairs(cs[1..], previous), g, ks);
      forall x | x in PairsOf(c, previous)
        ensures x.row == c
      {
        PairsOfMember(c, previous, x);
      }
      var tail := Select(cs[1..], f, ks);
      if f(c) in ks {
        SelectAll(PairsOf(c, previous), g, ks);
        assert Select(cs, f, ks) == [c] + tail;
        assert ([c] + tail)[1..] == tail;
      } else {
        SelectEmpty(PairsOf(c, previous), g, ks);
        assert Select(cs, f, ks) == tail;
      }
    }
  }

  /** Current rows whose key the previous snapshot lacks change nothing. */
  lemma NoPairsWithoutKey(cs: seq<Row>, previous: seq<Row>)
    requires forall c :: c in cs ==> KeyOf(c) !in KeySet(previous)
    ensures ChangedPairs(cs, previous) == []
  {
    var r := ChangedPairs(cs, previous);
    if r != [] {
      assert r[0] in r;
      ChangedPairsMember(cs, previous, r[0]);
    }
  }

  /** The inner loop over the previous rows at `c`'s slot yields the
      reference changed rows of `c`. */
  lemma {:induction false} AgainstSlot(c: Row, previous: seq<Row>)
    ensures Against(c, Select(previous, SlotOf, {SlotOf(c)})) == PairsOf(c, previous)
  {
    if previous != [] {
      var p := previous[0];
      AgainstSlot(c, previous[1..]);
      var tail := Select(previous[1..], SlotOf, {SlotOf(c)});
      if SlotOf(p) == SlotOf(c) {
        assert Select(previous, SlotOf, {SlotOf(c)}) == [p] + tail;
        assert ([p] + tail)[1..] == tail;
      } else {
        assert Select(previous, SlotOf, {SlotOf(c)}) == tail;
      }
    }
  }

  /** The two nested loops at one slot yield the reference changed rows of
      the current rows at that slot. */
  lemma {:induction false} CrossSlot(cs: seq<Row>, previous: seq<Row>, s: Slot)
    requires forall c :: c in cs ==> SlotOf(c) == s
    ensures Cross(cs, Select(previous, SlotOf, {s})) == ChangedPairs(cs, previous)
  {
    if cs != [] {
      assert cs[0] in cs;
      AgainstSlot(cs[0], previous);
      assert forall c :: c in cs[1..] ==> c in cs;
      CrossSlot(cs[1..], previous, s);
    }
  }

  /** The rows of group `k` at date `d` are the rows at slot (k, d). */
  lemma {:induction false} AtDateOfGroup(rows: seq<Row>, k: Key, d: int)
    ensures AtDate(Group(rows, k), d) == Select(rows, SlotOf, {Slot(k, d)})
  {
    if rows != [] {
      var x := rows[0];
      AtDateOfGroup(rows[1..], k, d);
      var head := if KeyOf(x) == k then [x] else [];
      assert Group(rows, k) == head + Group(rows[1..], k);
      SelectAppend(head, Group(rows[1..], k), DateOf, {d});
    }
  }

  /** The loop over common dates of one shared key yields the reference
      changed rows of that group at those dates. */
  lemma {:induction false} ChangedAtDatesCorrect(
    group: seq<Row>, previous: seq<Row>, k: Key, dates: seq<int>)
    requires forall c :: c in group ==> KeyOf(c) == k
    requires Distinct(dates)
    ensures multiset(ChangedAtDates(group, Group(previous, k), dates))
         == multiset(Select(ChangedPairs(group, previous), ChangedDate, Elems(dates)))
  {
    if dates != [] {
      var d := dates[0];
      var changed := ChangedPairs(group, previous);
      DistinctCons(dates);
      ChangedAtDatesCorrect(group, previous, k, dates[1..]);
      var here := AtDate(group, d);
      AtDateOfGroup(previous, k, d);
      assert AtDate(Group(previous, k), d) == Select(previous, SlotOf, {Slot(k, d)});
      assert forall c :: c in here ==> SlotOf(c) == Slot(k, d);
      CrossSlot(here, previous, Slot(k, d));
      SelectChangedPairs(group, previous, DateOf, ChangedDate, {d});
      assert Cross(here, AtDate(Group(previous, k), d)) == Select(changed, ChangedDate, {d});
      SelectSplit(changed, ChangedDate, {d}, Elems(dates[1..]));
    } else {
      SelectEmpty(ChangedPairs(group, previous), ChangedDate, Elems(dates));
    }
  }

  /** The reference changed rows of a group shared by both snapshots lie at
      the common dates of that group. */
  lemma ChangedAtCommonDates(current: seq<Row>, previous: seq<Row>, k: Key)
    ensures var group := Group(current, k);
      var dates := CommonDates(group, DateSet(Group(previous, k)));
      Select(ChangedPairs(group, previous), ChangedDate, Elems(dates)) == ChangedPairs(group, previous)
  {
    var group := Group(current, k);
    var previousGroup := Group(previous, k);
    var dates := CommonDates(group, DateSet(previousGroup));
    forall x | x in ChangedPairs(group, previous)
      ensures ChangedDate(x) in Elems(dates)
    {
      ChangedPairsMember(group, previous, x);
      var p :| p in previous && Differs(x.row, p) && p.quantity == x.previousQuantity;
      assert p in previousGroup;
      assert x.row in group;
    }
    SelectAll(ChangedPairs(group, previous), ChangedDate, Elems(dates));
  }

  /** The changed rows one current group contributes. */
  lemma ChangedStep(current: seq<Row>, previous: seq<Row>, k: Key)
    ensures multiset(CurrentGroupStep(current, previous, k).changedEntries)
         == multiset(Select(ChangedPairs(current, previous), ChangedKey, {k}))
  {
    var group := Group(current, k);
    SelectChangedPairs(current, previous, KeyOf, ChangedKey, {k});
    if k !in KeySet(previous) {
      NoPairsWithoutKey(group, previous);
    } else {
      var dates := CommonDates(group, DateSet(Group(previous, k)));
      ChangedAtDatesCorrect(group, previous, k, dates);
      ChangedAtCommonDates(current, previous, k);
    }
  }

  /** The first loop, over distinct keys `ks`, yields the reference rows
      whose key is among `ks`. */
  lemma {:induction false} CurrentPassCorrect(current: seq<Row>, previous: seq<Row>, ks: seq<Key>)
    requires Distinct(ks)
    ensures var r := CurrentPass(current, previous, ks);
      && multiset(r.newEntries)
         == multiset(Select(Unmatched(current, SlotSet(previous)), KeyOf, Elems(ks)))
      && multiset(r.deletedEntries)
         == multiset(Select(Unmatched(previous, SlotSet(current)), KeyOf, Elems(ks)))
      && multiset(r.changedEntries)
         == multiset(Select(ChangedPairs(current, previous), ChangedKey, Elems(ks)))
  {
    if ks != [] {
      var k := ks[0];
      DistinctCons(ks);
      CurrentPassCorrect(current, previous, ks[1..]);
      NewStep(current, previous, k);
      DeletedStep(current, previous, k);
      ChangedStep(current, previous, k);
      SelectSplit(Unmatched(current, SlotSet(previous)), KeyOf, {k}, Elems(ks[1..]));
      SelectSplit(Unmatched(previous, SlotSet(current)), KeyOf, {k}, Elems(ks[1..]));
      SelectSplit(ChangedPairs(current, previous), ChangedKey, {k}, Elems(ks[1..]));
    } else {
      SelectEmpty(Unmatched(current, SlotSet(previous)), KeyOf, Elems(ks));
      SelectEmpty(Unmatched(previous, SlotSet(current)), KeyOf, Elems(ks));
      SelectEmpty(ChangedPairs(current, previous), ChangedKey, Elems(ks));
    }
  }

  /** The second loop, over distinct keys `ks`, yields the reference deleted
      rows whose key is among `ks` but not a key of the current snapshot. */
  lemma {:induction false} PreviousPassCorrect(current: seq<Row>, previous: seq<Row>, ks: seq<Key>)
    requires Distinct(ks)
    ensures multiset(PreviousPass(current, previous, ks))
         == multiset(Select(Unmatched(previous, SlotSet(current)), KeyOf, Elems(ks) - KeySet(current)))
  {
    if ks != [] {
      var k := ks[0];
      DistinctCons(ks);
      PreviousPassCorrect(current, previous, ks[1..]);
      PreviousStep(current, previous, k);
      var a := {k} - KeySet(current);
      var b := Elems(ks[1..]) - KeySet(current);
      assert a + b == Elems(ks) - KeySet(current);
      SelectSplit(Unmatched(previous, SlotSet(current)), KeyOf, a, b);
    } else {
      SelectEmpty(Unmatched(previous, SlotSet(current)), KeyOf, Elems(ks) - KeySet(current));
    }
  }

  /** The comparison yields, as multisets of rows: as new entries, the
      current rows that have no previous row with the same key and delivery
      date; as deleted entries, the previous rows that have no current row
      with the same key and delivery date; as changed entries, one row for
      every (current row, previous row) pair with the same key and delivery
      date but different quantities, carrying the previous quantity. */
  lemma CompareFilesCorrect(current: seq<Row>, previous: seq<Row>)
    ensures var r := CompareFiles(current, previous);
      && multiset(r.newEntries) == multiset(Unmatched(current, SlotSet(previous)))
      && multiset(r.deletedEntries) == multiset(Unmatched(previous, SlotSet(current)))
      && multiset(r.changedEntries) == multiset(ChangedPairs(current, previous))
  {
    var currentKeys := SortedKeys(current);
    var previousKeys := SortedKeys(previous);
    SortedIsDistinct(currentKeys);
    SortedIsDistinct(previousKeys);
    assert Elems(currentKeys) == KeySet(current);
    assert Elems(previousKeys) == KeySet(previous);
    CurrentPassCorrect(current, previous, currentKeys);
    PreviousPassCorrect(current, previous, previousKeys);

    var newRef := Unmatched(current, SlotSet(previous));
    SelectAll(newRef, KeyOf, KeySet(current));

    var deletedRef := Unmatched(previous, SlotSet(current));
    SelectSplit(deletedRef, KeyOf, KeySet(current), KeySet(previous) - KeySet(current));
    SelectAll(deletedRef, KeyOf, KeySet(current) + (KeySet(previous) - KeySet(current)));

    var changedRef := ChangedPairs(current, previous);
    forall x | x in changedRef
      ensures ChangedKey(x) in KeySet(current)
    {
      ChangedPairsMember(current, previous, x);
    }
    SelectAll(changedRef, ChangedKey, KeySet(current));
  }
}
