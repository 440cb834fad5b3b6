/** Consequences of the correctness theorem, one per promise the comparison
    makes about its three result tables. */
module Properties {
  import opened Records
  import opened Selection
  import opened Comparator
  import opened Reference
  import opened Correctness

  /** How often a row occurs among the new entries: as often as in the
      current snapshot when the previous snapshot has no row with its key and
      delivery date, and never otherwise. For a key both snapshots share, that
      is whether its date is missing from the previous group's dates. */
  lemma NewEntriesCount(current: seq<Row>, previous: seq<Row>, x: Row)
    ensures multiset(CompareFiles(current, previous).newEntries)[x]
         == if SlotOf(x) in SlotSet(previous) then 0 else multiset(current)[x]
    ensures KeyOf(x) in KeySet(previous) ==>
      multiset(CompareFiles(current, previous).newEntries)[x]
      == if x.deliveryDate in DateSet(Group(previous, KeyOf(x))) then 0 else multiset(current)[x]
  {
    CompareFilesCorrect(current, previous);
    UnmatchedCount(current, SlotSet(previous), x);
    GroupDates(previous, KeyOf(x), x.deliveryDate);
  }

  /** How often a row occurs among the deleted entries: the mirror image of
      `NewEntriesCount`. */
  lemma DeletedEntriesCount(current: seq<Row>, previous: seq<Row>, x: Row)
    ensures multiset(CompareFiles(current, previous).deletedEntries)[x]
         == if SlotOf(x) in SlotSet(current) then 0 else multiset(previous)[x]
    ensures KeyOf(x) in KeySet(current) ==>
      multiset(CompareFiles(current, previous).deletedEntries)[x]
      == if x.deliveryDate in DateSet(Group(current, KeyOf(x))) then 0 else multiset(previous)[x]
  {
    CompareFilesCorrect(current, previous);
    UnmatchedCount(previous, SlotSet(current), x);
    GroupDates(current, KeyOf(x), x.deliveryDate);
  }

  /** Every new entry is a current row and every deleted entry a previous
      row, never more often than there. */
  lemma Provenance(current: seq<Row>, previous: seq<Row>)
    ensures multiset(CompareFiles(current, previous).newEntries) <= multiset(current)
    ensures multiset(CompareFiles(current, previous).deletedEntries) <= multiset(previous)
  {
    forall x
      ensures multiset(CompareFiles(current, previous).newEntries)[x] <= multiset(current)[x]
      ensures multiset(CompareFiles(current, previous).deletedEntries)[x] <= multiset(previous)[x]
    {
      NewEntriesCount(current, previous, x);
      DeletedEntriesCount(current, previous, x);
    }
  }

  /** A current group whose key the previous snapshot lacks is new as a
      whole, and none of its rows is a changed entry. */
  lemma CurrentOnlyGroup(current: seq<Row>, previous: seq<Row>, k: Key)
    requires k !in KeySet(previous)
    ensures multiset(Group(CompareFiles(current, previous).newEntries, k)) == multiset(Group(current, k))
    ensures forall x :: x in CompareFiles(current, previous).changedEntries ==> ChangedKey(x) != k
  {
    var r := CompareFiles(current, previous);
    CompareFilesCorrect(current, previous);
    SelectPermutation(r.newEntries, Unmatched(current, SlotSet(previous)), KeyOf, {k});
    WholeGroup(current, previous, k);
    forall x | x in r.changedEntries
      ensures ChangedKey(x) != k
    {
      assert x in multiset(r.changedEntries);
      ChangedPairsMember(current, previous, x);
    }
  }

  /** A previous group whose key the current snapshot lacks is deleted as a
      whole. */
  lemma PreviousOnlyGroup(current: seq<Row>, previous: seq<Row>, k: Key)
    requires k !in KeySet(current)
    ensures multiset(Group(CompareFiles(current, previous).deletedEntries, k)) == multiset(Group(previous, k))
  {
    var r := CompareFiles(current, previous);
    CompareFilesCorrect(current, previous);
    SelectPermutation(r.deletedEntries, Unmatched(previous, SlotSet(current)), KeyOf, {k});
    WholeGroup(previous, current, k);
  }

  /** A changed entry is a current row together with the quantity of a
      previous row at the same key and delivery date whose quantity differs;
      every such pair gives one. */
  lemma ChangedEntriesMember(current: seq<Row>, previous: seq<Row>, x: ChangedRow)
    ensures x in CompareFiles(current, previous).changedEntries
        <==> x.row in current
             && x.previousQuantity != x.row.quantity
             && exists p :: p in previous && SlotOf(p) == SlotOf(x.row) && p.quantity == x.previousQuantity
  {
    var r := CompareFiles(current, previous);
    CompareFilesCorrect(current, previous);
    assert x in r.changedEntries <==> x in multiset(r.changedEntries);
    ChangedPairsMember(current, previous, x);
  }

  /** Counting the pairs that differ is the same whether the previous rows
      are restricted to `c`'s slot or not. */
  lemma {:induction false} DiffCountAtSlot(c: Row, previous: seq<Row>)
    ensures DiffCount(c, Select(previous, SlotOf, {SlotOf(c)})) == DiffCount(c, previous)
  {
    if previous != [] {
      var p := previous[0];
      DiffCountAtSlot(c, previous[1..]);
      var tail := Select(previous[1..], SlotOf, {SlotOf(c)});
      if SlotOf(p) == SlotOf(c) {
        assert Select(previous, SlotOf, {SlotOf(c)}) == [p] + tail;
        assert ([p] + tail)[1..] == tail;
      } else {
        assert Select(previous, SlotOf, {SlotOf(c)}) == tail;
      }
    }
  }

  lemma {:induction false} PairCountAtSlot(cs: seq<Row>, previous: seq<Row>, s: Slot)
    requires forall c :: c in cs ==> SlotOf(c) == s
    ensures PairCount(cs, Select(previous, SlotOf, {s})) == PairCount(cs, previous)
  {
    if cs != [] {
      assert cs[0] in cs;
      DiffCountAtSlot(cs[0], previous);
      assert forall c :: c in cs[1..] ==> c in cs;
      PairCountAtSlot(cs[1..], previous, s);
    }
  }

  /** At every (key, date) slot, the number of changed entries is the number
      of (current row, previous row) pairs at that slot whose quantities
      differ. */
  lemma ChangedEntriesAtSlot(current: seq<Row>, previous: seq<Row>, s: Slot)
    ensures |Select(CompareFiles(current, previous).changedEntries, ChangedSlot, {s})|
         == PairCount(Select(current, SlotOf, {s}), Select(previous, SlotOf, {s}))
  {
    var r := CompareFiles(current, previous);
    var changed := ChangedPairs(current, previous);
    CompareFilesCorrect(current, previous);
    SelectPermutation(r.changedEntries, changed, ChangedSlot, {s});
    var mine := Select(r.changedEntries, ChangedSlot, {s});
    var theirs := Select(changed, ChangedSlot, {s});
    assert |mine| == |multiset(mine)| == |multiset(theirs)| == |theirs|;
    SelectChangedPairs(current, previous, SlotOf, ChangedSlot, {s});
    ChangedPairsLength(Select(current, SlotOf, {s}), previous);
    PairCountAtSlot(Select(current, SlotOf, {s}), previous, s);
  }

  /** The number of changed entries is the number of (current row, previous
      row) pairs with the same key and date whose quantities differ. */
  lemma ChangedEntriesTotal(current: seq<Row>, previous: seq<Row>)
    ensures |CompareFiles(current, previous).changedEntries| == PairCount(current, previous)
  {
    var r := CompareFiles(current, previous);
    var changed := ChangedPairs(current, previous);
    CompareFilesCorrect(current, previous);
    assert |r.changedEntries| == |multiset(r.changedEntries)| == |multiset(changed)| == |changed|;
    ChangedPairsLength(current, previous);
  }

  /** Swapping the snapshots swaps new and deleted entries, keeps the number
      of changed entries, and turns each changed entry (c, q) into a changed
      entry (p, c's quantity) for a previous row p of quantity q. */
  lemma SwapSnapshots(current: seq<Row>, previous: seq<Row>)
    ensures multiset(CompareFiles(previous, current).newEntries)
         == multiset(CompareFiles(current, previous).deletedEntries)
    ensures multiset(CompareFiles(previous, current).deletedEntries)
         == multiset(CompareFiles(current, previous).newEntries)
    ensures |CompareFiles(previous, current).changedEntries|
         == |CompareFiles(current, previous).changedEntries|
    ensures forall x :: x in CompareFiles(current, previous).changedEntries ==>
      (exists p :: p in previous && p.quantity == x.previousQuantity
                   && ChangedRow(p, x.row.quantity) in CompareFiles(previous, current).changedEntries)
  {
    CompareFilesCorrect(current, previous);
    CompareFilesCorrect(previous, current);
    ChangedEntriesTotal(current, previous);
    ChangedEntriesTotal(previous, current);
    PairCountSymmetric(current, previous);
    forall x | x in CompareFiles(current, previous).changedEntries
      ensures exists p :: (p in previous && p.quantity == x.previousQuantity
                           && ChangedRow(p, x.row.quantity) in CompareFiles(previous, current).changedEntries)
    {
      ChangedEntriesMember(current, previous, x);
      var p :| p in previous && SlotOf(p) == SlotOf(x.row) && p.quantity == x.previousQuantity;
      ChangedEntriesMember(previous, current, ChangedRow(p, x.row.quantity));
    }
  }

  /** A row whose slot occurs in a snapshot has its key occur there too. */
  lemma SlotKey(rows: seq<Row>, x: Row)
    requires SlotOf(x) in SlotSet(rows)
    ensures KeyOf(x) in KeySet(rows)
  {
  }

  /** Snapshots without a common key: everything current is new, everything
      previous is deleted, and nothing has changed. */
  lemma DisjointKeys(current: seq<Row>, previous: seq<Row>)
    requires KeySet(current) !! KeySet(previous)
    ensures multiset(CompareFiles(current, previous).newEntries) == multiset(current)
    ensures multiset(CompareFiles(current, previous).deletedEntries) == multiset(previous)
    ensures CompareFiles(current, previous).changedEntries == []
  {
    var r := CompareFiles(current, previous);
    forall x
      ensures multiset(r.newEntries)[x] == multiset(current)[x]
    {
      NewEntriesCount(current, previous, x);
      if SlotOf(x) in SlotSet(previous) {
        SlotKey(previous, x);
        assert x !in current;
      }
    }
    forall x
      ensures multiset(r.deletedEntries)[x] == multiset(previous)[x]
    {
      DeletedEntriesCount(current, previous, x);
      if SlotOf(x) in SlotSet(current) {
        SlotKey(current, x);
        assert x !in previous;
      }
    }
    DisjointKeysNoChanges(current, previous);
  }

  /** No pair differs when no current row shares a key with the previous
      snapshot. */
  lemma {:induction false} NoPairsAcrossKeys(cs: seq<Row>, previous: seq<Row>)
    requires forall c :: c in cs ==> KeyOf(c) !in KeySet(previous)
    ensures PairCount(cs, previous) == 0
  {
    if cs != [] {
      assert cs[0] in cs;
      NoDiffAcrossKeys(cs[0], previous);
      assert forall c :: c in cs[1..] ==> c in cs;
      NoPairsAcrossKeys(cs[1..], previous);
    }
  }

  lemma {:induction false} NoDiffAcrossKeys(c: Row, previous: seq<Row>)
    requires KeyOf(c) !in KeySet(previous)
    ensures DiffCount(c, previous) == 0
  {
    if previous != [] {
      assert previous[0] in previous;
      assert KeyOf(previous[0]) != KeyOf(c);
      assert forall p :: p in previous[1..] ==> p in previous;
      NoDiffAcrossKeys(c, previous[1..]);
    }
  }

  lemma DisjointKeysNoChanges(current: seq<Row>, previous: seq<Row>)
    requires KeySet(current) !! KeySet(previous)
    ensures CompareFiles(current, previous).changedEntries == []
  {
    ChangedEntriesTotal(current, previous);
    NoPairsAcrossKeys(current, previous);
  }

  /** Comparing a snapshot with itself yields no new and no deleted entries,
      and no changed entries exactly when every (key, date) slot holds rows
      of a single quantity. */
  lemma IdenticalSnapshots(rows: seq<Row>)
    ensures CompareFiles(rows, rows).newEntries == []
    ensures CompareFiles(rows, rows).deletedEntries == []
    ensures CompareFiles(rows, rows).changedEntries == [] <==> SlotConsistent(rows)
  {
    var r := CompareFiles(rows, rows);
    forall x
      ensures multiset(r.newEntries)[x] == 0
      ensures multiset(r.deletedEntries)[x] == 0
    {
      NewEntriesCount(rows, rows, x);
      DeletedEntriesCount(rows, rows, x);
    }
    assert multiset(r.newEntries) == multiset{};
    assert multiset(r.deletedEntries) == multiset{};
    if r.changedEntries != [] {
      var x := r.changedEntries[0];
      ChangedEntriesMember(rows, rows, x);
    }
    if !SlotConsistent(rows) {
      var a, b :| a in rows && b in rows && SlotOf(a) == SlotOf(b) && a.quantity != b.quantity;
      ChangedEntriesMember(rows, rows, ChangedRow(a, b.quantity));
    }
  }
}
