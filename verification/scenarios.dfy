/** Worked examples of the comparison on small snapshots, derived from the
    correctness theorem. */
module Scenarios {
  import opened Records
  import opened Comparator
  import opened Reference
  import opened Correctness

  const Bolt := Row("M1", "Bolt", 20240101, 10, [])
  const Earlier := Bolt.(quantity := 5)

  /** A sequence whose multiset is one element is that element alone. */
  lemma OneRow(xs: seq<ChangedRow>, x: ChangedRow)
    requires multiset(xs) == multiset{x}
    ensures xs == [x]
  {
  }

  /** A sequence whose multiset is two copies of one element is those copies. */
  lemma TwoRows(xs: seq<ChangedRow>, x: ChangedRow)
    requires multiset(xs) == multiset{x, x}
    ensures xs == [x, x]
  {
    assert |xs| == 2;
    assert xs[0] in multiset(xs);
    assert xs[1] in multiset(xs);
  }

  /** The row-by-row tables of one current against one previous row at the
      same slot with a different quantity. */
  lemma OneAgainstOne(current: seq<Row>, previous: seq<Row>)
    requires current == [Bolt] && previous == [Earlier]
    ensures Unmatched(current, SlotSet(previous)) == []
    ensures Unmatched(previous, SlotSet(current)) == []
    ensures ChangedPairs(current, previous) == [ChangedRow(Bolt, 5)]
  {
    assert SlotOf(Bolt) == SlotOf(Earlier);
    assert Earlier in previous && Bolt in current;
    assert PairsOf(Bolt, [Earlier]) == [ChangedRow(Bolt, 5)];
  }

  lemma TwoAgainstOne(current: seq<Row>, previous: seq<Row>)
    requires current == [Bolt, Bolt] && previous == [Earlier]
    ensures Unmatched(current, SlotSet(previous)) == []
    ensures Unmatched(previous, SlotSet(current)) == []
    ensures ChangedPairs(current, previous) == [ChangedRow(Bolt, 5), ChangedRow(Bolt, 5)]
  {
    OneAgainstOne([Bolt], previous);
    assert current[0] == Bolt && current[1..] == [Bolt];
    assert SlotSet(current) == SlotSet([Bolt]);
    assert SlotOf(Bolt) in SlotSet(previous);
    assert Unmatched(current, SlotSet(previous)) == Unmatched([Bolt], SlotSet(previous));
    assert ChangedPairs(current, previous) == PairsOf(Bolt, previous) + ChangedPairs([Bolt], previous);
    assert PairsOf(Bolt, previous) == [ChangedRow(Bolt, 5)];
  }

  /** A single current row with an empty previous snapshot is new. */
  lemma OnlyCurrentRow(current: seq<Row>, previous: seq<Row>)
    requires current == [Bolt] && previous == []
    ensures var r := CompareFiles(current, previous);
      && multiset(r.newEntries) == multiset{Bolt}
      && r.deletedEntries == []
      && r.changedEntries == []
  {
    CompareFilesCorrect(current, previous);
    assert Unmatched([Bolt], SlotSet([])) == [Bolt];
    assert Unmatched([], SlotSet([Bolt])) == [];
    assert ChangedPairs([Bolt], []) == [];
  }

  /** One row at the same key and date with a different quantity is one
      changed entry carrying the previous quantity. */
  lemma QuantityChanged(current: seq<Row>, previous: seq<Row>)
    requires current == [Bolt] && previous == [Earlier]
    ensures var r := CompareFiles(current, previous);
      && r.newEntries == []
      && r.deletedEntries == []
      && r.changedEntries == [ChangedRow(Bolt, 5)]
  {
    var r := CompareFiles(current, previous);
    CompareFilesCorrect(current, previous);
    OneAgainstOne(current, previous);
    OneRow(r.changedEntries, ChangedRow(Bolt, 5));
  }

  /** Two identical current rows against one previous row of another
      quantity give two changed entries: the comparison is a cross product,
      not a positional pairing. */
  lemma DuplicateCurrentRows(current: seq<Row>, previous: seq<Row>)
    requires current == [Bolt, Bolt] && previous == [Earlier]
    ensures var r := CompareFiles(current, previous);
      && r.newEntries == []
      && r.deletedEntries == []
      && r.changedEntries == [ChangedRow(Bolt, 5), ChangedRow(Bolt, 5)]
  {
    var r := CompareFiles(current, previous);
    CompareFilesCorrect(current, previous);
    TwoAgainstOne(current, previous);
    TwoRows(r.changedEntries, ChangedRow(Bolt, 5));
  }

  /** Comparing a snapshot with itself is not always empty: two rows at the
      same key and date with different quantities each pair with the other. */
  lemma SelfComparisonWithConflictingSlot(rows: seq<Row>)
    requires rows == [Bolt, Earlier]
    ensures var r := CompareFiles(rows, rows);
      multiset(r.changedEntries) == multiset{ChangedRow(Bolt, 5), ChangedRow(Earlier, 10)}
  {
    CompareFilesCorrect(rows, rows);
    SelfPairs(rows);
  }

  lemma SelfPairs(rows: seq<Row>)
    requires rows == [Bolt, Earlier]
    ensures ChangedPairs(rows, rows) == [ChangedRow(Bolt, 5), ChangedRow(Earlier, 10)]
  {
    assert rows[1..] == [Earlier];
    assert PairsOf(Bolt, [Earlier]) == [ChangedRow(Bolt, 5)];
    assert PairsOf(Bolt, rows) == [ChangedRow(Bolt, 5)];
    assert PairsOf(Earlier, [Earlier]) == [];
    assert PairsOf(Earlier, rows) == [ChangedRow(Earlier, 10)];
    assert ChangedPairs([Earlier], rows) == [ChangedRow(Earlier, 10)];
  }
}
