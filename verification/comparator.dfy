/** The comparison algorithm as the program runs it: both snapshots are
    grouped by (Material No, Material Description); the groups of the
    current snapshot are visited in ascending key order, then those of the
    previous snapshot. */
module Comparator {
  import opened Records
  import opened Selection
  import opened KeyOrder

  /** The rows of one group: `groupby(...).get_group(k)`. */
  function Group(rows: seq<Row>, k: Key): seq<Row> {
    Select(rows, KeyOf, {k})
  }

  /** The rows of a group at one delivery date: `group[group['Delivery Date'] == date]`. */
  function AtDate(rows: seq<Row>, d: int): seq<Row> {
    Select(rows, DateOf, {d})
  }

  /** The delivery dates of `rows` that lie in `dates`, each once, in order of
      first occurrence after the dates already `seen`. The program iterates a
      set here, whose order is unspecified; first occurrence is one such order. */
  function CommonDatesFrom(rows: seq<Row>, dates: set<int>, seen: set<int>): (ds: seq<int>)
    ensures Distinct(ds)
    ensures forall d :: d in ds <==> d in DateSet(rows) && d in dates && d !in seen
  {
    if rows == [] then []
    else
      assert rows == [rows[0]] + rows[1..];
      var d := rows[0].deliveryDate;
      if d in seen || d !in dates then CommonDatesFrom(rows[1..], dates, seen)
      else [d] + CommonDatesFrom(rows[1..], dates, seen + {d})
  }

  /** `current_dates & previous_dates`, in the order the loop visits them. */
  function CommonDates(group: seq<Row>, previousDates: set<int>): seq<int> {
    CommonDatesFrom(group, previousDates, {})
  }

  /** The inner loop over previous rows: one changed row per previous row
      whose quantity differs from the current row's. */
  function Against(current: Row, previousRows: seq<Row>): (r: seq<ChangedRow>)
    ensures forall x :: x in r ==> x.row == current
  {
    if previousRows == [] then []
    else
      var p := previousRows[0];
      (if current.quantity != p.quantity then [ChangedRow(current, p.quantity)] else [])
      + Against(current, previousRows[1..])
  }

  /** The two nested loops at one common date: every current row against
      every previous row at that date. */
  function Cross(currentRows: seq<Row>, previousRows: seq<Row>): (r: seq<ChangedRow>)
    ensures forall x :: x in r ==> x.row in currentRows
  {
    if currentRows == [] then []
    else Against(currentRows[0], previousRows) + Cross(currentRows[1..], previousRows)
  }

  /** The loop over the common dates of one shared key. */
  function ChangedAtDates(group: seq<Row>, previousGroup: seq<Row>, dates: seq<int>): (r: seq<ChangedRow>)
    ensures forall x :: x in r ==> x.row in group
  {
    if dates == [] then []
    else
      Cross(AtDate(group, dates[0]), AtDate(previousGroup, dates[0]))
      + ChangedAtDates(group, previousGroup, dates[1..])
  }

  /** A key present in both snapshots: the current rows at dates the previous
      group lacks are new, the previous rows at dates the current group lacks
      are deleted, and the rows at common dates are compared pairwise. */
  function CompareGroup(group: seq<Row>, previousGroup: seq<Row>): Comparison {
    var currentDates := DateSet(group);
    var previousDates := DateSet(previousGroup);
    var newDates := currentDates - previousDates;
    var deletedDates := previousDates - currentDates;
    Comparison(
      Select(group, DateOf, newDates),
      Select(previousGroup, DateOf, deletedDates),
      ChangedAtDates(group, previousGroup, CommonDates(group, previousDates)))
  }

  /** The contribution of the current group with key `k`. */
  function CurrentGroupStep(current: seq<Row>, previous: seq<Row>, k: Key): Comparison {
    var group := Group(current, k);
    if k !in KeySet(previous) then Comparison(group, [], [])
    else CompareGroup(group, Group(previous, k))
  }

  /** The first loop, over the current groups with keys `ks` in order. */
  function CurrentPass(current: seq<Row>, previous: seq<Row>, ks: seq<Key>): Comparison {
    if ks == [] then Comparison([], [], [])
    else
      var here := CurrentGroupStep(current, previous, ks[0]);
      var rest := CurrentPass(current, previous, ks[1..]);
      Comparison(
        here.newEntries + rest.newEntries,
        here.deletedEntries + rest.deletedEntries,
        here.changedEntries + rest.changedEntries)
  }

  /** The contribution of the previous group with key `k` in the second loop. */
  function PreviousGroupStep(current: seq<Row>, previous: seq<Row>, k: Key): seq<Row> {
    if k !in KeySet(current) then Group(previous, k) else []
  }

  /** The second loop, over the previous groups with keys `ks` in order:
      whole groups the current snapshot does not have are deleted. */
  function PreviousPass(current: seq<Row>, previous: seq<Row>, ks: seq<Key>): seq<Row> {
    if ks == [] then []
    else PreviousGroupStep(current, previous, ks[0]) + PreviousPass(current, previous, ks[1..])
  }

  /** The whole comparison of a current snapshot against a previous one. */
  function CompareFiles(current: seq<Row>, previous: seq<Row>): Comparison {
    var first := CurrentPass(current, previous, SortedKeys(current));
    Comparison(
      first.newEntries,
      first.deletedEntries + PreviousPass(current, previous, SortedKeys(previous)),
      first.changedEntries)
  }
}
