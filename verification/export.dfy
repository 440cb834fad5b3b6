/** One run of the comparison from two loaded tables to the report: the
    order-line column is dropped from both tables, both must then carry the
    two key columns, the comparison runs (and fails when it has to read a
    column a table lacks), and the quantity cells of the "Changed Entries"
    sheet are highlighted. */
module Export {
  import opened Records
  import opened Selection
  import opened Comparator
  import opened Highlight
  import opened Properties

  /** The order-line column ("order column no.") removed before comparing. */
  const OrderColumn := "Sip. Klm. No."
  const MaterialNoColumn := "Material No"
  const MaterialDescriptionColumn := "Material Description"
  const DeliveryDateColumn := "Delivery Date"

  /** A loaded table: its header and its rows. */
  datatype Table = Table(columns: seq<string>, rows: seq<Row>)

  /** Why a run stops without a report. */
  datatype ExportError =
    | MissingOrderColumn   // dropping the order-line column fails
    | MissingKeyColumns    // a table lacks "Material No" or "Material Description"
    | MissingDataColumn    // the comparison reads a date or quantity column a table lacks

  datatype Result<T> = Success(value: T) | Failure(error: ExportError)

  /** The three result tables, the header of the "Changed Entries" sheet and
      the cells filled on that sheet. */
  datatype Report = Report(comparison: Comparison, changedColumns: seq<string>, highlighted: seq<Cell>)

  /** The header without every column of the given name: the other columns
      keep their order and their number of occurrences. */
  function DropColumn(columns: seq<string>, name: string): (r: seq<string>)
    ensures forall c :: c in r <==> c in columns && c != name
    ensures forall c :: multiset(r)[c] == if c == name then 0 else multiset(columns)[c]
    ensures Subsequence(r, columns)
    ensures Distinct(columns) ==> Distinct(r)
  {
    if columns == [] then []
    else
      assert columns == [columns[0]] + columns[1..];
      var rest := DropColumn(columns[1..], name);
      assert Distinct(columns) ==> Distinct(columns[1..]) && columns[0] !in columns[1..];
      if columns[0] == name then rest
      else
        assert ([columns[0]] + rest)[1..] == rest;
        [columns[0]] + rest
  }

  predicate HasKeyColumns(columns: seq<string>) {
    MaterialDescriptionColumn in columns && MaterialNoColumn in columns
  }

  /** The comparison reads the delivery dates of both groups of every key the
      snapshots share, and the quantities of both rows of every pair at a
      shared (key, delivery date) slot; it fails when such a read finds the
      column missing. Nothing else is read, so a missing date or quantity
      column is harmless when nothing is shared. */
  predicate ReadsMissingColumn(currentColumns: seq<string>, previousColumns: seq<string>,
                               current: seq<Row>, previous: seq<Row>) {
    || (KeySet(current) * KeySet(previous) != {}
        && (DeliveryDateColumn !in currentColumns || DeliveryDateColumn !in previousColumns))
    || (SlotSet(current) * SlotSet(previous) != {}
        && (QuantityColumn !in currentColumns || QuantityColumn !in previousColumns))
  }

  /** The header of the "Changed Entries" sheet: empty when there are no
      changed rows, otherwise the current table's header with "Previous
      Quantity" appended, unless a column of that name already exists, which
      is then overwritten in place. */
  function ChangedSheetColumns(changed: seq<ChangedRow>, currentColumns: seq<string>): (r: seq<string>)
    ensures changed == [] ==> r == []
    ensures changed != [] ==> PreviousQuantityColumn in r
    ensures changed != [] ==> forall c :: c in r <==> c in currentColumns || c == PreviousQuantityColumn
    ensures changed != [] ==> |currentColumns| <= |r| && r[..|currentColumns|] == currentColumns
    ensures changed != [] && PreviousQuantityColumn in currentColumns ==> |r| == |currentColumns|
    ensures changed != [] && PreviousQuantityColumn !in currentColumns ==> |r| == |currentColumns| + 1
  {
    if changed == [] then []
    else if PreviousQuantityColumn in currentColumns then currentColumns
    else currentColumns + [PreviousQuantityColumn]
  }

  /** A run either stops with the first failure that applies, or returns the
      comparison of the two snapshots together with the highlighted cells of
      the sheet of changed rows. */
  function CompareAndExport(current: Table, previous: Table): (r: Result<Report>)
    ensures r.Failure? && r.error == MissingOrderColumn
        <==> OrderColumn !in current.columns || OrderColumn !in previous.columns
    ensures r.Failure? && r.error == MissingKeyColumns
        <==> OrderColumn in current.columns && OrderColumn in previous.columns
             && !(HasKeyColumns(current.columns) && HasKeyColumns(previous.columns))
    ensures r.Success?
        <==> OrderColumn in current.columns && OrderColumn in previous.columns
             && HasKeyColumns(current.columns) && HasKeyColumns(previous.columns)
             && !ReadsMissingColumn(DropColumn(current.columns, OrderColumn),
                                    DropColumn(previous.columns, OrderColumn),
                                    current.rows, previous.rows)
    ensures r.Success? ==> r.value.comparison == CompareFiles(current.rows, previous.rows)
    ensures r.Success? ==> OrderColumn !in r.value.changedColumns
    ensures r.Success? ==>
      r.value.changedColumns == ChangedSheetColumns(r.value.comparison.changedEntries,
                                                    DropColumn(current.columns, OrderColumn))
    ensures r.Success? ==> forall cell :: cell in r.value.highlighted ==>
      InQuantityColumns(cell, |r.value.comparison.changedEntries|, r.value.changedColumns)
  {
    if OrderColumn !in current.columns || OrderColumn !in previous.columns then
      Failure(MissingOrderColumn)
    else
      var currentColumns := DropColumn(current.columns, OrderColumn);
      var previousColumns := DropColumn(previous.columns, OrderColumn);
      if !HasKeyColumns(currentColumns) || !HasKeyColumns(previousColumns) then
        Failure(MissingKeyColumns)
      else if ReadsMissingColumn(currentColumns, previousColumns, current.rows, previous.rows) then
        Failure(MissingDataColumn)
      else
        var comparison := CompareFiles(current.rows, previous.rows);
        var sheet := ChangedSheetColumns(comparison.changedEntries, currentColumns);
        Success(Report(comparison, sheet, HighlightCells(|comparison.changedEntries|, sheet)))
  }

  /** A changed row only arises at a slot both snapshots share; so a
      comparison with a changed row reads both snapshots at some slot. */
  lemma ChangedNeedsSharedSlot(current: seq<Row>, previous: seq<Row>)
    ensures forall x :: x in CompareFiles(current, previous).changedEntries ==>
      ChangedSlot(x) in SlotSet(current) * SlotSet(previous)
    ensures CompareFiles(current, previous).changedEntries != [] ==>
      SlotSet(current) * SlotSet(previous) != {}
  {
    var changed := CompareFiles(current, previous).changedEntries;
    forall x | x in changed
      ensures ChangedSlot(x) in SlotSet(current) * SlotSet(previous)
    {
      ChangedEntriesMember(current, previous, x);
      var p :| p in previous && SlotOf(p) == SlotOf(x.row) && p.quantity == x.previousQuantity;
      assert SlotOf(x.row) in SlotSet(previous);
    }
    if changed != [] {
      assert changed[0] in changed;
    }
  }

  /** When the current table's header is free of repeats, the filled cells
      are exactly the "Quantity" cell and the "Previous Quantity" cell of
      each changed row. The latter is in the last column unless the current
      header already had a "Previous Quantity" column, which keeps its place.
      A report with changed rows always has a "Quantity" column, since
      producing a changed row reads it. */
  lemma HighlightsBothQuantities(current: Table, previous: Table)
    requires CompareAndExport(current, previous).Success?
    requires Distinct(current.columns)
    ensures var report := CompareAndExport(current, previous).value;
      var n := |report.comparison.changedEntries|;
      var sheet := report.changedColumns;
      && |report.highlighted| == 2 * n
      && (n > 0 ==> QuantityColumn in sheet && PreviousQuantityColumn in sheet)
      && (n > 0 ==> forall cell :: cell in report.highlighted <==>
           && RowOffset <= cell.row < n + RowOffset
           && (|| cell.column == ColumnPosition(sheet, QuantityColumn) + 1
               || cell.column == ColumnPosition(sheet, PreviousQuantityColumn) + 1))
      && (n > 0 && PreviousQuantityColumn !in current.columns ==>
           && sheet == DropColumn(current.columns, OrderColumn) + [PreviousQuantityColumn]
           && ColumnPosition(sheet, PreviousQuantityColumn) + 1 == |sheet|)
      && (n > 0 && PreviousQuantityColumn in current.columns ==>
           sheet == DropColumn(current.columns, OrderColumn))
  {
    var report := CompareAndExport(current, previous).value;
    var n := |report.comparison.changedEntries|;
    var columns := DropColumn(current.columns, OrderColumn);
    var sheet := report.changedColumns;
    if n > 0 {
      ChangedNeedsSharedSlot(current.rows, previous.rows);
      assert QuantityColumn in columns;
      assert PreviousQuantityColumn in columns <==> PreviousQuantityColumn in current.columns;
      if PreviousQuantityColumn in columns {
        assert sheet == columns;
      } else {
        assert sheet == columns + [PreviousQuantityColumn];
        assert sheet[|sheet| - 1] == PreviousQuantityColumn;
      }
      QuantityCells(n, sheet);
    } else {
      HighlightCellsCount(n, sheet);
    }
  }

  /** On a header without repeats that has both quantity columns, the filled
      cells of `rowCount` data rows are the two quantity cells of each row. */
  lemma QuantityCells(rowCount: nat, columns: seq<string>)
    requires Distinct(columns)
    requires QuantityColumn in columns && PreviousQuantityColumn in columns
    ensures |HighlightCells(rowCount, columns)| == 2 * rowCount
    ensures forall cell :: cell in HighlightCells(rowCount, columns) <==>
      && RowOffset <= cell.row < rowCount + RowOffset
      && (|| cell.column == ColumnPosition(columns, QuantityColumn) + 1
          || cell.column == ColumnPosition(columns, PreviousQuantityColumn) + 1)
  {
    var q := ColumnPosition(columns, QuantityColumn);
    var pq := ColumnPosition(columns, PreviousQuantityColumn);
    HighlightCellsExactly(rowCount, columns);
    assert HighlightedColumns(columns, 0) == 2 by {
      if q < pq {
        HighlightedPair(columns, q, pq);
      } else {
        HighlightedPair(columns, pq, q);
      }
    }
    HighlightCellsCount(rowCount, columns);
    forall cell | InQuantityColumns(cell, rowCount, columns)
      ensures cell.column == q + 1 || cell.column == pq + 1
    {
      var c := cell.column - 1;
      if columns[c] == QuantityColumn {
        assert columns[c] == columns[q];
      } else {
        assert columns[c] == columns[pq];
      }
    }
  }

  /** A header without repeats in which exactly the positions `a` < `b` name
      highlighted columns has two of them. */
  lemma HighlightedPair(columns: seq<string>, a: nat, b: nat)
    requires Distinct(columns)
    requires a < b < |columns|
    requires IsHighlighted(columns[a]) && IsHighlighted(columns[b])
    ensures HighlightedColumns(columns, 0) == 2
  {
    HighlightedCountFrom(columns, 0, a, b);
  }

  lemma {:induction false} HighlightedCountFrom(columns: seq<string>, p: nat, a: nat, b: nat)
    requires Distinct(columns)
    requires p <= |columns| && a < b < |columns|
    requires IsHighlighted(columns[a]) && IsHighlighted(columns[b])
    ensures HighlightedColumns(columns, p) == (if p <= a then 2 else if p <= b then 1 else 0)
    decreases |columns| - p
  {
    if p < |columns| {
      HighlightedCountFrom(columns, p + 1, a, b);
      if p != a && p != b {
        assert columns[p] != columns[a] && columns[p] != columns[b];
        assert columns[a] != columns[b];
      }
    }
  }
}
