/** Which cells of the "Changed Entries" sheet receive the highlight fill.
    The sheet is re-read as a table: data row i (counted from 0) sits on
    sheet row i + 2, because sheet rows count from 1 and row 1 holds the
    header; the column at position p (counted from 0) is sheet column p + 1.
    Only the columns named exactly "Quantity" and "Previous Quantity" are
    filled. */
module Highlight {
  import opened Records

  const QuantityColumn := "Quantity"
  const PreviousQuantityColumn := "Previous Quantity"

  /** Sheet row of the first data row. */
  const RowOffset := 2

  /** A sheet cell, both coordinates counted from 1. */
  datatype Cell = Cell(row: int, column: int)

  predicate IsHighlighted(name: string) {
    name == QuantityColumn || name == PreviousQuantityColumn
  }

  /** A cell a sheet with `rowCount` data rows and these columns may fill:
      below the header, inside the table, under a highlighted column. */
  predicate InQuantityColumns(cell: Cell, rowCount: nat, columns: seq<string>) {
    && RowOffset <= cell.row < rowCount + RowOffset
    && 1 <= cell.column <= |columns|
    && IsHighlighted(columns[cell.column - 1])
  }

  /** The position of the first column with this name, as a table's column
      index reports it. */
  function ColumnPosition(columns: seq<string>, name: string): (p: nat)
    requires name in columns
    ensures p < |columns| && columns[p] == name
    ensures forall q :: 0 <= q < p ==> columns[q] != name
  {
    if columns[0] == name then 0 else 1 + ColumnPosition(columns[1..], name)
  }

  /** The cells filled on the sheet row of data row `index`, for the
      columns from position `p` on, in column order. */
  function RowCells(index: nat, columns: seq<string>, p: nat): (cells: seq<Cell>)
    requires p <= |columns|
    ensures forall cell :: cell in cells ==>
      && cell.row == index + RowOffset
      && 1 <= cell.column <= |columns|
      && IsHighlighted(columns[cell.column - 1])
    decreases |columns| - p
  {
    if p == |columns| then []
    else
      var here := if IsHighlighted(columns[p])
        then [Cell(index + RowOffset, ColumnPosition(columns, columns[p]) + 1)]
        else [];
      here + RowCells(index, columns, p + 1)
  }

  /** The cells filled for data rows `index` up to `rowCount - 1`. */
  function CellsFrom(index: nat, rowCount: nat, columns: seq<string>): (cells: seq<Cell>)
    requires index <= rowCount
    ensures forall cell :: cell in cells ==>
      InQuantityColumns(cell, rowCount, columns) && cell.row >= index + RowOffset
    decreases rowCount - index
  {
    if index == rowCount then []
    else RowCells(index, columns, 0) + CellsFrom(index + 1, rowCount, columns)
  }

  /** Every cell the highlighting step fills, row by row: never the header
      row, never outside the table, never under another column; nothing at
      all when there are no data rows. */
  function HighlightCells(rowCount: nat, columns: seq<string>): (cells: seq<Cell>)
    ensures forall cell :: cell in cells ==> InQuantityColumns(cell, rowCount, columns)
    ensures forall cell :: cell in cells ==> cell.row != 1
    ensures rowCount == 0 ==> cells == []
  {
    CellsFrom(0, rowCount, columns)
  }

  /** The number of highlighted columns from position `p` on. */
  function HighlightedColumns(columns: seq<string>, p: nat): nat
    requires p <= |columns|
    decreases |columns| - p
  {
    if p == |columns| then 0
    else (if IsHighlighted(columns[p]) then 1 else 0) + HighlightedColumns(columns, p + 1)
  }

  /** With distinct column names (a table read back from a sheet has them),
      every highlighted column at or after `p` yields its cell on the row. */
  lemma {:induction false} RowCellsComplete(index: nat, columns: seq<string>, p: nat, cell: Cell)
    requires Distinct(columns)
    requires p <= |columns|
    requires cell.row == index + RowOffset && p + 1 <= cell.column <= |columns|
    requires IsHighlighted(columns[cell.column - 1])
    ensures cell in RowCells(index, columns, p)
    decreases |columns| - p
  {
    if cell.column == p + 1 {
      var q := ColumnPosition(columns, columns[p]);
      assert q == p;
    } else {
      RowCellsComplete(index, columns, p + 1, cell);
    }
  }

  lemma {:induction false} CellsFromComplete(index: nat, rowCount: nat, columns: seq<string>, cell: Cell)
    requires Distinct(columns)
    requires index <= rowCount
    requires InQuantityColumns(cell, rowCount, columns) && cell.row >= index + RowOffset
    ensures cell in CellsFrom(index, rowCount, columns)
    decreases rowCount - index
  {
    if cell.row == index + RowOffset {
      RowCellsComplete(index, columns, 0, cell);
    } else {
      CellsFromComplete(index + 1, rowCount, columns, cell);
    }
  }

  /** With distinct column names, the filled cells are exactly the pairs
      (i + 2, p + 1) of a data row index i and the position p of a column
      named "Quantity" or "Previous Quantity". */
  lemma HighlightCellsExactly(rowCount: nat, columns: seq<string>)
    requires Distinct(columns)
    ensures forall cell :: cell in HighlightCells(rowCount, columns) <==> InQuantityColumns(cell, rowCount, columns)
  {
    forall cell | InQuantityColumns(cell, rowCount, columns)
      ensures cell in HighlightCells(rowCount, columns)
    {
      CellsFromComplete(0, rowCount, columns, cell);
    }
  }

  lemma {:induction false} RowCellsLength(index: nat, columns: seq<string>, p: nat)
    requires p <= |columns|
    ensures |RowCells(index, columns, p)| == HighlightedColumns(columns, p)
    decreases |columns| - p
  {
    if p < |columns| {
      RowCellsLength(index, columns, p + 1);
    }
  }

  lemma {:induction false} CellsFromLength(index: nat, rowCount: nat, columns: seq<string>)
    requires index <= rowCount
    ensures |CellsFrom(index, rowCount, columns)| == (rowCount - index) * HighlightedColumns(columns, 0)
    decreases rowCount - index
  {
    if index < rowCount {
      RowCellsLength(index, columns, 0);
      CellsFromLength(index + 1, rowCount, columns);
      assert (rowCount - index) * HighlightedColumns(columns, 0)
          == HighlightedColumns(columns, 0) + (rowCount - (index + 1)) * HighlightedColumns(columns, 0);
    }
  }

  /** One fill per data row and highlighted column. */
  lemma HighlightCellsCount(rowCount: nat, columns: seq<string>)
    ensures |HighlightCells(rowCount, columns)| == rowCount * HighlightedColumns(columns, 0)
  {
    CellsFromLength(0, rowCount, columns);
  }
}
