# Excel comparator: a Dafny model of the snapshot comparison

The program compares two spreadsheet snapshots of a delivery schedule, the
"current" and the "previous" one. Both are grouped by the composite key
(Material No, Material Description) and, inside a key, by delivery date. The
program then produces three tables:

- **New Entries**: current rows whose key, or whose delivery date within a
  shared key, the previous snapshot lacks.
- **Deleted Entries**: the same, with the roles of the snapshots swapped.
- **Changed Entries**: for each delivery date a key has in both snapshots,
  every pair of a current and a previous row at that date whose quantities
  differ. The current row is copied and given a "Previous Quantity" column.

The report is written to a workbook. On its "Changed Entries" sheet, the
cells under "Quantity" and "Previous Quantity" are filled yellow.

The model consists of these modules:

- `Records`: rows, keys, (key, date) slots and the result tables.
- `Selection`: a generic order-preserving filter. It stands for the pandas
  selections (`get_group`, `isin`, `== date`).
- `KeyOrder`: lexicographic key order and the sorted key list that
  `groupby` visits.
- `Comparator`: `compare_files` itself, loop by loop.
- `Reference`: what the three tables are meant to contain, defined row by
  row with no grouping.
- `Correctness`: the theorem that the algorithm produces the reference
  tables up to row order.
- `Properties`: its consequences.
- `Ordering`: the order of rows in the result tables.
- `Highlight`: the cell arithmetic of `highlight_differences`.
- `Export`: one run from the two loaded tables to the highlighted report,
  with its error exits.
- `Scenarios`: small worked examples.

Rows carry integer delivery dates and quantities. Every other column rides
along in `others`, untouched. The order-line column "Sip. Klm. No." is
already gone from a `Row`. `Export` tracks the table headers separately, to
model the column checks.

Comparing the same snapshots twice gives the same tables, because
`CompareFiles` is a function.

Two behaviours of the code are easy to get wrong:

- **Identical inputs can yield changed rows.** Comparing a snapshot with
  itself gives no new and no deleted entries. The changed table, however, is
  empty exactly when no (key, date) slot holds two rows with different
  quantities: the cross product pairs such rows with each other.
  `Properties.IdenticalSnapshots` proves this and
  `Scenarios.SelfComparisonWithConflictingSlot` shows it happening.
- **Swapping the inputs keeps the changed-row count.** The number of changed
  rows is the same in both directions (`Properties.SwapSnapshots`). Only the
  roles of "Quantity" and "Previous Quantity" swap.

## Model

| member | source | states |
|---|---|---|
| Correctness.CompareFilesCorrect | excel_comparator.py:112-156 | up to row order, new entries are the current rows whose (key, date) slot the previous snapshot lacks, deleted entries the previous rows whose slot the current snapshot lacks, changed entries one per differing (current, previous) pair at a shared slot |
| Correctness.CurrentPassCorrect | excel_comparator.py:129-150 | the loop over current groups, for any list of distinct keys, yields exactly the unmatched rows and differing pairs of those keys |
| Correctness.PreviousPassCorrect | excel_comparator.py:152-154 | the loop over previous groups yields exactly the unmatched previous rows whose key the current snapshot lacks |
| Correctness.NewStep | excel_comparator.py:129-140 | one current group contributes to new entries exactly the unmatched current rows of its key, whether or not the key is shared |
| Correctness.DeletedStep | excel_comparator.py:133-141 | one current group contributes to deleted entries exactly the previous rows of its key at dates the current group lacks |
| Correctness.PreviousStep | excel_comparator.py:152-154 | a previous group is deleted whole exactly when the current snapshot lacks its key, and then consists of unmatched rows |
| Correctness.ChangedStep | excel_comparator.py:142-150 | the changed rows one group produces are, as a multiset, the differing pairs of its key |
| Correctness.ChangedAtDatesCorrect | excel_comparator.py:142-150 | the loop over distinct dates yields the differing pairs at exactly those dates |
| Correctness.CrossSlot | excel_comparator.py:143-150 | the two nested row loops at one slot produce the differing pairs of those current rows |
| Correctness.AgainstSlot | excel_comparator.py:146-150 | the inner loop over previous rows at a row's slot gives that row's differing pairs, with the previous quantity attached |
| Correctness.SharedGroupDiff | excel_comparator.py:134-140 | selecting a group's rows at dates absent from the other group's dates selects exactly the rows whose slot the other snapshot lacks |
| Correctness.AbsentGroup | excel_comparator.py:130-131 | the group of a key a snapshot does not have is empty |
| Properties.NewEntriesCount | excel_comparator.py:129-140 | a row occurs among new entries as often as in the current snapshot when its slot is absent from the previous one, otherwise never; for a shared key this is the date test of the code |
| Properties.DeletedEntriesCount | excel_comparator.py:133-154 | the same count for deleted entries against the current snapshot, from both loops together |
| Properties.Provenance | excel_comparator.py:131 | new entries are a sub-multiset of the current rows and deleted entries of the previous rows |
| Properties.CurrentOnlyGroup | excel_comparator.py:129-131 | a key only the current snapshot has goes to new entries whole and produces no changed row |
| Properties.PreviousOnlyGroup | excel_comparator.py:152-154 | a key only the previous snapshot has goes to deleted entries whole |
| Properties.ChangedEntriesMember | excel_comparator.py:142-150 | a changed entry exists exactly when a current row and a previous row share key and date but not quantity, and it carries the previous row's quantity |
| Properties.ChangedEntriesAtSlot | excel_comparator.py:143-150 | at each (key, date) slot there are as many changed entries as differing pairs of the rows at that slot |
| Properties.PairCountAtSlot | excel_comparator.py:144-147 | counting a slot's differing pairs against the whole previous snapshot equals counting against the previous rows at that slot |
| Properties.ChangedEntriesTotal | excel_comparator.py:142-150 | the number of changed entries is the number of differing pairs |
| Properties.SwapSnapshots | excel_comparator.py:112-156 | swapping the snapshots swaps new and deleted entries as multisets, keeps the number of changed entries, and maps each changed entry to one with the quantities exchanged |
| Properties.DisjointKeys | excel_comparator.py:129-131 | snapshots with no key in common give every current row as new, every previous row as deleted, and no changed rows |
| Properties.DisjointKeysNoChanges | excel_comparator.py:142-150 | no key in common means no changed entry |
| Properties.NoPairsAcrossKeys | excel_comparator.py:147 | rows whose keys the previous snapshot lacks form no differing pair |
| Properties.IdenticalSnapshots | excel_comparator.py:129-154 | a snapshot compared with itself has no new and no deleted entries, and no changed entries exactly when each slot holds one quantity |
| Ordering.CompareFilesInKeyOrder | excel_comparator.py:115-154 | new and changed entries come out grouped by key in ascending key order; deleted entries are one such run for keys the current snapshot has, followed by one for keys it lacks |
| Ordering.CurrentPassInKeyOrder | excel_comparator.py:129-150 | visiting strictly ascending keys emits each table's rows in key order, with only those keys |
| Ordering.PreviousPassInKeyOrder | excel_comparator.py:152-154 | the second loop emits whole groups in key order, only of keys the current snapshot lacks |
| KeyOrder.SortedKeys | excel_comparator.py:115-127 | the keys `groupby` visits are each key of the snapshot once, in strictly ascending order |
| KeyOrder.Insert | excel_comparator.py:126-127 | inserting a key keeps the key list strictly sorted and adds exactly that key |
| KeyOrder.KeyLessStrictTotal | excel_comparator.py:115 | ordering by Material No and then Material Description is irreflexive, transitive and total |
| KeyOrder.StrLessTransitive | excel_comparator.py:115 | lexicographic string order is transitive |
| KeyOrder.StrLessTotal | excel_comparator.py:115 | any two different strings are ordered one way or the other |
| KeyOrder.SortedIsDistinct | excel_comparator.py:126-127 | a strictly sorted key list names each group once |
| Comparator.CommonDatesFrom | excel_comparator.py:138 | the common dates are visited once each, and they are exactly the dates of the current group also present in the previous group |
| Comparator.ChangedAtDates | excel_comparator.py:142-150 | every changed row of a shared key copies a row of that key's current group |
| Comparator.Cross | excel_comparator.py:145-150 | every changed row of one date copies a current row of that date |
| Comparator.Against | excel_comparator.py:146-150 | every changed row the inner loop builds copies the current row it was built from |
| Selection.Select | excel_comparator.py:140-144 | a selection keeps exactly the rows whose selected field lies in the given set, and they form a subsequence of the input, so their order is kept |
| Selection.SelectCount | excel_comparator.py:140-144 | a selection keeps every occurrence of a selected row and drops every occurrence of the others |
| Selection.SelectPermutation | excel_comparator.py:140-144 | selecting from two inputs that hold the same rows with the same multiplicities gives selections with the same rows and multiplicities |
| Reference.Unmatched | excel_comparator.py:129-141 | the reference table of unmatched rows holds exactly the rows whose slot the other snapshot lacks |
| Reference.UnmatchedCount | excel_comparator.py:129-141 | each unmatched row keeps its multiplicity |
| Reference.ChangedPairsMember | excel_comparator.py:145-150 | the reference changed table holds exactly the current rows paired with a previous quantity that differs at the same slot |
| Reference.ChangedPairsLength | excel_comparator.py:145-150 | the reference changed table has one row per differing pair |
| Reference.PairCountSymmetric | excel_comparator.py:145-147 | the number of differing pairs does not depend on which snapshot is current |
| Highlight.HighlightCells | excel_comparator.py:167-173 | every filled cell lies below the header, inside the table and under a "Quantity" or "Previous Quantity" column, and nothing is filled when there are no data rows |
| Highlight.HighlightCellsExactly | excel_comparator.py:165-173 | with distinct column names the filled cells are exactly data row i plus 2 by column position p plus 1, for each highlighted column |
| Highlight.HighlightCellsCount | excel_comparator.py:167-173 | one cell is filled per data row and highlighted column |
| Highlight.ColumnPosition | excel_comparator.py:171 | a column name is located at its first position in the header |
| Highlight.RowCells | excel_comparator.py:168-173 | the cells filled on one row all sit on that row's sheet row and under highlighted columns |
| Export.CompareAndExport | excel_comparator.py:77-110 | a run succeeds exactly when both tables have the order-line column, both key columns, and every date or quantity column the comparison reads. A missing order-line column, then a missing key column, stops the run with that error. A successful report carries the comparison of the two snapshots. Its "Changed Entries" header is the current header without the order-line column, with "Previous Quantity" added (none when nothing changed). Only quantity cells are highlighted |
| Export.DropColumn | excel_comparator.py:78-79 | dropping the order-line column removes every copy of it and keeps every other column, in order and with its number of occurrences |
| Export.ChangedSheetColumns | excel_comparator.py:148-150 | the changed sheet has no header when nothing changed. Otherwise its header starts with the current header unchanged: it is exactly that header when "Previous Quantity" is already present (the column is overwritten in place), and that header with "Previous Quantity" appended last when it is not |
| Export.ChangedNeedsSharedSlot | excel_comparator.py:142-147 | every changed entry sits at a (key, date) slot both snapshots share, so a comparison with a changed entry has such a slot |
| Export.HighlightsBothQuantities | excel_comparator.py:148-173 | when the current header has no repeats, the filled cells are exactly the "Quantity" and "Previous Quantity" cells of each changed row (two per row); without a "Previous Quantity" column in the current header, the sheet header is the current header minus the order-line column with "Previous Quantity" appended last; with one, that column keeps its place |
| Export.QuantityCells | excel_comparator.py:165-173 | on a repeat-free sheet header with both quantity columns, the filled cells are exactly the two quantity cells of each data row |
| Scenarios.QuantityChanged | excel_comparator.py:142-150 | one row whose quantity fell from 10 to 5 yields exactly one changed entry recording 5 and nothing else |
| Scenarios.DuplicateCurrentRows | excel_comparator.py:145-150 | two identical current rows against one differing previous row yield two changed entries |
| Scenarios.OnlyCurrentRow | excel_comparator.py:129-131 | a single row against an empty previous snapshot is new and nothing else |
| Scenarios.SelfComparisonWithConflictingSlot | excel_comparator.py:142-150 | a snapshot holding two quantities at one slot, compared with itself, yields two changed entries |

## Left out

- The Qt window, the file pickers and the message boxes are left out. So is
  the check that both file paths are chosen (lines 64-67). They are user
  interface, not comparison logic.
- Reading the workbooks, writing `Comparison_Result.xlsx` and the error log
  are left out: this is file I/O. A table is given as its header and rows,
  and the report as a value.
- The write step (lines 95-104) and the highlight step (lines 106-110) can
  fail independently. The model has no I/O failures, so `Export` always
  produces the highlighted report.
- Cell values are exact integers. Floating-point quantities, NaN (which
  never equals itself, so NaN quantities always differ) and NaN keys (which
  `groupby` drops) are not modelled.
- Dates are compared by value, whatever their spreadsheet type.
- Strings are ordered by character code, position by position. pandas
  compares Python strings the same way. Numeric or mixed-type "Material No"
  columns, which pandas orders differently, are not modelled.
- The sort on two columns (lines 115-116) is stable, so rows of one key keep
  their input order. The model does the same: within a group, rows stay in
  input order.
- The iteration order of the Python set of common dates is unspecified. The
  model visits the dates in order of first occurrence in the current group.
  The results are stated as multisets, so they hold for any date order.
- Comparator.CompareFiles: `pd.concat` aligns columns by name and fills
  missing cells with NaN. The model keeps each row's own cells and does not
  model the union header of a result table.
- Export.CompareAndExport: a `compare_files` failure is modelled only for a
  missing "Delivery Date" or "Quantity" column that the comparison actually
  reads. Other exceptions pandas may raise are not modelled: unorderable key
  values, and a duplicate "Previous Quantity" assignment that changes the
  row shape.
- Highlight.HighlightCellsExactly: the exact characterization assumes
  distinct column names. pandas renames repeated headers when it reads a
  sheet back, and `get_loc` of a repeated name returns no single position.
  `Highlight.HighlightCells` makes no such assumption.
- Dropping "Sip. Klm. No." from a table that lacks it raises outside any
  handler. The model reports this as the `MissingOrderColumn` error.
