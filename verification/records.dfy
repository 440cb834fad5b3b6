/** The records the comparator works on: one spreadsheet row per delivery
    line, after the order-column has been dropped, and the three result
    tables of one comparison run. */
module Records {

  /** The composite grouping key (Material No, Material Description).
      Both parts are compared by exact value: no case folding, no trimming. */
  datatype Key = Key(materialNo: string, description: string)

  /** One row of a snapshot. Delivery dates are opaque ordered values and
      quantities are integers; `others` carries the cells of any further
      columns, which the comparison passes through untouched. */
  datatype Row = Row(
    materialNo: string,
    description: string,
    deliveryDate: int,
    quantity: int,
    others: seq<string>)

  /** A key together with a delivery date: the unit at which the two
      snapshots are matched against each other. */
  datatype Slot = Slot(key: Key, date: int)

  /** A row of the "Changed Entries" table: the current row, extended with
      the quantity of the previous row it was compared against. */
  datatype ChangedRow = ChangedRow(row: Row, previousQuantity: int)

  /** The three tables one comparison produces. */
  datatype Comparison = Comparison(
    newEntries: seq<Row>,
    deletedEntries: seq<Row>,
    changedEntries: seq<ChangedRow>)

  function KeyOf(r: Row): Key {
    Key(r.materialNo, r.description)
  }

  function DateOf(r: Row): int {
    r.deliveryDate
  }

  function SlotOf(r: Row): Slot {
    Slot(KeyOf(r), r.deliveryDate)
  }

  function ChangedKey(c: ChangedRow): Key {
    KeyOf(c.row)
  }

  function ChangedDate(c: ChangedRow): int {
    c.row.deliveryDate
  }

  function ChangedSlot(c: ChangedRow): Slot {
    SlotOf(c.row)
  }

  /** The keys of the groups a snapshot falls into. */
  function KeySet(rows: seq<Row>): set<Key> {
    set r | r in rows :: KeyOf(r)
  }

  /** The set of delivery dates occurring in some rows. */
  function DateSet(rows: seq<Row>): set<int> {
    set r | r in rows :: r.deliveryDate
  }

  /** The (key, date) slots occurring in a snapshot. */
  function SlotSet(rows: seq<Row>): set<Slot> {
    set r | r in rows :: SlotOf(r)
  }

  /** The elements of a sequence, as a set. */
  function Elems<T>(xs: seq<T>): set<T> {
    set x | x in xs
  }

  /** No element occurs twice. */
  predicate Distinct<T(==)>(xs: seq<T>) {
    forall i, j :: 0 <= i < j < |xs| ==> xs[i] != xs[j]
  }
}
