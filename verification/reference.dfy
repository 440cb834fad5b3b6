/** What the three result tables are meant to hold, defined row by row
    without grouping: a row is new (deleted) when the other snapshot has no
    row with the same key and delivery date, and a changed row arises from
    every pair of rows, one per snapshot, that share key and date but not
    quantity. */
module Reference {
  import opened Records

  /** The rows whose (key, date) slot is not among `slots`, in order. */
  function Unmatched(rows: seq<Row>, slots: set<Slot>): (r: seq<Row>)
    ensures forall x :: x in r <==> x in rows && SlotOf(x) !in slots
  {
    if rows == [] then []
    else
      assert rows == [rows[0]] + rows[1..];
      (if SlotOf(rows[0]) in slots then [] else [rows[0]]) + Unmatched(rows[1..], slots)
  }

  /** Does row `p` disagree with row `c` in quantity at the same slot? */
  predicate Differs(c: Row, p: Row) {
    SlotOf(p) == SlotOf(c) && p.quantity != c.quantity
  }

  /** One changed row for every row of `previous` that `Differs` from `c`. */
  function PairsOf(c: Row, previous: seq<Row>): seq<ChangedRow> {
    if previous == [] then []
    else
      (if Differs(c, previous[0]) then [ChangedRow(c, previous[0].quantity)] else [])
      + PairsOf(c, previous[1..])
  }

  /** The changed rows of every differing (current, previous) pair. */
  function ChangedPairs(current: seq<Row>, previous: seq<Row>): seq<ChangedRow> {
    if current == [] then []
    else PairsOf(current[0], previous) + ChangedPairs(current[1..], previous)
  }

  /** The number of rows of `previous` that `Differs` from `c`. */
  function DiffCount(c: Row, previous: seq<Row>): nat {
    if previous == [] then 0
    else (if Differs(c, previous[0]) then 1 else 0) + DiffCount(c, previous[1..])
  }

  /** The number of (current, previous) pairs that share a slot and differ in
      quantity. */
  function PairCount(current: seq<Row>, previous: seq<Row>): nat {
    if current == [] then 0
    else DiffCount(current[0], previous) + PairCount(current[1..], previous)
  }

  /** Every slot of the snapshot holds a single quantity. */
  predicate SlotConsistent(rows: seq<Row>) {
    forall a, b :: a in rows && b in rows && SlotOf(a) == SlotOf(b) ==> a.quantity == b.quantity
  }

  /** Each occurrence of an unmatched row survives; matched rows vanish. */
  lemma {:induction false} UnmatchedCount(rows: seq<Row>, slots: set<Slot>, x: Row)
    ensures multiset(Unmatched(rows, slots))[x] == if SlotOf(x) in slots then 0 else multiset(rows)[x]
  {
    if rows != [] {
      assert rows == [rows[0]] + rows[1..];
      UnmatchedCount(rows[1..], slots, x);
    }
  }

  /** A changed row of `c` against `previous` records a differing previous
      quantity found at `c`'s slot, and every such quantity gives one. */
  lemma {:induction false} PairsOfMember(c: Row, previous: seq<Row>, x: ChangedRow)
    ensures x in PairsOf(c, previous)
        <==> x.row == c && exists p :: p in previous && Differs(c, p) && p.quantity == x.previousQuantity
  {
    if previous != [] {
      assert previous == [previous[0]] + previous[1..];
      PairsOfMember(c, previous[1..], x);
    }
  }

  /** Membership in the reference table of changed rows. */
  lemma {:induction false} ChangedPairsMember(current: seq<Row>, previous: seq<Row>, x: ChangedRow)
    ensures x in ChangedPairs(current, previous)
        <==> x.row in current
             && exists p :: p in previous && Differs(x.row, p) && p.quantity == x.previousQuantity
  {
    if current != [] {
      assert current == [current[0]] + current[1..];
      PairsOfMember(current[0], previous, x);
      ChangedPairsMember(current[1..], previous, x);
    }
  }

  /** The reference table of changed rows has one row per differing pair. */
  lemma {:induction false} ChangedPairsLength(current: seq<Row>, previous: seq<Row>)
    ensures |ChangedPairs(current, previous)| == PairCount(current, previous)
  {
    if current != [] {
      PairsOfLength(current[0], previous);
      ChangedPairsLength(current[1..], previous);
    }
  }

  lemma {:induction false} PairsOfLength(c: Row, previous: seq<Row>)
    ensures |PairsOf(c, previous)| == DiffCount(c, previous)
  {
    if previous != [] {
      PairsOfLength(c, previous[1..]);
    }
  }

  /** Counting pairs does not depend on which side is which. */
  lemma {:induction false} PairCountSymmetric(a: seq<Row>, b: seq<Row>)
    ensures PairCount(a, b) == PairCount(b, a)
  {
    if a == [] {
      PairCountNone(b);
    } else {
      PairCountSymmetric(a[1..], b);
      PairCountPeel(b, a[0], a[1..]);
      assert a == [a[0]] + a[1..];
    }
  }

  lemma {:induction false} PairCountNone(b: seq<Row>)
    ensures PairCount(b, []) == 0
  {
    if b != [] {
      PairCountNone(b[1..]);
    }
  }

  /** Peeling the first row off the second argument of `PairCount`. */
  lemma {:induction false} PairCountPeel(b: seq<Row>, x: Row, rest: seq<Row>)
    ensures PairCount(b, [x] + rest) == DiffCount(x, b) + PairCount(b, rest)
  {
    if b != [] {
      assert ([x] + rest)[1..] == rest;
      PairCountPeel(b[1..], x, rest);
    }
  }
}
