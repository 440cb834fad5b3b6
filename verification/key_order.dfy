/** The order in which the comparator visits groups: both snapshots are
    sorted by Material No, then Material Description, and grouping visits
    the keys in ascending order. Strings compare lexicographically by
    character code, as Python compares `str` values. */
module KeyOrder {
  import opened Records

  /** Lexicographic "strictly less than" on strings. */
  predicate StrLess(a: string, b: string) {
    |b| > 0 && (|a| == 0 || a[0] < b[0] || (a[0] == b[0] && StrLess(a[1..], b[1..])))
  }

  lemma {:induction false} StrLessIrreflexive(a: string)
    ensures !StrLess(a, a)
  {
    if |a| > 0 {
      StrLessIrreflexive(a[1..]);
    }
  }

  lemma {:induction false} StrLessTransitive(a: string, b: string, c: string)
    requires StrLess(a, b) && StrLess(b, c)
    ensures StrLess(a, c)
  {
    if |a| > 0 && a[0] == b[0] && b[0] == c[0] {
      StrLessTransitive(a[1..], b[1..], c[1..]);
    }
  }

  lemma {:induction false} StrLessTotal(a: string, b: string)
    ensures a == b || StrLess(a, b) || StrLess(b, a)
  {
    if |a| > 0 && |b| > 0 && a[0] == b[0] {
      StrLessTotal(a[1..], b[1..]);
      if a[1..] == b[1..] {
        assert a == [a[0]] + a[1..] && b == [b[0]] + b[1..];
      }
    }
  }

  /** Ascending (Material No, Material Description) order. */
  predicate KeyLess(a: Key, b: Key) {
    StrLess(a.materialNo, b.materialNo)
    || (a.materialNo == b.materialNo && StrLess(a.description, b.description))
  }

  /** `KeyLess` is a strict total order on keys. */
  lemma KeyLessStrictTotal(a: Key, b: Key, c: Key)
    ensures !KeyLess(a, a)
    ensures KeyLess(a, b) && KeyLess(b, c) ==> KeyLess(a, c)
    ensures a == b || KeyLess(a, b) || KeyLess(b, a)
  {
    StrLessIrreflexive(a.materialNo);
    StrLessIrreflexive(a.description);
    StrLessTotal(a.materialNo, b.materialNo);
    StrLessTotal(a.description, b.description);
    if KeyLess(a, b) && KeyLess(b, c) {
      if StrLess(a.materialNo, b.materialNo) && StrLess(b.materialNo, c.materialNo) {
        StrLessTransitive(a.materialNo, b.materialNo, c.materialNo);
      } else if StrLess(a.description, b.description) && StrLess(b.description, c.description) {
        StrLessTransitive(a.description, b.description, c.description);
      }
    }
  }

  predicate StrictlySorted(ks: seq<Key>) {
    forall i, j :: 0 <= i < j < |ks| ==> KeyLess(ks[i], ks[j])
  }

  lemma SortedIsDistinct(ks: seq<Key>)
    requires StrictlySorted(ks)
    ensures Distinct(ks)
  {
    forall i, j | 0 <= i < j < |ks|
      ensures ks[i] != ks[j]
    {
      KeyLessStrictTotal(ks[i], ks[j], ks[j]);
    }
  }

  /** Inserts a key into a strictly sorted sequence of keys, unless present. */
  function Insert(k: Key, ks: seq<Key>): (r: seq<Key>)
    requires StrictlySorted(ks)
    ensures StrictlySorted(r)
    ensures forall x :: x in r <==> x == k || x in ks
  {
    if ks == [] then [k]
    else if k == ks[0] then ks
    else if KeyLess(k, ks[0]) then
      assert forall j :: 0 < j < |ks| ==> KeyLess(k, ks[j]) by {
        forall j | 0 < j < |ks| ensures KeyLess(k, ks[j]) {
          KeyLessStrictTotal(k, ks[0], ks[j]);
        }
      }
      [k] + ks
    else
      KeyLessStrictTotal(ks[0], k, k);
      assert ks == [ks[0]] + ks[1..];
      var tail := Insert(k, ks[1..]);
      assert forall x :: x in tail ==> KeyLess(ks[0], x);
      [ks[0]] + tail
  }

  /** The distinct keys of a snapshot, in ascending order: the order in
      which `groupby` visits its groups. */
  function SortedKeys(rows: seq<Row>): (ks: seq<Key>)
    ensures StrictlySorted(ks)
    ensures forall k :: k in ks <==> k in KeySet(rows)
  {
    if rows == [] then []
    else
      assert rows == [rows[0]] + rows[1..];
      Insert(KeyOf(rows[0]), SortedKeys(rows[1..]))
  }
}
