/**
 * The order-events table as an in-memory list of rows, the query the lookup sends
 * for one list of identifiers, and the merge of returned rows into a map from
 * (prefixed) identifier to the latest order date.
 */
module OrderRows {
  import opened Wrappers
  import opened PhpStrings
  import opened PhpArrays

  /** Which identifier column a lookup selects by: `orderId` or `orderPositionId`. */
  datatype Field = OrderId | OrderPositionId

  /** One row of the order-events table, reduced to the columns the query touches. */
  datatype Row = Row(wbConfigId: int, orderId: string, orderPositionId: string, orderDate: string)

  /** The inclusive order-date window of the query (`BETWEEN :minOrderDate AND :maxOrderDate`). */
  datatype Window = Window(minOrderDate: string, maxOrderDate: string)

  function FieldValue(r: Row, field: Field): string {
    match field
    case OrderId => r.orderId
    case OrderPositionId => r.orderPositionId
  }

  /**
   * The map key for an identifier: the identifier behind a '_', so that PHP never
   * turns a numeric-looking identifier into an integer key.
   */
  function StringKey(id: string): string {
    "_" + id
  }

  /** Dropping the '_' gives the identifier back. */
  lemma StringKeyRoundTrip(id: string)
    ensures |StringKey(id)| > 0 && StringKey(id)[0] == '_' && StringKey(id)[1..] == id
  {
  }

  /** Distinct identifiers never share a key, so "123" and "0123" stay apart. */
  lemma StringKeyInjective(a: string, b: string)
    ensures StringKey(a) == StringKey(b) <==> a == b
  {
    if StringKey(a) == StringKey(b) {
      StringKeyRoundTrip(a);
      StringKeyRoundTrip(b);
    }
  }

  function KeyOf(r: Row, field: Field): string {
    StringKey(FieldValue(r, field))
  }

  predicate InWindow(date: string, window: Window) {
    StrLessEq(window.minOrderDate, date) && StrLessEq(date, window.maxOrderDate)
  }

  /** The WHERE clause of the query. */
  predicate Matches(r: Row, wbConfigIds: seq<int>, window: Window, field: Field, ids: seq<string>) {
    && r.wbConfigId in wbConfigIds
    && InWindow(r.orderDate, window)
    && FieldValue(r, field) in ids
  }

  /**
   * The rows the query returns for one list of identifiers, in table order. The
   * query's `ORDER BY {field}, orderDate` is taken into account by a table whose
   * dates ascend per identifier (DatesAscendingPerKey).
   */
  function Select(table: seq<Row>, wbConfigIds: seq<int>, window: Window, field: Field, ids: seq<string>): seq<Row> {
    if table == [] then []
    else
      (if Matches(table[0], wbConfigIds, window, field, ids) then [table[0]] else [])
      + Select(table[1..], wbConfigIds, window, field, ids)
  }

  /** The query returns exactly the table's rows that satisfy the WHERE clause. */
  lemma {:induction false} SelectMembership(table: seq<Row>, wbConfigIds: seq<int>, window: Window, field: Field,
                                            ids: seq<string>, r: Row)
    ensures r in Select(table, wbConfigIds, window, field, ids) <==> r in table && Matches(r, wbConfigIds, window, field, ids)
  {
    if table != [] {
      SelectMembership(table[1..], wbConfigIds, window, field, ids, r);
      assert r in table <==> r == table[0] || r in table[1..];
    }
  }

  /** No id, no row. */
  lemma SelectNoIds(table: seq<Row>, wbConfigIds: seq<int>, window: Window, field: Field)
    ensures Select(table, wbConfigIds, window, field, []) == []
  {
    var rows := Select(table, wbConfigIds, window, field, []);
    if rows != [] {
      SelectMembership(table, wbConfigIds, window, field, [], rows[0]);
      assert false;
    }
  }

  /** The query only sees which identifiers are in the list, so duplicates and their order do not matter. */
  lemma {:induction false} SelectDependsOnIdSet(table: seq<Row>, wbConfigIds: seq<int>, window: Window, field: Field,
                                                ids1: seq<string>, ids2: seq<string>)
    requires forall x :: x in ids1 <==> x in ids2
    ensures Select(table, wbConfigIds, window, field, ids1) == Select(table, wbConfigIds, window, field, ids2)
  {
    if table != [] {
      SelectDependsOnIdSet(table[1..], wbConfigIds, window, field, ids1, ids2);
    }
  }

  /** The rows of one query per chunk, in chunk order. */
  function ChunkRows(table: seq<Row>, wbConfigIds: seq<int>, window: Window, field: Field, chunks: seq<seq<string>>): seq<Row> {
    if chunks == [] then []
    else ChunkRows(table, wbConfigIds, window, field, chunks[..|chunks| - 1])
         + Select(table, wbConfigIds, window, field, chunks[|chunks| - 1])
  }

  lemma {:induction false} ChunkRowsMembership(table: seq<Row>, wbConfigIds: seq<int>, window: Window, field: Field,
                                               chunks: seq<seq<string>>, r: Row)
    ensures r in ChunkRows(table, wbConfigIds, window, field, chunks)
        <==> exists i :: 0 <= i < |chunks| && r in Select(table, wbConfigIds, window, field, chunks[i])
  {
    if chunks != [] {
      var n := |chunks| - 1;
      var init := chunks[..n];
      var before := ChunkRows(table, wbConfigIds, window, field, init);
      var last := Select(table, wbConfigIds, window, field, chunks[n]);
      assert ChunkRows(table, wbConfigIds, window, field, chunks) == before + last;
      ChunkRowsMembership(table, wbConfigIds, window, field, init, r);
      if r in before {
        var i :| 0 <= i < |init| && r in Select(table, wbConfigIds, window, field, init[i]);
        assert init[i] == chunks[i];
      }
      if exists i :: 0 <= i < |chunks| && r in Select(table, wbConfigIds, window, field, chunks[i]) {
        var i :| 0 <= i < |chunks| && r in Select(table, wbConfigIds, window, field, chunks[i]);
        if i < n {
          assert init[i] == chunks[i];
        }
      }
    }
  }

  /**
   * Querying chunk by chunk returns the same rows as one query for the whole list
   * (as a set: a row is in one exactly when it is in the other), for any chunking
   * that array_chunk produces.
   */
  lemma ChunkRowsSameAsSelect(table: seq<Row>, wbConfigIds: seq<int>, window: Window, field: Field,
                              ids: seq<string>, size: nat)
    requires size > 0
    ensures forall r :: r in ChunkRows(table, wbConfigIds, window, field, ArrayChunk(ids, size))
                    <==> r in Select(table, wbConfigIds, window, field, ids)
  {
    var chunks := ArrayChunk(ids, size);
    forall r
      ensures r in ChunkRows(table, wbConfigIds, window, field, chunks)
          <==> r in Select(table, wbConfigIds, window, field, ids)
    {
      ChunkRowsMembership(table, wbConfigIds, window, field, chunks, r);
      FlattenMembership(chunks, FieldValue(r, field));
      SelectMembership(table, wbConfigIds, window, field, ids, r);
      forall i | 0 <= i < |chunks|
        ensures r in Select(table, wbConfigIds, window, field, chunks[i])
            <==> r in table && Matches(r, wbConfigIds, window, field, chunks[i])
      {
        SelectMembership(table, wbConfigIds, window, field, chunks[i], r);
      }
    }
  }

  /**
   * One step of the merge: the row's date is stored under its key when the key is
   * absent, when the stored date is PHP-empty, or when the row's date is greater.
   */
  function Absorb(m: map<string, string>, r: Row, field: Field): map<string, string> {
    var key := KeyOf(r, field);
    if key !in m || IsEmptyPhp(m[key]) || StrLess(m[key], r.orderDate) then m[key := r.orderDate] else m
  }

  /** The merge of a list of rows into a map, first row first. */
  function FoldRows(m: map<string, string>, rows: seq<Row>, field: Field): map<string, string> {
    if rows == [] then m
    else Absorb(FoldRows(m, rows[..|rows| - 1], field), rows[|rows| - 1], field)
  }

  /** Merging one more row is one more merge step. */
  lemma FoldSnoc(m: map<string, string>, rows: seq<Row>, n: nat, field: Field,
                 merged: map<string, string>, next: map<string, string>)
    requires n < |rows|
    requires merged == FoldRows(m, rows[..n], field)
    requires next == Absorb(merged, rows[n], field)
    ensures next == FoldRows(m, rows[..n + 1], field)
  {
    assert rows[..n + 1][..n] == rows[..n];
  }

  /** The rows of one more chunk follow the rows of the chunks before it. */
  lemma ChunkRowsSnoc(table: seq<Row>, wbConfigIds: seq<int>, window: Window, field: Field,
                      chunks: seq<seq<string>>, c: nat)
    requires c < |chunks|
    ensures ChunkRows(table, wbConfigIds, window, field, chunks[..c + 1])
         == ChunkRows(table, wbConfigIds, window, field, chunks[..c]) + Select(table, wbConfigIds, window, field, chunks[c])
  {
    assert chunks[..c + 1][..c] == chunks[..c];
  }

  /** Merging two lists one after the other is merging their concatenation. */
  lemma {:induction false} FoldAppend(m: map<string, string>, a: seq<Row>, b: seq<Row>, field: Field)
    ensures FoldRows(m, a + b, field) == FoldRows(FoldRows(m, a, field), b, field)
  {
    if b == [] {
      assert a + b == a;
    } else {
      var init := b[..|b| - 1];
      FoldAppend(m, a, init, field);
      assert (a + b)[..|a + b| - 1] == a + init;
    }
  }

  /** A merge step adds the row's key and no other. */
  lemma AbsorbKeys(m: map<string, string>, x: Row, field: Field)
    ensures Absorb(m, x, field).Keys == m.Keys + {KeyOf(x, field)}
  {
  }

  /** A key is in the merged map exactly when it was there before or some row carries it. */
  lemma {:induction false} FoldKeys(m: map<string, string>, rows: seq<Row>, field: Field, k: string)
    ensures k in FoldRows(m, rows, field) <==> k in m || exists i :: 0 <= i < |rows| && KeyOf(rows[i], field) == k
  {
    if rows != [] {
      var init := rows[..|rows| - 1];
      FoldKeys(m, init, field, k);
      AbsorbKeys(FoldRows(m, init, field), rows[|rows| - 1], field);
      if exists i :: 0 <= i < |init| && KeyOf(init[i], field) == k {
        var i :| 0 <= i < |init| && KeyOf(init[i], field) == k;
        assert rows[i] == init[i];
      }
      if exists i :: 0 <= i < |rows| && KeyOf(rows[i], field) == k {
        var i :| 0 <= i < |rows| && KeyOf(rows[i], field) == k;
        if i < |init| {
          assert rows[i] == init[i];
        }
      }
    }
  }

  /** Merging from an empty map gives a key for exactly the rows' keys, and any list of the same rows gives the same keys. */
  lemma FoldKeysOfRows(rows: seq<Row>, same: seq<Row>, field: Field)
    requires forall r :: r in rows <==> r in same
    ensures forall k :: k in FoldRows(map[], rows, field) <==> exists i :: 0 <= i < |same| && KeyOf(same[i], field) == k
  {
    forall k
      ensures k in FoldRows(map[], rows, field) <==> exists i :: 0 <= i < |same| && KeyOf(same[i], field) == k
    {
      FoldKeys(map[], rows, field, k);
      if exists i :: 0 <= i < |same| && KeyOf(same[i], field) == k {
        var i :| 0 <= i < |same| && KeyOf(same[i], field) == k;
        assert same[i] in rows;
        var j :| 0 <= j < |rows| && rows[j] == same[i];
      }
      if exists j :: 0 <= j < |rows| && KeyOf(rows[j], field) == k {
        var j :| 0 <= j < |rows| && KeyOf(rows[j], field) == k;
        assert rows[j] in same;
        var i :| 0 <= i < |same| && same[i] == rows[j];
      }
    }
  }

  /**
   * No row's date is "0", the one date that PHP's `empty` treats as unset while
   * some other date ("", "/", ...) sorts below it.
   */
  ghost predicate NoZeroDates(rows: seq<Row>) {
    forall i :: 0 <= i < |rows| ==> rows[i].orderDate != "0"
  }

  /**
   * Each identifier's rows come in ascending date order, as the query's
   * `ORDER BY {field}, orderDate` delivers them.
   */
  ghost predicate DatesAscendingPerKey(rows: seq<Row>, field: Field) {
    forall i, j :: 0 <= i < j < |rows| && FieldValue(rows[i], field) == FieldValue(rows[j], field)
               ==> StrLessEq(rows[i].orderDate, rows[j].orderDate)
  }

  /** Every row's key is in `m`, with a date at least the row's. */
  ghost predicate Bounds(m: map<string, string>, rows: seq<Row>, field: Field) {
    forall i :: 0 <= i < |rows| ==> KeyOf(rows[i], field) in m && StrLessEq(rows[i].orderDate, m[KeyOf(rows[i], field)])
  }

  /** Every entry of `m` is the key and date of some row. */
  ghost predicate Attained(m: map<string, string>, rows: seq<Row>, field: Field) {
    forall k :: k in m ==> exists i :: 0 <= i < |rows| && KeyOf(rows[i], field) == k && rows[i].orderDate == m[k]
  }

  /**
   * `m` maps the key of every row to the greatest date among the rows with that
   * key: every row's key is present with a date at least the row's, and every
   * stored date is the date of some row with that key.
   */
  ghost predicate IsPerKeyMax(m: map<string, string>, rows: seq<Row>, field: Field) {
    Bounds(m, rows, field) && Attained(m, rows, field)
  }

  /** After one merge step every entry still comes from a row. */
  lemma AbsorbAttained(m: map<string, string>, rows: seq<Row>, x: Row, field: Field)
    requires Attained(m, rows, field)
    ensures Attained(Absorb(m, x, field), rows + [x], field)
  {
    var after, rows' := Absorb(m, x, field), rows + [x];
    forall k | k in after
      ensures exists i :: 0 <= i < |rows'| && KeyOf(rows'[i], field) == k && rows'[i].orderDate == after[k]
    {
      if k == KeyOf(x, field) && after[k] == x.orderDate {
        assert rows'[|rows|] == x;
      } else {
        assert k in m && after[k] == m[k];
        var i :| 0 <= i < |rows| && KeyOf(rows[i], field) == k && rows[i].orderDate == m[k];
        assert rows'[i] == rows[i];
      }
    }
  }

  /**
   * After one merge step every row, the new one included, is still bounded,
   * provided no stored date is "0". A stored "" is harmless: every date is at
   * least "", so overwriting it never loses a greater date.
   */
  lemma AbsorbBounds(m: map<string, string>, rows: seq<Row>, x: Row, field: Field)
    requires Bounds(m, rows, field)
    requires forall k :: k in m ==> m[k] != "0"
    ensures Bounds(Absorb(m, x, field), rows + [x], field)
  {
    var key, after, rows' := KeyOf(x, field), Absorb(m, x, field), rows + [x];
    if key in m && !IsEmptyPhp(m[key]) && !StrLess(m[key], x.orderDate) {
      assert after == m;
      StrLessTotal(m[key], x.orderDate);
      assert rows'[|rows|] == x;
    } else {
      assert after == m[key := x.orderDate];
      forall i | 0 <= i < |rows'|
        ensures KeyOf(rows'[i], field) in after && StrLessEq(rows'[i].orderDate, after[KeyOf(rows'[i], field)])
      {
        if i < |rows| {
          assert rows'[i] == rows[i];
          if KeyOf(rows[i], field) == key && rows[i].orderDate != m[key] {
            StrLessTransitive(rows[i].orderDate, m[key], x.orderDate);
          }
        }
      }
    }
  }

  /** One merge step keeps the per-key maximum when no earlier date is "0". */
  lemma AbsorbKeepsPerKeyMax(m: map<string, string>, rows: seq<Row>, x: Row, field: Field)
    requires IsPerKeyMax(m, rows, field)
    requires NoZeroDates(rows)
    ensures IsPerKeyMax(Absorb(m, x, field), rows + [x], field)
  {
    forall k | k in m
      ensures m[k] != "0"
    {
      var i :| 0 <= i < |rows| && KeyOf(rows[i], field) == k && rows[i].orderDate == m[k];
    }
    AbsorbAttained(m, rows, x, field);
    AbsorbBounds(m, rows, x, field);
  }

  /** Whatever the dates, every entry of the merged map is the key and date of a merged row. */
  lemma {:induction false} FoldAttained(rows: seq<Row>, field: Field)
    ensures Attained(FoldRows(map[], rows, field), rows, field)
  {
    if rows != [] {
      var init, x := rows[..|rows| - 1], rows[|rows| - 1];
      assert rows == init + [x];
      FoldAttained(init, field);
      AbsorbAttained(FoldRows(map[], init, field), init, x, field);
    }
  }

  /** Attainment depends only on which rows there are. */
  lemma AttainedSameRows(m: map<string, string>, rows1: seq<Row>, rows2: seq<Row>, field: Field)
    requires forall r :: r in rows1 <==> r in rows2
    requires Attained(m, rows1, field)
    ensures Attained(m, rows2, field)
  {
    forall k | k in m
      ensures exists j :: 0 <= j < |rows2| && KeyOf(rows2[j], field) == k && rows2[j].orderDate == m[k]
    {
      var i :| 0 <= i < |rows1| && KeyOf(rows1[i], field) == k && rows1[i].orderDate == m[k];
      assert rows1[i] in rows2;
      var j :| 0 <= j < |rows2| && rows2[j] == rows1[i];
    }
  }

  /** When no date is "0", merging the rows from an empty map computes the per-key maximum. */
  lemma {:induction false} FoldIsPerKeyMax(rows: seq<Row>, field: Field)
    requires NoZeroDates(rows)
    ensures IsPerKeyMax(FoldRows(map[], rows, field), rows, field)
  {
    if rows != [] {
      var init, x := rows[..|rows| - 1], rows[|rows| - 1];
      assert rows == init + [x];
      FoldIsPerKeyMax(init, field);
      AbsorbKeepsPerKeyMax(FoldRows(map[], init, field), init, x, field);
    }
  }

  /** A per-key maximum is determined by the set of rows alone. */
  lemma PerKeyMaxUnique(m1: map<string, string>, m2: map<string, string>,
                        rows1: seq<Row>, rows2: seq<Row>, field: Field)
    requires forall r :: r in rows1 <==> r in rows2
    requires IsPerKeyMax(m1, rows1, field) && IsPerKeyMax(m2, rows2, field)
    ensures m1 == m2
  {
    forall k | k in m1
      ensures k in m2 && m1[k] == m2[k]
    {
      var i1 :| 0 <= i1 < |rows1| && KeyOf(rows1[i1], field) == k && rows1[i1].orderDate == m1[k];
      assert rows1[i1] in rows2;
      var j1 :| 0 <= j1 < |rows2| && rows2[j1] == rows1[i1];
      assert StrLessEq(m1[k], m2[k]);
      var i2 :| 0 <= i2 < |rows2| && KeyOf(rows2[i2], field) == k && rows2[i2].orderDate == m2[k];
      assert rows2[i2] in rows1;
      var j2 :| 0 <= j2 < |rows1| && rows1[j2] == rows2[i2];
      assert StrLessEq(m2[k], m1[k]);
      StrLessEqAntisymmetric(m1[k], m2[k]);
    }
    forall k | k in m2
      ensures k in m1
    {
      var i2 :| 0 <= i2 < |rows2| && KeyOf(rows2[i2], field) == k && rows2[i2].orderDate == m2[k];
      assert rows2[i2] in rows1;
      var j2 :| 0 <= j2 < |rows1| && rows1[j2] == rows2[i2];
    }
  }

  /**
   * When no date is "0", the merge does not depend on the order of the rows, nor
   * on repeated rows: any two lists holding the same rows merge to the same map.
   */
  lemma FoldOrderIndependent(rows1: seq<Row>, rows2: seq<Row>, field: Field)
    requires forall r :: r in rows1 <==> r in rows2
    requires NoZeroDates(rows1)
    ensures FoldRows(map[], rows1, field) == FoldRows(map[], rows2, field)
  {
    forall j | 0 <= j < |rows2|
      ensures rows2[j].orderDate != "0"
    {
      assert rows2[j] in rows1;
    }
    FoldIsPerKeyMax(rows1, field);
    FoldIsPerKeyMax(rows2, field);
    PerKeyMaxUnique(FoldRows(map[], rows1, field), FoldRows(map[], rows2, field), rows1, rows2, field);
  }

  /** The date stored under `key`, if any (`$map[$key] ?? null` on a map without null values). */
  function Lookup(m: map<string, string>, key: string): Option<string> {
    if key in m then Some(m[key]) else None
  }

  /** The merge step as seen by the entry of one identifier: rows of other identifiers leave it alone. */
  function AbsorbAt(o: Option<string>, r: Row, field: Field, id: string): Option<string> {
    if FieldValue(r, field) != id then o
    else if o.None? || IsEmptyPhp(o.value) || StrLess(o.value, r.orderDate) then Some(r.orderDate)
    else o
  }

  function FoldAt(o: Option<string>, rows: seq<Row>, field: Field, id: string): Option<string> {
    if rows == [] then o
    else AbsorbAt(FoldAt(o, rows[..|rows| - 1], field, id), rows[|rows| - 1], field, id)
  }

  /** The merged entry of an identifier is the merge of its own entry alone. */
  lemma {:induction false} FoldRowsAt(m: map<string, string>, rows: seq<Row>, field: Field, id: string)
    ensures Lookup(FoldRows(m, rows, field), StringKey(id)) == FoldAt(Lookup(m, StringKey(id)), rows, field, id)
  {
    if rows != [] {
      FoldRowsAt(m, rows[..|rows| - 1], field, id);
      StringKeyInjective(FieldValue(rows[|rows| - 1], field), id);
    }
  }

  /** The rows of one identifier, in order. */
  function IdRows(rows: seq<Row>, field: Field, id: string): seq<Row> {
    if rows == [] then []
    else IdRows(rows[..|rows| - 1], field, id) + (if FieldValue(rows[|rows| - 1], field) == id then [rows[|rows| - 1]] else [])
  }

  lemma {:induction false} IdRowsAppend(a: seq<Row>, b: seq<Row>, field: Field, id: string)
    ensures IdRows(a + b, field, id) == IdRows(a, field, id) + IdRows(b, field, id)
  {
    if b == [] {
      assert a + b == a;
    } else {
      var init, x := b[..|b| - 1], b[|b| - 1];
      var tail := if FieldValue(x, field) == id then [x] else [];
      IdRowsAppend(a, init, field, id);
      assert (a + b)[..|a + b| - 1] == a + init && (a + b)[|a + b| - 1] == x;
      assert IdRows(a + b, field, id) == IdRows(a + init, field, id) + tail;
      assert IdRows(b, field, id) == IdRows(init, field, id) + tail;
    }
  }

  /** An identifier's entry is decided by that identifier's rows alone, in their order. */
  lemma {:induction false} FoldAtIdRows(o: Option<string>, rows: seq<Row>, field: Field, id: string)
    ensures FoldAt(o, rows, field, id) == FoldAt(o, IdRows(rows, field, id), field, id)
  {
    if rows != [] {
      var init, x := rows[..|rows| - 1], rows[|rows| - 1];
      var own := IdRows(init, field, id);
      FoldAtIdRows(o, init, field, id);
      if FieldValue(x, field) == id {
        assert IdRows(rows, field, id) == own + [x];
        assert (own + [x])[..|own|] == own;
        assert FoldAt(o, own + [x], field, id) == AbsorbAt(FoldAt(o, own, field, id), x, field, id);
      } else {
        assert IdRows(rows, field, id) == own;
      }
    }
  }

  /** The query's rows for one identifier: those of a one-identifier query, or none if it is not asked for. */
  lemma {:induction false} IdRowsSelect(table: seq<Row>, wbConfigIds: seq<int>, window: Window, field: Field,
                                        ids: seq<string>, id: string)
    ensures IdRows(Select(table, wbConfigIds, window, field, ids), field, id)
         == if id in ids then Select(table, wbConfigIds, window, field, [id]) else []
  {
    if table != [] {
      var t, tail := table[0], table[1..];
      var head := if Matches(t, wbConfigIds, window, field, ids) then [t] else [];
      var one := if Matches(t, wbConfigIds, window, field, [id]) then [t] else [];
      assert Select(table, wbConfigIds, window, field, ids) == head + Select(tail, wbConfigIds, window, field, ids);
      assert Select(table, wbConfigIds, window, field, [id]) == one + Select(tail, wbConfigIds, window, field, [id]);
      IdRowsSelect(tail, wbConfigIds, window, field, ids, id);
      IdRowsAppend(head, Select(tail, wbConfigIds, window, field, ids), field, id);
      assert IdRows([t], field, id) == IdRows([], field, id) + (if FieldValue(t, field) == id then [t] else []);
      assert IdRows(head, field, id) == if id in ids then one else [];
    }
  }

  /**
   * Over distinct identifiers the per-chunk rows of one identifier are the rows
   * of its single chunk's query, or none if no chunk holds it.
   */
  lemma {:induction false} IdRowsChunks(table: seq<Row>, wbConfigIds: seq<int>, window: Window, field: Field,
                                        chunks: seq<seq<string>>, id: string)
    requires Distinct(Flatten(chunks))
    ensures IdRows(ChunkRows(table, wbConfigIds, window, field, chunks), field, id)
         == if id in Flatten(chunks) then Select(table, wbConfigIds, window, field, [id]) else []
  {
    if chunks != [] {
      var init, last := chunks[..|chunks| - 1], chunks[|chunks| - 1];
      FlattenSnoc(chunks);
      DistinctConcat(Flatten(init), last);
      IdRowsChunks(table, wbConfigIds, window, field, init, id);
      IdRowsSelect(table, wbConfigIds, window, field, last, id);
      IdRowsAppend(ChunkRows(table, wbConfigIds, window, field, init), Select(table, wbConfigIds, window, field, last),
                   field, id);
    }
  }

  /**
   * Chunking is transparent: for the distinct identifiers the lookup passes,
   * merging the rows of the per-chunk queries gives the map that one query over
   * the whole list would give, whatever the dates.
   */
  lemma ChunkingTransparent(table: seq<Row>, wbConfigIds: seq<int>, window: Window, field: Field,
                            ids: seq<string>, size: nat)
    requires size > 0
    requires Distinct(ids)
    ensures FoldRows(map[], ChunkRows(table, wbConfigIds, window, field, ArrayChunk(ids, size)), field)
         == FoldRows(map[], Select(table, wbConfigIds, window, field, ids), field)
  {
    var chunked := ChunkRows(table, wbConfigIds, window, field, ArrayChunk(ids, size));
    var rows := Select(table, wbConfigIds, window, field, ids);
    var m1, m2 := FoldRows(map[], chunked, field), FoldRows(map[], rows, field);
    ChunkRowsSameAsSelect(table, wbConfigIds, window, field, ids, size);
    FoldKeysOfRows(chunked, rows, field);
    FoldKeysOfRows(rows, rows, field);
    forall k | k in m1
      ensures m1[k] == m2[k]
    {
      var i :| 0 <= i < |rows| && KeyOf(rows[i], field) == k;
      ChunkingTransparentAt(table, wbConfigIds, window, field, ids, size, FieldValue(rows[i], field));
    }
  }

  /** The entry of one identifier is the same chunked or not. */
  lemma ChunkingTransparentAt(table: seq<Row>, wbConfigIds: seq<int>, window: Window, field: Field,
                              ids: seq<string>, size: nat, id: string)
    requires size > 0
    requires Distinct(ids)
    ensures Lookup(FoldRows(map[], ChunkRows(table, wbConfigIds, window, field, ArrayChunk(ids, size)), field), StringKey(id))
         == Lookup(FoldRows(map[], Select(table, wbConfigIds, window, field, ids), field), StringKey(id))
  {
    var chunked := ChunkRows(table, wbConfigIds, window, field, ArrayChunk(ids, size));
    var rows := Select(table, wbConfigIds, window, field, ids);
    FoldRowsAt(map[], chunked, field, id);
    FoldRowsAt(map[], rows, field, id);
    FoldAtIdRows(None, chunked, field, id);
    FoldAtIdRows(None, rows, field, id);
    IdRowsChunks(table, wbConfigIds, window, field, ArrayChunk(ids, size), id);
    IdRowsSelect(table, wbConfigIds, window, field, ids, id);
  }

  /**
   * After one merge step every row is still bounded when the new row's date is at
   * least every earlier date of its identifier, whether or not a stored date is "0".
   */
  lemma AbsorbAscendingBounds(m: map<string, string>, rows: seq<Row>, x: Row, field: Field)
    requires Bounds(m, rows, field) && Attained(m, rows, field)
    requires forall i :: 0 <= i < |rows| && FieldValue(rows[i], field) == FieldValue(x, field)
                    ==> StrLessEq(rows[i].orderDate, x.orderDate)
    ensures Bounds(Absorb(m, x, field), rows + [x], field)
  {
    var key, after, rows' := KeyOf(x, field), Absorb(m, x, field), rows + [x];
    if key in m && !IsEmptyPhp(m[key]) && !StrLess(m[key], x.orderDate) {
      assert after == m;
      var i :| 0 <= i < |rows| && KeyOf(rows[i], field) == key && rows[i].orderDate == m[key];
      StringKeyInjective(FieldValue(rows[i], field), FieldValue(x, field));
      assert m[key] == x.orderDate;
      forall j | 0 <= j < |rows'|
        ensures KeyOf(rows'[j], field) in after && StrLessEq(rows'[j].orderDate, after[KeyOf(rows'[j], field)])
      {
        if j < |rows| {
          assert rows'[j] == rows[j];
        } else {
          assert rows'[j] == x;
        }
      }
    } else {
      assert after == m[key := x.orderDate];
      forall j | 0 <= j < |rows'|
        ensures KeyOf(rows'[j], field) in after && StrLessEq(rows'[j].orderDate, after[KeyOf(rows'[j], field)])
      {
        if j < |rows| {
          assert rows'[j] == rows[j];
          StringKeyInjective(FieldValue(rows[j], field), FieldValue(x, field));
        } else {
          assert rows'[j] == x;
        }
      }
    }
  }

  /** A merge step keeps the per-key maximum when the new row's date is at least every earlier date of its identifier. */
  lemma AbsorbAscendingKeepsPerKeyMax(m: map<string, string>, rows: seq<Row>, x: Row, field: Field)
    requires IsPerKeyMax(m, rows, field)
    requires forall i :: 0 <= i < |rows| && FieldValue(rows[i], field) == FieldValue(x, field)
                    ==> StrLessEq(rows[i].orderDate, x.orderDate)
    ensures IsPerKeyMax(Absorb(m, x, field), rows + [x], field)
  {
    AbsorbAttained(m, rows, x, field);
    AbsorbAscendingBounds(m, rows, x, field);
  }

  /** In the query's ORDER BY order the merge is the per-key maximum, "0" dates included. */
  lemma {:induction false} FoldAscendingIsPerKeyMax(rows: seq<Row>, field: Field)
    requires DatesAscendingPerKey(rows, field)
    ensures IsPerKeyMax(FoldRows(map[], rows, field), rows, field)
  {
    if rows != [] {
      var init, x := rows[..|rows| - 1], rows[|rows| - 1];
      assert rows == init + [x];
      assert DatesAscendingPerKey(init, field) by {
        forall i, j | 0 <= i < j < |init| ensures init[i] == rows[i] && init[j] == rows[j] { }
      }
      FoldAscendingIsPerKeyMax(init, field);
      AbsorbAscendingKeepsPerKeyMax(FoldRows(map[], init, field), init, x, field);
    }
  }

  /** The query keeps the table's order, so a table in ORDER BY order gives rows in that order. */
  lemma {:induction false} SelectKeepsAscending(table: seq<Row>, wbConfigIds: seq<int>, window: Window, field: Field,
                                                ids: seq<string>)
    requires DatesAscendingPerKey(table, field)
    ensures DatesAscendingPerKey(Select(table, wbConfigIds, window, field, ids), field)
  {
    if table != [] {
      var t, tail := table[0], table[1..];
      assert DatesAscendingPerKey(tail, field) by {
        forall i, j | 0 <= i < j < |tail| ensures tail[i] == table[i + 1] && tail[j] == table[j + 1] { }
      }
      SelectKeepsAscending(tail, wbConfigIds, window, field, ids);
      var rest := Select(tail, wbConfigIds, window, field, ids);
      if Matches(t, wbConfigIds, window, field, ids) {
        var rows := [t] + rest;
        forall j | 0 < j < |rows| && FieldValue(t, field) == FieldValue(rows[j], field)
          ensures StrLessEq(t.orderDate, rows[j].orderDate)
        {
          SelectMembership(tail, wbConfigIds, window, field, ids, rows[j]);
          var k :| 0 <= k < |tail| && tail[k] == rows[j];
          assert table[k + 1] == rows[j];
        }
        forall i, j | 0 < i < j < |rows|
          ensures rows[i] == rest[i - 1] && rows[j] == rest[j - 1]
        {
        }
      }
    }
  }

  /**
   * A window whose lower bound sorts above "0" (every formatted date-time does)
   * admits no PHP-empty date, so the merge's `empty` test only ever sees absent keys.
   */
  lemma WindowExcludesEmpty(table: seq<Row>, wbConfigIds: seq<int>, window: Window, field: Field, ids: seq<string>)
    requires StrLess("0", window.minOrderDate)
    ensures forall i :: 0 <= i < |Select(table, wbConfigIds, window, field, ids)|
                    ==> !IsEmptyPhp(Select(table, wbConfigIds, window, field, ids)[i].orderDate)
    ensures NoZeroDates(Select(table, wbConfigIds, window, field, ids))
  {
    var rows := Select(table, wbConfigIds, window, field, ids);
    forall i | 0 <= i < |rows|
      ensures !IsEmptyPhp(rows[i].orderDate)
    {
      var r := rows[i];
      SelectMembership(table, wbConfigIds, window, field, ids, r);
      if r.orderDate == "0" {
        StrLessAsymmetric("0", window.minOrderDate);
      } else if r.orderDate == "" {
        StrLessTransitive("", "0", window.minOrderDate);
        StrLessAsymmetric("", window.minOrderDate);
      }
    }
  }

  /**
   * Why the order matters: with a "0" date, the merge depends on row order. In
   * ORDER BY order ([b, a]) it ends at the maximum "0"; in the other order "0"
   * is replaced by the smaller "/", because PHP treats "0" as empty.
   */
  lemma EmptyDateBreaksMax()
    ensures var a, b := Row(1, "7", "", "0"), Row(1, "7", "", "/");
            FoldRows(map[], [a, b], OrderId) == map["_7" := "/"]
            && FoldRows(map[], [b, a], OrderId) == map["_7" := "0"]
  {
    var a, b := Row(1, "7", "", "0"), Row(1, "7", "", "/");
    assert KeyOf(a, OrderId) == KeyOf(b, OrderId) == "_7";
    assert [a, b][..1] == [a] && [b, a][..1] == [b] && [a][..0] == [] && [b][..0] == [];
    assert FoldRows(map[], [a], OrderId) == map["_7" := "0"];
    assert FoldRows(map[], [b], OrderId) == map["_7" := "/"];
    assert StrLess("/", "0");
    assert !StrLess("0", "/");
  }
}
