/**
 * The order-timestamp lookup for a batch of sold items: on construction it
 * collects the items' order ids and order-position ids, looks each kind up in the
 * order-events table within a date window, chunk by chunk, and keeps the latest
 * order date per id; afterwards it answers, for an order id and an order-position
 * id, the later of their two dates.
 */
module WbCabinet {
  import opened Wrappers
  import opened PhpStrings
  import opened PhpArrays
  import opened OrderRows

  /** Number of ids per query. */
  const ARRAY_CHUNK_LENGTH: nat := 500

  /** A sold item, reduced to the two nullable identifiers the lookup reads. */
  datatype SellsItem = SellsItem(orderId: Option<string>, orderPositionId: Option<string>)

  function ItemId(item: SellsItem, field: Field): Option<string> {
    match field
    case OrderId => item.orderId
    case OrderPositionId => item.orderPositionId
  }

  /** The identifiers of one kind that pass `!empty(...)`, in item order, repeats kept. */
  function CollectedIds(items: seq<SellsItem>, field: Field): seq<string> {
    if items == [] then []
    else
      var last := ItemId(items[|items| - 1], field);
      CollectedIds(items[..|items| - 1], field) + (if Filled(last) then [last.value] else [])
  }

  /** The collected identifiers are exactly the items' non-empty identifiers of that kind. */
  lemma {:induction false} CollectedIdsMembership(items: seq<SellsItem>, field: Field, x: string)
    ensures x in CollectedIds(items, field)
        <==> !IsEmptyPhp(x) && exists i :: 0 <= i < |items| && ItemId(items[i], field) == Some(x)
  {
    if items != [] {
      var init := items[..|items| - 1];
      CollectedIdsMembership(init, field, x);
      if exists i :: 0 <= i < |init| && ItemId(init[i], field) == Some(x) {
        var i :| 0 <= i < |init| && ItemId(init[i], field) == Some(x);
        assert items[i] == init[i];
      }
      if exists i :: 0 <= i < |items| && ItemId(items[i], field) == Some(x) {
        var i :| 0 <= i < |items| && ItemId(items[i], field) == Some(x);
        if i < |init| {
          assert items[i] == init[i];
        }
      }
    }
  }

  /**
   * The id lists the lookups run on: each kind's non-empty identifiers, every one
   * once, nothing else.
   */
  lemma DistinctIdsExact(items: seq<SellsItem>, field: Field)
    ensures Distinct(ArrayUnique(CollectedIds(items, field)))
    ensures forall x :: x in ArrayUnique(CollectedIds(items, field))
                   <==> !IsEmptyPhp(x) && exists i :: 0 <= i < |items| && ItemId(items[i], field) == Some(x)
  {
    forall x
      ensures x in ArrayUnique(CollectedIds(items, field))
          <==> !IsEmptyPhp(x) && exists i :: 0 <= i < |items| && ItemId(items[i], field) == Some(x)
    {
      CollectedIdsMembership(items, field, x);
    }
  }

  /** De-duplicating the ids changes no query: the rows matched are the same. */
  lemma DedupTransparent(table: seq<Row>, wbConfigIds: seq<int>, window: Window, field: Field, ids: seq<string>)
    ensures Select(table, wbConfigIds, window, field, ArrayUnique(ids)) == Select(table, wbConfigIds, window, field, ids)
  {
    SelectDependsOnIdSet(table, wbConfigIds, window, field, ArrayUnique(ids), ids);
  }

  /** When both are present, the value of `o` is at most that of `r`. */
  predicate AtMost(o: Option<string>, r: Option<string>) {
    o.Some? && r.Some? ==> StrLessEq(o.value, r.value)
  }

  /**
   * `max($orderDate, $positionDate)` kept only when PHP finds it truthy: absent
   * when both are absent, the present one when one is, the later one when both
   * are; a winner that is "" or "0" is falsy and gives absent.
   */
  function MaxTime(orderDate: Option<string>, positionDate: Option<string>): (r: Option<string>)
    ensures orderDate.None? && positionDate.None? ==> r.None?
    ensures orderDate.None? && positionDate.Some? ==> r == (if Filled(positionDate) then positionDate else None)
    ensures orderDate.Some? && positionDate.None? ==> r == (if Filled(orderDate) then orderDate else None)
    ensures r.Some? ==> !IsEmptyPhp(r.value) && (r == orderDate || r == positionDate)
    ensures AtMost(orderDate, r) && AtMost(positionDate, r)
    ensures Filled(orderDate) && Filled(positionDate) ==> r.Some?
    ensures Filled(orderDate) && AtMost(positionDate, orderDate) ==> r == orderDate
    ensures Filled(positionDate) && AtMost(orderDate, positionDate) ==> r == positionDate
  {
    var winner := PhpMax(orderDate, positionDate);
    if winner.Some? && !IsEmptyPhp(winner.value) then winner else None
  }

  class WbCabinetOrderTimestamps {
    /** Latest order date per order id, keyed by StringKey; set once, by the constructor. */
    const orderIdTimestamps: map<string, string>
    /** Latest order date per order-position id, keyed by StringKey; set once, by the constructor. */
    const positionIdTimestamps: map<string, string>

    /**
     * Builds both maps from `table` for the items' distinct non-empty ids; the
     * window stands for [sell date - 3 months, start of day; sell date, end of day].
     */
    constructor (wbConfigIds: seq<int>, window: Window, items: seq<SellsItem>, table: seq<Row>)
      ensures ResolvedFrom(orderIdTimestamps, table, wbConfigIds, window, OrderId,
                           ArrayUnique(CollectedIds(items, OrderId)))
      ensures ResolvedFrom(positionIdTimestamps, table, wbConfigIds, window, OrderPositionId,
                           ArrayUnique(CollectedIds(items, OrderPositionId)))
      ensures items == [] ==> orderIdTimestamps == map[] && positionIdTimestamps == map[]
    {
      var orderIds, orderPositionIds := CollectIds(items);
      var byOrder := GetOrderTimestamps(wbConfigIds, window, OrderId, ArrayUnique(orderIds), table);
      var byPosition := GetOrderTimestamps(wbConfigIds, window, OrderPositionId, ArrayUnique(orderPositionIds), table);
      orderIdTimestamps, positionIdTimestamps := byOrder, byPosition;
    }

    /**
     * The walk over the items: the non-empty order ids and order-position ids,
     * in item order.
     */
    static method CollectIds(items: seq<SellsItem>) returns (orderIds: seq<string>, orderPositionIds: seq<string>)
      ensures orderIds == CollectedIds(items, OrderId)
      ensures orderPositionIds == CollectedIds(items, OrderPositionId)
    {
      orderIds, orderPositionIds := [], [];
      var n := 0;
      while n < |items|
        invariant 0 <= n <= |items|
        invariant orderIds == CollectedIds(items[..n], OrderId)
        invariant orderPositionIds == CollectedIds(items[..n], OrderPositionId)
      {
        var item := items[n];
        if Filled(item.orderId) {
          orderIds := orderIds + [item.orderId.value];
        }
        if Filled(item.orderPositionId) {
          orderPositionIds := orderPositionIds + [item.orderPositionId.value];
        }
        assert items[..n + 1][..n] == items[..n];
        n := n + 1;
      }
      assert items[..n] == items;
    }

    /**
     * Latest order date per id of `ids`, looked up 500 ids at a time. No id: no
     * query, empty map. Otherwise see ResolvedFrom: a key for exactly the ids some
     * matching row carries, each holding one of their dates, the greatest when no
     * matching date is "0", and for distinct ids the merge of one unchunked query.
     */
    static method GetOrderTimestamps(wbConfigIds: seq<int>, window: Window, field: Field, ids: seq<string>,
                                     table: seq<Row>)
      returns (result: map<string, string>)
      ensures ids == [] ==> result == map[]
      ensures ResolvedFrom(result, table, wbConfigIds, window, field, ids)
    {
      if ids == [] {
        ResolvedFromNoIds(table, wbConfigIds, window, field);
        return map[];
      }
      result := map[];
      var idsChunks := ArrayChunk(ids, ARRAY_CHUNK_LENGTH);
      ghost var done: seq<Row> := [];
      var c := 0;
      while c < |idsChunks|
        invariant 0 <= c <= |idsChunks|
        invariant done == ChunkRows(table, wbConfigIds, window, field, idsChunks[..c])
        invariant result == FoldRows(map[], done, field)
      {
        var rows := Select(table, wbConfigIds, window, field, idsChunks[c]);
        ghost var before := result;
        result := MergeRows(result, rows, field);
        ChunkMerged(table, wbConfigIds, window, field, idsChunks, c, done, before, rows, result);
        done := done + rows;
        c := c + 1;
      }
      assert idsChunks[..c] == idsChunks;
      ResolvedByChunks(result, table, wbConfigIds, window, field, ids);
    }

    /**
     * The inner loop of the lookup: each row's date is stored under its key when
     * the key is absent, the stored date is PHP-empty or the row's date is greater.
     */
    static method MergeRows(start: map<string, string>, rows: seq<Row>, field: Field) returns (result: map<string, string>)
      ensures result == FoldRows(start, rows, field)
    {
      result := start;
      var n := 0;
      while n < |rows|
        invariant 0 <= n <= |rows|
        invariant result == FoldRows(start, rows[..n], field)
      {
        var row := rows[n];
        ghost var merged := result;
        var stringKey := StringKey(FieldValue(row, field));
        if stringKey !in result || IsEmptyPhp(result[stringKey]) || StrLess(result[stringKey], row.orderDate) {
          result := result[stringKey := row.orderDate];
        }
        FoldSnoc(start, rows, n, field, merged, result);
        n := n + 1;
      }
      assert rows[..n] == rows;
    }

    /**
     * The later of the two dates known for an order id and an order-position id,
     * or absent when neither is known (or the later one is PHP-falsy).
     */
    function GetMaxTime(orderId: string, orderPositionId: string): (r: Option<string>)
      ensures StringKey(orderId) !in orderIdTimestamps && StringKey(orderPositionId) !in positionIdTimestamps
              ==> r.None?
      ensures r.Some? ==> !IsEmptyPhp(r.value)
      ensures r.Some? ==> r == Lookup(orderIdTimestamps, StringKey(orderId))
                          || r == Lookup(positionIdTimestamps, StringKey(orderPositionId))
      ensures AtMost(Lookup(orderIdTimestamps, StringKey(orderId)), r)
      ensures AtMost(Lookup(positionIdTimestamps, StringKey(orderPositionId)), r)
      ensures (Filled(Lookup(orderIdTimestamps, StringKey(orderId)))
               && StringKey(orderPositionId) !in positionIdTimestamps) ==> r.Some?
      ensures (StringKey(orderId) !in orderIdTimestamps
               && Filled(Lookup(positionIdTimestamps, StringKey(orderPositionId)))) ==> r.Some?
      ensures (Filled(Lookup(orderIdTimestamps, StringKey(orderId)))
               && Filled(Lookup(positionIdTimestamps, StringKey(orderPositionId)))) ==> r.Some?
      ensures (Filled(Lookup(orderIdTimestamps, StringKey(orderId)))
               && AtMost(Lookup(positionIdTimestamps, StringKey(orderPositionId)), Lookup(orderIdTimestamps, StringKey(orderId))))
              ==> r == Lookup(orderIdTimestamps, StringKey(orderId))
      ensures (Filled(Lookup(positionIdTimestamps, StringKey(orderPositionId)))
               && AtMost(Lookup(orderIdTimestamps, StringKey(orderId)), Lookup(positionIdTimestamps, StringKey(orderPositionId))))
              ==> r == Lookup(positionIdTimestamps, StringKey(orderPositionId))
    {
      var orderDate := Lookup(orderIdTimestamps, StringKey(orderId));
      var positionDate := Lookup(positionIdTimestamps, StringKey(orderPositionId));
      MaxTime(orderDate, positionDate)
    }
  }

  /**
   * What a lookup over `ids` promises of its map, `rows` being the matching rows:
   * a key for exactly the ids that some row carries; under each key the date of
   * one of that id's rows; the greatest such date when no row's date is "0"; and,
   * when the ids are distinct, exactly the map that merging `rows` in one pass
   * gives (chunking changes nothing).
   */
  ghost predicate ResolvedFrom(m: map<string, string>, table: seq<Row>, wbConfigIds: seq<int>, window: Window,
                               field: Field, ids: seq<string>)
  {
    var rows := Select(table, wbConfigIds, window, field, ids);
    && (forall k :: k in m <==> exists i :: 0 <= i < |rows| && KeyOf(rows[i], field) == k)
    && Attained(m, rows, field)
    && (NoZeroDates(rows) ==> Bounds(m, rows, field))
    && (Distinct(ids) ==> m == FoldRows(map[], rows, field))
  }

  /** With no ids no row matches, so the empty map is the answer. */
  lemma ResolvedFromNoIds(table: seq<Row>, wbConfigIds: seq<int>, window: Window, field: Field)
    ensures ResolvedFrom(map[], table, wbConfigIds, window, field, [])
  {
    SelectNoIds(table, wbConfigIds, window, field);
  }

  /**
   * One pass of the chunk loop: merging the rows of chunk `c` into the merge of
   * the earlier chunks' rows is merging the rows of the first `c + 1` chunks.
   */
  lemma ChunkMerged(table: seq<Row>, wbConfigIds: seq<int>, window: Window, field: Field, chunks: seq<seq<string>>,
                    c: nat, done: seq<Row>, before: map<string, string>, rows: seq<Row>, after: map<string, string>)
    requires c < |chunks|
    requires done == ChunkRows(table, wbConfigIds, window, field, chunks[..c])
    requires before == FoldRows(map[], done, field)
    requires rows == Select(table, wbConfigIds, window, field, chunks[c])
    requires after == FoldRows(before, rows, field)
    ensures done + rows == ChunkRows(table, wbConfigIds, window, field, chunks[..c + 1])
    ensures after == FoldRows(map[], done + rows, field)
  {
    FoldAppend(map[], done, rows, field);
    ChunkRowsSnoc(table, wbConfigIds, window, field, chunks, c);
  }

  /** Merging the rows of the per-chunk queries meets ResolvedFrom for the whole list. */
  lemma ResolvedByChunks(m: map<string, string>, table: seq<Row>, wbConfigIds: seq<int>, window: Window, field: Field,
                         ids: seq<string>)
    requires m == FoldRows(map[], ChunkRows(table, wbConfigIds, window, field, ArrayChunk(ids, ARRAY_CHUNK_LENGTH)), field)
    ensures ResolvedFrom(m, table, wbConfigIds, window, field, ids)
  {
    var rows := Select(table, wbConfigIds, window, field, ids);
    var chunked := ChunkRows(table, wbConfigIds, window, field, ArrayChunk(ids, ARRAY_CHUNK_LENGTH));
    ChunkRowsSameAsSelect(table, wbConfigIds, window, field, ids, ARRAY_CHUNK_LENGTH);
    FoldKeysOfRows(chunked, rows, field);
    FoldAttained(chunked, field);
    AttainedSameRows(FoldRows(map[], chunked, field), chunked, rows, field);
    if NoZeroDates(rows) {
      FoldOrderIndependent(rows, chunked, field);
      FoldIsPerKeyMax(rows, field);
    }
    if Distinct(ids) {
      ChunkingTransparent(table, wbConfigIds, window, field, ids, ARRAY_CHUNK_LENGTH);
    }
  }

  /**
   * With the query's ORDER BY, modelled as a table whose dates ascend per id, the
   * one-pass merge of the matching rows (what ResolvedFrom says a lookup of
   * distinct ids returns) holds the per-id greatest date, "0" dates included.
   */
  lemma OrderedLookupIsPerKeyMax(table: seq<Row>, wbConfigIds: seq<int>, window: Window, field: Field, ids: seq<string>)
    requires DatesAscendingPerKey(table, field)
    ensures IsPerKeyMax(FoldRows(map[], Select(table, wbConfigIds, window, field, ids), field),
                        Select(table, wbConfigIds, window, field, ids), field)
  {
    SelectKeepsAscending(table, wbConfigIds, window, field, ids);
    FoldAscendingIsPerKeyMax(Select(table, wbConfigIds, window, field, ids), field);
  }
}
