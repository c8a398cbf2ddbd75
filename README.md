# WbCabinet order timestamps — a Dafny model

This project models `App\Lib\WbCabinet\WbCabinetOrderTimestamps`. That class resolves the latest known
order date for the sold items of a marketplace cabinet. It works from their order ids and order-position ids.

- **Construction.** The constructor walks the items once. It keeps the order ids and order-position ids
  that PHP's `empty` does not reject, de-duplicates each list with `array_unique`, and looks each list up
  in the order-events table.
- **Lookup.** A lookup of an empty list returns an empty map and sends no query. Otherwise the list is
  split into chunks of 500 with `array_chunk`. For each chunk a query selects the rows that:
  - belong to one of the cabinet configurations,
  - have an order date inside an inclusive window,
  - carry one of the chunk's ids.
  Each returned row is merged into a map keyed by `'_' . id`. The row's date is stored when the key is
  absent, when the stored date is PHP-empty, or when the row's date is greater (PHP string comparison).
- **`getMaxTime`.** It looks both ids up and returns the later of the two dates. It returns absent when
  neither is known, or when the later date is falsy.

Modules:

- `wrappers.dfy` (`Wrappers`): `Option`, which stands for PHP's nullable values.
- `php_strings.dfy` (`PhpStrings`):
  - `empty` on strings: true for `""` and `"0"`.
  - PHP `<` on non-numeric strings: byte-wise, with a proper prefix first. Characters compare by code
    point, which is the byte order of UTF-8.
  - The facts that make it a strict total order.
  - `max` on two nullable strings: null compares as `""`, and the first argument wins ties.
- `php_arrays.dfy` (`PhpArrays`): `array_unique` (the model states its values, without repeats, not their order) and `array_chunk`.
- `order_rows.dfy` (`OrderRows`):
  - The table as an in-memory sequence of rows, and the query as a filter over it (`Select`).
  - The merge step (`Absorb`) and the merge of a row list (`FoldRows`).
  - The per-key maximum (`IsPerKeyMax`), with the lemmas that connect them.
  - The merge seen from one id (`FoldAt`, `IdRows`), which shows that chunking distinct ids changes
    nothing.
- `wb_cabinet_order_timestamps.dfy` (`WbCabinet`): the class `WbCabinetOrderTimestamps` with:
  - its two map fields, `const` because only the constructor sets them;
  - the constructor;
  - the item walk (`CollectIds`, the loop at lines 42-51);
  - the chunked lookup: `GetOrderTimestamps` loops over the chunks, and `MergeRows` is its inner loop over one
    chunk's rows;
  - `GetMaxTime`.

The merge tests `empty($result[$key])`, and PHP's `empty` is also true for a stored `"0"`. A stored `""`
does no harm, because every date is at least `""`; a stored `"0"` can be overwritten by a smaller date such
as `"/"`. So the merge is order-dependent only when some matching date is `"0"`:

- `EmptyDateBreaksMax` shows two rows whose merge depends on their order.
- The query's `ORDER BY {filedName}, orderDate` delivers each id's rows in ascending date order, and in
  that order the merge always ends at the greatest date, `"0"` included (`FoldAscendingIsPerKeyMax`,
  `OrderedLookupIsPerKeyMax`). `Select` keeps table order, so the model states this for a table whose
  dates ascend per id.
- `WindowExcludesEmpty` shows that `""` and `"0"` cannot match when the window's lower bound sorts above
  `"0"`, which every formatted date-time does.

What a lookup returns is stated by `ResolvedFrom`:
- a key for exactly the ids that some matching row carries;
- under each key the date of one of that id's rows;
- the greatest such date when no matching date is `"0"`;
- for the distinct ids the constructor passes, exactly the map that one unchunked query and merge gives,
  whatever the dates (`ChunkingTransparent`).

## Model

| member | source | states |
|---|---|---|
| `WbCabinet.WbCabinetOrderTimestamps.constructor` | WbCabinetOrderTimestamps.php:40-55 | each map meets `ResolvedFrom` for the items' distinct non-empty ids of its kind, so it equals the one-pass merge of that id list's matching rows; no items give two empty maps |
| `WbCabinet.CollectedIds` | WbCabinetOrderTimestamps.php:42-51 | the ids the item walk keeps; specified by `CollectedIdsMembership` and reached by `CollectIds` |
| `WbCabinet.WbCabinetOrderTimestamps.CollectIds` | WbCabinetOrderTimestamps.php:42-51 | the loop yields, in item order, the order ids and the order-position ids that pass `!empty` |
| `WbCabinet.CollectedIdsMembership` | WbCabinetOrderTimestamps.php:44-50 | an id is collected exactly when it is not PHP-empty and some item carries it in that field |
| `WbCabinet.DistinctIdsExact` | WbCabinetOrderTimestamps.php:53-54 | the lists passed to the lookups hold exactly the distinct non-empty ids of each kind, each once |
| `PhpArrays.ArrayUnique` | WbCabinetOrderTimestamps.php:53-54 | `array_unique` keeps exactly the input's values, with no repeats and no more entries than the input |
| `PhpArrays.ArrayUniqueOfDistinct` | WbCabinetOrderTimestamps.php:53 | a list without repeats comes back unchanged |
| `PhpArrays.ArrayChunk` | WbCabinetOrderTimestamps.php:90 | the chunks concatenate back to the list; each has 1 to 500 elements, all but the last exactly 500; no chunks only for an empty list |
| `PhpArrays.Flatten` | WbCabinetOrderTimestamps.php:90 | the chunks one after another; `ArrayChunk` ensures they give the list back, `FlattenMembership` and `FlattenSnoc` describe it |
| `PhpArrays.FlattenSnoc` | WbCabinetOrderTimestamps.php:90 | the concatenation of all chunks is that of all but the last, followed by the last |
| `PhpArrays.DistinctConcat` | WbCabinetOrderTimestamps.php:53 | a repeat-free list split in two gives repeat-free parts with no value in common, so a de-duplicated id lies in one chunk only |
| `PhpArrays.FlattenMembership` | WbCabinetOrderTimestamps.php:90 | a value is in the concatenated chunks exactly when it is in one of the chunks |
| `WbCabinet.WbCabinetOrderTimestamps.GetOrderTimestamps` | WbCabinetOrderTimestamps.php:83-122 | an empty id list gives an empty map; otherwise a key for exactly the ids some matching row carries, each holding one of that id's dates, the greatest when no matching date is "0", and for distinct ids exactly the one-pass merge of the whole list's matching rows |
| `WbCabinet.WbCabinetOrderTimestamps.MergeRows` | WbCabinetOrderTimestamps.php:113-118 | the inner loop merges a chunk's rows into the map exactly as `FoldRows` does, first row first |
| `WbCabinet.ChunkMerged` | WbCabinetOrderTimestamps.php:93-119 | one pass of the chunk loop: merging chunk `c`'s rows into the merge of the earlier chunks' rows is the merge of the rows of the first `c + 1` chunks |
| `WbCabinet.ResolvedFromNoIds` | WbCabinetOrderTimestamps.php:85-87 | for an empty id list the empty map is the whole answer |
| `WbCabinet.ResolvedByChunks` | WbCabinetOrderTimestamps.php:89-121 | merging the rows of the 500-id chunk queries meets every part of the lookup's promise for the whole list |
| `WbCabinet.OrderedLookupIsPerKeyMax` | WbCabinetOrderTimestamps.php:101-118 | with rows in the query's ORDER BY order (dates ascending per id), the one-pass merge of the matching rows, which `ResolvedFrom` equates with the lookup of distinct ids, holds the greatest date of each id, "0" dates included |
| `WbCabinet.DedupTransparent` | WbCabinetOrderTimestamps.php:53 | de-duplicating an id list does not change the rows its query matches |
| `OrderRows.InWindow` | WbCabinetOrderTimestamps.php:99 | the inclusive `BETWEEN :minOrderDate AND :maxOrderDate`; used by `SelectMembership` and `WindowExcludesEmpty` |
| `OrderRows.Matches` | WbCabinetOrderTimestamps.php:98-100 | the WHERE clause: config id in the list, date in the window, field value among the ids; specified through `SelectMembership` and `IdRowsSelect` |
| `OrderRows.KeyOf` | WbCabinetOrderTimestamps.php:114 | `_getStringKey($row[$filedName])`; two rows share a key exactly when they share the id, by `StringKeyInjective` |
| `OrderRows.Select` | WbCabinetOrderTimestamps.php:94-111 | the query for one id list; specified by `SelectMembership` (which rows) and `SelectKeepsAscending` (their order) |
| `OrderRows.SelectMembership` | WbCabinetOrderTimestamps.php:94-111 | a row is returned exactly when it is in the table, its config id is in the list, its date is in the inclusive window and its field value is one of the ids |
| `OrderRows.SelectNoIds` | WbCabinetOrderTimestamps.php:100 | a query over no ids returns no rows |
| `OrderRows.SelectDependsOnIdSet` | WbCabinetOrderTimestamps.php:100 | two id lists with the same values (any order, any repeats) select the same rows |
| `OrderRows.ChunkRows` | WbCabinetOrderTimestamps.php:93-111 | the rows the chunk loop merges, chunk after chunk; specified by `ChunkRowsMembership`, `ChunkRowsSnoc`, `ChunkRowsSameAsSelect` and `IdRowsChunks` |
| `OrderRows.ChunkRowsSnoc` | WbCabinetOrderTimestamps.php:93-111 | the rows of one more chunk follow those of the chunks before it, as each loop pass appends one query's rows |
| `OrderRows.ChunkRowsMembership` | WbCabinetOrderTimestamps.php:93-111 | a row is among the per-chunk results exactly when some chunk's query returns it |
| `OrderRows.ChunkRowsSameAsSelect` | WbCabinetOrderTimestamps.php:90-111 | the per-chunk queries together return the same rows as one query over the whole list |
| `OrderRows.Absorb` | WbCabinetOrderTimestamps.php:114-117 | one merge step; specified by `AbsorbKeys`, `AbsorbAttained`, `AbsorbBounds` and `AbsorbAscendingKeepsPerKeyMax` |
| `OrderRows.FoldRows` | WbCabinetOrderTimestamps.php:113-118 | the merge of a row list, first row first; specified by `FoldKeys`, `FoldAttained`, `FoldIsPerKeyMax`, `FoldAscendingIsPerKeyMax` and `FoldRowsAt` |
| `OrderRows.FoldSnoc` | WbCabinetOrderTimestamps.php:113-118 | the merge of one more row is one more merge step on the map so far |
| `OrderRows.FoldAppend` | WbCabinetOrderTimestamps.php:93-119 | merging chunk after chunk equals merging the concatenated rows |
| `OrderRows.AbsorbKeys` | WbCabinetOrderTimestamps.php:114-117 | a merge step adds the row's key and removes none |
| `OrderRows.FoldKeys` | WbCabinetOrderTimestamps.php:113-118 | after merging, a key is present exactly when it was before or some merged row carries it |
| `OrderRows.FoldKeysOfRows` | WbCabinetOrderTimestamps.php:113-118 | merging from empty gives exactly the keys of the rows, the same for any list of the same rows |
| `OrderRows.AbsorbAttained` | WbCabinetOrderTimestamps.php:115-116 | after a merge step every stored date is still the date of a merged row with that key |
| `OrderRows.AbsorbBounds` | WbCabinetOrderTimestamps.php:115-116 | with no stored date "0" (a stored "" is allowed), after a merge step every merged row's date is at most the stored date under its key |
| `OrderRows.AbsorbKeepsPerKeyMax` | WbCabinetOrderTimestamps.php:113-118 | when no earlier date is "0", a merge step keeps the map the per-key maximum of the rows merged so far |
| `OrderRows.FoldAttained` | WbCabinetOrderTimestamps.php:113-118 | whatever the dates, every entry of the merged map is the key and date of a merged row |
| `OrderRows.AttainedSameRows` | WbCabinetOrderTimestamps.php:93-118 | whether every entry comes from a row depends only on which rows there are, not their order or repeats |
| `OrderRows.FoldIsPerKeyMax` | WbCabinetOrderTimestamps.php:113-118 | with no date "0", the merged map holds under each row's key the greatest date of that key's rows, and nothing else |
| `OrderRows.AbsorbAscendingBounds` | WbCabinetOrderTimestamps.php:115-116 | when the new row's date is at least every earlier date of its id, every merged row stays bounded after the step, even if a stored date is "0" |
| `OrderRows.AbsorbAscendingKeepsPerKeyMax` | WbCabinetOrderTimestamps.php:115-116 | a merge step keeps the per-key maximum when the new row's date is at least every earlier date of its id, even if a stored date is "0" |
| `OrderRows.FoldAscendingIsPerKeyMax` | WbCabinetOrderTimestamps.php:101-118 | rows whose dates ascend per id, as ORDER BY delivers them, merge to the per-key maximum, "0" dates included |
| `OrderRows.SelectKeepsAscending` | WbCabinetOrderTimestamps.php:101 | the query keeps the table's order, so dates that ascend per id in the table ascend per id in the result |
| `OrderRows.PerKeyMaxUnique` | WbCabinetOrderTimestamps.php:113-118 | the per-key maximum of a set of rows is unique |
| `OrderRows.FoldOrderIndependent` | WbCabinetOrderTimestamps.php:101-118 | when no date is "0", any two lists of the same rows (any order, any repeats) merge to the same map |
| `OrderRows.Lookup` | WbCabinetOrderTimestamps.php:66-67 | `$map[$key] ?? null`; used by the contracts of `GetMaxTime` and `FoldRowsAt` |
| `OrderRows.AbsorbAt` | WbCabinetOrderTimestamps.php:115-116 | the merge step seen from one id's entry; `FoldRowsAt` proves it is what `Absorb` does to that entry |
| `OrderRows.FoldAt` | WbCabinetOrderTimestamps.php:113-118 | the row loop seen from one id's entry; `FoldRowsAt` ties it to `FoldRows`, `FoldAtIdRows` shows only that id's rows matter |
| `OrderRows.FoldRowsAt` | WbCabinetOrderTimestamps.php:113-118 | an id's merged entry is decided by that entry and the rows of that id alone, since a merge step touches one key |
| `OrderRows.IdRowsAppend` | WbCabinetOrderTimestamps.php:93-118 | one id's rows of two lists in sequence are its rows of the first, then of the second |
| `OrderRows.FoldAtIdRows` | WbCabinetOrderTimestamps.php:113-118 | an id's entry depends only on the subsequence of that id's rows |
| `OrderRows.IdRowsSelect` | WbCabinetOrderTimestamps.php:94-111 | a query's rows for one id are those of a query for that id alone, or none when the list lacks it |
| `OrderRows.IdRowsChunks` | WbCabinetOrderTimestamps.php:90-111 | over distinct ids, one id's rows among the per-chunk results are those of a query for that id alone, or none |
| `OrderRows.ChunkingTransparentAt` | WbCabinetOrderTimestamps.php:90-119 | over distinct ids, each id's entry is the same whether the ids are queried in chunks or at once |
| `OrderRows.ChunkingTransparent` | WbCabinetOrderTimestamps.php:90-119 | over distinct ids (as `array_unique` yields), for any chunk size and any dates, merging chunk by chunk gives exactly the map of one unchunked query |
| `OrderRows.WindowExcludesEmpty` | WbCabinetOrderTimestamps.php:99 | a window whose lower bound sorts above "0" admits neither "" nor "0" as a date |
| `OrderRows.EmptyDateBreaksMax` | WbCabinetOrderTimestamps.php:115 | with a "0" date the merge depends on row order: in ascending order it ends at "0", in the other order at the smaller "/" |
| `OrderRows.StringKey` | WbCabinetOrderTimestamps.php:130-133 | `_getStringKey`; specified by `StringKeyRoundTrip` and `StringKeyInjective` |
| `OrderRows.StringKeyRoundTrip` | WbCabinetOrderTimestamps.php:130-133 | the key is '_' followed by the id, so the id can be recovered |
| `OrderRows.StringKeyInjective` | WbCabinetOrderTimestamps.php:132 | distinct ids (e.g. "123" and "0123") never share a key |
| `PhpStrings.IsEmptyPhp` | WbCabinetOrderTimestamps.php:45 | `empty` on a string, true for "" and "0"; used by `CollectedIdsMembership`, `MaxTime` and the merge lemmas |
| `PhpStrings.Filled` | WbCabinetOrderTimestamps.php:45-48 | `!empty(...)` on a nullable id, and the truthiness test at line 71; used by `CollectedIdsMembership` (through `CollectedIds`) and the contracts of `MaxTime` and `GetMaxTime` |
| `PhpStrings.StrLess` | WbCabinetOrderTimestamps.php:115 | `>` on two date strings, byte-wise; a strict total order by `StrLessIrreflexive`, `StrLessTransitive` and `StrLessTotal` |
| `PhpStrings.StrLessIrreflexive` | WbCabinetOrderTimestamps.php:115 | no date is greater than itself |
| `PhpStrings.StrLessTransitive` | WbCabinetOrderTimestamps.php:115 | string comparison is transitive |
| `PhpStrings.StrLessTotal` | WbCabinetOrderTimestamps.php:115 | any two strings are equal or one is less |
| `PhpStrings.StrLessAsymmetric` | WbCabinetOrderTimestamps.php:115 | two strings are never each less than the other |
| `PhpStrings.StrLessEqAntisymmetric` | WbCabinetOrderTimestamps.php:115 | strings that are each at most the other are equal |
| `PhpStrings.NullableLess` | WbCabinetOrderTimestamps.php:69 | PHP's `<` between a null and a string inside `max`: null sorts below every string but "", which it equals; used by the contract of `PhpMax` |
| `PhpStrings.PhpMax` | WbCabinetOrderTimestamps.php:69 | `max` returns one of its arguments, one that neither argument exceeds, the first on a tie: null against "" stays null, a lone non-empty string wins over null, a lone argument with a null second one is returned |
| `WbCabinet.MaxTime` | WbCabinetOrderTimestamps.php:69-71 | both absent gives absent; one absent gives the other if truthy; a result is non-empty, one of the inputs and at least both; a truthy input at least the other is the result, so ("x", "0") gives "x" |
| `WbCabinet.WbCabinetOrderTimestamps.GetMaxTime` | WbCabinetOrderTimestamps.php:64-72 | neither id known gives absent; a result is one of the two stored dates, at least both and non-empty; a truthy stored date at least the other one (or with none for the other id) is the result |

## Left out

- The ClickHouse client is not modelled: `WbCabinetOrdersClickHouseTable::getInstance`, `select`, `rows`,
  `getTableName` and the substitution into the SQL template. The table is a parameter, an in-memory
  sequence of rows. The query is `Select`, a filter over it. Store and query errors, which the class lets
  propagate, are not modelled.
- `ORDER BY {filedName}, orderDate` is not applied by `Select`, which returns rows in table order. Its
  effect is stated for a table whose dates ascend per id (`OrderedLookupIsPerKeyMax`), and
  `FoldOrderIndependent` shows that the order does not matter when no date is "0".
- The window is taken as two strings (`Window`), in place of
  `Time::parse($sellDate)->subMonths(3)->startOfDay()/endOfDay()->toDateTimeString()`. That date
  arithmetic belongs to an external library. The constant `MAX_MONTHS_ORDER_DATE_SEARCH` is therefore
  not modelled.
- `BETWEEN` on the store's date column is modelled as string comparison of the canonical fixed-width
  date-time format.
- `Time::parse` in `getMaxTime` belongs to an external library. `GetMaxTime` returns the date string, and
  a parse failure is not modelled.
- PHP compares numeric strings as numbers. `StrLess` is byte-wise only, which is correct for date-time
  strings because they are never numeric.
- `WbCabinetSellsItem` appears only through its two nullable id fields (`SellsItem`).
- `array_unique` keeps the surviving keys, leaving gaps. `array_chunk` renumbers them, so only the list
  of values is modelled.
- `wbConfigId IN (:wbConfigIds)` with an empty configuration list is modelled as matching no row.
- WbCabinet.WbCabinetOrderTimestamps.GetOrderTimestamps: for an id list with repeats, which the
  constructor never passes, the exact map is not stated. A repeated id is queried once per chunk that
  holds it, so its rows are merged more than once, and the equality with one unchunked merge is proved
  only for distinct ids. The key set, the attained dates and the maximum when no date is "0" are
  stated for every list.
