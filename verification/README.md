# Nebula core, modelled in Dafny

This project models the sequential core of the Nebula real-time analytics
engine, in these modules:

- **FlatBuffers** (`flat_buffer.dfy`): the row encoder's bookkeeping.
  - Three write-offset buffers (main, data, list).
  - The per-row metadata (`RowProps`, `ColumnProps`).
  - The single-level undo checkpoint (`last_`).
  - The `binSize` formula and a serialized layout that `binSize` accounts for.
  - The main-region slot widths.
- **ListAccess** (`list_accessor.dfy`): the list accessor's walk over item headers.
  - A null item is its header byte alone; any other item is the header plus `itemWidth` bytes.
  - A header is null when bit 6 (`0x40`) is set.
- **TypeMeta** (`type_metadata.dfy`): the columnar serde's per-column metadata.
  - A null set of uint32 indexes.
  - The cumulative offset array and its null holes.
  - The dictionary: row links, plus a hash index searched oldest entry first (an order the C++ multimap leaves open).
  - Nullness masked by a default value.
- **TypeStore** (`type_data.dfy`): the typed value stores and the proxy that binds to one of them.
  - A store's setup: the bloom filter, and the default value.
  - The append-only string store.
  - The bloom-filter-or-true `probably` rule.
  - Forwarding of add, probably, default and read.
- **StringColumn** (`string_column.dfy`): a string column written through its metadata and its store, then read back through `offsetSizeDirect`.
- **SpecRepository** (`spec_repo.dfy`): the ingestion-spec repository.
  - Spec generation per file, and the identity of a test-loader spec.
  - `update`, which merges a new spec list.
  - `assign` of one spec to a node.
  - `assign` of every spec round-robin over the active nodes.
- **Ingest** (`ingest_spec.dfy`): ingestion of one spec's rows.
  - Selection of the time function.
  - The `_time_` row wrapper.
  - The block-splitting loop: at most `NBLOCK_MAX_ROWS` rows per block, each block ranged by its rows' times.
  - The Kafka loop, which drops rows whose time is zero.
- **Udf** (`udf.dfy`):
  - The IN / NOT IN predicates and the prefix match.
  - The MIN and SUM aggregate merges.
- **Common** and **Kinds** hold shared vocabulary:
  - bytes, uint32 and `Option`;
  - the 64-bit and 32-bit conversions;
  - a little-endian codec;
  - the column kinds and their integer ranges.

The NOT IN constructor of `In` insists, through `N_ENSURE`, that its `in` flag be false, and throws otherwise; `Udf.MakeNotIn` returns `None` where the source throws.

The integer widths of the source are written out:
- the null bitmap and the dictionary truncate indexes to 32 bits;
- offset totals wrap at 2^64;
- times are reinterpreted as `size_t` before ranges are computed;
- SUM wraps to the width of its kind.

Where the source's comments and its code disagree, the model follows the code:
- The comment at `src/memory/keyed/FlatBuffer.h:32` says the null flag of a value is its high nibble. The code tests bit 6 (`HIGH6_1 = 1 << 6`, line 52, used at lines 272-274). `ListAccess.HighNibbleIsNotNull` records the difference: a header of `0x80` is not null.

## Model

| member | source | states |
|---|---|---|
| FlatBuffers.WidthInMain | src/memory/keyed/FlatBuffer.h:36-43 | A scalar's main-region slot is its native width, string and list slots are 8 bytes, and maps and structs have no slot |
| FlatBuffers.SlotRoundTrip | src/memory/keyed/FlatBuffer.h:38-39 | An 8-byte string slot [offset, length] or list slot [count, offset] reads back as the descriptor written |
| FlatBuffers.PagedBuffer | src/memory/keyed/FlatBuffer.h:59 | A buffer over a fresh page starts with write offset 0 and no content |
| FlatBuffers.BorrowedBuffer | src/memory/keyed/FlatBuffer.h:62 | A buffer over existing bytes has write offset equal to their size and those bytes as content |
| FlatBuffers.Write | src/memory/keyed/FlatBuffer.h:63-64 | Writing advances the write offset by the byte count and appends exactly those bytes to the content |
| FlatBuffers.NewFlat | src/memory/keyed/FlatBuffer.h:119-131 | A fresh encoder has no rows, a serialized size of 40 (the five header fields) and nothing to roll back |
| FlatBuffers.Add | src/memory/keyed/FlatBuffer.h:104-105 | Adding a row returns the old row count as its index and raises the count by exactly one. Earlier rows are unchanged and the new row starts at the old main offset. Each region gains exactly the row's bytes, and the checkpoint holds the three offsets from before the add |
| FlatBuffers.Rollback | src/memory/keyed/FlatBuffer.h:107-108 | Rollback succeeds iff an add is pending. On success it drops the last row, restores the three offsets to the checkpoint and clears the checkpoint. Without a pending add it returns false and changes nothing |
| FlatBuffers.AddThenRollback | src/memory/keyed/FlatBuffer.h:107-108 | A rollback right after an add restores the rows, the row count, the content of all three regions and the serialized size, and a second rollback fails |
| FlatBuffers.BinSizeFormula | src/memory/keyed/FlatBuffer.h:123-131 | binSize = 40 + 8·getRows + main, data and list offsets, i.e. five 8-byte header fields plus one 8-byte offset per row plus the blocks |
| FlatBuffers.BinSizeAfterAdd | src/memory/keyed/FlatBuffer.h:119-131 | Adding a row grows binSize by 8 plus the row's main, data and list byte counts |
| FlatBuffers.BinSizeIsSerializedLength | src/memory/keyed/FlatBuffer.h:123-133 | The serialized form is exactly binSize bytes long |
| FlatBuffers.SerializedFields | src/memory/keyed/FlatBuffer.h:123-131 | The serialized form holds the encoded row count first, then the row offset table, then the main, data and list sizes, each at the position binSize's field order gives |
| FlatBuffers.SerializedBlocks | src/memory/keyed/FlatBuffer.h:123-131 | After the 8·(5 + rows) header bytes come the main, data and list blocks back to back, in that order, filling the rest of the form |
| FlatBuffers.SerializedFieldsDecode | src/memory/keyed/FlatBuffer.h:123-131 | Decoding the header fields of the serialized form gives back the row count, every row's offset and the three region sizes |
| FlatBuffers.DecodeEncodeOffsets | src/memory/keyed/FlatBuffer.h:125 | The row offset table (one 8-byte field per row) decodes back to the row offsets |
| ListAccess.ItemOffsets | src/memory/keyed/FlatBuffer.h:246-257 | The constructor's loop yields `items` offsets. The first is 0 and each next one is the previous plus 1, plus `itemWidth` when the previous header is not null. The end of the walk is the sum of the steps |
| ListAccess.Step | src/memory/keyed/FlatBuffer.h:250-256 | An item occupies at least its header byte, and exactly one byte iff it is null or the width is 0 |
| ListAccess.FootprintCount | src/memory/keyed/FlatBuffer.h:246-257 | The bytes walked equal `items` + `itemWidth` × (number of non-null items) |
| ListAccess.WalkIncreasing | src/memory/keyed/FlatBuffer.h:246-257 | The item offsets are strictly increasing |
| ListAccess.WalkUnique | src/memory/keyed/FlatBuffer.h:246-257 | The item offsets are determined by the buffer: two walks of the same length agree |
| ListAccess.EncodeItemHeader | src/memory/keyed/FlatBuffer.h:272-274 | The header of an encoded item reads as null iff the item is null, and its step spans the whole item |
| ListAccess.EncodedWalkable | src/memory/keyed/FlatBuffer.h:246-257 | The accessor can walk every list encoded with well-sized items without reading outside it |
| ListAccess.EncodedWalk | src/memory/keyed/FlatBuffer.h:246-257 | On an encoded list, the accessor's offsets land exactly on the item starts, and a header reads as null exactly for the null items |
| ListAccess.HighNibbleIsNotNull | src/memory/keyed/FlatBuffer.h:272-274 | The null test is bit 6 alone: 0x40 and 0xC0 are null headers, 0x80 is not |
| TypeMeta.NewMeta | src/memory/serde/TypeMetadata.h:47-62 | A non-scalar kind starts with offset array [0] and a scalar kind has none. The hash index and dictionary exist (empty) iff the column has a dictionary. The default flag is set iff the default literal is non-empty. There are no nulls |
| TypeMeta.NewMetaState | src/memory/serde/TypeMetadata.h:47-62 | On a fresh column: hasDict iff withDict, hasDefault iff a default is given, no row is null in either sense, no row's offsets can be read, and find reports INVALID_INDEX |
| TypeMeta.SetNullThenQuery | src/memory/serde/TypeMetadata.h:101-116 | After setNull(i), isNull holds iff there is no default and isRealNull holds iff there is one. Both views hold for every index equal to i modulo 2^32 |
| TypeMeta.NullViewsExclusive | src/memory/serde/TypeMetadata.h:105-116 | isNull and isRealNull never both hold, and the index is in the null set iff one of them does |
| TypeMeta.AppendOffset | src/memory/serde/TypeMetadata.h:118-131 | Recording row `index` keeps the old entries and fills every skipped position with the previous last total. It then appends last + items modulo 2^64. The array grows to index+2 entries, or by one when index lies before its end |
| TypeMeta.SetOffsetSizeRows | src/memory/serde/TypeMetadata.h:118-149 | For an index at or past the end, the array length becomes index+2. Each skipped row reads (last, 0) and row `index` reads (last, items). Every earlier row reads as before |
| TypeMeta.SetOffsetSizeMonotone | src/memory/serde/TypeMetadata.h:118-131 | Recording a row keeps the array nondecreasing while the total does not overflow |
| TypeMeta.PrefixSumsShape | src/memory/serde/TypeMetadata.h:211-217 | Running totals start at 0, end at the total item count, are nondecreasing, and give back each row's own size as a difference |
| TypeMeta.FillPrefixSums | src/memory/serde/TypeMetadata.h:118-131 | Recording every row's size in order from [0] yields exactly the running totals, whose last entry is the total |
| TypeMeta.DocumentedExample | src/memory/serde/TypeMetadata.h:211-217 | The array 0,5,6,6,8,14,20 reads as rows of 5,1,0,2,6,6 items at offsets 0,5,6,6,8,14. It is the running totals of those sizes, and the row past the end cannot be read |
| TypeMeta.OffsetSizeDirect | src/memory/serde/TypeMetadata.h:145-149 | A read succeeds iff entries i and i+1 (taken modulo 2^64, as size_t) both exist; the source's `at()` throws otherwise. Both results fit in 64 bits. The offset is entry i, and the length is entry i+1 minus entry i whenever that difference is not negative (it wraps modulo 2^64 otherwise) |
| TypeMeta.LinkThenOffsetSize | src/memory/serde/TypeMetadata.h:133-175 | After a fresh link i→t, every row equal to i modulo 2^32 reads t's offset and size, and every other row reads as before. A second link for the same row changes nothing |
| TypeMeta.Link | src/memory/serde/TypeMetadata.h:173-175 | An existing link is kept, as emplace does. Otherwise the 32-bit-truncated index is linked to the truncated target. Nothing else changes |
| TypeMeta.FindInSpec | src/memory/serde/TypeMetadata.h:155-171 | A found index is that of the oldest entry recorded under the hash whose stored bytes equal the value. When every entry under the hash is readable, find does not fail and returns INVALID_INDEX iff no entry matches |
| TypeMeta.RecordThenFind | src/memory/serde/TypeMetadata.h:155-179 | Recording another entry keeps every answer find already gave. A value that was missing is found at the new entry when its bytes are stored there |
| TypeMeta.SealKeepsLookups | src/memory/serde/TypeMetadata.h:181-184 | Sealing keeps hasDict, every offset lookup (links included) and every null answer |
| TypeStore.NewStore | src/memory/serde/TypeData.cpp:46-57 | A fresh store is empty. It has a bloom filter sized for the batch iff the column asks for one and the kind is fixed-width and not boolean. It has a default iff the default literal is non-empty: the literal itself for strings, a null pointer for compound kinds, the parsed value otherwise |
| TypeStore.StringAdd | src/memory/serde/TypeData.cpp:78-86 | Appending a string grows the store's size by exactly its length. The bytes before the old size are unchanged and the new bytes are the value. The filter and default are untouched |
| TypeStore.StringAddVoid | src/memory/serde/TypeData.cpp:73-76 | A null string leaves the size unchanged: it is the add of zero bytes |
| TypeStore.StringAddKeepsFilter | src/memory/serde/TypeData.cpp:81-85 | A string add never changes the store's bloom filter, default or fixed-width values |
| TypeStore.Probably | src/memory/serde/TypeData.cpp:88-95 | Without a bloom filter every value may be present; with one, the filter's answer |
| TypeStore.NoFalseNegatives | src/memory/serde/TypeData.cpp:88-95 | An added value is probably present, stays so after further adds, and an add never turns a yes into a no |
| TypeStore.Bind | src/memory/serde/TypeData.cpp:109-206 | The proxy binds to the store's kind exactly when it is not compound. It records the store's filter flag and sets the null writer only when bound. Its queries `ProxyProbably`, `ProxyDefaultValue` and `ProxyRead` answer exactly as the bound store does |
| TypeStore.ProxyAdd | src/memory/serde/TypeData.cpp:139-154 | An add is forwarded to the bound store of its kind: a string is appended to the string store, any other value is written into its row of the fixed-width store. The binding, the filter flag and the null writer are kept |
| TypeStore.ProxyAddVoid | src/memory/serde/TypeData.cpp:109-136 | A null write succeeds iff the null writer is set, for every binding. A string store gets the zero-byte add, a fixed-width store loses the row's value, and unbound data is unchanged. The flags are kept |
| TypeStore.ProxyScalarRoundTrip | src/memory/serde/TypeData.cpp:139-206 | Through a bound fixed-width proxy, an added value reads back from its row and is probably present. The proxy's filter flag matches the store and the default is the store's |
| TypeStore.ProxyAddForwards | src/memory/serde/TypeData.cpp:109-154 | For any bound fixed-width proxy, an added value reads back from its row, leaves the other rows as they were and is probably present. A null written to that row afterwards succeeds and empties that row only |
| TypeStore.ScalarAddVoid | src/memory/serde/TypeData.cpp:112-114 | A null write to a fixed-width store leaves that row without a value, keeps the other rows, and touches neither the filter nor the default |
| TypeStore.ProxyStringAppend | src/memory/serde/TypeData.cpp:139-189 | Through a bound string proxy, an added string becomes the last bytes of the store, and the filter and default are unchanged |
| TypeStore.StringProxyHasNoFilter | src/memory/serde/TypeData.cpp:46-136 | String and boolean stores made by the column setup never have a filter, and the string store gets a null writer. Compound data stays unbound, and a null write through it fails at every row |
| StringColumn.WriteAllWritten | src/memory/serde/TypeData.cpp:73-86 | After writing the rows in order, the store holds their bytes concatenated and each offset entry k is the byte count of rows before k. Rows past the array's end are nulls, and the null set gains exactly the null rows' 32-bit keys |
| StringColumn.StringColumnRoundTrip | src/memory/serde/TypeMetadata.h:101-149 | Row i of a written string column reads back as exactly its bytes, at offset = bytes before it and length = its size. A null row followed by a value is a zero-length hole. A null row is isNull iff the column has no default and isRealNull iff it has one. With at most 2^32 rows, a non-null row is neither. The store's size is the total byte count |
| StringColumn.NullKeySource | src/memory/serde/TypeMetadata.h:101-103 | Every key in the null set is the 32-bit truncation of the index of some null row |
| StringColumn.NullKeyAliasing | src/memory/serde/TypeMetadata.h:101-116 | Past 2^32 rows the 32-bit keys collide: with row 0 a value, row 2^32 null and no default, row 0 is reported null |
| SpecRepository.GenSpecPerFile | src/ingest/SpecRepo.cpp:85-101 | One spec per non-directory file, in listing order, each built from that file |
| SpecRepository.GenSpecPerFileState | src/ingest/SpecRepo.cpp:90-100 | Every generated spec is NEW, unassigned, with the given version and macro date; a listing of only directories yields none |
| SpecRepository.DecimalRoundTrip | src/ingest/SpecRepo.cpp:75 | The decimal rendering of a time value parses back to the value |
| SpecRepository.BuildIdentityByTime | src/ingest/SpecRepo.cpp:71-82 | STATIC gives the decimal rendering of the static time and CURRENT that of the clock; every other type, and only those, gives "" |
| SpecRepository.StaticIdentityInjective | src/ingest/SpecRepo.cpp:73-76 | Two static time specs get the same identity iff their time values are equal |
| SpecRepository.Carry | src/ingest/SpecRepo.cpp:224-245 | An unknown signature passes through unchanged. A known one inherits the previous state, becoming RENEW iff its size differs. It inherits the previous affinity, dropped when that node is inactive. Nothing else changes |
| SpecRepository.NextKeys | src/ingest/SpecRepo.cpp:219-249 | The next version's keys are exactly the signatures of the new spec list |
| SpecRepository.NextFirst | src/ingest/SpecRepo.cpp:248 | Each key of the next version holds the carried form of the first spec with that signature (emplace keeps the first) |
| SpecRepository.SwapCondition | src/ingest/SpecRepo.cpp:217-252 | The brand-new or renew counter is positive iff some new spec has an unknown signature or a different size |
| SpecRepository.UpdateEffect | src/ingest/SpecRepo.cpp:210-265 | When every new spec is known with the same size the map is untouched, including specs no longer listed. Otherwise it becomes the new list keyed by signature, each key holding the carried first spec |
| SpecRepository.AssignOne | src/ingest/SpecRepo.cpp:267-289 | An unknown spec fails and changes nothing. An unassigned spec takes the node and succeeds. An assigned spec is never moved and succeeds iff it is on that node |
| SpecRepository.AssignOneStable | src/ingest/SpecRepo.cpp:274-288 | Asking again for the node just given succeeds and changes nothing; a freshly assigned spec refuses a different node |
| SpecRepository.FindActive | src/ingest/SpecRepo.cpp:314-328 | The scan from idx returns the first active node met cyclically. It reports none iff no node is active |
| SpecRepository.NoActiveNode | src/ingest/SpecRepo.cpp:323-327 | A full round that meets no active node means the list has none |
| SpecRepository.AssignAll | src/ingest/SpecRepo.cpp:291-331 | With no nodes or no active node nothing changes. Otherwise every unassigned spec gets an active node in the list, with nothing else about it changed. Assigned specs and the key set are untouched |
| Ingest.TimeFuncDepends | src/ingest/IngestSpec.cpp:300-351 | Every value is narrowed to int64. STATIC gives the constant and MACRO gives the macro date for "date", 0 otherwise; both are the same for every row, read and clock. CURRENT gives the clock at that read, whatever the row. COLUMN looks only at the row's time column, and a null one gives the non-zero marker 1 |
| Ingest.Wrap | src/ingest/IngestSpec.cpp:270-287 | The wrapped row never reports `_time_` null and reads it as the time function's value; every other field answers as the wrapped row does |
| Ingest.RangeBounds | src/ingest/IngestSpec.cpp:424-434 | A run's range contains every row's time, and for a non-empty run both ends are times of rows in it |
| Ingest.SplitBlocks | src/ingest/IngestSpec.cpp:392-445 | The blocks, concatenated, are the input rows. Ids run 0,1,2,… and each range is the (min, max) of that block's own rows. There are no blocks iff there are no rows. Every block holds 1..bRows rows and all but the last are full. With bRows = 0, the first block is empty and the rest hold one row each |
| Ingest.IngestFile | src/ingest/IngestSpec.cpp:294-446 | Ingestion succeeds iff the time type has a time function and the format is csv or parquet, and failure yields no blocks. On success the blocks hold the rows in order, each stored with its second `_time_` read and ranged by its first, numbered, with the block-size facts of SplitBlocks for both a positive bRows and bRows = 0 |
| Ingest.IngestedTimes | src/ingest/IngestSpec.cpp:410-437 | Row j of block b is the wrapped source row at its position k, stored with the time of read 2k+1; the time of read 2k lies within the block's range. For every kind but CURRENT the stored time lies within the range too |
| Ingest.CurrentTimeMayLeaveRange | src/ingest/IngestSpec.cpp:309-436 | With a CURRENT time whose clock reads 5 then 6, a one-row file's block has range (5, 5) but stores the time 6 |
| Ingest.KeptNonZero | src/ingest/IngestSpec.cpp:213-219 | Every row the Kafka loop keeps has a non-zero time |
| Ingest.KeptComplete | src/ingest/IngestSpec.cpp:213-230 | Every row with a non-zero time is kept |
| Ingest.KeptAll | src/ingest/IngestSpec.cpp:213-230 | When no row has time zero, nothing is dropped |
| Ingest.LoadKafka | src/ingest/IngestSpec.cpp:206-236 | The Kafka block has id 0, holds exactly the rows with non-zero time in order, and its range is the (min, max) of their times. With no kept row it is (largest size_t, 0) |
| Udf.AnyEqualSpec | src/api/udf/In.h:47-51 | The any-of scan is membership of the source in the list; the none-of scan is non-membership |
| Udf.EvalIn | src/api/udf/In.h:47-73 | An invalid input is false for both. IN holds iff some listed value equals the source; NOT IN holds iff none does |
| Udf.MakeNotIn | src/api/udf/In.h:58-76 | The NOT IN constructor succeeds iff `in` is false, and then keeps the list |
| Udf.InNotInComplement | src/api/udf/In.h:40-76 | On a valid input IN and NOT IN over the same list are complements, and both are false on an invalid one. With an empty list IN is false and NOT IN is true |
| Udf.EvalPrefix | src/api/udf/Prefix.h:45-62 | The match is true iff the input is valid, the source is at least as long as the prefix, and every prefix position matches. In case-sensitive mode, that is iff the prefix is a prefix of the source |
| Udf.PrefixProperties | src/api/udf/Prefix.h:47-59 | An empty prefix matches every source. The answer depends only on as many leading characters of the source as the prefix has. A case-sensitive match is also a case-insensitive one |
| Udf.MinMerge | src/api/udf/Min.h:48-50 | The merge is at most both arguments and equals one of them |
| Udf.MinMergeLaws | src/api/udf/Min.h:48-50 | The merge is commutative, idempotent and associative |
| Udf.MinFoldIsLeast | src/api/udf/Min.h:48-50 | Folding a run with the merge gives its least value |
| Udf.MinFoldSplit | src/api/udf/Min.h:48-50 | Partial minimums of any split of a run merge into the minimum of the whole run |
| Udf.WrapTo | src/api/udf/Sum.h:36-38 | The wrapped value lies in the kind's range, is congruent to the input modulo 2^width, and equals the input when that is already in range |
| Udf.WrapAdd | src/api/udf/Sum.h:36-38 | Wrapping an intermediate sum does not change the wrapped total |
| Udf.SumMerge | src/api/udf/Sum.h:36-38 | The merge lies in the kind's range and equals ov + nv when that does not overflow |
| Udf.SumMergeLaws | src/api/udf/Sum.h:36-38 | The merge is commutative. Both groupings of three partial sums give the wrapped total, which is the exact sum when it does not overflow |

## Left out

- Scalar store add, read and addVoid: their bodies are in `TypeData.h`, which is not part of this model. `TypeStore.ScalarAdd` and `TypeStore.Read` write and read a per-row map, and `TypeStore.ScalarAddVoid` removes a row's value.
- Float and double kinds: their stores, their bloom filters, their histograms, and MIN and SUM over REAL/DOUBLE. Floating point is out of scope.
- Histograms of `TypeMetadata`: `Histogram.h` is not part of this model.
- Bloom filter internals: `common/BloomFilter.h` is not part of this model. A filter is modelled as the added values plus an arbitrary set of collisions. No false negatives therefore holds by construction: the model assumes it and does not prove it.
- Roaring bitmap and hash containers: the null bitmap is a set of uint32, the equal-range bucket is the list of entries, oldest first, and the dictionary is a map.
- TypeStore.Bind: `hasBf_` is taken as false for compound data. The constructor never sets it there, and its initial value is outside the modelled files.
- Udf.EvalPrefix: the case-insensitive `ieq` is outside the modelled files and is taken as ASCII case folding.
- Udf.MinMerge: `Min` is instantiated with the MAX traits. The traits machinery is not modelled; the merge is `std::min` over integers.
- Udf.SumMerge: C++ does not define a signed overflow of INTEGER, BIGINT or INT128. The model takes the two's-complement wrap, which narrow kinds get by conversion.
- Sum over VARCHAR: its specialization is declared, but its body is outside the modelled files.
- Sum over BOOLEAN is not modelled. `bool + bool` converted back to `bool` is a logical OR rather than a wrap, and `Udf.SumMerge` covers only the integer kinds.
- `FlatBuffer.cpp` is not part of this model. That covers `add`, `resume`, `row`, `crow`, `serialize` and the parsers:
  - a row arrives already encoded (`EncodedRow`);
  - `FlatBuffers.Serialize` is a layout inferred from `binSize`'s field comments, with little-endian 64-bit fields and a zero reserved field;
  - `resume` and the row readers are left out.
- `ListAccessor`'s `isNull` and `readX` bodies are outside the modelled files. Only the constructor's walk and `isOffsetNull` are modelled.
- Memory ownership is left out: `Pool` freeing, `PagedSlice` paging and the page-size flags.
- TypeMeta.SetOffsetSize: modelled for indexes below the largest `size_t`. The hole-filling loop's `size++ <= index` cannot stop at index 2^64-1.
- TypeMeta.OffsetSizeDirect: an out-of-range `at()` throws in the source; the model returns `None`. The contract states the length only where entry i+1 is not below entry i; for a decreasing pair it says only that the wrapped difference fits in 64 bits.
- SpecRepository.AssignAll: the iteration order of the spec map is an explicit `order` argument, a permutation of its keys.
- Spec signatures and `NNode::equals` are outside the modelled files. A signature is a field of the spec, and two nodes are equal when their servers are.
- Ingest.SplitBlocks: the table name and spec signature of a block are not modelled. `NBLOCK_MAX_ROWS` is a parameter; with 0, the loop emits an empty first block, as the contract states.
- Ingest.TimeFunc: `Evidence::time` date parsing and the clock are parameters; the clock is a function of the read number. A COLUMN UNIXTIME read is taken as an int64, so its round trip through `size_t` is the identity.
- Ingest.IngestFile: `Batch::add` is outside the modelled files. The model takes it to read `_time_` through the wrapper exactly once per row, right after the loop's own read, so row k's reads are numbers 2k and 2k+1.
- Ingest.IngestedTimes: for a CURRENT time the stored `_time_` is not promised to lie within the block's range; `Ingest.CurrentTimeMayLeaveRange` shows it can fall outside.
- TypeMeta.NewMeta: `TypeBase::isScalar`, called at `src/memory/serde/TypeMetadata.h:49`, is defined outside the modelled files. The model takes it to hold for the fixed-width kinds only, so a string column gets the offset array `[0]`, as the comment at `src/memory/serde/TypeMetadata.h:218` says string data does. `StringColumn.Fresh`, `StringColumn.WriteAllWritten` and `StringColumn.StringColumnRoundTrip` rest on this choice.
- TypeStore.NewStore: the per-kind `Scalar` flag tested at `src/memory/serde/TypeData.cpp:50` is defined outside the modelled files. The model takes it to hold for the fixed-width kinds other than boolean. Strings get no filter, in line with the disabled filter code at `src/memory/serde/TypeData.cpp:81-85`.
- TypeStore.ProxyAddVoid: `TypeDataProxy::addVoid` and the fixed-width `addVoid` bodies are in `TypeData.h`, which is not part of this model. A fixed-width null write is modelled as removing the row's value.
- TypeMeta.RecordThenFind: the C++ standard leaves the order of equal keys in the hash multimap open. The model visits them oldest first, so where several stored values share a hash and bytes, the index found may differ from the source's.
- StringColumn.WriteAllWritten: the writer that drives a string column is outside the modelled files. The order per row is the model's reading of the interfaces: `setNull` then `addVoid` for a null row, `setOffsetSize` then `add` for a value.
- Spec generation from the environment is left out: `refresh`, `process`, `genSpecs4Swap`, `genSpecs4Roll`, `genKafkaSpec` and `loadNebulaTestData`. They depend on filesystem listing, the wall clock, Kafka or the hardware.
- Readers and services are left out: the CSV, Parquet and Kafka readers, `BlockManager`, `TableService` and the batch's own storage.
- Concurrency on the spec repository is left out.
