# Packed adjacency compression and the sparse int list, in Dafny

This project models two pieces of Neo4j Graph Data Science:

- **`AdjacencyPacker`**, the packed adjacency-list compressor. It takes the target ids of one node's adjacency list, held in a prefix of a `long[]` whose length is a multiple of `BLOCK_SIZE` (64):
  - it sorts them, merges duplicates as the aggregation asks, and delta-encodes them in place;
  - it cuts the deltas into blocks of 64 and gives each block the bit width of its widest delta, stored in one header byte per block;
  - it reserves `align8(align8(header) + payload)` bytes through an allocator, writes the header, pads to eight bytes, packs the blocks one after the other, and returns the offset of the reserved space together with the degree (the number of ids kept).
- **`HugeSparseIntList`**, a long-indexed, growable list of `int`s. It is stored in pages of 4096 slots that are allocated on the first write. Unwritten indices read a default value. The list can be drained page by page.

The main theorem of the packer side sits in the `ensures` of `AdjacencyPacker.DeltaCompress`, `Compress` and `CompressWithProperties`. A unit they write decodes back to the ids it came from:
- under `AdjacencyLayout.Decode`, which locates the header and payload and takes the running sums of the unpacked deltas;
- in ascending order, with duplicates merged unless the aggregation is `NONE`.

The arena is left unchanged when a call fails. The sparse list is a class over a page table. `Get` is the abstract view: each mutator states its effect on `Get` at its own index and that every other index keeps its value.

Modules, one file each:

| file | module | what it holds |
|---|---|---|
| `common.dfy` | `Common` | `Byte`, `Option`, Java integer bounds and wrap-around, `CeilDiv`, `Align8`, sequence helpers |
| `bitmath.dfy` | `BitMath` | powers of two, bit length (`64 - numberOfLeadingZeros`), bitwise OR on naturals |
| `arena.dfy` | `Arena` | the allocator: a growable byte arena, `Allocate` and `WriteBytes` |
| `delta_codec.dfy` | `DeltaCodec` | the sort, aggregation and delta encoding of the ids, in place on the array |
| `adjacency_packing.dfy` | `AdjacencyPacking` | `BLOCK_SIZE`, `bytesNeeded`, a block's bit-packed form and its inverse |
| `adjacency_layout.dfy` | `AdjacencyLayout` | header, payload and unit as functions of the values; `Decode` and its round trip |
| `adjacency_packer.dfy` | `AdjacencyPacker` | the methods of `AdjacencyPacker.java` |
| `huge_sparse_int_list.dfy` | `SparseCollections` | `HugeSparseIntList` and its draining iterator |

## Model

| member | source | states |
|---|---|---|
| AdjacencyPacker.AlignLong | core/src/main/java/org/neo4j/gds/core/compression/packed/AdjacencyPacker.java:35-37 | Below `Long.MAX_VALUE - 62` the result is the least multiple of 64 at or above the length. Above that point it wraps to `Long.MIN_VALUE`. |
| AdjacencyPacker.AlignLongIdempotent | core/src/main/java/org/neo4j/gds/core/compression/packed/AdjacencyPacker.java:35-37 | Aligning an aligned length changes nothing. |
| AdjacencyPacker.AlignInt | core/src/main/java/org/neo4j/gds/core/compression/packed/AdjacencyPacker.java:39-41 | Same as `AlignLong` for ints. Rounding is done on a long and narrowed by the cast, so the last 63 ints wrap to `Integer.MIN_VALUE`. |
| AdjacencyPacker.Compress | core/src/main/java/org/neo4j/gds/core/compression/packed/AdjacencyPacker.java:45-55 | Length 0 fails on the header write, and an allocation above `Integer.MAX_VALUE` fails. Otherwise the arena becomes the old arena followed by the unit, which starts at the returned offset and decodes to the input ids: sorted and a permutation under `NONE`, otherwise strictly ascending with the same id set. degree ≤ length, and degree == length under `NONE`. A failure leaves the arena unchanged. |
| AdjacencyPacker.CompressWithProperties | core/src/main/java/org/neo4j/gds/core/compression/packed/AdjacencyPacker.java:57-81 | The same error cases and the same framing: the old arena is kept and the unit is appended at the returned offset. A written unit decodes to the input ids as `applyDeltaEncoding` aggregates them (no merging when `noAggregation`). degree == length when `noAggregation`. |
| AdjacencyPacker.DeltaCompress | core/src/main/java/org/neo4j/gds/core/compression/packed/AdjacencyPacker.java:83-98 | On sorted ids, degree is the number of ids aggregation keeps. A written unit is appended after the old arena, which stays as it was, and decodes to exactly those ids. The error cases are those of `preparePacking` at that degree. |
| AdjacencyPacker.PreparePacking | core/src/main/java/org/neo4j/gds/core/compression/packed/AdjacencyPacker.java:100-126 | Fails with the out-of-bounds header write exactly when length is 0. Fails with the `toIntExact` overflow exactly when the unit's allocation size exceeds `Integer.MAX_VALUE`. Otherwise the arena grows by exactly the unit for `values[..length]`, at the returned offset. |
| AdjacencyPacker.ComputeHeader | core/src/main/java/org/neo4j/gds/core/compression/packed/AdjacencyPacker.java:106-123 | For length > 0, the header holds one byte per block: the width of each full block and of the tail block. The byte count is the sum of `bytesNeeded` over the header. Length 0 ends on the out-of-bounds write. |
| AdjacencyPacker.RecordFullBlocks | core/src/main/java/org/neo4j/gds/core/compression/packed/AdjacencyPacker.java:113-117 | The loop over the blocks before the tail block writes each one's width into the header, as the header function gives it, and sums their `bytesNeeded`. It stops at the tail block's index. |
| AdjacencyPacker.RecordFullBlock | core/src/main/java/org/neo4j/gds/core/compression/packed/AdjacencyPacker.java:113-117 | One round of that loop: the next full block's width is recorded and its byte count added, so the loop invariant holds for one more block. |
| AdjacencyPacker.RecordBlock | core/src/main/java/org/neo4j/gds/core/compression/packed/AdjacencyPacker.java:113-123 | One round of the header loop. It writes block b's width into `header[b]` and extends the running byte count by that block's bytes. With b == header length it reports the out-of-bounds write and writes nothing. |
| AdjacencyPacker.BitsNeeded | core/src/main/java/org/neo4j/gds/core/compression/packed/AdjacencyPacker.java:165-171 | The OR loop returns `BlockWidth` of the range, which is the bit length of the OR of its values. |
| AdjacencyLayout.BlockWidthFits | core/src/main/java/org/neo4j/gds/core/compression/packed/AdjacencyPacker.java:165-171 | Every value of a block fits in the block's width. |
| AdjacencyLayout.BlockWidthTight | core/src/main/java/org/neo4j/gds/core/compression/packed/AdjacencyPacker.java:165-171 | A positive width is the least that fits: some value has its top bit set. |
| AdjacencyLayout.BlockWidth | core/src/main/java/org/neo4j/gds/core/compression/packed/AdjacencyPacker.java:170 | A block of non-negative longs never needs more than 63 bits, so the `(byte)` cast keeps the width. |
| AdjacencyPacking.BytesNeeded | core/src/main/java/org/neo4j/gds/core/compression/packed/AdjacencyPacker.java:173-175 | `ceil(64 * bits / 8)` is exactly `8 * bits` bytes. |
| AdjacencyLayout.BlockCount | core/src/main/java/org/neo4j/gds/core/compression/packed/AdjacencyPacker.java:106 | `ceil(length / 64)`: the fewest blocks that cover the length, and 0 only for length 0. |
| AdjacencyLayout.BlockEnd | core/src/main/java/org/neo4j/gds/core/compression/packed/AdjacencyPacker.java:113-123 | Full blocks end 64 values after they start. The tail block ends at length and holds at least one value. |
| AdjacencyLayout.Header | core/src/main/java/org/neo4j/gds/core/compression/packed/AdjacencyPacker.java:106-123 | The header has one byte per block. |
| AdjacencyLayout.HeaderCovers | core/src/main/java/org/neo4j/gds/core/compression/packed/AdjacencyPacker.java:113-123 | Every value below length fits the width its block's header byte gives. |
| AdjacencyLayout.ZeroWidthBlocks | core/src/main/java/org/neo4j/gds/core/compression/packed/AdjacencyPacker.java:114-116 | A header byte is 0 exactly when its block is all zeros. Such a block takes no payload bytes. |
| AdjacencyLayout.RequiredBytes | core/src/main/java/org/neo4j/gds/core/compression/packed/AdjacencyPacker.java:115 | The payload size is a multiple of 8. |
| AdjacencyLayout.OffsetsAligned | core/src/main/java/org/neo4j/gds/core/compression/packed/AdjacencyPacker.java:156-160 | Every block starts at a multiple of 8 within the payload. |
| AdjacencyLayout.OffsetMonotone | core/src/main/java/org/neo4j/gds/core/compression/packed/AdjacencyPacker.java:156-160 | Blocks are laid out in header order. |
| AdjacencyLayout.AllocationSize | core/src/main/java/org/neo4j/gds/core/compression/packed/AdjacencyPacker.java:137-144 | The allocation size is a multiple of 8. It covers the header, its padding to 8 and the payload. |
| AdjacencyLayout.PayloadSlice | core/src/main/java/org/neo4j/gds/core/compression/packed/AdjacencyPacker.java:155-160 | Block b's packed bytes sit in the payload between the running byte counts of blocks b and b + 1. |
| AdjacencyLayout.UnitRoundTrip | core/src/main/java/org/neo4j/gds/core/compression/packed/AdjacencyPacker.java:128-163 | Wherever in memory a unit sits, decoding it gives the running sums of the `degree` deltas it was packed from. |
| AdjacencyLayout.UnitLayout | core/src/main/java/org/neo4j/gds/core/compression/packed/AdjacencyPacker.java:137-153 | A reader finds the header at the unit's offset and the payload after the header's padding to 8. |
| AdjacencyLayout.LocateUnit | core/src/main/java/org/neo4j/gds/core/compression/packed/AdjacencyPacker.java:148-153 | A reader locates a header and payload laid out that way, whatever bytes come before and after. |
| AdjacencyLayout.PayloadDeltas | core/src/main/java/org/neo4j/gds/core/compression/packed/AdjacencyPacker.java:155-160 | Reading the first `degree` deltas back from the payload gives `values[..degree]`. |
| AdjacencyLayout.DeltaAt | core/src/main/java/org/neo4j/gds/core/compression/packed/AdjacencyPacker.java:155-160 | The delta at position j reads back as `values[j]`. |
| AdjacencyLayout.ReadBack | core/src/main/java/org/neo4j/gds/core/compression/packed/AdjacencyPacker.java:155-160 | A value that fits its block's width reads back from the payload. |
| AdjacencyLayout.DeltasMatch | core/src/main/java/org/neo4j/gds/core/compression/packed/AdjacencyPacker.java:155-160 | Position-wise read-back gives the whole prefix. |
| AdjacencyPacking.PackRoundTrip | core/src/main/java/org/neo4j/gds/core/compression/packed/AdjacencyPacker.java:158 | Unpacking a packed block returns every value that fits the block's width. |
| AdjacencyPacking.BytesRoundTrip | core/src/main/java/org/neo4j/gds/core/compression/packed/AdjacencyPacker.java:158 | A bit stream turned into bytes and back is unchanged. |
| AdjacencyPacker.Pack | core/src/main/java/org/neo4j/gds/core/compression/packed/AdjacencyPacker.java:158 | Writes the packed block at ptr, leaves the rest of the arena alone, and returns ptr plus `bytesNeeded(bits)`. |
| AdjacencyPacker.PackBlocks | core/src/main/java/org/neo4j/gds/core/compression/packed/AdjacencyPacker.java:155-160 | The main packing loop turns the zero bytes after the padded header into the payload, one block after the other. |
| AdjacencyPacker.PackNext | core/src/main/java/org/neo4j/gds/core/compression/packed/AdjacencyPacker.java:157-160 | One round of that loop: block b lands at its running byte count. |
| AdjacencyPacker.RunPacking | core/src/main/java/org/neo4j/gds/core/compression/packed/AdjacencyPacker.java:128-163 | Fails, with the arena unchanged, exactly when the aligned size exceeds `Integer.MAX_VALUE`. Otherwise the arena becomes old arena + unit (header, zero padding, payload, zero tail) and the result is the unit's offset. |
| DeltaCodec.SortRange | core/src/main/java/org/neo4j/gds/core/compression/packed/AdjacencyPacker.java:53 | `values[..length]` becomes a sorted permutation of itself. The rest of the array is unchanged. |
| DeltaCodec.SwapDown | core/src/main/java/org/neo4j/gds/core/compression/packed/AdjacencyPacker.java:53 | One step of the insertion: swapping the moving value with the larger one to its left keeps the partly sorted run, the multiset and the rest of the array. |
| DeltaCodec.PrefixPermutation | core/src/main/java/org/neo4j/gds/core/compression/packed/AdjacencyPacker.java:53 | If two arrays hold the same multiset and agree from `n` on, their first `n` elements hold the same multiset. This is why sorting `values[..length]` is a permutation of that range. |
| DeltaCodec.AggregateOfSorted | core/src/main/java/org/neo4j/gds/core/compression/packed/AdjacencyPacker.java:53-54 | Aggregating a sorting of the input keeps all ids under `NONE`. Otherwise it keeps each distinct id once, in ascending order. |
| DeltaCodec.DeltaEncodeSortedValues | core/src/main/java/org/neo4j/gds/core/compression/packed/AdjacencyPacker.java:92 | On sorted input, `values[..degree]` becomes the delta encoding of the aggregated ids. |
| DeltaCodec.AggregateMerges | core/src/main/java/org/neo4j/gds/core/compression/packed/AdjacencyPacker.java:92 | With merging on, the kept ids are strictly ascending and are exactly the input's ids. |
| DeltaCodec.AggregateNone | core/src/main/java/org/neo4j/gds/core/compression/packed/AdjacencyPacker.java:92 | Under `NONE` nothing is merged. |
| DeltaCodec.PrefixSumOfDeltaEncode | core/src/main/java/org/neo4j/gds/core/compression/packed/AdjacencyPacker.java:92 | Running sums undo delta encoding. |
| DeltaCodec.ApplyDeltaEncoding | core/src/main/java/org/neo4j/gds/core/compression/packed/AdjacencyPacker.java:67-76 | For length > 0, the degree is positive and at most length (length when `noAggregation`). The running sums of the deltas are the input ids, aggregated as the flag says. |
| Arena.Allocator.Allocate | core/src/main/java/org/neo4j/gds/core/compression/packed/AdjacencyPacker.java:146 | Reserves `length` zero bytes at the end of the arena and returns where they start. |
| Arena.Allocator.WriteBytes | core/src/main/java/org/neo4j/gds/core/compression/packed/AdjacencyPacker.java:152 | Overwrites exactly the reserved bytes it is given. |
| SparseCollections.PageSlot | collections/src/main/java/org/neo4j/gds/collections/HugeSparseIntList.java:28-31 | Slot s of page p is index `p * 4096 + s`, and no other index maps there. |
| SparseCollections.BelowPages | collections/src/main/java/org/neo4j/gds/collections/HugeSparseIntList.java:28-31 | The indices below `n * 4096` are exactly those on the first n pages. |
| SparseCollections.HugeSparseIntList.Of | collections/src/main/java/org/neo4j/gds/collections/HugeSparseIntList.java:41-47 | The new list holds no page and reads the default everywhere. Its capacity is the least multiple of 4096 at or above `initialCapacity`. |
| SparseCollections.HugeSparseIntList.Capacity | collections/src/main/java/org/neo4j/gds/collections/HugeSparseIntList.java:49-52 | An index is below the capacity exactly when its page has a table slot. |
| SparseCollections.HugeSparseIntList.Contains | collections/src/main/java/org/neo4j/gds/collections/HugeSparseIntList.java:54-57 | True exactly when the index does not read the default. |
| SparseCollections.HugeSparseIntList.Get | collections/src/main/java/org/neo4j/gds/collections/HugeSparseIntList.java:59-62 | A value other than the default can only come from an allocated page. |
| SparseCollections.HugeSparseIntList.PageFor | collections/src/main/java/org/neo4j/gds/collections/HugeSparseIntList.java:28-31 | Finds or allocates the page of an index, filled with the default. The table grows to cover it. The page set gains only that page, and no index changes its value. |
| SparseCollections.HugeSparseIntList.Set | collections/src/main/java/org/neo4j/gds/collections/HugeSparseIntList.java:64-67 | The index reads the value afterwards, and every other index keeps its value. The only page it can add is a fresh one. |
| SparseCollections.HugeSparseIntList.SetIfAbsent | collections/src/main/java/org/neo4j/gds/collections/HugeSparseIntList.java:69-72 | Writes, and returns true, exactly when the index read the default. Every other index keeps its value. The only page it can add is a fresh one. |
| SparseCollections.HugeSparseIntList.AddTo | collections/src/main/java/org/neo4j/gds/collections/HugeSparseIntList.java:74-78 | The index reads its old value (the default if never written) plus the delta, with 32-bit wrap-around. Every other index keeps its value. The only page it can add is a fresh one. |
| SparseCollections.HugeSparseIntList.ForAll | collections/src/main/java/org/neo4j/gds/collections/HugeSparseIntList.java:80-83 | The reported pairs are exactly the indices that do not read the default, each once, with its value, in ascending index order. |
| SparseCollections.HugeSparseIntList.ScanPage | collections/src/main/java/org/neo4j/gds/collections/HugeSparseIntList.java:80-83 | Scanning one allocated page extends the report to the end of that page. |
| SparseCollections.HugeSparseIntList.SkipPage | collections/src/main/java/org/neo4j/gds/collections/HugeSparseIntList.java:80-83 | A page that was never allocated has nothing to report. |
| SparseCollections.HugeSparseIntList.ReportStep | collections/src/main/java/org/neo4j/gds/collections/HugeSparseIntList.java:80-83 | Reporting the next index that does not read the default keeps the scan invariant. |
| SparseCollections.HugeSparseIntList.DrainingIterator | collections/src/main/java/org/neo4j/gds/collections/HugeSparseIntList.java:85-90 | A fresh iterator over this list, positioned at the first table slot. |
| SparseCollections.PageDrain.constructor | collections/src/main/java/org/neo4j/gds/collections/HugeSparseIntList.java:85-90 | Starts at table slot 0. |
| SparseCollections.PageDrain.Next | collections/src/main/java/org/neo4j/gds/collections/HugeSparseIntList.java:85-90 | Hands out the next table slot's page, which holds what its indices read, and clears the slot so those indices read the default. It adds no page. Once no slot is left, every index reads the default. |
| SparseCollections.HugeSparseIntList.TakePage | collections/src/main/java/org/neo4j/gds/collections/HugeSparseIntList.java:85-90 | Hands out one table slot's page, which holds what its indices read, and clears the slot. Those indices then read the default and every other index keeps its value. It adds no page. |

## Left out

- Raw memory is not modelled: `UnsafeUtil.copyMemory`, the `Address`/`Slice` pair and the array base offset are replaced by a byte arena (`Arena.Allocator`). `WriteBytes` stands for the copy into the slice. Offsets are arena positions.
- Concurrency is left out. Allocators shared between threads and the list's non-thread-safety are not modelled.
- `AdjacencyPacking.pack`, `AdjacencyCompression.deltaEncodeSortedValues` and `applyDeltaEncoding`, `BitUtil.align` and `BitUtil.ceilDiv`, and the allocator are not part of this model. Each is given a body of this model's own that meets the contract the callers rely on:
  - `pack` is a little-endian bit stream with its own `UnpackAt` inverse;
  - ceiling division is the exact ceiling.
- Property columns of `compressWithProperties` (their reordering and aggregation) are left out, as is the property companion structure. Only the id path is modelled, with `applyDeltaEncoding` reduced to its effect on the ids.
- Aggregations other than `NONE` are not told apart (SUM, MIN, MAX, COUNT and so on). For the ids they all merge equal neighbours. They differ only in the property values.
- AdjacencyPacker.PreparePacking: length 0 is modelled as the out-of-bounds exception. With an exact ceiling, `ceilDiv(0, 64)` is 0 blocks, so `new byte[0]` (line 107) is followed by the tail write to `header[0]` (line 122), which is out of bounds, and the model returns `Failed(HeaderIndexOutOfBounds)`. `CompressedTest.java` says otherwise. Its lines 37 and 63 compress length 0, and lines 51-57 expect `remaining() == 0` and an empty decode. That test can only pass if `BitUtil.ceilDiv(0, d)` is 1, as `1 + (x - 1) / d` with Java's truncating division gives. `BitUtil` is not part of this model. Under that ceiling, length 0 gives a one-byte header `[0]` and `bytesNeeded(0) == 1`. `runPacking` (lines 137-144) then reserves 16 bytes: 8 for the padded header and 8 for the one payload byte, aligned. The model does not capture that success path.
- AdjacencyLayout.ZeroWidthBlocks and AdjacencyPacking.BytesNeeded: "a zero-width block takes no payload bytes" and `bytesNeeded(bits) == 8 * bits` hold under the exact ceiling. Under the `1 + (x - 1) / d` ceiling that `CompressedTest.java` implies, `bytesNeeded(0)` is 1, so every all-zero block would add one payload byte. `bytesNeeded(bits)` for `bits > 0` is `8 * bits` under both ceilings.
- AdjacencyPacker.PackBlocks: `pack` packs a full block of 64 values even for the tail block. Slots between degree and the next multiple of 64 may hold stale values wider than the tail's width. The model cuts each value to the block's width, and only the first `degree` values are claimed to round-trip.
- AdjacencyPacker.RunPacking: the Java `assert` that `values.length` is a multiple of 64 is a precondition here.
- AdjacencyPacker.BitsNeeded and `HugeSparseIntList` indices are natural numbers. Ids are non-negative longs (`NonNegLong`). Negative long indices, and page indices beyond `Integer.MAX_VALUE` (the `int` cast of the page index), are not modelled.
- SparseCollections.HugeSparseIntList.PageFor: the class that implements the interface, `HugeSparseIntListSon`, is generated and not part of this model. How far it grows the page table is its choice. The model grows the table to exactly the page needed.
- SparseCollections.HugeSparseIntList.Capacity is the page table length times 4096, counting table slots whose page is not yet allocated. The interface comment at `HugeSparseIntList.java:49-51` says only "the current maximum number of values that can be stored". Any index covered by a table slot can be stored without growing the table, and the model reads capacity that way. The generated implementation is not part of this model, so whether it counts table slots or allocated pages is not confirmed from code.
- SparseCollections.PageDrain.Next clears each table slot it hands out but keeps the table, so capacity is unchanged after draining. The interface comment at `HugeSparseIntList.java:85-89` promises only that, once the iterator is consumed, "the list is empty and will return the default value for each index". `Next` proves exactly that. Whether the generated implementation also shrinks the table (capacity 0) is not modelled.
- SparseCollections.HugeSparseIntList.SetIfAbsent compares with the default value. "Not set before" cannot be told apart from "set to the default", just as in `contains`.
- SparseCollections.HugeSparseIntList.ForAll returns the sequence of pairs it would hand to the `LongIntConsumer`. Calling a consumer is not modelled.
- `stream()` of `HugeSparseIntList` (line 92) is left out. It is not among the modelled operations, and a Java stream has no counterpart here.
- The `degree` out-parameter (`MutableInt`) is a second return value.
