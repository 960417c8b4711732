# ExaArray in Dafny

A model of the core of ExaArray, a C# library of "exa-scale" arrays, with
proofs about it. It covers three pieces.

**The one-dimensional array `ExaArray1D<T>`.** It stores fewer
than 1,152,921,504,606,850,000 (strategy MAX_PERFORMANCE) or
4,607,183,514,018,780,000 (MAX_ELEMENTS) values: at most the constant
minus one, since `Extend` refuses to reach the constant itself. They live in chunks of at
most 2^30 values (MAX_PERFORMANCE, a power of two so that the index
divisions are fast) or 2,146,435,071 values (MAX_ELEMENTS, the most a C#
array can hold). It offers:
- `Extend`, which fills the last chunk, then appends full chunks and a
  remainder chunk;
- a bounds-checked indexer, which maps an index to
  (index / cap, index - chunk * cap);
- the enumeration `Items`.

**The two factories.**
- `CreateFrom(other)` is a chunk-by-chunk clone.
- `CreateFrom(other, indexFrom, indexTo)` copies an inclusive range into
  freshly chunked storage, with a five-case cursor loop.

**The two-dimensional sparse array `ExaArray2D<T>`.** It is an outer 1-D
array of row references. Each row is null until the first write to it
creates a 1-D row. A running total `Length` counts all row elements and is
checked against 2^64 - 1.

Modules and files:
- `strategy.dfy` (`Strategies`): `ulong`, the strategy enum, the four
  constants, 64-bit wrap-around.
- `exceptions.dfy` (`Exceptions`): the exception kinds. `Result` is used for
  reads and for the 1-D setter, which never mutates before it throws.
  `Call` is used for the mutators that can throw after mutating (`Extend`
  and the 2-D setter): the state is returned either way.
- `chunks.dfy` (`ChunkLayout`): the index split, flattening chunks into
  contents, the shape invariant, and `Rechunk`, the shaped layout of a
  sequence.
- `exa_array_1d.dfy` (`ExaArray1D`): the 1-D array.
- `factories.dfy` (`Factories`): the clone, and the range copy as written,
  one loop turn per `Step`.
- `range_copy_examples.dfy` (`RangeCopyExamples`): the range copy as
  written, run with four elements per chunk.
- `range_copy_fixed.dfy` (`RangeCopyFixed`): the range copy with its loop
  corrected, as a method with loop invariants.
- `exa_array_2d.dfy` (`ExaArray2D`): the 2-D array.
- `exa_array_2d_scenarios.dfy` (`ExaArray2DScenarios`): the 2-D array's test
  scenarios as lemmas.

Modelling conventions:
- An array carries its chunk capacity and element limit as data (`Limits`).
  The constructor derives them from the strategy. The 1-D, layout and
  range-copy lemmas hold for any valid limits, so a capacity of four can be
  studied with the same definitions as the real ones.
  ExaArray1D.ChunkIndexFitsInt and ExaArray1D.ChunksCanExceedCap are about
  the two strategies' limits. The 2-D array's outer array and rows use
  MAX_PERFORMANCE's limits, as its constructor does.
- A chunk is `Option<seq<T>>`. `None` is a null inner array.
- `dflt` stands for `default(T)`.
- Elements are values, so a copied chunk equals its original.

Where the documentation and the code disagree, the model follows the code:
- the range copy;
- the 2-D getter on a null row;
- the exclusive bound in `Extend`;
- the comment calling 2,146,435,071 the maximum number of chunks, which MAX_ELEMENTS arrays can exceed by one.

Each disagreement is proved about the code as written. The first two are
listed under Findings.

## Model

| member | source | states |
|---|---|---|
| Strategies.LimitsOf | ExaArray/ExaArray1D.cs:18-34 | the constructor's capacity and element limit for each strategy fit a C# int and a 63-bit length, and lie strictly between cap^2 and cap * (cap + 1) |
| Strategies.WrapAdd | ExaArray/ExaArray1D.cs:78 | ulong addition is the mathematical sum below 2^64 and wraps modulo 2^64 above |
| ChunkLayout.Split | ExaArray/ExaArray1D.cs:145-156 | the (chunk, offset) of an index recompose to the index, and the offset is below the capacity |
| ChunkLayout.SplitCompose | ExaArray/ExaArray1D.cs:150-151 | the index split inverts chunk * cap + offset for every offset below cap |
| ChunkLayout.SplitOrder | ExaArray/ExaArray1D.cs:150-151 | the chunk number is monotone in the index, and a later chunk starts at least the rest of the earlier chunk further on |
| ChunkLayout.LocateIndex | ExaArray/ExaArray1D.cs:159-162 | in a shaped layout, an index below the content length lies in an allocated chunk at an in-range offset, and that slot holds the flattened element |
| ChunkLayout.SplitBeyond | ExaArray/ExaArray1D.cs:159-160 | in a shaped layout, an index whose chunk or offset is out of range is at or past the content length |
| ChunkLayout.ShapedLength | ExaArray/ExaArray1D.cs:82-118 | the contents of a shaped layout are (chunks - 1) * cap plus the last chunk's length long |
| ChunkLayout.RechunkLayout | ExaArray/ExaArray1D.Factories.cs:72-87 | Rechunk(s) is a shaped layout, and it flattens back to s |
| ChunkLayout.ShapedUnique | ExaArray/ExaArray1D.cs:82-118 | a shaped layout is determined by its contents: it equals Rechunk of what it flattens to |
| ExaArray1D.NewIsEmpty | ExaArray/ExaArray1D.cs:42-59 | a new array is valid, has length 0 and exactly one empty chunk, enumerates nothing, and every read raises IndexOutOfRange |
| ExaArray1D.GetReadsElements | ExaArray/ExaArray1D.cs:138-163 | under the shape invariant a read succeeds exactly below Length and returns the element at that logical index; any other read raises IndexOutOfRange |
| ExaArray1D.ExtendBoundary | ExaArray/ExaArray1D.cs:76-79 | Extend throws exactly when extendBy > maxElements or Length + extendBy >= maxElements, and then changes nothing and raises ArgumentOutOfRange |
| ExaArray1D.ExtendGrows | ExaArray/ExaArray1D.cs:76-119 | a successful Extend keeps the shape invariant, raises Length by exactly extendBy, and appends extendBy defaults to the contents |
| ExaArray1D.GrowWithinLast | ExaArray/ExaArray1D.cs:115-118 | growth smaller than the room in the last chunk only lengthens that chunk with defaults |
| ExaArray1D.GrowFillsLast | ExaArray/ExaArray1D.cs:83-112 | growth that fills the last chunk pads it to cap and appends full chunks and a remainder chunk, keeping the shape and appending the defaults |
| ExaArray1D.FreshChunks | ExaArray/ExaArray1D.cs:97-110 | the do-while loop's new chunks: none for nothing left over, otherwise full chunks then one of at most cap, holding leftOver defaults |
| ExaArray1D.ExtendKeepsValues | ExaArray/ExaArray1D.cs:76-119 | after a successful Extend every old index reads as before, every new index reads the default, and every index past the new Length raises IndexOutOfRange |
| ExaArray1D.ExtendRejectsExactMax | ExaArray/ExaArray1D.cs:78 | growing to exactly maxElements is refused with ArgumentOutOfRange |
| ExaArray1D.SetFailsLikeGet | ExaArray/ExaArray1D.cs:165-188 | the setter fails exactly when the getter at the same index fails, with the same exception |
| ExaArray1D.SetThenGet | ExaArray/ExaArray1D.cs:140-188 | after a successful set the index reads the new value and every other index reads as before |
| ExaArray1D.SetKeepsValid | ExaArray/ExaArray1D.cs:165-188 | a set below Length succeeds, keeps the invariant and Length, and replaces exactly that element of the contents |
| ExaArray1D.Items | ExaArray/ExaArray1D.cs:199-203 | a finished enumeration has Length elements, element n being what get(n) returns; an aborted one ends with the exception of some get below Length |
| ExaArray1D.ItemsOfValid | ExaArray/ExaArray1D.cs:199-203 | the enumeration of a valid array is its contents in index order |
| ExaArray1D.ChunkIndexFitsInt | ExaArray/ExaArray1D.cs:145-156 | for every index below maxElements the chunk number is at most cap, so the (int) casts do not overflow |
| ExaArray1D.ChunksCanExceedCap | ExaArray/ExaArray1D.cs:13-18 | both strategies admit lengths that need cap + 1 chunks, one more than the chunk capacity; under MAX_ELEMENTS that exceeds the comment's "maximum number of possible chunks" |
| Factories.Clone | ExaArray/ExaArray1D.Factories.cs:18-33 | the clone succeeds exactly when no chunk is null, and is then equal to the source: same strategy, length, chunk layout and elements; otherwise it raises NullReference |
| Factories.CreateFromRange | ExaArray/ExaArray1D.Factories.cs:35-92 | bad bounds raise IndexOutOfRange; a result has the source's strategy, Length indexTo - indexFrom + 1 and (range - 1) / cap + 1 chunk slots |
| Factories.StepCopiesSome | ExaArray/ExaArray1D.Factories.cs:97-117 | every turn copies between 1 and leftOver elements, and fewer than leftOver only in one of the three multi-chunk cases, so leftOver never wraps and the loop ends |
| Factories.RunAligned | ExaArray/ExaArray1D.Factories.cs:108-135 | from a chunk-aligned source position the loop writes the shaped layout of the rest of the range into the fresh destination slots |
| Factories.RangeCopyWhenAligned | ExaArray/ExaArray1D.Factories.cs:35-138 | when the range starts at a chunk boundary or lies in one chunk, the copy is valid and holds exactly elements indexFrom..indexTo of the source, in the shaped layout |
| Factories.RunSameChunk | ExaArray/ExaArray1D.Factories.cs:99-128 | a range inside one source chunk is copied by one turn into a single destination chunk |
| RangeCopyExamples.MisalignedRangeSkips | ExaArray/ExaArray1D.Factories.cs:130-135 | with four elements per chunk, the copy of [2, 9] from chunks x, y, z is [x[2..] + y[..2], z], skipping y[2..] |
| RangeCopyExamples.MisalignedRangeWrongElement | ExaArray/ExaArray1D.Factories.cs:132-134 | in that copy, position 4 reads z[0] where the source's element 6 is y[2] |
| RangeCopyExamples.MisalignedRangeOverfills | ExaArray/ExaArray1D.Factories.cs:116-126 | the copy of [2, 6] grows destination chunk 0 to five elements, past cap, and leaves chunk 1 null |
| RangeCopyExamples.MisalignedRangeNullChunk | ExaArray/ExaArray1D.Factories.cs:116-126 | that copy breaks the shape invariant, and reading its element 4 raises NullReference |
| RangeCopyExamples.MisalignedRangeOverreads | ExaArray/ExaArray1D.Factories.cs:128-134 | with a short last source chunk, the copy of [2, 9] asks Array.Copy for more than that chunk holds and raises ArgumentException |
| RangeCopyFixed.TurnKeeps | ExaArray/ExaArray1D.Factories.cs:95-137 | a corrected turn copies at least one element and keeps "done chunks and the open chunk hold exactly the source from indexFrom up to the cursor" |
| RangeCopyFixed.CreateFromRangeFixed | ExaArray/Extensions.ExaArray1D.cs:23-39 | the range copy as documented: bad bounds raise IndexOutOfRange, and otherwise the copy is valid, has Length indexTo - indexFrom + 1, and holds exactly the source's elements indexFrom..indexTo in the shaped layout |
| ExaArray2D.New2DEmpty | ExaArray/ExaArray2D.cs:15-26 | a new 2-D array is valid, has Length 0 and no rows, and every read returns the default |
| ExaArray2D.Get2DNullRow | ExaArray/ExaArray2D.cs:50-53 | the getter as written differs from the documented one exactly on null rows inside the outer array, where it raises NullReference |
| ExaArray2D.Get2DFixedReads | ExaArray/ExaArray2D.cs:32-54 | under the invariant, the documented getter reads the stored element, or the default where nothing is allocated |
| ExaArray2D.GrowRowsSpec | ExaArray/ExaArray2D.cs:58-59 | a row past the outer array grows it by row - Length + 1 null slots; inside it nothing changes; past the outer limit the slots stay as they are |
| ExaArray2D.InstantiateSpec | ExaArray/ExaArray2D.cs:61 | inside the outer array, the slot ends up holding a valid row, a new empty one if it was null, and nothing else changes |
| ExaArray2D.GrowRowSpec | ExaArray/ExaArray2D.cs:62-69 | a column before the row's last element changes nothing; otherwise the row grows by col - rowLen + 1 defaults and the total by the same amount, unless that exceeds what is left of 2^64 - 1, which raises ArgumentOutOfRange with nothing changed |
| ExaArray2D.WrittenTotal | ExaArray/ExaArray2D.cs:64-69 | the sum of the row lengths after a write grows by exactly what the written row grew |
| ExaArray2D.Set2DSucceeds | ExaArray/ExaArray2D.cs:56-73 | a write returns exactly when row and column are below the row limit and the growth fits in what is left of 2^64 - 1 |
| ExaArray2D.Set2DWrites | ExaArray/ExaArray2D.cs:56-73 | a successful write keeps the invariant "Length is the sum of the row lengths", performs the write on the row contents, and adds exactly the row's growth to Length |
| ExaArray2D.Set2DOverflow | ExaArray/ExaArray2D.cs:58-66 | a write whose growth exceeds what is left of 2^64 - 1 raises ArgumentOutOfRange with Length unchanged, after the outer array has grown and the row has been created |
| ExaArray2D.Set2DThrows | ExaArray/ExaArray2D.cs:56-73 | a write that throws keeps the invariant and Length and changes no cell's value, at most growing the outer array and creating the row |
| ExaArray2D.Set2DThenGet | ExaArray/ExaArray2D.cs:48-72 | after a write, the cell reads the value, every other cell reads as before, and cells of existing rows read as before through the getter as written too |
| ExaArray2D.Set2DExtends | ExaArray/ExaArray2D.cs:58-69 | a write grows the outer array to include the row, leaving the slots in between null and the other rows alone, and grows the row to include the column |
| ExaArray2DScenarios.NormalSizeScenario | ExaArrayTests/ExaArray2DTests.cs:14-60 | writes at (500, 500), (500, 500), (500, 499) and (500, 1000) give Length 501, 501, 501 and 1001, and every written cell reads back |
| ExaArray2DScenarios.HugeSizeScenario | ExaArrayTests/ExaArray2DTests.cs:66-73 | after a row of 1,000,001 elements, a write at column 2^64 - 2 of the next row raises ArgumentOutOfRange |
| ExaArray2DScenarios.NullRowRead | ExaArray/ExaArray2D.cs:50-53 | after a single write to row 1, reading row 0 raises NullReference where the documentation promises the default |

## Left out

- `Extensions.Framework.cs` is not part of this model. Its factories delegate to collection-based overloads that are not among the modelled files.
- The aliases in `Extensions.ExaArray1D.cs` add no behaviour. Their documentation is used only as the range copy's stated contract.
- Memory use, allocation failure and performance are not modelled, including the O(n) claims and the power-of-two division speed-up.
- Shallow versus deep copying of reference-type elements is not modelled: elements are plain values.
- The enum is a two-constructor datatype. A cast of another integer to `Strategy` cannot be expressed; for such a value the C# indexer's switch would leave the chunk index at -1.
- The lazy `yield` enumeration of `Items` is modelled as the collected sequence. The first read that throws ends it with that exception.
- ExaArray1D.Extend: with a null last chunk the null-conditional `?.Length ?? 0` (ExaArray1D.cs:82 and 116) reads 0, but the following `Array.Copy` call dereferences the chunk for its length argument. The model raises NullReference there. Under the invariant the last chunk is never null, so no lemma states this case.
- Factories.ToUInt: the `(uint)` casts in the range copy are modelled modulo 2^32, but the contract states only the exact case. The counts they convert are at most cap <= 2^31 - 1 for any valid limits, so the exact case is the one that occurs.
- The `(int)` casts of chunk numbers (ExaArray1D.cs:150-154, ExaArray1D.Factories.cs:48-66) are taken as exact. That holds for the two strategies' limits: ExaArray1D.ChunkIndexFitsInt proves the chunk number of every allowed index is at most cap <= 2^31 - 1. For other limits that `ValidLimits` admits, such as cap 4 with 2^63 elements, a chunk number can exceed 2^31 - 1; the model keeps the exact value where C# would wrap.
- The LINQ `Count()` overflow and the multi-billion-element runtime tests in `ExaArray1DTests.cs` are left out. They test the runtime, not the algorithm.
- ExaArray2D.Set2DColumnBeyond: proves only that the error is ArgumentOutOfRange or IndexOutOfRange, not which. Either the row's `Extend` refuses, or the indexer refuses past the grown row.
- ExaArray2D.Set2DRowBeyond: proves only that the error is one of those two, for the same reason, on the outer array.
- ExaArray2D.Set2DThrows: states the error only as one of those two kinds. Which one is stated by Set2DOverflow, Set2DColumnBeyond and Set2DRowBeyond for their cases.
- RangeCopyFixed.CreateFromRangeFixed: requires a valid source. The loop as written reads chunks without that invariant, but only arrays built by the constructor, Extend, Set and this copy are in scope.
- The exclusive bound of `Extend` (`>=` at ExaArray1D.cs:78) is kept as written. ExaArray1D.ExtendRejectsExactMax states the consequence: Length never reaches maxElements.
- The 1-D tests are not restated as scenario lemmas. NewIsEmpty, ExtendKeepsValues, SetThenGet and ItemsOfValid state what they check for all inputs.

## Findings

| source | as written | input that shows it | evidently intended | confidence | as-written member | corrected member |
|---|---|---|---|---|---|---|
| ExaArray/ExaArray1D.Factories.cs:132-134 | every turn moves to the next source chunk at offset 0, whatever it copied | four elements per chunk, source chunks x, y, z, range [2, 9]: the copy is [x[2..] + y[..2], z] | the copy holds the source's elements indexFrom..indexTo (Extensions.ExaArray1D.cs:23-39) | not executed | RangeCopyExamples.MisalignedRangeSkips | RangeCopyFixed.CreateFromRangeFixed |
| ExaArray/ExaArray2D.cs:50-53 | a null row inside the outer array passes the `?.Length` test (null compares false) and is dereferenced | write (1, 0) into a new array, then read (0, 0): NullReference | unallocated cells read as default(T) (ExaArray2D.cs:32) | not executed | ExaArray2DScenarios.NullRowRead | ExaArray2D.Get2DFixedReads |
