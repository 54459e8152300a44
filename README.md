# RunContainer, modelled and verified in Dafny

This project models the run container of a Roaring bitmap. The container is a set of 16-bit values, kept as runs of consecutive values. The model follows `RunContainer` and its two short iterators, in `src/main/java/org/roaringbitmap/RunContainer.java`.

The container holds one `short[] valueslength` and a counter `nbrruns`. Slot `2i` holds the start of run `i`. Slot `2i+1` holds that run's length minus one. Only the first `nbrruns` runs are live.

The model is a Dafny class with the same two fields: `valueslength: array<U16>` and `nbrruns: nat`. A Java `short` is held as its unsigned value, the way `Util.toIntUnsigned` reads it:
- a `(short)` cast is `ToShort`, reduction modulo 2^16;
- the value Java's signed arithmetic sees is `Signed`.

Three ghost functions give the container its meaning:
- `Table()`: the live runs as a sequence of `Run(start, len)`;
- `Content()`: the set of values those runs cover;
- `Valid()`: the runs fit in the buffer and are canonical. Canonical means every run ends by 65535, and each run ends at least two values before the next one starts: sorted, non-overlapping and non-adjacent.

How the source is modelled:
- Every mutation is a method that splices the array in place. It is proved to keep `Valid()`, and to change `Content()` exactly as the operation promises.
- The queries are loops with invariants, proved against `Table()` and `Content()`.
- Serialization is proved against a byte-level `Serialize`/`Parse` pair. That pair has its own round-trip lemmas.
- The iterators are small classes over `(pos, le)`, proved to walk the values in ascending and in descending order respectively.

Modules:

| module | file | contents |
|---|---|---|
| `Shorts` | `shorts.dfy` | 16-bit words, casts, little-endian bytes |
| `Sorted` | `sorted.dfy` | increasing sequences, counting, filtering |
| `Runs` | `runs.dfy` | the run abstraction, canonical form, the splice lemma for each mutation |
| `RunFormat` | `run_format.dfy` | the serialized form |
| `ArrayOps` | `array_ops.dfy` | `System.arraycopy`, `Arrays.copyOf`, `Util.advanceUntil` |
| `Outcomes` | `outcomes.dfy` | the exceptions, as values |
| `RunContainers` | `run_container.dfy` | the class |
| `RunIterators` | `iterators.dfy` | the iterators |
| `RunScenarios` | `scenarios.dfy` | short sequences of mutations on one container, with the exact table they end with |

Three behaviours of the code are easy to misread. The model follows the code in each:
- **Equality.** Against another run container, `equals` (RunContainer.java:555-566) compares the tables run by run, not the sets of values. `Equals` proves the two agree whenever both tables are canonical.
- **Truncated input.** `deserialize` (RunContainer.java:231-238) stores the count, and may replace the buffer, before it reads any run. When the input ends early, the `EOFException` leaves the count and the words already read in the container. `Deserialize` states that state: the count read, a fresh buffer of exactly `2 * count` slots when the old one was too small, and every word whose two bytes were present.
- **Negative `select`.** `select` (RunContainer.java:445-455) answers `(short)(start + j)` of the first run for any negative `j` on a non-empty container. It throws when `j >= cardinality`, and for any `j` on the empty container, where the loop at :447 never runs. `Select` states all three cases.

## Model

| member | source | states |
|---|---|---|
| Shorts.ToShort | src/main/java/org/roaringbitmap/RunContainer.java:113 | a `(short)` cast keeps any value in 0..65535, and otherwise moves the value by a multiple of 2^16 |
| Shorts.Signed | src/main/java/org/roaringbitmap/RunContainer.java:739 | a short promoted to `int` lies in [-32768, 32768), casts back to the same short, and equals the unsigned reading exactly below 32768 |
| Shorts.SignedSum | src/main/java/org/roaringbitmap/RunContainer.java:739 | adding an offset to a promoted short and casting back gives the unsigned sum whenever that sum fits in 16 bits |
| Shorts.CastCongruent | src/main/java/org/roaringbitmap/RunContainer.java:113 | two ints that differ by a multiple of 2^16 cast to the same short |
| Shorts.WordBytes | src/main/java/org/roaringbitmap/RunContainer.java:401-403 | `writeShort(Short.reverseBytes(w))` emits two bytes, low byte first, that reassemble to `w` |
| Shorts.WordOf | src/main/java/org/roaringbitmap/RunContainer.java:236 | the word read from a low and a high byte is the one whose bytes are exactly those two |
| Shorts.WordOfBytes | src/main/java/org/roaringbitmap/RunContainer.java:232-236 | writing a word's bytes and reading them back gives the word |
| Runs.ElementsMember | src/main/java/org/roaringbitmap/RunContainer.java:17-20 | a value is in the set a table stands for exactly when some run covers it |
| Runs.ValuesIncreasing | src/main/java/org/roaringbitmap/RunContainer.java:17-20 | the values of a canonical table, run after run, are strictly increasing |
| Runs.ElementsInRange | src/main/java/org/roaringbitmap/RunContainer.java:17-20 | a canonical table stores only values in 0..65535 |
| Runs.ElementsCardinality | src/main/java/org/roaringbitmap/RunContainer.java:257-262 | for a canonical table, the sum of (length-minus-one + 1) is the number of values stored |
| Runs.CardinalityLength | src/main/java/org/roaringbitmap/RunContainer.java:257-262 | the sum of the run lengths is the length of the value sequence |
| Runs.CanonicalUnique | src/main/java/org/roaringbitmap/RunContainer.java:556-566 | two canonical tables with the same values are the same table |
| Runs.SameElements | src/main/java/org/roaringbitmap/RunContainer.java:556-566 | two canonical tables are equal exactly when they store the same set |
| Runs.Locate | src/main/java/org/roaringbitmap/RunContainer.java:219-226 | in a canonical table, `x` is stored exactly when the last run starting at or below `x` covers it |
| Runs.AddFuse | src/main/java/org/roaringbitmap/RunContainer.java:108-116 | when `k` closes the one-value gap between two runs, the run fused over both is canonical and stores the old set plus `k` |
| Runs.AddExtendEnd | src/main/java/org/roaringbitmap/RunContainer.java:118-119 | when `k` is just past a run and not just before the next one, growing that run by one is canonical and stores the old set plus `k` |
| Runs.AddPrepend | src/main/java/org/roaringbitmap/RunContainer.java:121-127 | when `k` is just before a run and apart from the run before it, starting that run at `k` is canonical and stores the old set plus `k` |
| Runs.AddInsert | src/main/java/org/roaringbitmap/RunContainer.java:141-143 | when `k` touches no run, a singleton run inserted in order is canonical and stores the old set plus `k` |
| Runs.RemoveSingleton | src/main/java/org/roaringbitmap/RunContainer.java:354-355 | dropping a one-value run is canonical and stores the old set minus that value |
| Runs.RemoveStart | src/main/java/org/roaringbitmap/RunContainer.java:357-358 | starting a longer run one value later is canonical and stores the old set minus its first value |
| Runs.RemoveEnd | src/main/java/org/roaringbitmap/RunContainer.java:375-376 | shortening a longer run by one is canonical and stores the old set minus its last value |
| Runs.RemoveSplit | src/main/java/org/roaringbitmap/RunContainer.java:366-374 | splitting a run around an interior `x` into the parts below and above `x` is canonical and stores the old set minus `x` |
| Runs.MergeRange | src/main/java/org/roaringbitmap/RunContainer.java:529-536 | replacing runs `b+1..e` by one run that covers them, joins the range and touches the neighbours of neither side, is canonical and adds exactly [begin, end) |
| Runs.LowerEnd | src/main/java/org/roaringbitmap/RunContainer.java:487-499 | the start `iadd` picks is at most `begin`; it is in the set from there to `begin`, and it lies two or more past the run kept below |
| Runs.UpperEnd | src/main/java/org/roaringbitmap/RunContainer.java:501-527 | the end `iadd` picks is at least `end`; it is in the set from `end` to there, it covers every absorbed run, and it stops two or more short of the run kept above |
| Runs.RangeMerge | src/main/java/org/roaringbitmap/RunContainer.java:477-536 | the run `iadd` computes from the two searches fits in 16 bits, the new table is canonical, and it stores the old set plus [begin, end) |
| Runs.RankAt | src/main/java/org/roaringbitmap/RunContainer.java:431-441 | once the scan reaches run `k` (all earlier runs end below `x`), the count of stored values at most `x` is the earlier runs' cardinality plus the part of run `k` up to `x` |
| Runs.SelectIn | src/main/java/org/roaringbitmap/RunContainer.java:447-451 | when run `k` is the first whose cumulative count passes `j`, value `j` of the table is `start + (j - offset)` of run `k`, and it has exactly `j + 1` stored values at most itself |
| Runs.SelectOfRank | src/main/java/org/roaringbitmap/RunContainer.java:428-455 | for a stored `x`, the value at position `rank(x) - 1` is `x`: select undoes rank |
| Runs.KeepPastGap | src/main/java/org/roaringbitmap/RunContainer.java:159-162 | the array values that the intersection skips, below the current run and past the previous one, are not in the set |
| Runs.KeepInRun | src/main/java/org/roaringbitmap/RunContainer.java:163-164 | an array value that the current run covers is the next value of the intersection |
| Sorted.RankOfElement | src/main/java/org/roaringbitmap/RunContainer.java:445-455 | in an increasing sequence, the element at position `i` has exactly `i + 1` elements at most itself |
| Sorted.CountAtMostIsSetSize | src/main/java/org/roaringbitmap/RunContainer.java:428-442 | counting the elements at most `x` along an increasing sequence counts the set of them |
| Sorted.KeepInMembers | src/main/java/org/roaringbitmap/RunContainer.java:154-168 | the filtered sequence holds exactly the elements of the input that are in the set |
| Sorted.KeepInIncreasing | src/main/java/org/roaringbitmap/RunContainer.java:154-168 | filtering an increasing sequence leaves it increasing |
| Sorted.IncreasingUnique | src/main/java/org/roaringbitmap/RunContainer.java:556-566 | two increasing sequences with the same elements are equal |
| RunFormat.Flatten | src/main/java/org/roaringbitmap/RunContainer.java:17-20 | the interleaved layout: two words per run, the start at `2i` and the length at `2i+1` |
| RunFormat.Encode | src/main/java/org/roaringbitmap/RunContainer.java:402-404 | two bytes per word, each word low byte first |
| RunFormat.Serialize | src/main/java/org/roaringbitmap/RunContainer.java:399-405 | `writeArray` emits `2 + 4 * nbrruns` bytes |
| RunFormat.ParseCount | src/main/java/org/roaringbitmap/RunContainer.java:232 | the count read unsigned is the word whose bytes are the first two bytes |
| RunFormat.ParseCountAsWritten | src/main/java/org/roaringbitmap/RunContainer.java:232 | the count as the source reads it is negative exactly when the unsigned count is 32768 or more, and agrees with it modulo 2^16 |
| RunFormat.Parse | src/main/java/org/roaringbitmap/RunContainer.java:231-238 | reading succeeds exactly when the input holds the count and that many runs, and then yields `count` runs |
| RunFormat.SerializeAt | src/main/java/org/roaringbitmap/RunContainer.java:401-404 | run `i` occupies bytes `2 + 4i` to `5 + 4i` of the output, start first, each word low byte first |
| RunFormat.ParseSerialize | src/main/java/org/roaringbitmap/RunContainer.java:231-238 | reading back what `writeArray` wrote gives the same table whenever the count fits in 16 bits |
| RunFormat.SerializeParse | src/main/java/org/roaringbitmap/RunContainer.java:399-405 | whatever the reader accepts is exactly the serialization of what it returns, followed by the bytes it did not read |
| RunFormat.CanonicalCount | src/main/java/org/roaringbitmap/RunContainer.java:22 | a canonical table has at most 32768 runs, so its count fits in 16 bits |
| RunFormat.CanonicalRoundTrip | src/main/java/org/roaringbitmap/RunContainer.java:231-238 | every canonical table survives `writeArray` followed by `deserialize` |
| RunFormat.SignedCountCounterexample | src/main/java/org/roaringbitmap/RunContainer.java:232 | a canonical table of 32768 runs whose count the sign-extending read turns into -32768 |
| ArrayOps.ArrayCopy | src/main/java/org/roaringbitmap/RunContainer.java:653 | `System.arraycopy` leaves the destination equal to its old prefix, then the source window as it was before the copy, then its old suffix, even for overlapping windows of one array |
| ArrayOps.CopyOf | src/main/java/org/roaringbitmap/RunContainer.java:396 | `Arrays.copyOf` gives a fresh array of the new length, holding the old slots and zero padding |
| ArrayOps.AdvanceUntil | src/main/java/org/roaringbitmap/RunContainer.java:162 | the first index after `pos` whose value is at least `min`, or the length when there is none |
| RunContainers.RunsOf | src/main/java/org/roaringbitmap/RunContainer.java:17-20 | the first `n` runs of an interleaved array: run `i` is slots `2i` and `2i+1` |
| RunContainers.NewCapacity | src/main/java/org/roaringbitmap/RunContainer.java:32-34 | the growth rule always gives a strictly larger buffer |
| RunContainers.GrowthSuffices | src/main/java/org/roaringbitmap/RunContainer.java:31-38 | one growth step always makes room for one more run |
| RunContainers.FullAsWrittenOnEven | src/main/java/org/roaringbitmap/RunContainer.java:642 | on an even buffer length, the source's full-buffer test is exactly the right one |
| RunContainers.OddCapacityCounterexample | src/main/java/org/roaringbitmap/RunContainer.java:642-643 | nine growth steps from the default buffer give 729 slots; with 364 runs the full test fails although one more run does not fit in the 729 slots |
| RunContainers.ExtendsFirstRunDiffers | src/main/java/org/roaringbitmap/RunContainer.java:134 | for a first run above `k`, the signed test implies the unsigned one, and misses it only for k = 32767 in front of a run at 32768 |
| RunContainers.ExtendsFirstRunCounterexample | src/main/java/org/roaringbitmap/RunContainer.java:134-143 | in that case the signed test fails, and the singleton inserted at 32767 makes the table non-canonical |
| RunContainers.NotOnePastRun | src/main/java/org/roaringbitmap/RunContainer.java:434-437 | where the rank scan stops inside a run or before one, no run ends just before `x` |
| RunContainers.RankOvercountCounterexample | src/main/java/org/roaringbitmap/RunContainer.java:436-437 | for the one run 1..5, the value 6 is one past a run and has five stored values at most itself |
| RunContainers.EmptyRangeCounterexample | src/main/java/org/roaringbitmap/RunContainer.java:477-536 | on the empty container with begin = end = 1, every outcome of the two searches and of the merge (`LowerMerge`, `UpperMerge`) gives start 1 and length -1, stored as 65535, and the table built is not canonical |
| RunContainers.EmptyRangeInsideRun | src/main/java/org/roaringbitmap/RunContainer.java:477-536 | on the one run 0..10 with begin = end = 5, the merge absorbs both ends and rebuilds the same canonical table |
| RunContainers.RunContainer.constructor | src/main/java/org/roaringbitmap/RunContainer.java:43-45 | an empty, valid container with room for DEFAULT_INIT_SIZE runs |
| RunContainers.RunContainer.WithCapacity | src/main/java/org/roaringbitmap/RunContainer.java:52-54 | an empty, valid container with room for `capacity` runs |
| RunContainers.RunContainer.FromArray | src/main/java/org/roaringbitmap/RunContainer.java:25-28 | a container over a fresh copy of the buffer, with the given run count |
| RunContainers.RunContainer.GetValue | src/main/java/org/roaringbitmap/RunContainer.java:601-603 | the start of run `index` |
| RunContainers.RunContainer.GetLength | src/main/java/org/roaringbitmap/RunContainer.java:605-607 | the length-minus-one of run `index` |
| RunContainers.RunContainer.SetValueIn | src/main/java/org/roaringbitmap/RunContainer.java:629-631 | the given array with only slot `2 * index` replaced |
| RunContainers.RunContainer.SetLengthIn | src/main/java/org/roaringbitmap/RunContainer.java:621-623 | the given array with only slot `2 * index + 1` replaced |
| RunContainers.RunContainer.SetValue | src/main/java/org/roaringbitmap/RunContainer.java:625-627 | the table with only the start of run `index` replaced |
| RunContainers.RunContainer.SetLength | src/main/java/org/roaringbitmap/RunContainer.java:617-619 | the table with only the length of run `index` replaced |
| RunContainers.RunContainer.IncrementValue | src/main/java/org/roaringbitmap/RunContainer.java:613-615 | the start of run `index` goes up by one, wrapping at 2^16; nothing else changes |
| RunContainers.RunContainer.DecrementValue | src/main/java/org/roaringbitmap/RunContainer.java:637-639 | the start of run `index` goes down by one, wrapping at 2^16; nothing else changes |
| RunContainers.RunContainer.IncrementLength | src/main/java/org/roaringbitmap/RunContainer.java:609-611 | the length of run `index` goes up by one, wrapping at 2^16; nothing else changes |
| RunContainers.RunContainer.DecrementLength | src/main/java/org/roaringbitmap/RunContainer.java:633-635 | the length of run `index` goes down by one, wrapping at 2^16; nothing else changes |
| RunContainers.RunContainer.CopyValuesLength | src/main/java/org/roaringbitmap/RunContainer.java:652-654 | the destination with `length` whole runs copied in from the source, also when both are the same array |
| RunContainers.RunContainer.IncreaseCapacity | src/main/java/org/roaringbitmap/RunContainer.java:31-38 | a fresh buffer of the grown length that holds the same runs |
| RunContainers.RunContainer.MakeRoomAtIndex | src/main/java/org/roaringbitmap/RunContainer.java:641-645 | one more run; the runs from `index` on move up by one, and the slot at `index` is left for the caller |
| RunContainers.RunContainer.OpenRoom | src/main/java/org/roaringbitmap/RunContainer.java:643-644 | with the buffer large enough, the copy moves the runs from `index` on up by one in the same array |
| RunContainers.RunContainer.RecoverRoomAtIndex | src/main/java/org/roaringbitmap/RunContainer.java:647-650 | one run fewer; run `index` is gone and the later runs move down by one |
| RunContainers.RunContainer.UnsignedInterleavedBinarySearch | src/main/java/org/roaringbitmap/RunContainer.java:583-599 | either the index of a run starting at `k`, or `-(p+1)` where, over increasing starts, the runs below `p` start below `k` and the rest start above it |
| RunContainers.RunContainer.Search | src/main/java/org/roaringbitmap/RunContainer.java:101-103 | the index of the last run starting at or below `x` (or -1), and whether it starts exactly at `x` |
| RunContainers.RunContainer.Contains | src/main/java/org/roaringbitmap/RunContainer.java:217-228 | true exactly when `x` is in the set, that is, when some run covers `x` |
| RunContainers.RunContainer.Add | src/main/java/org/roaringbitmap/RunContainer.java:100-145 | the container stays canonical and stores the old set plus `k`; when `k` was already stored the table is unchanged; the buffer afterwards is the old array or a fresh one, so calls compose |
| RunContainers.RunContainer.FuseRuns | src/main/java/org/roaringbitmap/RunContainer.java:108-116 | the fusion branch keeps the container canonical and adds `k` |
| RunContainers.RunContainer.CloseInto | src/main/java/org/roaringbitmap/RunContainer.java:113-114 | run `index`, with its new length, replaces itself and the next run |
| RunContainers.RunContainer.ExtendRunEnd | src/main/java/org/roaringbitmap/RunContainer.java:118-119 | the extend-the-end branch keeps the container canonical and adds `k` |
| RunContainers.RunContainer.PrependToRun | src/main/java/org/roaringbitmap/RunContainer.java:121-128 | the prepend branch keeps the container canonical and adds `k` |
| RunContainers.RunContainer.ExtendFirstRun | src/main/java/org/roaringbitmap/RunContainer.java:131-138 | the first-run branch, under the unsigned test, keeps the container canonical and adds `k` |
| RunContainers.RunContainer.InsertRun | src/main/java/org/roaringbitmap/RunContainer.java:141-144 | the insertion branch keeps the container canonical and adds `k` |
| RunContainers.RunContainer.PutRun | src/main/java/org/roaringbitmap/RunContainer.java:141-143 | the given run is inserted into the table at `index` |
| RunContainers.RunContainer.Remove | src/main/java/org/roaringbitmap/RunContainer.java:350-381 | the container stays canonical and stores the old set minus `x`; when `x` was not stored the table is unchanged; the buffer afterwards is the old array or a fresh one |
| RunContainers.RunContainer.CloseRun | src/main/java/org/roaringbitmap/RunContainer.java:354-355 | dropping a singleton run removes exactly its value |
| RunContainers.RunContainer.ShiftRunStart | src/main/java/org/roaringbitmap/RunContainer.java:356-359 | moving a run's start up by one removes exactly its first value |
| RunContainers.RunContainer.ShortenRunEnd | src/main/java/org/roaringbitmap/RunContainer.java:375-377 | shortening a run by one removes exactly its last value |
| RunContainers.RunContainer.SplitRun | src/main/java/org/roaringbitmap/RunContainer.java:363-374 | splitting a run around an interior `x` removes exactly `x` |
| RunContainers.RunContainer.IAdd | src/main/java/org/roaringbitmap/RunContainer.java:477-539 | a fresh, canonical container storing the old set plus [begin, end), with a buffer of exactly `2 * nbrruns` slots; the receiver is untouched |
| RunContainers.RunContainer.MergeStart | src/main/java/org/roaringbitmap/RunContainer.java:478-499 | the search for `begin`, and the choice of the new run's start and of the last run kept below it |
| RunContainers.RunContainer.MergeEnd | src/main/java/org/roaringbitmap/RunContainer.java:479-527 | the search for `end - 1`, and the choice of the new run's end and of the last run it absorbs |
| RunContainers.RunContainer.MergedCopy | src/main/java/org/roaringbitmap/RunContainer.java:529-536 | a fresh buffer holding runs `0..b`, then the new run, then the runs after `e` |
| RunContainers.RunContainer.CopyMerged | src/main/java/org/roaringbitmap/RunContainer.java:529-538 | a fresh container whose table is runs `0..b`, the new run, then the runs after `e` |
| RunContainers.RunContainer.AddRange | src/main/java/org/roaringbitmap/RunContainer.java:147-151 | a fresh, canonical container storing the old set plus [begin, end) |
| RunContainers.RunContainer.Flip | src/main/java/org/roaringbitmap/RunContainer.java:92-97 | afterwards `x` is stored exactly when it was not before, and no other value changes; the buffer is the old array or a fresh one |
| RunContainers.RunContainer.Clear | src/main/java/org/roaringbitmap/RunContainer.java:207-210 | no runs and the empty set; the buffer is kept |
| RunContainers.RunContainer.Clone | src/main/java/org/roaringbitmap/RunContainer.java:212-215 | a fresh container over a fresh copy of the whole buffer, with the same table |
| RunContainers.RunContainer.Trim | src/main/java/org/roaringbitmap/RunContainer.java:393-397 | the same table, in a buffer of exactly `2 * nbrruns` slots |
| RunContainers.RunContainer.GetCardinality | src/main/java/org/roaringbitmap/RunContainer.java:256-262 | the sum of (length-minus-one + 1) over the runs, which for a canonical container is the size of the set |
| RunContainers.RunContainer.GetArraySizeInBytes | src/main/java/org/roaringbitmap/RunContainer.java:251-254 | the number of bytes `writeArray` emits |
| RunContainers.RunContainer.Rank | src/main/java/org/roaringbitmap/RunContainer.java:428-442 | with the corrected test, the number of stored values at most `x` |
| RunContainers.RunContainer.RankAsWritten | src/main/java/org/roaringbitmap/RunContainer.java:428-442 | as written, the number of stored values at most `x`, plus one exactly when `x` is one past the end of a run |
| RunContainers.RunContainer.Select | src/main/java/org/roaringbitmap/RunContainer.java:444-455 | for `0 <= j < cardinality`, value `j` in ascending order, which has exactly `j + 1` stored values at most itself; `IllegalArgument` for `j >= cardinality`, and for every `j` on the empty container; `(short)(start + j)` of the first run for a negative `j` on a non-empty container |
| RunContainers.RunContainer.And | src/main/java/org/roaringbitmap/RunContainer.java:153-168 | a fresh array of capacity `|x|`, whose filled prefix is the values of `x` that are stored, in the order of `x` and increasing |
| RunContainers.RunContainer.WriteArray | src/main/java/org/roaringbitmap/RunContainer.java:399-405 | the serialization of the table: `2 + 4 * nbrruns` bytes |
| RunContainers.RunContainer.Deserialize | src/main/java/org/roaringbitmap/RunContainer.java:230-238 | succeeds exactly when the reader accepts the bytes, and then holds the table read (a canonical one as a valid container); with at least two bytes the count is the one read, the buffer is kept when it had room for `2 * count` slots and is otherwise a fresh one of exactly that size, and every word whose two bytes are present is stored, so truncated input leaves the count and a prefix of the words; with fewer than two bytes nothing changes |
| RunContainers.RunContainer.Equals | src/main/java/org/roaringbitmap/RunContainer.java:555-566 | true exactly when the two tables are equal, which for canonical containers means they store the same set |
| RunIterators.CardinalityAround | src/main/java/org/roaringbitmap/RunContainer.java:738-745 | the values before run `k`, in run `k`, and after it add up to the cardinality |
| RunIterators.ForwardRange | src/main/java/org/roaringbitmap/RunContainer.java:723-726 | a forward position has passed between 0 and cardinality values, and fewer than all exactly while `pos` is a live run |
| RunIterators.ForwardNext | src/main/java/org/roaringbitmap/RunContainer.java:737-746 | the value at a forward position is `start + le` of run `pos`, and the next position has passed one value more |
| RunIterators.ReverseRange | src/main/java/org/roaringbitmap/RunContainer.java:770-773 | a reverse position has passed between 0 and cardinality values from the top, and fewer than all exactly while `pos` is a live run |
| RunIterators.ReverseNext | src/main/java/org/roaringbitmap/RunContainer.java:784-793 | the value at a reverse position is `End - le` of run `pos`, and the next position has passed one value more |
| RunIterators.ForwardIterator.constructor | src/main/java/org/roaringbitmap/RunContainer.java:713-715 | a forward iterator over `p` that has yielded nothing |
| RunIterators.ForwardIterator.Wrap | src/main/java/org/roaringbitmap/RunContainer.java:717-721 | the iterator starts over on `p` |
| RunIterators.ForwardIterator.HasNext | src/main/java/org/roaringbitmap/RunContainer.java:723-726 | true exactly while fewer than cardinality values have been yielded |
| RunIterators.ForwardIterator.Next | src/main/java/org/roaringbitmap/RunContainer.java:737-746 | yields the stored values in ascending order, the `i`-th call giving value `i` |
| RunIterators.ReverseIterator.constructor | src/main/java/org/roaringbitmap/RunContainer.java:760-762 | a reverse iterator over `p` that has yielded nothing |
| RunIterators.ReverseIterator.Wrap | src/main/java/org/roaringbitmap/RunContainer.java:764-768 | the iterator starts over at the last run of `p` |
| RunIterators.ReverseIterator.HasNext | src/main/java/org/roaringbitmap/RunContainer.java:770-773 | true exactly while fewer than cardinality values have been yielded |
| RunIterators.ReverseIterator.Next | src/main/java/org/roaringbitmap/RunContainer.java:784-793 | yields the stored values in descending order, the `i`-th call giving the value with `i` stored values above it |
| RunScenarios.AddThreeOneFive | src/main/java/org/roaringbitmap/RunContainer.java:100-145 | `add(3)`, `add(1)`, `add(5)` on a new container, called one after another on the same object, store exactly {1, 3, 5} |
| RunScenarios.AddOneToFive | src/main/java/org/roaringbitmap/RunContainer.java:100-145 | then `add(2)` and `add(4)` fuse everything into the single run 1..5, and `getCardinality` is 5 |
| RunScenarios.AddSeven | src/main/java/org/roaringbitmap/RunContainer.java:100-145 | then `add(7)` starts a second run, giving the table 1..5, 7..7 of cardinality 6 |
| RunScenarios.RemoveThree | src/main/java/org/roaringbitmap/RunContainer.java:350-381 | `remove(3)` on the run 1..5 splits it into 1..2 and 4..5, of cardinality 4 |
| RunScenarios.RemoveOne | src/main/java/org/roaringbitmap/RunContainer.java:350-381 | `remove(1)` on the run 1..5 leaves the run 2..5, of cardinality 4 |
| RunScenarios.SelectExamples | src/main/java/org/roaringbitmap/RunContainer.java:445-455 | `select(0)` on the run 1..5 is 1; `select(10)` on six stored values throws `IllegalArgumentException` |

## Left out

- The operations with a `BitmapContainer`: `and`, `andNot`, `or` and `xor` (RunContainer.java:172-205, :337-347, :413-425), with their in-place forms. They rely on `BitmapContainer` and on the bit-range helpers of `Util`, which are not part of this model.
- The stubs that return `null` (RunContainer.java:187-191, :300-303, :326-335, :407-411, :541-551, :656-702), among them every operation between two run containers and `remove(begin, end)`. They have no behaviour to state.
- The in-place forms at RunContainer.java:280-322. Each one only forwards to the out-of-place operation.
- `limit` (RunContainer.java:458-474). Its loop skips run 0 and reads past the last run. It is left out, not modelled as written.
- `fillLeastSignificant16bits` (RunContainer.java:241-249). It fills an `int[]` for the caller and indexes it as `x[k + pos]`, ignoring `i`.
- `serializedSizeInBytes` (RunContainer.java:389-391) returns `2 + 2 * nbrruns`, which is not what `writeArray` emits. `getSizeInBytes` (RunContainer.java:274-277) is the closed formula `4 * nbrruns + 4`, with no behaviour beyond it.
- Java plumbing: `writeExternal`/`readExternal` and `serialize` (RunContainer.java:80-90, :383-386), the boxed `Iterator<Short>` wrapper (:57-78), and the iterators' `clone` and throwing `remove` (:728-735, :748-751, :775-782, :795-798). `getShortIterator`/`getReverseShortIterator` (:264-272) are the iterator constructors.
- `equals` against containers of other kinds (RunContainer.java:567-579). It needs those containers' iterators.
- Streams: `DataOutput` is modelled as the byte sequence written. `DataInput` is modelled as the byte sequence available. The `EOFException` on truncated input becomes `false`, or `Failure(EndOfInput)`.
- `ArrayContainer` is not part of this model. The operand of `and` is its sorted `content` as a sequence. The result is the `content` array with its `cardinality`.
- ArrayOps.AdvanceUntil: the library gallops (doubling steps, then a binary search). The model scans one index at a time, which finds the same index. `Util.java` is not part of this model.
- RunContainers.RunContainer.UnsignedInterleavedBinarySearch: `(low + high) >>> 1` is written as `(low + high) / 2`. The two agree for the index ranges that occur.
- RunContainers.RunContainer.IAdd: requires `begin < end`. With `begin == end` the source can compute a non-canonical container. On the empty container with begin = end = 1, the merged run is (1, 65535), which reaches past 65535 (`EmptyRangeCounterexample`). Other inputs stay canonical: on the one run 0..10 with begin = end = 5, the run comes back unchanged (`EmptyRangeInsideRun`). RunContainers.RunContainer.AddRange inherits the same precondition.
- RunContainers.RunContainer.GetCardinality: the Java `int` sum is unbounded here. For a canonical container it is at most 65536, so no overflow can occur.
- RunContainers.RunContainer.Add, MakeRoomAtIndex, Rank and Deserialize follow the corrected code of the four findings below. The code as written is modelled beside each one.
- RunIterators.ForwardIterator.Next and RunIterators.ReverseIterator.Next: require that `hasNext()` holds, as the Java iterator protocol does. The iterators also assume that their container is not changed while they walk it.

## Findings

| source | as written | input that shows it | evidently intended | confidence | as-written member | corrected member |
|---|---|---|---|---|---|---|
| src/main/java/org/roaringbitmap/RunContainer.java:134 | `getValue(0) == k + 1` compares the sign-extended short with `k + 1` | `add(32767)` on a container whose first run starts at 32768: the test fails, and the singleton {32767} is inserted next to that run | extend the first run when its unsigned start is `k + 1`, as the sibling test at :123 does | not executed | RunContainers.ExtendsFirstRunDiffers, RunContainers.ExtendsFirstRunCounterexample | RunContainers.RunContainer.Add |
| src/main/java/org/roaringbitmap/RunContainer.java:642 | grows the buffer only when `2 * nbrruns == valueslength.length` | the default buffer, grown nine times, has 729 slots (8, 16, 32, 64, 96, 144, 216, 324, 486, 729); with 364 runs the test fails, and the copy at :643 needs a window ending at slot 730, so `System.arraycopy` throws `IndexOutOfBoundsException` and `add` fails on a valid container | grow whenever `2 * nbrruns + 2 > valueslength.length` | not executed | RunContainers.OddCapacityCounterexample | RunContainers.RunContainer.MakeRoomAtIndex |
| src/main/java/org/roaringbitmap/RunContainer.java:436 | `value + length + 1 >= x` | the one run 1..5 and `x = 6`: the value 6 is not stored, five stored values are at most 6, and `rank` returns 6 | `value + length >= x` | not executed | RunContainers.RunContainer.RankAsWritten | RunContainers.RunContainer.Rank |
| src/main/java/org/roaringbitmap/RunContainer.java:232 | `nbrruns = Short.reverseBytes(in.readShort())` sign-extends the count | the 32768 singletons 0, 2, ..., 65534 are canonical; their count reads back as -32768 and no run is read | read the count unsigned, as `Util.toIntUnsigned` does elsewhere | not executed | RunFormat.SignedCountCounterexample | RunContainers.RunContainer.Deserialize |
