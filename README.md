# 1brc aggregation core in Dafny

The program this models reads a file of `<station>;<value>\n` lines in memory (one billion
rows in the original challenge). For every station name it reports the minimum, mean and
maximum value. There are three variants of the core:

- **Multi-threaded version** (`src/multithreaded.cpp`):
  - The mapped buffer is split into one byte range per thread. Each internal boundary
    moves forward to the next line start.
  - Each thread scans its range with `process_chunk`. It folds the records into a private
    open-addressing table of 16384 slots; probing is linear and the hash is
    `hash * 31 + byte` over `uint64_t`.
  - Every table is then merged into the first. The master table is compacted and sorted
    by name.
- **Single-threaded table version** (`src/custom_table.cpp`): the same table and the same
  scanner, without the bounds checks.
- **Ordered-map reference** (`src/mapped_memory.cpp`): a `std::map` whose entries start at
  `{1000, -1000, 0, 0}`.

Values are fixed-point numbers times ten: `"12.3"` is 123.

The model is organised as follows:

- `bytes.dfy`: the input is a `seq<byte>`.
- `scan.dfy`: a key is a `Slice(off, len)` into that buffer, compared by the bytes it views.
  The scanners are specified by functions that say which records a scan of a range yields:
  - `Chunk` for the bounds-checked scanner;
  - `Lines` for the map scanner, which skips nothing;
  - predicates `Framed`, `LinesFramed` and `WellFormed` for the input the unchecked loops need.
- `aggregate.dfy`: the abstract result is a `Summary`, a map from name bytes to
  `Stats(min, max, sum, cnt)`.
  - `Fold` applies records one at a time.
  - `Combine` is the per-name merge.
  - `TrueStats` is the exact statistics of a value list.
- `table.dfy`: `HashTable.Table` is a class over an `array<Entry>` of `TABLE_SIZE` slots.
  - `Valid()` holds when occupied names are distinct and every occupied slot is reachable
    from its name's home slot through occupied slots.
  - `Contents()` reads the array as a `Summary`.
  - The scanning loops, the probe loop, `update_stats` and the merge loop are methods with
    loop invariants, proved against `Fold` and `Combine`.
- `report.dfy`: compaction and the sort work in place on the slot array.
- `partition.dfy`: the boundary loops work on indices.
- `mapped.dfy`: the `std::map` is a class field of type `map` that the scan loop reassigns.
  `OrderedMap.MapAgreesWithChunk` proves that on well-formed input the ordered map builds
  the same aggregate as the table scanners.
- `pipeline.dfy`: composes the parts. It proves:
  - the multi-threaded `main` reports one entry per name of the input, in strictly
    ascending byte order;
  - each entry holds the true minimum, maximum, sum and count of that name's values;
  - the single-threaded table program reports the same as the multi-threaded one.

Three behaviours of the code that the contracts rely on:

- **Value parser:** every digit of the value text is accumulated into one number, other
  bytes are ignored, and a `'-'` anywhere in the text negates the result.
  `ValueOfWellFormed` proves that this gives the fixed-point meaning on the
  `[-]d[d].d` format.
- **Share boundaries:** worker `i`'s share starts at `i * (L / N)`, where the share size
  `L / N` is truncated; the last worker's share runs to the end of the buffer.
- **Skipped bytes:** the map scanner skips no bytes. The two table scanners skip `'\n'`,
  `'\r'` and `' '` before a key.

## Model

| member | source | states |
|---|---|---|
| Bytes.Less | src/multithreaded.cpp:183-184 | the byte-wise lexicographic `a.name < b.name` of `string_view`: never holds between equal names, and a proper prefix sorts first |
| Bytes.LessIrreflexive | src/multithreaded.cpp:183-184 | no name sorts before itself under `a.name < b.name` |
| Bytes.LessTransitive | src/multithreaded.cpp:183-184 | the name order used by the sort is transitive |
| Bytes.LessTotal | src/multithreaded.cpp:183-184 | two different names are ordered one way or the other |
| Bytes.LessAsymmetric | src/multithreaded.cpp:183-184 | the name order is asymmetric |
| KeyHash.Hash | src/multithreaded.cpp:148-151 | the `uint64_t` hash of a name's bytes, `hash * 31 + byte` from 0, is a 64-bit value |
| KeyHash.HashRange | src/multithreaded.cpp:65-70 | the key hash as computed, reduced mod 2^64 after every step, is below 2^64 |
| KeyHash.Home | src/multithreaded.cpp:40 | the probe starts at a slot index below `TABLE_SIZE` |
| KeyHash.HashRangeSlice | src/multithreaded.cpp:65-70 | hashing a buffer range in place equals hashing the key bytes it holds, so scan and merge agree on the hash |
| KeyHash.HashRangePrefix | src/multithreaded.cpp:148-151 | the hash of a prefix depends only on the prefix bytes |
| KeyHash.HashModTable | src/multithreaded.cpp:40 | because 2^64 is a multiple of 16384, the `uint64_t` hash picks the same home slot as the unbounded fold |
| KeyHash.HashOf | src/multithreaded.cpp:148-151 | the merge loop's re-hash of a name equals the hash the scanner computed for it |
| ValueParser.Digits | src/multithreaded.cpp:83-85 | the accumulator `temp * 10 + digit` over the digits of the value text, skipping other bytes, has at most as many decimal digits as the text has bytes |
| ValueParser.HasMinus | src/multithreaded.cpp:81-82 | the `negative` flag is set exactly when some byte of the value text is `'-'` |
| ValueParser.Value | src/multithreaded.cpp:78-88 | the parsed value has the accumulated digits as its magnitude; it is negative only when a `'-'` occurs, and then it is not positive |
| ValueParser.ParseTemp | src/multithreaded.cpp:78-88 | the parse loop yields ± the digits read as one decimal number, negated when any `'-'` occurs |
| ValueParser.DigitsOfDigits | src/multithreaded.cpp:83-85 | over a run of digits the accumulator is the run's decimal value and no sign is seen |
| ValueParser.DigitsSkipMinus | src/multithreaded.cpp:81-82 | a leading `'-'` adds no digit and sets the sign |
| ValueParser.ValueOfWellFormed | src/custom_table.cpp:99-107 | on `[-]d[d].d` text the result is ±(whole part × 10 + tenths) and lies within -999..999 |
| ValueParser.ParserExamples | src/mapped_memory.cpp:68-78 | "5.3"→53, "-5.3"→-53, "12.0"→120, "-0.1"→-1 |
| Scanner.View | src/multithreaded.cpp:77 | the `string_view(cursor, semicolon - cursor)` of a key: a slice inside the buffer views `len` bytes, one outside it views none |
| Scanner.Find | src/multithreaded.cpp:67 | the delimiter search returns an index in `[from, end]` that holds the byte when it is below `end` |
| Scanner.FindShorter | src/multithreaded.cpp:67-76 | a delimiter found before a shorter end is found there too |
| Scanner.FindFirst | src/multithreaded.cpp:67-76 | no byte before the found index is the delimiter |
| Scanner.FindIs | src/custom_table.cpp:87-95 | a loop exit with no delimiter before it, at `end` or on the delimiter, is the first occurrence |
| Scanner.ChunkKeysClosed | src/multithreaded.cpp:58-92 | `Chunk` is the list of records `process_chunk` yields for `[c, end)`: skipping `'\n'`, `'\r'` and `' '`, stopping at a key with no `';'` before `end`, the value running to the next `'\n'` or `end`; every key it yields is closed by a `';'` inside the range |
| Scanner.Lines | src/mapped_memory.cpp:54-89 | the lines the map scanner yields for `[c, end)`, skipping nothing and stopping at a line without its `';'` and `'\n'`; every key is closed by a `';'` inside the range |
| Scanner.ChunkSkip | src/multithreaded.cpp:61-63 | a `'\n'`, `'\r'` or `' '` before a key yields no record |
| Scanner.ChunkUnterminated | src/multithreaded.cpp:71-72 | a key with no `';'` before `end` ends the scan without a record |
| Scanner.FramedSkip | src/custom_table.cpp:80-83 | skipping a byte keeps the rest of the input terminated |
| Scanner.ChunkStep | src/multithreaded.cpp:73-90 | a record starting at `a` is `[a, semicolon)` with the parsed value, and scanning resumes after its newline |
| Scanner.ChunkAt | src/multithreaded.cpp:73-90 | the same record, named by its `';'` and `'\n'` positions |
| Scanner.FramedAt | src/custom_table.cpp:86-95 | on terminated input the unchecked key and value loops find their `';'` and `'\n'` inside the buffer |
| Scanner.WellFormedScans | src/mapped_memory.cpp:54-89 | on well-formed input all three scanners stay in bounds, the map scanner yields the same records as the table scanner, and every value is within -999..999 |
| Scanner.WellFormedLine | src/custom_table.cpp:86-95 | the first line of well-formed input has its `';'` and `'\n'` inside the range |
| Scanner.LineEndsBefore | src/multithreaded.cpp:124-132 | a line that starts before a line start also ends before it |
| Scanner.SplitWellFormed | src/multithreaded.cpp:124-132 | splitting well-formed input at a line start leaves two well-formed parts |
| Scanner.SplitLine | src/multithreaded.cpp:124-132 | the first line of a split goes to the left part |
| Scanner.SplitAtLineStart | src/multithreaded.cpp:124-132 | scanning both sides of a line-start boundary yields the records of the whole range, so no record is split |
| Scanner.FirstLine | src/multithreaded.cpp:124-132 | the `';'` and `'\n'` of the first line both lie before the next line start |
| Aggregate.Init | src/multithreaded.cpp:47 | a name's first value `t` gives `{t, t, t, 1}`, the exact statistics of the list `[t]` |
| Aggregate.Update | src/multithreaded.cpp:49-54 | one more value `t`: the minimum becomes the smaller of the old minimum and `t`, the maximum the larger, the sum grows by `t` and the count by 1 |
| Aggregate.Merge | src/multithreaded.cpp:164-171 | the merged minimum is the smaller of the two minima, the maximum the larger of the two maxima, and sums and counts add |
| Aggregate.Fold | src/multithreaded.cpp:60-91 | the records applied in order, as the scan loop calls `update_stats`: no name already present is lost; `FoldKeys` gives the exact key set |
| Aggregate.Apply | src/multithreaded.cpp:44-55 | applying a record adds its name to the keys and nothing else |
| Aggregate.Combine | src/multithreaded.cpp:159-172 | the per-name merge has exactly the names of both operands |
| Aggregate.Absorb | src/multithreaded.cpp:159-172 | absorbing one worker entry adds its name to the keys and nothing else |
| Aggregate.SeqMinMax | src/multithreaded.cpp:49-52 | the running minimum and maximum bound every value and occur among the values |
| Aggregate.FoldAppend | src/multithreaded.cpp:60-91 | folding two record runs is folding the second into the fold of the first |
| Aggregate.FoldLast | src/multithreaded.cpp:60-91 | the last record is applied last |
| Aggregate.TrueStatsSnoc | src/multithreaded.cpp:44-55 | `{t,t,t,1}` on first sight and the min/max/sum/cnt update afterwards are the exact statistics of the values so far |
| Aggregate.FoldIsTrueStats | src/multithreaded.cpp:38-56 | after a fold, a name is present exactly when some record has it, with the true min, max, sum and count of its values |
| Aggregate.FoldKeys | src/multithreaded.cpp:38-56 | the keys after a fold are the keys before plus the records' names |
| Aggregate.MergeAssociative | src/multithreaded.cpp:164-171 | combining two entries' statistics is associative |
| Aggregate.CombineAssociative | src/multithreaded.cpp:141-175 | merging tables is associative per name |
| Aggregate.CombineEmpty | src/multithreaded.cpp:141-175 | merging with an empty table changes nothing |
| Aggregate.ApplyIsCombine | src/multithreaded.cpp:44-55 | applying a record is merging with that record's own one-entry aggregate |
| Aggregate.FoldIsCombine | src/multithreaded.cpp:141-175 | folding records equals merging with the records' own aggregate, so aggregating separately and merging is sound |
| Aggregate.AggregateConcat | src/multithreaded.cpp:141-175 | the aggregate of two consecutive runs is the merge of their aggregates |
| Aggregate.CombineSnoc | src/multithreaded.cpp:159-172 | absorbing one more new entry extends the per-name merge by that entry |
| Slots.Placed | src/multithreaded.cpp:44-55 | the slot `update_stats` writes is occupied, keeps its name if it had one and otherwise takes the record's, and counts one more value |
| Slots.Absorbed | src/multithreaded.cpp:159-172 | the slot the merge writes is occupied when either entry is, keeps the master's name when the master slot was occupied, and adds the worker's count |
| Slots.Wrap | src/multithreaded.cpp:42 | the probe step `(idx + 1) % TABLE_SIZE` after `k` steps |
| Slots.Dist | src/multithreaded.cpp:41-43 | the number of probe steps between two slots, inverse to `Wrap` |
| Slots.DistWrap | src/multithreaded.cpp:41-43 | stepping `k` times and measuring the distance gives back `k` |
| Slots.DistinctPrefix | src/custom_table.cpp:31-48 | a prefix of a table with distinct names has distinct names |
| Slots.ContentsHas | src/custom_table.cpp:31-48 | every occupied slot's name is a key of the table's contents, with that slot's statistics |
| Slots.ContentsKeys | src/custom_table.cpp:31-48 | every key of the contents is held by some occupied slot |
| Slots.ContentsUpdate | src/custom_table.cpp:37-48 | writing a name's entry where no other slot holds it keeps names distinct and sets only that key |
| Slots.FullTableKeys | src/multithreaded.cpp:41-43 | a fully occupied table of distinct names has as many keys as slots |
| Slots.FreeSlot | src/multithreaded.cpp:41-43 | a table with fewer keys than slots has a free slot, so the probe terminates |
| Slots.CountSumUpdate | src/custom_table.cpp:40-47 | replacing one slot changes the sum of counts by that slot's difference |
| Slots.ProbeAbsent | src/multithreaded.cpp:41-46 | when the probe stops at a free slot, no slot holds the name |
| Slots.WriteAtTarget | src/multithreaded.cpp:44-55 | writing at the probe target keeps the table invariant and sets exactly that name's statistics |
| Slots.ContentsExtend | src/multithreaded.cpp:143-145 | one more slot of the worker table adds its name and count to those of the slots before it |
| Slots.PrefixFresh | src/multithreaded.cpp:143-145 | a worker slot's name does not occur in the worker's earlier slots |
| Slots.PrefixKeys | src/multithreaded.cpp:143-145 | the names of the worker's first slots are among all its names |
| Slots.AbsorbSlotsKeys | src/multithreaded.cpp:143-173 | absorbing a worker's slots adds exactly the worker's names |
| Slots.AbsorbSlotsIsCombine | src/multithreaded.cpp:143-173 | absorbing a worker's slots one by one, in slot order, is the per-name merge with the worker's contents |
| HashTable.Table.constructor | src/multithreaded.cpp:35 | a value-initialised table has no occupied slot, is valid, and stands for the empty aggregate with count 0 |
| HashTable.Table.FindSlot | src/multithreaded.cpp:40-43 | the probe returns the first slot cyclically from `hash % TABLE_SIZE` that is free or holds the name |
| HashTable.Table.Upsert | src/multithreaded.cpp:38-56 | `update_stats` rewrites only the probe target, with `{temp,temp,temp,1}` or the min/max/sum/cnt update; the contents become `Apply` of the record and the count sum grows by 1 |
| HashTable.Table.MergeEntry | src/multithreaded.cpp:147-172 | one worker entry is copied to a free probe target or combined with the slot holding its name; nothing else changes |
| HashTable.Table.RoomFor | src/multithreaded.cpp:41-43 | under a bound of `TABLE_SIZE` names, the probe for a name has a slot to stop at |
| HashTable.Table.MergeFrom | src/multithreaded.cpp:143-174 | merging a worker table leaves the master valid and equal to the per-name merge of both tables, with the counts added |
| HashTable.Table.MergeSlot | src/multithreaded.cpp:145-173 | one slot of the worker table absorbed into the master |
| HashTable.Table.ProcessChunk | src/multithreaded.cpp:58-92 | `process_chunk` leaves the table equal to its old contents folded with exactly the records of the range, one count per record |
| HashTable.Table.Step | src/multithreaded.cpp:60-90 | one loop body: a skipped byte, an unterminated key that ends the scan unchanged, or one record taken |
| HashTable.Table.Take | src/multithreaded.cpp:89 | the `update_stats` call consumes the first record of the range and adds one count |
| HashTable.Table.ScanAll | src/custom_table.cpp:79-111 | on terminated input the unchecked scan builds the fold of the same records as `process_chunk` over the whole buffer |
| HashTable.Table.UncheckedStep | src/custom_table.cpp:80-110 | one unchecked loop body stays inside terminated input and consumes one skipped byte or one record |
| HashTable.UncheckedValueScan | src/custom_table.cpp:92-107 | the unchecked value loop and parse give the record the bounds-checked scanner gives |
| HashTable.UncheckedKeyScan | src/custom_table.cpp:85-90 | the unchecked key loop stops at the first `';'` with the key's hash |
| HashTable.UncheckedLineEnd | src/custom_table.cpp:92-95 | the unchecked newline loop stops at the first `'\n'` |
| HashTable.ValueScan | src/multithreaded.cpp:73-90 | the value loop and parse give the range's first record, and scanning resumes after its newline |
| HashTable.KeyScan | src/multithreaded.cpp:65-70 | the key loop stops at the first `';'` before `end` with the hash of the key bytes |
| HashTable.LineEnd | src/multithreaded.cpp:73-76 | the newline loop stops at the first `'\n'` before `end`, or at `end` |
| HashTable.FoldStep | src/multithreaded.cpp:89 | the first record is applied first and its name is among the resulting keys |
| HashTable.EmptyContents | src/multithreaded.cpp:35 | a table of free slots is valid, empty and has count 0 |
| HashTable.EmptyPrefix | src/multithreaded.cpp:35 | every prefix of a table of free slots is empty with count 0 |
| HashTable.StraySlotSurvives | src/custom_table.cpp:61 | a slot occupied before the scan keeps its name in the result |
| HashTable.UninitialisedSlotExample | src/custom_table.cpp:61 | an uninitialised table can report a name that no record has |
| Report.Occupied | src/multithreaded.cpp:177-181 | the occupied slots in slot order: no more of them than slots, and all occupied |
| Report.Compact | src/multithreaded.cpp:177-181 | after compaction the prefix is exactly the occupied slots in slot order, and the rest of the array is untouched |
| Report.OccupiedContents | src/custom_table.cpp:113-118 | the compacted prefix stands for the same aggregate and count sum as the table |
| Report.OccupiedShape | src/custom_table.cpp:113-118 | the compacted prefix holds only occupied slots, each one a slot of the table |
| Report.OccupiedDistinct | src/custom_table.cpp:113-118 | `active_count` equals the number of names, and the prefix has distinct names |
| Report.Insert | src/multithreaded.cpp:183-184 | one step of the sorted arrangement, `e` before the first greater name: its entries are those of `xs` plus exactly `e` |
| Report.SortByName | src/multithreaded.cpp:183-184 | the arrangement `std::sort` leaves, by name: a permutation of the entries |
| Report.InsertSorted | src/multithreaded.cpp:183-184 | inserting a new name into a strictly ascending sequence keeps it strictly ascending and adds exactly that entry |
| Report.InsertFront | src/multithreaded.cpp:183-184 | a name below the first stays ascending in front |
| Report.InsertBehind | src/multithreaded.cpp:183-184 | an entry kept before the insertion point stays ascending |
| Report.ConsSorted | src/multithreaded.cpp:183-184 | an entry below every name of an ascending sequence may lead it |
| Report.SortFacts | src/custom_table.cpp:120-122 | sorting entries with distinct names gives a permutation in strictly ascending name order |
| Report.LastIsNew | src/custom_table.cpp:120-122 | under distinct names the last entry's name is absent from any arrangement of the others |
| Report.SortContents | src/custom_table.cpp:120-122 | the sorted prefix stands for the same aggregate |
| Report.SortedDistinct | src/multithreaded.cpp:183-184 | strictly ascending names are distinct, so no name is printed twice |
| Report.PermutedContents | src/multithreaded.cpp:183-184 | two arrangements of the same distinct-named entries stand for the same aggregate |
| Report.SortPrefix | src/multithreaded.cpp:183-184 | `std::sort` of the prefix leaves it in sorted order and the rest of the array untouched |
| Report.SortLength | src/multithreaded.cpp:183-184 | sorting keeps the number of entries |
| Report.InsertLength | src/multithreaded.cpp:183-184 | insertion adds one entry |
| Partition.Align | src/multithreaded.cpp:124-132 | the boundary adjustment reaches the first line start at or after the share boundary |
| Partition.AlignAsWritten | src/multithreaded.cpp:125-126 | the loop as written reads before the buffer exactly when it starts at offset 0 of a non-empty buffer, and otherwise agrees with `Align` |
| Partition.ShareFits | src/multithreaded.cpp:115-122 | `k` shares of `file_size / num_threads` bytes fit in the buffer for `k <= num_threads` |
| Partition.StartOf | src/multithreaded.cpp:119-127 | a range start lies inside the buffer |
| Partition.EndOf | src/multithreaded.cpp:120-132 | a range end lies inside the buffer |
| Partition.Split | src/multithreaded.cpp:115-132 | the boundary loop yields the ranges `StartOf` and `EndOf` describe, and they tile the buffer at line starts |
| Partition.Bounds | src/multithreaded.cpp:119-132 | the range of worker `i` from its share boundaries |
| Partition.Adjust | src/multithreaded.cpp:130-131 | the adjustment loop computes `Align` |
| Partition.Tiles | src/multithreaded.cpp:115-132 | the first range starts at 0, the last ends at `file_size`, each ends where the next starts, none is reversed, and every boundary is a line start |
| Partition.AlignMonotone | src/multithreaded.cpp:124-132 | aligning a later offset never gives an earlier line start |
| Partition.AsWrittenAgrees | src/multithreaded.cpp:124-132 | with at least one byte per thread the loop as written agrees with `Align` |
| Partition.ShareOfZeroReadsBefore | src/multithreaded.cpp:115-127 | a one-byte file with two threads makes worker 1 read the byte before the buffer |
| Pipeline.ThreadCount | src/multithreaded.cpp:109-111 | the thread count is positive: the reported one when it is positive, and 4 when `hardware_concurrency()` reports 0 |
| Pipeline.Ranges | src/multithreaded.cpp:117-135 | one record run per worker range |
| Pipeline.KeySetConcat | src/multithreaded.cpp:141-175 | the names of two runs together are the names of each |
| Pipeline.SplitAtBoundary | src/multithreaded.cpp:124-132 | a line-start boundary splits well-formed input and its records |
| Pipeline.RunsAreChunk | src/multithreaded.cpp:117-135 | the first `i` workers' runs laid end to end are the records before range `i` |
| Pipeline.RunStep | src/multithreaded.cpp:117-135 | one more worker range extends the records to its end |
| Pipeline.RunKeys | src/multithreaded.cpp:117-135 | a worker's names are names of the whole input |
| Pipeline.RangesWhole | src/multithreaded.cpp:115-135 | all workers' runs laid end to end are the records of the whole buffer |
| Pipeline.BoundedKeys | src/multithreaded.cpp:141-175 | a name bound on the whole input bounds every part |
| Pipeline.Wants | src/multithreaded.cpp:133-135 | each worker is to build the aggregate of its own run |
| Pipeline.Workers | src/multithreaded.cpp:113-139 | one fresh table per range, each valid and holding its range's aggregate, none sharing a slot array |
| Pipeline.SpawnedSnoc | src/multithreaded.cpp:133-135 | adding a finished worker keeps the workers' tables distinct and built |
| Pipeline.Worker | src/multithreaded.cpp:133-135 | a fresh table filled by `process_chunk` over its range |
| Pipeline.ConcatGrows | src/multithreaded.cpp:142 | later merge steps never lose a name |
| Pipeline.MergeAll | src/multithreaded.cpp:141-175 | after the merge loop the master holds the aggregate of every worker's run in order |
| Pipeline.MergeStep | src/multithreaded.cpp:142-175 | merging table `i` extends the master to the first `i + 1` runs and leaves the later tables untouched |
| Pipeline.Run | src/multithreaded.cpp:109-184 | the multi-threaded program reports every name once, in strictly ascending order, each with the aggregate of its records in the whole buffer |
| Pipeline.RunSingle | src/custom_table.cpp:61-122 | the single-threaded program reports the same as the multi-threaded one |
| Pipeline.Finish | src/multithreaded.cpp:177-184 | compaction and sort give occupied entries in strictly ascending order that stand for the table's aggregate |
| Pipeline.ReportIsTrueStats | src/multithreaded.cpp:186-193 | a name is reported exactly when some record has it, with the true min, max, sum and count of its values |
| OrderedMap.MapFold | src/mapped_memory.cpp:54-89 | the lines applied to the map in order: no name already present is lost |
| OrderedMap.MapApply | src/mapped_memory.cpp:80-86 | `results[city]` and its update add exactly that name |
| OrderedMap.Results.constructor | src/mapped_memory.cpp:46 | the map is empty |
| OrderedMap.Results.Add | src/mapped_memory.cpp:80-86 | the entry, existing or default `{1000, -1000, 0, 0}`, takes the min/max/sum/cnt update; no other entry changes |
| OrderedMap.Results.Scan | src/mapped_memory.cpp:54-89 | on terminated input the map becomes the old map with every line applied in order |
| OrderedMap.Results.Step | src/mapped_memory.cpp:56-88 | one line: key up to `';'`, value up to `'\n'`, one map update, and the cursor moves past the newline |
| OrderedMap.UncheckedValue | src/mapped_memory.cpp:61-78 | the value loop and parse give the line's record |
| OrderedMap.UncheckedSemicolon | src/mapped_memory.cpp:56-59 | the key loop stops at the first `';'` |
| OrderedMap.LinesFramedAt | src/mapped_memory.cpp:56-64 | on terminated input the key and value loops stay in the buffer |
| OrderedMap.LinesAt | src/mapped_memory.cpp:66-88 | a line is the record `[cursor, semicolon)` with the parsed value, followed by the next lines |
| OrderedMap.LinesStep | src/mapped_memory.cpp:56-88 | a line whose `';'` and `'\n'` are found from the cursor is the first record, and the lines after its newline follow |
| OrderedMap.MapFoldStep | src/mapped_memory.cpp:80-88 | the first line is applied first |
| OrderedMap.MapFoldAppend | src/mapped_memory.cpp:54-89 | folding two runs of lines is folding the second into the fold of the first |
| OrderedMap.MapFoldLast | src/mapped_memory.cpp:54-89 | the last line is applied last |
| OrderedMap.MapFoldCounts | src/mapped_memory.cpp:16-21 | whatever the values, the map holds exactly the names seen, each with the exact count and sum of its values |
| OrderedMap.CountsStep | src/mapped_memory.cpp:80-86 | one map update, from the default entry or an existing one, keeps a name's count and sum equal to the number and sum of its values |
| OrderedMap.MapFoldIsFold | src/mapped_memory.cpp:16-21 | for values within -999..999 the default entry acts like a fresh one, so the map equals the tables' aggregate |
| OrderedMap.DefaultLeaks | src/mapped_memory.cpp:17 | a first value of 1001 leaves the default minimum 1000 in the map |
| OrderedMap.MapAgreesWithChunk | src/mapped_memory.cpp:54-89 | on well-formed input the map scanner builds the same aggregate as the table scanners |

## Left out

- Fixed-width integers are unbounded here: `int16_t` temp, min and max, `int32_t` sum and
  `int64_t` cnt. An `int32_t` sum can overflow on a large input; the model does not
  reproduce the wrap-around. The `uint64_t` hash wrap-around is modelled (`KeyHash.WORD`).
- Threads, `std::thread` creation and `join` are left out. `Pipeline.Workers` runs the
  workers one after another on separate tables. The tables share only the read-only buffer,
  so the result is the same.
- `hardware_concurrency()` is an input, `Pipeline.Run`'s `reported`.
- Opening, sizing, mapping and `madvise` of the file are I/O. The buffer is a parameter.
- Timing in mapped_memory.cpp is instrumentation and is left out.
- Printing is left out: the float divisions by 10, the mean and `setprecision`. The
  report's integer min, sum, cnt and max are what feed it.
- `std::map` iteration order (the printing order of mapped_memory.cpp) is not part of this
  model.
- src/base_line.cpp is not part of this model. It uses `double` statistics and stream I/O.
- HashTable.Table.ProcessChunk: requires at most `TABLE_SIZE` distinct names, because the
  probe of a full table loops forever. The same bound appears on `ScanAll`, `MergeFrom`,
  `Run` and `RunSingle`.
- HashTable.Table.ScanAll: requires terminated input (`Framed`). Otherwise the unchecked
  loops read past the buffer; the model does not describe that out-of-bounds read.
- OrderedMap.Results.Scan: requires `LinesFramed` input, for the same reason.
- Pipeline.Run: requires well-formed input. Only then is it proved that no record spans a
  worker boundary; `process_chunk` itself accepts any input.
- Report.SortPrefix: `std::sort` is modelled by its result (the sorted arrangement written
  back), not by its algorithm.
- Report.SortFacts: requires distinct names, which the table invariant provides. Equal
  names would have no strict order.
- Pipeline.Run: the model uses `Partition.Align`, which counts offset 0 as a line start
  (see Findings). It does not reproduce the read of the byte before the buffer.
- HashTable.Table.constructor: the value-initialised table is used for custom_table.cpp
  too (see Findings).

## Findings

| source | as written | input that shows it | evidently intended | confidence | as-written member | corrected member |
|---|---|---|---|---|---|---|
| src/multithreaded.cpp:115-131 | with `chunk_size == 0`, a worker `i > 0` starts at offset 0, and `*(chunk_start - 1)` (`Partition.AlignAsWritten`) reads the byte before the mapped buffer | a 1-byte file with 2 threads | offset 0 counts as a line start, so the boundary stays at 0 | not executed | Partition.ShareOfZeroReadsBefore | Partition.Align |
| src/custom_table.cpp:61 | `Entry table[TABLE_SIZE];` has no initialiser, so `occupied` is indeterminate and a stray slot reads as a name that no record has | the empty file, with slot 0 holding `occupied == true` and an empty name | `Entry table[TABLE_SIZE] = {}` as in multithreaded.cpp | not executed | HashTable.UninitialisedSlotExample | HashTable.Table.constructor |
