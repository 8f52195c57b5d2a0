/** The multi-threaded program end to end: split the buffer at line starts, aggregate each range
    into a table of its own, merge every table into the first, compact it and sort it by name.
    The workers share nothing but the read-only buffer, so running them one after another yields
    what the threads yield. */
module Pipeline {
  import opened Bytes
  import opened KeyHash
  import opened Scanner
  import opened Aggregate
  import opened Slots
  import opened HashTable
  import opened Partition
  import opened Report

  /** `hardware_concurrency()` may report 0; then four workers are used. */
  function ThreadCount(reported: nat): (n: nat)
    ensures n > 0
    ensures reported > 0 ==> n == reported
    ensures reported == 0 ==> n == 4
  {
    if reported == 0 then 4 else reported
  }

  /** The records of each worker's range, one run per worker. */
  function Ranges(buf: seq<byte>, starts: seq<nat>, ends: seq<nat>): (runs: seq<seq<Record>>)
    requires Tiling(buf, starts, ends)
    ensures |runs| == |starts|
  {
    seq(|starts|, k requires 0 <= k < |starts| => Chunk(buf, starts[k], ends[k]))
  }

  /** Record runs laid end to end. */
  function Concat(runs: seq<seq<Record>>): seq<Record> {
    if |runs| == 0 then [] else Concat(runs[..|runs| - 1]) + runs[|runs| - 1]
  }

  /** The names of two record runs together are the names of each. */
  lemma KeySetConcat(buf: seq<byte>, r1: seq<Record>, r2: seq<Record>)
    ensures KeySet(buf, r1 + r2) == KeySet(buf, r1) + KeySet(buf, r2)
  {
    FoldAppend(buf, map[], r1, r2);
    FoldKeys(buf, map[], r1 + r2);
    FoldKeys(buf, map[], r1);
    FoldKeys(buf, Fold(buf, map[], r1), r2);
  }

  /** A well-formed range splits at a line start into two well-formed ranges whose records are
      those of the whole. */
  lemma SplitAtBoundary(buf: seq<byte>, a: nat, b: nat, c: nat)
    requires a <= b <= c <= |buf| && LineStart(buf, b) && WellFormed(buf, a, c)
    ensures WellFormed(buf, a, b) && WellFormed(buf, b, c)
    ensures Chunk(buf, a, c) == Chunk(buf, a, b) + Chunk(buf, b, c)
  {
    if b == a || b == c {
      assert Chunk(buf, b, b) == [];
    } else {
      SplitWellFormed(buf, a, b, c);
      SplitAtLineStart(buf, a, b, c);
    }
  }

  /** The first `i` runs hold exactly the records of the buffer up to where range `i` begins, so
      all runs together hold the records of the whole buffer: no record is lost, split or counted
      twice. */
  lemma {:induction false} RunsAreChunk(buf: seq<byte>, starts: seq<nat>, ends: seq<nat>, i: nat)
    requires Tiling(buf, starts, ends) && i <= |starts| && WellFormed(buf, 0, |buf|)
    ensures Concat(Ranges(buf, starts, ends)[..i]) == Chunk(buf, 0, if i < |starts| then starts[i] else |buf|)
    ensures WellFormed(buf, 0, if i < |starts| then starts[i] else |buf|)
  {
    var runs := Ranges(buf, starts, ends);
    if i > 0 {
      RunsAreChunk(buf, starts, ends, i - 1);
      var s, e := starts[i - 1], ends[i - 1];
      assert e == if i < |starts| then starts[i] else |buf|;
      SplitAtBoundary(buf, 0, e, |buf|);
      RunStep(buf, runs, i, s, e);
    } else {
      assert Chunk(buf, 0, 0) == [];
    }
  }

  /** One more run, starting at the line start `s` where the records so far end, extends them to
      the records before `e`. */
  lemma RunStep(buf: seq<byte>, runs: seq<seq<Record>>, i: nat, s: nat, e: nat)
    requires 0 < i <= |runs| && s <= e <= |buf| && LineStart(buf, s) && WellFormed(buf, 0, e)
    requires Concat(runs[..i - 1]) == Chunk(buf, 0, s) && runs[i - 1] == Chunk(buf, s, e)
    ensures Concat(runs[..i]) == Chunk(buf, 0, e) && WellFormed(buf, 0, s)
  {
    assert runs[..i][..i - 1] == runs[..i - 1];
    SplitAtBoundary(buf, 0, s, e);
  }

  /** The names of one range are names of the whole buffer. */
  lemma RunKeys(buf: seq<byte>, starts: seq<nat>, ends: seq<nat>, i: nat)
    requires Tiling(buf, starts, ends) && i < |starts| && WellFormed(buf, 0, |buf|)
    ensures KeySet(buf, Chunk(buf, starts[i], ends[i])) <= KeySet(buf, Chunk(buf, 0, |buf|))
  {
    var runs := Ranges(buf, starts, ends);
    RunsAreChunk(buf, starts, ends, i + 1);
    assert runs[..i + 1][..i] == runs[..i];
    var e := ends[i];
    assert e == if i + 1 < |starts| then starts[i + 1] else |buf|;
    SplitAtBoundary(buf, 0, e, |buf|);
    KeySetConcat(buf, Chunk(buf, 0, e), Chunk(buf, e, |buf|));
    KeySetConcat(buf, Concat(runs[..i]), runs[i]);
  }

  /** The workers' runs laid end to end are the records of the whole buffer. */
  lemma RangesWhole(buf: seq<byte>, starts: seq<nat>, ends: seq<nat>)
    requires Tiling(buf, starts, ends) && WellFormed(buf, 0, |buf|)
    ensures Concat(Ranges(buf, starts, ends)) == Chunk(buf, 0, |buf|)
  {
    var runs := Ranges(buf, starts, ends);
    RunsAreChunk(buf, starts, ends, |starts|);
    assert runs[..|starts|] == runs;
  }

  /** A table bound of the whole input bounds every aggregate built from part of it. */
  lemma BoundedKeys(buf: seq<byte>, rs: seq<Record>, whole: seq<Record>)
    requires KeySet(buf, rs) <= KeySet(buf, whole) && |KeySet(buf, whole)| <= TABLE_SIZE
    ensures |Fold(buf, map[], rs).Keys| <= TABLE_SIZE
  {
    FoldKeys(buf, map[], rs);
    SubsetCard(KeySet(buf, rs), KeySet(buf, whole));
  }

  /** `t` is a valid table over `buf` that stands for `c`. */
  ghost predicate Built(t: Table, buf: seq<byte>, c: Summary)
    reads t, t.slots
  {
    t.buf == buf && t.Valid() && t.Contents() == c
  }

  /** What each worker is to build: the aggregate of its own run. */
  function Wants(buf: seq<byte>, runs: seq<seq<Record>>): (w: seq<Summary>)
    ensures |w| == |runs|
  {
    seq(|runs|, k requires 0 <= k < |runs| => Fold(buf, map[], runs[k]))
  }

  /** The worker phase: one fresh table per range, each filled by `process_chunk`. */
  method Workers(buf: seq<byte>, starts: seq<nat>, ends: seq<nat>) returns (tables: seq<Table>)
    requires Tiling(buf, starts, ends) && WellFormed(buf, 0, |buf|)
    requires |KeySet(buf, Chunk(buf, 0, |buf|))| <= TABLE_SIZE
    ensures |tables| == |starts|
    ensures forall i :: 0 <= i < |tables| ==> fresh(tables[i].slots)
    ensures Spawned(buf, tables, Wants(buf, Ranges(buf, starts, ends)))
  {
    ghost var want := Wants(buf, Ranges(buf, starts, ends));
    tables := [];
    var i := 0;
    while i < |starts|
      invariant 0 <= i <= |starts| && |tables| == i
      invariant forall k :: 0 <= k < i ==> fresh(tables[k].slots)
      invariant Spawned(buf, tables, want)
    {
      var t := Worker(buf, starts, ends, i);
      assert Built(t, buf, want[i]);
      SpawnedSnoc(buf, tables, want, t);
      tables := tables + [t];
      i := i + 1;
    }
  }

  /** The first `|tables|` workers are done: table `k` is valid, stands for `want[k]`, and owns its
      own slot array. */
  ghost predicate Spawned(buf: seq<byte>, tables: seq<Table>, want: seq<Summary>)
    reads set k | 0 <= k < |tables| :: tables[k]
    reads set k | 0 <= k < |tables| :: tables[k].slots
  {
    |tables| <= |want| &&
    (forall k :: 0 <= k < |tables| ==> Built(tables[k], buf, want[k])) &&
    forall k, l :: 0 <= k < l < |tables| ==> tables[k].slots != tables[l].slots
  }

  lemma SpawnedSnoc(buf: seq<byte>, tables: seq<Table>, want: seq<Summary>, t: Table)
    requires Spawned(buf, tables, want) && |tables| < |want| && Built(t, buf, want[|tables|])
    requires forall k :: 0 <= k < |tables| ==> tables[k].slots != t.slots
    ensures Spawned(buf, tables + [t], want)
  {
    var ts := tables + [t];
    forall k | 0 <= k < |tables| ensures ts[k] == tables[k] {
    }
  }

  /** Worker `i`: a fresh table and `process_chunk` over range `i`. */
  method Worker(buf: seq<byte>, starts: seq<nat>, ends: seq<nat>, i: nat) returns (t: Table)
    requires Tiling(buf, starts, ends) && i < |starts| && WellFormed(buf, 0, |buf|)
    requires |KeySet(buf, Chunk(buf, 0, |buf|))| <= TABLE_SIZE
    ensures fresh(t.slots) && Built(t, buf, Fold(buf, map[], Chunk(buf, starts[i], ends[i])))
  {
    RunKeys(buf, starts, ends, i);
    BoundedKeys(buf, Chunk(buf, starts[i], ends[i]), Chunk(buf, 0, |buf|));
    t := new Table(buf);
    t.ProcessChunk(starts[i], ends[i]);
  }

  /** Laying more runs end to end never loses a name. */
  lemma {:induction false} ConcatGrows(buf: seq<byte>, runs: seq<seq<Record>>, i: nat, j: nat)
    requires i <= j <= |runs|
    ensures KeySet(buf, Concat(runs[..i])) <= KeySet(buf, Concat(runs[..j]))
    decreases j
  {
    if i < j {
      ConcatGrows(buf, runs, i, j - 1);
      assert runs[..j][..j - 1] == runs[..j - 1];
      KeySetConcat(buf, Concat(runs[..j - 1]), runs[j - 1]);
    }
  }

  /** The merge phase: every other table merged into the first, in order. The first table then
      holds the aggregate of all workers' runs, one after another. */
  method MergeAll(buf: seq<byte>, tables: seq<Table>, ghost runs: seq<seq<Record>>)
    requires 0 < |tables| == |runs| && Spawned(buf, tables, Wants(buf, runs))
    requires |KeySet(buf, Concat(runs))| <= TABLE_SIZE
    modifies tables[0].slots
    ensures Built(tables[0], buf, Fold(buf, map[], Concat(runs)))
  {
    assert runs[..1][..0] == [] && [] + runs[0] == runs[0];
    assert Built(tables[0], buf, Fold(buf, map[], Concat(runs[..1])));
    assert Pending(buf, tables, Wants(buf, runs), 1);
    var i := 1;
    while i < |tables|
      invariant 1 <= i <= |tables|
      invariant Built(tables[0], buf, Fold(buf, map[], Concat(runs[..i])))
      invariant Pending(buf, tables, Wants(buf, runs), i)
    {
      MergeStep(buf, tables, runs, i);
      i := i + 1;
    }
    assert runs[..i] == runs;
  }

  /** The tables from `i` on are not merged yet: each still stands for its part and owns a slot
      array other than the first table's. */
  ghost predicate Pending(buf: seq<byte>, tables: seq<Table>, parts: seq<Summary>, i: nat)
    requires 0 < |tables|
    reads set k | i <= k < |tables| :: tables[k]
    reads set k | i <= k < |tables| :: tables[k].slots
  {
    |tables| <= |parts| &&
    forall k :: i <= k < |tables| ==> Built(tables[k], buf, parts[k]) && tables[k].slots != tables[0].slots
  }

  /** One iteration of the merge phase: table `i` into the first. */
  method MergeStep(buf: seq<byte>, tables: seq<Table>, ghost runs: seq<seq<Record>>, i: nat)
    requires 0 < i < |tables| == |runs| && Pending(buf, tables, Wants(buf, runs), i)
    requires Built(tables[0], buf, Fold(buf, map[], Concat(runs[..i])))
    requires |KeySet(buf, Concat(runs))| <= TABLE_SIZE
    modifies tables[0].slots
    ensures Built(tables[0], buf, Fold(buf, map[], Concat(runs[..i + 1])))
    ensures Pending(buf, tables, Wants(buf, runs), i + 1)
  {
    assert Built(tables[i], buf, Fold(buf, map[], runs[i]));
    assert runs[..i + 1][..i] == runs[..i];
    AggregateConcat(buf, Concat(runs[..i]), runs[i]);
    ConcatGrows(buf, runs, i + 1, |runs|);
    assert runs[..|runs|] == runs;
    BoundedKeys(buf, Concat(runs[..i + 1]), Concat(runs));
    tables[0].MergeFrom(tables[i]);
  }

  /** `main` of the multi-threaded program, from the mapped buffer to the entries it prints: the
      report holds one entry per name of the input, in strictly ascending name order, and the
      entry of each name carries the aggregate of that name's records. */
  method Run(buf: seq<byte>, reported: nat) returns (report: seq<Entry>)
    requires WellFormed(buf, 0, |buf|) && |KeySet(buf, Chunk(buf, 0, |buf|))| <= TABLE_SIZE
    ensures forall i :: 0 <= i < |report| ==> report[i].occupied
    ensures SortedByName(buf, report)
    ensures ContentsOf(buf, report) == Fold(buf, map[], Chunk(buf, 0, |buf|))
  {
    var n := ThreadCount(reported);
    var starts, ends := Split(buf, n);
    var tables := Workers(buf, starts, ends);
    RangesWhole(buf, starts, ends);
    MergeAll(buf, tables, Ranges(buf, starts, ends));
    report := Finish(buf, tables[0]);
  }

  /** `main` of custom_table.cpp: one table over the whole buffer with the unchecked scan, then the
      same compaction and sort. Its report is the multi-threaded program's report. */
  method RunSingle(buf: seq<byte>) returns (report: seq<Entry>)
    requires Framed(buf, 0, |buf|) && |KeySet(buf, Chunk(buf, 0, |buf|))| <= TABLE_SIZE
    ensures forall i :: 0 <= i < |report| ==> report[i].occupied
    ensures SortedByName(buf, report)
    ensures ContentsOf(buf, report) == Fold(buf, map[], Chunk(buf, 0, |buf|))
  {
    var t := new Table(buf);
    BoundedKeys(buf, Chunk(buf, 0, |buf|), Chunk(buf, 0, |buf|));
    t.ScanAll();
    report := Finish(buf, t);
  }

  /** Compaction and sort of a finished table. */
  method Finish(buf: seq<byte>, t: Table) returns (report: seq<Entry>)
    requires t.Valid() && t.buf == buf
    modifies t.slots
    ensures forall i :: 0 <= i < |report| ==> report[i].occupied
    ensures SortedByName(buf, report)
    ensures ContentsOf(buf, report) == old(t.Contents())
  {
    ghost var s := t.slots[..];
    var count := Compact(t.slots);
    OccupiedContents(buf, s);
    OccupiedShape(s);
    OccupiedDistinct(buf, s);
    SortFacts(buf, Occupied(s));
    SortContents(buf, Occupied(s));
    SortPrefix(buf, t.slots, count);
    report := t.slots[..count];
    forall i | 0 <= i < |report| ensures report[i].occupied {
      assert report[i] in multiset(Occupied(s));
    }
  }

  /** What the report means record by record: a name is reported exactly when some record has
      it, and its entry holds the minimum, maximum, sum and number of that name's values. */
  lemma ReportIsTrueStats(buf: seq<byte>, report: seq<Entry>, k: seq<byte>)
    requires ContentsOf(buf, report) == Fold(buf, map[], Chunk(buf, 0, |buf|))
    ensures k in ContentsOf(buf, report) <==> |ValuesOf(buf, Chunk(buf, 0, |buf|), k)| > 0
    ensures k in ContentsOf(buf, report) ==>
              ContentsOf(buf, report)[k] == TrueStats(ValuesOf(buf, Chunk(buf, 0, |buf|), k))
  {
    FoldIsTrueStats(buf, Chunk(buf, 0, |buf|), k);
  }
}
