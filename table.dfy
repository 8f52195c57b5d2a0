/** The fixed-capacity open-addressing aggregation table (`Entry table[TABLE_SIZE]`) with the
    operations that fill it: `update_stats`, the scan loops that drive it, and the merge. */
module HashTable {
  import opened Bytes
  import opened KeyHash
  import opened ValueParser
  import opened Scanner
  import opened Aggregate
  import opened Slots

  class Table {
    /** The memory-mapped input every key slice of this table views. */
    const buf: seq<byte>
    const slots: array<Entry>

    ghost predicate Valid()
      reads this, slots
    {
      slots.Length == TABLE_SIZE && TableInv(buf, slots[..])
    }

    /** The table read as a map from name bytes to statistics. */
    ghost function Contents(): Summary
      reads this, slots
    {
      ContentsOf(buf, slots[..])
    }

    /** A value-initialised table (`ThreadResult` holds `Entry table[TABLE_SIZE] = {}`). */
    constructor (buf: seq<byte>)
      ensures Valid() && fresh(slots) && this.buf == buf
      ensures forall i :: 0 <= i < slots.Length ==> !slots[i].occupied
      ensures Contents() == map[] && CountSum(slots[..]) == 0
    {
      this.buf := buf;
      slots := new Entry[TABLE_SIZE](_ => EMPTY);
      new;
      EmptyContents(buf, slots[..]);
    }

    /** The linear probe: from `hash % TABLE_SIZE`, step to the next slot (wrapping) while the slot
        is occupied by another name. It terminates because some slot is free or holds `key`. */
    method FindSlot(key: seq<byte>, hash: nat) returns (idx: nat)
      requires slots.Length == TABLE_SIZE && hash == Hash(key)
      requires exists i :: 0 <= i < slots.Length && Stops(buf, slots[i], key)
      ensures IsProbeTarget(buf, slots[..], key, idx)
    {
      idx := hash % TABLE_SIZE;
      ghost var h := idx;
      ghost var t :| 0 <= t < slots.Length && Stops(buf, slots[t], key);
      ghost var k := 0;
      while slots[idx].occupied && NameOf(buf, slots[idx]) != key
        invariant k <= Dist(h, t) && idx == Wrap(h, k)
        invariant forall j :: 0 <= j < k ==> !Stops(buf, slots[Wrap(h, j)], key)
        decreases Dist(h, t) - k
      {
        idx := (idx + 1) % TABLE_SIZE;
        k := k + 1;
      }
      DistWrap(h, k);
    }

    /** `update_stats`: the first sight of a name occupies the slot its probe stops at with
        `{temp, temp, temp, 1}`; a later sight updates min, max, sum and cnt in that slot. */
    method Upsert(name: Slice, temp: int, hash: nat)
      requires Valid() && hash == Hash(View(buf, name))
      requires exists i :: 0 <= i < slots.Length && Stops(buf, slots[i], View(buf, name))
      modifies slots
      ensures Valid()
      ensures exists idx: nat :: (IsProbeTarget(buf, old(slots[..]), View(buf, name), idx) &&
        slots[..] == old(slots[..])[idx := Placed(old(slots[..])[idx], name, temp)])
      ensures Contents() == Apply(old(Contents()), View(buf, name), temp)
      ensures CountSum(slots[..]) == old(CountSum(slots[..])) + 1
    {
      var key := View(buf, name);
      var idx := FindSlot(key, hash);
      ghost var s := slots[..];
      var e: Entry;
      if !slots[idx].occupied {
        e := Entry(name, Init(temp), true);
        ProbeAbsent(buf, s, key, idx);
        if key in ContentsOf(buf, s) {
          ContentsKeys(buf, s, key);
          assert false;
        }
      } else {
        var st := slots[idx].stats;
        if temp < st.min {
          st := st.(min := temp);
        }
        if temp > st.max {
          st := st.(max := temp);
        }
        st := st.(sum := st.sum + temp, cnt := st.cnt + 1);
        e := slots[idx].(stats := st);
        ContentsHas(buf, s, idx);
      }
      assert e == Placed(s[idx], name, temp);
      WriteAtTarget(buf, s, key, idx, e);
      CountSumUpdate(s, idx, e);
      slots[idx] := e;
      assert slots[..] == s[idx := e];
    }

    /** The body of the merge loop for one occupied worker slot `e`: probe for its name; copy `e`
        into a free slot, or combine min, max, sum and cnt with the slot holding the name. */
    method MergeEntry(e: Entry, hash: nat)
      requires Valid() && e.occupied && hash == Hash(NameOf(buf, e))
      requires exists i :: 0 <= i < slots.Length && Stops(buf, slots[i], NameOf(buf, e))
      modifies slots
      ensures Valid()
      ensures exists idx: nat :: (IsProbeTarget(buf, old(slots[..]), NameOf(buf, e), idx) &&
        slots[..] == old(slots[..])[idx := Absorbed(old(slots[..])[idx], e)])
      ensures Contents() == Absorb(old(Contents()), NameOf(buf, e), e.stats)
      ensures CountSum(slots[..]) == old(CountSum(slots[..])) + e.stats.cnt
    {
      var key := NameOf(buf, e);
      var idx := FindSlot(key, hash);
      ghost var s := slots[..];
      var f: Entry;
      if !slots[idx].occupied {
        f := e;
        ProbeAbsent(buf, s, key, idx);
        if key in ContentsOf(buf, s) {
          ContentsKeys(buf, s, key);
          assert false;
        }
      } else {
        var st := slots[idx].stats;
        if e.stats.min < st.min {
          st := st.(min := e.stats.min);
        }
        if e.stats.max > st.max {
          st := st.(max := e.stats.max);
        }
        st := st.(sum := st.sum + e.stats.sum, cnt := st.cnt + e.stats.cnt);
        f := slots[idx].(stats := st);
        ContentsHas(buf, s, idx);
      }
      assert f == Absorbed(s[idx], e);
      WriteAtTarget(buf, s, key, idx, f);
      CountSumUpdate(s, idx, f);
      slots[idx] := f;
      assert slots[..] == s[idx := f];
    }

    /** A name whose probe has somewhere to stop: it is present, or the table has fewer names
        than slots. */
    lemma RoomFor(key: seq<byte>, bound: set<seq<byte>>)
      requires Valid()
      requires Contents().Keys + {key} <= bound && |bound| <= TABLE_SIZE
      ensures exists i :: 0 <= i < slots.Length && Stops(buf, slots[i], key)
    {
      if key in Contents() {
        ContentsKeys(buf, slots[..], key);
      } else {
        SubsetCard(Contents().Keys + {key}, bound);
        FreeSlot(buf, slots[..]);
      }
    }

    /** The merge of a worker table into this (master) table: every occupied slot of `other`, in
        slot order, is absorbed. Afterwards every name has the combined statistics of both
        tables, and the counts add up. */
    method MergeFrom(other: Table)
      requires Valid() && other.Valid() && other.buf == buf && other.slots != slots
      requires |Combine(Contents(), other.Contents()).Keys| <= TABLE_SIZE
      modifies slots
      ensures Valid()
      ensures Contents() == Combine(old(Contents()), other.Contents())
      ensures CountSum(slots[..]) == old(CountSum(slots[..])) + CountSum(other.slots[..])
    {
      ghost var c0 := Contents();
      ghost var n0 := CountSum(slots[..]);
      ghost var o := other.slots[..];
      ghost var bound := c0.Keys + ContentsOf(buf, o).Keys;
      var j := 0;
      while j < TABLE_SIZE
        invariant 0 <= j <= TABLE_SIZE
        invariant Valid() && other.slots[..] == o
        invariant Contents() == AbsorbSlots(buf, c0, o[..j])
        invariant CountSum(slots[..]) == n0 + CountSum(o[..j])
      {
        MergeSlot(other, j, c0, n0, o, bound);
        j := j + 1;
      }
      assert o[..TABLE_SIZE] == o;
      AbsorbSlotsIsCombine(buf, c0, o);
    }

    /** One iteration of the merge loop: slot `j` of `other`, whose slots are `o`. */
    method MergeSlot(other: Table, j: nat, ghost c0: Summary, ghost n0: int, ghost o: seq<Entry>,
                     ghost bound: set<seq<byte>>)
      requires Valid() && other.buf == buf && other.slots != slots
      requires o == other.slots[..] && Distinct(buf, o) && j < |o|
      requires bound == c0.Keys + ContentsOf(buf, o).Keys && |bound| <= TABLE_SIZE
      requires Contents() == AbsorbSlots(buf, c0, o[..j])
      requires CountSum(slots[..]) == n0 + CountSum(o[..j])
      modifies slots
      ensures Valid()
      ensures Contents() == AbsorbSlots(buf, c0, o[..j + 1])
      ensures CountSum(slots[..]) == n0 + CountSum(o[..j + 1])
    {
      ContentsExtend(buf, o, j);
      assert o[..j + 1][..j] == o[..j];
      if other.slots[j].occupied {
        var e := other.slots[j];
        var hash := HashOf(View(buf, e.name));
        AbsorbSlotsKeys(buf, c0, o[..j]);
        PrefixKeys(buf, o, j);
        ContentsHas(buf, o, j);
        RoomFor(NameOf(buf, e), bound);
        MergeEntry(e, hash);
      }
    }

    /** `process_chunk`: scan `[start, end)` record by record and upsert every record, with the
        bounds checks of the multi-threaded version. The table afterwards holds the old contents
        folded with exactly the records `Chunk` yields, and one count per record. */
    method ProcessChunk(start: nat, end: nat)
      requires Valid() && start <= end <= |buf|
      requires |Fold(buf, Contents(), Chunk(buf, start, end)).Keys| <= TABLE_SIZE
      modifies slots
      ensures Valid()
      ensures Contents() == Fold(buf, old(Contents()), Chunk(buf, start, end))
      ensures CountSum(slots[..]) == old(CountSum(slots[..])) + |Chunk(buf, start, end)|
    {
      ghost var goal := Fold(buf, Contents(), Chunk(buf, start, end));
      ghost var total := CountSum(slots[..]) + |Chunk(buf, start, end)|;
      var cursor := start;
      while cursor < end
        invariant start <= cursor <= end + 1
        invariant Valid()
        invariant Fold(buf, Contents(), Chunk(buf, cursor, end)) == goal
        invariant CountSum(slots[..]) + |Chunk(buf, cursor, end)| == total
        decreases end - cursor
      {
        var next, stop := Step(cursor, end);
        if stop {
          break;
        }
        cursor := next;
      }
    }

    /** One pass of the `process_chunk` loop body at `cursor`: step over a skipped byte, stop when
        no `';'` is left before `end`, or parse one record and upsert it, resuming after its
        newline. */
    method Step(cursor: nat, end: nat) returns (next: nat, stop: bool)
      requires Valid() && cursor < end <= |buf|
      requires |Fold(buf, Contents(), Chunk(buf, cursor, end)).Keys| <= TABLE_SIZE
      modifies slots
      ensures Valid() && cursor < next <= end + 1
      ensures stop ==> Chunk(buf, cursor, end) == [] && slots[..] == old(slots[..])
      ensures !stop ==> Fold(buf, Contents(), Chunk(buf, next, end)) ==
                        Fold(buf, old(Contents()), Chunk(buf, cursor, end))
      ensures !stop ==> CountSum(slots[..]) + |Chunk(buf, next, end)| ==
                        old(CountSum(slots[..])) + |Chunk(buf, cursor, end)|
    {
      if buf[cursor] == NL || buf[cursor] == CR || buf[cursor] == SP {
        ChunkSkip(buf, cursor, end);
        return cursor + 1, false;
      }
      var semicolon, hash := KeyScan(buf, cursor, end);
      if semicolon >= end {
        ChunkUnterminated(buf, cursor, end);
        return end, true;
      }
      var temp;
      temp, next := ValueScan(buf, cursor, semicolon, end);
      Take(Record(Slice(cursor, semicolon - cursor), temp), hash, cursor, next, end);
      stop := false;
    }

    /** The `update_stats` call of a loop body: record `r`, the first of the range at `cursor`,
        goes into the table, and the records from `next` on remain to be folded. */
    method Take(r: Record, hash: nat, cursor: nat, next: nat, end: nat)
      requires Valid() && hash == Hash(View(buf, r.key)) && end <= |buf|
      requires Chunk(buf, cursor, end) == [r] + Chunk(buf, next, end)
      requires |Fold(buf, Contents(), Chunk(buf, cursor, end)).Keys| <= TABLE_SIZE
      modifies slots
      ensures Valid()
      ensures Fold(buf, Contents(), Chunk(buf, next, end)) == Fold(buf, old(Contents()), Chunk(buf, cursor, end))
      ensures CountSum(slots[..]) + |Chunk(buf, next, end)| ==
              old(CountSum(slots[..])) + |Chunk(buf, cursor, end)|
    {
      ghost var rest := Chunk(buf, next, end);
      FoldStep(buf, Contents(), r, rest);
      RoomFor(View(buf, r.key), Fold(buf, Contents(), [r] + rest).Keys);
      Upsert(r.key, r.temp, hash);
    }

    /** The scan loop of the single-threaded version over the whole buffer: the same records as
        `process_chunk`, but its key and value loops look for `';'` and `'\n'` without checking
        the end of the buffer, so it demands input where every record is terminated. */
    method ScanAll()
      requires Valid() && Framed(buf, 0, |buf|)
      requires |Fold(buf, Contents(), Chunk(buf, 0, |buf|)).Keys| <= TABLE_SIZE
      modifies slots
      ensures Valid()
      ensures Contents() == Fold(buf, old(Contents()), Chunk(buf, 0, |buf|))
      ensures CountSum(slots[..]) == old(CountSum(slots[..])) + |Chunk(buf, 0, |buf|)|
    {
      ghost var goal := Fold(buf, Contents(), Chunk(buf, 0, |buf|));
      ghost var total := CountSum(slots[..]) + |Chunk(buf, 0, |buf|)|;
      var cursor := 0;
      while cursor < |buf|
        invariant cursor <= |buf| && Framed(buf, cursor, |buf|)
        invariant Valid()
        invariant Fold(buf, Contents(), Chunk(buf, cursor, |buf|)) == goal
        invariant CountSum(slots[..]) + |Chunk(buf, cursor, |buf|)| == total
        decreases |buf| - cursor
      {
        cursor := UncheckedStep(cursor);
      }
    }

    /** One pass of the single-threaded loop body at `cursor`. */
    method UncheckedStep(cursor: nat) returns (next: nat)
      requires Valid() && cursor < |buf| && Framed(buf, cursor, |buf|)
      requires |Fold(buf, Contents(), Chunk(buf, cursor, |buf|)).Keys| <= TABLE_SIZE
      modifies slots
      ensures Valid() && cursor < next <= |buf| && Framed(buf, next, |buf|)
      ensures Fold(buf, Contents(), Chunk(buf, next, |buf|)) ==
              Fold(buf, old(Contents()), Chunk(buf, cursor, |buf|))
      ensures CountSum(slots[..]) + |Chunk(buf, next, |buf|)| ==
              old(CountSum(slots[..])) + |Chunk(buf, cursor, |buf|)|
    {
      if buf[cursor] == NL || buf[cursor] == CR || buf[cursor] == SP {
        ChunkSkip(buf, cursor, |buf|);
        FramedSkip(buf, cursor, |buf|);
        return cursor + 1;
      }
      var semicolon, hash := UncheckedKeyScan(buf, cursor);
      var temp;
      temp, next := UncheckedValueScan(buf, cursor, semicolon);
      Take(Record(Slice(cursor, semicolon - cursor), temp), hash, cursor, next, |buf|);
    }
  }

  /** The unchecked rest of the loop body: the value runs to the `'\n'` the input is known to hold. */
  method UncheckedValueScan(buf: seq<byte>, cursor: nat, semicolon: nat) returns (temp: int, next: nat)
    requires cursor < |buf| && !IsSkip(buf[cursor]) && Framed(buf, cursor, |buf|)
    requires semicolon == Find(buf, cursor, |buf|, SEMI)
    ensures semicolon < next <= |buf| && Framed(buf, next, |buf|)
    ensures Chunk(buf, cursor, |buf|) ==
            [Record(Slice(cursor, semicolon - cursor), temp)] + Chunk(buf, next, |buf|)
  {
    FramedAt(buf, cursor, |buf|);
    var newline := UncheckedLineEnd(buf, semicolon + 1);
    temp := ParseTemp(buf, semicolon + 1, newline);
    ChunkAt(buf, cursor, |buf|, semicolon, newline, temp);
    next := newline + 1;
  }

  /** The unchecked key loop: up to the `';'` that the input is known to hold. */
  method UncheckedKeyScan(buf: seq<byte>, cursor: nat) returns (semicolon: nat, hash: nat)
    requires cursor <= |buf| && Find(buf, cursor, |buf|, SEMI) < |buf|
    ensures semicolon == Find(buf, cursor, |buf|, SEMI)
    ensures hash == Hash(View(buf, Slice(cursor, semicolon - cursor)))
  {
    ghost var s := Find(buf, cursor, |buf|, SEMI);
    hash := 0;
    semicolon := cursor;
    while buf[semicolon] != SEMI
      invariant cursor <= semicolon <= s
      invariant hash == HashRange(buf, cursor, semicolon)
      invariant forall i :: cursor <= i < semicolon ==> buf[i] != SEMI
      decreases s - semicolon
    {
      hash := (hash * 31 + buf[semicolon] as int) % WORD;
      semicolon := semicolon + 1;
    }
    FindIs(buf, cursor, |buf|, SEMI, semicolon);
    HashRangeSlice(buf, cursor, semicolon);
  }

  /** The unchecked value loop: up to the `'\n'` that the input is known to hold. */
  method UncheckedLineEnd(buf: seq<byte>, from: nat) returns (newline: nat)
    requires from <= |buf| && Find(buf, from, |buf|, NL) < |buf|
    ensures newline == Find(buf, from, |buf|, NL)
  {
    ghost var n := Find(buf, from, |buf|, NL);
    newline := from;
    while buf[newline] != NL
      invariant from <= newline <= n
      invariant forall i :: from <= i < newline ==> buf[i] != NL
      decreases n - newline
    {
      newline := newline + 1;
    }
    FindIs(buf, from, |buf|, NL, newline);
  }


  /** The rest of the `process_chunk` loop body once the key ends at `semicolon`: the value runs
      to the next `'\n'` before `end` and is parsed; scanning resumes after that newline. */
  method ValueScan(buf: seq<byte>, cursor: nat, semicolon: nat, end: nat) returns (temp: int, next: nat)
    requires cursor < end <= |buf| && !IsSkip(buf[cursor])
    requires semicolon == Find(buf, cursor, end, SEMI) && semicolon < end
    ensures semicolon < next <= end + 1
    ensures Chunk(buf, cursor, end) ==
            [Record(Slice(cursor, semicolon - cursor), temp)] + Chunk(buf, next, end)
  {
    var newline := LineEnd(buf, semicolon + 1, end);
    temp := ParseTemp(buf, semicolon + 1, newline);
    ChunkAt(buf, cursor, end, semicolon, newline, temp);
    next := newline + 1;
  }

  /** The key loop of `process_chunk`: up to the first `';'` before `end`, hashing every byte. */
  method KeyScan(buf: seq<byte>, cursor: nat, end: nat) returns (semicolon: nat, hash: nat)
    requires cursor <= end <= |buf|
    ensures semicolon == Find(buf, cursor, end, SEMI)
    ensures hash == Hash(View(buf, Slice(cursor, semicolon - cursor)))
  {
    hash := 0;
    semicolon := cursor;
    while semicolon < end && buf[semicolon] != SEMI
      invariant cursor <= semicolon <= end
      invariant hash == HashRange(buf, cursor, semicolon)
      invariant forall i :: cursor <= i < semicolon ==> buf[i] != SEMI
    {
      hash := (hash * 31 + buf[semicolon] as int) % WORD;
      semicolon := semicolon + 1;
    }
    FindIs(buf, cursor, end, SEMI, semicolon);
    HashRangeSlice(buf, cursor, semicolon);
  }

  /** The value loop of `process_chunk`: up to the first `'\n'` before `end`. */
  method LineEnd(buf: seq<byte>, from: nat, end: nat) returns (newline: nat)
    requires from <= end <= |buf|
    ensures newline == Find(buf, from, end, NL)
  {
    newline := from;
    while newline < end && buf[newline] != NL
      invariant from <= newline <= end
      invariant forall i :: from <= i < newline ==> buf[i] != NL
    {
      newline := newline + 1;
    }
    FindIs(buf, from, end, NL, newline);
  }

  /** Folding a record sequence that starts with `r`: `r` is applied first, and its name is among
      the keys of the result. */
  lemma FoldStep(buf: seq<byte>, m: Summary, r: Record, rest: seq<Record>)
    ensures Fold(buf, m, [r] + rest) == Fold(buf, Apply(m, View(buf, r.key), r.temp), rest)
    ensures m.Keys + {View(buf, r.key)} <= Fold(buf, m, [r] + rest).Keys
  {
    assert ([r] + rest)[1..] == rest;
    FoldKeys(buf, Apply(m, View(buf, r.key), r.temp), rest);
  }

  lemma EmptyContents(buf: seq<byte>, s: seq<Entry>)
    requires |s| == TABLE_SIZE && forall i :: 0 <= i < |s| ==> !s[i].occupied
    ensures TableInv(buf, s) && ContentsOf(buf, s) == map[] && CountSum(s) == 0
  {
    EmptyPrefix(buf, s, |s|);
    assert s[..|s|] == s;
  }

  lemma {:induction false} EmptyPrefix(buf: seq<byte>, s: seq<Entry>, n: nat)
    requires n <= |s| && forall i :: 0 <= i < |s| ==> !s[i].occupied
    ensures ContentsOf(buf, s[..n]) == map[] && CountSum(s[..n]) == 0
  {
    if n > 0 {
      EmptyPrefix(buf, s, n - 1);
      assert s[..n][..n - 1] == s[..n - 1];
    }
  }

  /** A slot that is occupied before the scan starts keeps its name through any sequence of
      records: scanning adds keys, it never removes one. */
  lemma StraySlotSurvives(buf: seq<byte>, s: seq<Entry>, i: nat, rs: seq<Record>)
    requires Distinct(buf, s) && i < |s| && s[i].occupied
    ensures NameOf(buf, s[i]) in Fold(buf, ContentsOf(buf, s), rs)
  {
    ContentsHas(buf, s, i);
    FoldKeys(buf, ContentsOf(buf, s), rs);
  }

  /** custom_table.cpp declares its table without an initialiser, so `occupied` starts
      indeterminate. One such start: slot 0 reads as occupied with an empty name. It is a valid
      table, and scanning the empty input from it reports that name although no record has it. */
  lemma UninitialisedSlotExample()
    ensures var s := seq(TABLE_SIZE, k => if k == 0 then Entry(Slice(0, 0), Stats(0, 0, 0, 0), true) else EMPTY);
            TableInv([], s) && Chunk([], 0, 0) == [] &&
            [] in Fold([], ContentsOf([], s), Chunk([], 0, 0)) && Fold([], map[], Chunk([], 0, 0)) == map[]
  {
    var s := seq(TABLE_SIZE, k => if k == 0 then Entry(Slice(0, 0), Stats(0, 0, 0, 0), true) else EMPTY);
    assert Home([]) == 0;
    assert Reachable([], s, 0);
    StraySlotSurvives([], s, 0, []);
  }
}
