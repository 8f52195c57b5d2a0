/** The single-threaded scanner over an ordered map (mapped_memory.cpp): every line is a record,
    `results[city]` creates a default entry `{1000, -1000, 0, 0}` for a new name, and the entry is
    then updated with the same comparisons as `update_stats`. */
module OrderedMap {
  import opened Bytes
  import opened Scanner
  import opened ValueParser
  import opened Aggregate
  import opened HashTable

  /** The value-initialised `Stats` of mapped_memory.cpp. */
  const DEFAULT: Stats := Stats(1000, -1000, 0, 0)

  /** One record into the map: the existing entry, or the default one, takes one more value. */
  function MapApply(m: Summary, k: seq<byte>, t: int): (r: Summary)
    ensures r.Keys == m.Keys + {k}
  {
    m[k := Update(if k in m then m[k] else DEFAULT, t)]
  }

  function MapFold(buf: seq<byte>, m: Summary, rs: seq<Record>): (r: Summary)
    ensures m.Keys <= r.Keys
    decreases |rs|
  {
    if |rs| == 0 then m else MapFold(buf, MapApply(m, View(buf, rs[0].key), rs[0].temp), rs[1..])
  }

  /** The `std::map` of results, keyed by the bytes of the name. */
  class Results {
    const buf: seq<byte>
    var results: Summary

    constructor(buf: seq<byte>)
      ensures this.buf == buf && results == map[]
    {
      this.buf := buf;
      results := map[];
    }

    /** `auto &s = results[city]` followed by the min, max, sum and cnt updates. */
    method Add(city: seq<byte>, temp: int)
      modifies this
      ensures results == MapApply(old(results), city, temp)
    {
      var s := if city in results then results[city] else DEFAULT;
      if temp < s.min {
        s := s.(min := temp);
      }
      if temp > s.max {
        s := s.(max := temp);
      }
      s := s.(sum := s.sum + temp, cnt := s.cnt + 1);
      results := results[city := s];
    }

    /** The main loop: no byte is skipped and neither inner loop checks the end of the buffer, so
        the input must end every record with a `'\n'`. The map afterwards is the old map with
        every line of the buffer applied in order. */
    method Scan()
      requires LinesFramed(buf, 0, |buf|)
      modifies this
      ensures results == MapFold(buf, old(results), Lines(buf, 0, |buf|))
    {
      ghost var goal := MapFold(buf, results, Lines(buf, 0, |buf|));
      var cursor := 0;
      while cursor < |buf|
        invariant cursor <= |buf| && LinesFramed(buf, cursor, |buf|)
        invariant MapFold(buf, results, Lines(buf, cursor, |buf|)) == goal
        decreases |buf| - cursor
      {
        cursor := Step(cursor);
      }
    }

    /** One line: key up to the `';'`, value up to the `'\n'`, then the map update. */
    method Step(cursor: nat) returns (next: nat)
      requires cursor < |buf| && LinesFramed(buf, cursor, |buf|)
      modifies this
      ensures cursor < next <= |buf| && LinesFramed(buf, next, |buf|)
      ensures MapFold(buf, results, Lines(buf, next, |buf|)) ==
              MapFold(buf, old(results), Lines(buf, cursor, |buf|))
    {
      LinesFramedAt(buf, cursor);
      var semicolon := UncheckedSemicolon(buf, cursor);
      var temp;
      temp, next := UncheckedValue(buf, cursor, semicolon);
      MapFoldStep(buf, results, Record(Slice(cursor, semicolon - cursor), temp), Lines(buf, next, |buf|));
      Add(buf[cursor..semicolon], temp);
    }
  }

  /** The value of the line that starts at `cursor` and whose key ends at `semicolon`: up to the
      `'\n'` the input is known to hold, parsed; scanning resumes after the newline. */
  method UncheckedValue(buf: seq<byte>, cursor: nat, semicolon: nat) returns (temp: int, next: nat)
    requires cursor < |buf| && LinesFramed(buf, cursor, |buf|)
    requires semicolon == Find(buf, cursor, |buf|, SEMI)
    ensures semicolon < next <= |buf| && LinesFramed(buf, next, |buf|)
    ensures Lines(buf, cursor, |buf|) ==
            [Record(Slice(cursor, semicolon - cursor), temp)] + Lines(buf, next, |buf|)
    ensures View(buf, Slice(cursor, semicolon - cursor)) == buf[cursor..semicolon]
  {
    LinesFramedAt(buf, cursor);
    var newline := UncheckedLineEnd(buf, semicolon + 1);
    temp := ParseTemp(buf, semicolon + 1, newline);
    LinesAt(buf, cursor, semicolon, newline, temp);
    next := newline + 1;
  }

  /** The key loop of mapped_memory.cpp: up to the `';'` the input is known to hold, no hashing. */
  method UncheckedSemicolon(buf: seq<byte>, cursor: nat) returns (semicolon: nat)
    requires cursor <= |buf| && Find(buf, cursor, |buf|, SEMI) < |buf|
    ensures semicolon == Find(buf, cursor, |buf|, SEMI)
  {
    ghost var s := Find(buf, cursor, |buf|, SEMI);
    semicolon := cursor;
    while buf[semicolon] != SEMI
      invariant cursor <= semicolon <= s
      invariant forall i :: cursor <= i < semicolon ==> buf[i] != SEMI
      decreases s - semicolon
    {
      semicolon := semicolon + 1;
    }
    FindIs(buf, cursor, |buf|, SEMI, semicolon);
  }

  /** A framed line has its `';'` and then its `'\n'` inside the buffer, and the lines after it
      are framed as well. */
  lemma LinesFramedAt(buf: seq<byte>, a: nat)
    requires a < |buf| && LinesFramed(buf, a, |buf|)
    ensures Find(buf, a, |buf|, SEMI) < |buf|
    ensures Find(buf, Find(buf, a, |buf|, SEMI) + 1, |buf|, NL) < |buf|
    ensures LinesFramed(buf, Find(buf, Find(buf, a, |buf|, SEMI) + 1, |buf|, NL) + 1, |buf|)
  {
  }

  /** A framed line taken apart: its record comes first, the rest of the lines follow its
      newline. */
  lemma LinesAt(buf: seq<byte>, a: nat, s: nat, nl: nat, temp: int)
    requires a < |buf| && s == Find(buf, a, |buf|, SEMI) && s < |buf|
    requires nl == Find(buf, s + 1, |buf|, NL) && nl < |buf| && temp == Value(buf, s + 1, nl)
    ensures Lines(buf, a, |buf|) == [Record(Slice(a, s - a), temp)] + Lines(buf, nl + 1, |buf|)
    ensures View(buf, Slice(a, s - a)) == buf[a..s]
  {
    LinesStep(buf, a, Record(Slice(a, s - a), temp), nl);
  }

  /** One line of `Lines`, with its `';'` and `'\n'` found from `a`. */
  lemma LinesStep(buf: seq<byte>, a: nat, r: Record, nl: nat)
    requires a < |buf| && Find(buf, a, |buf|, SEMI) < |buf|
    requires nl == Find(buf, Find(buf, a, |buf|, SEMI) + 1, |buf|, NL) && nl < |buf|
    requires r == Record(Slice(a, Find(buf, a, |buf|, SEMI) - a),
                         Value(buf, Find(buf, a, |buf|, SEMI) + 1, nl))
    ensures Lines(buf, a, |buf|) == [r] + Lines(buf, nl + 1, |buf|)
  {
  }

  lemma MapFoldStep(buf: seq<byte>, m: Summary, r: Record, rest: seq<Record>)
    ensures MapFold(buf, m, [r] + rest) == MapFold(buf, MapApply(m, View(buf, r.key), r.temp), rest)
  {
    assert ([r] + rest)[1..] == rest;
  }

  /** On values within -999..999 the default entry behaves like a fresh one, so the map holds
      exactly what the hash tables build from the same records. */
  lemma {:induction false} MapFoldIsFold(buf: seq<byte>, m: Summary, rs: seq<Record>)
    requires Bounded(rs)
    ensures MapFold(buf, m, rs) == Fold(buf, m, rs)
    decreases |rs|
  {
    if |rs| > 0 {
      var k, t := View(buf, rs[0].key), rs[0].temp;
      assert -999 <= t <= 999;
      assert MapApply(m, k, t) == Apply(m, k, t);
      assert Bounded(rs[1..]) by {
        forall i | 0 <= i < |rs[1..]| ensures -999 <= rs[1..][i].temp <= 999 {
          assert rs[1..][i] == rs[i + 1];
        }
      }
      MapFoldIsFold(buf, MapApply(m, k, t), rs[1..]);
    }
  }

  lemma MapFoldAppend(buf: seq<byte>, m: Summary, r1: seq<Record>, r2: seq<Record>)
    ensures MapFold(buf, m, r1 + r2) == MapFold(buf, MapFold(buf, m, r1), r2)
    decreases |r1|
  {
    if |r1| > 0 {
      assert (r1 + r2)[1..] == r1[1..] + r2;
      MapFoldAppend(buf, MapApply(m, View(buf, r1[0].key), r1[0].temp), r1[1..], r2);
    } else {
      assert r1 + r2 == r2;
    }
  }

  /** The last line is applied last. */
  lemma MapFoldLast(buf: seq<byte>, m: Summary, rs: seq<Record>)
    requires |rs| > 0
    ensures MapFold(buf, m, rs) ==
            MapApply(MapFold(buf, m, rs[..|rs| - 1]), View(buf, rs[|rs| - 1].key), rs[|rs| - 1].temp)
  {
    var p := rs[..|rs| - 1];
    assert rs == p + [rs[|rs| - 1]];
    MapFoldAppend(buf, m, p, [rs[|rs| - 1]]);
  }

  /** Whatever the values, the map holds exactly the names of the lines, and for each name a
      count and a sum that are exactly the number and the sum of that name's values: the default
      entry `{1000, -1000, 0, 0}` starts both at zero. */
  lemma {:induction false} MapFoldCounts(buf: seq<byte>, rs: seq<Record>, k: seq<byte>)
    ensures k in MapFold(buf, map[], rs) <==> |ValuesOf(buf, rs, k)| > 0
    ensures k in MapFold(buf, map[], rs) ==>
              MapFold(buf, map[], rs)[k].cnt == |ValuesOf(buf, rs, k)| &&
              MapFold(buf, map[], rs)[k].sum == SeqSum(ValuesOf(buf, rs, k))
  {
    if |rs| > 0 {
      var p := rs[..|rs| - 1];
      var last := rs[|rs| - 1];
      MapFoldLast(buf, map[], rs);
      MapFoldCounts(buf, p, k);
      CountsStep(MapFold(buf, map[], p), View(buf, last.key), last.temp, ValuesOf(buf, p, k), k);
    }
  }

  /** One line keeps the map's count and sum for `k` equal to those of `k`'s values. */
  lemma CountsStep(m: Summary, key: seq<byte>, t: int, vs: seq<int>, k: seq<byte>)
    requires k in m <==> |vs| > 0
    requires k in m ==> m[k].cnt == |vs| && m[k].sum == SeqSum(vs)
    ensures var ws := vs + (if key == k then [t] else []);
            var r := MapApply(m, key, t);
            (k in r <==> |ws| > 0) && (k in r ==> r[k].cnt == |ws| && r[k].sum == SeqSum(ws))
  {
    var ws := vs + (if key == k then [t] else []);
    if key == k {
      assert ws[..|ws| - 1] == vs;
    } else {
      assert ws == vs;
    }
  }

  /** A value outside -999..999 as the first one for its name: the default minimum 1000 is kept,
      so the map reports a minimum no record has. */
  lemma DefaultLeaks()
    ensures MapApply(map[], [], 1001)[[]].min == 1000
    ensures Apply(map[], [], 1001)[[]].min == 1001
  {
  }

  /** On well-formed input the map scanner and the multi-threaded scanner see the same records
      and build the same aggregate. */
  lemma MapAgreesWithChunk(buf: seq<byte>)
    requires WellFormed(buf, 0, |buf|)
    ensures LinesFramed(buf, 0, |buf|)
    ensures MapFold(buf, map[], Lines(buf, 0, |buf|)) == Fold(buf, map[], Chunk(buf, 0, |buf|))
  {
    WellFormedScans(buf, 0, |buf|);
    MapFoldIsFold(buf, map[], Chunk(buf, 0, |buf|));
  }
}
