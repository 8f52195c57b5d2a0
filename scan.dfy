/** The record scanners, as functions over the read-only buffer: they say which
    `(key slice, value)` records a scan of `[c, end)` yields. The loops that implement them live
    in the table and map modules. */
module Scanner {
  import opened Bytes
  import opened ValueParser

  /** A zero-copy key: `len` bytes of the buffer starting at `off` (a `std::string_view`). */
  datatype Slice = Slice(off: nat, len: nat)

  /** The bytes a slice views; a slice outside the buffer views nothing. */
  function View(buf: seq<byte>, s: Slice): (v: seq<byte>)
    ensures |v| == if s.off + s.len <= |buf| then s.len else 0
  {
    if s.off + s.len <= |buf| then buf[s.off..s.off + s.len] else []
  }

  /** One parsed line: its key slice and its value times ten. */
  datatype Record = Record(key: Slice, temp: int)

  /** The first index in `[from, end)` holding `b`, or `end` when there is none. */
  function Find(buf: seq<byte>, from: nat, end: nat, b: byte): (r: nat)
    requires from <= end <= |buf|
    ensures from <= r <= end
    ensures r < end ==> buf[r] == b
    decreases end - from
  {
    if from == end then end
    else if buf[from] == b then from
    else Find(buf, from + 1, end, b)
  }

  /** Every record's key is followed, before `end`, by the `';'` that ends it. */
  predicate KeysClosed(buf: seq<byte>, rs: seq<Record>, end: nat)
    requires end <= |buf|
    decreases |rs|
  {
    |rs| == 0 ||
    (rs[0].key.off + rs[0].key.len < end && buf[rs[0].key.off + rs[0].key.len] == SEMI &&
     KeysClosed(buf, rs[1..], end))
  }

  /** Searching a shorter range finds the same byte when it lies inside that range. */
  lemma FindShorter(buf: seq<byte>, from: nat, e: nat, end: nat, b: byte)
    requires from <= e <= end <= |buf|
    requires Find(buf, from, end, b) < e
    ensures Find(buf, from, e, b) == Find(buf, from, end, b)
    decreases end - from
  {
    if from < e && buf[from] != b {
      FindShorter(buf, from + 1, e, end, b);
    }
  }

  /** No byte before the one `Find` returns is `b`. */
  lemma FindFirst(buf: seq<byte>, from: nat, end: nat, b: byte, i: nat)
    requires from <= end <= |buf|
    requires from <= i < Find(buf, from, end, b)
    ensures buf[i] != b
    decreases end - from
  {
    if i > from {
      FindFirst(buf, from + 1, end, b, i);
    }
  }

  /** An index before which no byte is `b`, and which is `end` or holds `b`, is what `Find`
      returns: the scanning loops compute `Find`. */
  lemma FindIs(buf: seq<byte>, from: nat, end: nat, b: byte, r: nat)
    requires from <= r <= end <= |buf|
    requires forall i :: from <= i < r ==> buf[i] != b
    requires r < end ==> buf[r] == b
    ensures Find(buf, from, end, b) == r
    decreases r - from
  {
    if from < r {
      FindIs(buf, from + 1, end, b, r);
    }
  }

  /** The records `process_chunk` yields for `[c, end)`: skip `'\n'`, `'\r'` and `' '`; stop when
      no `';'` lies before `end`; otherwise the key is `[c, semicolon)`, the value text runs to the
      next `'\n'` (or to `end`), and scanning resumes after that newline. */
  function Chunk(buf: seq<byte>, c: nat, end: nat): seq<Record>
    requires end <= |buf|
    decreases end - c
  {
    if c >= end then []
    else if IsSkip(buf[c]) then Chunk(buf, c + 1, end)
    else
      var s := Find(buf, c, end, SEMI);
      if s == end then []
      else
        var nl := Find(buf, s + 1, end, NL);
        [Record(Slice(c, s - c), Value(buf, s + 1, nl))] + Chunk(buf, nl + 1, end)
  }

  /** Every record `process_chunk` yields has its key closed by a `';'` before `end`. */
  lemma {:induction false} ChunkKeysClosed(buf: seq<byte>, c: nat, end: nat)
    requires end <= |buf|
    ensures KeysClosed(buf, Chunk(buf, c, end), end)
    decreases end - c
  {
    if c < end {
      if IsSkip(buf[c]) {
        ChunkKeysClosed(buf, c + 1, end);
      } else {
        var s := Find(buf, c, end, SEMI);
        if s < end {
          var nl := Find(buf, s + 1, end, NL);
          ChunkKeysClosed(buf, nl + 1, end);
          assert Chunk(buf, c, end)[1..] == Chunk(buf, nl + 1, end);
        }
      }
    }
  }

  /** A skipped byte contributes no record. */
  lemma ChunkSkip(buf: seq<byte>, c: nat, end: nat)
    requires c < end <= |buf| && IsSkip(buf[c])
    ensures Chunk(buf, c, end) == Chunk(buf, c + 1, end)
  {
  }

  /** A record whose key runs to the end of the range without a `';'` yields nothing. */
  lemma ChunkUnterminated(buf: seq<byte>, c: nat, end: nat)
    requires c < end <= |buf| && !IsSkip(buf[c]) && Find(buf, c, end, SEMI) >= end
    ensures Chunk(buf, c, end) == []
  {
  }

  /** Past a skipped byte the rest of a framed range is framed. */
  lemma FramedSkip(buf: seq<byte>, c: nat, end: nat)
    requires c < end <= |buf| && IsSkip(buf[c]) && Framed(buf, c, end)
    ensures Framed(buf, c + 1, end)
  {
  }

  /** The scan would stay inside `[c, end)` without the bounds checks: every record that starts
      there has a `';'` and, after it, a `'\n'` before `end` (the loop of custom_table.cpp). */
  predicate Framed(buf: seq<byte>, c: nat, end: nat)
    requires end <= |buf|
    decreases end - c
  {
    c >= end ||
    if IsSkip(buf[c]) then Framed(buf, c + 1, end)
    else
      var s := Find(buf, c, end, SEMI);
      s < end && Find(buf, s + 1, end, NL) < end && Framed(buf, Find(buf, s + 1, end, NL) + 1, end)
  }

  /** The same demand for the scanner of mapped_memory.cpp, which skips nothing. */
  predicate LinesFramed(buf: seq<byte>, c: nat, end: nat)
    requires end <= |buf|
    decreases end - c
  {
    c >= end ||
    var s := Find(buf, c, end, SEMI);
    s < end && Find(buf, s + 1, end, NL) < end && LinesFramed(buf, Find(buf, s + 1, end, NL) + 1, end)
  }

  /** The records the scanner of mapped_memory.cpp yields: every line is a record, its key is
      everything before the `';'`. Outside `LinesFramed` input the source reads past the buffer;
      there this function yields no further records. */
  function Lines(buf: seq<byte>, c: nat, end: nat): (rs: seq<Record>)
    requires end <= |buf|
    ensures KeysClosed(buf, rs, end)
    decreases end - c
  {
    if c >= end then []
    else
      var s := Find(buf, c, end, SEMI);
      if s == end then []
      else
        var nl := Find(buf, s + 1, end, NL);
        if nl == end then []
        else [Record(Slice(c, s - c), Value(buf, s + 1, nl))] + Lines(buf, nl + 1, end)
  }

  /** The input format: every line is `<key>;<value>\n`, the key holds no `'\n'` and does not start
      with a byte the scanner skips, and the value is well formed. */
  predicate WellFormed(buf: seq<byte>, c: nat, end: nat)
    requires end <= |buf|
    decreases end - c
  {
    c == end ||
    (c < end && !IsSkip(buf[c]) &&
     var s := Find(buf, c, end, SEMI);
     s < end && Find(buf, c, s, NL) == s &&
     var nl := Find(buf, s + 1, end, NL);
     nl < end && WellFormedValue(buf, s + 1, nl) && WellFormed(buf, nl + 1, end))
  }

  /** Every value of the records is within -999..999. */
  predicate Bounded(rs: seq<Record>) {
    forall i :: 0 <= i < |rs| ==> -999 <= rs[i].temp <= 999
  }

  /** On well-formed input the three scanners agree: nothing is skipped, the unchecked loops stay in
      bounds, and every value is within -999..999. */
  lemma {:induction false} WellFormedScans(buf: seq<byte>, c: nat, end: nat)
    requires end <= |buf|
    requires WellFormed(buf, c, end)
    ensures Framed(buf, c, end) && LinesFramed(buf, c, end)
    ensures Chunk(buf, c, end) == Lines(buf, c, end)
    ensures Bounded(Chunk(buf, c, end))
    decreases end - c
  {
    if c < end {
      var s := Find(buf, c, end, SEMI);
      var nl := Find(buf, s + 1, end, NL);
      WellFormedScans(buf, nl + 1, end);
      ValueOfWellFormed(buf, s + 1, nl);
    }
  }

  /** The first line of a non-empty well-formed range, taken apart. */
  lemma WellFormedLine(buf: seq<byte>, a: nat, c: nat)
    requires a < c <= |buf|
    requires WellFormed(buf, a, c)
    ensures !IsSkip(buf[a]) && Find(buf, a, c, SEMI) < c
    ensures Find(buf, Find(buf, a, c, SEMI) + 1, c, NL) < c
    ensures WellFormed(buf, Find(buf, Find(buf, a, c, SEMI) + 1, c, NL) + 1, c)
  {
  }

  /** A line of well-formed input that starts before a line start `b` also ends before it. */
  lemma LineEndsBefore(buf: seq<byte>, a: nat, b: nat, c: nat)
    requires a < b <= c <= |buf|
    requires buf[b - 1] == NL
    requires WellFormed(buf, a, c)
    ensures Find(buf, a, c, SEMI) < b - 1
    ensures Find(buf, Find(buf, a, c, SEMI) + 1, c, NL) < b
  {
    var s := Find(buf, a, c, SEMI);
    assert Find(buf, a, s, NL) == s;
    if b - 1 < s {
      FindFirst(buf, a, c, SEMI, b - 1);
      FindFirst(buf, a, s, NL, b - 1);
    }
    if b - 1 > s {
      var nl := Find(buf, s + 1, c, NL);
      if nl > b - 1 {
        FindFirst(buf, s + 1, c, NL, b - 1);
      }
    }
  }

  /** Splitting a well-formed range at a line start leaves both parts well formed. */
  lemma {:induction false} SplitWellFormed(buf: seq<byte>, a: nat, b: nat, c: nat)
    requires a <= b <= c <= |buf|
    requires b == a || buf[b - 1] == NL
    requires WellFormed(buf, a, c)
    ensures WellFormed(buf, a, b) && WellFormed(buf, b, c)
    decreases c - a
  {
    if a < b {
      LineEndsBefore(buf, a, b, c);
      var s := Find(buf, a, c, SEMI);
      var nl := Find(buf, s + 1, c, NL);
      FindShorter(buf, a, b, c, SEMI);
      FindShorter(buf, s + 1, b, c, NL);
      SplitWellFormed(buf, nl + 1, b, c);
    }
  }

  lemma ChunkStep(buf: seq<byte>, a: nat, c: nat, r: Record, nl: nat)
    requires a < c <= |buf| && !IsSkip(buf[a])
    requires Find(buf, a, c, SEMI) < c
    requires nl == Find(buf, Find(buf, a, c, SEMI) + 1, c, NL)
    requires r == Record(Slice(a, Find(buf, a, c, SEMI) - a), Value(buf, Find(buf, a, c, SEMI) + 1, nl))
    ensures Chunk(buf, a, c) == [r] + Chunk(buf, nl + 1, c)
  {
  }

  /** The record a scan from a non-skipped `a` yields, named by its `';'` at `s` and its end `nl`. */
  lemma ChunkAt(buf: seq<byte>, a: nat, c: nat, s: nat, nl: nat, temp: int)
    requires a < c <= |buf| && !IsSkip(buf[a])
    requires s == Find(buf, a, c, SEMI) && s < c
    requires nl == Find(buf, s + 1, c, NL) && temp == Value(buf, s + 1, nl)
    ensures Chunk(buf, a, c) == [Record(Slice(a, s - a), temp)] + Chunk(buf, nl + 1, c)
  {
    ChunkStep(buf, a, c, Record(Slice(a, s - a), temp), nl);
  }

  /** A framed range that starts with a record has the record's `';'` and `'\n'` before its end,
      and is framed again after that newline. */
  lemma FramedAt(buf: seq<byte>, a: nat, c: nat)
    requires a < c <= |buf| && !IsSkip(buf[a]) && Framed(buf, a, c)
    ensures Find(buf, a, c, SEMI) < c
    ensures Find(buf, Find(buf, a, c, SEMI) + 1, c, NL) < c
    ensures Framed(buf, Find(buf, Find(buf, a, c, SEMI) + 1, c, NL) + 1, c)
  {
  }

  /** One line of the split: the line at `a` ends before `b`, and the rest splits by induction. */
  lemma SplitLine(buf: seq<byte>, a: nat, b: nat, c: nat, s: nat, nl: nat)
    requires a < b <= c <= |buf| && !IsSkip(buf[a])
    requires s == Find(buf, a, c, SEMI) && s < b - 1
    requires nl == Find(buf, s + 1, c, NL) && nl < b
    requires Chunk(buf, nl + 1, c) == Chunk(buf, nl + 1, b) + Chunk(buf, b, c)
    ensures Chunk(buf, a, c) == Chunk(buf, a, b) + Chunk(buf, b, c)
  {
    FindShorter(buf, a, b, c, SEMI);
    FindShorter(buf, s + 1, b, c, NL);
    var temp := Value(buf, s + 1, nl);
    ChunkAt(buf, a, c, s, nl, temp);
    ChunkAt(buf, a, b, s, nl, temp);
  }

  /** Splitting a well-formed range at a line start splits its records: no record spans `b`. */
  lemma {:induction false} SplitAtLineStart(buf: seq<byte>, a: nat, b: nat, c: nat)
    requires a <= b <= c <= |buf|
    requires b == a || buf[b - 1] == NL
    requires WellFormed(buf, a, c)
    ensures Chunk(buf, a, c) == Chunk(buf, a, b) + Chunk(buf, b, c)
    decreases c - a
  {
    if a < b {
      var s, nl := FirstLine(buf, a, b, c);
      SplitAtLineStart(buf, nl + 1, b, c);
      SplitLine(buf, a, b, c, s, nl);
    }
  }

  /** The first line of well-formed input before a line start `b`: its `';'` at `s` and its
      `'\n'` at `nl`, both before `b`, with well-formed input after it. */
  lemma FirstLine(buf: seq<byte>, a: nat, b: nat, c: nat) returns (s: nat, nl: nat)
    requires a < b <= c <= |buf| && buf[b - 1] == NL && WellFormed(buf, a, c)
    ensures !IsSkip(buf[a]) && s == Find(buf, a, c, SEMI) && s < b - 1
    ensures nl == Find(buf, s + 1, c, NL) && nl < b && WellFormed(buf, nl + 1, c)
  {
    LineEndsBefore(buf, a, b, c);
    WellFormedLine(buf, a, c);
    s := Find(buf, a, c, SEMI);
    nl := Find(buf, s + 1, c, NL);
  }
}
