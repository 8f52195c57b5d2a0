/** The split of the buffer into one byte range per worker thread: equal shares of `|buf| / n`
    bytes, each boundary moved forward to the next line start, the last range running to the end
    of the buffer. */
module Partition {
  import opened Bytes

  /** A position where a line begins: the buffer's ends, or just after a `'\n'`. */
  predicate LineStart(buf: seq<byte>, p: nat) {
    p == 0 || p == |buf| || (0 < p <= |buf| && buf[p - 1] == NL)
  }

  /** The boundary adjustment with the start of the buffer counted as a line start: the first line
      start at or after `p`. */
  function Align(buf: seq<byte>, p: nat): (q: nat)
    requires p <= |buf|
    ensures p <= q <= |buf| && LineStart(buf, q)
    ensures forall k :: p <= k < q ==> !LineStart(buf, k)
    decreases |buf| - p
  {
    if p == 0 || p == |buf| || buf[p - 1] == NL then p else Align(buf, p + 1)
  }

  /** What the adjustment loop `while (p < end && *(p - 1) != '\n') p++` does as written: it
      reads the byte before `p` without checking that one exists. */
  datatype Outcome = Aligned(at: nat) | ReadsBeforeBuffer

  function AlignAsWritten(buf: seq<byte>, p: nat): (r: Outcome)
    requires p <= |buf|
    ensures r.ReadsBeforeBuffer? <==> p == 0 && 0 < |buf|
    ensures r.Aligned? ==> r.at == Align(buf, p)
    decreases |buf| - p
  {
    if p >= |buf| then Aligned(p)
    else if p == 0 then ReadsBeforeBuffer
    else if buf[p - 1] == NL then Aligned(p)
    else AlignAsWritten(buf, p + 1)
  }

  /** `k` equal shares of `|buf| / n` bytes fit in the buffer. */
  lemma ShareFits(len: nat, n: nat, k: nat)
    requires 0 < n && k <= n
    ensures k * (len / n) <= len
  {
    var q := len / n;
    assert k * q <= n * q by {
      assert (n - k) * q >= 0;
    }
    assert n * q + len % n == len;
  }

  /** Where range `i` starts: offset 0 for the first, the aligned share boundary otherwise. */
  function StartOf(buf: seq<byte>, n: nat, i: nat): (p: nat)
    requires i < n
    ensures p <= |buf|
  {
    ShareFits(|buf|, n, i);
    if i == 0 then 0 else Align(buf, i * (|buf| / n))
  }

  /** Where range `i` ends: the end of the buffer for the last, the aligned share boundary
      otherwise. */
  function EndOf(buf: seq<byte>, n: nat, i: nat): (p: nat)
    requires i < n
    ensures p <= |buf|
  {
    ShareFits(|buf|, n, i + 1);
    if i == n - 1 then |buf| else Align(buf, (i + 1) * (|buf| / n))
  }

  /** The boundary loop of `main`: for each worker `i`, the share boundaries `i * size` and
      `(i + 1) * size`, each moved forward to a line start (the last end is the buffer's end). */
  method Split(buf: seq<byte>, n: nat) returns (starts: seq<nat>, ends: seq<nat>)
    requires 0 < n
    ensures |starts| == n && |ends| == n
    ensures forall i :: 0 <= i < n ==> starts[i] == StartOf(buf, n, i) && ends[i] == EndOf(buf, n, i)
    ensures Tiling(buf, starts, ends)
  {
    var size := |buf| / n;
    starts, ends := [], [];
    var i, lo := 0, 0;
    while i < n
      invariant 0 <= i <= n && |starts| == i && |ends| == i && lo == i * size
      invariant forall k :: 0 <= k < i ==> starts[k] == StartOf(buf, n, k) && ends[k] == EndOf(buf, n, k)
    {
      var start, end := Bounds(buf, n, i, lo);
      starts, ends := starts + [start], ends + [end];
      NextShare(i, size);
      i, lo := i + 1, lo + size;
    }
    Tiles(buf, n);
  }

  /** Ranges `[starts[i], ends[i])` that tile the buffer: the first starts at 0, the last ends at
      its end, each ends where the next starts, none is reversed, and every boundary is a line
      start. */
  predicate Tiling(buf: seq<byte>, starts: seq<nat>, ends: seq<nat>) {
    0 < |starts| == |ends| && starts[0] == 0 && ends[|ends| - 1] == |buf| &&
    (forall i :: 0 <= i < |starts| - 1 ==> ends[i] == starts[i + 1]) &&
    forall i :: 0 <= i < |starts| ==>
      starts[i] <= ends[i] <= |buf| && LineStart(buf, starts[i]) && LineStart(buf, ends[i])
  }

  lemma NextShare(i: nat, size: nat)
    ensures i * size + size == (i + 1) * size
  {
  }

  /** The range of worker `i`, whose share begins at byte `lo`. */
  method Bounds(buf: seq<byte>, n: nat, i: nat, lo: nat) returns (start: nat, end: nat)
    requires i < n && lo == i * (|buf| / n)
    ensures start == StartOf(buf, n, i) && end == EndOf(buf, n, i)
  {
    var size := |buf| / n;
    ShareFits(|buf|, n, i);
    ShareFits(|buf|, n, i + 1);
    NextShare(i, size);
    start := lo;
    end := if i == n - 1 then |buf| else lo + size;
    if i > 0 {
      start := Adjust(buf, start);
    }
    if i < n - 1 {
      end := Adjust(buf, end);
    }
  }

  /** One boundary moved forward past the bytes of a line, to just after its `'\n'` or to the end
      of the buffer. */
  method Adjust(buf: seq<byte>, p: nat) returns (q: nat)
    requires p <= |buf|
    ensures q == Align(buf, p)
  {
    q := p;
    while 0 < q < |buf| && buf[q - 1] != NL
      invariant p <= q <= |buf| && Align(buf, p) == Align(buf, q)
      decreases |buf| - q
    {
      q := q + 1;
    }
  }

  /** The ranges tile the buffer: the first starts at 0, the last ends at its end, each ends where
      the next starts, none is reversed, and every boundary is a line start, so no line is split
      between two workers. */
  lemma {:induction false} Tiles(buf: seq<byte>, n: nat)
    requires 0 < n
    ensures StartOf(buf, n, 0) == 0 && EndOf(buf, n, n - 1) == |buf|
    ensures forall i :: 0 <= i < n - 1 ==> EndOf(buf, n, i) == StartOf(buf, n, i + 1)
    ensures forall i :: 0 <= i < n ==> StartOf(buf, n, i) <= EndOf(buf, n, i)
    ensures forall i :: 0 <= i < n ==>
              LineStart(buf, StartOf(buf, n, i)) && LineStart(buf, EndOf(buf, n, i))
  {
    forall i | 0 <= i < n ensures StartOf(buf, n, i) <= EndOf(buf, n, i) {
      if 0 < i < n - 1 {
        var size := |buf| / n;
        ShareFits(|buf|, n, i + 1);
        assert i * size <= (i + 1) * size;
        AlignMonotone(buf, i * size, (i + 1) * size);
      }
    }
  }

  /** Aligning a later offset never yields an earlier line start. */
  lemma AlignMonotone(buf: seq<byte>, p: nat, q: nat)
    requires p <= q <= |buf|
    ensures Align(buf, p) <= Align(buf, q)
  {
  }

  /** With at least one byte per worker, every boundary the source adjusts is past offset 0, so
      the loop as written agrees with `Align`. */
  lemma AsWrittenAgrees(buf: seq<byte>, n: nat, i: nat)
    requires 0 < n <= |buf| && 0 < i <= n
    ensures i * (|buf| / n) <= |buf|
    ensures AlignAsWritten(buf, i * (|buf| / n)) == Aligned(Align(buf, i * (|buf| / n)))
  {
    ShareFits(|buf|, n, i);
    var size := |buf| / n;
    assert size >= 1;
    assert i * size >= size;
  }

  /** A one-byte buffer split between two workers: the share is 0 bytes, so worker 1's start is
      offset 0 and its adjustment loop reads the byte before the buffer. */
  lemma ShareOfZeroReadsBefore()
    ensures var buf: seq<byte> := [NL]; 1 * (|buf| / 2) == 0 && AlignAsWritten(buf, 1 * (|buf| / 2)).ReadsBeforeBuffer?
  {
  }
}
