/** The key hash: `hash = hash * 31 + byte` in `uint64_t`, the table capacity, and the home slot. */
module KeyHash {
  import opened Bytes

  /** Number of slots of every aggregation table (`TABLE_SIZE`). */
  const TABLE_SIZE: nat := 16384

  /** 2^64: `uint64_t` arithmetic wraps modulo this. */
  const WORD: nat := 0x1_0000_0000_0000_0000

  /** The fold over `s[lo..hi]` as the source computes it, wrapping modulo 2^64 after every step. */
  function HashRange(s: seq<byte>, lo: nat, hi: nat): (h: nat)
    requires lo <= hi <= |s|
    ensures h < WORD
    decreases hi
  {
    if hi == lo then 0 else (HashRange(s, lo, hi - 1) * 31 + s[hi - 1] as int) % WORD
  }

  /** The hash of a whole name. */
  function Hash(s: seq<byte>): (h: nat)
    ensures h < WORD
  {
    HashRange(s, 0, |s|)
  }

  /** The same fold over unbounded integers. */
  function RawHash(s: seq<byte>, n: nat): nat
    requires n <= |s|
  {
    if n == 0 then 0 else RawHash(s, n - 1) * 31 + s[n - 1] as int
  }

  /** Hashing a range of the buffer is hashing the bytes it holds. */
  lemma {:induction false} HashRangeSlice(s: seq<byte>, lo: nat, hi: nat)
    requires lo <= hi <= |s|
    ensures HashRange(s, lo, hi) == HashRange(s[lo..hi], 0, hi - lo)
    decreases hi
  {
    if hi > lo {
      HashRangeSlice(s, lo, hi - 1);
      HashRangePrefix(s[lo..hi], s[lo..hi - 1], hi - 1 - lo);
    }
  }

  /** The hash of a prefix depends only on the prefix. */
  lemma {:induction false} HashRangePrefix(s: seq<byte>, t: seq<byte>, n: nat)
    requires n <= |s| && n <= |t| && s[..n] == t[..n]
    ensures HashRange(s, 0, n) == HashRange(t, 0, n)
    decreases n
  {
    if n > 0 {
      assert s[..n - 1] == s[..n][..n - 1] && t[..n - 1] == t[..n][..n - 1];
      assert s[n - 1] == s[..n][n - 1];
      HashRangePrefix(s, t, n - 1);
    }
  }

  /** The slot a name's probe starts from (`hash % TABLE_SIZE`). */
  function Home(name: seq<byte>): (i: nat)
    ensures i < TABLE_SIZE
  {
    Hash(name) % TABLE_SIZE
  }

  lemma ModOfMultiple(x: int, k: nat)
    requires k > 0
    ensures (x % (TABLE_SIZE * k)) % TABLE_SIZE == x % TABLE_SIZE
  {
    var m := TABLE_SIZE * k;
    var q := x / m;
    assert x == q * m + x % m;
    assert q * m == (q * k) * TABLE_SIZE;
    ModShift(x % m, q * k);
  }

  lemma ModShift(r: int, q: int)
    ensures (q * TABLE_SIZE + r) % TABLE_SIZE == r % TABLE_SIZE
  {
  }

  lemma MulAddMod(x: int, b: int)
    ensures (x * 31 + b) % TABLE_SIZE == ((x % TABLE_SIZE) * 31 + b) % TABLE_SIZE
  {
    var q := x / TABLE_SIZE;
    var r := x % TABLE_SIZE;
    assert x == q * TABLE_SIZE + r;
    assert x * 31 + b == (q * 31) * TABLE_SIZE + (r * 31 + b);
    ModShift(r * 31 + b, q * 31);
  }

  /** 2^64 is a multiple of TABLE_SIZE, so the wrapped hash selects the same home slot as the
      unbounded fold. */
  lemma {:induction false} HashModTable(s: seq<byte>, n: nat)
    requires n <= |s|
    ensures HashRange(s, 0, n) % TABLE_SIZE == RawHash(s, n) % TABLE_SIZE
  {
    if n > 0 {
      var b := s[n - 1] as int;
      HashModTable(s, n - 1);
      assert WORD == TABLE_SIZE * 0x4_0000_0000_0000;
      ModOfMultiple(HashRange(s, 0, n - 1) * 31 + b, 0x4_0000_0000_0000);
      MulAddMod(HashRange(s, 0, n - 1), b);
      MulAddMod(RawHash(s, n - 1), b);
    }
  }

  /** The per-name hash loop of the merge step. */
  method HashOf(name: seq<byte>) returns (h: nat)
    ensures h == Hash(name)
  {
    h := 0;
    var i := 0;
    while i < |name|
      invariant 0 <= i <= |name|
      invariant h == HashRange(name, 0, i)
    {
      h := (h * 31 + name[i] as int) % WORD;
      i := i + 1;
    }
  }
}
