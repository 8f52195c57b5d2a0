/** Bytes of the memory-mapped input and the byte-lexicographic order on them. */
module Bytes {

  /** An unsigned byte; the source reads `char` but hashes and compares it as `unsigned char`. */
  newtype byte = x: int | 0 <= x < 256

  const NL: byte := 10     // '\n'
  const CR: byte := 13     // '\r'
  const SP: byte := 32     // ' '
  const MINUS: byte := 45  // '-'
  const DOT: byte := 46    // '.'
  const ZERO: byte := 48   // '0'
  const NINE: byte := 57   // '9'
  const SEMI: byte := 59   // ';'

  /** The bytes the scanner steps over before a key. */
  predicate IsSkip(b: byte) {
    b == NL || b == CR || b == SP
  }

  predicate IsDigit(b: byte) {
    ZERO <= b <= NINE
  }

  /** Byte-lexicographic strict order, as `std::string_view::operator<`. */
  predicate Less(a: seq<byte>, b: seq<byte>)
    ensures Less(a, b) ==> a != b
    ensures |a| < |b| && a == b[..|a|] ==> Less(a, b)
  {
    if |a| == 0 then |b| > 0
    else if |b| == 0 then false
    else if a[0] != b[0] then a[0] < b[0]
    else Less(a[1..], b[1..])
  }

  lemma {:induction false} LessIrreflexive(a: seq<byte>)
    ensures !Less(a, a)
  {
    if |a| > 0 {
      LessIrreflexive(a[1..]);
    }
  }

  lemma {:induction false} LessTransitive(a: seq<byte>, b: seq<byte>, c: seq<byte>)
    requires Less(a, b) && Less(b, c)
    ensures Less(a, c)
  {
    if |a| > 0 && |b| > 0 && |c| > 0 && a[0] == b[0] == c[0] {
      LessTransitive(a[1..], b[1..], c[1..]);
    }
  }

  /** Two different names are always ordered one way or the other. */
  lemma {:induction false} LessTotal(a: seq<byte>, b: seq<byte>)
    requires a != b
    ensures Less(a, b) || Less(b, a)
  {
    if |a| > 0 && |b| > 0 && a[0] == b[0] {
      assert a == [a[0]] + a[1..] && b == [b[0]] + b[1..];
      LessTotal(a[1..], b[1..]);
    }
  }

  lemma {:induction false} LessAsymmetric(a: seq<byte>, b: seq<byte>)
    requires Less(a, b)
    ensures !Less(b, a)
  {
    if |a| > 0 && |b| > 0 && a[0] == b[0] {
      LessAsymmetric(a[1..], b[1..]);
    }
  }
}
