/** The fixed-point value parser shared by all three scanners: every digit is accumulated as
    `temp = temp * 10 + digit`, `'.'` and other bytes are ignored, and any `'-'` negates the
    result at the end, so "12.3" becomes 123 (the value times ten). The value text is the byte
    range `[lo, hi)` of the buffer, between the `';'` and the `'\n'`. */
module ValueParser {
  import opened Bytes

  /** The digits of `[lo, hi)`, read left to right as one decimal number; other bytes are skipped. */
  function Digits(buf: seq<byte>, lo: nat, hi: nat): (n: nat)
    requires lo <= hi <= |buf|
    ensures n < Pow10(hi - lo)
    decreases hi - lo
  {
    if hi == lo then 0
    else
      var d := Digits(buf, lo, hi - 1);
      if IsDigit(buf[hi - 1]) then d * 10 + (buf[hi - 1] - ZERO) as int else d
  }

  function Pow10(k: nat): (p: nat)
    ensures p > 0
  {
    if k == 0 then 1 else 10 * Pow10(k - 1)
  }

  /** Some byte of `[lo, hi)` is a `'-'`. */
  predicate HasMinus(buf: seq<byte>, lo: nat, hi: nat)
    requires lo <= hi <= |buf|
    ensures HasMinus(buf, lo, hi) <==> exists i :: lo <= i < hi && buf[i] == MINUS
    decreases hi - lo
  {
    lo < hi && (buf[hi - 1] == MINUS || HasMinus(buf, lo, hi - 1))
  }

  /** What the parser loop yields for the value text `[lo, hi)`. */
  function Value(buf: seq<byte>, lo: nat, hi: nat): (t: int)
    requires lo <= hi <= |buf|
    ensures t == Digits(buf, lo, hi) || t == -(Digits(buf, lo, hi) as int)
    ensures t < 0 ==> HasMinus(buf, lo, hi)
    ensures HasMinus(buf, lo, hi) ==> t <= 0
  {
    if HasMinus(buf, lo, hi) then -(Digits(buf, lo, hi) as int) else Digits(buf, lo, hi)
  }

  /** The value loop of all three scanners (`temp`, `negative`) over `[lo, hi)`. */
  method ParseTemp(buf: seq<byte>, lo: nat, hi: nat) returns (temp: int)
    requires lo <= hi <= |buf|
    ensures temp == Value(buf, lo, hi)
  {
    var acc: nat := 0;
    var negative := false;
    var curr := lo;
    while curr < hi
      invariant lo <= curr <= hi
      invariant acc == Digits(buf, lo, curr)
      invariant negative <==> HasMinus(buf, lo, curr)
    {
      if buf[curr] == MINUS {
        negative := true;
      } else if ZERO <= buf[curr] <= NINE {
        acc := acc * 10 + (buf[curr] - ZERO) as int;
      }
      curr := curr + 1;
    }
    temp := if negative then -(acc as int) else acc;
  }

  /** The decimal value of a run of digit bytes. */
  function Decimal(buf: seq<byte>, lo: nat, hi: nat): int
    requires lo <= hi <= |buf|
    decreases hi - lo
  {
    if hi == lo then 0 else Decimal(buf, lo, hi - 1) * 10 + (buf[hi - 1] as int - ZERO as int)
  }

  predicate AllDigits(buf: seq<byte>, lo: nat, hi: nat)
    requires lo <= hi <= |buf|
  {
    forall i :: lo <= i < hi ==> IsDigit(buf[i])
  }

  /** The text the generator writes: an optional `'-'`, one or two digits, `'.'`, one digit. */
  predicate WellFormedValue(buf: seq<byte>, lo: nat, hi: nat)
    requires lo <= hi <= |buf|
  {
    var off := if lo < hi && buf[lo] == MINUS then 1 else 0;
    lo + off + 3 <= hi <= lo + off + 4 &&
    IsDigit(buf[lo + off]) && IsDigit(buf[hi - 3]) && buf[hi - 2] == DOT && IsDigit(buf[hi - 1])
  }

  lemma {:induction false} DigitsOfDigits(buf: seq<byte>, lo: nat, hi: nat)
    requires lo <= hi <= |buf| && AllDigits(buf, lo, hi)
    ensures Digits(buf, lo, hi) == Decimal(buf, lo, hi)
    ensures !HasMinus(buf, lo, hi)
    decreases hi - lo
  {
    if lo < hi {
      DigitsOfDigits(buf, lo, hi - 1);
    }
  }

  /** A leading `'-'` contributes no digit. */
  lemma {:induction false} DigitsSkipMinus(buf: seq<byte>, lo: nat, hi: nat)
    requires lo < hi <= |buf| && buf[lo] == MINUS
    ensures Digits(buf, lo, hi) == Digits(buf, lo + 1, hi)
    ensures HasMinus(buf, lo, hi)
    decreases hi - lo
  {
    if lo + 1 < hi {
      DigitsSkipMinus(buf, lo, hi - 1);
    }
  }

  /** The parser recovers the fixed-point meaning of a well-formed value: plus or minus (whole
      part times ten plus the tenths digit), within -999..999. */
  lemma ValueOfWellFormed(buf: seq<byte>, lo: nat, hi: nat)
    requires lo <= hi <= |buf| && WellFormedValue(buf, lo, hi)
    ensures var off := if buf[lo] == MINUS then 1 else 0;
            Value(buf, lo, hi) ==
            (if off == 1 then -1 else 1) * (Decimal(buf, lo + off, hi - 2) * 10 + (buf[hi - 1] - ZERO) as int)
    ensures -999 <= Value(buf, lo, hi) <= 999
  {
    var off := if buf[lo] == MINUS then 1 else 0;
    var w := hi - 2;
    DigitsOfDigits(buf, lo + off, w);
    if off == 1 {
      DigitsSkipMinus(buf, lo, w);
    }
    assert Digits(buf, lo, hi) == Digits(buf, lo, w) * 10 + (buf[hi - 1] - ZERO) as int;
    assert HasMinus(buf, lo, hi) <==> HasMinus(buf, lo, w);
    if w == lo + off + 2 {
      assert Decimal(buf, lo + off, w) == Decimal(buf, lo + off, w - 1) * 10 + (buf[w - 1] - ZERO) as int;
    }
  }

  /** The worked examples of the format: "5.3", "-5.3", "12.0", "-0.1". */
  lemma ParserExamples()
    ensures Value([53, 46, 51], 0, 3) == 53
    ensures Value([45, 53, 46, 51], 0, 4) == -53
    ensures Value([49, 50, 46, 48], 0, 4) == 120
    ensures Value([45, 48, 46, 49], 0, 4) == -1
  {
    ValueOfWellFormed([53, 46, 51], 0, 3);
    ValueOfWellFormed([45, 53, 46, 51], 0, 4);
    var t: seq<byte> := [49, 50, 46, 48];
    ValueOfWellFormed(t, 0, 4);
    assert Decimal(t, 0, 2) == 12 by { assert Decimal(t, 0, 1) == 1; }
    ValueOfWellFormed([45, 48, 46, 49], 0, 4);
  }
}
