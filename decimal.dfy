/** Decimal text of integers as printf's `%d`, `%ld` and the unsigned
    conversions produce it, and the reading of such text back. */
module Decimal {
  import opened Wrappers

  const TwoTo63: int := 0x8000_0000_0000_0000
  const TwoTo64: int := 0x1_0000_0000_0000_0000

  /** An unsigned 64-bit integer (zbx_uint64_t). */
  type UInt64 = x: int | 0 <= x < TwoTo64

  /** A C `int`. */
  type Int32 = x: int | -0x8000_0000 <= x < 0x8000_0000

  predicate IsDigit(c: char)
  {
    '0' <= c <= '9'
  }

  predicate AllDigits(s: string)
  {
    forall k :: 0 <= k < |s| ==> IsDigit(s[k])
  }

  function DigitChar(d: nat): (c: char)
    requires d < 10
    ensures IsDigit(c) && c as int - '0' as int == d
  {
    (d + '0' as int) as char
  }

  function DigitValue(c: char): (d: nat)
    requires IsDigit(c)
    ensures d < 10
  {
    c as int - '0' as int
  }

  /** The decimal digits of `n`, without leading zeros. */
  function NatToDec(n: nat): (s: string)
    ensures |s| > 0 && AllDigits(s)
    ensures |s| > 1 ==> s[0] != '0'
  {
    if n < 10 then [DigitChar(n)] else NatToDec(n / 10) + [DigitChar(n % 10)]
  }

  /** `%d` / `%ld` of a signed value. */
  function IntToDec(n: int): string
  {
    if n < 0 then "-" + NatToDec(-n) else NatToDec(n)
  }

  /** The number a string of decimal digits denotes. */
  function DecToNat(s: string): nat
    requires AllDigits(s)
  {
    if |s| == 0 then 0 else DecToNat(s[..|s| - 1]) * 10 + DigitValue(s[|s| - 1])
  }

  /** Reading back the decimal text of a natural number gives the number. */
  lemma {:induction false} DecRoundTrip(n: nat)
    ensures DecToNat(NatToDec(n)) == n
  {
    if n >= 10 {
      var s := NatToDec(n);
      assert s[..|s| - 1] == NatToDec(n / 10);
      DecRoundTrip(n / 10);
    }
  }

  /** The text `%lu` (ZBX_FS_UI64) prints for an unsigned 64-bit value. */
  function FormatUInt64(u: UInt64): (s: string)
    ensures AllDigits(s) && DecToNat(s) == u
  {
    DecRoundTrip(u);
    NatToDec(u)
  }

  /** The text `%ld` prints when it is handed an unsigned 64-bit value: the
      bits are read as a signed (two's complement) long. */
  function FormatLd(u: UInt64): (s: string)
    ensures u < TwoTo63 ==> s == FormatUInt64(u)
    ensures u >= TwoTo63 ==> |s| > 1 && s[0] == '-'
  {
    IntToDec(if u < TwoTo63 then u else u - TwoTo64)
  }

  /** The text `%d` prints is a minus sign or digits, character by
      character. */
  lemma IntToDecChars(n: int)
    ensures forall k :: 0 <= k < |IntToDec(n)| ==> IsDigit(IntToDec(n)[k]) || IntToDec(n)[k] == '-'
  {
    if n < 0 {
      var d := NatToDec(-n);
      assert forall k :: 1 <= k < |IntToDec(n)| ==> IntToDec(n)[k] == d[k - 1];
    }
  }

  /** Signed decimal text read back: an optional minus sign and at least
      one digit. */
  function ParseInt(s: string): Option<int>
  {
    if |s| > 1 && s[0] == '-' && AllDigits(s[1..]) then Some(0 - DecToNat(s[1..]) as int)
    else if |s| > 0 && AllDigits(s) then Some(DecToNat(s) as int)
    else None
  }

  /** Reading back what `%d` prints gives the number. */
  lemma IntRoundTrip(n: int)
    ensures ParseInt(IntToDec(n)) == Some(n)
  {
    var s := IntToDec(n);
    if n < 0 {
      var d := NatToDec(-n);
      assert s == "-" + d;
      assert s[1..] == d;
      DecRoundTrip(-n);
      assert |s| > 1 && s[0] == '-' && AllDigits(s[1..]);
    } else {
      assert s == NatToDec(n);
      DecRoundTrip(n);
      assert IsDigit(s[0]);
      assert !(|s| > 1 && s[0] == '-');
    }
  }

  /** Unsigned decimal text read back, when it fits in 64 bits. */
  function ParseUInt64(s: string): (r: Option<UInt64>)
    ensures r.Some? ==> AllDigits(s) && DecToNat(s) == r.value
  {
    if |s| > 0 && AllDigits(s) && DecToNat(s) < TwoTo64 then Some(DecToNat(s)) else None
  }

  /** Reading back what `%lu` prints gives the number. */
  lemma UInt64RoundTrip(u: UInt64)
    ensures ParseUInt64(FormatUInt64(u)) == Some(u)
  {
  }

  /** What `%ld` prints for an unsigned value of 2^63 or more does not read
      back as an unsigned number at all. */
  lemma LdUnreadable(u: UInt64)
    requires u >= TwoTo63
    ensures ParseUInt64(FormatLd(u)) == None
  {
    assert !IsDigit(FormatLd(u)[0]);
  }
}
