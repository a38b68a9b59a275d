/** Machine integer widths, bytes and the decimal text that printf and
    std::to_string produce. */
module Common {

  type byte = x: int | 0 <= x < 0x100
  type uint32 = x: int | 0 <= x < 0x1_0000_0000
  type uint64 = x: int | 0 <= x < 0x1_0000_0000_0000_0000
  type int32 = x: int | -0x8000_0000 <= x < 0x8000_0000
  type int64 = x: int | -0x8000_0000_0000_0000 <= x < 0x8000_0000_0000_0000

  const UINT32_MODULUS: int := 0x1_0000_0000
  const UINT64_MODULUS: int := 0x1_0000_0000_0000_0000
  const UINT64_MAX: uint64 := 0xFFFF_FFFF_FFFF_FFFF

  /** static_cast<uint32_t> of an int32: two's-complement reinterpretation. */
  function ToUint32(v: int32): (u: uint32)
    ensures u % UINT32_MODULUS == v % UINT32_MODULUS
    ensures v >= 0 ==> u == v
  {
    if v < 0 then v + UINT32_MODULUS else v
  }

  /** static_cast<uint64_t> of an int64: two's-complement reinterpretation. */
  function ToUint64(v: int64): (u: uint64)
    ensures u % UINT64_MODULUS == v % UINT64_MODULUS
    ensures v >= 0 ==> u == v
  {
    if v < 0 then v + UINT64_MODULUS else v
  }

  /** A uint32 passed where printf expects an int: the signed reading of its bits. */
  function AsInt32(u: uint32): (v: int32)
    ensures v % UINT32_MODULUS == u % UINT32_MODULUS
    ensures u < 0x8000_0000 ==> v == u
  {
    if u < 0x8000_0000 then u else u - UINT32_MODULUS
  }

  /** A uint64 or size_t converted to `int`: the low 32 bits read as
      signed, as GCC converts out-of-range values. */
  function NarrowToInt(n: nat): (v: int32)
    ensures v % UINT32_MODULUS == n % UINT32_MODULUS
    ensures n < 0x8000_0000 ==> v == n
  {
    AsInt32(n % UINT32_MODULUS)
  }

  /** The narrowed value is zero exactly at the multiples of 2^32. */
  lemma NarrowToIntZero(n: nat)
    ensures NarrowToInt(n) == 0 <==> n % UINT32_MODULUS == 0
  {
    var v := NarrowToInt(n);
    if n % UINT32_MODULUS == 0 {
      assert v % UINT32_MODULUS == 0;
    }
  }

  lemma {:induction false} Uint32Int32RoundTrip(v: int32)
    ensures AsInt32(ToUint32(v)) == v
    ensures forall u: uint32 {:trigger AsInt32(u)} :: ToUint32(AsInt32(u)) == u
  {
  }

  function Min(a: int, b: int): (m: int)
    ensures m <= a && m <= b && (m == a || m == b)
  {
    if a < b then a else b
  }

  predicate IsDigit(c: char) { '0' <= c <= '9' }

  predicate AllDigits(s: string) { forall k :: 0 <= k < |s| ==> IsDigit(s[k]) }

  function DigitChar(d: nat): (c: char)
    requires d < 10
    ensures IsDigit(c) && (c as int) - ('0' as int) == d
  {
    ('0' as int + d) as char
  }

  function DigitValue(c: char): (d: nat)
    requires IsDigit(c)
    ensures d < 10 && DigitChar(d) == c
  {
    (c as int) - ('0' as int)
  }

  /** The number a string of decimal digits denotes (most significant first). */
  function DecimalValue(s: string): nat
    requires AllDigits(s)
  {
    if s == [] then 0 else DecimalValue(s[..|s| - 1]) * 10 + DigitValue(s[|s| - 1])
  }

  /** Shortest decimal text of a natural number: what "%u" prints. */
  function NatToDecimal(n: nat): (s: string)
    ensures 1 <= |s| && AllDigits(s)
    ensures |s| > 1 ==> s[0] != '0'
    ensures DecimalValue(s) == n
    decreases n
  {
    if n < 10 then [DigitChar(n)]
    else
      var prefix := NatToDecimal(n / 10);
      var s := prefix + [DigitChar(n % 10)];
      assert s[..|s| - 1] == prefix;
      s
  }

  /** Leading-zero-free digit strings are exactly the images of NatToDecimal. */
  lemma {:induction false} DecimalRoundTrip(s: string)
    requires AllDigits(s) && 1 <= |s| && (|s| > 1 ==> s[0] != '0')
    ensures NatToDecimal(DecimalValue(s)) == s
    decreases |s|
  {
    if |s| == 1 {
    } else {
      var p := s[..|s| - 1];
      assert AllDigits(p);
      DecimalRoundTrip(p);
      var n := DecimalValue(s);
      assert DecimalValue(p) >= 1 by { DecimalPositive(p); }
      assert n / 10 == DecimalValue(p) && n % 10 == DigitValue(s[|s| - 1]);
      assert s == p + [s[|s| - 1]];
    }
  }

  lemma {:induction false} DecimalPositive(s: string)
    requires AllDigits(s) && 1 <= |s| && s[0] != '0'
    ensures DecimalValue(s) >= 1
    decreases |s|
  {
    if |s| > 1 {
      var p := s[..|s| - 1];
      assert p[0] == s[0];
      DecimalPositive(p);
    }
  }

  function Pow10(k: nat): (p: nat)
    ensures p >= 1
  {
    if k == 0 then 1 else 10 * Pow10(k - 1)
  }

  /** A number below 10^k prints in at most k digits. */
  lemma {:induction false} NatToDecimalLength(n: nat, k: nat)
    requires 1 <= k && n < Pow10(k)
    ensures |NatToDecimal(n)| <= k
    decreases k
  {
    if n >= 10 {
      NatToDecimalLength(n / 10, k - 1);
    }
  }

  /** What "%d" and std::to_string print for a signed integer. */
  function IntToDecimal(i: int): (s: string)
    ensures 1 <= |s|
    ensures i >= 0 ==> s == NatToDecimal(i)
    ensures i < 0 ==> s[0] == '-' && s[1..] == NatToDecimal(-i)
  {
    if i < 0 then "-" + NatToDecimal(-i) else NatToDecimal(i)
  }

  /** Left-pads with '0' up to `width` characters (longer text is kept whole). */
  function ZeroPad(s: string, width: nat): (r: string)
    ensures |r| == if |s| >= width then |s| else width
    ensures r[|r| - |s|..] == s
    ensures forall k :: 0 <= k < |r| - |s| ==> r[k] == '0'
  {
    if |s| >= width then s else seq(width - |s|, _ => '0') + s
  }

  /** printf "%0<width>d": the sign comes first and counts towards the width. */
  function FormatIntWidth(i: int, width: nat): (r: string)
    ensures i >= 0 ==> r == ZeroPad(NatToDecimal(i), width)
    ensures i < 0 ==> 2 <= |r| && r[0] == '-' && r[1..] == ZeroPad(NatToDecimal(-i), if width > 0 then width - 1 else 0)
  {
    if i < 0 then "-" + ZeroPad(NatToDecimal(-i), if width > 0 then width - 1 else 0)
    else ZeroPad(NatToDecimal(i), width)
  }

  /** A number below 10^width prints in exactly `width` characters. */
  lemma {:induction false} FormatIntWidthLength(n: nat, width: nat)
    requires 1 <= width && n < Pow10(width)
    ensures |FormatIntWidth(n, width)| == width
  {
    NatToDecimalLength(n, width);
  }

  /** A zero-padded number still denotes the number. */
  lemma {:induction false} ZeroPadValue(n: nat, width: nat)
    ensures AllDigits(ZeroPad(NatToDecimal(n), width))
    ensures DecimalValue(ZeroPad(NatToDecimal(n), width)) == n
  {
    var s := NatToDecimal(n);
    if |s| < width {
      LeadingZeros(width - |s|, s);
    }
  }

  lemma {:induction false} LeadingZeros(k: nat, s: string)
    requires AllDigits(s)
    ensures AllDigits(seq(k, _ => '0') + s)
    ensures DecimalValue(seq(k, _ => '0') + s) == DecimalValue(s)
    decreases |s|
  {
    var z := seq(k, _ => '0');
    if s == [] {
      assert z + s == z;
      AllZeros(k);
    } else {
      var p := s[..|s| - 1];
      LeadingZeros(k, p);
      assert (z + s)[..|z + s| - 1] == z + p;
    }
  }

  lemma {:induction false} AllZeros(k: nat)
    ensures AllDigits(seq(k, _ => '0'))
    ensures DecimalValue(seq(k, _ => '0')) == 0
    decreases k
  {
    if k > 0 {
      var z := seq(k, _ => '0');
      assert z[..k - 1] == seq(k - 1, _ => '0');
      AllZeros(k - 1);
    }
  }

  /** A C `char` buffer written to a stream: each byte becomes one character. */
  function BytesToChars(b: seq<byte>): (s: string)
    ensures |s| == |b|
    ensures forall k :: 0 <= k < |b| ==> s[k] as int == b[k]
  {
    seq(|b|, k requires 0 <= k < |b| => b[k] as char)
  }

  /** A string whose every character is one C `char` byte. */
  predicate IsByteString(s: string) { forall k :: 0 <= k < |s| ==> (s[k] as int) < 0x100 }

  /** Reading such a string back as bytes. */
  function CharsToBytes(s: string): (b: seq<byte>)
    requires IsByteString(s)
    ensures |b| == |s| && forall k :: 0 <= k < |s| ==> b[k] == s[k] as int
  {
    if s == [] then [] else [s[0] as int] + CharsToBytes(s[1..])
  }
}
