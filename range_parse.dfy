/** parse_range: "START-STOP" text to a Range, in the manner of std::from_chars. */
module RangeParse {
  import opened Common
  import opened Ranges

  /** The std::errc values parse_range can report; Ok is the zero errc. */
  datatype Errc = Ok | InvalidArgument | ResultOutOfRange

  datatype ParseRangeResult = ParseRangeResult(range: Range, ec: Errc)

  /** The range every error result carries. */
  const EmptyRange: Range := Range(0, 0)

  /** Length of the longest prefix of decimal digits. */
  function DigitRun(s: string): (n: nat)
    ensures n <= |s| && AllDigits(s[..n])
    ensures n < |s| ==> !IsDigit(s[n])
  {
    if s == [] || !IsDigit(s[0]) then 0
    else
      var n := 1 + DigitRun(s[1..]);
      assert s[..n] == [s[0]] + s[1..][..n - 1];
      n
  }

  lemma {:induction false} DigitRunOfConcat(p: string, q: string)
    requires AllDigits(p)
    requires q == [] || !IsDigit(q[0])
    ensures DigitRun(p + q) == |p|
    decreases |p|
  {
    if p != [] {
      assert (p + q)[1..] == p[1..] + q;
      DigitRunOfConcat(p[1..], q);
    } else {
      assert p + q == q;
    }
  }

  /** What std::from_chars(first, last, value) does for a uint64 in base 10:
      it consumes the longest run of digits; with no digits it reports
      invalid_argument and consumes nothing; when the digits denote more than
      UINT64_MAX it reports result_out_of_range; on either error `value`
      keeps its previous content `initial`. */
  datatype FromCharsResult = FromCharsResult(consumed: nat, ec: Errc, value: uint64)

  function FromChars(s: string, initial: uint64): (r: FromCharsResult)
    ensures r.consumed == DigitRun(s)
    ensures r.ec == Ok <==> 0 < r.consumed && DecimalValue(s[..r.consumed]) <= UINT64_MAX
    ensures r.ec == InvalidArgument <==> r.consumed == 0
    ensures r.ec == Ok ==> r.value == DecimalValue(s[..r.consumed])
    ensures r.ec != Ok ==> r.value == initial
  {
    var n := DigitRun(s);
    if n == 0 then FromCharsResult(0, InvalidArgument, initial)
    else
      var v := DecimalValue(s[..n]);
      if v > UINT64_MAX then FromCharsResult(n, ResultOutOfRange, initial)
      else FromCharsResult(n, Ok, v)
  }

  /** parse_range as written: after reading the stop number it tests the
      error code of the START number again, so a failed stop conversion is
      not reported and the zero-initialised stop is used. */
  function ParseRange(s: string): (r: ParseRangeResult)
    ensures r.ec != Ok ==> r.range == Range(0, 0)
    ensures r.ec == Ok ==> WellFormed(r.range)
  {
    var first := FromChars(s, 0);
    if first.ec != Ok then ParseRangeResult(Range(0, 0), first.ec)
    else if first.consumed >= |s| || s[first.consumed] != '-' then ParseRangeResult(Range(0, 0), InvalidArgument)
    else
      var rest := s[first.consumed + 1..];
      var second := FromChars(rest, 0);
      if first.ec != Ok then ParseRangeResult(EmptyRange, first.ec)
      else if first.consumed + 1 + second.consumed != |s| then ParseRangeResult(Range(0, 0), InvalidArgument)
      else if first.value > second.value then ParseRangeResult(Range(0, 0), ResultOutOfRange)
      else ParseRangeResult(Range(first.value, second.value), Ok)
  }

  /** The stop number parse_range as written goes on with: the digits
      after the dash when they convert, otherwise the 0 it started with. */
  function StopAsWritten(t: string): uint64
  {
    var j := DigitRun(t);
    if 0 < j && DecimalValue(t[..j]) <= UINT64_MAX then DecimalValue(t[..j]) else 0
  }

  /** Every outcome of parse_range as written, in the order it tests them:
      START does not convert (its own error), no dash after it
      (invalid_argument), text after STOP's digits (invalid_argument),
      START above the stop number (result_out_of_range); otherwise the
      range. Every error carries the range 0-0. */
  lemma ParseRangeOutcomes(s: string)
    ensures var i := DigitRun(s);
            var r := ParseRange(s);
            && (i == 0 ==> r == ParseRangeResult(Range(0, 0), InvalidArgument))
            && (0 < i && DecimalValue(s[..i]) > UINT64_MAX ==> r == ParseRangeResult(Range(0, 0), ResultOutOfRange))
            && (0 < i && DecimalValue(s[..i]) <= UINT64_MAX && (i == |s| || s[i] != '-') ==>
                  r == ParseRangeResult(Range(0, 0), InvalidArgument))
    ensures var i := DigitRun(s);
            var r := ParseRange(s);
            0 < i < |s| && DecimalValue(s[..i]) <= UINT64_MAX && s[i] == '-' ==>
              var t := s[i + 1..];
              && (DigitRun(t) != |t| ==> r == ParseRangeResult(Range(0, 0), InvalidArgument))
              && (DigitRun(t) == |t| && DecimalValue(s[..i]) > StopAsWritten(t) ==>
                    r == ParseRangeResult(Range(0, 0), ResultOutOfRange))
              && (DigitRun(t) == |t| && DecimalValue(s[..i]) <= StopAsWritten(t) ==>
                    r == ParseRangeResult(Range(DecimalValue(s[..i]), StopAsWritten(t)), Ok))
  {
  }

  /** parse_range with the stop number's own error code tested, as intended. */
  function ParseRangeChecked(s: string): (r: ParseRangeResult)
    ensures r.ec != Ok ==> r.range == Range(0, 0)
    ensures r.ec == Ok ==> WellFormed(r.range)
  {
    var first := FromChars(s, 0);
    if first.ec != Ok then ParseRangeResult(Range(0, 0), first.ec)
    else if first.consumed >= |s| || s[first.consumed] != '-' then ParseRangeResult(Range(0, 0), InvalidArgument)
    else
      var rest := s[first.consumed + 1..];
      var second := FromChars(rest, 0);
      if second.ec != Ok then ParseRangeResult(Range(0, 0), second.ec)
      else if first.consumed + 1 + second.consumed != |s| then ParseRangeResult(Range(0, 0), InvalidArgument)
      else if first.value > second.value then ParseRangeResult(Range(0, 0), ResultOutOfRange)
      else ParseRangeResult(Range(first.value, second.value), Ok)
  }

  /** The text "A-B": one or more decimal digits denoting `a`, a dash, and
      one or more decimal digits denoting `b` (leading zeros allowed). */
  predicate IsRangeText(s: string, a: nat, b: nat)
  {
    var i := DigitRun(s);
    0 < i < |s| && s[i] == '-'
    && var t := s[i + 1..];
    0 < |t| && AllDigits(t) && DecimalValue(s[..i]) == a && DecimalValue(t) == b
  }

  /** The corrected parser accepts exactly range texts whose numbers fit a
      uint64 and are in order, and returns those numbers. */
  lemma {:induction false} ParseRangeCheckedAccepts(s: string)
    ensures ParseRangeChecked(s).ec == Ok <==>
      exists a: uint64, b: uint64 {:trigger IsRangeText(s, a, b)} :: a <= b && IsRangeText(s, a, b)
    ensures forall a: uint64, b: uint64 {:trigger IsRangeText(s, a, b)} ::
      ParseRangeChecked(s).ec == Ok && IsRangeText(s, a, b) ==> ParseRangeChecked(s).range == Range(a, b)
  {
    var r := ParseRangeChecked(s);
    var i := DigitRun(s);
    if r.ec == Ok {
      var t := s[i + 1..];
      var j := DigitRun(t);
      assert t[..j] == t;
      var a: uint64 := DecimalValue(s[..i]);
      var b: uint64 := DecimalValue(t);
      assert IsRangeText(s, a, b);
    }
    if exists a: uint64, b: uint64 {:trigger IsRangeText(s, a, b)} :: a <= b && IsRangeText(s, a, b) {
      var a: uint64, b: uint64 :| a <= b && IsRangeText(s, a, b);
      var t := s[i + 1..];
      DigitRunOfConcat(t, []);
      assert t + [] == t;
      assert t[..|t|] == t;
    }
  }

  /** Every error leaves the range 0-0; out-of-order numbers are result_out_of_range. */
  lemma {:induction false} ParseRangeCheckedOutOfOrder(s: string, a: uint64, b: uint64)
    requires IsRangeText(s, a, b) && a > b
    ensures ParseRangeChecked(s) == ParseRangeResult(Range(0, 0), ResultOutOfRange)
  {
    var t := s[DigitRun(s) + 1..];
    DigitRunOfConcat(t, []);
    assert t + [] == t;
    assert t[..|t|] == t;
  }

  /** Printing a range in the flag's format and parsing it gives it back. */
  lemma {:induction false} ParseRangeRoundTrip(r: Range)
    requires WellFormed(r)
    ensures ParseRangeChecked(NatToDecimal(r.start) + "-" + NatToDecimal(r.stop)) == ParseRangeResult(r, Ok)
    ensures ParseRange(NatToDecimal(r.start) + "-" + NatToDecimal(r.stop)) == ParseRangeResult(r, Ok)
  {
    var s := NatToDecimal(r.start) + "-" + NatToDecimal(r.stop);
    assert ParseRangeChecked(s) == ParseRangeResult(r, Ok) by {
      PrintedRangeIsRangeText(r.start, r.stop);
      ParseRangeCheckedAccepts(s);
    }
    AgreesWhenAccepted(s);
  }

  lemma AgreesWhenAccepted(s: string)
    requires ParseRangeChecked(s).ec == Ok
    ensures ParseRange(s) == ParseRangeChecked(s)
  {
  }

  lemma {:induction false} PrintedRangeIsRangeText(start: nat, stop: nat)
    ensures IsRangeText(NatToDecimal(start) + "-" + NatToDecimal(stop), start, stop)
  {
    var a := NatToDecimal(start);
    var b := NatToDecimal(stop);
    var s := a + "-" + b;
    assert s == a + ("-" + b);
    DigitRunOfConcat(a, "-" + b);
    assert s[..|a|] == a;
    assert s[|a| + 1..] == b;
  }

  /** The two parsers differ only where the stop number fails to convert:
      everywhere else parse_range as written is the intended parser. */
  lemma {:induction false} ParseRangeAgreesWhenStopConverts(s: string)
    requires var i := DigitRun(s); i < |s| ==> FromChars(s[i + 1..], 0).ec == Ok
    ensures ParseRange(s) == ParseRangeChecked(s)
  {
  }

  /** "0-" has no stop number, yet the code accepts it as the empty range 0-0. */
  lemma MissingStopAccepted()
    ensures ParseRange("0-") == ParseRangeResult(Range(0, 0), Ok)
    ensures ParseRangeChecked("0-") == ParseRangeResult(Range(0, 0), InvalidArgument)
  {
    assert DigitRun("0-") == 1 by {
      assert "0-" == "0" + "-";
      DigitRunOfConcat("0", "-");
    }
    assert "0-"[..1] == "0";
    assert "0-"[2..] == [];
  }

  /** "7-" reports result_out_of_range although the text is merely incomplete. */
  lemma MissingStopMisreported()
    ensures ParseRange("7-") == ParseRangeResult(Range(0, 0), ResultOutOfRange)
    ensures ParseRangeChecked("7-") == ParseRangeResult(Range(0, 0), InvalidArgument)
  {
    assert DigitRun("7-") == 1 by {
      assert "7-" == "7" + "-";
      DigitRunOfConcat("7", "-");
    }
    assert "7-"[..1] == "7";
    assert "7-"[2..] == [];
  }
}
