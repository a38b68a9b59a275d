/** The text the stream printers produce for one value: CSV quoting, JSON
    string escaping and the ISO-8601 timestamps with automatic precision.
    These are the specifications the printer's loops are proved against. */
module TextFormats {
  import opened Common
  import opened Wrappers
  import opened CivilCalendar

  // ---------------------------------------------------------------------
  // CSV
  // ---------------------------------------------------------------------

  /** A character that forces a CSV field into quotes. */
  predicate ForcesQuotes(c: char) { c == '"' || c == ',' || c == '\n' || c == '\r' }

  predicate NeedsQuotes(s: string) { exists k :: 0 <= k < |s| && ForcesQuotes(s[k]) }

  /** Every '"' written twice. */
  function DoubleQuotes(s: string): string
  {
    if s == [] then [] else (if s[0] == '"' then "\"\"" else [s[0]]) + DoubleQuotes(s[1..])
  }

  lemma {:induction false} DoubleQuotesAppend(a: string, b: string)
    ensures DoubleQuotes(a + b) == DoubleQuotes(a) + DoubleQuotes(b)
    decreases |a|
  {
    if a != [] {
      assert (a + b)[1..] == a[1..] + b;
      DoubleQuotesAppend(a[1..], b);
    } else {
      assert a + b == b;
    }
  }

  lemma {:induction false} DoubleQuotesNoQuote(s: string)
    requires forall k :: 0 <= k < |s| ==> s[k] != '"'
    ensures DoubleQuotes(s) == s
    decreases |s|
  {
    if s != [] {
      DoubleQuotesNoQuote(s[1..]);
    }
  }

  /** CsvPrinter::writeString as text. */
  function CsvField(s: string): string
  {
    if NeedsQuotes(s) then "\"" + DoubleQuotes(s) + "\"" else s
  }

  /** Reading a pair of doubled quotes back as one. */
  function UndoubleQuotes(s: string): string
  {
    if |s| >= 2 && s[0] == '"' && s[1] == '"' then "\"" + UndoubleQuotes(s[2..])
    else if s == [] then []
    else [s[0]] + UndoubleQuotes(s[1..])
  }

  /** What a CSV reader makes of one field. */
  function CsvUnquote(s: string): string
  {
    if |s| >= 2 && s[0] == '"' && s[|s| - 1] == '"' then UndoubleQuotes(s[1..|s| - 1]) else s
  }

  lemma {:induction false} UndoubleDoubleQuotes(s: string)
    ensures UndoubleQuotes(DoubleQuotes(s)) == s
    decreases |s|
  {
    if s != [] {
      UndoubleDoubleQuotes(s[1..]);
      if s[0] == '"' {
        assert DoubleQuotes(s) == "\"\"" + DoubleQuotes(s[1..]);
        assert DoubleQuotes(s)[2..] == DoubleQuotes(s[1..]);
      } else {
        assert DoubleQuotes(s) == [s[0]] + DoubleQuotes(s[1..]);
        assert DoubleQuotes(s)[1..] == DoubleQuotes(s[1..]);
      }
    }
  }

  /** A field without a special character is written verbatim, and quote
      removal gives back every value. */
  lemma CsvFieldRoundTrip(s: string)
    ensures !NeedsQuotes(s) ==> CsvField(s) == s
    ensures NeedsQuotes(s) ==> CsvField(s)[0] == '"'
    ensures CsvUnquote(CsvField(s)) == s
  {
    if NeedsQuotes(s) {
      var f := CsvField(s);
      assert f[1..|f| - 1] == DoubleQuotes(s);
      UndoubleDoubleQuotes(s);
    } else if |s| >= 2 {
      assert !ForcesQuotes(s[0]);
    }
  }

  // ---------------------------------------------------------------------
  // JSON
  // ---------------------------------------------------------------------

  /** A control character: '\0' <= c <= '\x1f' on a signed char, so bytes
      from 0x80 on are not controls. */
  predicate IsControl(c: char) { c as int <= 0x1F }

  function HexDigit(d: nat): (c: char)
    requires d < 16
  {
    if d < 10 then ('0' as int + d) as char else ('a' as int + d - 10) as char
  }

  predicate IsHex(c: char) { '0' <= c <= '9' || 'a' <= c <= 'f' }

  function HexValue(c: char): (d: nat)
    requires IsHex(c)
    ensures d < 16
  {
    if c <= '9' then c as int - '0' as int else c as int - 'a' as int + 10
  }

  lemma HexRoundTrip(d: nat)
    requires d < 16
    ensures IsHex(HexDigit(d)) && HexValue(HexDigit(d)) == d
  {
  }

  /** The escape JSON gives a control character without a short name: \u00XX in hex. */
  function ControlEscape(c: char): (r: string)
    requires IsControl(c)
    ensures |r| == 6 && r[..4] == "\\u00"
  {
    var v := c as int;
    "\\u00" + [HexDigit(v / 16), HexDigit(v % 16)]
  }

  /** The escape line 549 writes: "\\u%04hhd", the value in DECIMAL. A
      control byte is below 32, so the four digits are two zeros and its
      two decimal digits (ControlEscapeAsWrittenIsPrintf). */
  function ControlEscapeAsWritten(c: char): (r: string)
    requires IsControl(c)
    ensures |r| == 6 && r[..4] == "\\u00"
  {
    var v := c as int;
    "\\u00" + [DigitChar(v / 10), DigitChar(v % 10)]
  }

  /** What one byte of a JSON string becomes (the corrected escape). */
  function JsonEscapeChar(c: char): (r: string)
    ensures c != '"' && c != '\\' && !IsControl(c) ==> r == [c]
    ensures c == '"' || c == '\\' || IsControl(c) ==> |r| >= 2 && r[0] == '\\'
  {
    match c
    case '"' => "\\\""
    case '\\' => "\\\\"
    case '\U{8}' => "\\b"
    case '\U{C}' => "\\f"
    case '\n' => "\\n"
    case '\r' => "\\r"
    case '\t' => "\\t"
    case _ => if IsControl(c) then ControlEscape(c) else [c]
  }

  /** The same switch with the escape of line 549 as written. */
  function JsonEscapeCharAsWritten(c: char): (r: string)
    ensures !IsControl(c) || c == '\U{8}' || c == '\U{C}' || c == '\n' || c == '\r' || c == '\t' ==> r == JsonEscapeChar(c)
  {
    match c
    case '"' => "\\\""
    case '\\' => "\\\\"
    case '\U{8}' => "\\b"
    case '\U{C}' => "\\f"
    case '\n' => "\\n"
    case '\r' => "\\r"
    case '\t' => "\\t"
    case _ => if IsControl(c) then ControlEscapeAsWritten(c) else [c]
  }

  /** The corrected escape of a whole string. */
  function JsonEscape(s: string): string
  {
    if s == [] then [] else JsonEscapeChar(s[0]) + JsonEscape(s[1..])
  }

  /** The corrected JSON string text. */
  function JsonString(s: string): string
  {
    "\"" + JsonEscape(s) + "\""
  }

  /** The escape of a whole string as line 549 writes it. */
  function JsonEscapeAsWritten(s: string): string
  {
    if s == [] then [] else JsonEscapeCharAsWritten(s[0]) + JsonEscapeAsWritten(s[1..])
  }

  /** JsonPrinter::writeString as text: what the program writes. */
  function JsonStringAsWritten(s: string): string
  {
    "\"" + JsonEscapeAsWritten(s) + "\""
  }

  /** The character a short escape \x stands for. */
  function ShortEscape(c: char): Option<char>
  {
    match c
    case '"' => Some('"')
    case '\\' => Some('\\')
    case 'b' => Some('\U{8}')
    case 'f' => Some('\U{C}')
    case 'n' => Some('\n')
    case 'r' => Some('\r')
    case 't' => Some('\t')
    case _ => None
  }

  /** What a JSON parser makes of the inside of a string (escapes up to
      ÿ; anything else is kept as it stands). */
  function JsonUnescape(s: string): string
  {
    if s == [] then []
    else if |s| >= 6 && s[0] == '\\' && s[1] == 'u' && s[2] == '0' && s[3] == '0' && IsHex(s[4]) && IsHex(s[5]) then
      [(16 * HexValue(s[4]) + HexValue(s[5])) as char] + JsonUnescape(s[6..])
    else if |s| >= 2 && s[0] == '\\' && ShortEscape(s[1]).Some? then
      [ShortEscape(s[1]).value] + JsonUnescape(s[2..])
    else [s[0]] + JsonUnescape(s[1..])
  }

  lemma JsonUnescapeChar(c: char, t: string)
    ensures JsonUnescape(JsonEscapeChar(c) + t) == [c] + JsonUnescape(t)
  {
    var e := JsonEscapeChar(c);
    var s := e + t;
    if c == '"' || c == '\\' || c in "\U{8}\U{C}\n\r\t" {
      assert s[2..] == t;
    } else if IsControl(c) {
      var v := c as int;
      HexRoundTrip(v / 16);
      HexRoundTrip(v % 16);
      assert s[6..] == t;
    } else {
      assert s[1..] == t;
    }
  }

  /** Parsing the escaped text gives back every byte. */
  lemma {:induction false} JsonEscapeRoundTrip(s: string)
    ensures JsonUnescape(JsonEscape(s)) == s
    decreases |s|
  {
    if s != [] {
      JsonEscapeRoundTrip(s[1..]);
      JsonUnescapeChar(s[0], JsonEscape(s[1..]));
    } else {
      assert JsonEscape(s) == [];
    }
  }

  /** The control characters the switch gives a short name. */
  predicate HasShortName(c: char) { c == '\U{8}' || c == '\U{C}' || c == '\n' || c == '\r' || c == '\t' }

  /** The bytes whose escape at line 549 reads back as another byte: 0x0B
      and 0x0E to 0x1F, the unnamed controls of two decimal digits. */
  predicate Misprinted(c: char) { c == '\U{B}' || '\U{E}' <= c <= '\U{1F}' }

  /** The byte a JSON parser reads from the escape of line 549:
      `%04hhd` writes the decimal digits of c, which the parser takes as
      hexadecimal. */
  function ReadBack(c: char): char
  {
    if IsControl(c) && !HasShortName(c) then (16 * (c as int / 10) + c as int % 10) as char else c
  }

  /** A byte reads back as itself exactly when it is not misprinted. */
  lemma ReadBackChanges(c: char)
    ensures ReadBack(c) != c <==> Misprinted(c)
  {
    if IsControl(c) && !HasShortName(c) {
      var v := c as int;
      assert 16 * (v / 10) + v % 10 == v + 6 * (v / 10);
    }
  }

  /** The escape is `\u` and printf's `%04hhd` of the byte: its decimal
      text zero-padded to four places. */
  lemma ControlEscapeAsWrittenIsPrintf(c: char)
    requires IsControl(c)
    ensures ControlEscapeAsWritten(c) == "\\u" + FormatIntWidth(c as int, 4)
  {
    var v := c as int;
    if v < 10 {
      assert NatToDecimal(v) == [DigitChar(v)];
      assert DigitChar(0) == '0';
      assert ZeroPad([DigitChar(v)], 4) == "000" + [DigitChar(v)];
    } else {
      assert NatToDecimal(v / 10) == [DigitChar(v / 10)];
      assert NatToDecimal(v) == [DigitChar(v / 10), DigitChar(v % 10)];
      assert ZeroPad([DigitChar(v / 10), DigitChar(v % 10)], 4) == "00" + [DigitChar(v / 10), DigitChar(v % 10)];
    }
  }

  /** A decimal digit is a hexadecimal digit of the same value. */
  lemma DigitIsHex(d: nat)
    requires d < 10
    ensures IsHex(DigitChar(d)) && HexValue(DigitChar(d)) == d
  {
  }

  lemma JsonUnescapeCharAsWritten(c: char, t: string)
    ensures JsonUnescape(JsonEscapeCharAsWritten(c) + t) == [ReadBack(c)] + JsonUnescape(t)
  {
    var e := JsonEscapeCharAsWritten(c);
    var s := e + t;
    if c == '"' || c == '\\' || HasShortName(c) {
      assert s[2..] == t;
    } else if IsControl(c) {
      var v := c as int;
      DigitIsHex(v / 10);
      DigitIsHex(v % 10);
      assert s[6..] == t;
    } else {
      assert s[1..] == t;
    }
  }

  /** What a parser reads back from the program's JSON string: every byte
      through ReadBack, so one text byte per value byte. */
  lemma {:induction false} JsonEscapeAsWrittenReadBack(s: string)
    ensures var r := JsonUnescape(JsonEscapeAsWritten(s));
            |r| == |s| && forall i :: 0 <= i < |s| ==> r[i] == ReadBack(s[i])
    decreases |s|
  {
    if s != [] {
      var rest := JsonEscapeAsWritten(s[1..]);
      JsonEscapeAsWrittenReadBack(s[1..]);
      JsonUnescapeCharAsWritten(s[0], rest);
      var tail := JsonUnescape(rest);
      assert JsonUnescape(JsonEscapeAsWritten(s)) == [ReadBack(s[0])] + tail;
      assert forall i :: 1 <= i < |s| ==> tail[i - 1] == ReadBack(s[i]) by {
        forall i | 1 <= i < |s| ensures tail[i - 1] == ReadBack(s[i]) {
          assert s[1..][i - 1] == s[i];
        }
      }
    } else {
      assert JsonEscapeAsWritten(s) == [];
    }
  }

  /** The program's JSON string reads back as the value exactly when no
      byte of the value is misprinted; then it is the corrected text. */
  lemma JsonStringAsWrittenFaithful(s: string)
    ensures JsonUnescape(JsonEscapeAsWritten(s)) == s <==> forall i :: 0 <= i < |s| ==> !Misprinted(s[i])
    ensures (forall i :: 0 <= i < |s| ==> !Misprinted(s[i])) ==> JsonStringAsWritten(s) == JsonString(s)
  {
    JsonEscapeAsWrittenReadBack(s);
    var r := JsonUnescape(JsonEscapeAsWritten(s));
    if forall i :: 0 <= i < |s| ==> !Misprinted(s[i]) {
      forall i | 0 <= i < |s| ensures r[i] == s[i] {
        ReadBackChanges(s[i]);
      }
      AsWrittenAgrees(s);
    } else {
      var i :| 0 <= i < |s| && Misprinted(s[i]);
      ReadBackChanges(s[i]);
      assert r[i] != s[i];
    }
  }

  /** The program's JSON string is quoted, and its body reads back byte by
      byte through ReadBack. */
  lemma JsonStringAsWrittenBody(s: string)
    ensures var t := JsonStringAsWritten(s);
            var r := JsonUnescape(t[1..|t| - 1]);
            |t| >= 2 && t[0] == '"' && t[|t| - 1] == '"' && |r| == |s|
            && (forall i :: 0 <= i < |s| ==> r[i] == ReadBack(s[i]))
            && (r == s <==> forall i :: 0 <= i < |s| ==> !Misprinted(s[i]))
  {
    var t := JsonStringAsWritten(s);
    assert t[1..|t| - 1] == JsonEscapeAsWritten(s);
    JsonEscapeAsWrittenReadBack(s);
    JsonStringAsWrittenFaithful(s);
  }

  /** Without a misprinted byte, both escapes write the same text. */
  lemma {:induction false} AsWrittenAgrees(s: string)
    requires forall i :: 0 <= i < |s| ==> !Misprinted(s[i])
    ensures JsonEscapeAsWritten(s) == JsonEscape(s)
    decreases |s|
  {
    if s != [] {
      var c := s[0];
      assert !Misprinted(c);
      if IsControl(c) && !HasShortName(c) && c != '"' && c != '\\' {
        var v := c as int;
        assert v < 10;
        assert HexDigit(v / 16) == DigitChar(v / 10);
        assert HexDigit(v % 16) == DigitChar(v % 10);
      }
      assert JsonEscapeCharAsWritten(c) == JsonEscapeChar(c);
      AsWrittenAgrees(s[1..]);
    }
  }

  /** Line 549 loses bytes: 0x0B is written as \u0011, which a parser reads as 0x11. */
  lemma ControlEscapeAsWrittenMisreads()
    ensures JsonEscapeCharAsWritten('\U{B}') == "\\u0011"
    ensures JsonUnescape(JsonEscapeCharAsWritten('\U{B}')) == "\U{11}"
    ensures JsonEscapeChar('\U{B}') == "\\u000b"
    ensures JsonUnescape(JsonEscapeChar('\U{B}')) == "\U{B}"
  {
    var e := JsonEscapeCharAsWritten('\U{B}');
    assert e == "\\u0011";
    assert JsonUnescape(e) == [(16 * HexValue('1') + HexValue('1')) as char] + JsonUnescape([]);
    JsonUnescapeChar('\U{B}', []);
    assert JsonEscapeChar('\U{B}') + [] == JsonEscapeChar('\U{B}');
  }

  // ---------------------------------------------------------------------
  // Timestamps
  // ---------------------------------------------------------------------

  /** C's integer `/`: the quotient truncated toward zero. */
  function CDiv(a: int, b: int): int
    requires b > 0
  {
    if a >= 0 then a / b else -((-a) / b)
  }

  /** C's integer `%`: the remainder takes the sign of the dividend. */
  function CRem(a: int, b: int): int
    requires b > 0
  {
    a - b * CDiv(a, b)
  }

  datatype TimestampSplit = TimestampSplit(epochSeconds: int, subsecondFraction: int)

  /** One case of the switch in writeRawShortISO8601UTCTimestamp: C division
      and remainder by p, then one second down for a negative value that has
      a remainder. */
  function SplitBy(value: int, p: int): (s: TimestampSplit)
    requires p > 0
    ensures s.epochSeconds * p + s.subsecondFraction == value
    ensures 0 <= s.subsecondFraction < p
  {
    var seconds := CDiv(value, p);
    var fraction := CRem(value, p);
    CDivRem(value, p);
    if value < 0 && fraction != 0 then
      assert (seconds - 1) * p + (fraction + p) == value by {
        assert (seconds - 1) * p == seconds * p - p;
      }
      DivModUnique(fraction + p, p, 0, fraction + p);
      TimestampSplit(seconds - 1, (fraction + p) % p)
    else TimestampSplit(seconds, fraction)
  }

  /** C division and remainder recombine, and the remainder is smaller than the divisor. */
  lemma CDivRem(a: int, b: int)
    requires b > 0
    ensures CDiv(a, b) * b + CRem(a, b) == a
    ensures a >= 0 ==> 0 <= CRem(a, b) < b
    ensures a < 0 ==> -b < CRem(a, b) <= 0
  {
    if a < 0 {
      var q, r := (-a) / b, (-a) % b;
      assert -a == b * q + r;
      assert CRem(a, b) == a + b * q;
    }
  }

  /** The adjusted C division is floor division. */
  lemma SplitByIsFloor(value: int, p: int)
    requires p > 0
    ensures SplitBy(value, p) == TimestampSplit(value / p, value % p)
  {
    var s := SplitBy(value, p);
    DivModUnique(value, p, s.epochSeconds, s.subsecondFraction);
  }

  /** The switch on nFractionDigits; any other count ends the process (None). */
  function SplitTimestamp(value: int64, nFractionDigits: int): (r: Option<TimestampSplit>)
    ensures r.Some? <==> nFractionDigits == 3 || nFractionDigits == 6 || nFractionDigits == 9
  {
    match nFractionDigits
    case 3 => Some(SplitBy(value, 1000))
    case 6 => Some(SplitBy(value, 1000000))
    case 9 => Some(SplitBy(value, 1000000000))
    case _ => None
  }

  /** For each supported precision the split is value = seconds * 10^n + fraction
      with 0 <= fraction < 10^n, that is, floor division. */
  lemma SplitTimestampIsFloor(value: int64, n: int)
    requires n == 3 || n == 6 || n == 9
    ensures var r := SplitTimestamp(value, n).value;
            && r.epochSeconds * Pow10(n) + r.subsecondFraction == value
            && 0 <= r.subsecondFraction < Pow10(n)
            && r == TimestampSplit(value / Pow10(n), value % Pow10(n))
  {
    assert Pow10(3) == 1000 && Pow10(6) == 1000000 && Pow10(9) == 1000000000 by {
      assert Pow10(1) == 10 && Pow10(2) == 100 && Pow10(4) == 10000 && Pow10(5) == 100000;
      assert Pow10(7) == 10000000 && Pow10(8) == 100000000;
    }
    SplitByIsFloor(value, Pow10(n));
  }

  lemma Pow10Step3(k: nat)
    ensures Pow10(k + 3) == 1000 * Pow10(k)
  {
    assert Pow10(k + 3) == 10 * Pow10(k + 2) == 100 * Pow10(k + 1);
  }

  datatype Stripped = Stripped(fraction: nat, digits: nat)

  /** The loop of lines 413-416: drop trailing groups of three zero digits. */
  function StripZeroGroups(fraction: nat, digits: nat): (r: Stripped)
    requires digits % 3 == 0
    ensures r.digits <= digits && r.digits % 3 == 0
    ensures r.digits > 0 ==> r.fraction % 1000 != 0
    decreases digits
  {
    if digits > 0 && fraction % 1000 == 0 then StripZeroGroups(fraction / 1000, digits - 3)
    else Stripped(fraction, digits)
  }

  /** Stripping keeps the value: the digits removed were zeros. */
  lemma {:induction false} StripZeroGroupsValue(fraction: nat, digits: nat)
    requires digits % 3 == 0
    ensures var r := StripZeroGroups(fraction, digits);
            r.fraction * Pow10(digits - r.digits) == fraction
    decreases digits
  {
    if digits > 0 && fraction % 1000 == 0 {
      var r := StripZeroGroups(fraction / 1000, digits - 3);
      StripZeroGroupsValue(fraction / 1000, digits - 3);
      Pow10Step3(digits - 3 - r.digits);
      assert r.fraction * Pow10(digits - r.digits) == 1000 * (r.fraction * Pow10(digits - 3 - r.digits));
    }
  }

  /** A fraction below 10^digits keeps its value in the digits left, and
      loses all of them exactly when it is zero. */
  lemma StripZeroGroupsDigits(fraction: nat, digits: nat)
    requires digits % 3 == 0 && fraction < Pow10(digits)
    ensures StripZeroGroups(fraction, digits).fraction < Pow10(StripZeroGroups(fraction, digits).digits)
    ensures StripZeroGroups(fraction, digits).digits == 0 <==> fraction == 0
  {
    var r := StripZeroGroups(fraction, digits);
    var k := digits - r.digits;
    StripZeroGroupsValue(fraction, digits);
    Pow10Add(r.digits, k);
    MulCancelLess(r.fraction, Pow10(r.digits), Pow10(k));
  }

  lemma MulCancelLess(a: int, b: int, c: int)
    requires c > 0 && a * c < b * c
    ensures a < b
  {
    if a >= b {
      MulMonotone(b, a, c);
    }
  }

  lemma {:induction false} Pow10Add(a: nat, b: nat)
    ensures Pow10(a + b) == Pow10(a) * Pow10(b)
    decreases a
  {
    if a > 0 {
      Pow10Add(a - 1, b);
    }
  }

  lemma MulMonotone(a: int, b: int, c: int)
    requires a <= b && 0 <= c
    ensures a * c <= b * c
  {
  }

  /** What gmtime_r works out: the whole days since the epoch (the calendar
      fields tm_year, tm_mon and tm_mday are CivilFromDays of it) and the
      time of day. */
  datatype BrokenDownTime = BrokenDownTime(day: int, hour: int, minute: int, second: int)

  /** gmtime_r on an integer time. */
  function GmTime(epochSeconds: int): (t: BrokenDownTime)
    ensures 0 <= t.hour < 24 && 0 <= t.minute < 60 && 0 <= t.second < 60
    ensures t.day * 86400 + t.hour * 3600 + t.minute * 60 + t.second == epochSeconds
  {
    var secondOfDay := epochSeconds % 86400;
    BrokenDownTime(epochSeconds / 86400, secondOfDay / 3600, secondOfDay % 3600 / 60, secondOfDay % 3600 % 60)
  }

  /** "%02d:%02d:%02d" of the time of day. */
  function ClockText(t: BrokenDownTime): string
  {
    FormatIntWidth(t.hour, 2) + ":" + FormatIntWidth(t.minute, 2) + ":" + FormatIntWidth(t.second, 2)
  }

  /** Lines 417-429: the time part, after the stripping loop. */
  function TimeText(t: BrokenDownTime, s: Stripped): string
  {
    if s.digits == 0 then
      if t.hour != 0 || t.minute != 0 || t.second != 0 then "T" + ClockText(t) + "Z" else ""
    else if s.digits == 3 || s.digits == 6 || s.digits == 9 then
      "T" + ClockText(t) + "." + FormatIntWidth(s.fraction, s.digits) + "Z"
    else ""
  }

  /** The text for an already split instant: the calendar date of its day,
      then the time part. */
  function SplitText(seconds: int, fraction: nat, nFractionDigits: nat): string
    requires nFractionDigits % 3 == 0
  {
    var t := GmTime(seconds);
    FormatDate(CivilFromDays(t.day)) + TimeText(t, StripZeroGroups(fraction, nFractionDigits))
  }

  /** writeRawShortISO8601UTCTimestamp as text, for the three supported precisions. */
  function TimestampText(value: int64, nFractionDigits: int): string
    requires nFractionDigits == 3 || nFractionDigits == 6 || nFractionDigits == 9
  {
    var split := SplitTimestamp(value, nFractionDigits).value;
    SplitText(split.epochSeconds, split.subsecondFraction, nFractionDigits)
  }

  /** The split second lands on the day and second of day that floor division
      by a day's worth of units finds. */
  lemma TimestampDecomposition(value: int64, n: int)
    requires n == 3 || n == 6 || n == 9
    ensures var split := SplitTimestamp(value, n).value;
            && split.epochSeconds / 86400 == value / (86400 * Pow10(n))
            && value % (86400 * Pow10(n)) == split.epochSeconds % 86400 * Pow10(n) + split.subsecondFraction
  {
    var split := SplitTimestamp(value, n).value;
    SplitTimestampIsFloor(value, n);
    DayDecomposition(value, split.epochSeconds, split.subsecondFraction, Pow10(n),
      split.epochSeconds / 86400, split.epochSeconds % 86400);
  }

  lemma DayDecomposition(value: int, seconds: int, fraction: int, p: int, days: int, sod: int)
    requires p > 0 && 0 <= fraction < p && 0 <= sod < 86400
    requires value == seconds * p + fraction && seconds == days * 86400 + sod
    ensures value / (86400 * p) == days && value % (86400 * p) == sod * p + fraction
  {
    assert value == (86400 * p) * days + (sod * p + fraction);
    assert sod * p + fraction < 86400 * p by {
      MulMonotone(sod + 1, 86400, p);
    }
    DivModUnique(value, 86400 * p, days, sod * p + fraction);
  }

  /** A remainder made of a second of day and a fraction is zero exactly
      when both are. */
  lemma ZeroRemainder(w: int, p: int, sod: int, fraction: int)
    requires p > 0 && 0 <= fraction < p && 0 <= sod && w == sod * p + fraction
    ensures w == 0 <==> sod == 0 && fraction == 0
    ensures w / p == sod && w % p == fraction
  {
    if sod > 0 {
      MulMonotone(1, sod, p);
    }
    DivModUnique(w, p, sod, fraction);
  }

  /** The date printed first is the calendar day that contains the instant. */
  lemma TimestampStartsWithDate(value: int64, n: int)
    requires n == 3 || n == 6 || n == 9
    ensures var d := CivilFromDays(value / (86400 * Pow10(n)));
            |FormatDate(d)| <= |TimestampText(value, n)| && TimestampText(value, n)[..|FormatDate(d)|] == FormatDate(d)
  {
    var split := SplitTimestamp(value, n).value;
    assert GmTime(split.epochSeconds).day == value / (86400 * Pow10(n)) by {
      TimestampDecomposition(value, n);
    }
    SplitStartsWithDate(split.epochSeconds, split.subsecondFraction, n);
  }

  lemma SplitStartsWithDate(seconds: int, fraction: nat, n: nat)
    requires n % 3 == 0
    ensures var date := FormatDate(CivilFromDays(GmTime(seconds).day));
            |date| <= |SplitText(seconds, fraction, n)| && SplitText(seconds, fraction, n)[..|date|] == date
  {
    var t := GmTime(seconds);
    PrefixOfConcat(FormatDate(CivilFromDays(t.day)), TimeText(t, StripZeroGroups(fraction, n)));
  }

  lemma PrefixOfConcat(a: string, b: string)
    ensures |a| <= |a + b| && (a + b)[..|a|] == a
  {
  }

  /** Only the date is printed exactly when the split instant is a midnight. */
  lemma SplitDateOnly(seconds: int, fraction: nat, n: nat)
    requires n % 3 == 0 && n <= 9 && fraction < Pow10(n)
    ensures SplitText(seconds, fraction, n) == FormatDate(CivilFromDays(seconds / 86400))
            <==> seconds % 86400 == 0 && fraction == 0
  {
    var t := GmTime(seconds);
    var st := StripZeroGroups(fraction, n);
    StripZeroGroupsDigits(fraction, n);
    TimeTextEmpty(t, st);
    ConcatEmpty(FormatDate(CivilFromDays(t.day)), TimeText(t, st));
  }

  lemma TimeTextEmpty(t: BrokenDownTime, st: Stripped)
    requires st.digits <= 9 && st.digits % 3 == 0
    requires 0 <= t.hour && 0 <= t.minute && 0 <= t.second
    ensures TimeText(t, st) == "" <==> st.digits == 0 && t.hour * 3600 + t.minute * 60 + t.second == 0
  {
  }

  lemma ConcatEmpty(a: string, b: string)
    ensures a + b == a <==> b == ""
  {
    if a + b == a {
      assert |b| == 0;
    }
  }

  /** The fraction as printed: nothing for zero, otherwise a point and the
      fraction with its trailing zero groups removed. */
  function FractionText(fraction: nat, n: nat): string
    requires n % 3 == 0
  {
    if fraction == 0 then "" else
    var st := StripZeroGroups(fraction, n);
    "." + FormatIntWidth(st.fraction, st.digits)
  }

  /** A split instant that is not a midnight prints its time of day and its
      fraction. */
  lemma SplitTimeOfDay(seconds: int, fraction: nat, n: nat)
    requires n % 3 == 0 && n <= 9 && fraction < Pow10(n)
    requires seconds % 86400 != 0 || fraction != 0
    ensures SplitText(seconds, fraction, n)
            == FormatDate(CivilFromDays(seconds / 86400)) + "T" + ClockText(GmTime(seconds)) + FractionText(fraction, n) + "Z"
  {
    var t := GmTime(seconds);
    assert t.hour * 3600 + t.minute * 60 + t.second == seconds % 86400 by {
      DivModUnique(seconds, 86400, t.day, t.hour * 3600 + t.minute * 60 + t.second);
    }
    StripZeroGroupsDigits(fraction, n);
    TimeTextShown(t, fraction, n);
    ConcatFive(FormatDate(CivilFromDays(t.day)), "T", ClockText(t), FractionText(fraction, n), "Z");
  }

  lemma ConcatFive(a: string, b: string, c: string, d: string, e: string)
    ensures a + (b + c + d + e) == a + b + c + d + e
  {
  }

  lemma TimeTextShown(t: BrokenDownTime, fraction: nat, n: nat)
    requires n % 3 == 0 && n <= 9
    requires StripZeroGroups(fraction, n).digits == 0 <==> fraction == 0
    requires 0 <= t.hour && 0 <= t.minute && 0 <= t.second
    requires t.hour * 3600 + t.minute * 60 + t.second != 0 || fraction != 0
    ensures TimeText(t, StripZeroGroups(fraction, n)) == "T" + ClockText(t) + FractionText(fraction, n) + "Z"
  {
    var st := StripZeroGroups(fraction, n);
    if fraction == 0 {
      assert t.hour != 0 || t.minute != 0 || t.second != 0;
      WholeSecondText(t, st);
    } else {
      GroupCount(st.digits);
      FractionalSecondText(t, st);
    }
  }

  lemma WholeSecondText(t: BrokenDownTime, st: Stripped)
    requires st.digits == 0 && (t.hour != 0 || t.minute != 0 || t.second != 0)
    ensures TimeText(t, st) == "T" + ClockText(t) + "" + "Z"
  {
    assert "T" + ClockText(t) + "" == "T" + ClockText(t);
  }

  lemma FractionalSecondText(t: BrokenDownTime, st: Stripped)
    requires st.digits == 3 || st.digits == 6 || st.digits == 9
    ensures TimeText(t, st) == "T" + ClockText(t) + ("." + FormatIntWidth(st.fraction, st.digits)) + "Z"
  {
    var digits := FormatIntWidth(st.fraction, st.digits);
    assert "T" + ClockText(t) + "." + digits == "T" + ClockText(t) + ("." + digits);
  }

  lemma GroupCount(d: nat)
    requires d % 3 == 0 && 0 < d <= 9
    ensures d == 3 || d == 6 || d == 9
  {
    assert d == 3 * (d / 3);
  }

  /** Only the date is printed exactly when the instant is a midnight. */
  lemma TimestampDateOnly(value: int64, n: int)
    requires n == 3 || n == 6 || n == 9
    ensures TimestampText(value, n) == FormatDate(CivilFromDays(value / (86400 * Pow10(n))))
            <==> value % (86400 * Pow10(n)) == 0
  {
    var split := SplitTimestamp(value, n).value;
    var seconds, fraction := split.epochSeconds, split.subsecondFraction;
    assert 0 <= fraction < Pow10(n) by {
      SplitTimestampIsFloor(value, n);
    }
    assert seconds / 86400 == value / (86400 * Pow10(n))
           && (seconds % 86400 == 0 && fraction == 0 <==> value % (86400 * Pow10(n)) == 0) by {
      SplitTimestampIsFloor(value, n);
      TimestampDecomposition(value, n);
      ZeroRemainder(value % (86400 * Pow10(n)), Pow10(n), seconds % 86400, fraction);
    }
    SplitDateOnly(seconds, fraction, n);
  }

  /** Any instant that is not a midnight prints as date, 'T', the time of
      day from the remainder of floor division, the fraction and 'Z'. */
  lemma TimestampTimeOfDay(value: int64, n: int)
    requires n == 3 || n == 6 || n == 9
    requires value % (86400 * Pow10(n)) != 0
    ensures var p := Pow10(n);
            var w := value % (86400 * p);
            var sod := w / p;
            TimestampText(value, n)
              == FormatDate(CivilFromDays(value / (86400 * p))) + "T"
                 + ClockText(BrokenDownTime(value / (86400 * p), sod / 3600, sod % 3600 / 60, sod % 3600 % 60))
                 + FractionText(w % p, n) + "Z"
  {
    var split := SplitTimestamp(value, n).value;
    var seconds, fraction := split.epochSeconds, split.subsecondFraction;
    var w := value % (86400 * Pow10(n));
    assert 0 <= fraction < Pow10(n) by {
      SplitTimestampIsFloor(value, n);
    }
    assert seconds / 86400 == value / (86400 * Pow10(n)) && w / Pow10(n) == seconds % 86400
           && w % Pow10(n) == fraction && (seconds % 86400 != 0 || fraction != 0) by {
      SplitTimestampIsFloor(value, n);
      TimestampDecomposition(value, n);
      ZeroRemainder(w, Pow10(n), seconds % 86400, fraction);
    }
    SplitTimeOfDay(seconds, fraction, n);
  }
}
