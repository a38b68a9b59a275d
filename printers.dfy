/** The CSV and JSON printers of parquet-to-text-stream. One Printer class
    stands for the abstract Printer and its two subclasses; each virtual
    method dispatches on the format. The FILE* stream is the string `out`,
    to which every write appends; a byte of the file is a char 0..255. */
module Printers {
  import opened Common
  import opened Wrappers
  import opened ParquetFiles
  import opened ColumnReaders
  import opened CivilCalendar
  import opened TextFormats

  datatype Format = Csv | Json

  // ---------------------------------------------------------------------
  // The text each write appends
  // ---------------------------------------------------------------------

  /** writeFileHeader: JSON opens an array. */
  function FileHeaderText(f: Format): string { if f == Json then "[" else "" }

  /** writeFileFooter: JSON closes the array. */
  function FileFooterText(f: Format): string { if f == Json then "]" else "" }

  /** writeRecordStart: CSV starts a line; JSON opens an object, after a
      comma unless it is the first record. */
  function RecordStartText(f: Format, rowIndex: int): string
  {
    match f
    case Csv => "\n"
    case Json => (if rowIndex != 0 then "," else "") + "{"
  }

  /** writeRecordStop: JSON closes the object. */
  function RecordStopText(f: Format): string { if f == Json then "}" else "" }

  /** writeFieldStart: a comma before every field but the first; JSON then
      writes the field's name and a colon. */
  function FieldStartText(f: Format, columnIndex: int, name: string): string
  {
    var separator := if columnIndex > 0 then "," else "";
    match f
    case Csv => separator
    case Json => separator + JsonStringAsWritten(name) + ":"
  }

  /** writeHeaderField: CSV writes the name as a field; JSON has no header. */
  function HeaderFieldText(f: Format, columnIndex: int, name: string): string
  {
    match f
    case Csv => FieldStartText(Csv, columnIndex, name) + CsvField(name)
    case Json => ""
  }

  /** writeNull: the empty field in CSV, `null` in JSON. */
  function NullText(f: Format): string { if f == Json then "null" else "" }

  /** writeString, escaped for the format. */
  function StringText(f: Format, s: string): string
  {
    match f
    case Csv => CsvField(s)
    case Json => JsonStringAsWritten(s)
  }

  /** writeTimestamp: JSON puts the timestamp in a string. */
  function TimestampValueText(f: Format, value: int64, nFractionDigits: int): string
    requires nFractionDigits == 3 || nFractionDigits == 6 || nFractionDigits == 9
  {
    match f
    case Csv => TimestampText(value, nFractionDigits)
    case Json => "\"" + TimestampText(value, nFractionDigits) + "\""
  }

  /** write(float) and write(double): the shortest text of a finite value,
      otherwise a null. */
  function FloatText(f: Format, x: FloatRepr): string
  {
    match x
    case Finite(text) => text
    case NonFinite => NullText(f)
  }

  /** The `write` overload chosen by the value's C++ type. */
  function ValueText(f: Format, p: Printable): string
  {
    match p
    case PInt32(v) => IntToDecimal(v)
    case PUint32(v) => NatToDecimal(v)
    case PInt64(v) => IntToDecimal(v)
    case PUint64(v) => NatToDecimal(v)
    case PFloat(x) => FloatText(f, x)
    case PDouble(x) => FloatText(f, x)
    case PString(bytes) => StringText(f, BytesToChars(bytes))
    case PTimestampMillis(v) => TimestampValueText(f, v, 3)
    case PTimestampMicros(v) => TimestampValueText(f, v, 6)
    case PTimestampNanos(v) => TimestampValueText(f, v, 9)
  }

  /** What printNext writes after the field start: the value, or a null. */
  function CellText(f: Format, cell: Option<Printable>): string
  {
    if cell.Some? then ValueText(f, cell.value) else NullText(f)
  }

  // ---------------------------------------------------------------------
  // Properties of the printed values
  // ---------------------------------------------------------------------

  /** An unsigned column prints the stored signed integer reinterpreted
      modulo 2^32 or 2^64; a signed one prints it as is. */
  lemma IntegerTexts(f: Format, v32: int32, v64: int64)
    ensures DecimalValue(ValueText(f, ToPrintable(Uint32Kind, Int32Value(v32)))) == v32 % UINT32_MODULUS
    ensures DecimalValue(ValueText(f, ToPrintable(Uint64Kind, Int64Value(v64)))) == v64 % UINT64_MODULUS
    ensures ValueText(f, ToPrintable(Int32Kind, Int32Value(v32))) == IntToDecimal(v32)
    ensures ValueText(f, ToPrintable(Int64Kind, Int64Value(v64))) == IntToDecimal(v64)
  {
    var u32 := ToPrintable(Uint32Kind, Int32Value(v32)).u32;
    assert u32 % UINT32_MODULUS == u32;
    var u64 := ToPrintable(Uint64Kind, Int64Value(v64)).u64;
    assert u64 % UINT64_MODULUS == u64;
  }

  /** Reading a CSV cell back gives the string; a null reads as the empty
      field. In JSON a string cell is a complete JSON string whose
      unescaped body has one byte per value byte, each read through
      ReadBack; it is the value exactly when no byte is misprinted. */
  lemma StringCellTexts(bytes: seq<byte>)
    ensures CsvUnquote(CellText(Csv, Some(PString(bytes)))) == BytesToChars(bytes)
    ensures CellText(Csv, None) == "" && CellText(Json, None) == "null"
    ensures var t := CellText(Json, Some(PString(bytes)));
            var s := BytesToChars(bytes);
            var r := JsonUnescape(t[1..|t| - 1]);
            |t| >= 2 && t[0] == '"' && t[|t| - 1] == '"' && |r| == |s|
            && (forall i :: 0 <= i < |s| ==> r[i] == ReadBack(s[i]))
            && (r == s <==> forall i :: 0 <= i < |s| ==> !Misprinted(s[i]))
  {
    var s := BytesToChars(bytes);
    assert CsvUnquote(CellText(Csv, Some(PString(bytes)))) == s by {
      CsvFieldRoundTrip(s);
    }
    var t := CellText(Json, Some(PString(bytes)));
    assert t == JsonStringAsWritten(s);
    JsonStringAsWrittenBody(s);
  }

  // ---------------------------------------------------------------------
  // Loop helpers
  // ---------------------------------------------------------------------

  /** std::string_view::find(c, from): the first position from `from` on
      holding c, or npos (None). */
  function Find(s: string, c: char, from: nat): (r: Option<nat>)
    requires from <= |s|
    ensures r.None? ==> forall k :: from <= k < |s| ==> s[k] != c
    ensures r.Some? ==> from <= r.value < |s| && s[r.value] == c
                        && forall k :: from <= k < r.value ==> s[k] != c
    decreases |s| - from
  {
    if from == |s| then None
    else if s[from] == c then Some(from)
    else Find(s, c, from + 1)
  }

  /** One pass of the CSV quoting loop: the text up to a quote, then the
      quote doubled. */
  lemma {:induction false} DoubleQuotesThroughQuote(s: string, from: nat, q: nat)
    requires from <= q < |s| && s[q] == '"'
    requires forall k :: from <= k < q ==> s[k] != '"'
    ensures DoubleQuotes(s[..q + 1]) == DoubleQuotes(s[..from]) + s[from..q] + "\"\""
  {
    assert s[..q + 1] == s[..from] + (s[from..q] + "\"");
    DoubleQuotesAppend(s[..from], s[from..q] + "\"");
    DoubleQuotesAppend(s[from..q], "\"");
    DoubleQuotesNoQuote(s[from..q]);
  }

  /** The last pass of the CSV quoting loop: no quote is left. */
  lemma {:induction false} DoubleQuotesRest(s: string, from: nat)
    requires from <= |s|
    requires forall k :: from <= k < |s| ==> s[k] != '"'
    ensures DoubleQuotes(s) == DoubleQuotes(s[..from]) + s[from..]
  {
    assert s == s[..from] + s[from..];
    DoubleQuotesAppend(s[..from], s[from..]);
    DoubleQuotesNoQuote(s[from..]);
  }

  lemma {:induction false} JsonEscapeSnoc(s: string, i: nat)
    requires i < |s|
    ensures JsonEscapeAsWritten(s[..i + 1]) == JsonEscapeAsWritten(s[..i]) + JsonEscapeCharAsWritten(s[i])
  {
    JsonEscapeAppend(s[..i], [s[i]]);
    assert s[..i + 1] == s[..i] + [s[i]];
    assert JsonEscapeAsWritten([s[i]]) == JsonEscapeCharAsWritten(s[i]) + JsonEscapeAsWritten([]);
  }

  lemma {:induction false} JsonEscapeAppend(a: string, b: string)
    ensures JsonEscapeAsWritten(a + b) == JsonEscapeAsWritten(a) + JsonEscapeAsWritten(b)
    decreases |a|
  {
    if a != [] {
      assert (a + b)[1..] == a[1..] + b;
      JsonEscapeAppend(a[1..], b);
    } else {
      assert a + b == b;
    }
  }

  lemma ConcatAssoc(a: string, b: string, c: string)
    ensures a + b + c == a + (b + c)
  {
  }

  // ---------------------------------------------------------------------
  // The printer
  // ---------------------------------------------------------------------

  class Printer {
    const format: Format
    /** Everything written to the stream so far. */
    var out: string

    constructor (format: Format)
      ensures this.format == format && out == []
    {
      this.format := format;
      out := [];
    }

    method WriteFileHeader()
      modifies this
      ensures out == old(out) + FileHeaderText(format)
    {
      if format == Json {
        out := out + "[";
      }
    }

    method WriteFileFooter()
      modifies this
      ensures out == old(out) + FileFooterText(format)
    {
      if format == Json {
        out := out + "]";
      }
    }

    method WriteRecordStart(rowIndex: int)
      modifies this
      ensures out == old(out) + RecordStartText(format, rowIndex)
    {
      match format
      case Csv =>
        out := out + "\n";
      case Json =>
        if rowIndex != 0 {
          out := out + ",";
        }
        out := out + "{";
    }

    method WriteRecordStop()
      modifies this
      ensures out == old(out) + RecordStopText(format)
    {
      if format == Json {
        out := out + "}";
      }
    }

    method WriteFieldStart(columnIndex: int, name: seq<byte>)
      modifies this
      ensures out == old(out) + FieldStartText(format, columnIndex, BytesToChars(name))
    {
      ghost var separator := if columnIndex > 0 then "," else "";
      if columnIndex > 0 {
        out := out + ",";
      }
      assert out == old(out) + separator;
      if format == Json {
        ghost var named := JsonStringAsWritten(BytesToChars(name));
        WriteJsonString(name);
        out := out + ":";
        ConcatAssoc(old(out), separator, named);
        ConcatAssoc(old(out), separator + named, ":");
      }
    }

    method WriteHeaderField(columnIndex: int, name: seq<byte>)
      modifies this
      ensures out == old(out) + HeaderFieldText(format, columnIndex, BytesToChars(name))
    {
      if format == Csv {
        WriteFieldStart(columnIndex, name);
        WriteCsvString(name);
      }
    }

    method WriteNull()
      modifies this
      ensures out == old(out) + NullText(format)
    {
      if format == Json {
        out := out + "null";
      }
    }

    method WriteString(value: seq<byte>)
      modifies this
      ensures out == old(out) + StringText(format, BytesToChars(value))
    {
      match format
      case Csv => WriteCsvString(value);
      case Json => WriteJsonString(value);
    }

    /** CsvPrinter::writeString: a first loop looks for a character that
        needs quotes; if there is one, the value is written in quotes, text
        between quotes copied and each quote doubled. */
    method WriteCsvString(value: seq<byte>)
      modifies this
      ensures out == old(out) + CsvField(BytesToChars(value))
    {
      var s := BytesToChars(value);
      var needQuote := false;
      var i := 0;
      while i < |s|
        invariant 0 <= i <= |s|
        invariant forall k :: 0 <= k < i ==> !ForcesQuotes(s[k])
      {
        if ForcesQuotes(s[i]) {
          needQuote := true;
          break;
        }
        i := i + 1;
      }
      assert needQuote <==> NeedsQuotes(s);

      if !needQuote {
        out := out + s;
      } else {
        WriteQuoted(s);
      }
    }

    /** The quoted branch of CsvPrinter::writeString: an opening quote, the
        text with each quote doubled (copied up to each quote found, then
        the quote twice), and a closing quote. */
    method WriteQuoted(s: string)
      modifies this
      ensures out == old(out) + ("\"" + DoubleQuotes(s) + "\"")
    {
      out := out + "\"";
      ghost var start := out;
      var nWritten := 0;
      while nWritten < |s|
        invariant 0 <= nWritten <= |s|
        invariant out == start + DoubleQuotes(s[..nWritten])
      {
        var quotePos := Find(s, '"', nWritten);
        if quotePos.None? {
          DoubleQuotesRest(s, nWritten);
          assert s[..|s|] == s;
          ConcatAssoc(start, DoubleQuotes(s[..nWritten]), s[nWritten..]);
          out := out + s[nWritten..];
          nWritten := |s|;
        } else {
          DoubleQuotesThroughQuote(s, nWritten, quotePos.value);
          ConcatAssoc(start, DoubleQuotes(s[..nWritten]), s[nWritten..quotePos.value] + "\"\"");
          out := out + (s[nWritten..quotePos.value] + "\"\"");
          nWritten := quotePos.value + 1;
        }
      }
      assert s[..nWritten] == s;
      out := out + "\"";
      ConcatAssoc(old(out), "\"", DoubleQuotes(s));
      ConcatAssoc(old(out), "\"" + DoubleQuotes(s), "\"");
    }

    /** JsonPrinter::writeString: the value in quotes, each byte escaped by
        the switch; a control character without a short name is written
        as `\u` and its value in four decimal digits, as line 549 does. */
    method WriteJsonString(value: seq<byte>)
      modifies this
      ensures out == old(out) + JsonStringAsWritten(BytesToChars(value))
    {
      var s := BytesToChars(value);
      out := out + "\"";
      ghost var start := out;
      var i := 0;
      while i < |s|
        invariant 0 <= i <= |s|
        invariant out == start + JsonEscapeAsWritten(s[..i])
      {
        var c := s[i];
        ghost var before := out;
        match c {
          case '"' => out := out + "\\\"";
          case '\\' => out := out + "\\\\";
          case '\U{8}' => out := out + "\\b";
          case '\U{C}' => out := out + "\\f";
          case '\n' => out := out + "\\n";
          case '\r' => out := out + "\\r";
          case '\t' => out := out + "\\t";
          case _ =>
            if IsControl(c) {
              out := out + ControlEscapeAsWritten(c);
            } else {
              out := out + [c];
            }
        }
        assert out == before + JsonEscapeCharAsWritten(c);
        JsonEscapeSnoc(s, i);
        ConcatAssoc(start, JsonEscapeAsWritten(s[..i]), JsonEscapeCharAsWritten(c));
        i := i + 1;
      }
      assert s[..i] == s;
      out := out + "\"";
      ConcatAssoc(old(out), "\"", JsonEscapeAsWritten(s));
      ConcatAssoc(old(out), "\"" + JsonEscapeAsWritten(s), "\"");
    }

    /** The `write` overloads for one value. */
    method Write(p: Printable)
      modifies this
      ensures out == old(out) + ValueText(format, p)
    {
      match p
      case PInt32(v) => out := out + IntToDecimal(v);
      case PUint32(v) => out := out + NatToDecimal(v);
      case PInt64(v) => out := out + IntToDecimal(v);
      case PUint64(v) => out := out + NatToDecimal(v);
      case PFloat(x) => WriteFloat(x);
      case PDouble(x) => WriteFloat(x);
      case PString(bytes) => WriteString(bytes);
      case PTimestampMillis(v) => var ok := WriteTimestamp(v, 3);
      case PTimestampMicros(v) => var ok := WriteTimestamp(v, 6);
      case PTimestampNanos(v) => var ok := WriteTimestamp(v, 9);
    }

    /** write(float) and write(double): NaN and the infinities are nulls. */
    method WriteFloat(x: FloatRepr)
      modifies this
      ensures out == old(out) + FloatText(format, x)
    {
      match x
      case Finite(text) => out := out + text;
      case NonFinite => WriteNull();
    }

    /** writeTimestamp; `ok` is false where the process ends on an
        unsupported precision. */
    method WriteTimestamp(value: int64, nFractionDigits: int) returns (ok: bool)
      modifies this
      ensures ok <==> nFractionDigits == 3 || nFractionDigits == 6 || nFractionDigits == 9
      ensures ok ==> out == old(out) + TimestampValueText(format, value, nFractionDigits)
    {
      match format
      case Csv =>
        ok := WriteRawShortIso8601UtcTimestamp(value, nFractionDigits);
      case Json =>
        ghost var before := out;
        out := out + "\"";
        ok := WriteRawShortIso8601UtcTimestamp(value, nFractionDigits);
        if ok {
          ghost var text := TimestampText(value, nFractionDigits);
          out := out + "\"";
          ConcatAssoc(before, "\"", text);
          ConcatAssoc(before, "\"" + text, "\"");
        }
    }

    /** writeRawShortISO8601UTCTimestamp: split at the second, print the
        date of the second, then the time part. An unsupported precision
        ends the process (ok false) before anything is written. */
    method WriteRawShortIso8601UtcTimestamp(value: int64, nFractionDigits: int) returns (ok: bool)
      modifies this
      ensures ok <==> nFractionDigits == 3 || nFractionDigits == 6 || nFractionDigits == 9
      ensures ok ==> out == old(out) + TimestampText(value, nFractionDigits)
      ensures !ok ==> out == old(out)
    {
      var split := SplitTimestamp(value, nFractionDigits);
      if split.None? {
        return false;
      }
      WriteSplit(split.value.epochSeconds, split.value.subsecondFraction, nFractionDigits);
      ok := true;
    }

    /** The body of writeRawShortISO8601UTCTimestamp once the instant is split:
        gmtime of the second, the date, then the time part. */
    method WriteSplit(epochSeconds: int, subsecondFraction: nat, nFractionDigits: nat)
      requires nFractionDigits == 3 || nFractionDigits == 6 || nFractionDigits == 9
      modifies this
      ensures out == old(out) + SplitText(epochSeconds, subsecondFraction, nFractionDigits)
    {
      ghost var before := out;
      var time := GmTime(epochSeconds);
      WriteDate(time.day);
      WriteTimeOfDay(time, subsecondFraction, nFractionDigits);
      ConcatAssoc(before, FormatDate(CivilFromDays(time.day)), TimeText(time, StripZeroGroups(subsecondFraction, nFractionDigits)));
    }

    /** The date part of the timestamp text: the `%04d-%02d-%02d` of the
        broken-down day. */
    method WriteDate(day: int)
      modifies this
      ensures out == old(out) + FormatDate(CivilFromDays(day))
    {
      out := out + FormatDate(CivilFromDays(day));
    }

    /** Lines 413-429: strip zero groups of three digits from the fraction,
        then print the time only when it or the fraction is not zero. */
    method WriteTimeOfDay(time: BrokenDownTime, subsecondFraction: nat, nFractionDigits: int)
      requires nFractionDigits == 3 || nFractionDigits == 6 || nFractionDigits == 9
      modifies this
      ensures out == old(out) + TimeText(time, StripZeroGroups(subsecondFraction, nFractionDigits))
    {
      var fraction := subsecondFraction;
      var digits := nFractionDigits;
      while digits > 0 && fraction % 1000 == 0
        invariant 0 <= digits <= nFractionDigits && digits % 3 == 0
        invariant StripZeroGroups(fraction, digits) == StripZeroGroups(subsecondFraction, nFractionDigits)
      {
        fraction := fraction / 1000;
        digits := digits - 3;
      }
      assert Stripped(fraction, digits) == StripZeroGroups(subsecondFraction, nFractionDigits);

      if digits == 0 {
        if time.hour != 0 || time.minute != 0 || time.second != 0 {
          out := out + ("T" + ClockText(time) + "Z");
        }
      } else if digits == 3 {
        out := out + ("T" + ClockText(time) + "." + FormatIntWidth(fraction, 3) + "Z");
      } else if digits == 6 {
        out := out + ("T" + ClockText(time) + "." + FormatIntWidth(fraction, 6) + "Z");
      } else if digits == 9 {
        out := out + ("T" + ClockText(time) + "." + FormatIntWidth(fraction, 9) + "Z");
      }
    }
  }
}
