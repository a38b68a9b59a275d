/** parquet-to-arrow-slice: reads a window of columns and rows of a Parquet
    file into an Arrow table. Its own Range works on C `int`s and is parsed
    with std::stoul, which is laxer than parse_range. */
module ArrowSlice {
  import opened Common
  import opened Wrappers
  import opened ParquetFiles
  import RangeParse

  /** How many rows one skipping batch may read at most. */
  const SKIP_MAX_BATCH_SIZE: nat := 10000

  // ---------------------------------------------------------------------
  // std::stoul
  // ---------------------------------------------------------------------

  /** The characters C's isspace accepts in the "C" locale. */
  predicate IsSpace(c: char)
  {
    c == ' ' || c == '\t' || c == '\n' || c == '\r' || c as int == 0x0B || c as int == 0x0C
  }

  /** Length of the longest prefix of white space. */
  function SpaceRun(s: string): (n: nat)
    ensures n <= |s| && (forall k :: 0 <= k < n ==> IsSpace(s[k]))
    ensures n < |s| ==> !IsSpace(s[n])
  {
    if s == [] || !IsSpace(s[0]) then 0 else 1 + SpaceRun(s[1..])
  }

  /** What std::stoul(s, &pos) gives in base 10: the value and the number of
      characters used, or the exception it throws. */
  datatype StoulResult = Converted(value: uint64, consumed: nat) | NoConversion | OutOfRange

  /** strtoul: white space, an optional sign, then the longest run of decimal
      digits (at least one); a value beyond UINT64_MAX is out of range, and a
      minus sign negates the value in unsigned arithmetic. */
  function Stoul(s: string): (r: StoulResult)
    ensures r.Converted? ==> 0 < r.consumed <= |s| && IsDigit(s[r.consumed - 1])
    ensures r.Converted? ==> r.consumed == |s| || !IsDigit(s[r.consumed])
  {
    var w := SpaceRun(s);
    var signed := w < |s| && (s[w] == '+' || s[w] == '-');
    var digitsAt := if signed then w + 1 else w;
    var n := RangeParse.DigitRun(s[digitsAt..]);
    if n == 0 then NoConversion
    else
      var m := DecimalValue(s[digitsAt..][..n]);
      if m > UINT64_MAX then OutOfRange
      else
        assert s[digitsAt..][n - 1] == s[digitsAt + n - 1];
        assert digitsAt + n < |s| ==> s[digitsAt..][n] == s[digitsAt + n];
        Converted(if signed && s[w] == '-' then (UINT64_MODULUS - m) % UINT64_MODULUS else m, digitsAt + n)
  }

  /** static_cast<int> of an unsigned long: its low 32 bits, read as signed. */
  function ToInt(v: uint64): int32
  {
    AsInt32(v % UINT32_MODULUS)
  }

  // ---------------------------------------------------------------------
  // Range
  // ---------------------------------------------------------------------

  datatype SliceRange = SliceRange(start: int32, stop: int32)

  /** The two exceptions Range::parse lets escape. */
  datatype ParseError = InvalidArgument | OutOfRangeError

  /** Range::parse: a stoul number, a '-' right after it, then whatever stoul
      makes of the rest (nothing after the stop number is checked); the two
      numbers are cast to int and must be in order. */
  function Parse(s: string): (r: Result<SliceRange, ParseError>)
    ensures r.Ok? ==> r.value.start <= r.value.stop
  {
    match Stoul(s)
    case NoConversion => Err(InvalidArgument)
    case OutOfRange => Err(OutOfRangeError)
    case Converted(first, pos) =>
      if pos >= |s| || s[pos] != '-' then Err(InvalidArgument)
      else
        match Stoul(s[pos + 1..])
        case NoConversion => Err(InvalidArgument)
        case OutOfRange => Err(OutOfRangeError)
        case Converted(second, _) =>
          var start, stop := ToInt(first), ToInt(second);
          if start > stop then Err(InvalidArgument) else Ok(SliceRange(start, stop))
  }

  /** Without a '-' right after the first number the parse fails with
      invalid_argument. */
  lemma {:induction false} ParseNeedsDash(s: string)
    requires Stoul(s).Converted?
    requires var pos := Stoul(s).consumed; pos == |s| || s[pos] != '-'
    ensures Parse(s) == Err(InvalidArgument)
  {
  }

  /** Parse from the two conversions it makes. */
  lemma ParseSteps(s: string, first: uint64, pos: nat, second: uint64, used: nat)
    requires Stoul(s) == Converted(first, pos) && pos < |s| && s[pos] == '-'
    requires Stoul(s[pos + 1..]) == Converted(second, used)
    ensures Parse(s) == if ToInt(first) > ToInt(second) then Err(InvalidArgument)
                        else Ok(SliceRange(ToInt(first), ToInt(second)))
  {
  }

  lemma ToIntSmall(v: uint64)
    requires v < 0x8000_0000
    ensures ToInt(v) == v
  {
  }

  /** Digits alone, with nothing else in front, convert to their value. */
  lemma {:induction false} StoulOfDigits(a: string, rest: string)
    requires 0 < |a| && AllDigits(a) && DecimalValue(a) <= UINT64_MAX
    requires rest == [] || !IsDigit(rest[0])
    ensures Stoul(a + rest) == Converted(DecimalValue(a), |a|)
  {
    var s := a + rest;
    assert !IsSpace(s[0]) by { assert s[0] == a[0]; }
    assert SpaceRun(s) == 0;
    assert s[0..] == s;
    RangeParse.DigitRunOfConcat(a, rest);
    assert s[..|a|] == a;
  }

  /** Every text the intended parse_range accepts, with numbers below 2^31,
      this parser accepts too, with the same numbers. */
  lemma {:induction false} AcceptsWhatParseRangeAccepts(s: string)
    requires RangeParse.ParseRangeChecked(s).ec == RangeParse.Ok
    requires RangeParse.ParseRangeChecked(s).range.stop < 0x8000_0000
    ensures Parse(s) == Ok(SliceRange(RangeParse.ParseRangeChecked(s).range.start, RangeParse.ParseRangeChecked(s).range.stop))
  {
    var i := RangeParse.DigitRun(s);
    var a, t := s[..i], s[i + 1..];
    var p := RangeParse.ParseRangeChecked(s).range;
    assert s == a + s[i..];
    StoulOfDigits(a, s[i..]);
    var j := RangeParse.DigitRun(t);
    assert t[..j] == t && t == t + [];
    StoulOfDigits(t, []);
    ParseSteps(s, p.start, i, p.stop, |t|);
    ToIntSmall(p.start);
    ToIntSmall(p.stop);
  }

  /** "X-Y" followed by text that does not go on with a digit, for digit
      strings X and Y denoting ints: the ordered pair, or invalid_argument. */
  lemma {:induction false} ParseDigitStrings(x: string, y: string, trailing: string)
    requires 0 < |x| && AllDigits(x) && DecimalValue(x) < 0x8000_0000
    requires 0 < |y| && AllDigits(y) && DecimalValue(y) < 0x8000_0000
    requires trailing == [] || !IsDigit(trailing[0])
    ensures Parse(x + "-" + y + trailing) ==
      if DecimalValue(x) > DecimalValue(y) then Err(InvalidArgument)
      else Ok(SliceRange(DecimalValue(x), DecimalValue(y)))
  {
    var s := x + "-" + y + trailing;
    FirstNumberOfRangeText(x, y, trailing);
    SecondNumberOfRangeText(x, y, trailing);
    ParseSteps(s, DecimalValue(x), |x|, DecimalValue(y), |y|);
    ToIntSmall(DecimalValue(x));
    ToIntSmall(DecimalValue(y));
  }

  lemma FirstNumberOfRangeText(x: string, y: string, trailing: string)
    requires 0 < |x| && AllDigits(x) && DecimalValue(x) <= UINT64_MAX
    ensures var s := x + "-" + y + trailing;
      Stoul(s) == Converted(DecimalValue(x), |x|) && |x| < |s| && s[|x|] == '-'
  {
    var s := x + "-" + y + trailing;
    assert s == x + ("-" + y + trailing);
    StoulOfDigits(x, "-" + y + trailing);
  }

  lemma SecondNumberOfRangeText(x: string, y: string, trailing: string)
    requires 0 < |y| && AllDigits(y) && DecimalValue(y) <= UINT64_MAX
    requires trailing == [] || !IsDigit(trailing[0])
    ensures var s := x + "-" + y + trailing;
      Stoul(s[|x| + 1..]) == Converted(DecimalValue(y), |y|)
  {
    var s := x + "-" + y + trailing;
    assert s[|x| + 1..] == y + trailing;
    StoulOfDigits(y, trailing);
  }

  /** Characters after the stop number are ignored: "A-B" followed by any
      text that does not go on with a digit parses as A-B. */
  lemma {:induction false} TrailingTextIgnored(a: nat, b: nat, trailing: string)
    requires a <= b < 0x8000_0000
    requires trailing == [] || !IsDigit(trailing[0])
    ensures Parse(NatToDecimal(a) + "-" + NatToDecimal(b) + trailing) == Ok(SliceRange(a, b))
  {
    DecimalDigits(a);
    DecimalDigits(b);
    ParseDigitStrings(NatToDecimal(a), NatToDecimal(b), trailing);
  }

  lemma DecimalDigits(n: nat)
    ensures 0 < |NatToDecimal(n)| && AllDigits(NatToDecimal(n)) && DecimalValue(NatToDecimal(n)) == n
  {
    RangeParse.PrintedRangeIsRangeText(n, n);
  }

  /** Numbers out of order are refused with invalid_argument. */
  lemma {:induction false} OutOfOrderRefused(a: nat, b: nat)
    requires b < a < 0x8000_0000
    ensures Parse(NatToDecimal(a) + "-" + NatToDecimal(b)) == Err(InvalidArgument)
  {
    DecimalDigits(a);
    DecimalDigits(b);
    ParseDigitStrings(NatToDecimal(a), NatToDecimal(b), []);
    assert NatToDecimal(a) + "-" + NatToDecimal(b) + [] == NatToDecimal(a) + "-" + NatToDecimal(b);
  }

  /** "1-2x" is a slice range although parse_range refuses it. */
  lemma TrailingLetterAccepted()
    ensures Parse("1-2x") == Ok(SliceRange(1, 2))
    ensures RangeParse.ParseRangeChecked("1-2x").ec == RangeParse.InvalidArgument
  {
    TrailingLetterSliced();
    TrailingLetterRefused();
  }

  lemma TrailingLetterSliced()
    ensures Parse("1-2x") == Ok(SliceRange(1, 2))
  {
    assert DecimalValue("1") == 1 && DecimalValue("2") == 2;
    ParseDigitStrings("1", "2", "x");
    assert "1" + "-" + "2" + "x" == "1-2x";
  }

  lemma TrailingLetterRefused()
    ensures RangeParse.ParseRangeChecked("1-2x").ec == RangeParse.InvalidArgument
  {
    assert RangeParse.DigitRun("1-2x") == 1 by {
      assert "1-2x" == "1" + "-2x";
      RangeParse.DigitRunOfConcat("1", "-2x");
    }
    assert "1-2x"[2..] == "2" + "x";
    RangeParse.DigitRunOfConcat("2", "x");
  }

  /** "-5-7" is the slice range -5 .. 7: stoul takes a sign and negates
      modulo 2^64, and static_cast<int> keeps the low 32 bits. */
  lemma NegativeStartAccepted()
    ensures Parse("-5-7") == Ok(SliceRange(-5, 7))
  {
    StoulMinusFive();
    StoulSeven();
    assert "-5-7"[3..] == "7";
    assert ToInt(UINT64_MODULUS - 5) == -5;
  }

  lemma StoulMinusFive()
    ensures Stoul("-5-7") == Converted(UINT64_MODULUS - 5, 2)
  {
    assert SpaceRun("-5-7") == 0;
    assert "-5-7"[1..] == "5" + "-7";
    RangeParse.DigitRunOfConcat("5", "-7");
    assert "-5-7"[1..][..1] == "5" && DecimalValue("5") == 5;
  }

  lemma StoulSeven()
    ensures Stoul("7") == Converted(7, 1)
  {
    assert SpaceRun("7") == 0 && RangeParse.DigitRun("7") == 1;
    assert "7"[0..][..1] == "7" && DecimalValue("7") == 7;
  }

  /** size(): stop - start, when it fits an int. */
  function Size(r: SliceRange): (n: int32)
    requires -0x8000_0000 <= r.stop - r.start < 0x8000_0000
    ensures r.start + n == r.stop
  {
    r.stop - r.start
  }

  /** indices(): the ints of the range, in increasing order. */
  function Indices(r: SliceRange): (indices: seq<int>)
    requires r.start <= r.stop && r.stop - r.start < 0x8000_0000
    ensures |indices| == Size(r)
    ensures forall k :: 0 <= k < |indices| ==> indices[k] == r.start + k
  {
    seq(Size(r), k => r.start + k)
  }

  /** The indices are exactly the ints from start to stop, each once. */
  lemma {:induction false} IndicesCover(r: SliceRange, x: int)
    requires r.start <= r.stop && r.stop - r.start < 0x8000_0000
    ensures x in Indices(r) <==> r.start <= x < r.stop
    ensures forall k, l :: 0 <= k < l < |Indices(r)| ==> Indices(r)[k] < Indices(r)[l]
  {
    if r.start <= x < r.stop {
      assert Indices(r)[x - r.start] == x;
    }
  }

  /** clip(max): both ends bounded by max. */
  function Clip(r: SliceRange, max: int32): (c: SliceRange)
    ensures r.start <= r.stop ==> c.start <= c.stop
    ensures c.start <= max && c.stop <= max
    ensures c.start <= r.start && c.stop <= r.stop
  {
    SliceRange(Min(r.start, max), Min(r.stop, max))
  }

  /** An index is in the clipped range exactly when it is in the range and
      below max; clipping twice changes nothing more. */
  lemma {:induction false} ClipNarrows(r: SliceRange, max: int32, i: int)
    ensures (Clip(r, max).start <= i < Clip(r, max).stop) <==> (r.start <= i < r.stop && i < max)
    ensures Clip(Clip(r, max), max) == Clip(r, max)
  {
  }

  // ---------------------------------------------------------------------
  // Reading the window
  // ---------------------------------------------------------------------

  /** The library's record reader for one column (stand-in for
      parquet::arrow::ColumnReader): NextBatch hands out the next rows of the
      column, across row groups. */
  class ColumnBatchReader {
    const cells: seq<Option<PhysicalValue>>
    var position: nat

    constructor (cells: seq<Option<PhysicalValue>>)
      ensures this.cells == cells && position == 0
    {
      this.cells := cells;
      position := 0;
    }

    method NextBatch(batchSize: nat) returns (batch: seq<Option<PhysicalValue>>)
      requires position <= |cells|
      modifies this
      ensures position == old(position) + |batch| <= |cells|
      ensures |batch| == Min(batchSize, |cells| - old(position))
      ensures batch == cells[old(position)..position]
    {
      var n := Min(batchSize, |cells| - position);
      batch := cells[position..position + n];
      position := position + n;
    }
  }

  function Sum(s: seq<nat>): nat
  {
    if s == [] then 0 else Sum(s[..|s| - 1]) + s[|s| - 1]
  }

  /** The seek loop of readParquet: batches of at most SKIP_MAX_BATCH_SIZE
      rows, read and dropped, until toSkip rows are asked for. */
  method SkipRows(reader: ColumnBatchReader, toSkip: nat) returns (ghost batches: seq<nat>)
    requires reader.position <= |reader.cells|
    modifies reader
    ensures reader.position == Min(old(reader.position) + toSkip, |reader.cells|)
    ensures Sum(batches) == toSkip
    ensures forall k :: 0 <= k < |batches| ==> 0 < batches[k] <= SKIP_MAX_BATCH_SIZE
  {
    ghost var start := reader.position;
    batches := [];
    var remaining: int := toSkip;
    while remaining > 0
      invariant 0 <= remaining <= toSkip && Sum(batches) == toSkip - remaining
      invariant reader.position == Min(start + (toSkip - remaining), |reader.cells|)
      invariant forall k :: 0 <= k < |batches| ==> 0 < batches[k] <= SKIP_MAX_BATCH_SIZE
    {
      var batchSize := Min(remaining, SKIP_MAX_BATCH_SIZE);
      var dropped := reader.NextBatch(batchSize);
      assert (batches + [batchSize])[..|batches|] == batches;
      batches := batches + [batchSize];
      remaining := remaining - batchSize;
    }
  }

  /** A column of the Arrow table: the Parquet column's name and its cells
      for the selected rows. */
  datatype ArrowColumn = ArrowColumn(name: seq<byte>, cells: seq<Option<PhysicalValue>>)

  datatype ArrowTable = ArrowTable(columns: seq<ArrowColumn>, numRows: nat)

  /** Parquet column c as the Arrow column of the rows rows.start up to rows.stop. */
  function SliceColumn(file: ParquetFile, c: nat, rows: SliceRange): (column: ArrowColumn)
    requires WellFormed(file) && c < |file.schema| && 0 <= rows.start <= rows.stop <= NumRows(file)
    ensures column.name == file.schema[c].name && |column.cells| == rows.stop - rows.start
    ensures forall r :: 0 <= r < |column.cells| ==> column.cells[r] == ColumnValues(file, c)[rows.start + r]
  {
    ArrowColumn(file.schema[c].name, ColumnValues(file, c)[rows.start..rows.stop])
  }

  /** The window readParquet returns: both ranges clipped to the file, then
      the selected columns in order, each holding the selected rows. */
  function SliceTable(file: ParquetFile, columnRange: SliceRange, rowRange: SliceRange): (t: ArrowTable)
    requires WellFormed(file) && |file.schema| < 0x8000_0000 && NumRows(file) < 0x8000_0000
    requires 0 <= columnRange.start <= columnRange.stop && 0 <= rowRange.start <= rowRange.stop
    ensures var cols, rows := Clip(columnRange, |file.schema|), Clip(rowRange, NumRows(file));
      && |t.columns| == cols.stop - cols.start && t.numRows == rows.stop - rows.start
      && forall j :: 0 <= j < |t.columns| ==> t.columns[j] == SliceColumn(file, cols.start + j, rows)
  {
    var cols, rows := Clip(columnRange, |file.schema|), Clip(rowRange, NumRows(file));
    ArrowTable(seq(cols.stop - cols.start, j requires 0 <= j < cols.stop - cols.start =>
                    SliceColumn(file, cols.start + j, rows)),
               rows.stop - rows.start)
  }

  /** A window that starts at 0 and reaches past the file selects all of it. */
  lemma {:induction false} WholeFileSlice(file: ParquetFile, columnRange: SliceRange, rowRange: SliceRange)
    requires WellFormed(file) && |file.schema| < 0x8000_0000 && NumRows(file) < 0x8000_0000
    requires columnRange.start == 0 && rowRange.start == 0
    requires |file.schema| <= columnRange.stop && NumRows(file) <= rowRange.stop
    ensures |SliceTable(file, columnRange, rowRange).columns| == |file.schema|
    ensures forall j :: 0 <= j < |file.schema| ==>
      SliceTable(file, columnRange, rowRange).columns[j] == ArrowColumn(file.schema[j].name, ColumnValues(file, j))
  {
    var t := SliceTable(file, columnRange, rowRange);
    forall j | 0 <= j < |file.schema|
      ensures t.columns[j] == ArrowColumn(file.schema[j].name, ColumnValues(file, j))
    {
      assert t.columns[j] == SliceColumn(file, j, Clip(rowRange, NumRows(file)));
      assert t.columns[j].cells == ColumnValues(file, j);
    }
  }

  /** The body of readParquet's column loop: a fresh reader for column c
      skips the rows before the window, then reads the window's rows in one
      batch. */
  method ReadColumn(file: ParquetFile, c: nat, rows: SliceRange) returns (column: ArrowColumn)
    requires WellFormed(file) && c < |file.schema| && 0 <= rows.start <= rows.stop <= NumRows(file)
    requires rows.stop - rows.start < 0x8000_0000
    ensures column == SliceColumn(file, c, rows)
  {
    var columnReader := new ColumnBatchReader(ColumnValues(file, c));
    ghost var batches := SkipRows(columnReader, rows.start);
    var columnCells := columnReader.NextBatch(Size(rows));
    column := ArrowColumn(file.schema[c].name, columnCells);
  }

  /** readParquet: the clipped windows, then one column read for each
      selected column, in order. */
  method ReadSlice(file: ParquetFile, columnRange: SliceRange, rowRange: SliceRange) returns (table: ArrowTable)
    requires WellFormed(file) && |file.schema| < 0x8000_0000 && NumRows(file) < 0x8000_0000
    requires 0 <= columnRange.start <= columnRange.stop && 0 <= rowRange.start <= rowRange.stop
    ensures table == SliceTable(file, columnRange, rowRange)
  {
    var clippedColumnRange := Clip(columnRange, |file.schema|);
    var clippedRowRange := Clip(rowRange, NumRows(file));
    ghost var expected := SliceTable(file, columnRange, rowRange);
    var columns: seq<ArrowColumn> := [];
    var i := clippedColumnRange.start;
    while i < clippedColumnRange.stop
      invariant clippedColumnRange.start <= i <= clippedColumnRange.stop
      invariant columns == expected.columns[..i - clippedColumnRange.start]
    {
      var column := ReadColumn(file, i, clippedRowRange);
      columns := columns + [column];
      assert columns == expected.columns[..i + 1 - clippedColumnRange.start];
      i := i + 1;
    }
    assert columns == expected.columns;
    table := ArrowTable(columns, Size(clippedRowRange));
  }
}
