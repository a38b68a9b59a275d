/** csv-to-arrow: a byte-at-a-time state machine that splits delimited text
    into records and values, and builders that collect the values into a
    table of nullable byte strings, one column per field position, named
    "0", "1", ...  The file is the byte sequence `input`; the end of the
    sequence is EOF. */
module CsvToArrow {
  import opened Common
  import opened Wrappers
  import TextFormats

  const DOUBLE_QUOTE: byte := 0x22
  const CR: byte := 0x0D
  const LF: byte := 0x0A
  const COMMA: byte := 0x2C

  /** The command-line flags: --max_rows, --max_columns,
      --max_bytes_per_value and the one byte of --delimiter. */
  datatype Options = Options(maxRows: uint64, maxColumns: uint64, maxBytesPerValue: uint32, delimiter: byte)

  /** The flags' defaults: no limits, comma-separated. */
  const DEFAULT_OPTIONS: Options := Options(UINT64_MAX, UINT64_MAX, 0xFFFF_FFFF, COMMA)

  /** `c == delimiter` with c the int fgetc returned and delimiter a (signed)
      char: a delimiter byte of 0x80 or more reads as a negative number and
      no byte of the file equals it. */
  predicate IsDelimiter(opts: Options, c: byte)
  {
    opts.delimiter < 0x80 && c == opts.delimiter
  }

  predicate IsNewline(c: byte) { c == CR || c == LF }

  // ----- Warnings -----

  /** The counters and first coordinates of the Warnings struct. */
  datatype WarningCounts = WarningCounts(
    nRowsSkipped: nat,
    nColumnsSkipped: nat,
    nValuesTruncated: nat,
    firstTruncatedValueRow: nat,
    firstTruncatedValueColumn: nat,
    nValuesRepaired: nat,
    firstRepairedValueRow: nat,
    firstRepairedValueColumn: nat,
    eofInQuotedValue: bool)

  const NO_WARNINGS: WarningCounts := WarningCounts(0, 0, 0, 0, 0, 0, 0, 0, false)

  /** warnSkippedRow: one more row past the row limit. */
  function SkippedRow(w: WarningCounts): (r: WarningCounts)
    ensures r.nRowsSkipped == w.nRowsSkipped + 1
    ensures r.(nRowsSkipped := w.nRowsSkipped) == w
  {
    w.(nRowsSkipped := w.nRowsSkipped + 1)
  }

  /** warnSkippedColumn: the largest number of columns any row had past
      the column limit. */
  function SkippedColumn(w: WarningCounts, nPastLimit: nat): (r: WarningCounts)
    ensures r.nColumnsSkipped >= w.nColumnsSkipped && r.nColumnsSkipped >= nPastLimit
    ensures r.nColumnsSkipped == w.nColumnsSkipped || r.nColumnsSkipped == nPastLimit
    ensures r.(nColumnsSkipped := w.nColumnsSkipped) == w
  {
    w.(nColumnsSkipped := Max(w.nColumnsSkipped, nPastLimit))
  }

  function Max(a: nat, b: nat): nat { if a < b then b else a }

  /** warnRepairedValue: counts the repair; only the first one's
      coordinates are kept. */
  function RepairedValue(w: WarningCounts, row: nat, column: nat): (r: WarningCounts)
    ensures r.nValuesRepaired == w.nValuesRepaired + 1
    ensures w.nValuesRepaired == 0 ==> r.firstRepairedValueRow == row && r.firstRepairedValueColumn == column
    ensures w.nValuesRepaired > 0 ==>
      r.firstRepairedValueRow == w.firstRepairedValueRow && r.firstRepairedValueColumn == w.firstRepairedValueColumn
    ensures r.(nValuesRepaired := w.nValuesRepaired, firstRepairedValueRow := w.firstRepairedValueRow,
               firstRepairedValueColumn := w.firstRepairedValueColumn) == w
  {
    if w.nValuesRepaired == 0 then
      w.(nValuesRepaired := 1, firstRepairedValueRow := row, firstRepairedValueColumn := column)
    else
      w.(nValuesRepaired := w.nValuesRepaired + 1)
  }

  /** warnTruncatedValue: counts the truncation; only the first one's
      coordinates are kept. */
  function TruncatedValue(w: WarningCounts, row: nat, column: nat): (r: WarningCounts)
    ensures r.nValuesTruncated == w.nValuesTruncated + 1
    ensures w.nValuesTruncated == 0 ==> r.firstTruncatedValueRow == row && r.firstTruncatedValueColumn == column
    ensures w.nValuesTruncated > 0 ==>
      r.firstTruncatedValueRow == w.firstTruncatedValueRow && r.firstTruncatedValueColumn == w.firstTruncatedValueColumn
    ensures r.(nValuesTruncated := w.nValuesTruncated, firstTruncatedValueRow := w.firstTruncatedValueRow,
               firstTruncatedValueColumn := w.firstTruncatedValueColumn) == w
  {
    if w.nValuesTruncated == 0 then
      w.(nValuesTruncated := 1, firstTruncatedValueRow := row, firstTruncatedValueColumn := column)
    else
      w.(nValuesTruncated := w.nValuesTruncated + 1)
  }

  // ----- Builders, as values -----

  /** One cell of a string column: null, or the value's bytes. */
  type Cell = Option<seq<byte>>

  function Nulls(n: nat): (r: seq<Cell>)
    ensures |r| == n && forall k :: 0 <= k < n ==> r[k] == None
  {
    seq(n, _ => None)
  }

  /** ColumnBuilder::writeValue on the column's cells: nulls for the rows
      this column skipped, then the value at index `row`. */
  function PutCell(cells: seq<Cell>, row: nat, bytes: seq<byte>): (r: seq<Cell>)
    requires |cells| <= row
    ensures |r| == row + 1 && r[row] == Some(bytes)
    ensures r[..|cells|] == cells
    ensures forall k :: |cells| <= k < row ==> r[k] == None
  {
    cells + Nulls(row - |cells|) + [Some(bytes)]
  }

  /** TableBuilder::writeValue on the columns' cells: add empty columns
      until `column` exists, then write the cell in that column alone. */
  function WriteCell(columns: seq<seq<Cell>>, row: nat, column: nat, bytes: seq<byte>): (r: seq<seq<Cell>>)
    requires column < |columns| ==> |columns[column]| <= row
    ensures |r| == Max(|columns|, column + 1)
    ensures r[column] == PutCell(if column < |columns| then columns[column] else [], row, bytes)
    ensures forall j :: 0 <= j < |r| && j != column ==> r[j] == if j < |columns| then columns[j] else []
  {
    var grown := if column < |columns| then columns else columns + seq(column + 1 - |columns|, _ => []);
    grown[column := PutCell(grown[column], row, bytes)]
  }

  /** The utf8 columns of the finished table. */
  datatype StringColumn = StringColumn(name: string, cells: seq<Cell>)

  datatype CsvTable = CsvTable(columns: seq<StringColumn>, numRows: nat)

  /** A column padded with nulls up to n cells; a longer one is left as is. */
  function Padded(cells: seq<Cell>, n: nat): (r: seq<Cell>)
    ensures |r| == Max(|cells|, n) && r[..|cells|] == cells
    ensures forall k :: |cells| <= k < |r| ==> r[k] == None
  {
    if |cells| < n then cells + Nulls(n - |cells|) else cells
  }

  /** TableBuilder::finish: the row count is column 0's length (0 without
      columns); every other column is padded to it; column j is named
      std::to_string(j). */
  function FinishTable(columns: seq<seq<Cell>>): (t: CsvTable)
    ensures t.numRows == if columns == [] then 0 else |columns[0]|
    ensures |t.columns| == |columns|
    ensures forall j :: 0 <= j < |columns| ==>
      t.columns[j].name == NatToDecimal(j) && t.columns[j].cells == Padded(columns[j], t.numRows)
  {
    var n := if columns == [] then 0 else |columns[0]|;
    CsvTable(seq(|columns|, j requires 0 <= j < |columns| => StringColumn(NatToDecimal(j), Padded(columns[j], n))), n)
  }

  // ----- The state machine -----

  /** The labels of readCsv's goto machine. */
  datatype Mode = ValueBegin | InUnquotedValue | InQuotedValue | AfterQuote

  /** Everything readCsv keeps between two bytes: the label, the row and
      column counters, the value read so far (all of it; the buffer keeps
      only its first max_bytes_per_value bytes), the warnings and the
      builders' columns. */
  datatype Scan = Scan(mode: Mode, row: nat, column: nat, value: seq<byte>,
                       warnings: WarningCounts, columns: seq<seq<Cell>>)

  const START: Scan := Scan(ValueBegin, 0, 0, [], NO_WARNINGS, [])

  /** No column has a cell for the current position or a later one of the
      current row, and a new value starts with nothing read. */
  predicate Consistent(s: Scan)
  {
    (forall j :: 0 <= j < |s.columns| ==> |s.columns[j]| <= s.row + (if j < s.column then 1 else 0))
    && (s.mode == ValueBegin ==> s.value == [])
  }

  /** The bytes EMIT_VALUE writes: min(valuePos, max_bytes_per_value) of them. */
  function Kept(opts: Options, value: seq<byte>): (r: seq<byte>)
    ensures |r| == Min(|value|, opts.maxBytesPerValue) && r == value[..|r|]
  {
    value[..Min(|value|, opts.maxBytesPerValue)]
  }

  /** EMIT_VALUE: past the row limit only column 0 counts the skipped row;
      past the column limit the excess is recorded; otherwise the kept
      bytes go to the builder at (row, column). */
  function Emit(opts: Options, s: Scan): (r: Scan)
    requires Consistent(s)
    ensures r.(warnings := s.warnings, columns := s.columns) == s
    ensures forall j :: 0 <= j < |r.columns| ==> |r.columns[j]| <= s.row + (if j <= s.column then 1 else 0)
  {
    if s.row >= opts.maxRows then
      if s.column == 0 then s.(warnings := SkippedRow(s.warnings)) else s
    else if s.column >= opts.maxColumns then
      s.(warnings := SkippedColumn(s.warnings, s.column - opts.maxColumns + 1))
    else
      s.(columns := WriteCell(s.columns, s.row, s.column, Kept(opts, s.value)))
  }

  /** STORE_CHAR: the value grows by one byte; the byte that first goes
      past the limit counts the value as truncated. */
  function Store(opts: Options, s: Scan, c: byte): (r: Scan)
    ensures r.value == s.value + [c]
    ensures r.warnings == if |s.value| == opts.maxBytesPerValue then TruncatedValue(s.warnings, s.row, s.column) else s.warnings
    ensures r.(value := s.value, warnings := s.warnings) == s
  {
    var w := if |s.value| == opts.maxBytesPerValue then TruncatedValue(s.warnings, s.row, s.column) else s.warnings;
    s.(value := s.value + [c], warnings := w)
  }

  /** EMIT_VALUE; CLEAR_VALUE; ADVANCE_COLUMN; goto VALUE_BEGIN. */
  function EndValue(opts: Options, s: Scan): (r: Scan)
    requires Consistent(s)
    ensures Consistent(r) && r.mode == ValueBegin && r.value == []
    ensures r.row == s.row && r.column == s.column + 1
  {
    Emit(opts, s).(value := [], column := s.column + 1, mode := ValueBegin)
  }

  /** EMIT_VALUE; CLEAR_VALUE; ADVANCE_ROW; goto VALUE_BEGIN. */
  function EndRecord(opts: Options, s: Scan): (r: Scan)
    requires Consistent(s)
    ensures Consistent(r) && r.mode == ValueBegin && r.value == []
    ensures r.row == s.row + 1 && r.column == 0
  {
    Emit(opts, s).(value := [], row := s.row + 1, column := 0, mode := ValueBegin)
  }

  /** One byte read at the current label. */
  function Step(opts: Options, s: Scan, c: byte): (r: Scan)
    requires Consistent(s)
    ensures Consistent(r)
  {
    match s.mode
    case ValueBegin =>
      if IsDelimiter(opts, c) then
        Emit(opts, s).(column := s.column + 1)
      else if IsNewline(c) then
        if s.column == 0 then s else Emit(opts, s).(row := s.row + 1, column := 0)
      else if c == DOUBLE_QUOTE then
        s.(mode := InQuotedValue)
      else
        Store(opts, s, c).(mode := InUnquotedValue)
    case InUnquotedValue =>
      if IsDelimiter(opts, c) then EndValue(opts, s)
      else if IsNewline(c) then EndRecord(opts, s)
      else Store(opts, s, c)
    case InQuotedValue =>
      if c == DOUBLE_QUOTE then s.(mode := AfterQuote) else Store(opts, s, c)
    case AfterQuote =>
      if IsDelimiter(opts, c) then EndValue(opts, s)
      else if c == DOUBLE_QUOTE then Store(opts, s, DOUBLE_QUOTE).(mode := InQuotedValue)
      else if IsNewline(c) then EndRecord(opts, s)
      else Store(opts, s.(warnings := RepairedValue(s.warnings, s.row, s.column)), c).(mode := InUnquotedValue)
  }

  /** The machine run over a sequence of bytes. */
  function Run(opts: Options, s: Scan, input: seq<byte>): (r: Scan)
    requires Consistent(s)
    ensures Consistent(r)
    decreases |input|
  {
    if input == [] then s else Run(opts, Step(opts, s, input[0]), input[1..])
  }

  /** EOF at the current label, then END. */
  function EndOfInput(opts: Options, s: Scan): (r: Scan)
    requires Consistent(s)
  {
    match s.mode
    case ValueBegin => s
    case InUnquotedValue => Emit(opts, s).(value := [])
    case InQuotedValue => Emit(opts, s.(warnings := s.warnings.(eofInQuotedValue := true))).(value := [])
    case AfterQuote => Emit(opts, s).(value := [])
  }

  /** readCsv's result: its warnings and its table. */
  datatype CsvResult = CsvResult(warnings: WarningCounts, table: CsvTable)

  /** What readCsv computes for the file `input`. */
  function Converted(opts: Options, input: seq<byte>): CsvResult
  {
    var s := EndOfInput(opts, Run(opts, START, input));
    CsvResult(s.warnings, FinishTable(s.columns))
  }

  // ----- The end of the file against the delimiter -----

  /** What fgetc returns at the end of the file. */
  const EOF: int := -1

  /** A `char` delimiter in the int comparison `c == delimiter`: the char
      is signed, so a byte of 0x80 or more is negative. */
  function SignedChar(b: byte): (v: int)
    ensures -0x80 <= v < 0x80 && v % 256 == b as int
  {
    if b < 0x80 then b as int else b as int - 256
  }

  /** `c == delimiter` for every value NEXT() can return, a byte or EOF. */
  predicate ReadsAsDelimiter(opts: Options, c: int) { c == SignedChar(opts.delimiter) }

  /** For a byte of the file the comparison is IsDelimiter. */
  lemma ByteReadsAsDelimiter(opts: Options, c: byte)
    ensures ReadsAsDelimiter(opts, c as int) <==> IsDelimiter(opts, c)
  {
  }

  /** EOF compares equal to the delimiter exactly when it is 0xFF. */
  lemma EofReadsAsDelimiter(opts: Options)
    ensures ReadsAsDelimiter(opts, EOF) <==> opts.delimiter == 0xFF
  {
  }

  /** A read of EOF either reaches END or, taken for the delimiter, goes
      back to VALUE_BEGIN. */
  datatype EofOutcome = Ended(final: Scan) | Again(next: Scan)

  /** One EOF at the current label as the program reads it:
      VALUE_BEGIN, IN_UNQUOTED_VALUE and AFTER_QUOTE test the delimiter
      before EOF; IN_QUOTED_VALUE tests EOF first. */
  function EofAsWritten(opts: Options, s: Scan): (r: EofOutcome)
    requires Consistent(s)
    ensures r.Again? ==> Consistent(r.next) && r.next.mode == ValueBegin && r.next.column == s.column + 1
  {
    if s.mode != InQuotedValue && ReadsAsDelimiter(opts, EOF) then
      Again(if s.mode == ValueBegin then Emit(opts, s).(column := s.column + 1) else EndValue(opts, s))
    else Ended(EndOfInput(opts, s))
  }

  /** EOF read n + 1 times in a row, as NEXT() keeps returning it. */
  function EofRounds(opts: Options, s: Scan, n: nat): EofOutcome
    requires Consistent(s)
    decreases n
  {
    var r := EofAsWritten(opts, s);
    if n == 0 || r.Ended? then r else EofRounds(opts, r.next, n - 1)
  }

  /** With the delimiter 0xFF, EOF outside quotes is taken for the
      delimiter at every read: the column grows by one each time and END
      is never reached. */
  lemma {:induction false} EofNeverEnds(opts: Options, s: Scan, n: nat)
    requires Consistent(s) && opts.delimiter == 0xFF && s.mode != InQuotedValue
    ensures EofRounds(opts, s, n).Again? && EofRounds(opts, s, n).next.column == s.column + n + 1
    decreases n
  {
    EofReadsAsDelimiter(opts);
    if n > 0 {
      EofNeverEnds(opts, EofAsWritten(opts, s).next, n - 1);
    }
  }

  /** EOF reaches END through EndOfInput, as ReadCsv reads it, exactly when
      the delimiter is not 0xFF or the value is quoted. */
  lemma EofEndsOtherwise(opts: Options, s: Scan)
    requires Consistent(s)
    ensures EofAsWritten(opts, s) == Ended(EndOfInput(opts, s)) <==> opts.delimiter != 0xFF || s.mode == InQuotedValue
  {
    EofReadsAsDelimiter(opts);
  }

  // ----- What a run keeps invariant -----

  /** Records whose column 0 has been emitted: every record emits its
      column-0 value before it moves to column 1 or ends. */
  function RowsStarted(s: Scan): nat { s.row + (if s.column > 0 then 1 else 0) }

  function Excess(n: nat, limit: nat): nat { if n > limit then n - limit else 0 }

  /** The invariant of the scans a run reaches from START: the builders
      respect both limits, column 0 holds one non-null cell per started
      record below the row limit and no column is longer, and every started
      record past the row limit was counted as skipped. */
  predicate Reachable(opts: Options, s: Scan)
  {
    Consistent(s)
    && |s.columns| <= opts.maxColumns
    && (forall j :: 0 <= j < |s.columns| ==> |s.columns[j]| <= opts.maxRows)
    && (|s.columns| > 0 <==> 0 < opts.maxColumns && 0 < Min(RowsStarted(s), opts.maxRows))
    && (|s.columns| > 0 ==>
          |s.columns[0]| == Min(RowsStarted(s), opts.maxRows)
          && forall k :: 0 <= k < |s.columns[0]| ==> s.columns[0][k].Some?)
    && s.warnings.nRowsSkipped == Excess(RowsStarted(s), opts.maxRows)
  }

  /** After EMIT_VALUE the builders and the skipped-row count are those of
      a scan that has started the current record. */
  lemma EmitStartsRecord(opts: Options, s: Scan)
    requires Reachable(opts, s)
    ensures var e := Emit(opts, s);
      && |e.columns| <= opts.maxColumns
      && (forall j :: 0 <= j < |e.columns| ==> |e.columns[j]| <= opts.maxRows)
      && (|e.columns| > 0 <==> 0 < opts.maxColumns && 0 < Min(s.row + 1, opts.maxRows))
      && (|e.columns| > 0 ==>
            |e.columns[0]| == Min(s.row + 1, opts.maxRows)
            && forall k :: 0 <= k < |e.columns[0]| ==> e.columns[0][k].Some?)
      && e.warnings.nRowsSkipped == Excess(s.row + 1, opts.maxRows)
  {
    var e := Emit(opts, s);
    if s.row < opts.maxRows && s.column < opts.maxColumns {
      assert e.columns == WriteCell(s.columns, s.row, s.column, Kept(opts, s.value));
      if s.column == 0 {
        assert |s.columns| > 0 ==> |s.columns[0]| == s.row;
        assert e.columns[0] == PutCell(if |s.columns| > 0 then s.columns[0] else [], s.row, Kept(opts, s.value));
      } else {
        assert |s.columns| > 0;
        assert e.columns[0] == s.columns[0];
      }
    }
  }

  /** Emitting the current value and moving on to the next column, or to
      the next record, keeps the invariant. */
  lemma EmitAdvances(opts: Options, s: Scan)
    requires Reachable(opts, s)
    ensures Reachable(opts, Emit(opts, s).(value := [], column := s.column + 1, mode := ValueBegin))
    ensures Reachable(opts, Emit(opts, s).(value := [], row := s.row + 1, column := 0, mode := ValueBegin))
  {
    EmitStartsRecord(opts, s);
  }

  /** Reading a byte into the value, or a repair before it, keeps the
      invariant: neither touches the builders or the row counters. */
  lemma StoreKeepsReachable(opts: Options, s: Scan, c: byte, m: Mode, repaired: bool)
    requires Reachable(opts, s) && m != ValueBegin
    ensures var t := if repaired then s.(warnings := RepairedValue(s.warnings, s.row, s.column)) else s;
      Reachable(opts, Store(opts, t, c).(mode := m))
  {
  }

  lemma StepKeepsReachable(opts: Options, s: Scan, c: byte)
    requires Reachable(opts, s)
    ensures Reachable(opts, Step(opts, s, c))
  {
    var r := Step(opts, s, c);
    EmitAdvances(opts, s);
    match s.mode
    case ValueBegin =>
      if IsDelimiter(opts, c) {
        assert r == Emit(opts, s).(value := [], column := s.column + 1, mode := ValueBegin);
      } else if IsNewline(c) {
        if s.column != 0 {
          assert r == Emit(opts, s).(value := [], row := s.row + 1, column := 0, mode := ValueBegin);
        }
      } else if c != DOUBLE_QUOTE {
        StoreKeepsReachable(opts, s, c, InUnquotedValue, false);
      }
    case InUnquotedValue =>
      if !IsDelimiter(opts, c) && !IsNewline(c) {
        StoreKeepsReachable(opts, s, c, InUnquotedValue, false);
      }
    case InQuotedValue =>
      if c != DOUBLE_QUOTE {
        StoreKeepsReachable(opts, s, c, InQuotedValue, false);
      }
    case AfterQuote =>
      if IsDelimiter(opts, c) || IsNewline(c) {
      } else if c == DOUBLE_QUOTE {
        StoreKeepsReachable(opts, s, DOUBLE_QUOTE, InQuotedValue, false);
      } else {
        StoreKeepsReachable(opts, s, c, InUnquotedValue, true);
      }
  }

  lemma {:induction false} RunKeepsReachable(opts: Options, s: Scan, input: seq<byte>)
    requires Reachable(opts, s)
    ensures Reachable(opts, Run(opts, s, input))
    decreases |input|
  {
    if input != [] {
      StepKeepsReachable(opts, s, input[0]);
      RunKeepsReachable(opts, Step(opts, s, input[0]), input[1..]);
    }
  }

  /** No column is longer than column 0. */
  lemma ColumnsFitColumnZero(opts: Options, s: Scan)
    requires Reachable(opts, s)
    ensures forall j :: 0 <= j < |s.columns| ==> |s.columns[j]| <= |s.columns[0]|
  {
    forall j | 0 <= j < |s.columns|
      ensures |s.columns[j]| <= |s.columns[0]|
    {
    }
  }

  /** EOF ends the open value as a delimiter would: the builders and the
      skipped-row count afterwards are those of a reachable scan that has
      started one more record when a value was open. */
  lemma EndOfInputLikeEndValue(opts: Options, s: Scan) returns (t: Scan)
    requires Reachable(opts, s)
    ensures Reachable(opts, t)
    ensures EndOfInput(opts, s).columns == t.columns
    ensures EndOfInput(opts, s).warnings.nRowsSkipped == t.warnings.nRowsSkipped
    ensures RowsStarted(t) == s.row + (if s.column > 0 || s.mode != ValueBegin then 1 else 0)
  {
    EmitAdvances(opts, s);
    t := if s.mode == ValueBegin then s else Emit(opts, s).(value := [], column := s.column + 1, mode := ValueBegin);
  }

  /** The records of the file: those ended by a newline, and one more when
      EOF comes inside a record. */
  function RecordCount(opts: Options, input: seq<byte>): nat
  {
    var s := Run(opts, START, input);
    s.row + (if s.column > 0 || s.mode != ValueBegin then 1 else 0)
  }

  /** The table readCsv returns is rectangular: every column has exactly
      numRows cells, column 0 has no null, and the limits hold. Its rows
      are the file's records up to --max_rows, and nRowsSkipped counts the
      rest. */
  lemma TableShape(opts: Options, input: seq<byte>)
    ensures var r := Converted(opts, input);
      && |r.table.columns| <= opts.maxColumns
      && r.table.numRows == (if opts.maxColumns == 0 then 0 else Min(RecordCount(opts, input), opts.maxRows))
      && r.warnings.nRowsSkipped == Excess(RecordCount(opts, input), opts.maxRows)
      && (forall j :: 0 <= j < |r.table.columns| ==> |r.table.columns[j].cells| == r.table.numRows)
      && (|r.table.columns| > 0 ==> forall k :: 0 <= k < r.table.numRows ==> r.table.columns[0].cells[k].Some?)
  {
    RunKeepsReachable(opts, START, input);
    var t := EndOfInputLikeEndValue(opts, Run(opts, START, input));
    if t.columns != [] {
      ColumnsFitColumnZero(opts, t);
    }
  }

  // ----- What each label does with the bytes it reads -----

  /** STORE_CHAR for each byte of `text` in turn: the value grows by the
      text, and it is counted as truncated exactly once, by the byte that
      first goes past max_bytes_per_value. */
  function StoreAll(opts: Options, s: Scan, text: seq<byte>): (r: Scan)
    ensures r.value == s.value + text
    ensures r.(value := s.value, warnings := s.warnings) == s
    ensures r.warnings.nValuesTruncated == s.warnings.nValuesTruncated
      + (if |s.value| <= opts.maxBytesPerValue < |s.value| + |text| then 1 else 0)
    ensures r.warnings.(nValuesTruncated := s.warnings.nValuesTruncated,
                        firstTruncatedValueRow := s.warnings.firstTruncatedValueRow,
                        firstTruncatedValueColumn := s.warnings.firstTruncatedValueColumn) == s.warnings
    decreases |text|
  {
    if text == [] then s
    else
      var r := StoreAll(opts, Store(opts, s, text[0]), text[1..]);
      assert s.value + [text[0]] + text[1..] == s.value + text;
      r
  }

  /** Reading a + b is reading a, then b. */
  lemma {:induction false} RunAppend(opts: Options, s: Scan, a: seq<byte>, b: seq<byte>)
    requires Consistent(s)
    ensures Run(opts, s, a + b) == Run(opts, Run(opts, s, a), b)
    decreases |a|
  {
    if a == [] {
      assert a + b == b;
    } else {
      assert (a + b)[0] == a[0] && (a + b)[1..] == a[1..] + b;
      RunAppend(opts, Step(opts, s, a[0]), a[1..], b);
    }
  }

  /** The label is not part of what STORE_CHAR changes. */
  lemma {:induction false} StoreAllIgnoresMode(opts: Options, s: Scan, text: seq<byte>, m: Mode)
    ensures StoreAll(opts, s.(mode := m), text) == StoreAll(opts, s, text).(mode := m)
    decreases |text|
  {
    if text != [] {
      assert Store(opts, s.(mode := m), text[0]) == Store(opts, s, text[0]).(mode := m);
      StoreAllIgnoresMode(opts, Store(opts, s, text[0]), text[1..], m);
    }
  }

  /** Inside quotes every byte but '"' is stored as it is: delimiters, CR
      and LF included. */
  lemma {:induction false} QuotedTextKept(opts: Options, s: Scan, text: seq<byte>, rest: seq<byte>)
    requires Consistent(s) && s.mode == InQuotedValue
    requires forall k :: 0 <= k < |text| ==> text[k] != DOUBLE_QUOTE
    ensures Run(opts, s, text + rest) == Run(opts, StoreAll(opts, s, text), rest)
    decreases |text|
  {
    if text != [] {
      assert (text + rest)[0] == text[0] && (text + rest)[1..] == text[1..] + rest;
      assert Step(opts, s, text[0]) == Store(opts, s, text[0]);
      assert Run(opts, s, text + rest) == Run(opts, Store(opts, s, text[0]), text[1..] + rest);
      assert StoreAll(opts, s, text) == StoreAll(opts, Store(opts, s, text[0]), text[1..]);
      QuotedTextKept(opts, Store(opts, s, text[0]), text[1..], rest);
    } else {
      assert text + rest == rest;
    }
  }

  /** Outside quotes every byte but the delimiter, CR and LF is stored as it
      is; a '"' among them is an ordinary byte and warns of nothing. */
  lemma {:induction false} UnquotedTextKept(opts: Options, s: Scan, text: seq<byte>, rest: seq<byte>)
    requires Consistent(s) && s.mode == InUnquotedValue
    requires forall k :: 0 <= k < |text| ==> !IsDelimiter(opts, text[k]) && !IsNewline(text[k])
    ensures Run(opts, s, text + rest) == Run(opts, StoreAll(opts, s, text), rest)
    decreases |text|
  {
    if text != [] {
      assert (text + rest)[0] == text[0] && (text + rest)[1..] == text[1..] + rest;
      assert Step(opts, s, text[0]) == Store(opts, s, text[0]);
      assert Run(opts, s, text + rest) == Run(opts, Store(opts, s, text[0]), text[1..] + rest);
      assert StoreAll(opts, s, text) == StoreAll(opts, Store(opts, s, text[0]), text[1..]);
      UnquotedTextKept(opts, Store(opts, s, text[0]), text[1..], rest);
    } else {
      assert text + rest == rest;
    }
  }

  /** Inside quotes, `""` stores one '"' and the value stays quoted (unless
      '"' is the delimiter, which AFTER_QUOTE tests first). */
  lemma DoubledQuoteKept(opts: Options, s: Scan, rest: seq<byte>)
    requires Consistent(s) && s.mode == InQuotedValue && !IsDelimiter(opts, DOUBLE_QUOTE)
    ensures Run(opts, s, [DOUBLE_QUOTE, DOUBLE_QUOTE] + rest) == Run(opts, Store(opts, s, DOUBLE_QUOTE), rest)
  {
    var t := s.(mode := AfterQuote);
    assert Step(opts, s, DOUBLE_QUOTE) == t;
    assert Step(opts, t, DOUBLE_QUOTE) == Store(opts, s, DOUBLE_QUOTE);
    assert ([DOUBLE_QUOTE, DOUBLE_QUOTE] + rest)[1..][1..] == rest;
  }

  /** At the start of a record, CR and LF change nothing: blank lines make
      no record. */
  lemma {:induction false} BlankLinesSkipped(opts: Options, s: Scan, breaks: seq<byte>, rest: seq<byte>)
    requires Consistent(s) && s.mode == ValueBegin && s.column == 0
    requires forall k :: 0 <= k < |breaks| ==> IsNewline(breaks[k]) && !IsDelimiter(opts, breaks[k])
    ensures Run(opts, s, breaks + rest) == Run(opts, s, rest)
    decreases |breaks|
  {
    if breaks != [] {
      assert (breaks + rest)[0] == breaks[0] && (breaks + rest)[1..] == breaks[1..] + rest;
      assert Step(opts, s, breaks[0]) == s;
      assert Run(opts, s, breaks + rest) == Run(opts, s, breaks[1..] + rest);
      BlankLinesSkipped(opts, s, breaks[1..], rest);
    } else {
      assert breaks + rest == rest;
    }
  }

  /** Outside quotes, "\r\n" ends a record as "\n" alone does. */
  lemma CrLfIsOneBreak(opts: Options, s: Scan, rest: seq<byte>)
    requires Consistent(s) && s.mode != InQuotedValue
    requires !IsDelimiter(opts, CR) && !IsDelimiter(opts, LF)
    ensures Run(opts, s, [CR, LF] + rest) == Run(opts, s, [LF] + rest)
  {
    var t := Step(opts, s, CR);
    assert t == Step(opts, s, LF);
    assert t.mode == ValueBegin && t.column == 0;
    assert Step(opts, t, LF) == t;
    assert ([CR, LF] + rest)[1..] == [LF] + rest;
    assert ([LF] + rest)[1..] == rest;
  }

  /** After a closing quote, a byte that is none of the delimiter, '"', CR
      or LF is stored, the rest of the value is read unquoted, and the
      value counts as repaired; only the first repair's coordinates are
      kept. */
  lemma RepairAfterQuote(opts: Options, s: Scan, c: byte)
    requires Consistent(s) && s.mode == AfterQuote
    requires !IsDelimiter(opts, c) && c != DOUBLE_QUOTE && !IsNewline(c)
    ensures var r := Step(opts, s, c);
      && r.mode == InUnquotedValue && r.value == s.value + [c]
      && r.row == s.row && r.column == s.column && r.columns == s.columns
      && r.warnings.nValuesRepaired == s.warnings.nValuesRepaired + 1
      && (s.warnings.nValuesRepaired == 0 <==>
            r.warnings.nValuesRepaired == 1)
      && (s.warnings.nValuesRepaired == 0 ==>
            r.warnings.firstRepairedValueRow == s.row && r.warnings.firstRepairedValueColumn == s.column)
      && (s.warnings.nValuesRepaired > 0 ==>
            r.warnings.firstRepairedValueRow == s.warnings.firstRepairedValueRow
            && r.warnings.firstRepairedValueColumn == s.warnings.firstRepairedValueColumn)
  {
  }

  /** EMIT_VALUE: below both limits the cell at (row, column) holds the first
      min(len, max_bytes_per_value) bytes of the value and nothing else in
      the builders changes; past the row limit nothing is written and only
      column 0 counts a skipped row; past the column limit nothing is
      written and the excess is recorded. */
  lemma EmitMeaning(opts: Options, s: Scan)
    requires Consistent(s)
    ensures var e := Emit(opts, s);
      && (s.row < opts.maxRows && s.column < opts.maxColumns ==>
            && e.warnings == s.warnings
            && |e.columns| == Max(|s.columns|, s.column + 1)
            && |e.columns[s.column]| == s.row + 1
            && e.columns[s.column][s.row] == Some(s.value[..Min(|s.value|, opts.maxBytesPerValue)])
            && (forall k :: 0 <= k < s.row && (s.column >= |s.columns| || k >= |s.columns[s.column]|) ==>
                  e.columns[s.column][k] == None)
            && (forall j :: 0 <= j < |e.columns| && j != s.column ==>
                  e.columns[j] == if j < |s.columns| then s.columns[j] else []))
      && (s.row >= opts.maxRows ==>
            e.columns == s.columns
            && e.warnings.nRowsSkipped == s.warnings.nRowsSkipped + (if s.column == 0 then 1 else 0))
      && (s.row < opts.maxRows && s.column >= opts.maxColumns ==>
            e.columns == s.columns
            && e.warnings.nColumnsSkipped == Max(s.warnings.nColumnsSkipped, s.column - opts.maxColumns + 1))
  {
    if s.row < opts.maxRows && s.column < opts.maxColumns {
      var old0 := if s.column < |s.columns| then s.columns[s.column] else [];
      assert Emit(opts, s).columns[s.column] == PutCell(old0, s.row, Kept(opts, s.value));
    }
  }

  /** EOF at the start of a value emits nothing; anywhere else it emits the
      open value, and inside quotes it also records the missing quote. */
  lemma EndOfInputMeaning(opts: Options, s: Scan)
    requires Consistent(s)
    ensures var f := EndOfInput(opts, s);
      && (s.mode == ValueBegin ==> f == s)
      && (s.mode != ValueBegin ==> f.columns == Emit(opts, s).columns && f.row == s.row && f.column == s.column)
      && (f.warnings.eofInQuotedValue <==> s.warnings.eofInQuotedValue || s.mode == InQuotedValue)
  {
  }

  // ----- Reading back what the CSV printer writes -----

  lemma EmitIgnoresMode(opts: Options, s: Scan, m: Mode)
    requires Consistent(s) && Consistent(s.(mode := m))
    ensures Emit(opts, s.(mode := m)) == Emit(opts, s).(mode := m)
  {
  }

  lemma CharsToBytesAppend(a: string, b: string)
    requires IsByteString(a) && IsByteString(b)
    ensures CharsToBytes(a + b) == CharsToBytes(a) + CharsToBytes(b)
  {
    assert forall k :: 0 <= k < |a| + |b| ==> CharsToBytes(a + b)[k] == (CharsToBytes(a) + CharsToBytes(b))[k];
  }

  /** Doubling the quotes of a C string keeps it one byte per character. */
  lemma {:induction false} DoubleQuotesBytes(t: string)
    requires IsByteString(t)
    ensures IsByteString(TextFormats.DoubleQuotes(t))
  {
    if t != [] {
      DoubleQuotesBytes(t[1..]);
      var head := if t[0] == '"' then "\"\"" else [t[0]];
      assert TextFormats.DoubleQuotes(t) == head + TextFormats.DoubleQuotes(t[1..]);
    }
  }

  /** A leading quote is printed twice. */
  lemma DoubleQuotesHeadQuote(t: string)
    requires t != [] && t[0] == '"' && IsByteString(t)
    ensures IsByteString(TextFormats.DoubleQuotes(t)) && IsByteString(TextFormats.DoubleQuotes(t[1..]))
    ensures CharsToBytes(TextFormats.DoubleQuotes(t))
         == [DOUBLE_QUOTE, DOUBLE_QUOTE] + CharsToBytes(TextFormats.DoubleQuotes(t[1..]))
  {
    DoubleQuotesBytes(t);
    DoubleQuotesBytes(t[1..]);
    var rest := TextFormats.DoubleQuotes(t[1..]);
    calc {
      CharsToBytes(TextFormats.DoubleQuotes(t));
    == { assert TextFormats.DoubleQuotes(t) == "\"\"" + rest; }
      CharsToBytes("\"\"" + rest);
    == { TwoQuotesBytes(); CharsToBytesAppend("\"\"", rest); }
      [DOUBLE_QUOTE, DOUBLE_QUOTE] + CharsToBytes(rest);
    }
  }

  lemma TwoQuotesBytes()
    ensures IsByteString("\"\"") && CharsToBytes("\"\"") == [DOUBLE_QUOTE, DOUBLE_QUOTE]
  {
    assert CharsToBytes("\"\"")[0] == DOUBLE_QUOTE;
  }

  /** Any other leading character is printed once. */
  lemma DoubleQuotesHeadOther(t: string)
    requires t != [] && t[0] != '"' && IsByteString(t)
    ensures IsByteString(TextFormats.DoubleQuotes(t)) && IsByteString(TextFormats.DoubleQuotes(t[1..]))
    ensures CharsToBytes(TextFormats.DoubleQuotes(t))
         == [t[0] as int as byte] + CharsToBytes(TextFormats.DoubleQuotes(t[1..]))
  {
    DoubleQuotesBytes(t);
    DoubleQuotesBytes(t[1..]);
    var rest := TextFormats.DoubleQuotes(t[1..]);
    calc {
      CharsToBytes(TextFormats.DoubleQuotes(t));
    == { assert TextFormats.DoubleQuotes(t) == [t[0]] + rest; }
      CharsToBytes([t[0]] + rest);
    == { CharsToBytesAppend([t[0]], rest); }
      CharsToBytes([t[0]]) + CharsToBytes(rest);
    }
  }

  /** CsvPrinter::writeString's text for the bytes v, read as bytes. */
  function PrintedField(v: seq<byte>): seq<byte>
  {
    var t := BytesToChars(v);
    DoubleQuotesBytes(t);
    CharsToBytes(TextFormats.CsvField(t))
  }

  /** Between the quotes, the doubled-quote text of t is read as t. */
  lemma {:induction false} QuotedDoubledKept(opts: Options, s: Scan, t: string)
    requires Consistent(s) && s.mode == InQuotedValue && !IsDelimiter(opts, DOUBLE_QUOTE)
    requires IsByteString(t)
    ensures IsByteString(TextFormats.DoubleQuotes(t))
    ensures Run(opts, s, CharsToBytes(TextFormats.DoubleQuotes(t))) == StoreAll(opts, s, CharsToBytes(t))
    decreases |t|
  {
    DoubleQuotesBytes(t);
    if t != [] {
      var c: byte := t[0] as int;
      if t[0] == '"' { DoubleQuotesHeadQuote(t); } else { DoubleQuotesHeadOther(t); }
      var head: seq<byte> := if t[0] == '"' then [DOUBLE_QUOTE, DOUBLE_QUOTE] else [c];
      var tail := CharsToBytes(TextFormats.DoubleQuotes(t[1..]));
      RunAppend(opts, s, head, tail);
      if t[0] == '"' {
        DoubledQuoteKept(opts, s, []);
        assert head + [] == head;
      }
      assert Run(opts, s, head) == Store(opts, s, c);
      QuotedDoubledKept(opts, Store(opts, s, c), t[1..]);
      assert CharsToBytes(t)[0] == c && CharsToBytes(t)[1..] == CharsToBytes(t[1..]);
    }
  }

  /** A quoted printed field is the opening quote, the doubled text and
      the closing quote. */
  lemma QuotedFieldBytes(v: seq<byte>)
    requires TextFormats.NeedsQuotes(BytesToChars(v))
    ensures IsByteString(TextFormats.DoubleQuotes(BytesToChars(v)))
    ensures PrintedField(v) + [COMMA]
         == [DOUBLE_QUOTE] + CharsToBytes(TextFormats.DoubleQuotes(BytesToChars(v))) + [DOUBLE_QUOTE, COMMA]
  {
    var t := BytesToChars(v);
    DoubleQuotesBytes(t);
    CharsToBytesAppend("\"", TextFormats.DoubleQuotes(t));
    CharsToBytesAppend("\"" + TextFormats.DoubleQuotes(t), "\"");
  }

  /** A closing quote and then the delimiter end the quoted value. */
  lemma ClosingQuoteThenComma(opts: Options, w: Scan)
    requires Consistent(w) && w.mode == InQuotedValue && opts.delimiter == COMMA
    ensures Run(opts, w, [DOUBLE_QUOTE, COMMA]) == EndValue(opts, w.(mode := InUnquotedValue))
  {
    var a := w.(mode := AfterQuote);
    assert Step(opts, w, DOUBLE_QUOTE) == a;
    assert [DOUBLE_QUOTE, COMMA][1..] == [COMMA] && [COMMA][1..] == [];
    assert Run(opts, w, [DOUBLE_QUOTE, COMMA]) == Run(opts, a, [COMMA]);
    assert Run(opts, a, [COMMA]) == Step(opts, a, COMMA);
    EmitIgnoresMode(opts, w.(mode := InUnquotedValue), AfterQuote);
  }

  lemma QuotedFieldReadBack(opts: Options, s: Scan, v: seq<byte>)
    requires Consistent(s) && s.mode == ValueBegin && opts.delimiter == COMMA
    requires TextFormats.NeedsQuotes(BytesToChars(v))
    ensures Run(opts, s, PrintedField(v) + [COMMA]) == EndValue(opts, StoreAll(opts, s.(mode := InUnquotedValue), v))
  {
    var t := BytesToChars(v);
    assert CharsToBytes(t) == v;
    QuotedFieldBytes(v);
    var q := s.(mode := InQuotedValue);
    var d := CharsToBytes(TextFormats.DoubleQuotes(t));
    RunAppend(opts, s, [DOUBLE_QUOTE] + d, [DOUBLE_QUOTE, COMMA]);
    RunAppend(opts, s, [DOUBLE_QUOTE], d);
    assert Run(opts, s, [DOUBLE_QUOTE]) == q;
    QuotedDoubledKept(opts, q, t);
    StoreAllIgnoresMode(opts, s, v, InQuotedValue);
    StoreAllIgnoresMode(opts, s, v, InUnquotedValue);
    ClosingQuoteThenComma(opts, StoreAll(opts, q, v));
  }

  /** A printed field without quotes is the value itself, and none of its
      bytes is the comma, CR, LF or '"'. */
  lemma PlainFieldBytes(v: seq<byte>)
    requires !TextFormats.NeedsQuotes(BytesToChars(v))
    ensures PrintedField(v) == v
    ensures forall k :: 0 <= k < |v| ==> v[k] != COMMA && !IsNewline(v[k]) && v[k] != DOUBLE_QUOTE
  {
    var t := BytesToChars(v);
    assert CharsToBytes(t) == v;
    assert TextFormats.CsvField(t) == t;
    forall k | 0 <= k < |v|
      ensures v[k] != COMMA && !IsNewline(v[k]) && v[k] != DOUBLE_QUOTE
    {
      assert !TextFormats.ForcesQuotes(t[k]);
    }
  }

  lemma PlainFieldReadBack(opts: Options, s: Scan, v: seq<byte>)
    requires Consistent(s) && s.mode == ValueBegin && opts.delimiter == COMMA
    requires !TextFormats.NeedsQuotes(BytesToChars(v))
    ensures Run(opts, s, PrintedField(v) + [COMMA]) == EndValue(opts, StoreAll(opts, s.(mode := InUnquotedValue), v))
  {
    PlainFieldBytes(v);
    var u := StoreAll(opts, s.(mode := InUnquotedValue), v);
    if v == [] {
      EmitIgnoresMode(opts, s, InUnquotedValue);
      assert Step(opts, s, COMMA) == EndValue(opts, u);
    } else {
      var first := Store(opts, s, v[0]).(mode := InUnquotedValue);
      assert Step(opts, s, v[0]) == first;
      assert v + [COMMA] == [v[0]] + (v[1..] + [COMMA]);
      UnquotedTextKept(opts, first, v[1..], [COMMA]);
      StoreAllIgnoresMode(opts, Store(opts, s, v[0]), v[1..], InUnquotedValue);
      assert StoreAll(opts, first, v[1..]) == u;
      assert Step(opts, u, COMMA) == EndValue(opts, u);
    }
  }

  /** A value written by the CSV printer and followed by a comma is read
      back by readCsv (with --delimiter=,) as the same bytes: the reader
      stores exactly v, then ends the value as at any delimiter. */
  lemma PrintedFieldReadBack(opts: Options, s: Scan, v: seq<byte>)
    requires Consistent(s) && s.mode == ValueBegin && opts.delimiter == COMMA
    ensures Run(opts, s, PrintedField(v) + [COMMA]) == EndValue(opts, StoreAll(opts, s.(mode := InUnquotedValue), v))
  {
    if TextFormats.NeedsQuotes(BytesToChars(v)) {
      QuotedFieldReadBack(opts, s, v);
    } else {
      PlainFieldReadBack(opts, s, v);
    }
  }

  // ----- The program: the Warnings struct, the builders and readCsv -----

  /** struct Warnings: counters the reader bumps in place. */
  class Warnings {
    var nRowsSkipped: nat
    var nColumnsSkipped: nat
    var nValuesTruncated: nat
    var firstTruncatedValueRow: nat
    var firstTruncatedValueColumn: nat
    var nValuesRepaired: nat
    var firstRepairedValueRow: nat
    var firstRepairedValueColumn: nat
    var eofInQuotedValue: bool

    function Counts(): WarningCounts
      reads this
    {
      WarningCounts(nRowsSkipped, nColumnsSkipped, nValuesTruncated, firstTruncatedValueRow,
                    firstTruncatedValueColumn, nValuesRepaired, firstRepairedValueRow,
                    firstRepairedValueColumn, eofInQuotedValue)
    }

    constructor()
      ensures Counts() == NO_WARNINGS
    {
      nRowsSkipped, nColumnsSkipped := 0, 0;
      nValuesTruncated, firstTruncatedValueRow, firstTruncatedValueColumn := 0, 0, 0;
      nValuesRepaired, firstRepairedValueRow, firstRepairedValueColumn := 0, 0, 0;
      eofInQuotedValue := false;
    }

    method WarnSkippedRow()
      modifies this
      ensures Counts() == SkippedRow(old(Counts()))
    {
      nRowsSkipped := nRowsSkipped + 1;
    }

    method WarnSkippedColumn(nPastLimit: nat)
      modifies this
      ensures Counts() == SkippedColumn(old(Counts()), nPastLimit)
    {
      nColumnsSkipped := Max(nColumnsSkipped, nPastLimit);
    }

    method WarnRepairedValue(row: nat, column: nat)
      modifies this
      ensures Counts() == RepairedValue(old(Counts()), row, column)
    {
      if nValuesRepaired == 0 {
        firstRepairedValueRow := row;
        firstRepairedValueColumn := column;
      }
      nValuesRepaired := nValuesRepaired + 1;
    }

    method WarnEofInQuotedValue()
      modifies this
      ensures Counts() == old(Counts()).(eofInQuotedValue := true)
    {
      eofInQuotedValue := true;
    }

    method WarnTruncatedValue(row: nat, column: nat)
      modifies this
      ensures Counts() == TruncatedValue(old(Counts()), row, column)
    {
      if nValuesTruncated == 0 {
        firstTruncatedValueRow := row;
        firstTruncatedValueColumn := column;
      }
      nValuesTruncated := nValuesTruncated + 1;
    }
  }

  /** struct ColumnBuilder: the string array built so far and the row its
      next value belongs to. */
  class ColumnBuilder {
    var arrayBuilder: seq<Cell>
    var nextRowIndex: nat

    ghost predicate Valid()
      reads this
    {
      nextRowIndex == |arrayBuilder|
    }

    constructor()
      ensures Valid() && arrayBuilder == []
    {
      arrayBuilder, nextRowIndex := [], 0;
    }

    /** Rows are written in increasing order: a row before nextRowIndex
        would make AppendNulls ask for a wrapped-around count. */
    method WriteValue(row: nat, bytes: seq<byte>)
      requires Valid() && nextRowIndex <= row
      modifies this
      ensures Valid() && arrayBuilder == PutCell(old(arrayBuilder), row, bytes)
    {
      if row != nextRowIndex {
        arrayBuilder := arrayBuilder + Nulls(row - nextRowIndex);
        nextRowIndex := row;
      }
      arrayBuilder := arrayBuilder + [Some(bytes)];
      nextRowIndex := nextRowIndex + 1;
    }
  }

  /** struct TableBuilder: one ColumnBuilder per column seen so far. */
  /** Columns named and padded one by one make up FinishTable. */
  lemma FinishedColumns(columns: seq<seq<Cell>>, fields: seq<StringColumn>, n: nat)
    requires |fields| == |columns| && n == (if columns == [] then 0 else |columns[0]|)
    requires forall j :: 0 <= j < |fields| ==> fields[j] == StringColumn(NatToDecimal(j), Padded(columns[j], n))
    ensures CsvTable(fields, n) == FinishTable(columns)
  {
    var t := FinishTable(columns);
    assert forall j :: 0 <= j < |fields| ==> fields[j] == t.columns[j];
  }

  /** One column of TableBuilder::finish: pad the builder with nulls up to
      nRows cells, then finish it, which hands over its cells and leaves
      it empty. */
  method FinishColumn(b: ColumnBuilder, nRows: nat) returns (cells: seq<Cell>)
    modifies b
    ensures cells == Padded(old(b.arrayBuilder), nRows) && b.arrayBuilder == []
  {
    if |b.arrayBuilder| < nRows {
      b.arrayBuilder := b.arrayBuilder + Nulls(nRows - |b.arrayBuilder|);
    }
    cells := b.arrayBuilder;
    b.arrayBuilder := [];
  }

  class TableBuilder {
    var columnBuilders: seq<ColumnBuilder>
    ghost var columns: seq<seq<Cell>>
    ghost var Repr: set<object>

    ghost predicate Valid()
      reads this, Repr
    {
      this !in Repr
      && |columnBuilders| == |columns|
      && (forall j :: 0 <= j < |columnBuilders| ==> columnBuilders[j] in Repr)
      && (forall j, k :: 0 <= j < k < |columnBuilders| ==> columnBuilders[j] != columnBuilders[k])
      && (forall j :: 0 <= j < |columnBuilders| ==>
            columnBuilders[j].Valid() && columnBuilders[j].arrayBuilder == columns[j])
    }

    constructor()
      ensures Valid() && columns == [] && Repr == {}
    {
      columnBuilders, columns, Repr := [], [], {};
    }

    method WriteValue(row: nat, column: nat, bytes: seq<byte>)
      requires Valid() && (column < |columns| ==> |columns[column]| <= row)
      modifies this, Repr
      ensures Valid() && fresh(Repr - old(Repr))
      ensures columns == WriteCell(old(columns), row, column, bytes)
    {
      if column >= |columnBuilders| {
        while column >= |columnBuilders|
          invariant Valid() && fresh(Repr - old(Repr))
          invariant |old(columns)| <= |columns| <= column + 1
          invariant columns == old(columns) + seq(|columns| - |old(columns)|, _ => [])
          decreases column - |columnBuilders|
        {
          var b := new ColumnBuilder();
          columnBuilders := columnBuilders + [b];
          columns := columns + [[]];
          Repr := Repr + {b};
        }
      }
      columnBuilders[column].WriteValue(row, bytes);
      columns := columns[column := columnBuilders[column].arrayBuilder];
    }

    /** finish: pads the columns in place and builds the table; each
        builder's array is moved out of it. */
    method Finish() returns (table: CsvTable)
      requires Valid()
      modifies Repr
      ensures table == FinishTable(old(columns))
    {
      ghost var cs := columns;
      ghost var bs := columnBuilders;
      assert forall j, k :: 0 <= j < k < |bs| ==> bs[j] != bs[k];
      assert forall j :: 0 <= j < |bs| ==> bs[j] in Repr;
      var nRows := 0;
      var fields: seq<StringColumn> := [];
      var columnIndex := 0;
      while columnIndex < |columnBuilders|
        invariant columnBuilders == bs && columns == cs && |bs| == |cs|
        invariant columnIndex <= |bs| && |fields| == columnIndex
        invariant nRows == if columnIndex == 0 then 0 else |cs[0]|
        invariant forall j :: 0 <= j < columnIndex ==> fields[j] == StringColumn(NatToDecimal(j), Padded(cs[j], nRows))
        invariant forall j :: columnIndex <= j < |bs| ==> bs[j].arrayBuilder == cs[j]
      {
        var b := columnBuilders[columnIndex];
        if columnIndex == 0 {
          nRows := |b.arrayBuilder|;
        }
        var finished := FinishColumn(b, nRows);
        fields := fields + [StringColumn(NatToDecimal(columnIndex), finished)];
        columnIndex := columnIndex + 1;
      }
      FinishedColumns(cs, fields, nRows);
      table := CsvTable(fields, nRows);
    }
  }

  /** readCsv's locals stand for the scan s: the label, the counters,
      valuePos as the value's length with its first max_bytes_per_value
      bytes in buf, the warnings and the builders' columns. */
  ghost predicate Mirrors(opts: Options, s: Scan, mode: Mode, row: nat, column: nat,
                          buf: array<byte>, valuePos: nat, warnings: Warnings, builder: TableBuilder)
    reads buf, warnings, builder, builder.Repr
  {
    s.mode == mode && s.row == row && s.column == column && |s.value| == valuePos
    && buf.Length == opts.maxBytesPerValue
    && buf[..Min(valuePos, buf.Length)] == Kept(opts, s.value)
    && warnings.Counts() == s.warnings
    && builder.Valid() && builder.columns == s.columns
    && buf !in builder.Repr && warnings !in builder.Repr
  }

  /** EMIT_VALUE */
  method EmitValue(opts: Options, row: nat, column: nat, buf: array<byte>, valuePos: nat,
                   warnings: Warnings, builder: TableBuilder, ghost s: Scan)
    requires Consistent(s) && Mirrors(opts, s, s.mode, row, column, buf, valuePos, warnings, builder)
    modifies warnings, builder, builder.Repr
    ensures Mirrors(opts, Emit(opts, s), s.mode, row, column, buf, valuePos, warnings, builder)
    ensures fresh(builder.Repr - old(builder.Repr))
  {
    if row >= opts.maxRows {
      if column == 0 {
        warnings.WarnSkippedRow();
      }
    } else if column >= opts.maxColumns {
      warnings.WarnSkippedColumn(column - opts.maxColumns + 1);
    } else {
      builder.WriteValue(row, column, buf[..Min(valuePos, opts.maxBytesPerValue)]);
    }
  }

  /** STORE_CHAR(c) */
  method StoreChar(opts: Options, row: nat, column: nat, buf: array<byte>, valuePos: nat, c: byte,
                   warnings: Warnings, ghost builder: TableBuilder, ghost s: Scan) returns (nextPos: nat)
    requires Mirrors(opts, s, s.mode, row, column, buf, valuePos, warnings, builder)
    modifies buf, warnings
    ensures Mirrors(opts, Store(opts, s, c), s.mode, row, column, buf, nextPos, warnings, builder)
  {
    if valuePos == opts.maxBytesPerValue {
      warnings.WarnTruncatedValue(row, column);
    } else if valuePos < opts.maxBytesPerValue {
      buf[valuePos] := c;
      assert buf[..valuePos + 1] == old(buf[..valuePos]) + [c];
    }
    nextPos := valuePos + 1;
  }

  /** The label VALUE_BEGIN after reading byte c. */
  method ValueBeginByte(opts: Options, c: byte, row: nat, column: nat, buf: array<byte>, valuePos: nat,
                        warnings: Warnings, builder: TableBuilder, ghost s: Scan)
      returns (mode': Mode, row': nat, column': nat, valuePos': nat)
    requires s.mode == ValueBegin && Consistent(s)
    requires Mirrors(opts, s, ValueBegin, row, column, buf, valuePos, warnings, builder)
    modifies buf, warnings, builder, builder.Repr
    ensures Mirrors(opts, Step(opts, s, c), mode', row', column', buf, valuePos', warnings, builder)
    ensures fresh(builder.Repr - old(builder.Repr))
  {
    mode', row', column', valuePos' := ValueBegin, row, column, valuePos;
    if IsDelimiter(opts, c) {
      EmitValue(opts, row, column, buf, valuePos, warnings, builder, s);
      column' := column + 1;
    } else if IsNewline(c) {
      if column != 0 {
        EmitValue(opts, row, column, buf, valuePos, warnings, builder, s);
        row', column' := row + 1, 0;
      }
    } else if c == DOUBLE_QUOTE {
      mode' := InQuotedValue;
    } else {
      valuePos' := StoreChar(opts, row, column, buf, valuePos, c, warnings, builder, s);
      mode' := InUnquotedValue;
    }
  }

  /** The label IN_UNQUOTED_VALUE after reading byte c. */
  method UnquotedByte(opts: Options, c: byte, row: nat, column: nat, buf: array<byte>, valuePos: nat,
                      warnings: Warnings, builder: TableBuilder, ghost s: Scan)
      returns (mode': Mode, row': nat, column': nat, valuePos': nat)
    requires s.mode == InUnquotedValue && Consistent(s)
    requires Mirrors(opts, s, InUnquotedValue, row, column, buf, valuePos, warnings, builder)
    modifies buf, warnings, builder, builder.Repr
    ensures Mirrors(opts, Step(opts, s, c), mode', row', column', buf, valuePos', warnings, builder)
    ensures fresh(builder.Repr - old(builder.Repr))
  {
    mode', row', column', valuePos' := InUnquotedValue, row, column, valuePos;
    if IsDelimiter(opts, c) {
      EmitValue(opts, row, column, buf, valuePos, warnings, builder, s);
      mode', column', valuePos' := ValueBegin, column + 1, 0;
    } else if IsNewline(c) {
      EmitValue(opts, row, column, buf, valuePos, warnings, builder, s);
      mode', row', column', valuePos' := ValueBegin, row + 1, 0, 0;
    } else {
      valuePos' := StoreChar(opts, row, column, buf, valuePos, c, warnings, builder, s);
    }
  }

  /** The label IN_QUOTED_VALUE after reading byte c. */
  method QuotedByte(opts: Options, c: byte, row: nat, column: nat, buf: array<byte>, valuePos: nat,
                    warnings: Warnings, builder: TableBuilder, ghost s: Scan)
      returns (mode': Mode, valuePos': nat)
    requires s.mode == InQuotedValue && Consistent(s)
    requires Mirrors(opts, s, InQuotedValue, row, column, buf, valuePos, warnings, builder)
    modifies buf, warnings
    ensures Mirrors(opts, Step(opts, s, c), mode', row, column, buf, valuePos', warnings, builder)
  {
    mode', valuePos' := InQuotedValue, valuePos;
    if c == DOUBLE_QUOTE {
      mode' := AfterQuote;
    } else {
      valuePos' := StoreChar(opts, row, column, buf, valuePos, c, warnings, builder, s);
    }
  }

  /** The label AFTER_QUOTE after reading byte c. */
  method AfterQuoteByte(opts: Options, c: byte, row: nat, column: nat, buf: array<byte>, valuePos: nat,
                        warnings: Warnings, builder: TableBuilder, ghost s: Scan)
      returns (mode': Mode, row': nat, column': nat, valuePos': nat)
    requires s.mode == AfterQuote && Consistent(s)
    requires Mirrors(opts, s, AfterQuote, row, column, buf, valuePos, warnings, builder)
    modifies buf, warnings, builder, builder.Repr
    ensures Mirrors(opts, Step(opts, s, c), mode', row', column', buf, valuePos', warnings, builder)
    ensures fresh(builder.Repr - old(builder.Repr))
  {
    mode', row', column', valuePos' := AfterQuote, row, column, valuePos;
    if IsDelimiter(opts, c) {
      EmitValue(opts, row, column, buf, valuePos, warnings, builder, s);
      mode', column', valuePos' := ValueBegin, column + 1, 0;
    } else if c == DOUBLE_QUOTE {
      valuePos' := StoreChar(opts, row, column, buf, valuePos, DOUBLE_QUOTE, warnings, builder, s);
      mode' := InQuotedValue;
    } else if IsNewline(c) {
      EmitValue(opts, row, column, buf, valuePos, warnings, builder, s);
      mode', row', column', valuePos' := ValueBegin, row + 1, 0, 0;
    } else {
      warnings.WarnRepairedValue(row, column);
      ghost var repaired := s.(warnings := RepairedValue(s.warnings, row, column));
      valuePos' := StoreChar(opts, row, column, buf, valuePos, c, warnings, builder, repaired);
      mode' := InUnquotedValue;
    }
  }

  /** `c = NEXT()` and the code at the current label. */
  method ReadByte(opts: Options, c: byte, mode: Mode, row: nat, column: nat, buf: array<byte>, valuePos: nat,
                  warnings: Warnings, builder: TableBuilder, ghost s: Scan)
      returns (mode': Mode, row': nat, column': nat, valuePos': nat)
    requires Consistent(s) && Mirrors(opts, s, mode, row, column, buf, valuePos, warnings, builder)
    modifies buf, warnings, builder, builder.Repr
    ensures Mirrors(opts, Step(opts, s, c), mode', row', column', buf, valuePos', warnings, builder)
    ensures fresh(builder.Repr - old(builder.Repr))
  {
    match mode
    case ValueBegin =>
      mode', row', column', valuePos' := ValueBeginByte(opts, c, row, column, buf, valuePos, warnings, builder, s);
    case InUnquotedValue =>
      mode', row', column', valuePos' := UnquotedByte(opts, c, row, column, buf, valuePos, warnings, builder, s);
    case InQuotedValue =>
      row', column' := row, column;
      mode', valuePos' := QuotedByte(opts, c, row, column, buf, valuePos, warnings, builder, s);
    case AfterQuote =>
      mode', row', column', valuePos' := AfterQuoteByte(opts, c, row, column, buf, valuePos, warnings, builder, s);
  }

  /** EOF at the current label, up to END. */
  method EndOfFile(opts: Options, mode: Mode, row: nat, column: nat, buf: array<byte>, valuePos: nat,
                   warnings: Warnings, builder: TableBuilder, ghost s: Scan) returns (valuePos': nat)
    requires Consistent(s) && Mirrors(opts, s, mode, row, column, buf, valuePos, warnings, builder)
    modifies warnings, builder, builder.Repr
    ensures Mirrors(opts, EndOfInput(opts, s), mode, row, column, buf, valuePos', warnings, builder)
    ensures fresh(builder.Repr - old(builder.Repr))
  {
    valuePos' := valuePos;
    match mode
    case ValueBegin =>
    case InUnquotedValue =>
      EmitValue(opts, row, column, buf, valuePos, warnings, builder, s);
      valuePos' := 0;
    case InQuotedValue =>
      warnings.WarnEofInQuotedValue();
      EmitValue(opts, row, column, buf, valuePos, warnings, builder,
                s.(warnings := s.warnings.(eofInQuotedValue := true)));
      valuePos' := 0;
    case AfterQuote =>
      EmitValue(opts, row, column, buf, valuePos, warnings, builder, s);
      valuePos' := 0;
  }

  /** readCsv: reads the file a byte at a time through the labels, then
      finishes the table. The end of the input always ends the loop here;
      the program instead compares EOF with a 0xFF delimiter as equal and
      never gets to END (EofNeverEnds). */
  method ReadCsv(opts: Options, input: seq<byte>) returns (result: CsvResult)
    ensures result == Converted(opts, input)
  {
    var warnings := new Warnings();
    var builder := new TableBuilder();
    var row: nat, column: nat := 0, 0;
    var buf := new byte[opts.maxBytesPerValue];
    var valuePos: nat := 0;
    var mode := ValueBegin;
    ghost var s := START;
    var pos := 0;
    while pos < |input|
      invariant pos <= |input|
      invariant Consistent(s) && Mirrors(opts, s, mode, row, column, buf, valuePos, warnings, builder)
      invariant fresh(builder.Repr)
      invariant Run(opts, s, input[pos..]) == Run(opts, START, input)
    {
      var c := input[pos];
      mode, row, column, valuePos := ReadByte(opts, c, mode, row, column, buf, valuePos, warnings, builder, s);
      assert input[pos..][1..] == input[pos + 1..];
      s := Step(opts, s, c);
      pos := pos + 1;
    }
    assert input[pos..] == [];
    valuePos := EndOfFile(opts, mode, row, column, buf, valuePos, warnings, builder, s);
    var table := builder.Finish();
    result := CsvResult(warnings.Counts(), table);
  }
}
