/** parquet-to-text-stream's driver: the choice of reader for each column
    (makeTranscriberFor*), the transcribers that print one column each
    through the shared printer, and streamParquet, which prints the
    selected window of the file as CSV or JSON. */
module TextStream {
  import opened Common
  import opened Wrappers
  import opened ParquetFiles
  import opened ColumnReaders
  import opened Printers
  import Ranges

  /** The runtime errors the dispatch and the first row-group load throw.
      Each one ends the program before anything is printed. */
  datatype StreamError =
    | UnknownTimeUnit
    | UnsupportedIntLogicalType(logicalType: LogicalType)
    | NotAnIntColumn(physicalType: PhysicalType)
    | UnsupportedByteArrayType(logicalType: LogicalType)
    | UnsupportedPhysicalType(physicalType: PhysicalType)
    | NoRowGroups
    | CastFailed

  // ---------------------------------------------------------------------
  // Type dispatch
  // ---------------------------------------------------------------------

  /** makeTranscriberForIntColumn: TIMESTAMP picks the reader of its unit;
      INT and NONE pick a signed or unsigned reader of the physical width. */
  function IntColumnKind(d: ColumnDescriptor): Result<ValueKind, StreamError>
  {
    match d.logicalType
    case TimestampType(_, unit) =>
      (match unit
       case Millis => Ok(TimestampMillisKind)
       case Micros => Ok(TimestampMicrosKind)
       case Nanos => Ok(TimestampNanosKind)
       case UnknownUnit => Err(UnknownTimeUnit))
    case IntType(_, _) | NoLogicalType =>
      var isSigned := !d.logicalType.IntType? || d.logicalType.isSigned;
      (match d.physicalType
       case Int32 => Ok(if isSigned then Int32Kind else Uint32Kind)
       case Int64 => Ok(if isSigned then Int64Kind else Uint64Kind)
       case _ => Err(NotAnIntColumn(d.physicalType)))
    case _ => Err(UnsupportedIntLogicalType(d.logicalType))
  }

  /** makeTranscriberForByteArrayColumn: only STRING is read. */
  function ByteArrayColumnKind(d: ColumnDescriptor): Result<ValueKind, StreamError>
  {
    if d.logicalType == StringType then Ok(StringKind) else Err(UnsupportedByteArrayType(d.logicalType))
  }

  /** The columns the program can print, stated from the schema alone. */
  predicate Supported(d: ColumnDescriptor)
  {
    || (d.physicalType in {Int32, Int64}
        && (d.logicalType == NoLogicalType || d.logicalType.IntType?
            || (d.logicalType.TimestampType? && d.logicalType.unit != UnknownUnit)))
    || d.physicalType in {Float, Double}
    || (d.physicalType == ByteArray && d.logicalType == StringType)
  }

  predicate IsUnsigned(k: ValueKind) { k == Uint32Kind || k == Uint64Kind }

  function UnitOf(k: ValueKind): TimeUnit
  {
    match k
    case TimestampMillisKind => Millis
    case TimestampMicrosKind => Micros
    case TimestampNanosKind => Nanos
    case _ => UnknownUnit
  }

  /** makeTranscriberForColumn: dispatch on the physical type. A reader is
      chosen exactly for the supported columns; it is unsigned exactly for
      INT annotations that say so (NONE reads as signed); a timestamp reader
      has the annotation's unit; and apart from a TIMESTAMP on INT32 the
      reader's physical type is the column's. */
  function ColumnKind(d: ColumnDescriptor): (r: Result<ValueKind, StreamError>)
    ensures r.Ok? <==> Supported(d)
    ensures r.Ok? && IsUnsigned(r.value)
      <==> d.physicalType in {Int32, Int64} && d.logicalType.IntType? && !d.logicalType.isSigned
    ensures r.Ok? && d.logicalType.TimestampType? && d.physicalType in {Int32, Int64}
      ==> UnitOf(r.value) == d.logicalType.unit
    ensures r.Ok? && !(d.physicalType == Int32 && d.logicalType.TimestampType?)
      ==> ReaderType(r.value) == d.physicalType
  {
    match d.physicalType
    case Int32 | Int64 => IntColumnKind(d)
    case Float => Ok(FloatKind)
    case Double => Ok(DoubleKind)
    case ByteArray => ByteArrayColumnKind(d)
    case _ => Err(UnsupportedPhysicalType(d.physicalType))
  }

  /** Building the transcriber of column c: the dispatch, then the first
      row-group load of the FileColumnIterator constructor, which fails when
      the file has no row group or the column's reader is of another type. */
  function ColumnSetup(file: ParquetFile, c: nat): Result<ValueKind, StreamError>
    requires c < |file.schema|
  {
    match ColumnKind(file.schema[c])
    case Err(e) => Err(e)
    case Ok(k) =>
      if |file.rowGroups| == 0 then Err(NoRowGroups)
      else if ReaderType(k) != file.schema[c].physicalType then Err(CastFailed)
      else Ok(k)
  }

  /** The transcribers of columns start.. start+n-1, built in order: the
      first column that fails decides the error. */
  function ColumnKinds(file: ParquetFile, start: nat, n: nat): (r: Result<seq<ValueKind>, StreamError>)
    requires start + n <= |file.schema|
    ensures r.Ok? ==> |r.value| == n && KindsFit(file, r.value, start)
  {
    if n == 0 then Ok([])
    else
      match ColumnKinds(file, start, n - 1)
      case Err(e) => Err(e)
      case Ok(kinds) =>
        match ColumnSetup(file, start + n - 1)
        case Err(e) => Err(e)
        case Ok(k) => Ok(kinds + [k])
  }

  /** ColumnKinds succeeds exactly when every column's setup does, with each
      column's kind; otherwise it fails with the first failing column's error. */
  lemma {:induction false} ColumnKindsMeaning(file: ParquetFile, start: nat, n: nat)
    requires start + n <= |file.schema|
    ensures var r := ColumnKinds(file, start, n);
      r.Ok? ==> forall j :: 0 <= j < n ==> ColumnSetup(file, start + j) == Ok(r.value[j])
    ensures var r := ColumnKinds(file, start, n);
      r.Err? ==> exists c :: start <= c < start + n && ColumnSetup(file, c) == Err(r.error)
                             && forall i :: start <= i < c ==> ColumnSetup(file, i).Ok?
    ensures ColumnKinds(file, start, n).Ok? <==> forall c :: start <= c < start + n ==> ColumnSetup(file, c).Ok?
  {
    if n > 0 {
      ColumnKindsMeaning(file, start, n - 1);
      var r := ColumnKinds(file, start, n);
      if r.Ok? {
        var kinds := ColumnKinds(file, start, n - 1).value;
        assert r.value == kinds + [ColumnSetup(file, start + n - 1).value];
        forall j | 0 <= j < n
          ensures ColumnSetup(file, start + j) == Ok(r.value[j])
        {
          if j < n - 1 {
            assert r.value[j] == kinds[j];
          }
        }
      }
    }
  }

  // ---------------------------------------------------------------------
  // The selected table and its text
  // ---------------------------------------------------------------------

  /** The selected columns' names, as printed. */
  function Names(file: ParquetFile, start: nat, n: nat): (names: seq<string>)
    requires start + n <= |file.schema|
    ensures |names| == n
  {
    seq(n, j requires 0 <= j < n => BytesToChars(file.schema[start + j].name))
  }

  /** The readers fit their columns: what ColumnKinds establishes. */
  predicate KindsFit(file: ParquetFile, kinds: seq<ValueKind>, start: nat)
  {
    && start + |kinds| <= |file.schema|
    && forall j :: 0 <= j < |kinds| ==> ReaderType(kinds[j]) == file.schema[start + j].physicalType
  }

  /** The cell of output column j in file row rowIndex. */
  function Cell(file: ParquetFile, kinds: seq<ValueKind>, start: nat, j: nat, rowIndex: nat): Option<Printable>
    requires WellFormed(file) && KindsFit(file, kinds, start) && j < |kinds| && rowIndex < NumRows(file)
  {
    Printed(kinds[j], ColumnValues(file, start + j)[rowIndex])
  }

  /** File row rowIndex of the selected columns. */
  function RowCells(file: ParquetFile, kinds: seq<ValueKind>, start: nat, rowIndex: nat): (row: seq<Option<Printable>>)
    requires WellFormed(file) && KindsFit(file, kinds, start) && rowIndex < NumRows(file)
    ensures |row| == |kinds|
  {
    seq(|kinds|, j requires 0 <= j < |kinds| => Cell(file, kinds, start, j, rowIndex))
  }

  /** Rows rowStart.. rowStart+m-1 of the selected columns. */
  function Rows(file: ParquetFile, kinds: seq<ValueKind>, start: nat, rowStart: nat, m: nat): (rows: seq<seq<Option<Printable>>>)
    requires WellFormed(file) && KindsFit(file, kinds, start) && rowStart + m <= NumRows(file)
    ensures |rows| == m && forall r :: 0 <= r < m ==> rows[r] == RowCells(file, kinds, start, rowStart + r)
  {
    seq(m, r requires 0 <= r < m => RowCells(file, kinds, start, rowStart + r))
  }

  /** The header fields of the first n columns. */
  function HeaderText(f: Format, names: seq<string>, n: nat): string
    requires n <= |names|
  {
    if n == 0 then "" else HeaderText(f, names, n - 1) + HeaderFieldText(f, n - 1, names[n - 1])
  }

  /** The first n fields of a record. */
  function FieldsText(f: Format, names: seq<string>, row: seq<Option<Printable>>, n: nat): string
    requires n <= |names| && n <= |row|
  {
    if n == 0 then ""
    else FieldsText(f, names, row, n - 1) + (FieldStartText(f, n - 1, names[n - 1]) + CellText(f, row[n - 1]))
  }

  /** One record: its start, every field, its stop. The record's number
      in the window reaches writeRecordStart narrowed to `int`. */
  function RecordText(f: Format, rowIndex: nat, names: seq<string>, row: seq<Option<Printable>>): string
    requires |row| == |names|
  {
    RecordStartText(f, NarrowToInt(rowIndex)) + FieldsText(f, names, row, |names|) + RecordStopText(f)
  }

  /** A JSON record opens with a comma unless its number in the window is
      a multiple of 2^32: record 0, and also record 2^32, where the
      narrowed index is 0 again. */
  lemma RecordSeparator(rowIndex: nat, names: seq<string>, row: seq<Option<Printable>>)
    requires |row| == |names|
    ensures var t := RecordText(Json, rowIndex, names, row);
            |t| >= 2 && (t[0] == ',' <==> rowIndex % UINT32_MODULUS != 0)
            && (t[0] == ',' ==> t[1] == '{') && (t[0] != ',' ==> t[0] == '{')
  {
    NarrowToIntZero(rowIndex);
    var start := RecordStartText(Json, NarrowToInt(rowIndex));
    var t := RecordText(Json, rowIndex, names, row);
    assert t[..|start|] == start;
  }

  /** The first m records. */
  function RecordsText(f: Format, names: seq<string>, rows: seq<seq<Option<Printable>>>, m: nat): string
    requires m <= |rows| && forall r :: 0 <= r < |rows| ==> |rows[r]| == |names|
  {
    if m == 0 then "" else RecordsText(f, names, rows, m - 1) + RecordText(f, m - 1, names, rows[m - 1])
  }

  /** The records of the first m rows followed by row m's are the records
      of the first m + 1 rows. */
  lemma RecordsStep(f: Format, names: seq<string>, rows: seq<seq<Option<Printable>>>, m: nat, before: string, out: string)
    requires m < |rows| && forall r :: 0 <= r < |rows| ==> |rows[r]| == |names|
    requires out == before + RecordsText(f, names, rows, m) + RecordText(f, m, names, rows[m])
    ensures out == before + RecordsText(f, names, rows, m + 1)
  {
    ConcatAssoc(before, RecordsText(f, names, rows, m), RecordText(f, m, names, rows[m]));
  }

  /** The whole output: file header; header fields and records only when a
      column is selected; file footer. */
  function TableText(f: Format, names: seq<string>, rows: seq<seq<Option<Printable>>>): string
    requires forall r :: 0 <= r < |rows| ==> |rows[r]| == |names|
  {
    FileHeaderText(f)
      + (if |names| > 0 then HeaderText(f, names, |names|) + RecordsText(f, names, rows, |rows|) else "")
      + FileFooterText(f)
  }

  /** What the program needs of its inputs: the file as the library hands it
      over, metadata counts that fit their types (num_columns is an `int`,
      so an output column index fits the `int` of writeFieldStart), and the
      ranges as the flags produce them. */
  predicate StreamInputs(file: ParquetFile, columnRange: Ranges.Range, rowRange: Ranges.Range)
  {
    && WellFormed(file)
    && |file.schema| < 0x8000_0000 && NumRows(file) <= UINT64_MAX
    && Ranges.WellFormed(columnRange) && Ranges.WellFormed(rowRange)
  }

  /** streamParquet as text: the selected window of the file, or the error
      that stops it. */
  function StreamOutput(f: Format, file: ParquetFile, columnRange: Ranges.Range, rowRange: Ranges.Range): Result<string, StreamError>
    requires StreamInputs(file, columnRange, rowRange)
  {
    var cols := Ranges.Clip(columnRange, |file.schema|);
    var rows := Ranges.Clip(rowRange, NumRows(file));
    WindowOutput(f, file, cols.start, cols.stop - cols.start, rows.start, rows.stop)
  }

  /** StreamOutput once both ranges are clipped: columns start .. start+n-1
      and rows rowStart .. rowStop-1. */
  function WindowOutput(f: Format, file: ParquetFile, start: nat, n: nat, rowStart: nat, rowStop: nat): Result<string, StreamError>
    requires WellFormed(file) && start + n <= |file.schema| && rowStart <= rowStop <= NumRows(file)
  {
    match ColumnKinds(file, start, n)
    case Err(e) => Err(e)
    case Ok(kinds) => Ok(TableText(f, Names(file, start, n), Rows(file, kinds, start, rowStart, rowStop - rowStart)))
  }

  // ---------------------------------------------------------------------
  // Transcribers
  // ---------------------------------------------------------------------

  /** next() asserts that the row group it loads has a row, and it loads
      row group g >= 1 when it comes to read the row that g starts at: so the
      rows rowStart .. rowStop-1 are read without tripping the assertion when
      no row group after the first that starts at one of them is empty. */
  predicate EnteredGroupsNonEmpty(file: ParquetFile, rowStart: nat, rowStop: nat)
  {
    forall g {:trigger RowsBefore(file.rowGroups, g)} ::
      1 <= g < |file.rowGroups| && rowStart <= RowsBefore(file.rowGroups, g) < rowStop ==>
      file.rowGroups[g].numRows > 0
  }

  /** next() on the row pos, with the row group that starts there (if any)
      not empty, does not trip its assertion. */
  lemma AdvanceAllowed(reader: FileColumnIterator, pos: nat)
    requires reader.InRowGroup() && pos < NumRows(reader.file) && |reader.Remaining()| == NumRows(reader.file) - pos
    requires EnteredGroupsNonEmpty(reader.file, pos, pos + 1)
    ensures reader.CanAdvance()
  {
    var g := reader.currentRowGroup;
    if reader.currentReaderCursor >= reader.currentReaderSize {
      var groups := reader.file.rowGroups;
      SuffixEmpty(groups[g].columns[reader.columnIndex], ColumnFrom(groups, reader.columnIndex, g + 1), reader.currentReaderCursor);
      ColumnFromLength(reader.file, reader.columnIndex, g + 1);
      RowsSplit(groups, g + 1);
    }
  }

  /** The walk of the transcribers of streamParquet: skipRows(rowStart) on a
      fresh FileColumnIterator, then next() for each row up to rowStop. It
      trips next()'s assertion exactly when EnteredGroupsNonEmpty fails. */
  lemma StreamTripsExactly(file: ParquetFile, rowStart: nat, rowStop: nat)
    requires |file.rowGroups| > 0 && rowStart <= rowStop <= NumRows(file)
    ensures var r := SkipFrom(file.rowGroups, 0, 0, rowStart);
      Trips(file.rowGroups, r.0, r.1, rowStop - rowStart) <==> !EnteredGroupsNonEmpty(file, rowStart, rowStop)
  {
    var groups := file.rowGroups;
    var r := SkipFrom(groups, 0, 0, rowStart);
    assert r.1 <= groups[r.0].numRows && RowsBefore(groups, r.0) + r.1 == rowStart
      && forall h :: 0 < h <= r.0 ==> RowsBefore(groups, h) < rowStart by {
      assert RowsFrom(groups, 0) == groups[0].numRows + RowsFrom(groups, 1);
      SkipLands(groups, 0, 0, rowStart);
    }
    assert Trips(groups, r.0, r.1, rowStop - rowStart) <==> EmptyGroupAmong(groups, r.0 + 1, rowStart, rowStop) by {
      TripsExactly(groups, r.0, r.1, rowStop - rowStart);
    }
    EmptyAfterLanding(file, r.0, rowStart, rowStop);
  }

  /** When the row groups up to the landing one all start before rowStart,
      the empty row groups entered are those after it. */
  lemma EmptyAfterLanding(file: ParquetFile, landing: nat, rowStart: nat, rowStop: nat)
    requires landing < |file.rowGroups|
    requires forall h :: 0 < h <= landing ==> RowsBefore(file.rowGroups, h) < rowStart
    ensures EmptyGroupAmong(file.rowGroups, landing + 1, rowStart, rowStop) <==> !EnteredGroupsNonEmpty(file, rowStart, rowStop)
  {
    var groups := file.rowGroups;
    if !EnteredGroupsNonEmpty(file, rowStart, rowStop) {
      var h :| 1 <= h < |groups| && rowStart <= RowsBefore(groups, h) < rowStop && groups[h].numRows == 0;
      assert EmptyGroupAmong(groups, landing + 1, rowStart, rowStop);
    }
  }

  /** BufferedTranscriber: one column's FileColumnIterator and the printer
      that every transcriber shares. */
  class Transcriber {
    const printer: Printer
    const reader: FileColumnIterator

    constructor (printer: Printer, reader: FileColumnIterator)
      ensures this.printer == printer && this.reader == reader
    {
      this.printer := printer;
      this.reader := reader;
    }

    /** The reader is usable and does not own the printer. */
    ghost predicate Valid()
      reads reader, reader.Repr
    {
      reader.Valid() && printer !in reader.Repr
    }

    /** printNext: the field start with the column's name, then the next
        value of the column, or a null. */
    method PrintNext(outputColumnIndex: nat)
      requires Valid() && reader.CanAdvance()
      modifies printer, reader.Repr
      ensures Valid() && fresh(reader.Repr - old(reader.Repr))
      ensures |old(reader.Remaining())| > 0 && reader.Remaining() == old(reader.Remaining())[1..]
      ensures printer.out == old(printer.out)
        + (FieldStartText(printer.format, outputColumnIndex, BytesToChars(reader.name))
           + CellText(printer.format, Printed(reader.kind, old(reader.Remaining())[0])))
    {
      ghost var before := printer.out;
      printer.WriteFieldStart(outputColumnIndex, reader.GetName());
      ghost var fieldStart := FieldStartText(printer.format, outputColumnIndex, BytesToChars(reader.name));
      var valueOrNull := reader.Next();
      PrintValueOrNull(valueOrNull);
      ConcatAssoc(before, fieldStart, CellText(printer.format, valueOrNull));
    }

    /** The rest of printNext: the value the reader returned, or a null. */
    method PrintValueOrNull(valueOrNull: Option<Printable>)
      modifies printer
      ensures printer.out == old(printer.out) + CellText(printer.format, valueOrNull)
    {
      if valueOrNull.Some? {
        printer.Write(valueOrNull.value);
      } else {
        printer.WriteNull();
      }
    }

    /** skipRows: the column's reader skips n rows. */
    method SkipRows(nRows: int)
      requires Valid() && 0 <= nRows <= |reader.Remaining()|
      modifies reader.Repr
      ensures Valid() && fresh(reader.Repr - old(reader.Repr))
      ensures reader.Remaining() == old(reader.Remaining())[nRows..]
    {
      reader.SkipRows(nRows);
    }

    /** printHeaderField: the column's name as a header field. */
    method PrintHeaderField(outputColumnIndex: nat)
      modifies printer
      ensures printer.out == old(printer.out) + HeaderFieldText(printer.format, outputColumnIndex, BytesToChars(reader.name))
    {
      printer.WriteHeaderField(outputColumnIndex, reader.name);
    }
  }

  // ---------------------------------------------------------------------
  // streamParquet
  // ---------------------------------------------------------------------

  /** The asserts of makeTranscriberForColumn: one definition level, no repetition. */
  predicate FlatColumns(file: ParquetFile, start: nat, n: nat)
    requires start + n <= |file.schema|
  {
    forall c :: start <= c < start + n ==> file.schema[c].maxDefinitionLevel == 1 && file.schema[c].maxRepetitionLevel == 0
  }

  /** What never changes about the transcribers: transcriber j prints through
      the printer and reads column start+j of the file, of kind kinds[j]. */
  predicate Wired(transcribers: seq<Transcriber>, printer: Printer, file: ParquetFile, start: nat, kinds: seq<ValueKind>)
  {
    && |transcribers| == |kinds| && start + |kinds| <= |file.schema|
    && forall j :: 0 <= j < |transcribers| ==>
         && transcribers[j].printer == printer
         && transcribers[j].reader.file == file
         && transcribers[j].reader.columnIndex == start + j
         && transcribers[j].reader.kind == kinds[j]
         && transcribers[j].reader.name == file.schema[start + j].name
  }

  /** A usable transcriber whose next entry is row pos of its column. */
  ghost predicate Positioned(t: Transcriber, pos: nat)
    reads t.reader, t.reader.Repr
  {
    && t.Valid()
    && pos <= NumRows(t.reader.file)
    && t.reader.Remaining() == ColumnValues(t.reader.file, t.reader.columnIndex)[pos..]
  }

  /** Transcribers lo.. hi-1 are all next at row pos. It unfolds through
      ReadyFrom, so that the verifier opens it one transcriber at a time. */
  ghost predicate Ready(transcribers: seq<Transcriber>, pos: nat, lo: nat, hi: nat)
    requires lo <= hi <= |transcribers|
    reads set j | lo <= j < hi :: transcribers[j].reader
    reads set j, o | lo <= j < hi && o in transcribers[j].reader.Repr :: o
    decreases hi - lo, 1
  {
    lo == hi || ReadyFrom(transcribers, pos, lo, hi)
  }

  /** Transcriber lo is next at row pos, and so are the ones after it up to hi. */
  ghost predicate ReadyFrom(transcribers: seq<Transcriber>, pos: nat, lo: nat, hi: nat)
    requires lo < hi <= |transcribers|
    reads set j | lo <= j < hi :: transcribers[j].reader
    reads set j, o | lo <= j < hi && o in transcribers[j].reader.Repr :: o
    decreases hi - lo, 0
  {
    Positioned(transcribers[lo], pos) && Ready(transcribers, pos, lo + 1, hi)
  }

  lemma {:induction false} ReadyAt(transcribers: seq<Transcriber>, pos: nat, lo: nat, hi: nat, j: nat)
    requires lo <= j < hi <= |transcribers|
    requires Ready(transcribers, pos, lo, hi)
    ensures Positioned(transcribers[j], pos)
    decreases hi - lo
  {
    assert ReadyFrom(transcribers, pos, lo, hi);
    if j > lo {
      ReadyAt(transcribers, pos, lo + 1, hi, j);
    }
  }

  /** A transcriber at hi that is next at row pos extends the ready range. */
  lemma {:induction false} ReadyExtend(transcribers: seq<Transcriber>, pos: nat, lo: nat, hi: nat)
    requires lo <= hi < |transcribers|
    requires Ready(transcribers, pos, lo, hi) && Positioned(transcribers[hi], pos)
    ensures Ready(transcribers, pos, lo, hi + 1)
    decreases hi - lo
  {
    if lo < hi {
      assert ReadyFrom(transcribers, pos, lo, hi);
      ReadyExtend(transcribers, pos, lo + 1, hi);
      assert ReadyFrom(transcribers, pos, lo, hi + 1);
    } else {
      assert Ready(transcribers, pos, hi + 1, hi + 1);
      assert ReadyFrom(transcribers, pos, lo, hi + 1);
    }
  }

  /** A range is ready exactly when both of its parts are. */
  lemma {:induction false} ReadyJoin(transcribers: seq<Transcriber>, pos: nat, lo: nat, mid: nat, hi: nat)
    requires lo <= mid <= hi <= |transcribers|
    ensures Ready(transcribers, pos, lo, hi) <==> Ready(transcribers, pos, lo, mid) && Ready(transcribers, pos, mid, hi)
    decreases mid - lo
  {
    if lo < mid {
      assert Ready(transcribers, pos, lo, hi) == ReadyFrom(transcribers, pos, lo, hi);
      assert Ready(transcribers, pos, lo, mid) == ReadyFrom(transcribers, pos, lo, mid);
      ReadyJoin(transcribers, pos, lo + 1, mid, hi);
    }
  }

  /** Readiness of a range depends only on the transcribers in it. */
  lemma {:induction false} ReadyPrefix(transcribers: seq<Transcriber>, more: seq<Transcriber>, pos: nat, lo: nat, hi: nat)
    requires lo <= hi <= |transcribers| <= |more| && more[..|transcribers|] == transcribers
    requires Ready(transcribers, pos, lo, hi)
    ensures Ready(more, pos, lo, hi)
    decreases hi - lo
  {
    if lo < hi {
      assert ReadyFrom(transcribers, pos, lo, hi);
      assert more[lo] == transcribers[lo];
      ReadyPrefix(transcribers, more, pos, lo + 1, hi);
      assert ReadyFrom(more, pos, lo, hi);
    }
  }

  /** The readers lie in the footprint, each owns itself, and no two share
      any object. */
  ghost predicate Separated(transcribers: seq<Transcriber>, footprint: set<object>)
    reads set j | 0 <= j < |transcribers| :: transcribers[j].reader
  {
    && (forall j :: 0 <= j < |transcribers| ==>
          transcribers[j].reader in transcribers[j].reader.Repr && transcribers[j].reader.Repr <= footprint)
    && (forall j, k :: 0 <= j < k < |transcribers| ==> transcribers[j].reader.Repr !! transcribers[k].reader.Repr)
  }

  /** A transcriber whose reader lies outside the footprint keeps the
      transcribers separated. */
  lemma SeparatedSnoc(transcribers: seq<Transcriber>, t: Transcriber, footprint: set<object>)
    requires Separated(transcribers, footprint) && t.reader in t.reader.Repr && t.reader.Repr !! footprint
    ensures Separated(transcribers + [t], footprint + t.reader.Repr)
  {
    var more := transcribers + [t];
    forall j | 0 <= j < |more|
      ensures more[j].reader in more[j].reader.Repr && more[j].reader.Repr <= footprint + t.reader.Repr
    {
      if j < |transcribers| {
        assert more[j] == transcribers[j];
      }
    }
    forall j, k | 0 <= j < k < |more|
      ensures more[j].reader.Repr !! more[k].reader.Repr
    {
      assert more[j] == transcribers[j];
      if k < |transcribers| {
        assert more[k] == transcribers[k];
      }
    }
  }

  /** The first failing column decides the error of the whole window. */
  lemma {:induction false} FirstFailure(file: ParquetFile, start: nat, i: nat, n: nat)
    requires i < n && start + n <= |file.schema|
    requires ColumnKinds(file, start, i).Ok? && ColumnSetup(file, start + i).Err?
    ensures ColumnKinds(file, start, n) == Err(ColumnSetup(file, start + i).error)
  {
    if n > i + 1 {
      FirstFailure(file, start, i, n - 1);
    }
  }

  /** makeTranscriber followed by skipRows: a new reader of the column, past
      the rows before the window. */
  method MakeTranscriber(file: ParquetFile, printer: Printer, columnIndex: nat, kind: ValueKind, rowStart: nat)
      returns (transcriber: Transcriber)
    requires WellFormed(file) && columnIndex < |file.schema| && rowStart <= NumRows(file)
    requires ReaderType(kind) == file.schema[columnIndex].physicalType && |file.rowGroups| > 0
    ensures fresh(transcriber.reader.Repr) && transcriber.reader in transcriber.reader.Repr
    ensures transcriber.printer == printer && transcriber.reader.file == file
    ensures transcriber.reader.columnIndex == columnIndex && transcriber.reader.kind == kind
    ensures transcriber.reader.name == file.schema[columnIndex].name
    ensures Positioned(transcriber, rowStart)
  {
    var reader := new FileColumnIterator(file, columnIndex, kind);
    transcriber := new Transcriber(printer, reader);
    transcriber.SkipRows(rowStart);
  }

  /** The transcribers of the first i columns of the window are built: each
      column's setup succeeded, and its transcriber is next at row pos. */
  ghost predicate Built(transcribers: seq<Transcriber>, printer: Printer, file: ParquetFile, start: nat, i: nat,
                        pos: nat, footprint: set<object>)
    reads set j | 0 <= j < |transcribers| :: transcribers[j].reader
    reads set j, o | 0 <= j < |transcribers| && o in transcribers[j].reader.Repr :: o
  {
    && start + i <= |file.schema|
    && |transcribers| == i
    && ColumnKinds(file, start, i).Ok?
    && Wired(transcribers, printer, file, start, ColumnKinds(file, start, i).value)
    && Ready(transcribers, pos, 0, i)
    && Separated(transcribers, footprint)
  }

  /** A new transcriber, for the next column and outside the footprint,
      extends what is built. */
  lemma BuiltSnoc(transcribers: seq<Transcriber>, t: Transcriber, printer: Printer, file: ParquetFile, start: nat,
                  kind: ValueKind, pos: nat, footprint: set<object>)
    requires start + |transcribers| < |file.schema|
    requires Built(transcribers, printer, file, start, |transcribers|, pos, footprint)
    requires ColumnSetup(file, start + |transcribers|) == Ok(kind)
    requires t.printer == printer && t.reader.file == file && t.reader.columnIndex == start + |transcribers|
    requires t.reader.kind == kind && t.reader.name == file.schema[start + |transcribers|].name
    requires Positioned(t, pos) && t.reader in t.reader.Repr && t.reader.Repr !! footprint
    ensures Built(transcribers + [t], printer, file, start, |transcribers| + 1, pos, footprint + t.reader.Repr)
  {
    var i := |transcribers|;
    var kinds := ColumnKinds(file, start, i).value;
    assert ColumnKinds(file, start, i + 1) == Ok(kinds + [kind]);
    WiredSnoc(transcribers, t, printer, file, start, kinds, kind);
    ReadySnoc(transcribers, t, pos);
    SeparatedSnoc(transcribers, t, footprint);
  }

  lemma WiredSnoc(transcribers: seq<Transcriber>, t: Transcriber, printer: Printer, file: ParquetFile, start: nat,
                  kinds: seq<ValueKind>, kind: ValueKind)
    requires Wired(transcribers, printer, file, start, kinds) && start + |kinds| < |file.schema|
    requires t.printer == printer && t.reader.file == file && t.reader.columnIndex == start + |kinds|
    requires t.reader.kind == kind && t.reader.name == file.schema[start + |kinds|].name
    ensures Wired(transcribers + [t], printer, file, start, kinds + [kind])
  {
    var more := transcribers + [t];
    forall j | 0 <= j < |more|
      ensures && more[j].printer == printer && more[j].reader.file == file
              && more[j].reader.columnIndex == start + j && more[j].reader.kind == (kinds + [kind])[j]
              && more[j].reader.name == file.schema[start + j].name
    {
      if j < |transcribers| {
        assert more[j] == transcribers[j];
      }
    }
  }

  lemma ReadySnoc(transcribers: seq<Transcriber>, t: Transcriber, pos: nat)
    requires Ready(transcribers, pos, 0, |transcribers|) && Positioned(t, pos)
    ensures Ready(transcribers + [t], pos, 0, |transcribers| + 1)
  {
    var more := transcribers + [t];
    assert more[..|transcribers|] == transcribers;
    ReadyPrefix(transcribers, more, pos, 0, |transcribers|);
    ReadyExtend(more, pos, 0, |transcribers|);
  }

  /** One step of the loop of streamParquet that builds the transcribers: a
      transcriber for the next column joins the ones built so far. */
  method AddTranscriber(transcribers: seq<Transcriber>, printer: Printer, file: ParquetFile, start: nat,
                        kind: ValueKind, rowStart: nat, ghost footprint: set<object>)
      returns (more: seq<Transcriber>, ghost grown: set<object>)
    requires WellFormed(file) && start + |transcribers| < |file.schema| && rowStart <= NumRows(file)
    requires Built(transcribers, printer, file, start, |transcribers|, rowStart, footprint)
    requires ColumnSetup(file, start + |transcribers|) == Ok(kind)
    ensures fresh(grown - footprint)
    ensures Built(more, printer, file, start, |transcribers| + 1, rowStart, grown)
  {
    var transcriber := MakeTranscriber(file, printer, start + |transcribers|, kind, rowStart);
    BuiltSnoc(transcribers, transcriber, printer, file, start, kind, rowStart, footprint);
    more := transcribers + [transcriber];
    grown := footprint + transcriber.reader.Repr;
  }

  /** The loop of streamParquet that builds one transcriber per selected
      column and skips each to the first selected row. The first failure
      stops it. */
  method MakeTranscribers(file: ParquetFile, printer: Printer, start: nat, n: nat, rowStart: nat)
      returns (transcribers: seq<Transcriber>, error: Option<StreamError>, ghost footprint: set<object>)
    requires WellFormed(file) && start + n <= |file.schema| && rowStart <= NumRows(file)
    ensures ColumnKinds(file, start, n).Err? ==> error == Some(ColumnKinds(file, start, n).error)
    ensures ColumnKinds(file, start, n).Ok? ==>
      error == None && Built(transcribers, printer, file, start, n, rowStart, footprint)
    ensures fresh(footprint)
  {
    transcribers, footprint := [], {};
    var i := 0;
    while i < n
      invariant i <= n && Built(transcribers, printer, file, start, i, rowStart, footprint)
      invariant fresh(footprint)
    {
      var setup := ColumnSetup(file, start + i);
      if setup.Err? {
        FirstFailure(file, start, i, n);
        return transcribers, Some(setup.error), footprint;
      }
      transcribers, footprint := AddTranscriber(transcribers, printer, file, start, setup.value, rowStart, footprint);
      i := i + 1;
    }
    error := None;
  }

  /** The header loop of streamParquet: each transcriber prints its column's
      name as header field j. */
  method PrintHeader(transcribers: seq<Transcriber>, printer: Printer, ghost names: seq<string>)
    requires |names| == |transcribers|
    requires forall j :: 0 <= j < |transcribers| ==>
      transcribers[j].printer == printer && BytesToChars(transcribers[j].reader.name) == names[j]
    modifies printer
    ensures printer.out == old(printer.out) + HeaderText(printer.format, names, |names|)
  {
    var j := 0;
    while j < |transcribers|
      invariant j <= |transcribers|
      invariant printer.out == old(printer.out) + HeaderText(printer.format, names, j)
    {
      transcribers[j].PrintHeaderField(j);
      ConcatAssoc(old(printer.out), HeaderText(printer.format, names, j), HeaderFieldText(printer.format, j, names[j]));
      j := j + 1;
    }
  }

  /** Transcribers before k are next at row pos + 1, the others at row pos:
      the state of the field loop of streamParquet. */
  ghost predicate Lined(transcribers: seq<Transcriber>, pos: nat, k: nat)
    requires k <= |transcribers|
    reads set j | 0 <= j < |transcribers| :: transcribers[j].reader
    reads set j, o | 0 <= j < |transcribers| && o in transcribers[j].reader.Repr :: o
  {
    Ready(transcribers, pos + 1, 0, k) && Ready(transcribers, pos, k, |transcribers|)
  }

  /** One moment of the field loop of streamParquet: the transcribers, the
      row pos being printed, the next output column k, and the objects the
      readers own. */
  datatype Stage = Stage(transcribers: seq<Transcriber>, pos: nat, k: nat, footprint: set<object>)

  /** Writing through the printer alone leaves every transcriber where it was. */
  twostate lemma KeepsLined(s: Stage)
    requires s.k <= |s.transcribers|
    requires old(Lined(s.transcribers, s.pos, s.k)) && old(Separated(s.transcribers, s.footprint))
    requires unchanged(s.footprint)
    ensures Lined(s.transcribers, s.pos, s.k) && Separated(s.transcribers, s.footprint)
  {
  }

  /** After transcriber k alone has moved to row pos + 1, growing its footprint
      only by new objects, the field loop can go on at k + 1. */
  twostate lemma MovedOne(s: Stage)
    requires s.k < |s.transcribers|
    requires old(Lined(s.transcribers, s.pos, s.k)) && old(Separated(s.transcribers, s.footprint))
    requires unchanged(s.footprint - old(s.transcribers[s.k].reader.Repr))
    requires Positioned(s.transcribers[s.k], s.pos + 1)
    requires fresh(s.transcribers[s.k].reader.Repr - old(s.transcribers[s.k].reader.Repr))
    ensures Lined(s.transcribers, s.pos, s.k + 1)
    ensures Separated(s.transcribers, s.footprint + s.transcribers[s.k].reader.Repr)
  {
    var transcribers, pos, k := s.transcribers, s.pos, s.k;
    assert old(ReadyFrom(transcribers, pos, k, |transcribers|));
    forall j | 0 <= j < |transcribers| && j != k
      ensures unchanged(transcribers[j].reader) && unchanged(old(transcribers[j].reader.Repr))
    {
      assert old(transcribers[j].reader.Repr !! transcribers[k].reader.Repr) by {
        if j < k {
          assert old(transcribers[j].reader.Repr !! transcribers[k].reader.Repr);
        } else {
          assert old(transcribers[k].reader.Repr !! transcribers[j].reader.Repr);
        }
      }
    }
    assert Ready(transcribers, pos + 1, 0, k);
    assert Ready(transcribers, pos, k + 1, |transcribers|);
    ReadyExtend(transcribers, pos + 1, 0, k);
  }

  /** printNext on one transcriber at row pos: it prints that entry of its
      column and moves to row pos + 1. */
  method PrintNextRow(t: Transcriber, outputColumnIndex: nat, ghost pos: nat)
    requires Positioned(t, pos) && pos < NumRows(t.reader.file) && EnteredGroupsNonEmpty(t.reader.file, pos, pos + 1)
    modifies t.printer, t.reader.Repr
    ensures Positioned(t, pos + 1) && fresh(t.reader.Repr - old(t.reader.Repr))
    ensures t.printer.out == old(t.printer.out)
      + (FieldStartText(t.printer.format, outputColumnIndex, BytesToChars(t.reader.name))
         + CellText(t.printer.format, Printed(t.reader.kind, ColumnValues(t.reader.file, t.reader.columnIndex)[pos])))
  {
    ghost var column := ColumnValues(t.reader.file, t.reader.columnIndex);
    AdvanceAllowed(t.reader, pos);
    t.PrintNext(outputColumnIndex);
    DropTwice(column, pos, 1);
  }

  /** One step of the field loop of streamParquet: transcriber k prints the
      entry of row pos of its column and moves on to row pos + 1. */
  method PrintCell(transcribers: seq<Transcriber>, printer: Printer, k: nat, ghost pos: nat,
                   ghost name: string, ghost cell: Option<Printable>, ghost footprint: set<object>)
      returns (ghost grown: set<object>)
    requires k < |transcribers| && PrintsField(transcribers[k], printer, pos, name, cell)
    requires Lined(transcribers, pos, k) && Separated(transcribers, footprint) && printer !in footprint
    modifies printer, footprint
    ensures Lined(transcribers, pos, k + 1)
    ensures Separated(transcribers, grown) && footprint <= grown && fresh(grown - footprint) && printer !in grown
    ensures printer.out == old(printer.out) + (FieldStartText(printer.format, k, name) + CellText(printer.format, cell))
  {
    var t := transcribers[k];
    assert ReadyFrom(transcribers, pos, k, |transcribers|);
    PrintNextRow(t, k, pos);
    MovedOne(Stage(transcribers, pos, k, footprint));
    grown := footprint + t.reader.Repr;
  }

  /** What transcriber k prints is field k of the window's row. */
  lemma WiredCell(transcribers: seq<Transcriber>, printer: Printer, file: ParquetFile, start: nat,
                  kinds: seq<ValueKind>, k: nat, pos: nat)
    requires WellFormed(file) && Wired(transcribers, printer, file, start, kinds) && KindsFit(file, kinds, start)
    requires k < |transcribers| && pos < NumRows(file) && EnteredGroupsNonEmpty(file, pos, pos + 1)
    ensures PrintsField(transcribers[k], printer, pos, Names(file, start, |transcribers|)[k], RowCells(file, kinds, start, pos)[k])
  {
  }

  /** Transcriber t prints through the printer the field called name, and
      the entry of row pos of its column is cell. */
  predicate PrintsField(t: Transcriber, printer: Printer, pos: nat, name: string, cell: Option<Printable>)
  {
    var r := t.reader;
    && t.printer == printer
    && WellFormed(r.file) && r.columnIndex < |r.file.schema| && pos < NumRows(r.file)
    && ReaderType(r.kind) == r.file.schema[r.columnIndex].physicalType && EnteredGroupsNonEmpty(r.file, pos, pos + 1)
    && BytesToChars(r.name) == name
    && Printed(r.kind, ColumnValues(r.file, r.columnIndex)[pos]) == cell
  }

  /** Transcriber j prints the field called names[j], whose entry in row pos
      is row[j]. */
  predicate Prints(transcribers: seq<Transcriber>, printer: Printer, pos: nat,
                   names: seq<string>, row: seq<Option<Printable>>)
  {
    |names| == |transcribers| && |row| == |transcribers| && PrintsFrom(transcribers, printer, pos, names, row, 0)
  }

  /** Prints for transcribers lo.. ; it unfolds through PrintsNext, one
      transcriber at a time. */
  predicate PrintsFrom(transcribers: seq<Transcriber>, printer: Printer, pos: nat,
                       names: seq<string>, row: seq<Option<Printable>>, lo: nat)
    requires lo <= |transcribers| == |names| == |row|
    decreases |transcribers| - lo, 1
  {
    lo == |transcribers| || PrintsNext(transcribers, printer, pos, names, row, lo)
  }

  predicate PrintsNext(transcribers: seq<Transcriber>, printer: Printer, pos: nat,
                       names: seq<string>, row: seq<Option<Printable>>, lo: nat)
    requires lo < |transcribers| == |names| == |row|
    decreases |transcribers| - lo, 0
  {
    PrintsField(transcribers[lo], printer, pos, names[lo], row[lo]) && PrintsFrom(transcribers, printer, pos, names, row, lo + 1)
  }

  lemma {:induction false} PrintsAt(transcribers: seq<Transcriber>, printer: Printer, pos: nat,
                                    names: seq<string>, row: seq<Option<Printable>>, lo: nat, j: nat)
    requires lo <= j < |transcribers| == |names| == |row|
    requires PrintsFrom(transcribers, printer, pos, names, row, lo)
    ensures PrintsField(transcribers[j], printer, pos, names[j], row[j])
    decreases j - lo
  {
    assert PrintsNext(transcribers, printer, pos, names, row, lo);
    if j > lo {
      PrintsAt(transcribers, printer, pos, names, row, lo + 1, j);
    }
  }

  /** The field loop of streamParquet: every transcriber in turn prints its
      field of row pos, and then all of them sit at row pos + 1. */
  method PrintFields(transcribers: seq<Transcriber>, printer: Printer, ghost pos: nat,
                     ghost names: seq<string>, ghost row: seq<Option<Printable>>, ghost footprint: set<object>)
      returns (ghost grown: set<object>)
    requires Prints(transcribers, printer, pos, names, row)
    requires Lined(transcribers, pos, 0) && Separated(transcribers, footprint) && printer !in footprint
    modifies printer, footprint
    ensures Lined(transcribers, pos + 1, 0)
    ensures Separated(transcribers, grown) && footprint <= grown && fresh(grown - footprint) && printer !in grown
    ensures printer.out == old(printer.out) + FieldsText(printer.format, names, row, |transcribers|)
  {
    grown := footprint;
    var k := 0;
    while k < |transcribers|
      invariant k <= |transcribers|
      invariant Lined(transcribers, pos, k)
      invariant Separated(transcribers, grown) && footprint <= grown && fresh(grown - footprint) && printer !in grown
      invariant printer.out == old(printer.out) + FieldsText(printer.format, names, row, k)
    {
      PrintsAt(transcribers, printer, pos, names, row, 0, k);
      grown := PrintCell(transcribers, printer, k, pos, names[k], row[k], grown);
      ConcatAssoc(old(printer.out), FieldsText(printer.format, names, row, k),
                  FieldStartText(printer.format, k, names[k]) + CellText(printer.format, row[k]));
      k := k + 1;
    }
  }

  /** The wiring of the transcribers tells what each prints of a row. */
  lemma WiredPrints(transcribers: seq<Transcriber>, printer: Printer, file: ParquetFile, start: nat,
                    kinds: seq<ValueKind>, rowIndex: nat)
    requires WellFormed(file) && Wired(transcribers, printer, file, start, kinds) && KindsFit(file, kinds, start)
    requires rowIndex < NumRows(file) && EnteredGroupsNonEmpty(file, rowIndex, rowIndex + 1)
    ensures Prints(transcribers, printer, rowIndex, Names(file, start, |transcribers|), RowCells(file, kinds, start, rowIndex))
  {
    WiredPrintsFrom(transcribers, printer, file, start, kinds, rowIndex, 0);
  }

  lemma {:induction false} WiredPrintsFrom(transcribers: seq<Transcriber>, printer: Printer, file: ParquetFile,
                                           start: nat, kinds: seq<ValueKind>, rowIndex: nat, lo: nat)
    requires WellFormed(file) && Wired(transcribers, printer, file, start, kinds) && KindsFit(file, kinds, start)
    requires rowIndex < NumRows(file) && EnteredGroupsNonEmpty(file, rowIndex, rowIndex + 1) && lo <= |transcribers|
    ensures PrintsFrom(transcribers, printer, rowIndex, Names(file, start, |transcribers|),
                       RowCells(file, kinds, start, rowIndex), lo)
    decreases |transcribers| - lo
  {
    if lo < |transcribers| {
      WiredCell(transcribers, printer, file, start, kinds, lo, rowIndex);
      WiredPrintsFrom(transcribers, printer, file, start, kinds, rowIndex, lo + 1);
      assert PrintsNext(transcribers, printer, rowIndex, Names(file, start, |transcribers|),
                        RowCells(file, kinds, start, rowIndex), lo);
    }
  }

  /** One record of streamParquet: its start, every transcriber's field of
      row pos, its stop; every transcriber then sits at the next row. */
  method PrintRecord(transcribers: seq<Transcriber>, printer: Printer, recordIndex: nat, ghost pos: nat,
                     ghost names: seq<string>, ghost row: seq<Option<Printable>>, ghost footprint: set<object>)
      returns (ghost grown: set<object>)
    requires Prints(transcribers, printer, pos, names, row)
    requires Lined(transcribers, pos, 0) && Separated(transcribers, footprint) && printer !in footprint
    modifies printer, footprint
    ensures Lined(transcribers, pos + 1, 0)
    ensures Separated(transcribers, grown) && footprint <= grown && fresh(grown - footprint) && printer !in grown
    ensures printer.out == old(printer.out) + RecordText(printer.format, recordIndex, names, row)
  {
    printer.WriteRecordStart(NarrowToInt(recordIndex));
    KeepsLined(Stage(transcribers, pos, 0, footprint));
    ghost var recordStart := RecordStartText(printer.format, NarrowToInt(recordIndex));
    ghost var fields := FieldsText(printer.format, names, row, |transcribers|);
    grown := PrintFields(transcribers, printer, pos, names, row, footprint);
    label printed:
    printer.WriteRecordStop();
    KeepsLined@printed(Stage(transcribers, pos + 1, 0, grown));
    ConcatAssoc(old(printer.out), recordStart, fields);
    ConcatAssoc(old(printer.out), recordStart + fields, RecordStopText(printer.format));
  }

  /** What the printing of the table needs to know of the transcribers:
      transcriber j prints through the printer under the name names[j], and
      for each row r of table the transcribers print its cells at file row
      rowStart + r. */
  predicate Tabled(transcribers: seq<Transcriber>, printer: Printer, rowStart: nat,
                   names: seq<string>, table: seq<seq<Option<Printable>>>)
  {
    && |names| == |transcribers|
    && (forall j :: 0 <= j < |transcribers| ==>
          transcribers[j].printer == printer && BytesToChars(transcribers[j].reader.name) == names[j])
    && (forall r :: 0 <= r < |table| ==>
          |table[r]| == |names| && Prints(transcribers, printer, rowStart + r, names, table[r]))
  }

  /** Wired transcribers print the column names and the cells of the rows
      rowStart up to rowStop of the file. */
  lemma WiredTabled(transcribers: seq<Transcriber>, printer: Printer, file: ParquetFile, start: nat,
                    kinds: seq<ValueKind>, rowStart: nat, rowStop: nat)
    requires WellFormed(file) && Wired(transcribers, printer, file, start, kinds) && KindsFit(file, kinds, start)
    requires rowStart <= rowStop <= NumRows(file) && EnteredGroupsNonEmpty(file, rowStart, rowStop)
    ensures Tabled(transcribers, printer, rowStart, Names(file, start, |transcribers|),
                   Rows(file, kinds, start, rowStart, rowStop - rowStart))
  {
    var names := Names(file, start, |transcribers|);
    forall j | 0 <= j < |transcribers|
      ensures transcribers[j].printer == printer && BytesToChars(transcribers[j].reader.name) == names[j]
    {
    }
    var table := Rows(file, kinds, start, rowStart, rowStop - rowStart);
    forall r | 0 <= r < |table|
      ensures |table[r]| == |names| && Prints(transcribers, printer, rowStart + r, names, table[r])
    {
      WiredPrints(transcribers, printer, file, start, kinds, rowStart + r);
    }
  }

  /** One pass of the row loop of streamParquet: the record of file row
      rowIndex, which is row rowIndex - rowStart of table. */
  method PrintNextRecord(transcribers: seq<Transcriber>, printer: Printer, rowStart: nat, rowIndex: nat,
                         ghost names: seq<string>, ghost table: seq<seq<Option<Printable>>>,
                         ghost before: string, ghost footprint: set<object>)
      returns (next: nat, ghost grown: set<object>)
    requires rowStart <= rowIndex < rowStart + |table|
    requires forall r :: 0 <= r < |table| ==> |table[r]| == |names|
    requires Prints(transcribers, printer, rowIndex, names, table[rowIndex - rowStart])
    requires printer.out == before + RecordsText(printer.format, names, table, rowIndex - rowStart)
    requires Lined(transcribers, rowIndex, 0) && Separated(transcribers, footprint) && printer !in footprint
    modifies printer, footprint
    ensures next == rowIndex + 1 && Lined(transcribers, next, 0)
    ensures Separated(transcribers, grown) && footprint <= grown && fresh(grown - footprint) && printer !in grown
    ensures printer.out == before + RecordsText(printer.format, names, table, next - rowStart)
  {
    var k := rowIndex - rowStart;
    grown := PrintRecord(transcribers, printer, k, rowIndex, names, table[k], footprint);
    RecordsStep(printer.format, names, table, k, before, printer.out);
    next := rowIndex + 1;
  }

  /** The row loop of streamParquet: one record for each row of table, the
      first of them file row rowStart, numbered from 0. */
  method PrintRows(transcribers: seq<Transcriber>, printer: Printer, rowStart: nat, rowStop: nat,
                   ghost names: seq<string>, ghost table: seq<seq<Option<Printable>>>, ghost footprint: set<object>)
    requires rowStart <= rowStop && |table| == rowStop - rowStart && Tabled(transcribers, printer, rowStart, names, table)
    requires Lined(transcribers, rowStart, 0) && Separated(transcribers, footprint) && printer !in footprint
    modifies printer, footprint
    ensures printer.out == old(printer.out) + RecordsText(printer.format, names, table, |table|)
  {
    ghost var grown := footprint;
    var rowIndex := rowStart;
    while rowIndex < rowStop
      invariant rowStart <= rowIndex <= rowStop
      invariant Lined(transcribers, rowIndex, 0)
      invariant Separated(transcribers, grown) && footprint <= grown && fresh(grown - footprint) && printer !in grown
      invariant printer.out == old(printer.out) + RecordsText(printer.format, names, table, rowIndex - rowStart)
    {
      assert Prints(transcribers, printer, rowStart + (rowIndex - rowStart), names, table[rowIndex - rowStart]);
      rowIndex, grown := PrintNextRecord(transcribers, printer, rowStart, rowIndex, names, table, old(printer.out), grown);
    }
  }

  /** The header fields, then the records: what streamParquet prints
      between the file header and footer when a column is selected. */
  method PrintBody(transcribers: seq<Transcriber>, printer: Printer, rowStart: nat, rowStop: nat,
                   ghost names: seq<string>, ghost table: seq<seq<Option<Printable>>>, ghost footprint: set<object>)
    requires rowStart <= rowStop && |table| == rowStop - rowStart && Tabled(transcribers, printer, rowStart, names, table)
    requires Lined(transcribers, rowStart, 0) && Separated(transcribers, footprint) && printer !in footprint
    modifies printer, footprint
    ensures printer.out == old(printer.out)
      + (HeaderText(printer.format, names, |names|) + RecordsText(printer.format, names, table, |table|))
  {
    PrintHeader(transcribers, printer, names);
    KeepsLined(Stage(transcribers, rowStart, 0, footprint));
    PrintRows(transcribers, printer, rowStart, rowStop, names, table, footprint);
    ConcatAssoc(old(printer.out), HeaderText(printer.format, names, |names|), RecordsText(printer.format, names, table, |table|));
  }

  /** The output of streamParquet once its transcribers are set up: the file
      header; when a column is selected, the header fields and the records;
      the file footer. */
  method PrintTable(transcribers: seq<Transcriber>, printer: Printer, rowStart: nat, rowStop: nat,
                    ghost names: seq<string>, ghost table: seq<seq<Option<Printable>>>, ghost footprint: set<object>)
    requires rowStart <= rowStop && |table| == rowStop - rowStart && Tabled(transcribers, printer, rowStart, names, table)
    requires Lined(transcribers, rowStart, 0) && Separated(transcribers, footprint) && printer !in footprint
    modifies printer, footprint
    ensures printer.out == old(printer.out) + TableText(printer.format, names, table)
  {
    printer.WriteFileHeader();
    KeepsLined(Stage(transcribers, rowStart, 0, footprint));
    ghost var body := "";
    if |transcribers| > 0 {
      PrintBody(transcribers, printer, rowStart, rowStop, names, table, footprint);
      body := HeaderText(printer.format, names, |names|) + RecordsText(printer.format, names, table, |table|);
    }
    printer.WriteFileFooter();
    ConcatAssoc(old(printer.out), FileHeaderText(printer.format), body);
    ConcatAssoc(old(printer.out), FileHeaderText(printer.format) + body, FileFooterText(printer.format));
  }
  /** The printing part of streamParquet: the whole table of the selected
      columns and rows, through transcribers set up at row rowStart. */
  method PrintSelection(transcribers: seq<Transcriber>, printer: Printer, rowStart: nat, rowStop: nat,
                        ghost file: ParquetFile, ghost start: nat, ghost footprint: set<object>)
    requires WellFormed(file) && Built(transcribers, printer, file, start, |transcribers|, rowStart, footprint)
    requires rowStart <= rowStop <= NumRows(file) && EnteredGroupsNonEmpty(file, rowStart, rowStop) && printer !in footprint
    modifies printer, footprint
    ensures printer.out == old(printer.out)
      + TableText(printer.format, Names(file, start, |transcribers|),
                  Rows(file, ColumnKinds(file, start, |transcribers|).value, start, rowStart, rowStop - rowStart))
  {
    ghost var kinds := ColumnKinds(file, start, |transcribers|).value;
    WiredTabled(transcribers, printer, file, start, kinds, rowStart, rowStop);
    PrintTable(transcribers, printer, rowStart, rowStop, Names(file, start, |transcribers|),
               Rows(file, kinds, start, rowStart, rowStop - rowStart), footprint);
  }

  /** streamParquet: clip both ranges, set up one transcriber per selected
      column (failing before any output when a column cannot be read), then
      print the table. */
  method StreamParquet(file: ParquetFile, printer: Printer, columnRange: Ranges.Range, rowRange: Ranges.Range)
      returns (error: Option<StreamError>)
    requires StreamInputs(file, columnRange, rowRange)
    requires EnteredGroupsNonEmpty(file, Ranges.Clip(rowRange, NumRows(file)).start, Ranges.Clip(rowRange, NumRows(file)).stop)
    requires FlatColumns(file, Ranges.Clip(columnRange, |file.schema|).start,
                         Ranges.Clip(columnRange, |file.schema|).stop - Ranges.Clip(columnRange, |file.schema|).start)
    modifies printer
    ensures StreamOutput(printer.format, file, columnRange, rowRange).Err? ==>
      error == Some(StreamOutput(printer.format, file, columnRange, rowRange).error) && printer.out == old(printer.out)
    ensures StreamOutput(printer.format, file, columnRange, rowRange).Ok? ==>
      error == None && printer.out == old(printer.out) + StreamOutput(printer.format, file, columnRange, rowRange).value
  {
    var cols := Ranges.Clip(columnRange, |file.schema|);
    var rows := Ranges.Clip(rowRange, NumRows(file));
    var n := Ranges.Size(cols);
    assert n as int == cols.stop - cols.start;
    ghost var expected := WindowOutput(printer.format, file, cols.start, n as nat, rows.start, rows.stop);
    assert StreamOutput(printer.format, file, columnRange, rowRange) == expected;
    error := StreamWindow(file, printer, cols.start, n, rows.start, rows.stop);
  }

  /** streamParquet once both ranges are clipped: columns start .. start+n-1
      and rows rowStart .. rowStop-1. */
  method StreamWindow(file: ParquetFile, printer: Printer, start: nat, n: nat, rowStart: nat, rowStop: nat)
      returns (error: Option<StreamError>)
    requires WellFormed(file) && start + n <= |file.schema| && rowStart <= rowStop <= NumRows(file)
    requires EnteredGroupsNonEmpty(file, rowStart, rowStop)
    modifies printer
    ensures WindowOutput(printer.format, file, start, n, rowStart, rowStop).Err? ==>
      error == Some(WindowOutput(printer.format, file, start, n, rowStart, rowStop).error) && printer.out == old(printer.out)
    ensures WindowOutput(printer.format, file, start, n, rowStart, rowStop).Ok? ==>
      error == None && printer.out == old(printer.out) + WindowOutput(printer.format, file, start, n, rowStart, rowStop).value
  {
    ghost var footprint: set<object>;
    var transcribers, setupError;
    transcribers, setupError, footprint := MakeTranscribers(file, printer, start, n, rowStart);
    if setupError.Some? {
      return setupError;
    }
    error := None;
    PrintSelection(transcribers, printer, rowStart, rowStop, file, start, footprint);
  }
}
