/** Reading one column of a Parquet file row by row: the library's column
    chunk reader (a stand-in for parquet-cpp's TypedColumnReader), the
    batch-buffered reader over one chunk, and the iterator that walks the
    column across row groups. */
module ColumnReaders {
  import opened Common
  import opened Wrappers
  import opened ParquetFiles

  /** How many values one refill of the buffered reader asks for. */
  const BATCH_SIZE: nat := 30

  /** The C++ type a column's values are printed as (the reader's PrintableType). */
  datatype ValueKind =
    | Int32Kind | Uint32Kind | Int64Kind | Uint64Kind | FloatKind | DoubleKind | StringKind
    | TimestampMillisKind | TimestampMicrosKind | TimestampNanosKind

  /** The physical type of the typed reader each kind is read through. */
  function ReaderType(kind: ValueKind): PhysicalType
  {
    match kind
    case Int32Kind | Uint32Kind => Int32
    case Int64Kind | Uint64Kind | TimestampMillisKind | TimestampMicrosKind | TimestampNanosKind => Int64
    case FloatKind => Float
    case DoubleKind => Double
    case StringKind => ByteArray
  }

  /** A value ready for the printer's `write` overloads. */
  datatype Printable =
    | PInt32(i32: int32)
    | PUint32(u32: uint32)
    | PInt64(i64: int64)
    | PUint64(u64: uint64)
    | PFloat(f: FloatRepr)
    | PDouble(d: FloatRepr)
    | PString(bytes: seq<byte>)
    | PTimestampMillis(millis: int64)
    | PTimestampMicros(micros: int64)
    | PTimestampNanos(nanos: int64)

  /** physical_to_printable: a static_cast, which for uint32/uint64 is the
      two's-complement reinterpretation of the stored signed integer. */
  function ToPrintable(kind: ValueKind, v: PhysicalValue): (p: Printable)
    requires HasPhysicalType(v, ReaderType(kind))
    ensures kind == Uint32Kind ==> p.PUint32? && p.u32 % UINT32_MODULUS == v.i32 % UINT32_MODULUS
    ensures kind == Uint64Kind ==> p.PUint64? && p.u64 % UINT64_MODULUS == v.i64 % UINT64_MODULUS
    ensures kind == Int32Kind ==> p == PInt32(v.i32)
    ensures kind == Int64Kind ==> p == PInt64(v.i64)
  {
    match kind
    case Int32Kind => PInt32(v.i32)
    case Uint32Kind => PUint32(ToUint32(v.i32))
    case Int64Kind => PInt64(v.i64)
    case Uint64Kind => PUint64(ToUint64(v.i64))
    case FloatKind => PFloat(v.f)
    case DoubleKind => PDouble(v.d)
    case StringKind => PString(v.bytes)
    case TimestampMillisKind => PTimestampMillis(v.i64)
    case TimestampMicrosKind => PTimestampMicros(v.i64)
    case TimestampNanosKind => PTimestampNanos(v.i64)
  }

  /** A cell as the reader hands it out: nothing for a null. */
  function Printed(kind: ValueKind, cell: Option<PhysicalValue>): Option<Printable>
    requires cell.Some? ==> HasPhysicalType(cell.value, ReaderType(kind))
  {
    if cell.Some? then Some(ToPrintable(kind, cell.value)) else None
  }

  /** The library's reader of one column chunk (stand-in): it delivers the
      chunk's entries in order from `position`. */
  class ColumnChunkReader {
    const physicalType: PhysicalType
    const values: seq<Option<PhysicalValue>>
    var position: nat

    ghost predicate Valid()
      reads this
    {
      position <= |values| && ChunkHasType(values, physicalType)
    }

    constructor (values: seq<Option<PhysicalValue>>, physicalType: PhysicalType)
      requires ChunkHasType(values, physicalType)
      ensures Valid() && this.values == values && this.physicalType == physicalType && position == 0
    {
      this.values := values;
      this.physicalType := physicalType;
      position := 0;
    }

    /** ReadBatchSpaced: up to batchSize entries, each at its own slot from
        `offset`: the validity flag set for a present value and the value
        stored; a null slot's value is left as it was. Returns how many
        entries were read. */
    method ReadBatchSpaced(batchSize: nat, batch: array<PhysicalValue>, valid: array<bool>, offset: nat) returns (n: nat)
      requires Valid()
      requires offset + Min(batchSize, |values| - position) <= batch.Length
      requires offset + Min(batchSize, |values| - position) <= valid.Length
      modifies this, batch, valid
      ensures Valid()
      ensures n == Min(batchSize, |values| - old(position))
      ensures position == old(position) + n
      ensures forall k :: 0 <= k < valid.Length ==>
        valid[k] == if offset <= k < offset + n then values[old(position) + k - offset].Some? else old(valid[k])
      ensures forall k :: 0 <= k < batch.Length ==>
        batch[k] == if offset <= k < offset + n && values[old(position) + k - offset].Some?
                    then values[old(position) + k - offset].value else old(batch[k])
    {
      n := Min(batchSize, |values| - position);
      forall k | offset <= k < offset + n {
        valid[k] := values[position + k - offset].Some?;
      }
      forall k | offset <= k < offset + n && values[position + k - offset].Some? {
        batch[k] := values[position + k - offset].value;
      }
      position := position + n;
    }

    /** Skip: passes over up to n entries and says how many. */
    method Skip(n: nat) returns (skipped: nat)
      requires Valid()
      modifies this
      ensures Valid()
      ensures skipped == Min(n, |values| - old(position))
      ensures position == old(position) + skipped
    {
      skipped := Min(n, |values| - position);
      position := position + skipped;
    }
  }

  /** BufferedColumnReader: reads BATCH_SIZE entries at a time into `batch`
      and `batchValid`, where each entry sits at its row's slot, so the one
      cursor `batchCursor` indexes both. `consumed` counts the rows handed
      out or skipped so far. */
  class BufferedColumnReader {
    const kind: ValueKind
    const parquetReader: ColumnChunkReader
    const batch: array<PhysicalValue>
    const batchValid: array<bool>
    var batchSize: int
    var batchCursor: int
    ghost var consumed: nat

    ghost predicate Valid()
      reads this, parquetReader, batch, batchValid
    {
      && parquetReader.Valid()
      && parquetReader.physicalType == ReaderType(kind)
      && batch.Length == BATCH_SIZE && batchValid.Length == BATCH_SIZE
      && 0 <= batchCursor <= batchSize <= BATCH_SIZE
      && parquetReader.position == consumed + (batchSize - batchCursor)
      && BufferHolds()
    }

    /** Slots batchCursor..batchSize hold the chunk's entries from `consumed` on. */
    ghost predicate BufferHolds()
      reads this, parquetReader, batch, batchValid
      requires batchSize <= batch.Length && batchSize <= batchValid.Length
      requires 0 <= batchCursor && parquetReader.position == consumed + (batchSize - batchCursor)
      requires parquetReader.position <= |parquetReader.values|
    {
      && (forall k :: batchCursor <= k < batchSize ==>
            batchValid[k] == parquetReader.values[consumed + k - batchCursor].Some?)
      && (forall k :: batchCursor <= k < batchSize && batchValid[k] ==>
            batch[k] == parquetReader.values[consumed + k - batchCursor].value)
    }

    /** The chunk's rows as this reader hands them out. */
    ghost function Rows(): (rows: seq<Option<Printable>>)
      reads this, parquetReader
      requires parquetReader.Valid() && parquetReader.physicalType == ReaderType(kind)
      ensures |rows| == |parquetReader.values|
    {
      var values := parquetReader.values;
      seq(|values|, k requires 0 <= k < |values| => Printed(kind, values[k]))
    }

    constructor (parquetReader: ColumnChunkReader, kind: ValueKind)
      requires parquetReader.Valid() && parquetReader.position == 0
      requires parquetReader.physicalType == ReaderType(kind)
      ensures Valid() && this.parquetReader == parquetReader && this.kind == kind
      ensures consumed == 0 && batchSize == 0 && batchCursor == 0
      ensures fresh(batch) && fresh(batchValid)
    {
      this.kind := kind;
      this.parquetReader := parquetReader;
      batch := new PhysicalValue[BATCH_SIZE];
      batchValid := new bool[BATCH_SIZE];
      batchSize := 0;
      batchCursor := 0;
      consumed := 0;
    }

    /** skipRows: passes over min(toSkip, batchSize - batchCursor) buffered
        rows and asks the chunk reader to skip exactly the rest. */
    method SkipRows(toSkip: int)
      requires Valid() && 0 <= toSkip && consumed + toSkip <= |parquetReader.values|
      modifies this, parquetReader
      ensures Valid() && consumed == old(consumed) + toSkip
      ensures batchSize == old(batchSize) && batchCursor <= batchSize
      ensures batchCursor == old(batchCursor) + Min(toSkip, old(batchSize) - old(batchCursor))
      ensures parquetReader.position == old(parquetReader.position) + (toSkip - Min(toSkip, old(batchSize) - old(batchCursor)))
    {
      var skipInBatch := Min(toSkip, batchSize - batchCursor);
      batchCursor := batchCursor + skipInBatch;
      var rest := toSkip - skipInBatch;
      var nSkipped := parquetReader.Skip(rest);
      assert nSkipped == rest;
      consumed := consumed + toSkip;
    }

    /** next: the row at the cursor, refilling the buffer first when it is used up. */
    method Next() returns (v: Option<Printable>)
      requires Valid() && consumed < |parquetReader.values|
      modifies this, parquetReader, batch, batchValid
      ensures Valid() && consumed == old(consumed) + 1
      ensures v == Rows()[old(consumed)]
      ensures old(batchCursor) < old(batchSize) ==> batchSize == old(batchSize) && batchCursor == old(batchCursor) + 1
      ensures old(batchCursor) >= old(batchSize) ==> batchCursor == 1
    {
      if batchCursor >= batchSize {
        Rebuffer();
        assert batchCursor < batchSize;
      }
      var isValid := batchValid[batchCursor];
      if isValid {
        v := Some(ToPrintable(kind, batch[batchCursor]));
      } else {
        v := None;
      }
      batchCursor := batchCursor + 1;
      consumed := consumed + 1;
    }

    /** rebuffer: one ReadBatchSpaced of at most BATCH_SIZE entries from slot 0. */
    method Rebuffer()
      requires Valid() && batchCursor == batchSize
      modifies this, parquetReader, batch, batchValid
      ensures Valid() && consumed == old(consumed) && batchCursor == 0
      ensures batchSize == Min(BATCH_SIZE, |parquetReader.values| - old(parquetReader.position))
    {
      batchSize := parquetReader.ReadBatchSpaced(BATCH_SIZE, batch, batchValid, 0);
      batchCursor := 0;
    }
  }

  /** Reading one entry off the front of a chunk suffix followed by the rows after it. */
  lemma SuffixStep<T>(chunk: seq<T>, rest: seq<T>, i: nat)
    requires i < |chunk|
    ensures (chunk[i..] + rest)[0] == chunk[i]
    ensures (chunk[i..] + rest)[1..] == chunk[i + 1..] + rest
  {
    assert chunk[i..][1..] == chunk[i + 1..];
  }

  /** A used-up chunk suffix contributes nothing. */
  lemma SuffixEmpty<T>(chunk: seq<T>, rest: seq<T>, i: nat)
    requires i == |chunk|
    ensures chunk[i..] + rest == rest
  {
  }

  /** Dropping a whole chunk suffix off the rows still to read. */
  lemma DropWhole<T>(all: seq<T>, done: nat, here: seq<T>, rest: seq<T>)
    requires done <= |all| && all[done..] == here + rest
    ensures done + |here| <= |all| && all[done + |here|..] == rest
  {
    assert all[done..][|here|..] == all[done + |here|..];
  }

  lemma DropTwice<T>(all: seq<T>, a: nat, b: nat)
    requires a + b <= |all|
    ensures all[a..][b..] == all[a + b..]
  {
  }

  /** Dropping entries inside the current chunk. */
  lemma DropInside<T>(all: seq<T>, done: nat, chunk: seq<T>, i: nat, rest: seq<T>, left: nat)
    requires done <= |all| && i + left <= |chunk| && all[done..] == chunk[i..] + rest
    ensures done + left <= |all| && all[done + left..] == chunk[i + left..] + rest
  {
    assert all[done..][left..] == all[done + left..];
    assert chunk[i..][left..] == chunk[i + left..];
  }

  /** Where skipRows(toSkip) leaves a FileColumnIterator that is at row
      group g, cursor c: while more rows are to skip than the row group has
      left it loads the next one, then it skips inside the one it has. (When
      toSkip rows remain the loop never runs past the last row group.) */
  function SkipFrom(groups: seq<RowGroup>, g: nat, c: nat, toSkip: nat): (r: (nat, nat))
    requires g < |groups| && c <= groups[g].numRows
    ensures g <= r.0 < |groups|
    decreases |groups| - g
  {
    if toSkip > groups[g].numRows - c && g + 1 < |groups| then
      SkipFrom(groups, g + 1, 0, toSkip - (groups[g].numRows - c))
    else
      (g, c + toSkip)
  }

  /** Whether n calls of next() from row group g, cursor c, trip its
      assertion: a call at the end of a row group loads the next one and
      asserts that it has a row. (With no row group to load no row is left,
      and the program makes no such call.) */
  predicate Trips(groups: seq<RowGroup>, g: nat, c: nat, n: nat)
    requires g < |groups|
    decreases n
  {
    if n == 0 then false
    else if c < groups[g].numRows then Trips(groups, g, c + 1, n - 1)
    else if g + 1 == |groups| then false
    else groups[g + 1].numRows == 0 || Trips(groups, g + 1, 1, n - 1)
  }

  /** One pass of the loop of skipRows. */
  lemma SkipOn(groups: seq<RowGroup>, g: nat, c: nat, toSkip: nat)
    requires g + 1 < |groups| && c <= groups[g].numRows && toSkip > groups[g].numRows - c
    ensures SkipFrom(groups, g, c, toSkip) == SkipFrom(groups, g + 1, 0, toSkip - (groups[g].numRows - c))
  {
  }

  /** The end of skipRows: it skips inside the row group it has. */
  lemma SkipHere(groups: seq<RowGroup>, g: nat, c: nat, toSkip: nat)
    requires g < |groups| && c + toSkip <= groups[g].numRows
    ensures SkipFrom(groups, g, c, toSkip) == (g, c + toSkip)
  {
  }

  /** Some row group from index `from` on is empty and starts at one of the
      rows lo .. hi-1. */
  predicate EmptyGroupAmong(groups: seq<RowGroup>, from: nat, lo: nat, hi: nat)
  {
    exists h :: from <= h < |groups| && lo <= RowsBefore(groups, h) < hi && groups[h].numRows == 0
  }

  /** skipRows lands toSkip rows on, and every row group it loaded on the
      way starts before that row. */
  lemma {:induction false} SkipLands(groups: seq<RowGroup>, g: nat, c: nat, toSkip: nat)
    requires g < |groups| && c <= groups[g].numRows
    requires toSkip <= groups[g].numRows - c + RowsFrom(groups, g + 1)
    ensures var r := SkipFrom(groups, g, c, toSkip);
      && r.1 <= groups[r.0].numRows
      && RowsBefore(groups, r.0) + r.1 == RowsBefore(groups, g) + c + toSkip
      && forall h :: g < h <= r.0 ==> RowsBefore(groups, h) < RowsBefore(groups, g) + c + toSkip
    decreases |groups| - g
  {
    if toSkip > groups[g].numRows - c && g + 1 < |groups| {
      SkipLands(groups, g + 1, 0, toSkip - (groups[g].numRows - c));
    }
  }

  /** n calls of next() trip the assertion exactly when a row group after
      the loaded one that starts at one of the rows they read is empty. */
  lemma {:induction false} TripsExactly(groups: seq<RowGroup>, g: nat, c: nat, n: nat)
    requires g < |groups| && c <= groups[g].numRows
    ensures Trips(groups, g, c, n)
      <==> EmptyGroupAmong(groups, g + 1, RowsBefore(groups, g) + c, RowsBefore(groups, g) + c + n)
    decreases n
  {
    var pos := RowsBefore(groups, g) + c;
    if n == 0 {
    } else if c < groups[g].numRows {
      TripsExactly(groups, g, c + 1, n - 1);
      forall h | g + 1 <= h < |groups|
        ensures RowsBefore(groups, h) > pos
      {
        RowsBeforeGrows(groups, g + 1, h);
      }
    } else if g + 1 < |groups| {
      assert RowsBefore(groups, g + 1) == pos;
      if groups[g + 1].numRows > 0 {
        TripsExactly(groups, g + 1, 1, n - 1);
        forall h | g + 2 <= h < |groups|
          ensures RowsBefore(groups, h) > pos
        {
          RowsBeforeGrows(groups, g + 2, h);
        }
        if EmptyGroupAmong(groups, g + 1, pos, pos + n) {
          var h :| g + 1 <= h < |groups| && pos <= RowsBefore(groups, h) < pos + n && groups[h].numRows == 0;
          assert EmptyGroupAmong(groups, g + 2, pos + 1, pos + n);
        }
      }
    }
  }

  /** FileColumnIterator: one column read across all row groups, one
      BufferedColumnReader per row group in turn. */
  class FileColumnIterator {
    const file: ParquetFile
    const columnIndex: nat
    const kind: ValueKind
    const name: seq<byte>
    var currentReader: BufferedColumnReader?
    var currentRowGroup: int
    var currentReaderCursor: int
    var currentReaderSize: int
    ghost var Repr: set<object>

    /** What holds from construction on, whatever row group is loaded. */
    ghost predicate Basics()
      reads this
    {
      && WellFormed(file)
      && columnIndex < |file.schema|
      && ReaderType(kind) == file.schema[columnIndex].physicalType
      && name == file.schema[columnIndex].name
    }

    /** The cursor is inside a loaded row group. */
    ghost predicate InRowGroup()
      reads this
    {
      && Basics()
      && 0 <= currentRowGroup < |file.rowGroups|
      && currentReaderSize == file.rowGroups[currentRowGroup].numRows
      && 0 <= currentReaderCursor <= currentReaderSize
    }

    ghost predicate Valid()
      reads this, Repr
    {
      && this in Repr
      && InRowGroup()
      && currentReader != null
      && Repr == {this, currentReader, currentReader.parquetReader, currentReader.batch, currentReader.batchValid}
      && currentReader.kind == kind
      && currentReader.parquetReader.values == file.rowGroups[currentRowGroup].columns[columnIndex]
      && currentReader.Valid()
      && currentReader.consumed == currentReaderCursor
    }

    /** The entries of the column not read yet, in file order. */
    ghost function Remaining(): seq<Option<PhysicalValue>>
      reads this
      requires InRowGroup()
    {
      file.rowGroups[currentRowGroup].columns[columnIndex][currentReaderCursor..]
        + ColumnFrom(file.rowGroups, columnIndex, currentRowGroup + 1)
    }

    /** next() does not trip its assertion: a row is left in this row group,
        or the next row group has one. */
    ghost predicate CanAdvance()
      reads this
      requires InRowGroup()
    {
      || currentReaderCursor < currentReaderSize
      || (currentRowGroup + 1 < |file.rowGroups| && file.rowGroups[currentRowGroup + 1].numRows > 0)
    }

    /** CanAdvance is what Trips tests of one call of next(). */
    lemma CanAdvanceExactly()
      requires InRowGroup() && |Remaining()| > 0
      ensures CanAdvance() <==> !Trips(file.rowGroups, currentRowGroup, currentReaderCursor, 1)
    {
      var g := currentRowGroup;
      ColumnFromLength(file, columnIndex, g + 1);
      if currentReaderCursor >= currentReaderSize {
        SuffixEmpty(file.rowGroups[g].columns[columnIndex], ColumnFrom(file.rowGroups, columnIndex, g + 1), currentReaderCursor);
      }
    }

    /** The constructor loads row group 0 (the library throws when there is none). */
    constructor (file: ParquetFile, columnIndex: nat, kind: ValueKind)
      requires WellFormed(file) && columnIndex < |file.schema|
      requires ReaderType(kind) == file.schema[columnIndex].physicalType
      requires |file.rowGroups| > 0
      ensures Valid() && fresh(Repr)
      ensures this.file == file && this.columnIndex == columnIndex && this.kind == kind
      ensures name == file.schema[columnIndex].name
      ensures Remaining() == ColumnValues(file, columnIndex)
    {
      this.file := file;
      this.columnIndex := columnIndex;
      this.kind := kind;
      this.name := file.schema[columnIndex].name;
      currentReader := null;
      currentRowGroup := -1;
      currentReaderCursor := 0;
      currentReaderSize := 0;
      Repr := {this};
      new;
      LoadNextRowGroup();
    }

    /** getName: the column's name from the schema. */
    function GetName(): (n: seq<byte>)
      reads this
      requires Basics()
      ensures n == file.schema[columnIndex].name
    {
      name
    }

    /** skipRows: whole row groups are passed over by loading the next one;
        the rest is skipped inside the current one. */
    method SkipRows(toSkip: int)
      requires Valid() && 0 <= toSkip <= |Remaining()|
      modifies Repr
      ensures Valid() && fresh(Repr - old(Repr))
      ensures Remaining() == old(Remaining())[toSkip..]
      ensures currentRowGroup == old(SkipFrom(file.rowGroups, currentRowGroup, currentReaderCursor, toSkip)).0
      ensures currentReaderCursor == old(SkipFrom(file.rowGroups, currentRowGroup, currentReaderCursor, toSkip)).1
    {
      ghost var all := Remaining();
      ghost var landing := SkipFrom(file.rowGroups, currentRowGroup, currentReaderCursor, toSkip);
      var left := SkipRowGroups(toSkip);
      SkipHere(file.rowGroups, currentRowGroup, currentReaderCursor, left);
      assert landing == (currentRowGroup, currentReaderCursor + left);
      SkipInRowGroup(left);
      assert currentRowGroup == landing.0 && currentReaderCursor == landing.1;
      DropTwice(all, toSkip - left, left);
    }

    /** The loop of skipRows: row groups are loaded while more rows are to
        skip than the loaded one has left; left rows remain to skip in it. */
    method SkipRowGroups(toSkip: int) returns (left: int)
      requires Valid() && 0 <= toSkip <= |Remaining()|
      modifies this
      ensures Valid() && fresh(Repr - old(Repr))
      ensures 0 <= left <= toSkip && left <= currentReaderSize - currentReaderCursor
      ensures Remaining() == old(Remaining())[toSkip - left..]
      ensures SkipFrom(file.rowGroups, currentRowGroup, currentReaderCursor, left)
           == old(SkipFrom(file.rowGroups, currentRowGroup, currentReaderCursor, toSkip))
    {
      ghost var all := Remaining();
      ghost var landing := SkipFrom(file.rowGroups, currentRowGroup, currentReaderCursor, toSkip);
      left := toSkip;
      while left > currentReaderSize - currentReaderCursor
        invariant Valid() && (Repr == old(Repr) || fresh(Repr - {this}))
        invariant 0 <= left <= toSkip && Remaining() == all[toSkip - left..]
        invariant SkipFrom(file.rowGroups, currentRowGroup, currentReaderCursor, left) == landing
        decreases |file.rowGroups| - currentRowGroup
      {
        left := SkipRowGroup(left, all, toSkip, landing);
      }
    }

    /** One pass of the loop of skipRows: more rows are to skip than the
        loaded row group has left, so the next one is loaded. */
    method SkipRowGroup(left: int, ghost all: seq<Option<PhysicalValue>>, ghost toSkip: int, ghost landing: (nat, nat))
        returns (rest: int)
      requires Valid() && currentReaderSize - currentReaderCursor < left <= |Remaining()|
      requires left <= toSkip <= |all| && Remaining() == all[toSkip - left..]
      requires SkipFrom(file.rowGroups, currentRowGroup, currentReaderCursor, left) == landing
      modifies this
      ensures Valid() && fresh(Repr - {this})
      ensures currentRowGroup == old(currentRowGroup) + 1
      ensures rest == left - (old(currentReaderSize) - old(currentReaderCursor))
      ensures 0 <= rest <= left && rest <= |Remaining()|
      ensures Remaining() == all[toSkip - rest..]
      ensures SkipFrom(file.rowGroups, currentRowGroup, currentReaderCursor, rest) == landing
    {
      DropWhole(all, toSkip - left, file.rowGroups[currentRowGroup].columns[columnIndex][currentReaderCursor..],
        ColumnFrom(file.rowGroups, columnIndex, currentRowGroup + 1));
      SkipOn(file.rowGroups, currentRowGroup, currentReaderCursor, left);
      rest := left - (currentReaderSize - currentReaderCursor);
      LoadNextRowGroup();
    }

    /** The last part of skipRows: entries of the loaded row group only. */
    method SkipInRowGroup(left: int)
      requires Valid() && 0 <= left <= currentReaderSize - currentReaderCursor
      modifies Repr
      ensures Valid() && Repr == old(Repr)
      ensures |old(Remaining())| >= left && Remaining() == old(Remaining())[left..]
      ensures currentRowGroup == old(currentRowGroup) && currentReaderCursor == old(currentReaderCursor) + left
    {
      ghost var all := Remaining();
      DropInside(all, 0, file.rowGroups[currentRowGroup].columns[columnIndex], currentReaderCursor,
        ColumnFrom(file.rowGroups, columnIndex, currentRowGroup + 1), left);
      currentReader.SkipRows(left);
      currentReaderCursor := currentReaderCursor + left;
    }

    /** next: the next entry of the column, loading the next row group when
        this one is used up. */
    method Next() returns (v: Option<Printable>)
      requires Valid() && CanAdvance()
      modifies Repr
      ensures Valid() && fresh(Repr - old(Repr))
      ensures |old(Remaining())| > 0
      ensures v == Printed(kind, old(Remaining())[0])
      ensures Remaining() == old(Remaining())[1..]
      ensures old(currentReaderCursor < currentReaderSize) ==>
        currentRowGroup == old(currentRowGroup) && currentReaderCursor == old(currentReaderCursor) + 1
      ensures old(currentReaderCursor >= currentReaderSize) ==>
        currentRowGroup == old(currentRowGroup) + 1 && currentReaderCursor == 1
    {
      if currentReaderCursor >= currentReaderSize {
        EnterNextRowGroup();
      }
      v := NextInRowGroup();
    }

    /** The first part of next() on a used-up row group: load the next one,
        which holds the same remaining entries. */
    method EnterNextRowGroup()
      requires Valid() && currentReaderCursor >= currentReaderSize
      requires currentRowGroup + 1 < |file.rowGroups| && file.rowGroups[currentRowGroup + 1].numRows > 0
      modifies this
      ensures Valid() && fresh(Repr - {this})
      ensures currentRowGroup == old(currentRowGroup) + 1 && currentReaderCursor == 0 < currentReaderSize
      ensures Remaining() == old(Remaining())
    {
      SuffixEmpty(file.rowGroups[currentRowGroup].columns[columnIndex],
        ColumnFrom(file.rowGroups, columnIndex, currentRowGroup + 1), currentReaderCursor);
      LoadNextRowGroup();
    }

    /** The rest of next(): the entry at the cursor of the loaded row group. */
    method NextInRowGroup() returns (v: Option<Printable>)
      requires Valid() && currentReaderCursor < currentReaderSize
      modifies Repr
      ensures Valid() && Repr == old(Repr)
      ensures |old(Remaining())| > 0
      ensures v == Printed(kind, old(Remaining())[0])
      ensures Remaining() == old(Remaining())[1..]
      ensures currentRowGroup == old(currentRowGroup) && currentReaderCursor == old(currentReaderCursor) + 1
    {
      ghost var chunk := file.rowGroups[currentRowGroup].columns[columnIndex];
      ghost var cursor := currentReaderCursor;
      SuffixStep(chunk, ColumnFrom(file.rowGroups, columnIndex, currentRowGroup + 1), cursor);
      currentReaderCursor := currentReaderCursor + 1;
      v := currentReader.Next();
    }

    /** loadNextRowGroup: a fresh chunk reader for this column of the next row group. */
    method LoadNextRowGroup()
      requires Basics() && this in Repr
      requires -1 <= currentRowGroup && currentRowGroup + 1 < |file.rowGroups|
      modifies this
      ensures Valid() && fresh(Repr - {this})
      ensures currentRowGroup == old(currentRowGroup) + 1 && currentReaderCursor == 0
      ensures Remaining() == ColumnFrom(file.rowGroups, columnIndex, currentRowGroup)
    {
      currentRowGroup := currentRowGroup + 1;
      var group := file.rowGroups[currentRowGroup];
      var typedColumnReader := new ColumnChunkReader(group.columns[columnIndex], file.schema[columnIndex].physicalType);
      currentReader := new BufferedColumnReader(typedColumnReader, kind);
      currentReaderCursor := 0;
      currentReaderSize := group.numRows;
      Repr := {this, currentReader, currentReader.parquetReader, currentReader.batch, currentReader.batchValid};
      assert group.columns[columnIndex][0..] == group.columns[columnIndex];
    }
  }
}
