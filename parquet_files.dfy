/** What the tools read from a Parquet file, as values: the schema (one
    descriptor per leaf column) and the row groups, each holding one chunk of
    optional values per column. A null is a row whose definition level is
    below the maximum; with max_definition_level 1 and no repetition, a chunk
    holds exactly one entry per row. */
module ParquetFiles {
  import opened Common
  import opened Wrappers

  datatype PhysicalType = Boolean | Int32 | Int64 | Int96 | Float | Double | ByteArray | FixedLenByteArray

  datatype TimeUnit = Millis | Micros | Nanos | UnknownUnit

  datatype LogicalType =
    | NoLogicalType
    | IntType(bitWidth: int, isSigned: bool)
    | TimestampType(isAdjustedToUtc: bool, unit: TimeUnit)
    | StringType
    | DateType
    | OtherLogicalType(name: string)

  datatype ColumnDescriptor = ColumnDescriptor(
    name: seq<byte>,
    physicalType: PhysicalType,
    logicalType: LogicalType,
    maxDefinitionLevel: int,
    maxRepetitionLevel: int)

  /** A floating-point value is opaque: the text double-conversion's
      ToShortest would print for it when it is finite. */
  datatype FloatRepr = Finite(text: string) | NonFinite

  datatype PhysicalValue =
    | Int32Value(i32: int32)
    | Int64Value(i64: int64)
    | FloatValue(f: FloatRepr)
    | DoubleValue(d: FloatRepr)
    | ByteArrayValue(bytes: seq<byte>)
    | BooleanValue(b: bool)
    | Int96Value(raw: seq<byte>)
    | FixedLenByteArrayValue(fixed: seq<byte>)

  predicate HasPhysicalType(v: PhysicalValue, t: PhysicalType)
  {
    match v
    case Int32Value(_) => t == Int32
    case Int64Value(_) => t == Int64
    case FloatValue(_) => t == Float
    case DoubleValue(_) => t == Double
    case ByteArrayValue(_) => t == ByteArray
    case BooleanValue(_) => t == Boolean
    case Int96Value(_) => t == Int96
    case FixedLenByteArrayValue(_) => t == FixedLenByteArray
  }

  /** Every present value of a chunk has the column's physical type. */
  predicate ChunkHasType(chunk: seq<Option<PhysicalValue>>, t: PhysicalType)
  {
    forall k :: 0 <= k < |chunk| && chunk[k].Some? ==> HasPhysicalType(chunk[k].value, t)
  }

  datatype RowGroup = RowGroup(numRows: nat, columns: seq<seq<Option<PhysicalValue>>>)

  datatype ParquetFile = ParquetFile(schema: seq<ColumnDescriptor>, rowGroups: seq<RowGroup>)

  /** One chunk per column in every row group, one entry per row, every value of the column's type. */
  predicate WellFormed(f: ParquetFile)
  {
    forall g :: 0 <= g < |f.rowGroups| ==>
      |f.rowGroups[g].columns| == |f.schema|
      && forall c :: 0 <= c < |f.schema| ==>
        |f.rowGroups[g].columns[c]| == f.rowGroups[g].numRows
        && ChunkHasType(f.rowGroups[g].columns[c], f.schema[c].physicalType)
  }

  /** Rows in row groups g.. to the end. */
  function RowsFrom(groups: seq<RowGroup>, g: nat): nat
    requires g <= |groups|
    decreases |groups| - g
  {
    if g == |groups| then 0 else groups[g].numRows + RowsFrom(groups, g + 1)
  }

  /** The file's num_rows: the rows of all its row groups. */
  function NumRows(f: ParquetFile): nat { RowsFrom(f.rowGroups, 0) }

  /** Rows in row groups 0 .. g-1: the row at which row group g starts. */
  function RowsBefore(groups: seq<RowGroup>, g: nat): nat
    requires g <= |groups|
  {
    if g == 0 then 0 else RowsBefore(groups, g - 1) + groups[g - 1].numRows
  }

  /** The rows before row group g and those from it on are all the rows. */
  lemma {:induction false} RowsSplit(groups: seq<RowGroup>, g: nat)
    requires g <= |groups|
    ensures RowsBefore(groups, g) + RowsFrom(groups, g) == RowsFrom(groups, 0)
  {
    if g > 0 {
      RowsSplit(groups, g - 1);
    }
  }

  /** A later row group does not start before an earlier one. */
  lemma {:induction false} RowsBeforeGrows(groups: seq<RowGroup>, g: nat, h: nat)
    requires g <= h <= |groups|
    ensures RowsBefore(groups, g) <= RowsBefore(groups, h)
    decreases h - g
  {
    if g < h {
      RowsBeforeGrows(groups, g, h - 1);
    }
  }

  /** Column c read from row group g to the end, rows in file order. */
  function ColumnFrom(groups: seq<RowGroup>, c: nat, g: nat): seq<Option<PhysicalValue>>
    requires g <= |groups|
    requires forall k :: 0 <= k < |groups| ==> c < |groups[k].columns|
    decreases |groups| - g
  {
    if g == |groups| then [] else groups[g].columns[c] + ColumnFrom(groups, c, g + 1)
  }

  /** Column c of the whole file. */
  function ColumnValues(f: ParquetFile, c: nat): (v: seq<Option<PhysicalValue>>)
    requires WellFormed(f) && c < |f.schema|
    ensures |v| == NumRows(f)
    ensures ChunkHasType(v, f.schema[c].physicalType)
  {
    ColumnFromLength(f, c, 0);
    ColumnFrom(f.rowGroups, c, 0)
  }

  lemma {:induction false} ColumnFromLength(f: ParquetFile, c: nat, g: nat)
    requires WellFormed(f) && c < |f.schema| && g <= |f.rowGroups|
    ensures |ColumnFrom(f.rowGroups, c, g)| == RowsFrom(f.rowGroups, g)
    ensures ChunkHasType(ColumnFrom(f.rowGroups, c, g), f.schema[c].physicalType)
    decreases |f.rowGroups| - g
  {
    if g < |f.rowGroups| {
      ColumnFromLength(f, c, g + 1);
      var head := f.rowGroups[g].columns[c];
      var tail := ColumnFrom(f.rowGroups, c, g + 1);
      var whole: seq<Option<PhysicalValue>> := head + tail;
      assert ColumnFrom(f.rowGroups, c, g) == whole;
      var t := f.schema[c].physicalType;
      forall k | 0 <= k < |whole| && whole[k].Some?
        ensures HasPhysicalType(whole[k].value, t)
      {
        if k >= |head| {
          assert whole[k] == tail[k - |head|];
        }
      }
    }
  }
}
