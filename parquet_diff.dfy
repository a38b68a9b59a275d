/** parquet-diff: compares two Parquet files and reports the first
    difference, checking in a fixed order: the schema column by column, the
    number of row groups, then each row group (its row count, then its
    columns, each row by row). The reference functions say which difference
    is found; the methods do the comparison the way the program does, with
    loops that stop at the first difference. */
module ParquetDiff {
  import opened Common
  import opened Wrappers
  import opened ParquetFiles
  import opened ColumnReaders

  /** What the program prints when it stops: which check failed, with the two
      sides. Every column-level report names its column, every report about
      row data its row group. */
  datatype Difference =
    | ColumnCountDiffers(left: nat, right: nat)
    | NameDiffers(column: nat, leftName: seq<byte>, rightName: seq<byte>)
    | PhysicalTypeDiffers(column: nat, leftType: PhysicalType, rightType: PhysicalType)
    | LogicalTypeDiffers(column: nat, leftLogical: LogicalType, rightLogical: LogicalType)
    | UnsupportedDefinitionLevel(column: nat, level: int)
    | UnsupportedRepetitionLevel(column: nat, level: int)
    | RowGroupCountDiffers(left: nat, right: nat)
    | RowCountDiffers(rowGroup: nat, left: nat, right: nat)
    | UnhandledPhysicalType(rowGroup: nat, column: nat)
    | ValueDiffers(rowGroup: nat, column: nat, row: nat, leftCell: Option<PhysicalValue>, rightCell: Option<PhysicalValue>)

  predicate IsSchemaReport(d: Difference)
  {
    d.NameDiffers? || d.PhysicalTypeDiffers? || d.LogicalTypeDiffers?
      || d.UnsupportedDefinitionLevel? || d.UnsupportedRepetitionLevel?
  }

  predicate IsChunkReport(d: Difference) { d.UnhandledPhysicalType? || d.ValueDiffers? }

  predicate IsGroupReport(d: Difference) { d.RowCountDiffers? || IsChunkReport(d) }

  // ---------------------------------------------------------------------
  // Schema
  // ---------------------------------------------------------------------

  /** The two descriptors agree on everything diffColumn compares. */
  predicate SameColumn(c1: ColumnDescriptor, c2: ColumnDescriptor)
  {
    c1.name == c2.name && c1.physicalType == c2.physicalType && c1.logicalType == c2.logicalType
  }

  /** A column diffColumn accepts: at most one definition level, no repetition. */
  predicate SupportedColumn(c: ColumnDescriptor)
  {
    c.maxDefinitionLevel <= 1 && c.maxRepetitionLevel <= 0
  }

  /** diffColumn: name, then physical type, then logical type; a column that
      passes all three is still reported when the first file's column uses
      definition or repetition levels. */
  function ColumnDifference(i: nat, c1: ColumnDescriptor, c2: ColumnDescriptor): (d: Option<Difference>)
    ensures d.None? <==> SameColumn(c1, c2) && SupportedColumn(c1)
    ensures d.Some? ==> IsSchemaReport(d.value) && d.value.column == i
  {
    if c1.name != c2.name then Some(NameDiffers(i, c1.name, c2.name))
    else if c1.physicalType != c2.physicalType then Some(PhysicalTypeDiffers(i, c1.physicalType, c2.physicalType))
    else if c1.logicalType != c2.logicalType then Some(LogicalTypeDiffers(i, c1.logicalType, c2.logicalType))
    else if c1.maxDefinitionLevel > 1 then Some(UnsupportedDefinitionLevel(i, c1.maxDefinitionLevel))
    else if c1.maxRepetitionLevel > 0 then Some(UnsupportedRepetitionLevel(i, c1.maxRepetitionLevel))
    else None
  }

  /** diffColumn's return value: 0 for no difference, 2 for an unsupported
      column, 1 for any other difference. */
  function ColumnCode(i: nat, c1: ColumnDescriptor, c2: ColumnDescriptor): int
  {
    match ColumnDifference(i, c1, c2)
    case None => 0
    case Some(d) => if d.UnsupportedDefinitionLevel? || d.UnsupportedRepetitionLevel? then 2 else 1
  }

  /** Code 2 exactly for columns that agree but use levels; code 1 exactly
      for columns that disagree. */
  lemma {:induction false} ColumnCodeMeaning(i: nat, c1: ColumnDescriptor, c2: ColumnDescriptor)
    ensures ColumnCode(i, c1, c2) == 2 <==> SameColumn(c1, c2) && !SupportedColumn(c1)
    ensures ColumnCode(i, c1, c2) == 1 <==> !SameColumn(c1, c2)
    ensures ColumnCode(i, c1, c2) == 0 <==> SameColumn(c1, c2) && SupportedColumn(c1)
  {
    var d := ColumnDifference(i, c1, c2);
    if d.Some? && SameColumn(c1, c2) {
      assert d.value.UnsupportedDefinitionLevel? || d.value.UnsupportedRepetitionLevel?;
    }
  }

  /** The first column from i on that diffColumn reports. */
  function SchemaDifferenceFrom(s1: seq<ColumnDescriptor>, s2: seq<ColumnDescriptor>, i: nat): Option<Difference>
    requires |s1| == |s2| && i <= |s1|
    decreases |s1| - i
  {
    if i == |s1| then None
    else if ColumnDifference(i, s1[i], s2[i]).Some? then ColumnDifference(i, s1[i], s2[i])
    else SchemaDifferenceFrom(s1, s2, i + 1)
  }

  /** diffSchema: the column counts, then column by column. */
  function SchemaDifference(s1: seq<ColumnDescriptor>, s2: seq<ColumnDescriptor>): Option<Difference>
  {
    if |s2| != |s1| then Some(ColumnCountDiffers(|s1|, |s2|)) else SchemaDifferenceFrom(s1, s2, 0)
  }

  /** What the schema check reports is the first column that differs. */
  lemma {:induction false} SchemaDifferenceFirst(s1: seq<ColumnDescriptor>, s2: seq<ColumnDescriptor>, i: nat)
    requires |s1| == |s2| && i <= |s1|
    ensures SchemaDifferenceFrom(s1, s2, i).None? <==>
      forall c :: i <= c < |s1| ==> SameColumn(s1[c], s2[c]) && SupportedColumn(s1[c])
    ensures SchemaDifferenceFrom(s1, s2, i).Some? ==>
      var d := SchemaDifferenceFrom(s1, s2, i).value;
      && IsSchemaReport(d) && i <= d.column < |s1|
      && ColumnDifference(d.column, s1[d.column], s2[d.column]) == Some(d)
      && forall c :: i <= c < d.column ==> SameColumn(s1[c], s2[c]) && SupportedColumn(s1[c])
    decreases |s1| - i
  {
    if i < |s1| && ColumnDifference(i, s1[i], s2[i]).None? {
      SchemaDifferenceFirst(s1, s2, i + 1);
    }
  }

  /** diffSchema, as the program runs it: the return value is 1 for every
      difference, so diffColumn's 2 is collapsed to 1. */
  method DiffSchema(s1: seq<ColumnDescriptor>, s2: seq<ColumnDescriptor>) returns (code: int, report: Option<Difference>)
    ensures report == SchemaDifference(s1, s2)
    ensures code == if report.None? then 0 else 1
  {
    var nColumns := |s1|;
    if |s2| != nColumns {
      return 1, Some(ColumnCountDiffers(nColumns, |s2|));
    }
    var i := 0;
    while i < nColumns
      invariant i <= nColumns
      invariant SchemaDifferenceFrom(s1, s2, i) == SchemaDifference(s1, s2)
    {
      var columnReport := ColumnDifference(i, s1[i], s2[i]);
      if columnReport.Some? {
        return 1, columnReport;
      }
      i := i + 1;
    }
    return 0, None;
  }

  // ---------------------------------------------------------------------
  // Column chunks
  // ---------------------------------------------------------------------

  /** Row i of a chunk as the comparison sees it: rows past the end of what
      the reader delivered keep their cleared validity bit, so read as null. */
  function CellAt(chunk: seq<Option<PhysicalValue>>, i: nat): Option<PhysicalValue>
  {
    if i < |chunk| then chunk[i] else None
  }

  /** The first row from i on, below nRows, where the two chunks differ:
      one side null and the other not, or two unequal values. */
  function CellDifferenceFrom(rowGroup: nat, column: nat, chunk1: seq<Option<PhysicalValue>>,
                              chunk2: seq<Option<PhysicalValue>>, nRows: nat, i: nat): Option<Difference>
    requires i <= nRows
    decreases nRows - i
  {
    if i == nRows then None
    else if CellAt(chunk1, i) != CellAt(chunk2, i) then
      Some(ValueDiffers(rowGroup, column, i, CellAt(chunk1, i), CellAt(chunk2, i)))
    else CellDifferenceFrom(rowGroup, column, chunk1, chunk2, nRows, i + 1)
  }

  /** The reported row is the smallest one that differs; rows null on both
      sides never differ. */
  lemma {:induction false} CellDifferenceFirst(rowGroup: nat, column: nat, chunk1: seq<Option<PhysicalValue>>,
                                                chunk2: seq<Option<PhysicalValue>>, nRows: nat, i: nat)
    requires i <= nRows
    ensures CellDifferenceFrom(rowGroup, column, chunk1, chunk2, nRows, i).None? <==>
      forall k :: i <= k < nRows ==> CellAt(chunk1, k) == CellAt(chunk2, k)
    ensures CellDifferenceFrom(rowGroup, column, chunk1, chunk2, nRows, i).Some? ==>
      var d := CellDifferenceFrom(rowGroup, column, chunk1, chunk2, nRows, i).value;
      && d.ValueDiffers? && d.rowGroup == rowGroup && d.column == column && i <= d.row < nRows
      && d.leftCell == CellAt(chunk1, d.row) && d.rightCell == CellAt(chunk2, d.row)
      && d.leftCell != d.rightCell
      && forall k :: i <= k < d.row ==> CellAt(chunk1, k) == CellAt(chunk2, k)
    decreases nRows - i
  {
    if i < nRows && CellAt(chunk1, i) == CellAt(chunk2, i) {
      CellDifferenceFirst(rowGroup, column, chunk1, chunk2, nRows, i + 1);
    }
  }

  /** The physical types diffColumnChunk has a typed comparison for. */
  predicate Handled(t: PhysicalType)
  {
    t == Int32 || t == Int64 || t == Float || t == Double || t == ByteArray
  }

  /** diffColumnChunk: a typed comparison when both readers are of one
      handled type, otherwise an unhandled-type report. */
  function ChunkDifference(rowGroup: nat, column: nat, t1: PhysicalType, t2: PhysicalType,
                           chunk1: seq<Option<PhysicalValue>>, chunk2: seq<Option<PhysicalValue>>, nRows: nat): Option<Difference>
  {
    if t1 == t2 && Handled(t1) then CellDifferenceFrom(rowGroup, column, chunk1, chunk2, nRows, 0)
    else Some(UnhandledPhysicalType(rowGroup, column))
  }

  /** The validity flags and values read into the buffers are those of the
      first nRows rows of the chunk. */
  ghost predicate Loaded(valid: array<bool>, values: array<PhysicalValue>, chunk: seq<Option<PhysicalValue>>, nRows: nat)
    reads valid, values
  {
    && nRows <= valid.Length && nRows <= values.Length
    && forall k :: 0 <= k < nRows ==>
         valid[k] == CellAt(chunk, k).Some? && (valid[k] ==> values[k] == CellAt(chunk, k).value)
  }

  /** readColumnChunk: batches of up to the rows still wanted, each at its own
      offset, until nRows rows are read or a batch comes back empty. */
  method ReadColumnChunk(chunk: ColumnChunkReader, nRows: nat, values: array<PhysicalValue>, valid: array<bool>)
      returns (nRead: nat)
    requires chunk.Valid() && nRows <= values.Length && nRows <= valid.Length
    modifies chunk, values, valid
    ensures chunk.Valid()
    ensures nRead == Min(nRows, |chunk.values| - old(chunk.position)) && nRead <= nRows
    ensures chunk.position == old(chunk.position) + nRead
    ensures forall k :: 0 <= k < valid.Length ==>
      valid[k] == if k < nRead then chunk.values[old(chunk.position) + k].Some? else old(valid[k])
    ensures forall k :: 0 <= k < values.Length ==>
      values[k] == if k < nRead && chunk.values[old(chunk.position) + k].Some?
                   then chunk.values[old(chunk.position) + k].value else old(values[k])
  {
    ghost var start := chunk.position;
    nRead := 0;
    while nRead < nRows
      invariant chunk.Valid() && chunk.position == start + nRead && nRead <= nRows
      invariant forall k :: 0 <= k < valid.Length ==>
        valid[k] == if k < nRead then chunk.values[start + k].Some? else old(valid[k])
      invariant forall k :: 0 <= k < values.Length ==>
        values[k] == if k < nRead && chunk.values[start + k].Some? then chunk.values[start + k].value else old(values[k])
      decreases nRows - nRead
    {
      var nReadThisBatch := chunk.ReadBatchSpaced(nRows - nRead, values, valid, nRead);
      if nReadThisBatch == 0 {
        break;
      }
      nRead := nRead + nReadThisBatch;
    }
  }

  /** A column chunk read from the start of a fresh reader into cleared
      buffers is loaded. */
  method LoadColumnChunk(chunk: ColumnChunkReader, nRows: nat) returns (values: array<PhysicalValue>, valid: array<bool>)
    requires chunk.Valid() && chunk.position == 0
    modifies chunk
    ensures fresh(values) && fresh(valid)
    ensures Loaded(valid, values, chunk.values, nRows)
  {
    // A null slot's value is never looked at: any filler will do.
    values := new PhysicalValue[nRows](_ => Int32Value(0));
    valid := new bool[nRows](_ => false);
    var nRead := ReadColumnChunk(chunk, nRows, values, valid);
    forall k | 0 <= k < nRows
      ensures valid[k] == CellAt(chunk.values, k).Some? && (valid[k] ==> values[k] == CellAt(chunk.values, k).value)
    {
      if k >= nRead {
        assert k >= |chunk.values|;
      }
    }
  }

  /** diffColumnChunkTyped: both chunks read in full, then compared row by
      row, stopping at the first difference. */
  method DiffColumnChunkTyped(rowGroup: nat, column: nat, chunk1: ColumnChunkReader, chunk2: ColumnChunkReader, nRows: nat)
      returns (report: Option<Difference>)
    requires chunk1 != chunk2 && chunk1.Valid() && chunk2.Valid() && chunk1.position == 0 && chunk2.position == 0
    modifies chunk1, chunk2
    ensures report == CellDifferenceFrom(rowGroup, column, chunk1.values, chunk2.values, nRows, 0)
  {
    var values1, valid1 := LoadColumnChunk(chunk1, nRows);
    var values2, valid2 := LoadColumnChunk(chunk2, nRows);
    var i := 0;
    while i < nRows
      invariant i <= nRows
      invariant CellDifferenceFrom(rowGroup, column, chunk1.values, chunk2.values, nRows, i)
             == CellDifferenceFrom(rowGroup, column, chunk1.values, chunk2.values, nRows, 0)
    {
      if valid1[i] {
        if valid2[i] {
          if values1[i] != values2[i] {
            return Some(ValueDiffers(rowGroup, column, i, Some(values1[i]), Some(values2[i])));
          }
        } else {
          return Some(ValueDiffers(rowGroup, column, i, Some(values1[i]), None));
        }
      } else if valid2[i] {
        return Some(ValueDiffers(rowGroup, column, i, None, Some(values2[i])));
      }
      i := i + 1;
    }
    return None;
  }

  /** diffColumnChunk: the typed comparison for the five handled types. */
  method DiffColumnChunk(rowGroup: nat, column: nat, chunk1: ColumnChunkReader, chunk2: ColumnChunkReader, nRows: nat)
      returns (report: Option<Difference>)
    requires chunk1 != chunk2 && chunk1.Valid() && chunk2.Valid() && chunk1.position == 0 && chunk2.position == 0
    modifies chunk1, chunk2
    ensures report == ChunkDifference(rowGroup, column, chunk1.physicalType, chunk2.physicalType,
                                      chunk1.values, chunk2.values, nRows)
  {
    if chunk1.physicalType == chunk2.physicalType && Handled(chunk1.physicalType) {
      report := DiffColumnChunkTyped(rowGroup, column, chunk1, chunk2, nRows);
    } else {
      report := Some(UnhandledPhysicalType(rowGroup, column));
    }
  }

  // ---------------------------------------------------------------------
  // Row groups and files
  // ---------------------------------------------------------------------

  /** Every chunk of the row group is of its column's physical type. */
  predicate GroupFits(group: RowGroup, schema: seq<ColumnDescriptor>)
  {
    |group.columns| == |schema| && forall c :: 0 <= c < |schema| ==> ChunkHasType(group.columns[c], schema[c].physicalType)
  }

  /** The first column from i on whose chunks differ. */
  function ChunkDifferenceFrom(rowGroup: nat, group1: RowGroup, group2: RowGroup,
                               schema1: seq<ColumnDescriptor>, schema2: seq<ColumnDescriptor>, i: nat): Option<Difference>
    requires |group1.columns| == |schema1| == |schema2| == |group2.columns| && i <= |schema1|
    decreases |schema1| - i
  {
    if i == |schema1| then None
    else
      var d := ChunkDifference(rowGroup, i, schema1[i].physicalType, schema2[i].physicalType,
                               group1.columns[i], group2.columns[i], group1.numRows);
      if d.Some? then d else ChunkDifferenceFrom(rowGroup, group1, group2, schema1, schema2, i + 1)
  }

  /** diffRowGroup: the row counts, then the columns in order. */
  function GroupDifference(rowGroup: nat, group1: RowGroup, group2: RowGroup,
                           schema1: seq<ColumnDescriptor>, schema2: seq<ColumnDescriptor>): Option<Difference>
    requires |group1.columns| == |schema1| == |schema2| == |group2.columns|
  {
    if group2.numRows != group1.numRows then Some(RowCountDiffers(rowGroup, group1.numRows, group2.numRows))
    else ChunkDifferenceFrom(rowGroup, group1, group2, schema1, schema2, 0)
  }

  /** What the column loop of a row group reports is the first column whose
      chunks differ. */
  lemma {:induction false} ChunkDifferenceFirst(rowGroup: nat, group1: RowGroup, group2: RowGroup,
                                                schema1: seq<ColumnDescriptor>, schema2: seq<ColumnDescriptor>, i: nat)
    requires |group1.columns| == |schema1| == |schema2| == |group2.columns| && i <= |schema1|
    ensures ChunkDifferenceFrom(rowGroup, group1, group2, schema1, schema2, i).None? <==>
      forall c :: i <= c < |schema1| ==>
        ChunkDifference(rowGroup, c, schema1[c].physicalType, schema2[c].physicalType,
                        group1.columns[c], group2.columns[c], group1.numRows).None?
    ensures ChunkDifferenceFrom(rowGroup, group1, group2, schema1, schema2, i).Some? ==>
      var d := ChunkDifferenceFrom(rowGroup, group1, group2, schema1, schema2, i).value;
      && IsChunkReport(d) && d.rowGroup == rowGroup && i <= d.column < |schema1|
      && forall c :: i <= c < d.column ==>
        ChunkDifference(rowGroup, c, schema1[c].physicalType, schema2[c].physicalType,
                        group1.columns[c], group2.columns[c], group1.numRows).None?
    decreases |schema1| - i
  {
    if i < |schema1| {
      var d := ChunkDifference(rowGroup, i, schema1[i].physicalType, schema2[i].physicalType,
                               group1.columns[i], group2.columns[i], group1.numRows);
      if d.None? {
        ChunkDifferenceFirst(rowGroup, group1, group2, schema1, schema2, i + 1);
      } else if schema1[i].physicalType == schema2[i].physicalType && Handled(schema1[i].physicalType) {
        CellDifferenceFirst(rowGroup, i, group1.columns[i], group2.columns[i], group1.numRows, 0);
      }
    }
  }

  /** diffRowGroup as the program runs it: one fresh chunk reader per side for
      each column, stopping at the first column that differs. */
  method DiffRowGroup(rowGroup: nat, group1: RowGroup, group2: RowGroup,
                      schema1: seq<ColumnDescriptor>, schema2: seq<ColumnDescriptor>)
      returns (report: Option<Difference>)
    requires |schema1| == |schema2| && GroupFits(group1, schema1) && GroupFits(group2, schema2)
    ensures report == GroupDifference(rowGroup, group1, group2, schema1, schema2)
  {
    var nRows := group1.numRows;
    if group2.numRows != nRows {
      return Some(RowCountDiffers(rowGroup, nRows, group2.numRows));
    }
    var nColumns := |group1.columns|;
    var i := 0;
    while i < nColumns
      invariant i <= nColumns
      invariant ChunkDifferenceFrom(rowGroup, group1, group2, schema1, schema2, i)
             == GroupDifference(rowGroup, group1, group2, schema1, schema2)
    {
      var chunk1 := new ColumnChunkReader(group1.columns[i], schema1[i].physicalType);
      var chunk2 := new ColumnChunkReader(group2.columns[i], schema2[i].physicalType);
      var columnReport := DiffColumnChunk(rowGroup, i, chunk1, chunk2, nRows);
      if columnReport.Some? {
        return columnReport;
      }
      i := i + 1;
    }
    return None;
  }

  /** The first row group from g on that differs. */
  function GroupDifferenceFrom(f1: ParquetFile, f2: ParquetFile, g: nat): Option<Difference>
    requires WellFormed(f1) && WellFormed(f2) && |f1.schema| == |f2.schema|
    requires |f1.rowGroups| == |f2.rowGroups| && g <= |f1.rowGroups|
    decreases |f1.rowGroups| - g
  {
    if g == |f1.rowGroups| then None
    else
      var d := GroupDifference(g, f1.rowGroups[g], f2.rowGroups[g], f1.schema, f2.schema);
      if d.Some? then d else GroupDifferenceFrom(f1, f2, g + 1)
  }

  /** diff: the schema, then the number of row groups, then the row groups
      in order. */
  function FileDifference(f1: ParquetFile, f2: ParquetFile): Option<Difference>
    requires WellFormed(f1) && WellFormed(f2)
  {
    var schemaReport := SchemaDifference(f1.schema, f2.schema);
    if schemaReport.Some? then schemaReport
    else if |f2.rowGroups| != |f1.rowGroups| then Some(RowGroupCountDiffers(|f1.rowGroups|, |f2.rowGroups|))
    else GroupDifferenceFrom(f1, f2, 0)
  }

  /** What the row-group loop reports comes from the first row group that
      differs: every earlier row group passes. */
  lemma {:induction false} GroupDifferenceFirst(f1: ParquetFile, f2: ParquetFile, g: nat)
    requires WellFormed(f1) && WellFormed(f2) && |f1.schema| == |f2.schema|
    requires |f1.rowGroups| == |f2.rowGroups| && g <= |f1.rowGroups|
    ensures GroupDifferenceFrom(f1, f2, g).None? <==>
      forall j :: g <= j < |f1.rowGroups| ==>
        GroupDifference(j, f1.rowGroups[j], f2.rowGroups[j], f1.schema, f2.schema).None?
    ensures GroupDifferenceFrom(f1, f2, g).Some? ==>
      var d := GroupDifferenceFrom(f1, f2, g).value;
      && IsGroupReport(d) && g <= d.rowGroup < |f1.rowGroups|
      && GroupDifference(d.rowGroup, f1.rowGroups[d.rowGroup], f2.rowGroups[d.rowGroup], f1.schema, f2.schema) == Some(d)
      && forall j :: g <= j < d.rowGroup ==>
        GroupDifference(j, f1.rowGroups[j], f2.rowGroups[j], f1.schema, f2.schema).None?
    decreases |f1.rowGroups| - g
  {
    if g < |f1.rowGroups| {
      var group1, group2 := f1.rowGroups[g], f2.rowGroups[g];
      var d := GroupDifference(g, group1, group2, f1.schema, f2.schema);
      if d.None? {
        GroupDifferenceFirst(f1, f2, g + 1);
      } else if group2.numRows == group1.numRows {
        ChunkDifferenceFirst(g, group1, group2, f1.schema, f2.schema, 0);
      }
    }
  }

  /** diff as the program runs it: 0 when the files are equivalent, 1 with
      the first difference otherwise. */
  method Diff(f1: ParquetFile, f2: ParquetFile) returns (code: int, report: Option<Difference>)
    requires WellFormed(f1) && WellFormed(f2)
    ensures report == FileDifference(f1, f2)
    ensures code == if report.None? then 0 else 1
  {
    code, report := DiffSchema(f1.schema, f2.schema);
    if code != 0 {
      return 1, report;
    }
    var nRowGroups := |f1.rowGroups|;
    if |f2.rowGroups| != nRowGroups {
      return 1, Some(RowGroupCountDiffers(nRowGroups, |f2.rowGroups|));
    }
    var i := 0;
    while i < nRowGroups
      invariant i <= nRowGroups
      invariant GroupDifferenceFrom(f1, f2, i) == FileDifference(f1, f2)
    {
      var groupReport := DiffRowGroup(i, f1.rowGroups[i], f2.rowGroups[i], f1.schema, f2.schema);
      if groupReport.Some? {
        return 1, groupReport;
      }
      i := i + 1;
    }
    return 0, None;
  }

  // ---------------------------------------------------------------------
  // What a zero exit code means
  // ---------------------------------------------------------------------

  /** The two files hold the same data, by an independent reading: the same
      columns, each supported; the same row groups with the same row counts;
      in each row group, chunks of a handled type with the same cells. */
  predicate Equivalent(f1: ParquetFile, f2: ParquetFile)
    requires WellFormed(f1) && WellFormed(f2)
  {
    && |f1.schema| == |f2.schema|
    && (forall c :: 0 <= c < |f1.schema| ==> SameColumn(f1.schema[c], f2.schema[c]) && SupportedColumn(f1.schema[c]))
    && |f1.rowGroups| == |f2.rowGroups|
    && forall g :: 0 <= g < |f1.rowGroups| ==>
         && f1.rowGroups[g].numRows == f2.rowGroups[g].numRows
         && forall c :: 0 <= c < |f1.schema| ==>
              Handled(f1.schema[c].physicalType) && f1.rowGroups[g].columns[c] == f2.rowGroups[g].columns[c]
  }

  /** Two chunks of nRows rows agree row by row exactly when they are equal. */
  lemma {:induction false} CellsAgree(chunk1: seq<Option<PhysicalValue>>, chunk2: seq<Option<PhysicalValue>>, nRows: nat)
    requires |chunk1| == nRows && |chunk2| == nRows
    ensures (forall k :: 0 <= k < nRows ==> CellAt(chunk1, k) == CellAt(chunk2, k)) <==> chunk1 == chunk2
  {
    if forall k :: 0 <= k < nRows ==> CellAt(chunk1, k) == CellAt(chunk2, k) {
      forall k | 0 <= k < nRows
        ensures chunk1[k] == chunk2[k]
      {
        assert CellAt(chunk1, k) == CellAt(chunk2, k);
      }
    }
  }

  /** A row group passes exactly when its row counts match and every one of
      its columns has a handled type and equal chunks. */
  lemma {:induction false} GroupPasses(rowGroup: nat, group1: RowGroup, group2: RowGroup,
                                       schema1: seq<ColumnDescriptor>, schema2: seq<ColumnDescriptor>)
    requires |group1.columns| == |schema1| == |schema2| == |group2.columns|
    requires forall c :: 0 <= c < |schema1| ==> SameColumn(schema1[c], schema2[c])
    requires forall c :: 0 <= c < |schema1| ==>
      |group1.columns[c]| == group1.numRows && |group2.columns[c]| == group2.numRows
    ensures GroupDifference(rowGroup, group1, group2, schema1, schema2).None? <==>
      && group1.numRows == group2.numRows
      && forall c :: 0 <= c < |schema1| ==> Handled(schema1[c].physicalType) && group1.columns[c] == group2.columns[c]
  {
    if group1.numRows == group2.numRows {
      ChunkDifferenceFirst(rowGroup, group1, group2, schema1, schema2, 0);
      forall c | 0 <= c < |schema1|
        ensures ChunkDifference(rowGroup, c, schema1[c].physicalType, schema2[c].physicalType,
                                group1.columns[c], group2.columns[c], group1.numRows).None?
            <==> Handled(schema1[c].physicalType) && group1.columns[c] == group2.columns[c]
      {
        CellDifferenceFirst(rowGroup, c, group1.columns[c], group2.columns[c], group1.numRows, 0);
        CellsAgree(group1.columns[c], group2.columns[c], group1.numRows);
      }
    }
  }

  /** diff reports no difference exactly when the files are equivalent. */
  lemma {:induction false} NoDifferenceIffEquivalent(f1: ParquetFile, f2: ParquetFile)
    requires WellFormed(f1) && WellFormed(f2)
    ensures FileDifference(f1, f2).None? <==> Equivalent(f1, f2)
  {
    if |f1.schema| == |f2.schema| {
      SchemaDifferenceFirst(f1.schema, f2.schema, 0);
      if SchemaDifference(f1.schema, f2.schema).None? && |f1.rowGroups| == |f2.rowGroups| {
        GroupDifferenceFirst(f1, f2, 0);
        forall g | 0 <= g < |f1.rowGroups|
          ensures GroupDifference(g, f1.rowGroups[g], f2.rowGroups[g], f1.schema, f2.schema).None? <==>
            && f1.rowGroups[g].numRows == f2.rowGroups[g].numRows
            && forall c :: 0 <= c < |f1.schema| ==>
                 Handled(f1.schema[c].physicalType) && f1.rowGroups[g].columns[c] == f2.rowGroups[g].columns[c]
        {
          GroupPasses(g, f1.rowGroups[g], f2.rowGroups[g], f1.schema, f2.schema);
        }
      }
    }
  }

  /** A file of supported columns, all of a handled type, compared with
      itself gives exit code 0. */
  lemma {:induction false} SelfDiffIsClean(f: ParquetFile)
    requires WellFormed(f)
    requires forall c :: 0 <= c < |f.schema| ==> SupportedColumn(f.schema[c]) && Handled(f.schema[c].physicalType)
    ensures FileDifference(f, f).None?
  {
    NoDifferenceIffEquivalent(f, f);
  }
}
