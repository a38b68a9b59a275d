# parquet-to-arrow, modelled in Dafny

parquet-to-arrow is a set of small command-line converters between delimited
text, Parquet and Arrow. This project models the logic at their core and
proves properties of it:

- **csv-to-arrow** (`csv_to_arrow.dfy`): the four-label `goto` state machine
  of `readCsv`. It splits a byte stream into records and values. The
  `Warnings` counters record skipped rows and columns, truncated values,
  repaired quotes and EOF inside quotes. `ColumnBuilder`/`TableBuilder` collect
  the values into a table of nullable byte strings. The machine is a pure
  `Step`/`Run` specification over a `Scan` value; `ReadCsv` is the imperative
  loop over a byte buffer, proved equal to it.
- **parquet-to-text-stream** (`column_readers.dfy`, `printers.dfy`,
  `text_formats.dfy`, `text_stream.dfy`): the batch-buffered column reader,
  the iterator that walks a column across row groups, the CSV and JSON
  printers (quoting, escaping, integer and timestamp text), the dispatch from
  column type to reader, and `streamParquet`, which prints a window of the
  file.
- **Ranges** (`ranges.dfy`, `range_parse.dfy`): the `Range` value of
  `range.h` and the `parse_range` parser of `range.cc`.
- **Calendar** (`civil_calendar.dfy`): the vendored Neri–Schneider
  days-to-`YYYY-MM-DD` routine with its `uint32` wrap-around, proved against
  an independent proleptic Gregorian calendar. That calendar also stands in
  for `gmtime_r` in the timestamp printer.
- **parquet-diff** (`parquet_diff.dfy`): the ordered comparison of two
  files: the schema, then the row-group count, then each row group row by row.
- **parquet-to-arrow-slice** (`arrow_slice.dfy`): its own `int` `Range`, parsed
  with `std::stoul`, the bounded-batch seek loop, and the window that
  `readParquet` selects.

Shared definitions live in `common.dfy` (integer widths, bytes, decimal text)
and `wrappers.dfy` (`Option`, `Result`). `parquet_files.dfy` models a Parquet
file as a schema plus a sequence of row groups. Each row group holds one
sequence of `Option` values per column.

Things the program does in place are modelled in place:
- the printers append to a `string` field `out`;
- the readers are classes whose cursors the methods move;
- `readCsv` writes into an `array<byte>` value buffer and `Warnings` and
  builder objects;
- `readColumnChunk` fills `array`s.

Each such method is proved against a pure function. Where the loop is
imperative, the method's `ensures` relates the new state to that function.

Two behaviours of the source worth knowing before reading the contracts:
- parquet-diff exits with 0 or 1 only. `diffColumn` returns 2 for a column
  it does not support (src/parquet-diff.cc:54 and :59), but `diffSchema`
  turns any non-zero result into 1 (src/parquet-diff.cc:75-76), and `diff`
  returns 0 for equivalent files and 1 otherwise (src/parquet-diff.cc:271-275).
  `ParquetDiff.DiffSchema` and `ParquetDiff.Diff` return exactly that.
- The JSON printer writes a control byte without a short escape as `\u` and
  its value in four decimal digits (src/parquet-to-text-stream.cc:549). The
  printer model, and with it `TextStream.StreamParquet`, writes that text;
  the corrected hexadecimal escape is kept beside it for the finding below.

## Model

| member | source | states |
|---|---|---|
| Common.NarrowToInt | src/parquet-to-text-stream.cc:780 | A 64-bit count passed as `int` keeps its value modulo 2^32, and is unchanged below 2^31. |
| Common.NarrowToIntZero | src/parquet-to-text-stream.cc:780 | The narrowed value is 0 iff the count is a multiple of 2^32. |
| Ranges.DefaultRange | src/range.h:18 | The default range runs from 0 to UINT64_MAX and includes every index below UINT64_MAX. |
| Ranges.Size | src/range.h:20-22 | Size is `stop - start` modulo 2^64. For a well-formed range, start plus size is stop. |
| Ranges.Clip | src/range.h:24-26 | Both ends get bounded by max. An end already within bounds is kept. The range only narrows. `start <= stop` is preserved. |
| Ranges.Includes | src/range.h:28-30 | Membership is `start <= i < stop`. |
| Ranges.IncludesMatchesSize | src/range.h:20-30 | In a well-formed range, i is included iff start <= i < start + size. |
| Ranges.ClipIdempotent | src/range.h:24-26 | Clipping twice to the same bound equals clipping once. |
| Ranges.ClipIncludes | src/range.h:24-30 | An index is in the clipped range iff it is in the range and below the bound. |
| Ranges.DefaultClip | src/range.h:18-26 | The default range clipped to n is exactly 0..n, so an omitted window selects everything. |
| RangeParse.FromChars | src/range.cc:9-19 | Models std::from_chars for a uint64. It consumes the longest digit run. No digit gives invalid_argument. More than UINT64_MAX gives result_out_of_range. After an error the target keeps its old value. |
| RangeParse.ParseRange | src/range.cc:5-32 | Models parse_range as written: line 20 re-tests the start number's error code. Every error carries Range(0,0). A success is well formed. |
| RangeParse.ParseRangeOutcomes | src/range.cc:5-32 | It lists every outcome of parse_range as written, in the order it tests them. A start with no digit gives invalid_argument, and a start over UINT64_MAX gives result_out_of_range. A missing dash and trailing text after the stop digits give invalid_argument. A start above the stop value gives result_out_of_range; the stop value is 0 when the stop did not convert. Otherwise the result is the range. |
| RangeParse.ParseRangeChecked | src/range.cc:5-32 | The same parser with the stop number's own error code tested. Every error carries Range(0,0). A success is well formed. |
| RangeParse.ParseRangeCheckedAccepts | src/range.cc:5-31 | The corrected parser succeeds iff the text is digits, a dash and digits, with both numbers in uint64 and in order. It then returns exactly those two numbers. |
| RangeParse.ParseRangeCheckedOutOfOrder | src/range.cc:27-29 | A range text with start > stop gives result_out_of_range with Range(0,0). |
| RangeParse.ParseRangeRoundTrip | src/range.cc:5-31 | Printing a well-formed range as "start-stop" and parsing it gives it back, with both parsers. |
| RangeParse.AgreesWhenAccepted | src/range.cc:18-31 | Whatever the corrected parser accepts, the parser as written returns identically. |
| RangeParse.ParseRangeAgreesWhenStopConverts | src/range.cc:18-22 | The two parsers differ only when the stop number fails to convert. |
| RangeParse.MissingStopAccepted | src/range.cc:18-22 | "0-" is accepted as Range(0,0) by the code as written; the corrected parser refuses it with invalid_argument. |
| RangeParse.MissingStopMisreported | src/range.cc:18-29 | "7-" gives result_out_of_range as written; the corrected parser gives invalid_argument. |
| CivilCalendar.NextDate | src/vendor/gcc/sys_date_to_ymd_string.h:4-7 | The proleptic Gregorian successor. It keeps valid dates valid. |
| CivilCalendar.DaysFromCivilNext | src/vendor/gcc/sys_date_to_ymd_string.h:4-7 | The day number of the next date is one more. This makes DaysFromCivil an independent reference calendar. |
| CivilCalendar.EpochIsDayZero | src/vendor/gcc/sys_date_to_ymd_string.h:4 | 1970-01-01 is day 0 of the reference calendar. |
| CivilCalendar.CivilFromDays | src/vendor/gcc/sys_date_to_ymd_string.h:11-44 | For every integer day, the result is a valid date whose day number is that day. |
| CivilCalendar.DaysFromCivilInjective | src/vendor/gcc/sys_date_to_ymd_string.h:4-7 | Distinct valid dates have distinct day numbers. |
| CivilCalendar.CivilFromDaysRoundTrip | src/vendor/gcc/sys_date_to_ymd_string.h:4-7 | For a valid date, converting its day number back gives the date. |
| CivilCalendar.CivilFromDaysNext | src/vendor/gcc/sys_date_to_ymd_string.h:4-7 | The date of day d+1 is the calendar successor of the date of day d. |
| CivilCalendar.FormatDateShape | src/vendor/gcc/sys_date_to_ymd_string.h:43 | For a valid date in years 0..9999 the `%04d-%02d-%02d` text has exactly 10 characters, with dashes at positions 4 and 7. |
| CivilCalendar.WriteDaySinceEpochAsYyyyMmDd | src/vendor/gcc/sys_date_to_ymd_string.h:11-44 | The routine with its uint32/uint64 arithmetic made explicit. It writes at most 10 characters. |
| CivilCalendar.CenturyStepNoWrap | src/vendor/gcc/sys_date_to_ymd_string.h:19-21 | In the supported range the uint32 century step (multiply, add, divide by 146097) does not wrap: it equals the same step on unbounded integers. |
| CivilCalendar.YearStepNoWrap | src/vendor/gcc/sys_date_to_ymd_string.h:23-27 | The uint32 year-of-century step, with its multiply-and-shift division, equals the same step on unbounded integers. |
| CivilCalendar.MonthStepNoWrap | src/vendor/gcc/sys_date_to_ymd_string.h:29-32 | The uint32 month step (multiply by 2141, shift by 16) equals the same step on unbounded integers. |
| CivilCalendar.JanuaryFlag | src/vendor/gcc/sys_date_to_ymd_string.h:34-41 | `r2 >= 306` holds iff the March-based month is 13 or 14, that is January or February. Then the year goes up by one and 12 comes off the month. |
| CivilCalendar.NeriSchneiderAgrees | src/vendor/gcc/sys_date_to_ymd_string.h:11-44 | In the supported range (-536895458..536846365) the year, month and day the routine computes are those of the reference calendar. |
| CivilCalendar.NeriSchneiderFieldRanges | src/vendor/gcc/sys_date_to_ymd_string.h:29-41 | The printed month is in 1..12 and the printed day in 1..31. |
| CivilCalendar.NeriSchneiderNext | src/vendor/gcc/sys_date_to_ymd_string.h:4-7 | The routine's fields are a valid date, and those for d+1 are the calendar successor of those for d. |
| CivilCalendar.WriteDaySinceEpochIsIsoDate | src/vendor/gcc/sys_date_to_ymd_string.h:43 | For a year in 0..9999 the output is exactly the 10-character YYYY-MM-DD text of the reference date. |
| CivilCalendar.EpochWritten | src/vendor/gcc/sys_date_to_ymd_string.h:4-12 | Day 0 is written as "1970-01-01". |
| ParquetFiles.ColumnValues | src/parquet-to-text-stream.cc:211-284 | A column read across all row groups in order has NumRows entries, each of the column's physical type. |
| ColumnReaders.ToPrintable | src/parquet-to-text-stream.cc:81-108 | For uint32/uint64, static_cast gives the stored signed integer modulo 2^32 or 2^64. Signed kinds keep the value. |
| ColumnReaders.ColumnChunkReader.ReadBatchSpaced | src/parquet-to-text-stream.cc:183-193 | Library stand-in. It reads min(batchSize, remaining) entries, each at its own slot from the offset. A present entry sets its validity flag and stores its value. A null slot's value is left unchanged. |
| ColumnReaders.ColumnChunkReader.Skip | src/parquet-to-text-stream.cc:150 | Library stand-in. It skips min(n, remaining) entries. |
| ColumnReaders.BufferedColumnReader.constructor | src/parquet-to-text-stream.cc:133-140 | A new reader starts with an empty buffer of BATCH_SIZE (30) slots and nothing consumed. |
| ColumnReaders.BufferedColumnReader.SkipRows | src/parquet-to-text-stream.cc:142-152 | It consumes min(k, batchSize - batchCursor) buffered rows and forwards exactly the rest to the chunk reader. Afterwards batchCursor <= batchSize. |
| ColumnReaders.BufferedColumnReader.Next | src/parquet-to-text-stream.cc:159-174 | It returns the next row of the chunk, or none for a null, through the one cursor over validity and values. It increments batchCursor when rows remain buffered. Otherwise it refills first, leaving the cursor at 1. |
| ColumnReaders.BufferedColumnReader.Rebuffer | src/parquet-to-text-stream.cc:177-195 | The cursor goes back to 0. batchSize becomes min(BATCH_SIZE, rows left). |
| ColumnReaders.FileColumnIterator.constructor | src/parquet-to-text-stream.cc:227-237 | After loading row group 0, the entries still to read are the whole column in file order. |
| ColumnReaders.FileColumnIterator.GetName | src/parquet-to-text-stream.cc:239-241 | The name is the schema's name for the column. |
| ColumnReaders.FileColumnIterator.SkipRows | src/parquet-to-text-stream.cc:243-251 | Skipping k rows drops exactly the first k remaining entries, across row-group boundaries. A following Next therefore returns entry k. The row group and cursor it leaves are those of `SkipFrom`. |
| ColumnReaders.FileColumnIterator.SkipRowGroups | src/parquet-to-text-stream.cc:244-248 | The loop of skipRows stops with no more rows left to skip than the loaded row group holds. The entries passed over are exactly those skipped, and the landing of `SkipFrom` is unchanged. |
| ColumnReaders.FileColumnIterator.SkipRowGroup | src/parquet-to-text-stream.cc:244-248 | One pass of the skip loop drops the rest of the loaded row group, loads the next one, and leaves the landing of `SkipFrom` unchanged. |
| ColumnReaders.FileColumnIterator.SkipInRowGroup | src/parquet-to-text-stream.cc:249-250 | Skipping inside the loaded row group drops that many entries. |
| ColumnReaders.FileColumnIterator.Next | src/parquet-to-text-stream.cc:258-267 | It returns the first remaining entry as the printer sees it and drops it. When the loaded row group is used up it moves to cursor 1 of the next one; otherwise the cursor moves on by one. |
| ColumnReaders.FileColumnIterator.CanAdvanceExactly | src/parquet-to-text-stream.cc:259-263 | `CanAdvance`, which `Next` requires, holds exactly when one call of `next` does not trip its assertion (`Trips`). |
| ColumnReaders.SkipFrom | src/parquet-to-text-stream.cc:243-251 | Where `skipRows` leaves the iterator: a row group at or after the loaded one, never past the last. |
| ColumnReaders.SkipLands | src/parquet-to-text-stream.cc:243-251 | When that many rows remain, `skipRows` lands exactly that many rows on, with the cursor inside its row group. Every row group it loaded on the way starts before that row. |
| ColumnReaders.TripsExactly | src/parquet-to-text-stream.cc:259-267 | n calls of `next` trip the assertion iff an empty row group after the loaded one starts at one of the n rows they read. |
| ColumnReaders.FileColumnIterator.LoadNextRowGroup | src/parquet-to-text-stream.cc:270-283 | It moves to the next row group with cursor 0. The remaining entries are the column from that row group on. |
| TextFormats.CsvFieldRoundTrip | src/parquet-to-text-stream.cc:460-489 | A value with no `"`, `,`, CR or LF is written verbatim. Any other value starts with a quote, and quote removal gives back every value. |
| TextFormats.UndoubleDoubleQuotes | src/parquet-to-text-stream.cc:475-486 | Reading doubled quotes back as single ones undoes the doubling. |
| TextFormats.JsonEscapeChar | src/parquet-to-text-stream.cc:537-556 | This is the corrected escape. A byte other than `"`, `\` and a control is copied. Each of those three becomes a backslash escape. |
| TextFormats.JsonEscapeCharAsWritten | src/parquet-to-text-stream.cc:537-556 | This is the switch as written. It agrees with the corrected escape on every byte except the controls without a short name. |
| TextFormats.ControlEscape | src/parquet-to-text-stream.cc:549 | The intended escape: `\u00` followed by two hexadecimal digits, six characters in all. |
| TextFormats.JsonEscapeRoundTrip | src/parquet-to-text-stream.cc:535-556 | A JSON parser's unescaping of the corrected escape gives back every byte. |
| TextFormats.ControlEscapeAsWrittenIsPrintf | src/parquet-to-text-stream.cc:549 | The as-written escape is `\u` followed by printf's `%04hhd` of the byte, its decimal value zero-padded to four places. |
| TextFormats.ReadBackChanges | src/parquet-to-text-stream.cc:549 | The byte a parser reads from the as-written escape differs from the byte iff it is 0x0B or in 0x0E-0x1F. |
| TextFormats.JsonEscapeAsWrittenReadBack | src/parquet-to-text-stream.cc:535-556 | Unescaping the program's JSON text gives one byte per value byte, and byte i reads back as ReadBack of byte i. |
| TextFormats.JsonStringAsWrittenFaithful | src/parquet-to-text-stream.cc:535-556 | The program's escape reads back as the value iff no byte is misprinted. Without a misprinted byte it writes the same text as the corrected escape. |
| TextFormats.JsonStringAsWrittenBody | src/parquet-to-text-stream.cc:535-556 | The program's JSON string is quoted, and its body reads back byte by byte through ReadBack. |
| TextFormats.ControlEscapeAsWrittenMisreads | src/parquet-to-text-stream.cc:549 | As written, byte 0x0B is printed as `\u0011`, which a JSON parser reads as 0x11. The corrected escape gives `\u000b`, which reads back as 0x0B. |
| TextFormats.CDivRem | src/parquet-to-text-stream.cc:369-370 | C's truncating `/` and `%` recombine to the value. The remainder takes the dividend's sign. |
| TextFormats.SplitBy | src/parquet-to-text-stream.cc:369-374 | One case of the switch: seconds times the precision plus the fraction is the value, with 0 <= fraction < the precision. |
| TextFormats.SplitByIsFloor | src/parquet-to-text-stream.cc:367-391 | The adjusted C division is floor division. |
| TextFormats.SplitTimestamp | src/parquet-to-text-stream.cc:367-395 | A split exists iff the precision is 3, 6 or 9; any other precision ends the process. |
| TextFormats.SplitTimestampIsFloor | src/parquet-to-text-stream.cc:367-391 | For n = 3, 6 or 9 the value is seconds * 10^n + fraction with 0 <= fraction < 10^n, which is floor division. |
| TextFormats.StripZeroGroups | src/parquet-to-text-stream.cc:413-416 | The loop drops whole groups of three digits. When digits remain, the last group is not zero. |
| TextFormats.StripZeroGroupsValue | src/parquet-to-text-stream.cc:413-416 | Only zero digits are removed: the stripped fraction times 10^(digits removed) is the original. |
| TextFormats.StripZeroGroupsDigits | src/parquet-to-text-stream.cc:413-416 | A fraction below 10^n still fits its remaining digits. It loses all of them iff it is zero. |
| TextFormats.GmTime | src/parquet-to-text-stream.cc:397-399 | Stands in for gmtime_r. Days, hours, minutes and seconds recombine to the time, with each field in range. |
| TextFormats.TimestampDecomposition | src/parquet-to-text-stream.cc:364-399 | The split second falls on the day and second-of-day that floor division by a day's worth of units finds. |
| TextFormats.TimestampStartsWithDate | src/parquet-to-text-stream.cc:402 | The text always starts with the calendar date of the day containing the instant. |
| TextFormats.TimestampDateOnly | src/parquet-to-text-stream.cc:413-429 | Only the date is printed iff the instant is a midnight: hour, minute, second and fraction all zero. |
| TextFormats.TimestampTimeOfDay | src/parquet-to-text-stream.cc:413-429 | Any other instant prints the date, `T`, HH:MM:SS of the second of day, the stripped fraction (3, 6 or 9 digits when not zero) and `Z`. |
| TextFormats.SplitDateOnly | src/parquet-to-text-stream.cc:417-423 | The same iff, at the level of an already split instant. |
| TextFormats.SplitTimeOfDay | src/parquet-to-text-stream.cc:417-429 | The same time text, at the level of an already split instant. |
| Printers.IntegerTexts | src/parquet-to-text-stream.cc:355-358 | An unsigned column prints the decimal of the stored int32/int64 modulo 2^32 or 2^64. A signed one prints the value itself. |
| Printers.StringCellTexts | src/parquet-to-text-stream.cc:456-489 | A CSV string cell reads back as its value. A null is empty in CSV and `null` in JSON. A JSON string cell is a quoted string whose unescaped body has one byte per value byte, each the byte's ReadBack. That body equals the value iff no byte is misprinted (0x0B, 0x0E-0x1F). Also lines 535-556. |
| Printers.Find | src/parquet-to-text-stream.cc:475-486 | `string_view::find`: the first position from `from` holding the character, or none when no later position does. |
| Printers.Printer.WriteFileHeader | src/parquet-to-text-stream.cc:437 | It appends `[` in JSON and nothing in CSV. Also lines 500-502. |
| Printers.Printer.WriteFileFooter | src/parquet-to-text-stream.cc:438 | It appends `]` in JSON and nothing in CSV. Also lines 503-506. |
| Printers.Printer.WriteRecordStart | src/parquet-to-text-stream.cc:441-443 | CSV starts each record with a newline. JSON opens an object, with a comma before every record but the first. Also lines 508-513. |
| Printers.Printer.WriteRecordStop | src/parquet-to-text-stream.cc:439 | It appends `}` in JSON and nothing in CSV. Also lines 515-517. |
| Printers.Printer.WriteFieldStart | src/parquet-to-text-stream.cc:445-449 | It writes a comma before every field but the first. In JSON that is followed by the name as the program's JSON string (decimal `\u` escapes) and a colon. Also lines 519-525. |
| Printers.Printer.WriteHeaderField | src/parquet-to-text-stream.cc:451-454 | CSV writes the name as a quoted field when needed. JSON writes nothing. Also lines 527-529. |
| Printers.Printer.WriteNull | src/parquet-to-text-stream.cc:456-458 | It appends nothing in CSV and `null` in JSON. Also lines 531-533. |
| Printers.Printer.WriteString | src/parquet-to-text-stream.cc:460-489 | It appends the value quoted for the format: the CSV field, or the JSON string with the escape of line 549 as written. Also lines 316, 535-556. |
| Printers.Printer.WriteCsvString | src/parquet-to-text-stream.cc:460-489 | It appends the CSV field text of the value, which CsvFieldRoundTrip characterises. |
| Printers.Printer.WriteQuoted | src/parquet-to-text-stream.cc:472-488 | The find/copy loop appends an opening quote, the value with each quote doubled, and a closing quote. |
| Printers.Printer.WriteJsonString | src/parquet-to-text-stream.cc:535-556 | The byte loop appends the value quoted, each byte through the switch as written, control bytes without a short name in decimal. JsonEscapeAsWrittenReadBack says what a parser reads back. |
| Printers.Printer.Write | src/parquet-to-text-stream.cc:313-358 | The overload for the value's C++ type appends its text. A string goes through the printer's own escape, decimal `\u` escapes included. |
| Printers.Printer.WriteFloat | src/parquet-to-text-stream.cc:319-353 | A finite value appends the library's shortest text. NaN and the infinities append a null. |
| Printers.Printer.WriteTimestamp | src/parquet-to-text-stream.cc:491-493 | CSV appends the bare ISO-8601 text and JSON a quoted one. It succeeds iff the precision is 3, 6 or 9. Also lines 558-562. |
| Printers.Printer.WriteRawShortIso8601UtcTimestamp | src/parquet-to-text-stream.cc:364-430 | For precision 3, 6 or 9 it appends TimestampText, which the Timestamp* lemmas characterise. Any other precision ends the process before anything is written. |
| Printers.Printer.WriteSplit | src/parquet-to-text-stream.cc:397-429 | Once the instant is split, it appends the date and then the time part. |
| Printers.Printer.WriteDate | src/parquet-to-text-stream.cc:402 | It appends `%04d-%02d-%02d` of the civil date of the day. |
| Printers.Printer.WriteTimeOfDay | src/parquet-to-text-stream.cc:413-429 | It strips the zero groups, then appends the time text only when the time or the fraction is not zero. |
| TextStream.ColumnKind | src/parquet-to-text-stream.cc:641-750 | A reader is chosen iff the column is supported. It is unsigned iff the logical type is INT with is_signed false on INT32/INT64; NONE reads as signed. TIMESTAMP picks the reader of its unit. |
| TextStream.ColumnKinds | src/parquet-to-text-stream.cc:762-768 | On success every selected column has its setup. An error is the first failing column's. |
| TextStream.ColumnKindsMeaning | src/parquet-to-text-stream.cc:762-768 | A reader exists for every selected column iff each column's setup succeeds. |
| TextStream.FirstFailure | src/parquet-to-text-stream.cc:762-768 | The first failing column decides the error of the whole window. |
| TextStream.Rows | src/parquet-to-text-stream.cc:779-786 | The window's rows: row r holds the selected columns' entries of file row rowStart + r. |
| TextStream.Transcriber.PrintNext | src/parquet-to-text-stream.cc:618-628 | It appends the field start with the column's name, then the column's next entry or a null, and consumes that entry. |
| TextStream.Transcriber.PrintValueOrNull | src/parquet-to-text-stream.cc:622-627 | It appends the value's text, or the null text. |
| TextStream.Transcriber.SkipRows | src/parquet-to-text-stream.cc:630-633 | It drops exactly n entries of the column. |
| TextStream.Transcriber.PrintHeaderField | src/parquet-to-text-stream.cc:635-638 | It appends the column's name as a header field. |
| TextStream.MakeTranscriber | src/parquet-to-text-stream.cc:641-651 | It makes a fresh reader of the column, positioned at the first row of the window. Also lines 762-768. |
| TextStream.AddTranscriber | src/parquet-to-text-stream.cc:762-768 | One step of the set-up loop: the next column's transcriber joins the ones built, with its reader disjoint from theirs. |
| TextStream.MakeTranscribers | src/parquet-to-text-stream.cc:762-768 | It stops with the first failing column's error. Otherwise every selected column gets a transcriber at the first row of the window. |
| TextStream.PrintHeader | src/parquet-to-text-stream.cc:771-776 | It appends each column's header field in column order. |
| TextStream.PrintCell | src/parquet-to-text-stream.cc:781-784 | Transcriber k appends its field of the current row and moves to the next row. The other transcribers stay where they are. |
| TextStream.PrintNextRow | src/parquet-to-text-stream.cc:618-628 | One transcriber at row pos appends that row's entry of its column and moves to row pos + 1. |
| TextStream.PrintFields | src/parquet-to-text-stream.cc:781-784 | Every column is called exactly once, in column order, for its field of the row. Afterwards all of them sit at the next row. |
| TextStream.PrintRecord | src/parquet-to-text-stream.cc:779-786 | It appends the record start, every field, and the record stop. The record number reaches writeRecordStart narrowed to `int`. |
| TextStream.RecordSeparator | src/parquet-to-text-stream.cc:508-513 | A JSON record starts with `,{` iff its number in the window is not a multiple of 2^32, and with `{` otherwise. Record 2^32 loses its comma, because `rowIndex - rowRange.start` is narrowed to `int` at line 780. |
| TextStream.PrintNextRecord | src/parquet-to-text-stream.cc:779-786 | One pass of the row loop appends the next record of the window. |
| TextStream.PrintRows | src/parquet-to-text-stream.cc:779-786 | It appends one record per selected row, numbered from 0. |
| TextStream.PrintBody | src/parquet-to-text-stream.cc:771-786 | It appends the header fields, then the records. |
| TextStream.PrintTable | src/parquet-to-text-stream.cc:770-789 | It appends the file header, then the header fields and records only when a column is selected, then the footer. |
| TextStream.PrintSelection | src/parquet-to-text-stream.cc:770-789 | The output is the table text of the selected columns' names and the window's rows. |
| TextStream.StreamParquet | src/parquet-to-text-stream.cc:753-789 | It clips both ranges to the file. When a selected column cannot be read, it returns that column's error with nothing printed. Otherwise it appends exactly the text of the clipped window, as the program writes it: decimal JSON escapes, and record numbers narrowed to `int`. It requires `EnteredGroupsNonEmpty` on the clipped rows: no row group after the first that starts at one of them is empty. |
| TextStream.StreamWindow | src/parquet-to-text-stream.cc:762-789 | With both ranges clipped, it returns the first failing column's error with nothing printed, or appends the table text of the window. |
| TextStream.StreamTripsExactly | src/parquet-to-text-stream.cc:762-786 | `skipRows(rowRange.start)` on a fresh iterator and then one `next` per row trips the assertion exactly when `EnteredGroupsNonEmpty` fails. So the requires of `StreamParquet` excludes only the files where the program's assertion fails. |
| TextStream.AdvanceAllowed | src/parquet-to-text-stream.cc:259-263 | At row pos of the column, when the row group after the first that starts at pos (if any) is not empty, `next`'s assertion holds. |
| ParquetDiff.ColumnDifference | src/parquet-diff.cc:24-64 | There is no report iff name, physical type and logical type agree and the first column has at most one definition level and no repetition. A report names its column. |
| ParquetDiff.ColumnCodeMeaning | src/parquet-diff.cc:24-64 | The code is 1 iff the columns disagree. It is 2 iff they agree but the first uses unsupported levels, and 0 otherwise. |
| ParquetDiff.SchemaDifferenceFirst | src/parquet-diff.cc:73-78 | The report is the first column that differs; every earlier column passes. There is none iff every column passes. |
| ParquetDiff.DiffSchema | src/parquet-diff.cc:67-81 | It checks the column count first, then stops at the first column that differs. The code is 0 for no difference, otherwise 1: a 2 becomes 1. |
| ParquetDiff.ReadColumnChunk | src/parquet-diff.cc:84-110 | It reads batches until nRows rows or an empty batch, so nRead is min(nRows, rows in the chunk) and never exceeds nRows. The validity flags and values of those rows sit at their own positions. |
| ParquetDiff.LoadColumnChunk | src/parquet-diff.cc:175-187 | Buffers cleared and then read from a fresh chunk hold its first nRows rows. |
| ParquetDiff.CellDifferenceFirst | src/parquet-diff.cc:189-220 | The reported row is the smallest where validity differs, or where both are valid and the values are unequal. Rows null on both sides never differ. |
| ParquetDiff.DiffColumnChunkTyped | src/parquet-diff.cc:173-223 | Both chunks are read, then the loop's report equals the first-difference reference. |
| ParquetDiff.DiffColumnChunk | src/parquet-diff.cc:226-243 | For the five handled physical types it runs the typed comparison. Any other type gives an unhandled-type report. |
| ParquetDiff.ChunkDifferenceFirst | src/parquet-diff.cc:260-265 | The column loop reports the first column whose chunks differ. |
| ParquetDiff.DiffRowGroup | src/parquet-diff.cc:246-268 | It compares row counts before any column, then the columns in order, and stops at the first difference. |
| ParquetDiff.GroupDifferenceFirst | src/parquet-diff.cc:294-298 | The report comes from the first row group that differs; every earlier one passes. |
| ParquetDiff.Diff | src/parquet-diff.cc:276-301 | It checks the schema, then the row-group count, then each row group in order. It returns 0 exactly when nothing differs, otherwise 1 with the first difference. |
| ParquetDiff.CellsAgree | src/parquet-diff.cc:189-220 | Two chunks of nRows rows agree row by row iff they are equal. |
| ParquetDiff.GroupPasses | src/parquet-diff.cc:246-268 | A row group passes iff its row counts match and every column is of a handled type with equal chunks. |
| ParquetDiff.NoDifferenceIffEquivalent | src/parquet-diff.cc:276-301 | diff finds no difference iff the files are equivalent by an independent definition: same supported columns, same row groups and row counts, equal cells of handled types. |
| ParquetDiff.SelfDiffIsClean | src/parquet-diff.cc:276-301 | A file of supported, handled columns compared with itself gives 0. |
| ArrowSlice.Stoul | src/parquet-to-arrow-slice.cc:50 | Models std::stoul. It converts the longest digit run after white space and a sign. The characters it consumed end with a digit, and no digit follows them. |
| ArrowSlice.Parse | src/parquet-to-arrow-slice.cc:48-59 | A successful parse has start <= stop. |
| ArrowSlice.ParseNeedsDash | src/parquet-to-arrow-slice.cc:51-53 | Without a `-` right after the first number, parsing throws invalid_argument. |
| ArrowSlice.OutOfOrderRefused | src/parquet-to-arrow-slice.cc:55-57 | start > stop throws invalid_argument. |
| ArrowSlice.ParseDigitStrings | src/parquet-to-arrow-slice.cc:48-59 | "X-Y" followed by any text that does not continue with a digit parses to the ordered pair, or throws invalid_argument when out of order. |
| ArrowSlice.TrailingTextIgnored | src/parquet-to-arrow-slice.cc:54 | Characters after the stop number are not checked: "A-B" plus trailing text still parses as A-B. |
| ArrowSlice.AcceptsWhatParseRangeAccepts | src/parquet-to-arrow-slice.cc:48-59 | Every text the corrected parse_range accepts, with numbers below 2^31, parses here to the same numbers. |
| ArrowSlice.TrailingLetterAccepted | src/parquet-to-arrow-slice.cc:54 | "1-2x" is a slice range although parse_range refuses it: this parser is laxer. |
| ArrowSlice.NegativeStartAccepted | src/parquet-to-arrow-slice.cc:48-59 | "-5-7" is the slice range -5 .. 7. `stoul` accepts a sign and negates modulo 2^64, and `static_cast<int>` keeps the low 32 bits. |
| ArrowSlice.Size | src/parquet-to-arrow-slice.cc:61-63 | start plus size is stop. |
| ArrowSlice.Indices | src/parquet-to-arrow-slice.cc:65-69 | There are size() elements, and element k is start + k. |
| ArrowSlice.IndicesCover | src/parquet-to-arrow-slice.cc:65-69 | x is an index iff start <= x < stop. The indices strictly increase. |
| ArrowSlice.Clip | src/parquet-to-arrow-slice.cc:71-73 | Both ends get bounded by max, the range only narrows, and `start <= stop` is preserved. |
| ArrowSlice.ClipNarrows | src/parquet-to-arrow-slice.cc:71-73 | An index is in the clipped range iff it is in the range and below max. Clipping is idempotent. Also lines 85-86. |
| ArrowSlice.ColumnBatchReader.NextBatch | src/parquet-to-arrow-slice.cc:98 | Library stand-in. It hands out the next min(batchSize, remaining) rows and advances past them. Also line 104. |
| ArrowSlice.SkipRows | src/parquet-to-arrow-slice.cc:96-102 | The seek loop asks for exactly toSkip rows, in batches each of 1 to SKIP_MAX_BATCH_SIZE (10000) rows. Also line 18. |
| ArrowSlice.SliceColumn | src/parquet-to-arrow-slice.cc:104-110 | The Arrow column has the Parquet column's name and the selected rows' cells, in order. |
| ArrowSlice.SliceTable | src/parquet-to-arrow-slice.cc:76-116 | Both ranges are clipped to the file. The table holds the clipped columns start..stop-1 in order, each with the clipped rows, and has clippedRowRange.size() rows. |
| ArrowSlice.WholeFileSlice | src/parquet-to-arrow-slice.cc:85-86 | A window from 0 that reaches past the file selects every column entire. |
| ArrowSlice.ReadColumn | src/parquet-to-arrow-slice.cc:92-111 | A fresh reader skips the rows before the window, then reads the window, which gives that column of the slice. |
| ArrowSlice.ReadSlice | src/parquet-to-arrow-slice.cc:76-116 | readParquet's column loop builds exactly the SliceTable of the two windows. |
| CsvToArrow.SkippedRow | src/csv-to-arrow.cc:55-58 | It counts one more skipped row and changes nothing else. |
| CsvToArrow.SkippedColumn | src/csv-to-arrow.cc:60-63 | nColumnsSkipped becomes the larger of its old value and the new excess. Nothing else changes. |
| CsvToArrow.RepairedValue | src/csv-to-arrow.cc:65-72 | It counts the repair, keeping only the first repair's row and column. Nothing else changes. |
| CsvToArrow.TruncatedValue | src/csv-to-arrow.cc:79-86 | It counts the truncation, keeping only the first truncation's row and column. Nothing else changes. |
| CsvToArrow.PutCell | src/csv-to-arrow.cc:100-108 | The column gets length row + 1. Its old cells are kept, the rows it skipped are null, and the value sits at row. |
| CsvToArrow.WriteCell | src/csv-to-arrow.cc:114-121 | Empty columns are added until `column` exists. Only that column changes. |
| CsvToArrow.Padded | src/csv-to-arrow.cc:149-151 | The cells are kept and nulls added up to n. |
| CsvToArrow.FinishTable | src/csv-to-arrow.cc:128-165 | The row count is column 0's length (0 without columns). Every column gets padded to it, and column j is named "j". |
| CsvToArrow.Kept | src/csv-to-arrow.cc:195 | The bytes written are the first min(length, max_bytes_per_value) of the value. |
| CsvToArrow.Emit | src/csv-to-arrow.cc:186-197 | Only the builders and warnings change. No column grows past the current position. |
| CsvToArrow.Store | src/csv-to-arrow.cc:201-209 | The value grows by the byte. The byte that first goes past the limit counts one truncation. |
| CsvToArrow.EndValue | src/csv-to-arrow.cc:256-260 | After emit, clear and advance-column, the column is one more and the value is empty at VALUE_BEGIN. Also lines 295-299. |
| CsvToArrow.EndRecord | src/csv-to-arrow.cc:269-272 | After emit, clear and advance-row, the row is one more, the column is 0, and the value is empty at VALUE_BEGIN. Also lines 311-314. |
| CsvToArrow.Step | src/csv-to-arrow.cc:228-319 | One byte at the current label keeps the scan consistent: no column has a cell at or after the current position, and a new value starts empty. |
| CsvToArrow.StepKeepsReachable | src/csv-to-arrow.cc:186-319 | Every byte preserves the limit invariant. The builders respect both caps. Column 0 holds one non-null cell per started record below max_rows, and no column is longer. Rows past the cap are counted as skipped. |
| CsvToArrow.RunKeepsReachable | src/csv-to-arrow.cc:228-319 | The invariant holds after any input. |
| CsvToArrow.EmitMeaning | src/csv-to-arrow.cc:186-197 | Below both caps, the cell at (row, column) holds the first min(len, max_bytes_per_value) bytes, the skipped rows are null, and nothing else changes. Past max_rows nothing is written and column 0 alone counts the skipped row. Past max_columns nothing is written and the maximum excess is recorded. |
| CsvToArrow.EndOfInputMeaning | src/csv-to-arrow.cc:236-237 | EOF at VALUE_BEGIN emits nothing. Anywhere else it emits the open value. eofInQuotedValue becomes set iff EOF came inside quotes. Also lines 263-266, 281-285, 302-305, 321-328. |
| CsvToArrow.TableShape | src/csv-to-arrow.cc:128-165 | The table is rectangular, column 0 has no null, and at most max_columns columns exist. numRows is min(records, max_rows), or 0 when max_columns is 0. nRowsSkipped counts the records past max_rows. Also lines 186-197. |
| CsvToArrow.RunAppend | src/csv-to-arrow.cc:228-319 | Reading a then b is reading a, and then b. |
| CsvToArrow.StoreAll | src/csv-to-arrow.cc:201-209 | Storing a text grows the value by it. It counts one truncation exactly when the text crosses the limit. |
| CsvToArrow.QuotedTextKept | src/csv-to-arrow.cc:278-291 | Inside quotes every byte but `"` is stored literally, delimiters, CR and LF included. |
| CsvToArrow.UnquotedTextKept | src/csv-to-arrow.cc:254-276 | Outside quotes every byte but the delimiter, CR and LF is stored. A `"` is an ordinary byte and warns of nothing. |
| CsvToArrow.DoubledQuoteKept | src/csv-to-arrow.cc:278-291 | Inside quotes, `""` stores one `"` and the value stays quoted. Also lines 306-308. |
| CsvToArrow.BlankLinesSkipped | src/csv-to-arrow.cc:238-242 | At the start of a record CR and LF change nothing, so blank lines make no record. |
| CsvToArrow.CrLfIsOneBreak | src/csv-to-arrow.cc:238-246 | Outside quotes, CR LF ends a record exactly as LF alone does. Also lines 267-272, 309-314. |
| CsvToArrow.RepairAfterQuote | src/csv-to-arrow.cc:315-318 | After a closing quote, any other byte is stored and the rest reads as unquoted. nValuesRepaired goes up by one, and only the first repair's coordinates are kept. Also lines 65-72. |
| CsvToArrow.PrintedFieldReadBack | src/csv-to-arrow.cc:228-319 | A field written by the CSV printer of parquet-to-text-stream, then a comma, is read back with `--delimiter=,` as exactly its bytes. |
| CsvToArrow.Warnings.constructor | src/csv-to-arrow.cc:42-53 | All counters start at zero, with no EOF in quotes. |
| CsvToArrow.Warnings.WarnSkippedRow | src/csv-to-arrow.cc:55-58 | The counters become SkippedRow of the old ones. |
| CsvToArrow.Warnings.WarnSkippedColumn | src/csv-to-arrow.cc:60-63 | The counters become SkippedColumn of the old ones. |
| CsvToArrow.Warnings.WarnRepairedValue | src/csv-to-arrow.cc:65-72 | The counters become RepairedValue of the old ones. |
| CsvToArrow.Warnings.WarnEofInQuotedValue | src/csv-to-arrow.cc:74-77 | It sets the flag alone. |
| CsvToArrow.Warnings.WarnTruncatedValue | src/csv-to-arrow.cc:79-86 | The counters become TruncatedValue of the old ones. |
| CsvToArrow.ColumnBuilder.constructor | src/csv-to-arrow.cc:98 | A builder starts empty. |
| CsvToArrow.ColumnBuilder.WriteValue | src/csv-to-arrow.cc:100-108 | The cells become PutCell of the old ones: nulls for the skipped rows, then the value at row. |
| CsvToArrow.TableBuilder.constructor | src/csv-to-arrow.cc:111-112 | It starts with no column. |
| CsvToArrow.TableBuilder.WriteValue | src/csv-to-arrow.cc:114-121 | The builder list grows until `column` exists, then that column alone gets the cell. |
| CsvToArrow.FinishColumn | src/csv-to-arrow.cc:149-159 | It pads one builder with nulls to nRows and hands its cells over. |
| CsvToArrow.TableBuilder.Finish | src/csv-to-arrow.cc:128-165 | The finished table is FinishTable of the columns built. |
| CsvToArrow.EmitValue | src/csv-to-arrow.cc:186-197 | The macro on the real locals does what Emit does to the scan. |
| CsvToArrow.StoreChar | src/csv-to-arrow.cc:201-209 | The macro on the real buffer does what Store does. Only the first max_bytes_per_value bytes are kept in the buffer. |
| CsvToArrow.ValueBeginByte | src/csv-to-arrow.cc:228-252 | The VALUE_BEGIN label on its byte does what Step does. |
| CsvToArrow.UnquotedByte | src/csv-to-arrow.cc:254-276 | The IN_UNQUOTED_VALUE label on its byte does what Step does. |
| CsvToArrow.QuotedByte | src/csv-to-arrow.cc:278-291 | The IN_QUOTED_VALUE label on its byte does what Step does. |
| CsvToArrow.AfterQuoteByte | src/csv-to-arrow.cc:293-319 | The AFTER_QUOTE label on its byte does what Step does. |
| CsvToArrow.ReadByte | src/csv-to-arrow.cc:228-319 | NEXT() and the code at the current label do what Step does. |
| CsvToArrow.EndOfFile | src/csv-to-arrow.cc:236-237 | EOF at the current label does what EndOfInput does. Also lines 263-266, 281-285, 302-305. |
| CsvToArrow.ReadCsv | src/csv-to-arrow.cc:168-329 | The whole machine over the file, then finish, gives exactly the warnings and table of Converted, for every delimiter. The end of input always ends the loop here, which is the corrected half of the 0xFF finding. |
| CsvToArrow.ByteReadsAsDelimiter | src/csv-to-arrow.cc:230 | For a byte of the file, the int comparison against the signed `char` delimiter is IsDelimiter. |
| CsvToArrow.EofReadsAsDelimiter | src/csv-to-arrow.cc:230 | EOF (-1) equals the delimiter iff the delimiter byte is 0xFF. |
| CsvToArrow.EofAsWritten | src/csv-to-arrow.cc:228-237 | One EOF read as the labels test it. Outside quotes, a delimiter match sends the machine back to VALUE_BEGIN one column further on. |
| CsvToArrow.EofNeverEnds | src/csv-to-arrow.cc:228-237 | With delimiter 0xFF and no open quote, any number of EOF reads in a row all take the delimiter branch. The column grows by one each time, and END is never reached. |
| CsvToArrow.EofEndsOtherwise | src/csv-to-arrow.cc:228-237 | An EOF reaches END through EndOfInput, as ReadCsv reads it, iff the delimiter is not 0xFF or the value is quoted. |

## Left out

- Files and processes: `main`, the gflags flags and validators are not modelled. That includes the argument-less `printf` at src/csv-to-arrow.cc:20. Also left out: `fopen`/`fclose`/`perror` and their exits, `printWarnings` and the Arrow IPC writer. These are I/O. Flags become parameters (`CsvToArrow.Options`, the range arguments), and output is an appended string.
- src/common.cc, src/common.h and src/parquet-to-arrow.cc are not part of this model. They hold library plumbing only.
- The tests under tests/ are not modelled. Their expected strings informed the lemmas.
- Concurrency: there is none; the readers run single-threaded.
- Floating point: a float or double is an opaque `FloatRepr`, `Finite(text)` or `NonFinite`. The text of double-conversion's ToShortest is left to the library. String/float equality in parquet-diff is structural equality of the model's values, not IEEE `==`, so NaN and -0.0 are not modelled.
- `gmtime_r`: it is replaced by `TextFormats.GmTime` and the calendar functions, over unbounded integers. `time_t` range limits are not modelled.
- Parquet and Arrow library internals: `ColumnChunkReader`, `ColumnBatchReader` and `ParquetFile` are stand-ins that deliver a column's entries in order. Left out are row-group metadata reading, `dynamic_pointer_cast` itself, StringBuilder memory and Table::Make.
- `TextStream.StreamError.CastFailed` is modelled as the outcome of the `dynamic_pointer_cast` at src/parquet-to-text-stream.cc:274-279. It is produced when the dispatch picks a reader of another physical type than the column's, as for a TIMESTAMP logical type on an INT32 column.
- parquet-diff messages: the printed text is replaced by the `Difference` datatype, which names the check, the row group, the column and the row. `valueToString` is not modelled.
- parquet-diff integer widths: the `int` row counts and row numbers are unbounded here.
- ColumnReaders.FileColumnIterator.Next: it requires `CanAdvance` where the source asserts (src/parquet-to-text-stream.cc:262) that the row group it loads has a row. The model does not follow the program past a failed assertion. `TextStream.StreamParquet` therefore requires `EnteredGroupsNonEmpty` on the clipped rows. `TextStream.StreamTripsExactly` proves that the excluded files are exactly those where the assertion fails. Files with a trailing empty row group, or with an empty row group that `skipRows` passes over, are streamed.
- TextStream.StreamParquet: it requires the selected columns to be flat, with at most one definition level and no repetition. Those are the `assert`s at src/parquet-to-text-stream.cc:735-736 and 138-139. It also requires fewer than 2^31 schema columns, since `num_columns` is an `int`, which keeps every output column index within the `int` of `writeFieldStart` (`StreamInputs`).
- TextStream.StreamParquet: the `int` `currentReaderCursor` and `currentReaderSize` of `FileColumnIterator` (src/parquet-to-text-stream.cc:222-224) are unbounded in the model. A row group of 2^31 rows or more, whose `int64` `num_rows` is narrowed there, is not modelled. The narrowing of the record number passed to `writeRecordStart` is modelled (`TextStream.RecordSeparator`).
- TextStream.StreamParquet: a window that selects columns of a file with no row group fails with `NoRowGroups`. The library would throw there.
- Printers.Printer.WriteTimestamp: an unsupported precision calls `_Exit(1)`. This is modelled as `ok == false` (and `None` in `TextFormats.SplitTimestamp`), with nothing written.
- CivilCalendar.WriteDaySinceEpochIsIsoDate: it holds only for days whose year is in 0..9999 and within the routine's range −536895458..536846365. Beyond that range `uint32` wrap-around makes the fields meaningless. The routine's own output is modelled for every `int32`.
- ArrowSlice.ReadSlice: it requires non-negative range bounds and fewer than 2^31 columns and rows. Negative `int` bounds are not modelled past `ArrowSlice.Parse`. `static_cast<int>` of a large or negated number produces them, as in "-5-7" (`ArrowSlice.NegativeStartAccepted`).
- CsvToArrow.ReadCsv: `char` is taken as signed, so a delimiter byte of 0x80 or more never matches a byte of the file.
- CsvToArrow.ReadCsv: the `int32_t valuePos` is unbounded in the model, so its overflow on values of 2^31 bytes or more is not modelled. The `size_t` row and column counters are unbounded too.
- CsvToArrow.TableBuilder.Finish: the `int nRows` of finish is unbounded (no overflow past 2^31 rows).
- CsvToArrow.ColumnBuilder.WriteValue: it requires rows in increasing order, which readCsv guarantees. An earlier row would make the source ask AppendNulls for a wrapped-around count.
- CsvToArrow.PrintedFieldReadBack: it is proved for the comma delimiter, the one the CSV printer writes.
- ParquetDiff.Diff: it requires well-formed files, where every chunk is as long as its row group and of its column's type. That is what the library hands over.

## Findings

| source | as written | input that shows it | evidently intended | confidence | as-written member | corrected member |
|---|---|---|---|---|---|---|
| src/parquet-to-text-stream.cc:549 | A control byte without a short escape is printed with `\\u%04hhd`, i.e. its value in decimal | byte 0x0B is printed as `\u0011`, which a JSON parser reads as U+0011 | `\u` plus four hexadecimal digits (`\u000b`), so the text parses back to the same byte | high (not executed) | TextFormats.ControlEscapeAsWrittenMisreads | TextFormats.JsonEscapeRoundTrip |
| src/range.cc:20 | After parsing the stop number the code tests `ec` (the start number's error code) instead of `ec2` | "0-" is accepted as Range(0,0); "7-" gives result_out_of_range (stop left at 0) | a stop part that does not convert (no digit, or overflow) is reported with its own error | high (not executed) | RangeParse.MissingStopAccepted | RangeParse.ParseRangeCheckedAccepts |
| src/csv-to-arrow.cc:230 | Outside quotes each label compares the `int` from fgetc with the signed `char` delimiter before testing for EOF | `--delimiter` 0xFF: the `char` is -1, which equals EOF, so at the end of the file every read takes the delimiter branch and END is never reached | EOF ends the input whatever the delimiter | high (not executed) | CsvToArrow.EofNeverEnds | CsvToArrow.ReadCsv |
