# poi-stream: the worksheet splicer and the row writer, in Dafny

poi-stream writes very large Excel workbooks. The workbook is first saved as a template,
with each sheet's `<sheetData>` element empty. When the workbook is written out,
`StreamWorkbook` copies the template ZIP entry by entry. For each worksheet entry it splices
rows into `<sheetData>`, taking them from a row source and streaming them as they are
produced. `SheetDataWriter` turns rows and cells into those `<row>`/`<c>` fragments: it
escapes cell text, and it counts the rows it has flushed.

This project models that core and proves properties of the model:

- `Splicer` (`sheet_data_splicer.dfy`) is the single-pass matcher of
  `copyStreamAndInjectWorksheet`:
  - `Scan` and `AfterOpenTag` are its specification as a pure state machine;
  - `Splice` is the whole transformation;
  - the method `CopyStreamAndInjectWorksheet` is the Java loop, proved equal to `Splice`.
- `SpliceProperties` (`sheet_data_splice_props.dfy`) proves what `Splice` does on each template
  shape: self-closing, paired, without `<`, a rejected tag, end of input in the middle of a
  match. It also proves that the chunks are always followed by exactly one `</sheetData>`.
- `Workbook` (`stream_workbook.dfy`) holds:
  - the two-map sheet registry as a class whose invariant is that the maps are mutual inverses;
  - the entry-name lookup;
  - the byte copy;
  - the patch loop over ZIP entries;
  - the missing-source check of `write`.
- `XmlEscape` (`xml_escape.dfy`) holds `outputQuotedString` as a loop over `last`/`counter`,
  proved equal to a per-unit map `Escape`. Next to it is a reader for XML character data,
  `Unescape`, with a proof of what a consumer reads back.
- `CellReference` (`cell_reference.dfy`) is the A1 reference a cell is written with, with a
  parser that reads it back.
- `SheetData` (`sheet_data_writer.dfy`) holds the row and cell grammar as functions. Next to them
  is the `SheetDataWriter` class: its counters are tied to a ghost history of `writeRow` calls.
- `JavaText` (`java_text.dfy`) models `char` as a UTF-16 code unit (surrogates included),
  `Integer.toString` with its read-back, `Character.isWhitespace`, and substring search.

Where the code and a natural reading of its intent differ, the model follows the code:

- At end of input the splicer drops a pending partial match of `<sheetData` or `</sheetData>`
  (the loop at StreamWorkbook.java:192 ends with no flush). It also drops the `/` of a
  trailing `<sheetData/`.
- A rejected `<sheetData` followed by any character other than `>` or `/` is echoed with an
  extra `/` (StreamWorkbook.java:240-242).
- Numeric cells carry `t="n"` (SheetDataWriter.java:142).
- A formula's cached number is suppressed only when it is NaN, not when it is infinite
  (SheetDataWriter.java:123).

## Model

| member | source | states |
|---|---|---|
| JavaText.NatToDecimal | src/main/java/excel/streaming/SheetDataWriter.java:79 | the decimal text of a row number is a non-empty run of digits with no leading zero |
| JavaText.DecimalRoundTrip | src/main/java/excel/streaming/SheetDataWriter.java:79 | reading the decimal digits back gives the number written |
| JavaText.IntToStringRoundTrip | src/main/java/excel/streaming/SheetDataWriter.java:85 | `Integer.toString` of any int, negative ones included, reads back as that int |
| Splicer.Scan | src/main/java/excel/streaming/StreamWorkbook.java:186-266 | the scanner stops at or after where it starts and within the input; otherwise definition: match, restart on `<`, mismatch, end of input |
| Splicer.AfterOpenTag | src/main/java/excel/streaming/StreamWorkbook.java:199-245 | the look-ahead stops within the input; otherwise definition: `>`, `/`, `/>`, end of input and any other character |
| Splicer.Splice | src/main/java/excel/streaming/StreamWorkbook.java:183-281 | definition: scanned text, the start tag when needed, the chunks, `</sheetData>` and the unread rest |
| Splicer.ScanOnMatch | src/main/java/excel/streaming/StreamWorkbook.java:194-197 | a character continuing the literal, short of its end, only advances `pos` |
| Splicer.ScanOnRestart | src/main/java/excel/streaming/StreamWorkbook.java:255-259 | on a mismatch with a `<`, the held `s[0..pos)` is written and matching restarts at `pos = 1` |
| Splicer.ScanOnMismatch | src/main/java/excel/streaming/StreamWorkbook.java:255-264 | on any other mismatch, the held characters and the current one are written and `pos` is 0 |
| Splicer.ScanAtEnd | src/main/java/excel/streaming/StreamWorkbook.java:192 | at end of input nothing held is written, and the start tag is still needed unless `<sheetData>` was seen |
| Splicer.ScanAtFullClose | src/main/java/excel/streaming/StreamWorkbook.java:246-250 | a complete `</sheetData>` stops the copy without writing it |
| Splicer.ScanAtFullOpen | src/main/java/excel/streaming/StreamWorkbook.java:197-199 | a complete `<sheetData` moves on to the character after it |
| Splicer.AfterOpenGt | src/main/java/excel/streaming/StreamWorkbook.java:207-216 | `<sheetData>` is written, the target becomes `</sheetData>`, and no start tag will be synthesized |
| Splicer.AfterOpenSlash | src/main/java/excel/streaming/StreamWorkbook.java:218-237 | `<sheetData/` followed by a non-`>` is written as `<sheetData/` and that character; matching restarts |
| Splicer.AfterOpenOther | src/main/java/excel/streaming/StreamWorkbook.java:240-244 | `<sheetData` followed by another character is written with an extra `/` before it |
| Splicer.CopyChunks | src/main/java/excel/streaming/StreamWorkbook.java:167-175 | the output gains every chunk of the row stream, verbatim and in order |
| Splicer.CopyRest | src/main/java/excel/streaming/StreamWorkbook.java:277-280 | the output gains the unread rest of the template, verbatim |
| Splicer.ReadAfterOpenTag | src/main/java/excel/streaming/StreamWorkbook.java:199-245 | the look-ahead after `<sheetData` writes and consumes what `AfterOpenTag` says, and either stops the copy or resumes scanning in the phase it names |
| Splicer.ReadAfterSlash | src/main/java/excel/streaming/StreamWorkbook.java:218-237 | after `<sheetData/`, end of input writes `<sheetData` without the `/`, `>` stops with nothing written, and any other character is echoed after `<sheetData/` before scanning resumes |
| Splicer.WriteOnMismatch | src/main/java/excel/streaming/StreamWorkbook.java:253-265 | the mismatch branch writes what the scanner says and leaves `pos` inside the literal |
| Splicer.CopyUpToSheetDataEnd | src/main/java/excel/streaming/StreamWorkbook.java:186-266 | the copying loop writes exactly what `Scan` emits, stops where it stops, and ends with `needsStartTag` as `Scan` says |
| Splicer.CopyStreamAndInjectWorksheet | src/main/java/excel/streaming/StreamWorkbook.java:183-281 | the whole splice writes exactly `Splice(input, chunks)` |
| SpliceProperties.LtOnlyAtStart | src/main/java/excel/streaming/StreamWorkbook.java:256 | `<` occurs in `<sheetData` and `</sheetData>` only at index 0, the fact the one-character restart relies on |
| SpliceProperties.ScanPassesOver | src/main/java/excel/streaming/StreamWorkbook.java:192-266 | over text not completing the target, the scanner writes the text read, less what it still holds, and holds a prefix of the target |
| SpliceProperties.ScanToFirst | src/main/java/excel/streaming/StreamWorkbook.java:192-266 | scanning from a position up to the first occurrence of the target writes the text in between verbatim and then goes on as after a completed match |
| SpliceProperties.SpliceSelfClosing | src/main/java/excel/streaming/StreamWorkbook.java:218-230 | `pre<sheetData/>post` becomes `pre<sheetData>\n`, the chunks, `</sheetData>` and `post`; the `/>` is not echoed |
| SpliceProperties.SplicePaired | src/main/java/excel/streaming/StreamWorkbook.java:207-249 | `pre<sheetData>inner</sheetData>post` becomes `pre<sheetData>inner`, the chunks, one `</sheetData>` and `post` |
| SpliceProperties.SpliceWithoutLt | src/main/java/excel/streaming/StreamWorkbook.java:192-280 | a template with no `<` is copied whole and followed by `<sheetData>\n`, the chunks and `</sheetData>` |
| SpliceProperties.SpliceWithoutOpenTag | src/main/java/excel/streaming/StreamWorkbook.java:253-270 | a template with no `<sheetData` is copied up to its longest end that begins `<sheetData`, which is dropped, and followed by the synthesized element |
| SpliceProperties.ScanToEnd | src/main/java/excel/streaming/StreamWorkbook.java:192-266 | scanning to end of input without completing the target writes the text read less a held prefix of the target, and no longer end of the text is a prefix of the target |
| SpliceProperties.SpliceEofInPartialOpenTag | src/main/java/excel/streaming/StreamWorkbook.java:192-270 | end of input inside `<sheetData` drops the held characters and still synthesizes the element |
| SpliceProperties.SpliceEofInPartialCloseTag | src/main/java/excel/streaming/StreamWorkbook.java:192-266 | end of input inside `</sheetData>` drops the held characters; the chunks and one `</sheetData>` follow the inner text |
| SpliceProperties.SpliceEofAfterOpenTag | src/main/java/excel/streaming/StreamWorkbook.java:201-205 | end of input right after `<sheetData` writes the literal, then `<sheetData>\n`, the chunks and `</sheetData>` |
| SpliceProperties.SpliceEofAfterSlash | src/main/java/excel/streaming/StreamWorkbook.java:221-226 | end of input right after `<sheetData/` writes `<sheetData` without the `/`, then the synthesized element |
| SpliceProperties.SpliceRejectedOpenTag | src/main/java/excel/streaming/StreamWorkbook.java:240-244 | `<sheetData` followed by a character other than `>` and `/` is echoed as `<sheetData/` and that character, and the rest is spliced afresh |
| SpliceProperties.SpliceRejectedSelfClose | src/main/java/excel/streaming/StreamWorkbook.java:233-237 | `<sheetData/` followed by a non-`>` is echoed as `<sheetData/` and that character, and the rest is spliced afresh |
| SpliceProperties.OpenedMeansWritten | src/main/java/excel/streaming/StreamWorkbook.java:207-215 | whenever no start tag is synthesized, the template's own `<sheetData>` was written |
| SpliceProperties.SpliceFrame | src/main/java/excel/streaming/StreamWorkbook.java:268-279 | on every template, the output is a head containing `<sheetData>`, the chunks verbatim and in order, exactly one `</sheetData>`, and a suffix of the template; head and tail do not depend on the chunks |
| Workbook.EntryName | src/main/java/excel/streaming/StreamWorkbook.java:124 | an entry name is the sheet's part name without its leading `/` |
| Workbook.CopyStream | src/main/java/excel/streaming/StreamWorkbook.java:176-182 | the output gains the whole input, read in chunks of at most 1024 |
| Workbook.StreamWorkbook.constructor | src/main/java/excel/streaming/StreamWorkbook.java:46-49 | a new workbook has empty, mutually inverse maps and no row source |
| Workbook.StreamWorkbook.GetXSSFSheet | src/main/java/excel/streaming/StreamWorkbook.java:97-101 | a registered streamed sheet has a template sheet, and under the invariant that sheet maps back to it |
| Workbook.StreamWorkbook.GetSXSSFSheet | src/main/java/excel/streaming/StreamWorkbook.java:103-107 | a registered template sheet has a streamed sheet that maps back to it, and every template sheet in the registry has one |
| Workbook.StreamWorkbook.RegisterSheetMapping | src/main/java/excel/streaming/StreamWorkbook.java:109-113 | both maps gain the pair, and the maps stay inverse when neither sheet was registered |
| Workbook.StreamWorkbook.DeregisterSheetMapping | src/main/java/excel/streaming/StreamWorkbook.java:114-119 | the template sheet and its streamed sheet leave both maps, and the maps stay inverse |
| Workbook.StreamWorkbook.SetStreamSource | src/main/java/excel/streaming/StreamWorkbook.java:602-604 | the row source is set and the registry is unchanged |
| Workbook.StreamWorkbook.GetSheetFromZipEntryName | src/main/java/excel/streaming/StreamWorkbook.java:120-127 | a found sheet is registered and has that entry name; none is found only when no registered sheet has it |
| Workbook.StreamWorkbook.InjectEntry | src/main/java/excel/streaming/StreamWorkbook.java:141-154 | one entry keeps its name; a registered sheet's entry gets that sheet's rows spliced in, and any other entry is copied unchanged |
| Workbook.StreamWorkbook.InjectData | src/main/java/excel/streaming/StreamWorkbook.java:128-166 | every template entry is written once, in input order, patched as above |
| Workbook.StreamWorkbook.Write | src/main/java/excel/streaming/StreamWorkbook.java:611-638 | it fails with "StreamSource is not defined" exactly when no row source is set, and otherwise yields the patched entries |
| Workbook.StreamWorkbook.PatchedDeterministic | src/main/java/excel/streaming/StreamWorkbook.java:120-127 | when entry names tell the sheets apart, the map's iteration order cannot change any entry's output |
| XmlEscape.EscapeChar | src/main/java/excel/streaming/SheetDataWriter.java:190-265 | definition: the `switch` case by case; its properties are in `EscapeCharShape` |
| XmlEscape.EscapeCharShape | src/main/java/excel/streaming/SheetDataWriter.java:189-265 | each code unit becomes non-empty text in U+0020..U+007F without `<`, `>` or `"`; a verbatim unit is written as itself, any other as a reference or `?` |
| XmlEscape.EscapeSafe | src/main/java/excel/streaming/SheetDataWriter.java:180-270 | the escaped text is in U+0020..U+007F without `<`, `>` or `"`, and is at least as long as the input |
| XmlEscape.EscapeAppend | src/main/java/excel/streaming/SheetDataWriter.java:188-265 | escaping is a per-unit map: the escape of a concatenation is the concatenation of the escapes |
| XmlEscape.VerbatimIsEscape | src/main/java/excel/streaming/SheetDataWriter.java:192-194 | writing a run of verbatim units in bulk writes what escaping them one by one writes |
| XmlEscape.Flush | src/main/java/excel/streaming/SheetDataWriter.java:192-194 | the pending run, empty or not, is written in bulk |
| XmlEscape.Replace | src/main/java/excel/streaming/SheetDataWriter.java:191-197 | one replacing `case` extends the output to the escape of the input up to and including the current unit |
| XmlEscape.Replacement | src/main/java/excel/streaming/SheetDataWriter.java:189-265 | the `switch` replaces exactly the units that are not verbatim, each by its escape |
| XmlEscape.OutputQuotedString | src/main/java/excel/streaming/SheetDataWriter.java:180-270 | the bulk-copying loop writes exactly `Escape(s)`, and nothing for empty input |
| XmlEscape.UnescapeChar | src/main/java/excel/streaming/SheetDataWriter.java:189-265 | an XML reader turns the escape of one unit back into that unit, with CR as LF and replaced units as `?`, whatever follows |
| XmlEscape.UnescapeEscape | src/main/java/excel/streaming/SheetDataWriter.java:180-270 | reading escaped text gives back every unit, except that CR reads as LF and the replaced units read as `?` |
| XmlEscape.EscapeRoundTrip | src/main/java/excel/streaming/SheetDataWriter.java:180-270 | text with no CR and nothing replaced reads back exactly |
| CellReference.ColumnLetters | src/main/java/excel/streaming/SheetDataWriter.java:105 | the column letters are a non-empty run of `A`..`Z` |
| CellReference.FormatAsString | src/main/java/excel/streaming/SheetDataWriter.java:105 | definition: column letters then the 1-based row number; read back by `ReferenceRoundTrip` |
| CellReference.ColumnLettersValue | src/main/java/excel/streaming/SheetDataWriter.java:105 | the column letters have the bijective base-26 value of the column plus one |
| CellReference.ReferenceRoundTrip | src/main/java/excel/streaming/SheetDataWriter.java:105 | a cell's reference parses back as its row and column |
| CellReference.ReferenceInjective | src/main/java/excel/streaming/SheetDataWriter.java:105 | different cells get different references |
| SheetData.HasLeadingTrailingSpaces | src/main/java/excel/streaming/SheetDataWriter.java:170-177 | definition: the first or last unit is whitespace, false for the empty string; characterized by `LeadingTrailingSpacesIffStripChanges` |
| SheetData.RowStart | src/main/java/excel/streaming/SheetDataWriter.java:78-91 | definition: the `<row` tag `BeginRow` is proved to write |
| SheetData.CellBody | src/main/java/excel/streaming/SheetDataWriter.java:109-161 | definition: the body of each cell type, `None` for an unknown type; `WriteCellBody` is proved to write it |
| SheetData.CellXml | src/main/java/excel/streaming/SheetDataWriter.java:100-163 | definition: what one `writeCell` call writes; `WriteCell` is proved to write it |
| SheetData.CellsXml | src/main/java/excel/streaming/SheetDataWriter.java:70-74 | definition: the cells at consecutive columns up to the first that stops the writer; `WriteCells` is proved to write it |
| SheetData.RowXml | src/main/java/excel/streaming/SheetDataWriter.java:64-76 | definition: the row start, the cells and `</row>` when no cell stopped the writer; `WriteRow` is proved to write it |
| SheetData.LeadingTrailingSpacesIffStripChanges | src/main/java/excel/streaming/SheetDataWriter.java:170-177 | the check holds exactly when stripping whitespace from both ends changes the text, so it is false for the empty string |
| SheetData.StoppedStaysStopped | src/main/java/excel/streaming/SheetDataWriter.java:158-160 | after a cell of unknown type throws, no later cell is written |
| SheetData.CompleteIffKnownTypes | src/main/java/excel/streaming/SheetDataWriter.java:110-160 | a row is written to the end exactly when none of its cells has an unknown type |
| SheetData.NullCellsReported | src/main/java/excel/streaming/SheetDataWriter.java:101-104 | after a complete row, the null-cell flag is set exactly when the row has a hole |
| SheetData.WriteCellBody | src/main/java/excel/streaming/SheetDataWriter.java:109-161 | the type switch writes the body `CellBody` gives the value, and fails only on an unknown type |
| SheetData.WriteCachedValue | src/main/java/excel/streaming/SheetDataWriter.java:120-127 | writes a formula's cached value only when it is a number other than NaN |
| SheetData.WriteTextOpen | src/main/java/excel/streaming/SheetDataWriter.java:131-136 | writes `t="inlineStr"`, `<is><t`, `xml:space="preserve"` exactly when the text has leading or trailing whitespace, and `>` |
| SheetData.SheetDataWriter.constructor | src/main/java/excel/streaming/SheetDataWriter.java:37-44 | a new writer has no history and its counters are consistent with it |
| SheetData.SheetDataWriter.NumberOfFlushedRows | src/main/java/excel/streaming/SheetDataWriter.java:46-48 | the count is the number of `writeRow` calls so far |
| SheetData.SheetDataWriter.NumberOfCellsOfLastFlushedRow | src/main/java/excel/streaming/SheetDataWriter.java:50-52 | once a row was written, the value is that last row's last cell number |
| SheetData.SheetDataWriter.LowestIndexOfFlushedRows | src/main/java/excel/streaming/SheetDataWriter.java:54-56 | once a row was written, the value is the first row's number |
| SheetData.SheetDataWriter.BeginRow | src/main/java/excel/streaming/SheetDataWriter.java:78-94 | writes `<row r="rownum+1"` with its optional attributes in their fixed order and `>\n`, stores the row number and clears the null-cell flag |
| SheetData.SheetDataWriter.EndRow | src/main/java/excel/streaming/SheetDataWriter.java:96-98 | writes `</row>\n` |
| SheetData.SheetDataWriter.WriteCell | src/main/java/excel/streaming/SheetDataWriter.java:100-163 | a hole writes nothing and sets the null-cell flag; a cell is written as `<c r="REF"`, an `s` attribute only for a nonzero style, its body and `</c>` |
| SheetData.SheetDataWriter.WriteCells | src/main/java/excel/streaming/SheetDataWriter.java:70-74 | the cell loop writes the cells at consecutive columns as `CellsXml` says, stops at the first cell of unknown type, and reports null cells |
| SheetData.SheetDataWriter.WriteRow | src/main/java/excel/streaming/SheetDataWriter.java:64-76 | the flushed-row count grows by one; the lowest index is set on the first call only; the last cell number is recorded; the row is written with its `k`-th cell at column `k` |

## Left out

- ZIP, temporary files and encodings. Entries are modelled as a name and a text. The UTF-8
  reader and writer, `ZipFile`/`ZipOutputStream`, and the saving of the template workbook are
  not modelled. A non-worksheet entry's bytes are its text here; they are copied unchanged
  either way.
- Workbook.CopyStream: `InputStream.read` may return fewer than 1024 bytes; the model always
  reads `min(1024, rest)`. What is written is the whole input either way.
- Java `Stream` and `Function` plumbing. The row source is a total function from a streamed
  sheet to its sequence of chunks. The `RuntimeException` wrapping of a write failure is not
  modelled.
- I/O failures of the `Writer` and of the streams are not modelled.
- Workbook.StreamWorkbook.InjectData requires the registry invariant. Without it a found
  template sheet may have no streamed sheet; the source would then pass `null` to the row
  source. The workbook's own callers never re-register an already registered sheet, so the
  invariant holds for them.
- Workbook.StreamWorkbook.RegisterSheetMapping promises the invariant only for sheets that
  were not yet registered. Re-registering overwrites one map entry in each map and can leave
  them out of step, as the source's `HashMap.put` calls would.
- The workbook pass-through methods that delegate to `XSSFWorkbook`, and the constructors'
  sheet creation, are not modelled.
- Floating point. Row heights and cell numbers are the text Java's `double` to `String`
  conversion produces, taken as given. NaN is a flag on a formula's cached value.
- `FormulaError.forInt(code).getString()` is not modelled: an error cell holds the error's text.
  `CellStyle.getIndex()` is the cell's style index. The `StreamRow` accessors are the fields of
  `Row`.
- `CellReference.formatAsString` is not among the shown sources. It is modelled as the usual
  A1 form: bijective base-26 column letters, then the 1-based row number. Row numbers are
  non-negative.
- `Character.isWhitespace` is defined as the Java library documents it, for Unicode 6.3
  and later, where U+180E is not whitespace.
- 32-bit `int` wrap-around of `rownum + 1` (SheetDataWriter.java:79) and of the flushed-row
  counter is not modelled: integers are unbounded.
- A `null` string is not modelled. Cell texts and formulas are strings, and the empty string
  stands for the source's `null`/empty case of `hasLeadingTrailingSpaces` and
  `outputQuotedString`.
- The splicer is split into helper methods (`ReadAfterOpenTag`, `WriteOnMismatch`,
  `CopyUpToSheetDataEnd`, `CopyRest`) along the branches of the one Java method. The reads and
  writes happen in the same order.
