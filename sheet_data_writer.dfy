/**
  `SheetDataWriter`: writes the rows of a sheet, one `<row>` element at a time, as the
  `<sheetData>` fragment of a worksheet part, and keeps count of the rows it has flushed.
  The `Writer` it appends to is a string passed in and handed back.
*/
module SheetData {
  import opened JavaText
  import opened Wrappers
  import opened XmlEscape
  import opened CellReference

  /** What `getCachedFormulaResultType` and `getNumericCellValue` tell about a formula's last value. */
  datatype CachedResult =
    | CachedNumeric(number: string, isNaN: bool)
    | CachedOther

  /**
    A cell's value by its `getCellType()`. Numbers are the text Java writes for the `double`;
    an error holds what `FormulaError.forInt(code).getString()` gives; `Unknown` is any other type code.
  */
  datatype CellValue =
    | Blank
    | Formula(formula: JString, cached: CachedResult)
    | Text(text: JString)
    | Numeric(number: string)
    | Boolean(flag: bool)
    | Error(code: string)
    | Unknown(cellType: int)

  datatype Cell = Cell(styleIndex: int, value: CellValue)

  /** What `beginRow` and `writeRow` read from a `StreamRow`; `cells` is `allCellsIterator()`, holes included. */
  datatype Row = Row(
    hasCustomHeight: bool,
    heightInPoints: string,
    zeroHeight: bool,
    isFormatted: bool,
    style: int,
    outlineLevel: int,
    lastCellNum: int,
    cells: seq<Option<Cell>>)

  // ---------------------------------------------------------------------------------------
  // Leading and trailing whitespace

  /** `hasLeadingTrailingSpaces(str)`: the first or the last code unit is Java whitespace. */
  function HasLeadingTrailingSpaces(str: JString): bool {
    if |str| > 0 then IsWhitespace(str[0]) || IsWhitespace(str[|str| - 1]) else false
  }

  function StripLeading(s: JString): (r: JString)
    ensures |r| <= |s|
  {
    if s != [] && IsWhitespace(s[0]) then StripLeading(s[1..]) else s
  }

  function StripTrailing(s: JString): (r: JString)
    ensures |r| <= |s|
  {
    if s != [] && IsWhitespace(s[|s| - 1]) then StripTrailing(s[..|s| - 1]) else s
  }

  /** Java's `String.strip()`: the text without the whitespace at either end. */
  function Strip(s: JString): JString {
    StripTrailing(StripLeading(s))
  }

  /** The text needs `xml:space="preserve"` exactly when stripping it would change it. */
  lemma LeadingTrailingSpacesIffStripChanges(s: JString)
    ensures HasLeadingTrailingSpaces(s) <==> Strip(s) != s
  {
    if s != [] && IsWhitespace(s[0]) {
      assert |StripLeading(s)| < |s|;
    } else if s != [] && IsWhitespace(s[|s| - 1]) {
      assert StripLeading(s) == s;
      assert |StripTrailing(s)| < |s|;
    }
  }

  // ---------------------------------------------------------------------------------------
  // The XML the writer produces

  /** The opening `<row ...>` tag: `r`, then the optional attributes in their fixed order. */
  function RowStart(rownum: nat, row: Row): string {
    "<row r=\"" + NatToDecimal(rownum + 1) + "\""
    + (if row.hasCustomHeight then " customHeight=\"true\"  ht=\"" + row.heightInPoints + "\"" else "")
    + (if row.zeroHeight then " hidden=\"true\"" else "")
    + (if row.isFormatted then " s=\"" + IntToString(row.style) + "\"" + " customFormat=\"1\"" else "")
    + (if row.outlineLevel != 0 then " outlineLevel=\"" + IntToString(row.outlineLevel) + "\"" else "")
    + ">\n"
  }

  const RowEnd := "</row>\n"

  /** `<c r="REF"`, and ` s="idx"` when the style index is not 0. */
  function CellStart(rownum: nat, col: nat, cell: Cell): string {
    "<c r=\"" + FormatAsString(rownum, col) + "\""
    + (if cell.styleIndex != 0 then " s=\"" + IntToString(cell.styleIndex) + "\"" else "")
  }

  function Value(v: string): string {
    "<v>" + v + "</v>"
  }

  /** A formula's cached value is written only when it is a number other than NaN. */
  function CachedValue(cached: CachedResult): string {
    if cached.CachedNumeric? && !cached.isNaN then Value(cached.number) else ""
  }

  /** The `t` attribute of a text cell, preserving its whitespace when it has some at either end. */
  function TextOpen(text: JString): string {
    " t=\"inlineStr\">" + "<is><t" + (if HasLeadingTrailingSpaces(text) then " xml:space=\"preserve\"" else "") + ">"
  }

  /** What follows the cell's attributes, by cell type; `None` for a type the writer rejects. */
  function CellBody(v: CellValue): Option<string> {
    match v
    case Blank => Some(">")
    case Formula(f, cached) => Some(">" + "<f>" + Escape(f) + "</f>" + CachedValue(cached))
    case Text(t) => Some(TextOpen(t) + Escape(t) + "</t></is>")
    case Numeric(n) => Some(" t=\"n\">" + Value(n))
    case Boolean(b) => Some(" t=\"b\">" + Value(if b then "1" else "0"))
    case Error(e) => Some(" t=\"e\">" + Value(e))
    case Unknown(_) => None
  }

  /**
    What writing some cells produces: the text, whether it ran to the end (no cell of an
    unknown type stopped it) and whether a hole was met on the way.
  */
  datatype Emitted = Emitted(text: string, complete: bool, sawNull: bool)

  /** One `writeCell` call: a hole writes nothing; a cell of unknown type stops after its attributes. */
  function CellXml(rownum: nat, col: nat, cell: Option<Cell>): Emitted {
    match cell
    case None => Emitted("", true, true)
    case Some(c) =>
      match CellBody(c.value)
      case None => Emitted(CellStart(rownum, col, c), false, false)
      case Some(body) => Emitted(CellStart(rownum, col, c) + body + "</c>", true, false)
  }

  /** The cells of a row, the `k`-th at column `k`, up to the first that stops the writer. */
  function CellsXml(rownum: nat, cells: seq<Option<Cell>>): Emitted {
    if cells == [] then Emitted("", true, false)
    else
      var p := CellsXml(rownum, cells[..|cells| - 1]);
      if !p.complete then p
      else
        var h := CellXml(rownum, |cells| - 1, cells[|cells| - 1]);
        Emitted(p.text + h.text, h.complete, p.sawNull || h.sawNull)
  }

  /** A whole `<row>` element (cut short after the cell that stopped the writer, if one did). */
  function RowXml(rownum: nat, row: Row): Emitted {
    var cs := CellsXml(rownum, row.cells);
    Emitted(RowStart(rownum, row) + cs.text + (if cs.complete then RowEnd else ""), cs.complete, cs.sawNull)
  }

  // ---------------------------------------------------------------------------------------
  // Properties of the rows written

  /** A stopped run stays stopped: nothing after the failing cell is written. */
  lemma {:induction false} StoppedStaysStopped(rownum: nat, a: seq<Option<Cell>>, b: seq<Option<Cell>>)
    requires !CellsXml(rownum, a).complete
    ensures CellsXml(rownum, a + b) == CellsXml(rownum, a)
    decreases |b|
  {
    if b == [] {
      assert a + b == a;
    } else {
      var ab := a + b;
      assert ab[..|ab| - 1] == a + b[..|b| - 1];
      StoppedStaysStopped(rownum, a, b[..|b| - 1]);
      assert CellsXml(rownum, ab) == CellsXml(rownum, ab[..|ab| - 1]);
    }
  }

  /** The row writer gets to the end exactly when no cell has a type it rejects. */
  lemma {:induction false} CompleteIffKnownTypes(rownum: nat, cells: seq<Option<Cell>>)
    ensures CellsXml(rownum, cells).complete <==>
            forall k :: 0 <= k < |cells| && cells[k].Some? ==> !cells[k].value.value.Unknown?
  {
    if cells != [] {
      var init := cells[..|cells| - 1];
      CompleteIffKnownTypes(rownum, init);
      assert forall k :: 0 <= k < |init| ==> init[k] == cells[k];
    }
  }

  /** A row written to the end reports a hole exactly when there is one. */
  lemma {:induction false} NullCellsReported(rownum: nat, cells: seq<Option<Cell>>)
    requires CellsXml(rownum, cells).complete
    ensures CellsXml(rownum, cells).sawNull <==> exists k :: 0 <= k < |cells| && cells[k].None?
  {
    if cells != [] {
      var init := cells[..|cells| - 1];
      NullCellsReported(rownum, init);
      assert forall k :: 0 <= k < |init| ==> init[k] == cells[k];
    }
  }

  // ---------------------------------------------------------------------------------------
  // The writer

  /** One `writeRow` call as the counters remember it. */
  datatype Flushed = Flushed(rownum: nat, lastCellNum: int)

  /** The `switch` on the cell type in `writeCell`, from the `t` attribute to the end of the value. */
  method WriteCellBody(v: CellValue, out: string) returns (out': string, ok: bool)
    ensures ok == CellBody(v).Some?
    ensures out' == out + (if ok then CellBody(v).value else "")
  {
    match v
    case Blank =>
      out' := out + ">";
      ok := true;
    case Formula(f, cached) =>
      out' := out + ">";
      out' := out' + "<f>";
      out' := OutputQuotedString(f, out');
      out' := out' + "</f>";
      out' := WriteCachedValue(cached, out');
      Assoc5(out, ">", "<f>", Escape(f), "</f>", CachedValue(cached));
      ok := true;
    case Text(t) =>
      out' := WriteTextOpen(t, out);
      out' := OutputQuotedString(t, out');
      out' := out' + "</t></is>";
      Assoc3(out, TextOpen(t), Escape(t), "</t></is>");
      ok := true;
    case Numeric(n) =>
      out' := out + " t=\"n\">";
      out' := out' + Value(n);
      Assoc(out, " t=\"n\">", Value(n));
      ok := true;
    case Boolean(b) =>
      out' := out + " t=\"b\">";
      out' := out' + Value(if b then "1" else "0");
      Assoc(out, " t=\"b\">", Value(if b then "1" else "0"));
      ok := true;
    case Error(e) =>
      out' := out + " t=\"e\">";
      out' := out' + Value(e);
      Assoc(out, " t=\"e\">", Value(e));
      ok := true;
    case Unknown(_) =>
      out' := out;
      ok := false;
  }

  method WriteCachedValue(cached: CachedResult, out: string) returns (out': string)
    ensures out' == out + CachedValue(cached)
  {
    out' := out;
    match cached
    case CachedNumeric(number, isNaN) =>
      if !isNaN {
        out' := out' + Value(number);
      }
    case CachedOther =>
  }

  method WriteTextOpen(t: JString, out: string) returns (out': string)
    ensures out' == out + TextOpen(t)
  {
    var preserve := if HasLeadingTrailingSpaces(t) then " xml:space=\"preserve\"" else "";
    out' := out + " t=\"inlineStr\">";
    out' := out' + "<is><t";
    if HasLeadingTrailingSpaces(t) {
      out' := out' + " xml:space=\"preserve\"";
    }
    out' := out' + ">";
    Assoc4(out, " t=\"inlineStr\">", "<is><t", preserve, ">");
  }

  /** Writing the cells one at a time: the next cell follows a prefix that ran to its end. */
  lemma CellsStep(rownum: nat, cells: seq<Option<Cell>>, k: nat)
    requires k < |cells| && CellsXml(rownum, cells[..k]).complete
    ensures CellsXml(rownum, cells[..k + 1]) ==
            Emitted(CellsXml(rownum, cells[..k]).text + CellXml(rownum, k, cells[k]).text,
                    CellXml(rownum, k, cells[k]).complete,
                    CellsXml(rownum, cells[..k]).sawNull || CellXml(rownum, k, cells[k]).sawNull)
  {
    assert cells[..k + 1][..k] == cells[..k];
  }

  class SheetDataWriter {
    var rownum: nat
    var rowContainedNullCells: bool
    var numberOfFlushedRows: int
    var lowestIndexOfFlushedRows: int
    var numberOfCellsOfLastFlushedRow: int
    /** Every `writeRow` call so far, in order. */
    ghost var history: seq<Flushed>

    /** The counters summarise the history of `writeRow` calls. */
    ghost predicate Valid()
      reads this
    {
      && numberOfFlushedRows == |history|
      && (|history| > 0 ==> lowestIndexOfFlushedRows == history[0].rownum)
      && (|history| > 0 ==> numberOfCellsOfLastFlushedRow == history[|history| - 1].lastCellNum)
    }

    constructor()
      ensures Valid() && history == []
      ensures rownum == 0 && !rowContainedNullCells
    {
      rownum := 0;
      rowContainedNullCells := false;
      numberOfFlushedRows := 0;
      lowestIndexOfFlushedRows := 0;
      numberOfCellsOfLastFlushedRow := 0;
      history := [];
    }

    /** `getNumberOfFlushedRows()`: how many rows have been written. */
    function NumberOfFlushedRows(): (n: int)
      requires Valid()
      reads this
      ensures n == |history|
    {
      numberOfFlushedRows
    }

    /** `getNumberOfCellsOfLastFlushedRow()`: the last cell number of the latest row written. */
    function NumberOfCellsOfLastFlushedRow(): (n: int)
      requires Valid()
      reads this
      ensures |history| > 0 ==> n == history[|history| - 1].lastCellNum
    {
      numberOfCellsOfLastFlushedRow
    }

    /** `getLowestIndexOfFlushedRows()`: the row number of the first row written. */
    function LowestIndexOfFlushedRows(): (n: int)
      requires Valid()
      reads this
      ensures |history| > 0 ==> n == history[0].rownum
    {
      lowestIndexOfFlushedRows
    }

    /** `beginRow`: writes the opening tag and starts a new row with no hole seen. */
    method BeginRow(rownum: nat, row: Row, out: string) returns (out': string)
      modifies this
      ensures out' == out + RowStart(rownum, row)
      ensures this.rownum == rownum && !rowContainedNullCells
      ensures numberOfFlushedRows == old(numberOfFlushedRows)
      ensures lowestIndexOfFlushedRows == old(lowestIndexOfFlushedRows)
      ensures numberOfCellsOfLastFlushedRow == old(numberOfCellsOfLastFlushedRow)
      ensures history == old(history)
    {
      out' := out + ("<row r=\"" + NatToDecimal(rownum + 1) + "\"");
      ghost var w0 := out';
      if row.hasCustomHeight {
        out' := out' + (" customHeight=\"true\"  ht=\"" + row.heightInPoints + "\"");
      }
      ghost var w1 := out';
      assert w1 == w0 + (if row.hasCustomHeight then " customHeight=\"true\"  ht=\"" + row.heightInPoints + "\"" else "");
      if row.zeroHeight {
        out' := out' + " hidden=\"true\"";
      }
      ghost var w2 := out';
      assert w2 == w1 + (if row.zeroHeight then " hidden=\"true\"" else "");
      if row.isFormatted {
        out' := out' + (" s=\"" + IntToString(row.style) + "\"");
        out' := out' + " customFormat=\"1\"";
        Assoc(w2, " s=\"" + IntToString(row.style) + "\"", " customFormat=\"1\"");
      }
      ghost var w3 := out';
      assert w3 == w2 + (if row.isFormatted then " s=\"" + IntToString(row.style) + "\"" + " customFormat=\"1\"" else "");
      if row.outlineLevel != 0 {
        out' := out' + (" outlineLevel=\"" + IntToString(row.outlineLevel) + "\"");
      }
      ghost var w4 := out';
      assert w4 == w3 + (if row.outlineLevel != 0 then " outlineLevel=\"" + IntToString(row.outlineLevel) + "\"" else "");
      out' := out' + ">\n";
      RowStartParts(out, rownum, row, w0, w1, w2, w3, w4, out');
      this.rownum := rownum;
      rowContainedNullCells := false;
    }

    /** `endRow`: closes the row element. */
    method EndRow(out: string) returns (out': string)
      ensures out' == out + RowEnd
    {
      out' := out + "</row>\n";
    }

    /**
      `writeCell(columnIndex, cell, out)`: a hole only marks the row; a cell is written with its
      reference at the current row and `columnIndex`; a cell of unknown type throws (`ok` is
      false) after its attributes have been written.
    */
    method WriteCell(columnIndex: nat, cell: Option<Cell>, out: string) returns (out': string, ok: bool)
      modifies this
      ensures out' == out + CellXml(rownum, columnIndex, cell).text
      ensures ok == CellXml(rownum, columnIndex, cell).complete
      ensures rowContainedNullCells == (old(rowContainedNullCells) || cell.None?)
      ensures rownum == old(rownum) && history == old(history)
      ensures numberOfFlushedRows == old(numberOfFlushedRows)
      ensures lowestIndexOfFlushedRows == old(lowestIndexOfFlushedRows)
      ensures numberOfCellsOfLastFlushedRow == old(numberOfCellsOfLastFlushedRow)
    {
      if cell.None? {
        rowContainedNullCells := true;
        return out, true;
      }
      var c := cell.value;
      var ref := FormatAsString(rownum, columnIndex);
      ghost var style := if c.styleIndex != 0 then " s=\"" + IntToString(c.styleIndex) + "\"" else "";
      out' := out + ("<c r=\"" + ref + "\"");
      if c.styleIndex != 0 {
        out' := out' + (" s=\"" + IntToString(c.styleIndex) + "\"");
      }
      ghost var start := CellStart(rownum, columnIndex, c);
      assert out' == out + start by {
        Assoc(out, "<c r=\"" + ref + "\"", style);
      }
      ghost var started := out';
      out', ok := WriteCellBody(c.value, out');
      if !ok {
        assert CellXml(rownum, columnIndex, cell) == Emitted(start, false, false);
        assert out' == started;
        return;
      }
      ghost var body := CellBody(c.value).value;
      assert out' == started + body;
      out' := out' + "</c>";
      assert CellXml(rownum, columnIndex, cell) == Emitted(start + body + "</c>", true, false);
      assert out' == out + (start + body + "</c>") by {
        Assoc3(out, start, body, "</c>");
      }
    }

    /**
      The loop of `writeRow`: `writeCell(columnIndex++, cells.next(), out)` for every cell the
      iterator yields, holes included, until one throws.
    */
    method WriteCells(cells: seq<Option<Cell>>, out: string) returns (out': string, ok: bool)
      modifies this
      ensures out' == out + CellsXml(rownum, cells).text
      ensures ok == CellsXml(rownum, cells).complete
      ensures rowContainedNullCells == (old(rowContainedNullCells) || CellsXml(rownum, cells).sawNull)
      ensures rownum == old(rownum) && history == old(history)
      ensures numberOfFlushedRows == old(numberOfFlushedRows)
      ensures lowestIndexOfFlushedRows == old(lowestIndexOfFlushedRows)
      ensures numberOfCellsOfLastFlushedRow == old(numberOfCellsOfLastFlushedRow)
    {
      out' := out;
      var columnIndex := 0;
      ghost var emitted := CellsXml(rownum, []);
      assert cells[..0] == [];
      while columnIndex < |cells|
        invariant columnIndex <= |cells|
        invariant rownum == old(rownum) && history == old(history)
        invariant numberOfFlushedRows == old(numberOfFlushedRows)
        invariant lowestIndexOfFlushedRows == old(lowestIndexOfFlushedRows)
        invariant numberOfCellsOfLastFlushedRow == old(numberOfCellsOfLastFlushedRow)
        invariant emitted == CellsXml(rownum, cells[..columnIndex])
        invariant emitted.complete
        invariant out' == out + emitted.text
        invariant rowContainedNullCells == (old(rowContainedNullCells) || emitted.sawNull)
      {
        ghost var h := CellXml(rownum, columnIndex, cells[columnIndex]);
        var written;
        out', written := WriteCell(columnIndex, cells[columnIndex], out');
        ghost var q := CellsXml(rownum, cells[..columnIndex + 1]);
        assert q == Emitted(emitted.text + h.text, h.complete, emitted.sawNull || h.sawNull) by {
          CellsStep(rownum, cells, columnIndex);
        }
        assert out' == out + q.text by {
          Assoc(out, emitted.text, h.text);
        }
        emitted := q;
        columnIndex := columnIndex + 1;
        if !written {
          assert CellsXml(rownum, cells) == q by {
            StoppedStaysStopped(rownum, cells[..columnIndex], cells[columnIndex..]);
            assert cells[..columnIndex] + cells[columnIndex..] == cells;
          }
          return out', false;
        }
      }
      assert cells[..columnIndex] == cells;
      ok := true;
    }

    /**
      `writeRow(rownum, row, out)`: counts the row, then writes `<row>`, its cells at columns
      0, 1, ... (holes included in the count) and `</row>`.
    */
    method WriteRow(rownum: nat, row: Row, out: string) returns (out': string, ok: bool)
      requires Valid()
      modifies this
      ensures Valid()
      ensures history == old(history) + [Flushed(rownum, row.lastCellNum)]
      ensures numberOfFlushedRows == old(numberOfFlushedRows) + 1
      ensures lowestIndexOfFlushedRows == if old(numberOfFlushedRows) == 0 then rownum else old(lowestIndexOfFlushedRows)
      ensures numberOfCellsOfLastFlushedRow == row.lastCellNum
      ensures this.rownum == rownum
      ensures out' == out + RowXml(rownum, row).text
      ensures ok == RowXml(rownum, row).complete
      ensures rowContainedNullCells == RowXml(rownum, row).sawNull
    {
      if numberOfFlushedRows == 0 {
        lowestIndexOfFlushedRows := rownum;
      }
      numberOfCellsOfLastFlushedRow := row.lastCellNum;
      numberOfFlushedRows := numberOfFlushedRows + 1;
      history := history + [Flushed(rownum, row.lastCellNum)];
      out' := BeginRow(rownum, row, out);
      out', ok := WriteCells(row.cells, out');
      if !ok {
        Assoc(out, RowStart(rownum, row), CellsXml(rownum, row.cells).text);
        return;
      }
      out' := EndRow(out');
      Assoc3(out, RowStart(rownum, row), CellsXml(rownum, row.cells).text, RowEnd);
      ok := true;
    }
  }

  lemma RowStartParts(out: string, rownum: nat, row: Row, w0: string, w1: string, w2: string, w3: string, w4: string, w5: string)
    requires w0 == out + ("<row r=\"" + NatToDecimal(rownum + 1) + "\"")
    requires w1 == w0 + (if row.hasCustomHeight then " customHeight=\"true\"  ht=\"" + row.heightInPoints + "\"" else "")
    requires w2 == w1 + (if row.zeroHeight then " hidden=\"true\"" else "")
    requires w3 == w2 + (if row.isFormatted then " s=\"" + IntToString(row.style) + "\"" + " customFormat=\"1\"" else "")
    requires w4 == w3 + (if row.outlineLevel != 0 then " outlineLevel=\"" + IntToString(row.outlineLevel) + "\"" else "")
    requires w5 == w4 + ">\n"
    ensures w5 == out + RowStart(rownum, row)
  {
    var r0 := "<row r=\"" + NatToDecimal(rownum + 1) + "\"";
    var a := if row.hasCustomHeight then " customHeight=\"true\"  ht=\"" + row.heightInPoints + "\"" else "";
    var b := if row.zeroHeight then " hidden=\"true\"" else "";
    var c := if row.isFormatted then " s=\"" + IntToString(row.style) + "\"" + " customFormat=\"1\"" else "";
    var d := if row.outlineLevel != 0 then " outlineLevel=\"" + IntToString(row.outlineLevel) + "\"" else "";
    Assoc5(out, r0, a, b, c, d);
    Assoc(out, r0 + a + b + c + d, ">\n");
  }
}
