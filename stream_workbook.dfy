/**
  The parts of `StreamWorkbook` that turn the saved template workbook into the output:
  the registry pairing each streamed sheet with the template sheet it stands for, the
  lookup of a ZIP entry's template sheet, the loop that copies every entry of the template
  and splices the streamed rows into the worksheet entries, and the check in `write` that a
  row source has been set.
*/
module Workbook {
  import opened JavaText
  import opened Wrappers
  import opened Splicer

  /** A package part name: it starts with `/` (`/xl/worksheets/sheet1.xml`). */
  type PartName = s: string | |s| > 0 && s[0] == '/' witness "/"

  /** A template sheet (`XSSFSheet`): its identity and the name of the package part holding it. */
  datatype XSheet = XSheet(id: nat, partName: PartName)

  /** A streamed sheet (`StreamSheet`), known by its identity. */
  datatype StreamSheet = StreamSheet(id: nat)

  /** A ZIP entry: its name and its contents. */
  datatype Entry = Entry(name: string, content: string)

  /** The row source: the `<row>` chunks of each streamed sheet, in order. */
  type RowSource = StreamSheet -> seq<string>

  /** The name of the ZIP entry holding a sheet: its part name without the leading `/`. */
  function EntryName(x: XSheet): (r: string)
    ensures "/" + r == x.partName
  {
    x.partName[1..]
  }

  /** Entry names tell the template's sheets apart. */
  ghost predicate DistinctEntryNames(sheets: set<XSheet>) {
    forall x, y :: x in sheets && y in sheets && EntryName(x) == EntryName(y) ==> x == y
  }

  /**
    `copyStream(InputStream, OutputStream)`: the input is read in chunks of at most 1024
    units, each written as read, until the end.
  */
  method CopyStream(input: string, out: string) returns (out': string)
    ensures out' == out + input
  {
    out' := out;
    var pos := 0;
    while pos < |input|
      invariant pos <= |input|
      invariant out' == out + input[..pos]
    {
      var count := if |input| - pos < 1024 then |input| - pos else 1024;
      out' := out' + input[pos..pos + count];
      assert input[..pos + count] == input[..pos] + input[pos..pos + count];
      pos := pos + count;
    }
    assert input[..pos] == input;
  }

  class StreamWorkbook {
    /** `_sxFromXHash`: the template sheet of each streamed sheet. */
    var sxFromX: map<StreamSheet, XSheet>
    /** `_xFromSxHash`: the streamed sheet of each template sheet. */
    var xFromSx: map<XSheet, StreamSheet>
    var streamSource: Option<RowSource>

    /** The two maps pair the same sheets, each the inverse of the other. */
    ghost predicate Valid()
      reads this
    {
      && (forall sx :: sx in sxFromX ==> sxFromX[sx] in xFromSx && xFromSx[sxFromX[sx]] == sx)
      && (forall x :: x in xFromSx ==> xFromSx[x] in sxFromX && sxFromX[xFromSx[x]] == x)
    }

    constructor()
      ensures Valid()
      ensures sxFromX == map[] && xFromSx == map[] && streamSource == None
    {
      sxFromX := map[];
      xFromSx := map[];
      streamSource := None;
    }

    /** `getXSSFSheet(sheet)`: the template sheet a streamed sheet stands for, if it is registered. */
    function GetXSSFSheet(sheet: StreamSheet): (r: Option<XSheet>)
      reads this
      ensures r.Some? <==> sheet in sxFromX
      ensures r.Some? ==> r.value in sxFromX.Values
      ensures Valid() && r.Some? ==> r.value in xFromSx && xFromSx[r.value] == sheet
    {
      if sheet in sxFromX then Some(sxFromX[sheet]) else None
    }

    /** `getSXSSFSheet(sheet)`: the streamed sheet of a template sheet, if it is registered. */
    function GetSXSSFSheet(sheet: XSheet): (r: Option<StreamSheet>)
      reads this
      ensures r.Some? <==> sheet in xFromSx
      ensures Valid() && r.Some? ==> r.value in sxFromX && sxFromX[r.value] == sheet
      ensures Valid() && sheet in sxFromX.Values ==> r.Some?
    {
      if sheet in xFromSx then Some(xFromSx[sheet]) else None
    }

    /**
      `registerSheetMapping(sxSheet, xSheet)`: both maps get the new pair. The pairing stays
      one-to-one when neither sheet was registered before, which is how the workbook calls it.
    */
    method RegisterSheetMapping(sxSheet: StreamSheet, xSheet: XSheet)
      modifies this
      ensures sxFromX == old(sxFromX)[sxSheet := xSheet]
      ensures xFromSx == old(xFromSx)[xSheet := sxSheet]
      ensures streamSource == old(streamSource)
      ensures old(Valid()) && sxSheet !in old(sxFromX) && xSheet !in old(xFromSx) ==> Valid()
      ensures GetXSSFSheet(sxSheet) == Some(xSheet) && GetSXSSFSheet(xSheet) == Some(sxSheet)
    {
      sxFromX := sxFromX[sxSheet := xSheet];
      xFromSx := xFromSx[xSheet := sxSheet];
    }

    /**
      `deregisterSheetMapping(xSheet)`: the template sheet and its streamed sheet (when it has
      one) leave both maps.
    */
    method DeregisterSheetMapping(xSheet: XSheet)
      modifies this
      ensures xFromSx == old(xFromSx) - {xSheet}
      ensures sxFromX == if xSheet in old(xFromSx) then old(sxFromX) - {old(xFromSx)[xSheet]} else old(sxFromX)
      ensures streamSource == old(streamSource)
      ensures old(Valid()) ==> Valid() && xSheet !in sxFromX.Values
    {
      var sxSheet := GetSXSSFSheet(xSheet);
      if sxSheet.Some? {
        sxFromX := sxFromX - {sxSheet.value};
      }
      xFromSx := xFromSx - {xSheet};
    }

    /** `setStreamSource(source)`. */
    method SetStreamSource(source: RowSource)
      modifies this
      ensures streamSource == Some(source)
      ensures sxFromX == old(sxFromX) && xFromSx == old(xFromSx)
    {
      streamSource := Some(source);
    }

    /**
      `getSheetFromZipEntryName(sheetRef)`: a registered template sheet whose entry name is
      `sheetRef`, found by a search over the sheets in the map's (unspecified) order, or none.
    */
    method GetSheetFromZipEntryName(sheetRef: string) returns (r: Option<XSheet>)
      ensures r.Some? ==> r.value in sxFromX.Values && EntryName(r.value) == sheetRef
      ensures r.None? ==> forall x :: x in sxFromX.Values ==> EntryName(x) != sheetRef
    {
      var remaining := sxFromX.Values;
      while remaining != {}
        invariant remaining <= sxFromX.Values
        invariant forall x :: x in sxFromX.Values && x !in remaining ==> EntryName(x) != sheetRef
        decreases remaining
      {
        var sheet :| sheet in remaining;
        if sheetRef == EntryName(sheet) {
          return Some(sheet);
        }
        remaining := remaining - {sheet};
      }
      return None;
    }

    /**
      What the patch loop makes of one entry: the same name; for a registered sheet's entry
      the template with that sheet's rows spliced in; any other entry copied unchanged.
    */
    ghost predicate Patched(e: Entry, e': Entry, source: RowSource)
      reads this
    {
      && e'.name == e.name
      && (|| (exists x :: x in sxFromX.Values && EntryName(x) == e.name && x in xFromSx
                          && e'.content == Splice(e.content, source(xFromSx[x])))
          || ((forall x :: x in sxFromX.Values ==> EntryName(x) != e.name) && e'.content == e.content))
    }

    /** One pass of the loop in `injectData` over a template entry. */
    method InjectEntry(e: Entry, source: RowSource) returns (e': Entry)
      requires Valid()
      ensures Patched(e, e', source)
    {
      var xSheet := GetSheetFromZipEntryName(e.name);
      if xSheet.Some? {
        var sxSheet := GetSXSSFSheet(xSheet.value);
        var content := CopyStreamAndInjectWorksheet(e.content, source(sxSheet.value));
        e' := Entry(e.name, content);
      } else {
        var content := CopyStream(e.content, "");
        e' := Entry(e.name, content);
      }
    }

    /**
      `injectData`: every template entry is written, in order and under its own name, its
      contents patched as `Patched` says.
    */
    method InjectData(entries: seq<Entry>, source: RowSource) returns (out: seq<Entry>)
      requires Valid()
      ensures |out| == |entries|
      ensures forall k :: 0 <= k < |entries| ==> Patched(entries[k], out[k], source)
    {
      out := [];
      var k := 0;
      while k < |entries|
        invariant k <= |entries| && |out| == k
        invariant forall j :: 0 <= j < k ==> Patched(entries[j], out[j], source)
      {
        var e' := InjectEntry(entries[k], source);
        out := out + [e'];
        k := k + 1;
      }
    }

    /**
      `write`: without a row source it fails before writing anything; otherwise the saved
      template's entries go through the patch loop.
    */
    method Write(template: seq<Entry>) returns (r: Result<seq<Entry>, string>)
      requires Valid()
      ensures r.Failure? <==> streamSource.None?
      ensures r.Failure? ==> r.error == "StreamSource is not defined"
      ensures r.Success? ==> |r.value| == |template|
      ensures r.Success? ==> forall k :: 0 <= k < |template| ==> Patched(template[k], r.value[k], streamSource.value)
    {
      if streamSource.None? {
        return Failure("StreamSource is not defined");
      }
      var out := InjectData(template, streamSource.value);
      return Success(out);
    }

    /**
      When entry names tell the registered sheets apart, the patch loop's result is
      determined: whatever order the search visits the sheets in, each entry comes out the same.
    */
    lemma PatchedDeterministic(e: Entry, e1: Entry, e2: Entry, source: RowSource)
      requires Valid() && DistinctEntryNames(sxFromX.Values)
      requires Patched(e, e1, source) && Patched(e, e2, source)
      ensures e1 == e2
    {
    }
  }
}
