/**
 * The ExcelWriter class of excelwriter.ts. In the source it extends
 * ExcelReader; here it holds the reader it exports from, and the
 * workbooks it has written stand for the files put on disk.
 */
module Writer {
  import opened Json
  import opened Schema
  import opened Layout
  import opened Reader

  /**
   * The body of createExcelByIndex once the snapshot and the columns are
   * at hand: for each day, the municipalities are walked in order, each
   * checked for ten days and its day record pushed; then the sheet is
   * added. The workbook is only kept once all ten sheets are built.
   */
  method BuildWorkbook(item: Snapshot, cols: seq<string>) returns (r: Export)
    ensures r == ExportSnapshot(item, cols)
  {
    if item.error.Some? {
      return Skipped;
    }
    var munis := Entries(item);
    var sheets: seq<Sheet> := [];
    for i := 0 to DayCount
      invariant |sheets| == i
      invariant forall t :: 0 <= t < i ==> sheets[t] == DaySheet(item, cols, t)
      invariant i > 0 ==> forall k :: 0 <= k < |munis| ==> |munis[k].1| == DayCount
    {
      var objData: seq<Row> := [];
      for k := 0 to |munis|
        invariant |objData| == k
        invariant forall t :: 0 <= t < k ==> |munis[t].1| == DayCount && objData[t] == Object(munis[t].1[i])
      {
        if |munis[k].1| != DayCount {
          assert FirstIncomplete(munis) == Some(k);
          return ExportFailed("Missing day data on " + munis[k].0 + ", " + item.dateCreatedStr);
        }
        objData := objData + [Object(munis[k].1[i])];
      }
      assert objData == seq(|munis|, k requires 0 <= k < |munis| => Object(DayAt(munis[k].1, i)));
      sheets := sheets + [Sheet(SheetName(i), MetaRows(item, cols) + objData)];
    }
    assert FirstIncomplete(munis).None?;
    assert sheets == seq(DayCount, i requires 0 <= i < DayCount => DaySheet(item, cols, i));
    return Exported(Workbook(FileName(item.dateCreatedStr), sheets));
  }

  class ExcelWriter {
    /** The reader whose snapshots and columns are exported. */
    const reader: ExcelReader
    /** The workbooks written so far, in the order they were written. */
    var written: seq<Workbook>

    constructor(reader: ExcelReader)
      ensures this.reader == reader && written == []
    {
      this.reader := reader;
      written := [];
    }

    /**
     * createExcelByIndex: export the snapshot at `idx`. A workbook is
     * written only when the export produces one; every other outcome
     * leaves the written files as they were.
     */
    method CreateExcelByIndex(idx: int) returns (r: Export)
      modifies this`written
      ensures r == ExportItem(reader.GetDataItem(idx), reader.columns)
      ensures written == if r.Exported? then old(written) + [r.book] else old(written)
    {
      var item := reader.GetDataItem(idx);
      if item.None? {
        return NothingToExport;
      }
      if reader.columns.None? {
        return NoColumns;
      }
      r := BuildWorkbook(item.value, reader.columns.value);
      if r.Exported? {
        written := written + [r.book];
      }
    }

    /**
     * exportDataToExcel: createExcelByIndex for every index in order,
     * stopping at the first error; the workbooks written are the run's.
     */
    method ExportDataToExcel() returns (r: Run)
      modifies this`written
      ensures r == ExportAll(reader.data, reader.columns)
      ensures written == old(written) + r.books
    {
      var books: seq<Workbook> := [];
      for i := 0 to |reader.data|
        invariant ExportAll(reader.data[..i], reader.columns) == Run(books, None)
        invariant written == old(written) + books
      {
        var e := CreateExcelByIndex(i);
        assert e == ExportItem(Some(reader.data[i]), reader.columns);
        ExportAllStep(reader.data, i, reader.columns, books, e);
        if e.ExportFailed? {
          return Run(books, Some(e.msg));
        }
        if e.Exported? {
          books := books + [e.book];
        }
      }
      assert reader.data[..|reader.data|] == reader.data;
      r := Run(books, None);
    }
  }
}
