/**
 * What createExcelByIndex and exportDataToExcel of excelwriter.ts
 * produce, as values: a workbook per snapshot, ten sheets per workbook
 * (one per forecast day), and the rows handed to the spreadsheet library
 * for each sheet. Where the library puts each row's cells is not modelled.
 */
module Layout {
  import opened Json
  import opened Text
  import opened Schema

  /**
   * A row given to the spreadsheet library: a list of cells (the metadata
   * block and the header row), or a record laid out under the header.
   */
  datatype Row = Cells(cells: seq<Value>) | Object(record: Record)

  datatype Sheet = Sheet(name: string, rows: seq<Row>)

  datatype Workbook = Workbook(fileName: string, sheets: seq<Sheet>)

  /**
   * What exporting one snapshot gives: nothing at that index, no column
   * order, a snapshot skipped for its parse error, an error, or a workbook.
   */
  datatype Export =
    | NothingToExport
    | NoColumns
    | Skipped
    | ExportFailed(msg: string)
    | Exported(book: Workbook)

  /** The number of forecast days, hence of sheets and of records per municipality. */
  const DayCount := 10

  /** The number of rows above the data rows: four metadata rows, a blank row, the header. */
  const HeadRows := 6

  /** The workbook's file name: the creation time with every `/` turned into `-`, then `.xlsx`. */
  function FileName(dateCreated: string): (r: string)
    ensures |r| == |dateCreated| + 5 && EndsWith(r, ".xlsx")
    ensures '/' !in r
    ensures forall i :: 0 <= i < |dateCreated| && dateCreated[i] != '/' ==> r[i] == dateCreated[i]
    ensures forall i :: 0 <= i < |dateCreated| ==> r[i] == if dateCreated[i] == '/' then '-' else dateCreated[i]
    ensures r[|dateCreated|..] == ".xlsx"
  {
    var r := ReplaceSlashes(dateCreated) + ".xlsx";
    assert r[|r| - 5..] == ".xlsx";
    r
  }

  /** The name of the sheet for day `i` (counted from 0): "Day 1" to "Day 10". */
  function SheetName(i: nat): (r: string)
    ensures |r| > 4 && r[..4] == "Day "
  {
    "Day " + Decimal(i + 1)
  }

  /** The sheets of a workbook, in order, are named "Day 1" to "Day 10". */
  lemma SheetNamesListed()
    ensures seq(DayCount, i requires 0 <= i < DayCount => SheetName(i))
      == ["Day 1", "Day 2", "Day 3", "Day 4", "Day 5", "Day 6", "Day 7", "Day 8", "Day 9", "Day 10"]
  {
    var names := seq(DayCount, i requires 0 <= i < DayCount => SheetName(i));
    var listed := ["Day 1", "Day 2", "Day 3", "Day 4", "Day 5", "Day 6", "Day 7", "Day 8", "Day 9", "Day 10"];
    forall i | 0 <= i < 9 ensures names[i] == listed[i] {
      assert Decimal(i + 1) == [Digit(i + 1)];
    }
    assert Decimal(10) == Decimal(1) + [Digit(0)] == "10";
    assert names[9] == listed[9];
  }

  /** The ten sheet names are pairwise different. */
  lemma SheetNamesDistinct(i: nat, j: nat)
    requires i != j
    ensures SheetName(i) != SheetName(j)
  {
    if SheetName(i) == SheetName(j) {
      assert Decimal(i + 1) == SheetName(i)[4..] == SheetName(j)[4..] == Decimal(j + 1);
      DecimalInjective(i + 1, j + 1);
    }
  }

  /** A nullable string cell: empty when null. */
  function OptionalCell(s: Option<string>): Value {
    match s
    case Some(v) => Str(v)
    case None => Null
  }

  /** The text of a row of cells, reading every cell that is not a string as empty. */
  function CellTexts(cells: seq<Value>): (r: seq<string>)
    ensures |r| == |cells|
  {
    seq(|cells|, k requires 0 <= k < |cells| => if cells[k].Str? then cells[k].s else "")
  }

  /**
   * The rows every sheet of a snapshot starts with. Read back: labels in
   * the first column of rows 0 to 3 and the snapshot's creation time,
   * validity range, forecast date (empty when absent) and id beside them,
   * a blank row, then the header row naming the columns in order.
   */
  function MetaRows(item: Snapshot, cols: seq<string>): (r: seq<Row>)
    ensures |r| == HeadRows
    ensures forall n :: 0 <= n < 4 ==> r[n].Cells? && |r[n].cells| == 2
    ensures r[0].cells[0] == Str("Date Created") && r[0].cells[1] == Str(item.dateCreatedStr)
    ensures r[1].cells[0] == Str("Valid until") && r[1].cells[1] == (if item.dateRange.Some? then Str(item.dateRange.value) else Null)
    ensures r[2].cells[0] == Str("Forecast Date") && r[2].cells[1] == (if item.dateForecast.Some? then Str(item.dateForecast.value) else Null)
    ensures r[3].cells[0] == Str("ID") && r[3].cells[1] == Str(item.id)
    ensures r[4] == Cells([])
    ensures r[5].Cells? && (forall k :: 0 <= k < |r[5].cells| ==> r[5].cells[k].Str?) && CellTexts(r[5].cells) == cols
  {
    [ Cells([Str("Date Created"), Str(item.dateCreatedStr)]),
      Cells([Str("Valid until"), OptionalCell(item.dateRange)]),
      Cells([Str("Forecast Date"), OptionalCell(item.dateForecast)]),
      Cells([Str("ID"), Str(item.id)]),
      Cells([]),
      Cells(seq(|cols|, k requires 0 <= k < |cols| => Str(cols[k]))) ]
  }

  /** The sheet for day `i`: the metadata block, then each municipality's day-`i` record. */
  function DaySheet(item: Snapshot, cols: seq<string>, i: nat): (r: Sheet)
    ensures r.name == SheetName(i) && |r.rows| == HeadRows + |Entries(item)|
  {
    var munis := Entries(item);
    Sheet(SheetName(i), MetaRows(item, cols) + seq(|munis|, k requires 0 <= k < |munis| => Object(DayAt(munis[k].1, i))))
  }

  /** The first municipality, in iteration order, whose list does not hold exactly ten days. */
  function FirstIncomplete(munis: Municipalities): (r: Option<nat>)
    ensures r.Some? ==> r.value < |munis| && |munis[r.value].1| != DayCount
    ensures r.Some? ==> forall k :: 0 <= k < r.value ==> |munis[k].1| == DayCount
    ensures r.None? ==> forall k :: 0 <= k < |munis| ==> |munis[k].1| == DayCount
  {
    if munis == [] then None
    else if |munis[0].1| != DayCount then Some(0)
    else match FirstIncomplete(munis[1..])
      case None => None
      case Some(k) => Some(k + 1)
  }

  /**
   * `sheet` is the sheet for day `i` of `item`: its name, the metadata
   * block with the header row, then one row per municipality, in
   * iteration order, holding that municipality's day-`i` record.
   */
  ghost predicate SheetLaidOut(sheet: Sheet, item: Snapshot, cols: seq<string>, i: nat) {
    var munis := Entries(item);
    && sheet.name == SheetName(i)
    && |sheet.rows| == HeadRows + |munis|
    && sheet.rows[..HeadRows] == MetaRows(item, cols)
    && forall k :: 0 <= k < |munis| ==> i < |munis[k].1| && sheet.rows[HeadRows + k] == Object(munis[k].1[i])
  }

  /** `book` is the workbook of `item`: its file name and ten sheets, day by day. */
  ghost predicate WorkbookLaidOut(book: Workbook, item: Snapshot, cols: seq<string>) {
    && book.fileName == FileName(item.dateCreatedStr)
    && |book.sheets| == DayCount
    && forall i :: 0 <= i < DayCount ==> SheetLaidOut(book.sheets[i], item, cols, i)
  }

  /**
   * createExcelByIndex for a snapshot and a column order: a snapshot with
   * a parse error is skipped; a municipality without exactly ten days is
   * an error naming the first such municipality; otherwise the workbook.
   */
  function ExportSnapshot(item: Snapshot, cols: seq<string>): (r: Export)
    ensures r.Skipped? <==> item.error.Some?
    ensures !r.NothingToExport? && !r.NoColumns?
  {
    if item.error.Some? then Skipped
    else
      var munis := Entries(item);
      match FirstIncomplete(munis)
      case Some(k) => ExportFailed("Missing day data on " + munis[k].0 + ", " + item.dateCreatedStr)
      case None => Exported(Workbook(FileName(item.dateCreatedStr), seq(DayCount, i requires 0 <= i < DayCount => DaySheet(item, cols, i))))
  }

  /**
   * A snapshot without a parse error fails to export exactly when some
   * municipality lacks exactly ten days, and the message names the first
   * one and the snapshot's creation time.
   */
  lemma ExportSnapshotFails(item: Snapshot, cols: seq<string>)
    ensures var r := ExportSnapshot(item, cols);
      r.ExportFailed? <==> item.error.None? && exists k :: 0 <= k < |Entries(item)| && |Entries(item)[k].1| != DayCount
    ensures var r := ExportSnapshot(item, cols);
      r.ExportFailed? ==> exists k ::
      && 0 <= k < |Entries(item)| && |Entries(item)[k].1| != DayCount
      && (forall t :: 0 <= t < k ==> |Entries(item)[t].1| == DayCount)
      && r.msg == "Missing day data on " + Entries(item)[k].0 + ", " + item.dateCreatedStr
  {
    var munis := Entries(item);
    var first := FirstIncomplete(munis);
    if item.error.None? && first.Some? {
      var k := first.value;
      assert |munis[k].1| != DayCount;
    }
  }

  /** An exported workbook is laid out as WorkbookLaidOut says. */
  lemma ExportSnapshotLaidOut(item: Snapshot, cols: seq<string>)
    requires ExportSnapshot(item, cols).Exported?
    ensures WorkbookLaidOut(ExportSnapshot(item, cols).book, item, cols)
  {
    var book := ExportSnapshot(item, cols).book;
    assert FirstIncomplete(Entries(item)).None?;
    forall i | 0 <= i < DayCount ensures SheetLaidOut(book.sheets[i], item, cols, i) {
      DaySheetLaidOut(item, cols, i);
    }
  }

  /** The sheet for a day every municipality has is laid out as SheetLaidOut says. */
  lemma DaySheetLaidOut(item: Snapshot, cols: seq<string>, i: nat)
    requires forall k :: 0 <= k < |Entries(item)| ==> i < |Entries(item)[k].1|
    ensures SheetLaidOut(DaySheet(item, cols, i), item, cols, i)
  {
    var sheet := DaySheet(item, cols, i);
    assert sheet.rows[..HeadRows] == MetaRows(item, cols);
  }

  /**
   * Read back municipality `k` of an exported workbook, sheet by sheet:
   * its data row in each of the ten sheets gives back its ten days.
   */
  lemma {:induction false} WorkbookKeepsDays(item: Snapshot, cols: seq<string>, k: nat)
    requires ExportSnapshot(item, cols).Exported? && k < |Entries(item)|
    ensures var book := ExportSnapshot(item, cols).book;
      seq(DayCount, i requires 0 <= i < DayCount => book.sheets[i].rows[HeadRows + k].record) == Entries(item)[k].1
  {
    var book := ExportSnapshot(item, cols).book;
    ExportSnapshotLaidOut(item, cols);
    assert SheetLaidOut(book.sheets[0], item, cols, 0);
    var days := Entries(item)[k].1;
    var back := seq(DayCount, i requires 0 <= i < DayCount => book.sheets[i].rows[HeadRows + k].record);
    forall i | 0 <= i < DayCount ensures back[i] == days[i] {
      assert SheetLaidOut(book.sheets[i], item, cols, i);
    }
  }

  /**
   * createExcelByIndex with the lookup and the column check in front: no
   * snapshot at the index means nothing to export, no column order means a
   * silent return.
   */
  function ExportItem(item: Option<Snapshot>, cols: Option<seq<string>>): (r: Export)
    ensures r.NothingToExport? <==> item.None?
    ensures r.NoColumns? <==> item.Some? && cols.None?
    ensures item.Some? && cols.Some? ==> r == ExportSnapshot(item.value, cols.value)
  {
    if item.None? then NothingToExport
    else if cols.None? then NoColumns
    else ExportSnapshot(item.value, cols.value)
  }

  /** Exporting `item` with `cols` fails. */
  predicate ExportFails(item: Snapshot, cols: Option<seq<string>>) {
    ExportItem(Some(item), cols).ExportFailed?
  }

  /** The outcome of the export loop: the workbooks written, and the error that stopped it, if any. */
  datatype Run = Run(books: seq<Workbook>, error: Option<string>)

  /**
   * exportDataToExcel over `items`: each is exported in order; a skipped
   * one writes nothing and the loop goes on; the first error stops the
   * loop and is the outcome's error.
   */
  function ExportAll(items: seq<Snapshot>, cols: Option<seq<string>>): (r: Run)
    ensures |r.books| <= |items|
    decreases |items|
  {
    if items == [] then Run([], None)
    else
      var prev := ExportAll(items[..|items| - 1], cols);
      if prev.error.Some? then prev
      else match ExportItem(Some(items[|items| - 1]), cols)
        case ExportFailed(m) => Run(prev.books, Some(m))
        case Exported(book) => Run(prev.books + [book], None)
        case _ => prev
  }

  /** Snapshot `j` is the first of `items` whose export fails. */
  ghost predicate FirstFailure(items: seq<Snapshot>, cols: Option<seq<string>>, j: int) {
    && 0 <= j < |items| && ExportFails(items[j], cols)
    && forall t :: 0 <= t < j ==> !ExportFails(items[t], cols)
  }

  /**
   * The run fails exactly when some snapshot's export fails, and then
   * with the error of the first such snapshot.
   */
  lemma {:induction false} ExportAllError(items: seq<Snapshot>, cols: Option<seq<string>>)
    ensures var r := ExportAll(items, cols);
      && (r.error.Some? <==> exists j :: 0 <= j < |items| && ExportFails(items[j], cols))
      && (r.error.Some? ==> exists j :: FirstFailure(items, cols, j) && r.error.value == ExportItem(Some(items[j]), cols).msg)
    decreases |items|
  {
    if items != [] {
      var n := |items| - 1;
      var front := items[..n];
      assert forall j :: 0 <= j < n ==> front[j] == items[j];
      ExportAllError(front, cols);
      var prev := ExportAll(front, cols);
      var r := ExportAll(items, cols);
      if prev.error.Some? {
        var j :| FirstFailure(front, cols, j) && prev.error.value == ExportItem(Some(front[j]), cols).msg;
        assert FirstFailure(items, cols, j);
      } else if ExportFails(items[n], cols) {
        assert FirstFailure(items, cols, n);
        assert r.error.value == ExportItem(Some(items[n]), cols).msg;
      } else {
        assert forall j :: 0 <= j < |items| ==> !ExportFails(items[j], cols);
      }
    }
  }

  /** `book` is the export of one of `items`. */
  ghost predicate ExportedFrom(items: seq<Snapshot>, cols: Option<seq<string>>, book: Workbook) {
    exists j :: 0 <= j < |items| && ExportItem(Some(items[j]), cols) == Exported(book)
  }

  /** Every workbook the run writes is the export of one of the snapshots. */
  lemma {:induction false} ExportAllBooks(items: seq<Snapshot>, cols: Option<seq<string>>)
    ensures forall b :: 0 <= b < |ExportAll(items, cols).books| ==> ExportedFrom(items, cols, ExportAll(items, cols).books[b])
    decreases |items|
  {
    if items != [] {
      var n := |items| - 1;
      var front := items[..n];
      ExportAllBooks(front, cols);
      var prev := ExportAll(front, cols);
      var r := ExportAll(items, cols);
      forall b | 0 <= b < |r.books| ensures ExportedFrom(items, cols, r.books[b]) {
        if b < |prev.books| {
          assert r.books[b] == prev.books[b];
          assert ExportedFrom(front, cols, prev.books[b]);
          var j :| 0 <= j < |front| && ExportItem(Some(front[j]), cols) == Exported(prev.books[b]);
          assert front[j] == items[j];
        } else {
          assert ExportItem(Some(items[n]), cols) == Exported(r.books[b]);
        }
      }
    }
  }

  /** Once an error has stopped the loop, later snapshots are not exported. */
  lemma {:induction false} ErrorStopsExport(items: seq<Snapshot>, n: nat, cols: Option<seq<string>>)
    requires n <= |items| && ExportAll(items[..n], cols).error.Some?
    ensures ExportAll(items, cols) == ExportAll(items[..n], cols)
    decreases |items| - n
  {
    if n == |items| {
      assert items[..n] == items;
    } else {
      assert items[..n + 1][..n] == items[..n];
      ErrorStopsExport(items, n + 1, cols);
    }
  }

  /**
   * When every snapshot is exported (none skipped, none failing), the run
   * writes one workbook per snapshot, in index order.
   */
  lemma {:induction false} AllExported(items: seq<Snapshot>, cols: Option<seq<string>>)
    requires forall j :: 0 <= j < |items| ==> ExportItem(Some(items[j]), cols).Exported?
    ensures ExportAll(items, cols).error.None?
    ensures |ExportAll(items, cols).books| == |items|
    ensures forall j :: 0 <= j < |items| ==> ExportAll(items, cols).books[j] == ExportItem(Some(items[j]), cols).book
    decreases |items|
  {
    if items != [] {
      var front := items[..|items| - 1];
      assert forall j :: 0 <= j < |front| ==> front[j] == items[j];
      AllExported(front, cols);
      var prev := ExportAll(front, cols);
      var last := ExportItem(Some(items[|items| - 1]), cols);
      assert last.Exported?;
      var books := prev.books + [last.book];
      assert ExportAll(items, cols) == Run(books, None);
      forall j | 0 <= j < |items| ensures books[j] == ExportItem(Some(items[j]), cols).book {
        if j < |front| {
          assert books[j] == prev.books[j] && front[j] == items[j];
        }
      }
    }
  }

  /**
   * The export loop after one more snapshot: an error ends the run with
   * it, a workbook joins the run's books, anything else changes nothing.
   */
  lemma ExportAllStep(items: seq<Snapshot>, n: nat, cols: Option<seq<string>>, books: seq<Workbook>, e: Export)
    requires n < |items| && ExportAll(items[..n], cols) == Run(books, None)
    requires e == ExportItem(Some(items[n]), cols)
    ensures e.ExportFailed? ==> ExportAll(items, cols) == Run(books, Some(e.msg))
    ensures !e.ExportFailed? ==> ExportAll(items[..n + 1], cols) == Run(if e.Exported? then books + [e.book] else books, None)
  {
    assert items[..n + 1][..n] == items[..n];
    if e.ExportFailed? {
      ErrorStopsExport(items, n + 1, cols);
    }
  }
}
