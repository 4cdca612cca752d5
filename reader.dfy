/**
 * The ExcelReader class of excelreader.ts: its state (the snapshots read
 * so far and the column order) and the methods that change it, each
 * proved against the specification functions of Columns and Merge.
 *
 * Reading a directory listing, reading a file and parsing JSON are done
 * by the caller: a directory arrives as the list of its entries, a file
 * as its parsed contents.
 */
module Reader {
  import opened Json
  import opened Schema
  import opened Columns
  import opened Merge

  /** The `reduce` that rebuilds one day record: each column, in order, copied from `day`. */
  method BuildRecord(day: Record, cols: seq<string>) returns (acc: Record)
    ensures acc == Project(day, cols)
  {
    acc := [];
    for n := 0 to |cols|
      invariant acc == Project(day, cols[..n])
    {
      ProjectPrefixStep(day, cols, n);
      acc := Put(acc, cols[n], ValueAt(day, cols[n]));
    }
    assert cols[..|cols|] == cols;
  }

  /**
   * The `for i < 10` loop over one municipality's list. Day `i` is
   * replaced by its rebuilt record; past the end of the list the day is
   * `undefined`, which fails on the first column, or, with no columns,
   * yields an empty record appended to the list.
   */
  method ReorderDays(days: Days, cols: seq<string>) returns (r: Result<Days>)
    ensures r.Failure? <==> cols != [] && |days| < 10
    ensures r.Failure? ==> r.error == UndefinedRead(cols[0])
    ensures r.Success? ==> r.value == Reordered(days, cols)
  {
    var cur := days;
    for i := 0 to 10
      invariant cols != [] ==> i <= |days|
      invariant |cur| == if i < |days| then |days| else i
      invariant forall t :: 0 <= t < i ==> cur[t] == Project(DayAt(days, t), cols)
      invariant forall t :: i <= t < |cur| ==> cur[t] == days[t]
    {
      if i < |cur| {
        var rec := BuildRecord(cur[i], cols);
        cur := cur[i := rec];
      } else {
        if cols != [] {
          return Failure(UndefinedRead(cols[0]));
        }
        cur := cur + [[]];
      }
    }
    var spec := Reordered(days, cols);
    forall t | 0 <= t < |cur| ensures cur[t] == spec[t] {
      if 10 <= t {
        assert spec[t] == days[10..][t - 10];
      }
    }
    return Success(cur);
  }

  /** The `for…in` over one snapshot's municipalities, reordering each list in place. */
  method ReorderRow(row: Snapshot, cols: seq<string>) returns (r: Result<Snapshot>)
    ensures r.Failure? <==> cols != [] && HasShortList(row)
    ensures r.Failure? ==> r.error == UndefinedRead(cols[0])
    ensures r.Success? ==> r.value == ReorderSnapshot(row, cols)
  {
    if row.municipalities.None? {
      return Success(row);
    }
    var m := row.municipalities.value;
    var out: Municipalities := [];
    for k := 0 to |m|
      invariant |out| == k
      invariant forall t :: 0 <= t < k ==> out[t] == (m[t].0, Reordered(m[t].1, cols))
      invariant cols != [] ==> forall t :: 0 <= t < k ==> |m[t].1| >= 10
    {
      var days := ReorderDays(m[k].1, cols);
      if days.Failure? {
        assert |Entries(row)[k].1| < 10;
        return Failure(days.error);
      }
      out := out + [(m[k].0, days.value)];
    }
    assert out == seq(|m|, k requires 0 <= k < |m| => (m[k].0, Reordered(m[k].1, cols)));
    return Success(row.(municipalities := Some(out)));
  }

  /** `outPath ? outPath : default`: an absent or empty path falls back to the default. */
  function OrDefault(path: Option<string>, fallback: string): (r: string)
    ensures r == fallback || (path.Some? && r == path.value && r != "")
    ensures path.Some? && path.value != "" ==> r == path.value
    ensures path.None? || path.value == "" ==> r == fallback
  {
    if path.Some? && path.value != "" then path.value else fallback
  }

  class ExcelReader {
    /** The snapshots read so far: the first file's, with the other files' municipalities merged in. */
    var data: seq<Snapshot>
    /** The spreadsheet column order; every day record is rebuilt in it. */
    var columns: Option<seq<string>>
    var inputFolder: string
    var outputFolder: string

    /**
     * Everything the constructor does before it reads the input
     * directory: no snapshots, the folders chosen, and the columns put
     * in their default order. The reading itself is ReadDataDirectory.
     */
    constructor(filePath: Option<string>, outPath: Option<string>, defaultInput: string, defaultOutput: string)
      ensures data == []
      ensures columns == Some(ColumnOrder(LeadingColumns, MunicipalityFields))
      ensures inputFolder == OrDefault(filePath, defaultInput)
      ensures outputFolder == OrDefault(outPath, defaultOutput)
    {
      data := [];
      outputFolder := OrDefault(outPath, defaultOutput);
      inputFolder := OrDefault(filePath, defaultInput);
      columns := None;
      new;
      InitColumnHeaders(LeadingColumns);
    }

    /**
     * initColumnHeaders: `initial` first, then each schema field, in
     * declaration order, that is not already listed.
     */
    method InitColumnHeaders(initial: seq<string>)
      modifies this`columns
      ensures columns == Some(ColumnOrder(initial, MunicipalityFields))
    {
      var list := initial;
      for n := 0 to |MunicipalityFields|
        invariant list == ColumnOrder(initial, MunicipalityFields[..n])
      {
        ColumnOrderPrefixStep(initial, MunicipalityFields, n);
        var field := MunicipalityFields[n];
        if field !in list {
          list := list + [field];
        }
      }
      assert MunicipalityFields[..|MunicipalityFields|] == MunicipalityFields;
      columns := Some(list);
    }

    /**
     * orderDataColumns: with no column order the snapshots are returned
     * as they are; otherwise each is reordered, and the first
     * municipality with fewer than 10 days fails the whole call.
     */
    method OrderDataColumns(rows: seq<Snapshot>) returns (r: Result<seq<Snapshot>>)
      ensures r == if columns.None? then Success(rows) else OrderColumns(rows, columns.value)
    {
      if columns.None? {
        return Success(rows);
      }
      var cols := columns.value;
      var out: seq<Snapshot> := [];
      for j := 0 to |rows|
        invariant |out| == j
        invariant forall t :: 0 <= t < j ==> out[t] == ReorderSnapshot(rows[t], cols)
        invariant cols != [] ==> forall t :: 0 <= t < j ==> !HasShortList(rows[t])
      {
        var row := ReorderRow(rows[j], cols);
        if row.Failure? {
          return Failure(row.error);
        }
        out := out + [row.value];
      }
      assert out == seq(|rows|, j requires 0 <= j < |rows| => ReorderSnapshot(rows[j], cols));
      return Success(out);
    }

    /** readFile: the schema check, then the column reordering. */
    method ReadFile(f: FileEntry) returns (r: Result<seq<Snapshot>>)
      ensures r == LoadFile(f, columns)
    {
      match f.content {
        case Unreadable =>
          return Failure(UnreadableMessage);
        case Items(items) =>
          if !(forall j :: 0 <= j < |items| ==> SnapshotConforms(items[j])) {
            return Failure(SchemaMessage);
          }
          r := OrderDataColumns(items);
      }
    }

    /**
     * appendMunicipalityData as written: an error exactly when `idx` is
     * one past the end of a non-empty list; otherwise the state
     * AppendAsWritten describes.
     */
    method AppendMunicipalityData(idx: int, key: string, days: Days) returns (err: Option<string>)
      modifies this`data
      ensures var spec := AppendAsWritten(old(data), idx, key, days);
        && (spec.Success? ==> err.None? && data == spec.value)
        && (spec.Failure? ==> err == Some(spec.error) && data == old(data))
    {
      if |data| == 0 {
        return None;
      }
      if idx > |data| || idx < 0 {
        return None;
      }
      if idx == |data| {
        return Some(UndefinedRead("municipalities"));
      }
      var item := data[idx];
      var mapping := if item.municipalities.None? then [] else item.municipalities.value;
      data := data[idx := item.(municipalities := Some(Put(mapping, key, days)))];
      return None;
    }

    /** setData */
    method SetData(rows: seq<Snapshot>)
      modifies this`data
      ensures data == rows
    {
      data := rows;
    }

    /**
     * getDataItem: the snapshot at `idx`, or nothing (null or undefined)
     * for an empty list and every index outside it.
     */
    function GetDataItem(idx: int): (r: Option<Snapshot>)
      reads this
      ensures r.Some? <==> 0 <= idx < |data|
      ensures r.Some? ==> r.value == data[idx]
    {
      if |data| == 0 || idx > |data| then None
      else if 0 <= idx < |data| then Some(data[idx])
      else None
    }

    /** The innermost merge loop: one incoming snapshot's entries into snapshot `idx`. */
    method MergeEntriesInto(idx: nat, entries: Municipalities, warnings: seq<string>) returns (r: Progress)
      requires idx < |data|
      modifies this`data
      ensures r == InsertEntries(old(data), idx, entries, warnings)
      ensures data == r.data
    {
      ghost var start := data;
      var w := warnings;
      for k := 0 to |entries|
        invariant InsertEntries(start, idx, entries[..k], warnings) == Merged(data, w)
        invariant |data| == |start|
      {
        InsertEntriesStep(start, idx, entries, k, warnings);
        var name := entries[k].0;
        var days := entries[k].1;
        var parent := data[idx].municipalities;
        if parent.None? {
          r := Abandoned(data);
          InsertEntriesStopped(start, idx, entries, k + 1, warnings);
          return;
        }
        var key := name;
        if Get(parent.value, name).Some? {
          if |days| == 0 {
            r := Failed(data, UndefinedRead("province"));
            InsertEntriesStopped(start, idx, entries, k + 1, warnings);
            return;
          }
          key := RenamedKey(name, Interpolate(ValueAt(days[0], "province")));
          if key !in w {
            w := w + [key];
          }
        }
        AppendAgrees(data, idx, key, days);
        var _ := AppendMunicipalityData(idx, key, days);
      }
      assert entries[..|entries|] == entries;
      r := Merged(data, w);
    }

    /** One pass of the file loop: read a later file and merge its snapshots. */
    method MergeFileInto(dir: string, f: FileEntry, warnings: seq<string>) returns (r: Progress)
      modifies this`data
      ensures r == MergeFile(dir, old(data), f, columns, warnings)
      ensures data == r.data
    {
      var local := ReadFile(f);
      if local.Failure? {
        return Failed(data, local.error);
      }
      var items := local.value;
      if |items| != |data| {
        return Failed(data, "Inconsistent data length on " + Join(dir, f.name));
      }
      ghost var start := data;
      var w := warnings;
      for j := 0 to |items|
        invariant MergeSnapshots(start, items[..j], warnings) == Merged(data, w)
      {
        MergeSnapshotsStep(start, items, j, warnings);
        var item := items[j];
        var found := FindIndex(data, item.dateCreatedStr);
        if found.None? {
          r := Failed(data, "Error finding data entry for " + item.dateCreatedStr);
          MergeSnapshotsStopped(start, items, j + 1, warnings);
          return;
        }
        r := MergeEntriesInto(found.value, Entries(item), w);
        if !r.Merged? {
          MergeSnapshotsStopped(start, items, j + 1, warnings);
          return;
        }
        w := r.warnings;
      }
      assert items[..|items|] == items;
      r := Merged(data, w);
    }

    /**
     * readDataDirectory over the entries of `filePath`, or of the input
     * folder when no path is given: the outcome and the new snapshots are
     * those LoadDirectory describes.
     */
    method ReadDataDirectory(filePath: Option<string>, files: seq<FileEntry>) returns (r: Progress)
      modifies this`data
      ensures r == LoadDirectory(if filePath.Some? then filePath.value else inputFolder, files, columns, old(data))
      ensures data == r.data
    {
      var dir := if filePath.Some? then filePath.value else inputFolder;
      if |files| == 0 {
        return Failed(data, NoFilesMessage);
      }
      var json := JsonFiles(files);
      if |json| == 0 {
        return Failed(data, MissingPathMessage);
      }
      var first := ReadFile(json[0]);
      if first.Failure? {
        return Failed(data, first.error);
      }
      data := first.value;
      r := MergeFilesInto(dir, json[1..]);
    }

    /** The file loop of readDataDirectory: every later file, in order, merged into the snapshots held. */
    method MergeFilesInto(dir: string, rest: seq<FileEntry>) returns (r: Progress)
      modifies this`data
      ensures r == MergeFiles(dir, old(data), rest, columns, [])
      ensures data == r.data
    {
      ghost var base := data;
      var w: seq<string> := [];
      for i := 0 to |rest|
        invariant MergeFiles(dir, base, rest[..i], columns, []) == Merged(data, w)
      {
        MergeFilesStep(dir, base, rest, i, columns, []);
        r := MergeFileInto(dir, rest[i], w);
        if !r.Merged? {
          MergeFilesStopped(dir, base, rest, i + 1, columns, []);
          return;
        }
        w := r.warnings;
      }
      assert rest[..|rest|] == rest;
      r := Merged(data, w);
    }
  }
}
