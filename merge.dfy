/**
 * The multi-file merge of excelreader.ts (readDataDirectory,
 * appendMunicipalityData, readFile), as functions over already-listed,
 * already-parsed files.
 *
 * The first JSON file's snapshots are the base. Every later file must hold
 * as many snapshots; each of its snapshots is matched to the first base
 * snapshot with the same `date_created_str`, and its municipality entries
 * are assigned into that base snapshot's mapping, under
 * `"<name>-<province>"` when the name is already taken there. The renamed
 * keys are collected, each once, for a closing warning.
 *
 * Each loop of the source is a function defined on a prefix of its input
 * plus the last element, so that a loop that has handled `xs[..i]` is in the
 * state the function gives for `xs[..i]`.
 */
module Merge {
  import opened Json
  import opened Text
  import opened Schema
  import opened Columns

  /** A file's contents: snapshots, or text that is not a JSON array of snapshots. */
  datatype Parsed = Unreadable | Items(items: seq<Snapshot>)

  /** A directory entry: its name and what reading and parsing it gives. */
  datatype FileEntry = FileEntry(name: string, content: Parsed)

  /**
   * The state of the merge, with the snapshots as they stand: still going
   * (with the renamed keys so far), abandoned by the early `return` on a
   * null base mapping (no error, no warning), or stopped by an error,
   * which leaves the assignments made before it in place.
   */
  datatype Progress =
    | Merged(data: seq<Snapshot>, warnings: seq<string>)
    | Abandoned(data: seq<Snapshot>)
    | Failed(data: seq<Snapshot>, msg: string)

  const NoFilesMessage := "No JSON files provided"
  /** What reading `jsonFiles[0]` raises when the directory holds no `.json` file. */
  const MissingPathMessage :=
    "The \"path\" argument must be of type string or an instance of Buffer or URL. Received undefined"
  const UnreadableMessage := "the file is not a JSON array of forecast snapshots"
  const SchemaMessage := "a day record does not match the municipality schema"

  /** The names the directory filter keeps, in listing order. */
  function JsonFiles(files: seq<FileEntry>): (r: seq<FileEntry>)
    ensures |r| <= |files|
    ensures forall f :: f in r <==> f in files && EndsWith(f.name, ".json")
  {
    if files == [] then []
    else (if EndsWith(files[0].name, ".json") then [files[0]] else []) + JsonFiles(files[1..])
  }

  /** Where the kept names stand in the listing. */
  function JsonPositions(files: seq<FileEntry>): seq<nat> {
    if files == [] then []
    else
      var shifted := Shifted(JsonPositions(files[1..]));
      if EndsWith(files[0].name, ".json") then [0] + shifted else shifted
  }

  /**
   * The filter keeps the listing order: the kept names stand at strictly
   * increasing positions of the listing, one position per kept name.
   */
  lemma {:induction false} JsonFilesInOrder(files: seq<FileEntry>)
    ensures KeptInOrder(files, JsonFiles(files), JsonPositions(files))
  {
    if files != [] {
      JsonFilesInOrder(files[1..]);
      KeptInOrderStep(files);
    }
  }

  /** `kept` is `files` at the strictly increasing positions `idx`. */
  ghost predicate KeptInOrder(files: seq<FileEntry>, kept: seq<FileEntry>, idx: seq<nat>) {
    && |idx| == |kept|
    && (forall k :: 0 <= k < |idx| ==> idx[k] < |files| && kept[k] == files[idx[k]])
    && (forall k :: 0 < k < |idx| ==> idx[k - 1] < idx[k])
  }

  lemma KeptInOrderStep(files: seq<FileEntry>)
    requires files != []
    requires KeptInOrder(files[1..], JsonFiles(files[1..]), JsonPositions(files[1..]))
    ensures KeptInOrder(files, JsonFiles(files), JsonPositions(files))
  {
    var tail := files[1..];
    var kept := JsonFiles(tail);
    var rest := JsonPositions(tail);
    var shifted := Shifted(rest);
    var front := if EndsWith(files[0].name, ".json") then [files[0]] else [];
    var lead: seq<nat> := if EndsWith(files[0].name, ".json") then [0] else [];
    assert JsonFiles(files) == front + kept;
    assert JsonPositions(files) == lead + shifted;
    ShiftedInOrder(files, kept, rest);
    KeptAppend(files, front, lead, kept, shifted);
  }

  lemma ShiftedInOrder(files: seq<FileEntry>, kept: seq<FileEntry>, rest: seq<nat>)
    requires files != [] && KeptInOrder(files[1..], kept, rest)
    ensures var shifted := Shifted(rest);
      && |shifted| == |kept|
      && (forall k :: 0 <= k < |kept| ==> 0 < shifted[k] < |files| && kept[k] == files[shifted[k]])
      && (forall k :: 0 < k < |kept| ==> shifted[k - 1] < shifted[k])
  {
    var shifted := Shifted(rest);
    forall k | 0 <= k < |kept| ensures 0 < shifted[k] < |files| && kept[k] == files[shifted[k]] {
      assert files[1..][rest[k]] == files[shifted[k]];
    }
  }

  lemma KeptAppend(files: seq<FileEntry>, front: seq<FileEntry>, lead: seq<nat>, kept: seq<FileEntry>, shifted: seq<nat>)
    requires files != [] && |front| == |lead| <= 1
    requires front != [] ==> front[0] == files[0] && lead[0] == 0
    requires |shifted| == |kept|
    requires forall k :: 0 <= k < |kept| ==> 0 < shifted[k] < |files| && kept[k] == files[shifted[k]]
    requires forall k :: 0 < k < |kept| ==> shifted[k - 1] < shifted[k]
    ensures KeptInOrder(files, front + kept, lead + shifted)
  {
    var idx := lead + shifted;
    var all := front + kept;
    forall k | 0 <= k < |idx| ensures idx[k] < |files| && all[k] == files[idx[k]] {
      if k >= |lead| {
        assert idx[k] == shifted[k - |lead|] && all[k] == kept[k - |lead|];
      }
    }
    forall k | 0 < k < |idx| ensures idx[k - 1] < idx[k] {
      if k > |lead| {
        assert idx[k - 1] == shifted[k - 1 - |lead|];
      }
    }
  }

  /** Every position moved one place on. */
  function Shifted(idx: seq<nat>): (r: seq<nat>)
    ensures |r| == |idx| && forall k :: 0 <= k < |idx| ==> r[k] == idx[k] + 1
  {
    seq(|idx|, k requires 0 <= k < |idx| => idx[k] + 1)
  }

  /**
   * The base is the first `.json` name of the listing: every name before
   * its position is some other kind of file.
   */
  lemma {:induction false} JsonFilesFirst(files: seq<FileEntry>)
    requires JsonFiles(files) != []
    ensures |JsonPositions(files)| > 0
    ensures var i := JsonPositions(files)[0];
      && i < |files| && JsonFiles(files)[0] == files[i] && EndsWith(files[i].name, ".json")
      && forall t :: 0 <= t < i ==> !EndsWith(files[t].name, ".json")
  {
    JsonFilesInOrder(files);
    assert JsonFiles(files)[0] in JsonFiles(files);
    if !EndsWith(files[0].name, ".json") {
      var rest := files[1..];
      assert JsonFiles(files) == JsonFiles(rest);
      JsonFilesFirst(rest);
      forall t | 1 <= t < JsonPositions(files)[0] ensures !EndsWith(files[t].name, ".json") {
        assert files[t] == rest[t - 1];
      }
    }
  }

  /** Filtering twice keeps what filtering once kept. */
  lemma {:induction false} JsonFilesIdempotent(files: seq<FileEntry>)
    ensures JsonFiles(JsonFiles(files)) == JsonFiles(files)
  {
    if files != [] {
      JsonFilesIdempotent(files[1..]);
      var rest := JsonFiles(files[1..]);
      if EndsWith(files[0].name, ".json") {
        var kept := [files[0]] + rest;
        assert kept[0] == files[0] && kept[1..] == rest;
        assert JsonFiles(files) == kept;
        assert JsonFiles(kept) == [files[0]] + JsonFiles(rest);
      } else {
        assert JsonFiles(files) == rest;
      }
    }
  }

  /** The path the directory entry is read from. */
  function Join(dir: string, name: string): (r: string)
    ensures |r| == |dir| + 1 + |name|
    ensures r[..|dir|] == dir && r[|dir|] == '/' && r[|dir| + 1..] == name
  {
    dir + "/" + name
  }

  /**
   * readFile: a file that is not a JSON array of snapshots, or whose day
   * records fail the schema, is an error; otherwise its snapshots with
   * their columns reordered (left as they are while the columns are
   * undefined).
   */
  function LoadFile(f: FileEntry, columns: Option<seq<string>>): (r: Result<seq<Snapshot>>)
    ensures f.content.Unreadable? ==> r == Failure(UnreadableMessage)
    ensures r.Success? <==>
      && f.content.Items?
      && (forall j :: 0 <= j < |f.content.items| ==> SnapshotConforms(f.content.items[j]))
      && (columns.None? || columns.value == [] || forall j :: 0 <= j < |f.content.items| ==> !HasShortList(f.content.items[j]))
    ensures r.Success? ==> |r.value| == |f.content.items|
    ensures r.Success? && columns.None? ==> r.value == f.content.items
    ensures r.Success? && columns.Some? ==>
      forall j :: 0 <= j < |r.value| ==> Reorders(f.content.items[j], r.value[j], columns.value)
  {
    match f.content
    case Unreadable => Failure(UnreadableMessage)
    case Items(items) =>
      if !(forall j :: 0 <= j < |items| ==> SnapshotConforms(items[j])) then Failure(SchemaMessage)
      else
        match columns
        case None => Success(items)
        case Some(cols) => OrderColumns(items, cols)
  }

  /** The first index whose snapshot was created at `date`, as `findIndex` gives it. */
  function FindIndex(data: seq<Snapshot>, date: string): (r: Option<nat>)
    ensures r.Some? ==> r.value < |data| && data[r.value].dateCreatedStr == date
    ensures r.Some? ==> forall j :: 0 <= j < r.value ==> data[j].dateCreatedStr != date
    ensures r.None? ==> forall j :: 0 <= j < |data| ==> data[j].dateCreatedStr != date
  {
    if data == [] then None
    else if data[0].dateCreatedStr == date then Some(0)
    else match FindIndex(data[1..], date)
      case None => None
      case Some(i) => Some(i + 1)
  }

  /** A value as a template literal prints it. */
  function Interpolate(v: Value): string {
    match v
    case Str(s) => s
    case Num(text) => text
    case Null => "null"
    case Undefined => "undefined"
  }

  /** `days[0].province`, which fails on an empty list. */
  function ProvinceOf(days: Days): (r: Result<string>)
    ensures r.Failure? <==> days == []
  {
    if days == [] then Failure(UndefinedRead("province")) else Success(Interpolate(ValueAt(days[0], "province")))
  }

  /** The key a colliding municipality is stored under: `${name}-${province}`, trimmed. */
  function RenamedKey(name: string, province: string): (r: string)
    ensures '-' in r && |r| <= |name| + 1 + |province|
  {
    var s := name + "-" + province;
    TrimKeeps(s, |name|);
    Trim(s)
  }

  /** The renamed key never equals the name it replaces, so the entry it collided with stays. */
  lemma RenamedKeyDiffers(name: string, province: string)
    ensures RenamedKey(name, province) != name
  {
    var s := name + "-" + province;
    assert s[|name|] == '-';
    assert !IsSpace('-');
    var t := TrimStart(s);
    var r := TrimEnd(t);
    assert r == Trim(s);
    var a := |s| - |t|;
    assert !IsSpace(s[|name|]);
    assert a <= |name|;
    assert t[|name| - a] == '-';
    assert !IsSpace(t[|name| - a]);
    assert |r| > |name| - a;
    if a > 0 {
      assert IsSpace(s[0]) && s[0] == name[0];
      assert r[0] == t[0] && !IsSpace(r[0]);
    }
  }

  /**
   * appendMunicipalityData as its guard is evidently meant: with `idx` a
   * position of `data`, snapshot `idx`'s mapping (an empty one if it was
   * null) takes `days` under `key`; any other `idx` changes nothing.
   */
  function AppendMunicipality(data: seq<Snapshot>, idx: int, key: string, days: Days): (r: seq<Snapshot>)
    ensures |r| == |data|
  {
    if 0 <= idx < |data| then data[idx := data[idx].(municipalities := Some(Put(Entries(data[idx]), key, days)))]
    else data
  }

  /**
   * appendMunicipalityData as written: the guard `arrayIndex > length`
   * lets `idx == |data|` through, and `data[idx].municipalities` then
   * reads a property of `undefined`.
   */
  function AppendAsWritten(data: seq<Snapshot>, idx: int, key: string, days: Days): (r: Result<seq<Snapshot>>)
    ensures r.Failure? <==> |data| > 0 && idx == |data|
    ensures |data| == 0 || idx < 0 || idx > |data| ==> r == Success(data)
  {
    if |data| == 0 || idx > |data| || idx < 0 then Success(data)
    else if idx == |data| then Failure(UndefinedRead("municipalities"))
    else Success(AppendMunicipality(data, idx, key, days))
  }

  /** The discrepancy: one past the end, the source fails where its guard means to do nothing. */
  lemma AppendPastEnd(data: seq<Snapshot>, key: string, days: Days)
    requires |data| > 0
    ensures AppendAsWritten(data, |data|, key, days).Failure?
    ensures AppendMunicipality(data, |data|, key, days) == data
  {
  }

  /** Everywhere else the two agree, in particular on every index the merge uses. */
  lemma AppendAgrees(data: seq<Snapshot>, idx: int, key: string, days: Days)
    requires idx != |data| || |data| == 0
    ensures AppendAsWritten(data, idx, key, days) == Success(AppendMunicipality(data, idx, key, days))
  {
  }

  /** Appending keeps the frame of every snapshot and the keys of every mapping. */
  lemma AppendGrows(data: seq<Snapshot>, idx: int, key: string, days: Days)
    ensures Grows(data, AppendMunicipality(data, idx, key, days))
  {
    var r := AppendMunicipality(data, idx, key, days);
    if 0 <= idx < |data| {
      var before := Entries(data[idx]);
      assert Entries(r[idx]) == Put(before, key, days);
      assert Keys(before) <= Keys(Put(before, key, days));
    }
  }

  /**
   * Appending changes `data[idx].municipalities[key]` and nothing else:
   * every other snapshot, every other key and every other field stay, and a
   * mapping with distinct keys keeps them distinct.
   */
  lemma AppendChangesOneEntry(data: seq<Snapshot>, idx: int, key: string, days: Days)
    requires 0 <= idx < |data|
    ensures var r := AppendMunicipality(data, idx, key, days);
      && Grows(data, r)
      && r[idx].municipalities.Some?
      && Get(Entries(r[idx]), key) == Some(days)
      && (forall j, k :: 0 <= j < |data| && (j != idx || k != key) ==> Get(Entries(r[j]), k) == Get(Entries(data[j]), k))
      && (Distinct(Keys(Entries(data[idx]))) ==> Distinct(Keys(Entries(r[idx]))))
  {
    AppendGrows(data, idx, key, days);
    var r := AppendMunicipality(data, idx, key, days);
    var before := Entries(data[idx]);
    assert Entries(r[idx]) == Put(before, key, days);
    forall j, k | 0 <= j < |data| && (j != idx || k != key)
      ensures Get(Entries(r[j]), k) == Get(Entries(data[j]), k)
    {
      if j != idx {
        assert r[j] == data[j];
      }
    }
  }

  /** Recording a key in the warnings once keeps them free of repeats. */
  lemma RecordKeepsDistinct(warnings: seq<string>, key: string)
    ensures var w := if key in warnings then warnings else warnings + [key];
      warnings <= w && key in w && (Distinct(warnings) ==> Distinct(w))
  {
  }

  /** A snapshot with its municipality mapping set aside. */
  function Frame(s: Snapshot): Snapshot {
    s.(municipalities := None)
  }

  /**
   * `b` is `a` after assignments into municipality mappings: same length,
   * every other field the same, a null mapping possibly made non-null, and
   * each mapping's keys still in front, in their order.
   */
  ghost predicate Grows(a: seq<Snapshot>, b: seq<Snapshot>) {
    && |a| == |b|
    && forall j :: 0 <= j < |a| ==>
         && Frame(b[j]) == Frame(a[j])
         && (a[j].municipalities.Some? ==> b[j].municipalities.Some?)
         && Keys(Entries(a[j])) <= Keys(Entries(b[j]))
  }

  lemma GrowsTransitive(a: seq<Snapshot>, b: seq<Snapshot>, c: seq<Snapshot>)
    requires Grows(a, b) && Grows(b, c)
    ensures Grows(a, c)
  {
    forall j | 0 <= j < |a| ensures Keys(Entries(a[j])) <= Keys(Entries(c[j])) {
      var x, y, z := Keys(Entries(a[j])), Keys(Entries(b[j])), Keys(Entries(c[j]));
      assert x == y[..|x|] && y == z[..|y|];
      assert x == z[..|x|];
    }
  }

  /** What a step promises about the state it leaves behind. */
  ghost predicate Extends(data: seq<Snapshot>, warnings: seq<string>, r: Progress) {
    && Grows(data, r.data)
    && (r.Merged? ==> warnings <= r.warnings && (Distinct(warnings) ==> Distinct(r.warnings)))
  }

  lemma ExtendsTransitive(data: seq<Snapshot>, warnings: seq<string>, mid: Progress, r: Progress)
    requires Extends(data, warnings, mid) && mid.Merged? && Extends(mid.data, mid.warnings, r)
    ensures Extends(data, warnings, r)
  {
    GrowsTransitive(data, mid.data, r.data);
  }

  /**
   * One pass of the innermost loop body: the incoming entry `(name, days)`
   * goes into base snapshot `idx`. A null base mapping ends the whole
   * merge; a name already present is replaced by the renamed key, which is
   * recorded once.
   */
  function InsertEntry(data: seq<Snapshot>, idx: nat, entry: (string, Days), warnings: seq<string>): (r: Progress)
    requires idx < |data|
    ensures |r.data| == |data|
  {
    match data[idx].municipalities
    case None => Abandoned(data)
    case Some(parent) =>
      var name := entry.0;
      var days := entry.1;
      if Get(parent, name).None? then
        Merged(AppendMunicipality(data, idx, name, days), warnings)
      else
        match ProvinceOf(days)
        case Failure(e) => Failed(data, e)
        case Success(province) =>
          var key := RenamedKey(name, province);
          Merged(AppendMunicipality(data, idx, key, days), if key in warnings then warnings else warnings + [key])
  }

  /** The innermost loop: the entries of one incoming snapshot, in order, into base snapshot `idx`. */
  function InsertEntries(data: seq<Snapshot>, idx: nat, entries: Municipalities, warnings: seq<string>): (r: Progress)
    requires idx < |data|
    ensures |r.data| == |data|
    decreases |entries|
  {
    if entries == [] then Merged(data, warnings)
    else
      var mid := InsertEntries(data, idx, entries[..|entries| - 1], warnings);
      match mid
      case Merged(d, w) => InsertEntry(d, idx, entries[|entries| - 1], w)
      case _ => mid
  }

  /** One pass of the snapshot loop: find the base snapshot created at the same time, then insert. */
  function MergeSnapshot(data: seq<Snapshot>, item: Snapshot, warnings: seq<string>): (r: Progress)
    ensures |r.data| == |data|
    ensures FindIndex(data, item.dateCreatedStr).None? ==> r == Failed(data, "Error finding data entry for " + item.dateCreatedStr)
  {
    match FindIndex(data, item.dateCreatedStr)
    case None => Failed(data, "Error finding data entry for " + item.dateCreatedStr)
    case Some(idx) => InsertEntries(data, idx, Entries(item), warnings)
  }

  /** The snapshot loop over one later file's snapshots. */
  function MergeSnapshots(data: seq<Snapshot>, items: seq<Snapshot>, warnings: seq<string>): (r: Progress)
    ensures |r.data| == |data|
    decreases |items|
  {
    if items == [] then Merged(data, warnings)
    else
      var mid := MergeSnapshots(data, items[..|items| - 1], warnings);
      match mid
      case Merged(d, w) => MergeSnapshot(d, items[|items| - 1], w)
      case _ => mid
  }

  /** One pass of the file loop: read the file, check its length, merge its snapshots. */
  function MergeFile(dir: string, data: seq<Snapshot>, f: FileEntry, columns: Option<seq<string>>, warnings: seq<string>): (r: Progress)
    ensures |r.data| == |data|
    ensures LoadFile(f, columns).Failure? ==> r == Failed(data, LoadFile(f, columns).error)
    ensures LoadFile(f, columns).Success? && |LoadFile(f, columns).value| != |data| ==>
      r == Failed(data, "Inconsistent data length on " + Join(dir, f.name))
  {
    match LoadFile(f, columns)
    case Failure(e) => Failed(data, e)
    case Success(items) =>
      if |items| != |data| then Failed(data, "Inconsistent data length on " + Join(dir, f.name))
      else MergeSnapshots(data, items, warnings)
  }

  /** The file loop over the files after the first. */
  function MergeFiles(dir: string, data: seq<Snapshot>, files: seq<FileEntry>, columns: Option<seq<string>>, warnings: seq<string>): (r: Progress)
    ensures |r.data| == |data|
    decreases |files|
  {
    if files == [] then Merged(data, warnings)
    else
      var mid := MergeFiles(dir, data, files[..|files| - 1], columns, warnings);
      match mid
      case Merged(d, w) => MergeFile(dir, d, files[|files| - 1], columns, w)
      case _ => mid
  }

  /** Inserting one entry only adds a key to snapshot `idx` and at most one warning. */
  lemma InsertEntryExtends(data: seq<Snapshot>, idx: nat, entry: (string, Days), warnings: seq<string>)
    requires idx < |data|
    ensures Extends(data, warnings, InsertEntry(data, idx, entry, warnings))
  {
    match data[idx].municipalities
    case None =>
    case Some(parent) =>
      if Get(parent, entry.0).None? {
        AppendGrows(data, idx, entry.0, entry.1);
      } else if ProvinceOf(entry.1).Success? {
        var key := RenamedKey(entry.0, ProvinceOf(entry.1).value);
        AppendGrows(data, idx, key, entry.1);
        RecordKeepsDistinct(warnings, key);
      }
  }

  lemma {:induction false} InsertEntriesExtends(data: seq<Snapshot>, idx: nat, entries: Municipalities, warnings: seq<string>)
    requires idx < |data|
    ensures Extends(data, warnings, InsertEntries(data, idx, entries, warnings))
    decreases |entries|
  {
    if entries != [] {
      InsertEntriesExtends(data, idx, entries[..|entries| - 1], warnings);
      var mid := InsertEntries(data, idx, entries[..|entries| - 1], warnings);
      if mid.Merged? {
        InsertEntryExtends(mid.data, idx, entries[|entries| - 1], mid.warnings);
        ExtendsTransitive(data, warnings, mid, InsertEntries(data, idx, entries, warnings));
      }
    }
  }

  lemma MergeSnapshotExtends(data: seq<Snapshot>, item: Snapshot, warnings: seq<string>)
    ensures Extends(data, warnings, MergeSnapshot(data, item, warnings))
  {
    match FindIndex(data, item.dateCreatedStr)
    case None =>
    case Some(idx) => InsertEntriesExtends(data, idx, Entries(item), warnings);
  }

  lemma {:induction false} MergeSnapshotsExtends(data: seq<Snapshot>, items: seq<Snapshot>, warnings: seq<string>)
    ensures Extends(data, warnings, MergeSnapshots(data, items, warnings))
    decreases |items|
  {
    if items != [] {
      MergeSnapshotsExtends(data, items[..|items| - 1], warnings);
      var mid := MergeSnapshots(data, items[..|items| - 1], warnings);
      if mid.Merged? {
        MergeSnapshotExtends(mid.data, items[|items| - 1], mid.warnings);
        ExtendsTransitive(data, warnings, mid, MergeSnapshots(data, items, warnings));
      }
    }
  }

  lemma MergeFileExtends(dir: string, data: seq<Snapshot>, f: FileEntry, columns: Option<seq<string>>, warnings: seq<string>)
    ensures Extends(data, warnings, MergeFile(dir, data, f, columns, warnings))
  {
    match LoadFile(f, columns)
    case Failure(e) =>
    case Success(items) =>
      if |items| == |data| {
        MergeSnapshotsExtends(data, items, warnings);
      }
  }

  /**
   * However the file loop ends, the snapshots are the base's, in number
   * and in every field but the municipality mappings, which have only
   * gained keys; the warnings only grow, each at most once.
   */
  lemma {:induction false} MergeFilesExtends(dir: string, data: seq<Snapshot>, files: seq<FileEntry>, columns: Option<seq<string>>, warnings: seq<string>)
    ensures Extends(data, warnings, MergeFiles(dir, data, files, columns, warnings))
    decreases |files|
  {
    if files != [] {
      MergeFilesExtends(dir, data, files[..|files| - 1], columns, warnings);
      var mid := MergeFiles(dir, data, files[..|files| - 1], columns, warnings);
      if mid.Merged? {
        MergeFileExtends(dir, mid.data, files[|files| - 1], columns, mid.warnings);
        ExtendsTransitive(data, warnings, mid, MergeFiles(dir, data, files, columns, warnings));
      }
    }
  }

  /**
   * readDataDirectory over the listing `files` of directory `dir`, with
   * `prior` the snapshots held before the call. An empty listing, a
   * listing without `.json` names and an unreadable first file are errors
   * that leave `prior` as it was. Otherwise the first `.json` file is the
   * base and the others are merged into it in listing order: whatever the
   * outcome, the snapshots are then the base's, in number and in every
   * field but the municipality mappings, which have only gained keys; the
   * warnings name each renamed key once.
   */
  function LoadDirectory(dir: string, files: seq<FileEntry>, columns: Option<seq<string>>, prior: seq<Snapshot>): (r: Progress)
    ensures files == [] ==> r == Failed(prior, NoFilesMessage)
    ensures files != [] && JsonFiles(files) == [] ==> r == Failed(prior, MissingPathMessage)
    ensures JsonFiles(files) != [] && LoadFile(JsonFiles(files)[0], columns).Failure? ==>
      r == Failed(prior, LoadFile(JsonFiles(files)[0], columns).error)
    ensures JsonFiles(files) != [] && LoadFile(JsonFiles(files)[0], columns).Success? ==>
      Grows(LoadFile(JsonFiles(files)[0], columns).value, r.data)
    ensures r.Merged? ==> Distinct(r.warnings)
  {
    if files == [] then Failed(prior, NoFilesMessage)
    else
      var json := JsonFiles(files);
      if json == [] then Failed(prior, MissingPathMessage)
      else
        match LoadFile(json[0], columns)
        case Failure(e) => Failed(prior, e)
        case Success(base) =>
          MergeFilesExtends(dir, base, json[1..], columns, []);
          MergeFiles(dir, base, json[1..], columns, [])
  }

  /**
   * Only `.json` names are read: once the listing is not empty, the other
   * names make no difference as long as one `.json` name remains.
   */
  lemma OnlyJsonFilesRead(dir: string, files: seq<FileEntry>, columns: Option<seq<string>>, prior: seq<Snapshot>)
    requires JsonFiles(files) != []
    ensures LoadDirectory(dir, files, columns, prior) == LoadDirectory(dir, JsonFiles(files), columns, prior)
  {
    JsonFilesIdempotent(files);
  }

  /** A single `.json` file is the result as it is read, with no warnings. */
  lemma SingleFileIsBase(dir: string, files: seq<FileEntry>, columns: Option<seq<string>>, prior: seq<Snapshot>)
    requires |JsonFiles(files)| == 1 && LoadFile(JsonFiles(files)[0], columns).Success?
    ensures LoadDirectory(dir, files, columns, prior) == Merged(LoadFile(JsonFiles(files)[0], columns).value, [])
  {
    assert JsonFiles(files)[1..] == [];
  }

  /**
   * How one incoming entry lands in base snapshot `idx`: a null mapping
   * abandons the merge; a new name is appended with its days; a name
   * already present keeps its days and the incoming days go under the
   * renamed key, which the warnings then hold; a colliding entry without
   * days has no province to rename with and fails.
   */
  lemma InsertEntryRule(data: seq<Snapshot>, idx: nat, name: string, days: Days, warnings: seq<string>)
    requires idx < |data|
    ensures var r := InsertEntry(data, idx, (name, days), warnings);
      var parent := Entries(data[idx]);
      && (data[idx].municipalities.None? ==> r == Abandoned(data))
      && (data[idx].municipalities.Some? && name !in Keys(parent) ==>
            && r.Merged? && r.warnings == warnings
            && Keys(Entries(r.data[idx])) == Keys(parent) + [name]
            && Get(Entries(r.data[idx]), name) == Some(days)
            && forall k :: k != name ==> Get(Entries(r.data[idx]), k) == Get(parent, k))
      && (data[idx].municipalities.Some? && name in Keys(parent) && days == [] ==>
            r == Failed(data, UndefinedRead("province")))
      && (data[idx].municipalities.Some? && name in Keys(parent) && days != [] ==>
            var key := RenamedKey(name, Interpolate(ValueAt(days[0], "province")));
            && r.Merged? && r.warnings == (if key in warnings then warnings else warnings + [key])
            && Get(Entries(r.data[idx]), name) == Get(parent, name)
            && Get(Entries(r.data[idx]), key) == Some(days)
            && forall k :: k != key ==> Get(Entries(r.data[idx]), k) == Get(parent, k))
      && (forall j :: 0 <= j < |data| && j != idx ==> r.data[j] == data[j])
  {
    var r := InsertEntry(data, idx, (name, days), warnings);
    var parent := Entries(data[idx]);
    if data[idx].municipalities.Some? {
      if name !in Keys(parent) {
        assert r == Merged(AppendMunicipality(data, idx, name, days), warnings);
        assert Entries(r.data[idx]) == Put(parent, name, days);
        AppendChangesOneEntry(data, idx, name, days);
      } else if days != [] {
        var province := Interpolate(ValueAt(days[0], "province"));
        var key := RenamedKey(name, province);
        assert ProvinceOf(days) == Success(province);
        assert r.data == AppendMunicipality(data, idx, key, days);
        RenamedKeyDiffers(name, province);
        AppendChangesOneEntry(data, idx, key, days);
      }
    }
  }

  /** An entry whose name base snapshot `idx` lacks is appended as it is, and nothing else changes. */
  lemma NewEntryAppends(data: seq<Snapshot>, idx: nat, entry: (string, Days), warnings: seq<string>)
    requires idx < |data| && data[idx].municipalities.Some?
    requires entry.0 !in Keys(Entries(data[idx]))
    ensures var r := InsertEntry(data, idx, entry, warnings);
      && r.Merged? && r.warnings == warnings
      && r.data[idx].municipalities.Some?
      && Keys(Entries(r.data[idx])) == Keys(Entries(data[idx])) + [entry.0]
      && Get(Entries(r.data[idx]), entry.0) == Some(entry.1)
      && (forall k :: k != entry.0 ==> Get(Entries(r.data[idx]), k) == Get(Entries(data[idx]), k))
      && OthersUnchanged(data, r.data, idx)
  {
    var r := AppendMunicipality(data, idx, entry.0, entry.1);
    assert Entries(r[idx]) == Put(Entries(data[idx]), entry.0, entry.1);
  }

  /** `b` is `a` but for the snapshot at `idx`. */
  ghost predicate OthersUnchanged(a: seq<Snapshot>, b: seq<Snapshot>, idx: nat) {
    |b| == |a| && forall j :: 0 <= j < |a| && j != idx ==> b[j] == a[j]
  }

  /** Mapping `m` gives every key of `entries` the days `entries` gives it. */
  ghost predicate HoldsEntries(m: Municipalities, entries: Municipalities) {
    forall k :: k in Keys(entries) ==> Get(m, k) == Get(entries, k)
  }

  /** Every key outside `entries` holds in `after` what it held in `before`. */
  ghost predicate KeepsOthers(before: Municipalities, after: Municipalities, entries: Municipalities) {
    forall k :: k !in Keys(entries) ==> Get(after, k) == Get(before, k)
  }

  /** The names of `entries` are distinct and none is in `keys`. */
  ghost predicate FreshEntries(entries: Municipalities, keys: seq<string>) {
    Distinct(Keys(entries)) && forall k :: k in Keys(entries) ==> k !in keys
  }

  lemma FreshSplit(front: Municipalities, e: (string, Days), keys: seq<string>)
    requires FreshEntries(front + [e], keys)
    ensures FreshEntries(front, keys) && e.0 !in keys && e.0 !in Keys(front)
  {
    KeysAppend(front, e);
    DistinctSplit(Keys(front), e.0);
    assert e.0 in Keys(front + [e]);
  }

  /**
   * A mapping that agreed with `front` on its keys and then gained the
   * entry `e` (a key `front` lacks) agrees with `front + [e]` on its keys.
   */
  lemma LookupsAfterAppend(front: Municipalities, e: (string, Days), before: Municipalities, after: Municipalities)
    requires e.0 !in Keys(front) && HoldsEntries(before, front)
    requires forall k :: k != e.0 ==> Get(after, k) == Get(before, k)
    requires Get(after, e.0) == Some(e.1)
    ensures HoldsEntries(after, front + [e])
  {
    KeysAppend(front, e);
    forall k | k in Keys(front + [e]) ensures Get(after, k) == Get(front + [e], k) {
      GetAppend(front, e, k);
    }
  }

  /** The last entry of DisjointEntriesAppend, once the others are in. */
  lemma DisjointStep(data: seq<Snapshot>, d: seq<Snapshot>, idx: nat, front: Municipalities, e: (string, Days), warnings: seq<string>)
    requires idx < |data| && |d| == |data| && d[idx].municipalities.Some?
    requires e.0 !in Keys(Entries(data[idx])) && e.0 !in Keys(front)
    requires Keys(Entries(d[idx])) == Keys(Entries(data[idx])) + Keys(front)
    requires HoldsEntries(Entries(d[idx]), front) && OthersUnchanged(data, d, idx)
    requires KeepsOthers(Entries(data[idx]), Entries(d[idx]), front)
    ensures var r := InsertEntry(d, idx, e, warnings);
      && r.Merged? && r.warnings == warnings
      && r.data[idx].municipalities.Some?
      && Keys(Entries(r.data[idx])) == Keys(Entries(data[idx])) + Keys(front + [e])
      && HoldsEntries(Entries(r.data[idx]), front + [e])
      && KeepsOthers(Entries(data[idx]), Entries(r.data[idx]), front + [e])
      && OthersUnchanged(data, r.data, idx)
  {
    var parent := Keys(Entries(data[idx]));
    NewEntryAppends(d, idx, e, warnings);
    var r := InsertEntry(d, idx, e, warnings);
    LookupsAfterAppend(front, e, Entries(d[idx]), Entries(r.data[idx]));
    KeysAppend(front, e);
    assert (parent + Keys(front)) + [e.0] == parent + (Keys(front) + [e.0]);
    assert OthersUnchanged(data, r.data, idx) by {
      assert OthersUnchanged(data, d, idx) && OthersUnchanged(d, r.data, idx);
    }
    assert KeepsOthers(Entries(data[idx]), Entries(r.data[idx]), front + [e]) by {
      forall k | k !in Keys(front + [e]) ensures Get(Entries(r.data[idx]), k) == Get(Entries(data[idx]), k) {
        assert k != e.0 && k !in Keys(front);
      }
    }
  }

  /**
   * Entries whose names are distinct and all new to base snapshot `idx`
   * are appended in order, each with its own days, without warnings and
   * without touching any other snapshot.
   */
  lemma {:induction false} DisjointEntriesAppend(data: seq<Snapshot>, idx: nat, entries: Municipalities, warnings: seq<string>)
    requires idx < |data| && data[idx].municipalities.Some?
    requires FreshEntries(entries, Keys(Entries(data[idx])))
    ensures var r := InsertEntries(data, idx, entries, warnings);
      && r.Merged? && r.warnings == warnings
      && r.data[idx].municipalities.Some?
      && Keys(Entries(r.data[idx])) == Keys(Entries(data[idx])) + Keys(entries)
      && HoldsEntries(Entries(r.data[idx]), entries)
      && KeepsOthers(Entries(data[idx]), Entries(r.data[idx]), entries)
      && OthersUnchanged(data, r.data, idx)
    decreases |entries|
  {
    if entries != [] {
      var n := |entries| - 1;
      var front, e := entries[..n], entries[n];
      var parent := Keys(Entries(data[idx]));
      assert entries == front + [e];
      FreshSplit(front, e, parent);
      DisjointEntriesAppend(data, idx, front, warnings);
      var d := InsertEntries(data, idx, front, warnings).data;
      DisjointStep(data, d, idx, front, e, warnings);
      assert InsertEntries(data, idx, entries, warnings) == InsertEntry(d, idx, e, warnings);
    }
  }

  /** The entry loop after one more entry. */
  lemma InsertEntriesStep(data: seq<Snapshot>, idx: nat, entries: Municipalities, n: nat, warnings: seq<string>)
    requires idx < |data| && n < |entries|
    requires InsertEntries(data, idx, entries[..n], warnings).Merged?
    ensures var mid := InsertEntries(data, idx, entries[..n], warnings);
      InsertEntries(data, idx, entries[..n + 1], warnings) == InsertEntry(mid.data, idx, entries[n], mid.warnings)
  {
    assert entries[..n + 1][..n] == entries[..n];
  }

  /** The snapshot loop after one more snapshot. */
  lemma MergeSnapshotsStep(data: seq<Snapshot>, items: seq<Snapshot>, n: nat, warnings: seq<string>)
    requires n < |items|
    requires MergeSnapshots(data, items[..n], warnings).Merged?
    ensures var mid := MergeSnapshots(data, items[..n], warnings);
      MergeSnapshots(data, items[..n + 1], warnings) == MergeSnapshot(mid.data, items[n], mid.warnings)
  {
    assert items[..n + 1][..n] == items[..n];
  }

  /** The file loop after one more file. */
  lemma MergeFilesStep(dir: string, data: seq<Snapshot>, files: seq<FileEntry>, n: nat, columns: Option<seq<string>>, warnings: seq<string>)
    requires n < |files|
    requires MergeFiles(dir, data, files[..n], columns, warnings).Merged?
    ensures var mid := MergeFiles(dir, data, files[..n], columns, warnings);
      MergeFiles(dir, data, files[..n + 1], columns, warnings) == MergeFile(dir, mid.data, files[n], columns, mid.warnings)
  {
    assert files[..n + 1][..n] == files[..n];
  }

  /** Once the entry loop stops, the entries after it are not looked at. */
  lemma {:induction false} InsertEntriesStopped(data: seq<Snapshot>, idx: nat, entries: Municipalities, n: nat, warnings: seq<string>)
    requires idx < |data| && n <= |entries|
    requires !InsertEntries(data, idx, entries[..n], warnings).Merged?
    ensures InsertEntries(data, idx, entries, warnings) == InsertEntries(data, idx, entries[..n], warnings)
    decreases |entries| - n
  {
    if n == |entries| {
      assert entries[..n] == entries;
    } else {
      assert entries[..n + 1][..n] == entries[..n];
      InsertEntriesStopped(data, idx, entries, n + 1, warnings);
    }
  }

  /** Once the snapshot loop stops, the snapshots after it are not looked at. */
  lemma {:induction false} MergeSnapshotsStopped(data: seq<Snapshot>, items: seq<Snapshot>, n: nat, warnings: seq<string>)
    requires n <= |items|
    requires !MergeSnapshots(data, items[..n], warnings).Merged?
    ensures MergeSnapshots(data, items, warnings) == MergeSnapshots(data, items[..n], warnings)
    decreases |items| - n
  {
    if n == |items| {
      assert items[..n] == items;
    } else {
      assert items[..n + 1][..n] == items[..n];
      MergeSnapshotsStopped(data, items, n + 1, warnings);
    }
  }

  /** Once the merge stops, the files after it are not read. */
  lemma {:induction false} MergeFilesStopped(dir: string, data: seq<Snapshot>, files: seq<FileEntry>, n: nat, columns: Option<seq<string>>, warnings: seq<string>)
    requires n <= |files|
    requires !MergeFiles(dir, data, files[..n], columns, warnings).Merged?
    ensures MergeFiles(dir, data, files, columns, warnings) == MergeFiles(dir, data, files[..n], columns, warnings)
    decreases |files| - n
  {
    if n == |files| {
      assert files[..n] == files;
    } else {
      assert files[..n + 1][..n] == files[..n];
      MergeFilesStopped(dir, data, files, n + 1, columns, warnings);
    }
  }

  /**
   * A second `.json` file with another number of snapshots than the first
   * is an error naming its path, and the base is left as it was read.
   */
  lemma LengthMismatchFails(dir: string, files: seq<FileEntry>, columns: Option<seq<string>>, prior: seq<Snapshot>)
    requires |JsonFiles(files)| >= 2
    requires LoadFile(JsonFiles(files)[0], columns).Success? && LoadFile(JsonFiles(files)[1], columns).Success?
    requires |LoadFile(JsonFiles(files)[0], columns).value| != |LoadFile(JsonFiles(files)[1], columns).value|
    ensures LoadDirectory(dir, files, columns, prior)
      == Failed(LoadFile(JsonFiles(files)[0], columns).value, "Inconsistent data length on " + Join(dir, JsonFiles(files)[1].name))
  {
    var json := JsonFiles(files);
    var base := LoadFile(json[0], columns).value;
    var rest := json[1..];
    assert rest[..1][..0] == [];
    assert MergeFiles(dir, base, rest[..1], columns, []).Failed?;
    MergeFilesStopped(dir, base, rest, 1, columns, []);
  }

  /** "Alpha" in province P2 is renamed "Alpha-P2". */
  lemma AlphaRenamed()
    ensures RenamedKey("Alpha", "P2") == "Alpha-P2"
  {
    var name := "Alpha-P2";
    assert "Alpha" + "-" + "P2" == name;
    assert !IsSpace(name[0]) && TrimStart(name) == name;
    assert !IsSpace(name[|name| - 1]) && TrimEnd(name) == name;
  }

  /** The colliding entry of the example lands under its renamed key. */
  lemma AlphaInserted(s: Snapshot)
    ensures var first: Days := [[("province", Str("P1"))]];
      var second: Days := [[("province", Str("P2"))]];
      InsertEntry([s.(municipalities := Some([("Alpha", first)]))], 0, ("Alpha", second), [])
        == Merged([s.(municipalities := Some([("Alpha", first), ("Alpha-P2", second)]))], ["Alpha-P2"])
  {
    var first: Days := [[("province", Str("P1"))]];
    var second: Days := [[("province", Str("P2"))]];
    var base := s.(municipalities := Some([("Alpha", first)]));
    var name := "Alpha-P2";
    AlphaRenamed();
    assert ValueAt(second[0], "province") == Str("P2");
    assert ProvinceOf(second) == Success("P2");
    assert Get([("Alpha", first)], "Alpha").Some?;
    assert Put([("Alpha", first)], name, second) == [("Alpha", first), (name, second)];
    assert Entries(base) == [("Alpha", first)];
    assert AppendMunicipality([base], 0, name, second) == [s.(municipalities := Some([("Alpha", first), (name, second)]))];
  }

  /**
   * Two runs created at the same time, each listing "Alpha" (in provinces
   * P1 and P2): the merged run keeps the first under "Alpha" and stores the
   * second under "Alpha-P2", which is then reported once.
   */
  lemma CollisionRenames(s: Snapshot)
    ensures var first: Days := [[("province", Str("P1"))]];
      var second: Days := [[("province", Str("P2"))]];
      var base := s.(municipalities := Some([("Alpha", first)]));
      var incoming := s.(municipalities := Some([("Alpha", second)]));
      MergeSnapshots([base], [incoming], [])
        == Merged([s.(municipalities := Some([("Alpha", first), ("Alpha-P2", second)]))], ["Alpha-P2"])
  {
    var first: Days := [[("province", Str("P1"))]];
    var second: Days := [[("province", Str("P2"))]];
    var base := s.(municipalities := Some([("Alpha", first)]));
    var incoming := s.(municipalities := Some([("Alpha", second)]));
    var merged := [s.(municipalities := Some([("Alpha", first), ("Alpha-P2", second)]))];
    AlphaInserted(s);
    assert Entries(incoming)[..0] == [];
    assert InsertEntries([base], 0, Entries(incoming), []) == Merged(merged, ["Alpha-P2"]);
    assert FindIndex([base], incoming.dateCreatedStr) == Some(0);
    assert MergeSnapshot([base], incoming, []) == Merged(merged, ["Alpha-P2"]);
    assert [incoming][..0] == [];
  }

  /**
   * The lenient exit: an incoming snapshot with at least one entry, whose
   * matching base snapshot has a null mapping, abandons the merge with no
   * error and no change.
   */
  lemma NullBaseAbandons(data: seq<Snapshot>, item: Snapshot, warnings: seq<string>)
    requires FindIndex(data, item.dateCreatedStr).Some?
    requires data[FindIndex(data, item.dateCreatedStr).value].municipalities.None?
    requires Entries(item) != []
    ensures MergeSnapshot(data, item, warnings) == Abandoned(data)
  {
    var idx := FindIndex(data, item.dateCreatedStr).value;
    var entries := Entries(item);
    assert entries[..1][..0] == [];
    assert InsertEntries(data, idx, entries[..1], warnings) == Abandoned(data);
    InsertEntriesStopped(data, idx, entries, 1, warnings);
  }

  /** Merging keeps every snapshot's creation time, so the date lookup sees the base's dates throughout. */
  lemma GrowsKeepsDates(a: seq<Snapshot>, b: seq<Snapshot>)
    requires Grows(a, b)
    ensures forall t :: 0 <= t < |a| ==> b[t].dateCreatedStr == a[t].dateCreatedStr
  {
    forall t | 0 <= t < |a| ensures b[t].dateCreatedStr == a[t].dateCreatedStr {
      assert Frame(b[t]).dateCreatedStr == Frame(a[t]).dateCreatedStr;
    }
  }

  /** The date lookup depends on the creation times only. */
  lemma FindIndexSameDates(a: seq<Snapshot>, b: seq<Snapshot>, date: string)
    requires |a| == |b| && forall t :: 0 <= t < |a| ==> b[t].dateCreatedStr == a[t].dateCreatedStr
    ensures FindIndex(b, date) == FindIndex(a, date)
  {
  }

  /** The last incoming snapshot matching no base snapshot stops the merge. */
  lemma UnmatchedLastStops(data: seq<Snapshot>, items: seq<Snapshot>, warnings: seq<string>)
    requires items != []
    requires forall t :: 0 <= t < |data| ==> data[t].dateCreatedStr != items[|items| - 1].dateCreatedStr
    ensures !MergeSnapshots(data, items, warnings).Merged?
  {
    var n := |items| - 1;
    var mid := MergeSnapshots(data, items[..n], warnings);
    MergeSnapshotsExtends(data, items[..n], warnings);
    if mid.Merged? {
      GrowsKeepsDates(data, mid.data);
      FindIndexSameDates(data, mid.data, items[n].dateCreatedStr);
      assert MergeSnapshot(mid.data, items[n], mid.warnings).Failed?;
    }
  }

  /**
   * An incoming snapshot created at a time no base snapshot has stops the
   * merge: it cannot end as a completed merge.
   */
  lemma {:induction false} UnmatchedDateStops(data: seq<Snapshot>, items: seq<Snapshot>, j: nat, warnings: seq<string>)
    requires j < |items|
    requires forall t :: 0 <= t < |data| ==> data[t].dateCreatedStr != items[j].dateCreatedStr
    ensures !MergeSnapshots(data, items, warnings).Merged?
    decreases |items|
  {
    var n := |items| - 1;
    if j < n {
      var front := items[..n];
      assert front[j] == items[j];
      UnmatchedDateStops(data, front, j, warnings);
      MergeSnapshotsStopped(data, items, n, warnings);
    } else {
      UnmatchedLastStops(data, items, warnings);
    }
  }

  /**
   * Whichever file it is, a loaded file whose number of snapshots differs
   * from the base's stops the merge with an error naming its path, the
   * base as the files before it left it.
   */
  lemma LengthMismatchAt(dir: string, data: seq<Snapshot>, files: seq<FileEntry>, i: nat, columns: Option<seq<string>>, warnings: seq<string>)
    requires i < |files|
    requires MergeFiles(dir, data, files[..i], columns, warnings).Merged?
    requires LoadFile(files[i], columns).Success? && |LoadFile(files[i], columns).value| != |data|
    ensures MergeFiles(dir, data, files, columns, warnings)
      == Failed(MergeFiles(dir, data, files[..i], columns, warnings).data, "Inconsistent data length on " + Join(dir, files[i].name))
  {
    MergeFilesStep(dir, data, files, i, columns, warnings);
    MergeFilesStopped(dir, data, files, i + 1, columns, warnings);
  }

  /**
   * Whichever snapshot it is, one created at a time no base snapshot has
   * stops the merge with an error naming that time, the base as the
   * snapshots before it left it.
   */
  lemma UnmatchedDateFails(data: seq<Snapshot>, items: seq<Snapshot>, j: nat, warnings: seq<string>)
    requires j < |items|
    requires MergeSnapshots(data, items[..j], warnings).Merged?
    requires forall t :: 0 <= t < |data| ==> data[t].dateCreatedStr != items[j].dateCreatedStr
    ensures MergeSnapshots(data, items, warnings)
      == Failed(MergeSnapshots(data, items[..j], warnings).data, "Error finding data entry for " + items[j].dateCreatedStr)
  {
    var mid := MergeSnapshots(data, items[..j], warnings);
    MergeSnapshotsExtends(data, items[..j], warnings);
    GrowsKeepsDates(data, mid.data);
    FindIndexSameDates(data, mid.data, items[j].dateCreatedStr);
    MergeSnapshotsStep(data, items, j, warnings);
    MergeSnapshotsStopped(data, items, j + 1, warnings);
  }

  /**
   * Snapshot `after` is `before` with the entries `inc` added: nothing
   * changes when there are none; otherwise the mapping is non-null, its keys
   * are the old keys followed by the names of `inc`, each new name holds its
   * incoming days and every other key keeps its days.
   */
  ghost predicate Extended(before: Snapshot, after: Snapshot, inc: Municipalities) {
    if inc == [] then after == before
    else
      && after.municipalities.Some?
      && Keys(Entries(after)) == Keys(Entries(before)) + Keys(inc)
      && HoldsEntries(Entries(after), inc)
      && KeepsOthers(Entries(before), Entries(after), inc)
  }

  /** The entries `inc` can be added to `s` without a name collision. */
  ghost predicate FreshFor(s: Snapshot, inc: Municipalities) {
    inc != [] ==> s.municipalities.Some? && FreshEntries(inc, Keys(Entries(s)))
  }

  /** Every snapshot of `items` finds a base snapshot created at the same time. */
  ghost predicate AllDatesFound(data: seq<Snapshot>, items: seq<Snapshot>) {
    forall j :: 0 <= j < |items| ==> FindIndex(data, items[j].dateCreatedStr).Some?
  }

  /** The entries that the snapshots `items` bring to base snapshot `t`, in loop order. */
  function FileIncoming(data: seq<Snapshot>, items: seq<Snapshot>, t: nat): Municipalities
    decreases |items|
  {
    if items == [] then []
    else
      var n := |items| - 1;
      FileIncoming(data, items[..n], t) + if FindIndex(data, items[n].dateCreatedStr) == Some(t) then Entries(items[n]) else []
  }

  /** The entries that the later files `files` bring to base snapshot `t`, in loop order. */
  function AllIncoming(data: seq<Snapshot>, files: seq<FileEntry>, columns: Option<seq<string>>, t: nat): Municipalities
    decreases |files|
  {
    if files == [] then []
    else
      var n := |files| - 1;
      AllIncoming(data, files[..n], columns, t) +
        match LoadFile(files[n], columns)
        case Success(items) => FileIncoming(data, items, t)
        case Failure(_) => []
  }

  /** Fresh entries split into a fresh front, a back fresh against the front too, with no name in both. */
  lemma FreshConcat(front: Municipalities, back: Municipalities, keys: seq<string>)
    requires FreshEntries(front + back, keys)
    ensures FreshEntries(front, keys) && FreshEntries(back, keys + Keys(front))
    ensures forall k :: k in Keys(front) ==> k !in Keys(back)
  {
    KeysConcat(front, back);
    DistinctConcat(Keys(front), Keys(back));
  }

  lemma FreshForPrefix(s: Snapshot, front: Municipalities, back: Municipalities)
    requires FreshFor(s, front + back)
    ensures FreshFor(s, front)
  {
    if front != [] {
      FreshConcat(front, back, Keys(Entries(s)));
    }
  }

  /** A mapping given `front` and then `back` holds `front + back` and keeps every other key. */
  lemma ChainedLookups(ma: Municipalities, mb: Municipalities, mc: Municipalities, front: Municipalities, back: Municipalities)
    requires HoldsEntries(mb, front) && KeepsOthers(ma, mb, front)
    requires HoldsEntries(mc, back) && KeepsOthers(mb, mc, back)
    requires forall k :: k in Keys(front) ==> k !in Keys(back)
    ensures HoldsEntries(mc, front + back) && KeepsOthers(ma, mc, front + back)
  {
    KeysConcat(front, back);
    forall k | k in Keys(front + back) ensures Get(mc, k) == Get(front + back, k) {
      GetConcat(front, back, k);
    }
  }

  /** Keys appended twice are the old keys followed by both additions. */
  lemma KeysChained(ka: seq<string>, kb: seq<string>, kc: seq<string>, kf: seq<string>, kk: seq<string>)
    requires kb == ka + kf && kc == kb + kk
    ensures kc == ka + (kf + kk)
  {
  }

  /** Adding `front` and then `back` adds `front + back`. */
  lemma ExtendedTrans(a: Snapshot, b: Snapshot, c: Snapshot, front: Municipalities, back: Municipalities)
    requires Extended(a, b, front) && Extended(b, c, back)
    requires FreshFor(a, front + back)
    ensures Extended(a, c, front + back)
  {
    if front == [] {
      assert front + back == back;
    } else if back == [] {
      assert front + back == front;
    } else {
      FreshConcat(front, back, Keys(Entries(a)));
      KeysConcat(front, back);
      KeysChained(Keys(Entries(a)), Keys(Entries(b)), Keys(Entries(c)), Keys(front), Keys(back));
      ChainedLookups(Entries(a), Entries(b), Entries(c), front, back);
    }
  }

  /**
   * With `front` already added to base snapshot `idx`, the entry loop over
   * `back` completes without a warning and leaves `front + back` added.
   */
  lemma ExtendAppend(d: seq<Snapshot>, idx: nat, before: Snapshot, front: Municipalities, back: Municipalities, warnings: seq<string>)
    requires idx < |d| && Extended(before, d[idx], front)
    requires FreshFor(before, front + back)
    ensures var r := InsertEntries(d, idx, back, warnings);
      && r.Merged? && r.warnings == warnings
      && Extended(before, r.data[idx], front + back)
      && OthersUnchanged(d, r.data, idx)
  {
    if back == [] {
      assert front + back == front;
    } else {
      FreshConcat(front, back, Keys(Entries(before)));
      assert Keys(Entries(d[idx])) == Keys(Entries(before)) + Keys(front);
      DisjointEntriesAppend(d, idx, back, warnings);
      ExtendedTrans(before, d[idx], InsertEntries(d, idx, back, warnings).data[idx], front, back);
    }
  }

  /** Entries added to a snapshot with room for more leave room for the rest. */
  lemma FreshAfter(a: Snapshot, b: Snapshot, front: Municipalities, back: Municipalities)
    requires Extended(a, b, front) && FreshFor(a, front + back)
    ensures FreshFor(b, back)
  {
    if back != [] {
      FreshConcat(front, back, Keys(Entries(a)));
      assert Keys(Entries(b)) == Keys(Entries(a)) + Keys(front);
    }
  }

  /** Which entries go where depends on the base's creation times only. */
  lemma {:induction false} FileIncomingSameDates(a: seq<Snapshot>, b: seq<Snapshot>, items: seq<Snapshot>, t: nat)
    requires |a| == |b| && forall j :: 0 <= j < |a| ==> b[j].dateCreatedStr == a[j].dateCreatedStr
    ensures FileIncoming(b, items, t) == FileIncoming(a, items, t)
    decreases |items|
  {
    if items != [] {
      FileIncomingSameDates(a, b, items[..|items| - 1], t);
      FindIndexSameDates(a, b, items[|items| - 1].dateCreatedStr);
    }
  }

  /**
   * The snapshot loop over one later file whose every snapshot finds its
   * base snapshot and whose municipality names are new to it (distinct, and
   * absent from the base mapping, which is non-null): the merge completes
   * without a warning, and each base snapshot `t` has gained exactly the
   * entries its matching snapshots brought, in loop order, after its own.
   */
  lemma {:induction false} DisjointSnapshotsAppend(data: seq<Snapshot>, items: seq<Snapshot>, warnings: seq<string>)
    requires AllDatesFound(data, items)
    requires forall t :: 0 <= t < |data| ==> FreshFor(data[t], FileIncoming(data, items, t))
    ensures var r := MergeSnapshots(data, items, warnings);
      && r.Merged? && r.warnings == warnings
      && forall t :: 0 <= t < |data| ==> Extended(data[t], r.data[t], FileIncoming(data, items, t))
    decreases |items|
  {
    if items != [] {
      var n := |items| - 1;
      var front, it := items[..n], items[n];
      SnapshotsPrefixFresh(data, items);
      DisjointSnapshotsAppend(data, front, warnings);
      var mid := MergeSnapshots(data, front, warnings);
      MergeSnapshotsExtends(data, front, warnings);
      GrowsKeepsDates(data, mid.data);
      FindIndexSameDates(data, mid.data, it.dateCreatedStr);
      var t0 := FindIndex(data, it.dateCreatedStr).value;
      MergeSnapshotsStep(data, items, n, warnings);
      assert items[..n + 1] == items;
      ExtendAppend(mid.data, t0, data[t0], FileIncoming(data, front, t0), Entries(it), warnings);
      SnapshotsLastExtended(data, mid.data, InsertEntries(mid.data, t0, Entries(it), warnings).data, items, t0);
    }
  }

  /** What DisjointSnapshotsAppend demands of `items` it demands of the snapshots before the last. */
  lemma SnapshotsPrefixFresh(data: seq<Snapshot>, items: seq<Snapshot>)
    requires items != [] && AllDatesFound(data, items)
    requires forall t :: 0 <= t < |data| ==> FreshFor(data[t], FileIncoming(data, items, t))
    ensures AllDatesFound(data, items[..|items| - 1])
    ensures forall t :: 0 <= t < |data| ==> FreshFor(data[t], FileIncoming(data, items[..|items| - 1], t))
  {
    var n := |items| - 1;
    var front, it := items[..n], items[n];
    forall j | 0 <= j < |front| ensures FindIndex(data, front[j].dateCreatedStr).Some? {
      assert front[j] == items[j];
    }
    forall t | 0 <= t < |data| ensures FreshFor(data[t], FileIncoming(data, front, t)) {
      FreshForPrefix(data[t], FileIncoming(data, front, t),
        if FindIndex(data, it.dateCreatedStr) == Some(t) then Entries(it) else []);
    }
  }

  /** The last snapshot's entries went to base snapshot `t0` only. */
  lemma SnapshotsLastExtended(data: seq<Snapshot>, mid: seq<Snapshot>, r: seq<Snapshot>, items: seq<Snapshot>, t0: nat)
    requires items != [] && |mid| == |data| && t0 < |data|
    requires FindIndex(data, items[|items| - 1].dateCreatedStr) == Some(t0)
    requires forall t :: 0 <= t < |data| ==> Extended(data[t], mid[t], FileIncoming(data, items[..|items| - 1], t))
    requires OthersUnchanged(mid, r, t0)
    requires Extended(data[t0], r[t0], FileIncoming(data, items[..|items| - 1], t0) + Entries(items[|items| - 1]))
    ensures forall t :: 0 <= t < |data| ==> Extended(data[t], r[t], FileIncoming(data, items, t))
  {
    var front := items[..|items| - 1];
    forall t | 0 <= t < |data| ensures Extended(data[t], r[t], FileIncoming(data, items, t)) {
      if t != t0 {
        assert FileIncoming(data, items, t) == FileIncoming(data, front, t) + [] == FileIncoming(data, front, t);
      }
    }
  }

  /**
   * The file loop over later files that all load, match the base in
   * length and in creation times, and bring only names new to their base
   * snapshots: the merge completes without a warning, and each base
   * snapshot has gained exactly the incoming entries, file after file, in
   * loop order, after its own.
   */
  lemma {:induction false} DisjointFilesAppend(dir: string, data: seq<Snapshot>, files: seq<FileEntry>, columns: Option<seq<string>>, warnings: seq<string>)
    requires forall i :: 0 <= i < |files| ==> LoadFile(files[i], columns).Success?
    requires forall i :: 0 <= i < |files| ==> |LoadFile(files[i], columns).value| == |data|
    requires forall i :: 0 <= i < |files| ==> AllDatesFound(data, LoadFile(files[i], columns).value)
    requires forall t :: 0 <= t < |data| ==> FreshFor(data[t], AllIncoming(data, files, columns, t))
    ensures var r := MergeFiles(dir, data, files, columns, warnings);
      && r.Merged? && r.warnings == warnings
      && forall t :: 0 <= t < |data| ==> Extended(data[t], r.data[t], AllIncoming(data, files, columns, t))
    decreases |files|
  {
    if files != [] {
      var n := |files| - 1;
      var front, f := files[..n], files[n];
      var items := LoadFile(f, columns).value;
      forall i | 0 <= i < |front|
        ensures LoadFile(front[i], columns).Success? && |LoadFile(front[i], columns).value| == |data|
        ensures AllDatesFound(data, LoadFile(front[i], columns).value)
      {
        assert front[i] == files[i];
      }
      forall t | 0 <= t < |data| ensures FreshFor(data[t], AllIncoming(data, front, columns, t)) {
        FreshForPrefix(data[t], AllIncoming(data, front, columns, t), FileIncoming(data, items, t));
      }
      DisjointFilesAppend(dir, data, front, columns, warnings);
      var mid := MergeFiles(dir, data, front, columns, warnings);
      MergeFilesExtends(dir, data, front, columns, warnings);
      GrowsKeepsDates(data, mid.data);
      assert MergeFiles(dir, data, files, columns, warnings) == MergeSnapshots(mid.data, items, warnings);
      forall j | 0 <= j < |items| ensures FindIndex(mid.data, items[j].dateCreatedStr).Some? {
        FindIndexSameDates(data, mid.data, items[j].dateCreatedStr);
      }
      forall t | 0 <= t < |data| ensures FreshFor(mid.data[t], FileIncoming(mid.data, items, t)) {
        FileIncomingSameDates(data, mid.data, items, t);
        FreshAfter(data[t], mid.data[t], AllIncoming(data, front, columns, t), FileIncoming(data, items, t));
      }
      DisjointSnapshotsAppend(mid.data, items, warnings);
      var r := MergeSnapshots(mid.data, items, warnings);
      forall t | 0 <= t < |data| ensures Extended(data[t], r.data[t], AllIncoming(data, files, columns, t)) {
        FileIncomingSameDates(data, mid.data, items, t);
        ExtendedTrans(data[t], mid.data[t], r.data[t], AllIncoming(data, front, columns, t), FileIncoming(data, items, t));
      }
    }
  }
}
