/**
 * Column ordering (excelreader.ts, initColumnHeaders and orderDataColumns):
 * the spreadsheet columns are some leading columns followed by the schema
 * fields not already among them, and every day record is rebuilt key by key
 * in that order, so that the workbook writer, which lays out an object's
 * properties in insertion order, puts the values under the right headers.
 */
module Columns {
  import opened Json
  import opened Schema

  /** The columns the reader puts first. */
  const LeadingColumns: seq<string> := ["province", "municipality"]

  /**
   * The column list: `initial`, then each of `fields` not yet in the list,
   * as the reduce in initColumnHeaders builds it, one field at a time.
   */
  function ColumnOrder(initial: seq<string>, fields: seq<string>): (r: seq<string>)
    ensures |initial| <= |r| && r[..|initial|] == initial
    ensures forall f :: f in fields ==> f in r
    ensures forall c :: c in r ==> c in initial || c in fields
    decreases |fields|
  {
    if fields == [] then initial
    else
      var acc := ColumnOrder(initial, fields[..|fields| - 1]);
      var f := fields[|fields| - 1];
      if f in acc then acc else acc + [f]
  }

  /** The column list over one field more, in the prefix form the reduce walks. */
  lemma ColumnOrderPrefixStep(initial: seq<string>, fields: seq<string>, n: nat)
    requires n < |fields|
    ensures var acc := ColumnOrder(initial, fields[..n]);
      ColumnOrder(initial, fields[..n + 1]) == if fields[n] in acc then acc else acc + [fields[n]]
  {
    assert fields[..n + 1][..n] == fields[..n];
  }

  /** The fields `initial` lacks, in declaration order. */
  function Missing(fields: seq<string>, initial: seq<string>): seq<string>
    decreases |fields|
  {
    if fields == [] then []
    else
      var f := fields[|fields| - 1];
      var rest := Missing(fields[..|fields| - 1], initial);
      if f in initial then rest else rest + [f]
  }

  /** The missing fields are the fields outside `initial`, each as often as in `fields`. */
  lemma {:induction false} MissingMeaning(fields: seq<string>, initial: seq<string>)
    ensures forall x :: x in Missing(fields, initial) <==> x in fields && x !in initial
    ensures Distinct(fields) ==> Distinct(Missing(fields, initial))
    decreases |fields|
  {
    if fields != [] {
      var prefix := fields[..|fields| - 1];
      MissingMeaning(prefix, initial);
      assert fields == prefix + [fields[|fields| - 1]];
    }
  }

  /**
   * With the schema's (distinct) fields, the column list is exactly the
   * leading columns followed by the missing fields in declaration order.
   */
  lemma {:induction false} ColumnOrderShape(initial: seq<string>, fields: seq<string>)
    requires Distinct(fields)
    ensures ColumnOrder(initial, fields) == initial + Missing(fields, initial)
    decreases |fields|
  {
    if fields != [] {
      var prefix, f := fields[..|fields| - 1], fields[|fields| - 1];
      ColumnOrderShape(initial, prefix);
      MissingMeaning(prefix, initial);
      assert f !in prefix;
      assert f in ColumnOrder(initial, prefix) <==> f in initial;
    }
  }

  /** A value occurs once in a sequence without repetitions. */
  lemma {:induction false} OccursOnce<T>(s: seq<T>, x: T)
    requires Distinct(s) && x in s
    ensures multiset(s)[x] == 1
  {
    if s[0] == x {
      assert x !in s[1..];
    } else {
      OccursOnce(s[1..], x);
    }
    assert s == [s[0]] + s[1..];
  }

  /**
   * Each field the leading columns lack appears in the column list exactly
   * once, and the list repeats nothing the leading columns do not repeat.
   */
  lemma ColumnsOnce(initial: seq<string>, fields: seq<string>)
    requires Distinct(fields)
    ensures forall f :: f in fields && f !in initial ==> multiset(ColumnOrder(initial, fields))[f] == 1
    ensures Distinct(initial) ==> Distinct(ColumnOrder(initial, fields))
  {
    ColumnOrderShape(initial, fields);
    MissingMeaning(fields, initial);
    var m := Missing(fields, initial);
    forall f | f in fields && f !in initial
      ensures multiset(ColumnOrder(initial, fields))[f] == 1
    {
      OccursOnce(m, f);
      assert multiset(initial + m) == multiset(initial) + multiset(m);
    }
  }

  /** The schema declares each field once. */
  lemma FieldsDistinct()
    ensures Distinct(MunicipalityFields)
  {
    var fields := MunicipalityFields;
    forall i, j | 0 <= i < j < |fields| ensures fields[i] != fields[j] {
      var a, b := fields[i], fields[j];
      assert |a| != |b| || a[0] != b[0] || a[|a| - 1] != b[|b| - 1];
    }
  }

  /**
   * The columns the reader uses: province and municipality, then the other
   * twelve schema fields (cover to humidity, rainfall to wspeed) in
   * declaration order; no column repeats.
   */
  lemma DefaultColumns()
    ensures ColumnOrder(LeadingColumns, MunicipalityFields)
         == LeadingColumns + MunicipalityFields[..5] + MunicipalityFields[7..]
    ensures Distinct(ColumnOrder(LeadingColumns, MunicipalityFields))
  {
    FieldsDistinct();
    LeadingDistinct();
    ColumnOrderShape(LeadingColumns, MunicipalityFields);
    MissingDefault();
    ColumnsOnce(LeadingColumns, MunicipalityFields);
  }

  lemma LeadingDistinct()
    ensures Distinct(LeadingColumns)
  {
    assert LeadingColumns[0][0] != LeadingColumns[1][0];
  }

  lemma MissingDefault()
    ensures Missing(MunicipalityFields, LeadingColumns) == MunicipalityFields[..5] + MunicipalityFields[7..]
  {
    var fields, leading := MunicipalityFields, LeadingColumns;
    var before, taken, after := fields[..5], fields[5..7], fields[7..];
    assert fields == before + taken + after;
    MissingAppend(before + taken, after, leading);
    MissingAppend(before, taken, leading);
    OtherFields();
    MissingNone(before, leading);
    MissingNone(after, leading);
    assert Missing(taken, leading) == [] by {
      assert taken == [leading[1]] + [leading[0]];
      MissingAppend([leading[1]], [leading[0]], leading);
    }
  }

  /** Apart from municipality and province, no schema field is a leading column. */
  lemma OtherFields()
    ensures forall i :: 0 <= i < 5 || 7 <= i < 14 ==> MunicipalityFields[i] !in LeadingColumns
    ensures MunicipalityFields[5..7] == [LeadingColumns[1], LeadingColumns[0]]
  {
    var fields, leading := MunicipalityFields, LeadingColumns;
    forall i | 0 <= i < 5 || 7 <= i < 14 ensures fields[i] !in leading {
      assert fields[i][0] != leading[0][0] && fields[i][0] != leading[1][0];
    }
  }

  lemma {:induction false} MissingAppend(xs: seq<string>, ys: seq<string>, initial: seq<string>)
    ensures Missing(xs + ys, initial) == Missing(xs, initial) + Missing(ys, initial)
    decreases |ys|
  {
    if ys != [] {
      var zs := xs + ys;
      assert zs[..|zs| - 1] == xs + ys[..|ys| - 1];
      MissingAppend(xs, ys[..|ys| - 1], initial);
    } else {
      assert xs + ys == xs;
    }
  }

  lemma {:induction false} MissingNone(xs: seq<string>, initial: seq<string>)
    requires forall i :: 0 <= i < |xs| ==> xs[i] !in initial
    ensures Missing(xs, initial) == xs
    decreases |xs|
  {
    if xs != [] {
      MissingNone(xs[..|xs| - 1], initial);
    }
  }

  /**
   * The record the reduce in orderDataColumns builds from `rec`: each column
   * assigned in turn its value in `rec` (`undefined` where `rec` lacks it).
   */
  function Project(rec: Record, cols: seq<string>): (r: Record)
    ensures ProjectsOnto(r, rec, cols)
    decreases |cols|
  {
    if cols == [] then []
    else
      var prev := Project(rec, cols[..|cols| - 1]);
      ProjectStep(rec, cols, prev);
      Put(prev, cols[|cols| - 1], ValueAt(rec, cols[|cols| - 1]))
  }

  /**
   * `r` holds exactly the columns, each with its value in `rec`, without
   * repeated keys, and in column order when the columns do not repeat.
   */
  ghost predicate ProjectsOnto(r: Record, rec: Record, cols: seq<string>) {
    && (forall k :: Get(r, k) == if k in cols then Some(ValueAt(rec, k)) else None)
    && Distinct(Keys(r))
    && (Distinct(cols) ==> Keys(r) == cols)
  }

  /** One more column assigned to a record that holds exactly the earlier ones. */
  lemma ProjectStep(rec: Record, cols: seq<string>, prev: Record)
    requires cols != [] && ProjectsOnto(prev, rec, cols[..|cols| - 1])
    ensures ProjectsOnto(Put(prev, cols[|cols| - 1], ValueAt(rec, cols[|cols| - 1])), rec, cols)
  {
    var prefix, c := cols[..|cols| - 1], cols[|cols| - 1];
    assert cols == prefix + [c];
    ProjectStepValues(rec, prefix, c, prev);
    PutKeepsDistinct(prev, c, ValueAt(rec, c));
    if Distinct(cols) {
      DistinctSplit(prefix, c);
    }
  }

  /** The values after one more column: the earlier columns' and the new one's. */
  lemma ProjectStepValues(rec: Record, prefix: seq<string>, c: string, prev: Record)
    requires forall k :: Get(prev, k) == if k in prefix then Some(ValueAt(rec, k)) else None
    ensures forall k :: Get(Put(prev, c, ValueAt(rec, c)), k) == if k in prefix + [c] then Some(ValueAt(rec, k)) else None
  {
    var r := Put(prev, c, ValueAt(rec, c));
    forall k ensures Get(r, k) == if k in prefix + [c] then Some(ValueAt(rec, k)) else None {
      assert (k in prefix + [c]) == (k in prefix || k == c);
    }
  }

  /** The projection onto one column more, in the prefix form the reduce walks. */
  lemma ProjectPrefixStep(rec: Record, cols: seq<string>, n: nat)
    requires n < |cols|
    ensures Project(rec, cols[..n + 1]) == Put(Project(rec, cols[..n]), cols[n], ValueAt(rec, cols[n]))
  {
    assert cols[..n + 1][..n] == cols[..n];
  }

  /** The projection looks at `rec` only through the values of the columns. */
  lemma {:induction false} ProjectReadsColumnsOnly(rec: Record, rec': Record, cols: seq<string>)
    requires forall c :: c in cols ==> ValueAt(rec, c) == ValueAt(rec', c)
    ensures Project(rec, cols) == Project(rec', cols)
    decreases |cols|
  {
    if cols != [] {
      ProjectReadsColumnsOnly(rec, rec', cols[..|cols| - 1]);
    }
  }

  /** Rebuilding an already rebuilt record changes nothing. */
  lemma ProjectIdempotent(rec: Record, cols: seq<string>)
    ensures Project(Project(rec, cols), cols) == Project(rec, cols)
  {
    ProjectReadsColumnsOnly(Project(rec, cols), rec, cols);
  }

  /** The message a property read on `undefined` raises. */
  function UndefinedRead(key: string): string {
    "Cannot read properties of undefined (reading '" + key + "')"
  }

  /**
   * A municipality's list after the `for i < 10` loop: days 0 to 9 rebuilt,
   * later days kept. Where the list is shorter and `cols` is empty, the
   * assignment `list[i] = {}` extends it with empty records.
   */
  function Reordered(days: Days, cols: seq<string>): (r: Days)
    ensures RebuiltDays(days, r, cols)
  {
    var r := seq(10, i requires 0 <= i < 10 => Project(DayAt(days, i), cols)) + (if |days| > 10 then days[10..] else []);
    assert forall i :: 10 <= i < |days| ==> r[i] == days[i] by {
      forall i | 10 <= i < |days| ensures r[i] == days[i] {
        assert r[i] == days[10..][i - 10];
      }
    }
    r
  }

  /** Some municipality of `s` has fewer than 10 day records. */
  predicate HasShortList(s: Snapshot) {
    exists k :: 0 <= k < |Entries(s)| && |Entries(s)[k].1| < 10
  }

  function ReorderSnapshot(s: Snapshot, cols: seq<string>): (r: Snapshot)
    ensures r == s.(municipalities := r.municipalities)
    ensures r.municipalities.None? == s.municipalities.None? && |Entries(r)| == |Entries(s)|
  {
    match s.municipalities
    case None => s
    case Some(m) => s.(municipalities := Some(seq(|m|, k requires 0 <= k < |m| => (m[k].0, Reordered(m[k].1, cols)))))
  }

  /** Reordering a snapshot rebuilds days 0 to 9 of each municipality and changes nothing else. */
  lemma ReorderSnapshotMeaning(s: Snapshot, cols: seq<string>)
    ensures Reorders(s, ReorderSnapshot(s, cols), cols)
  {
    var t := ReorderSnapshot(s, cols);
    assert forall k :: 0 <= k < |Entries(s)| ==> Entries(t)[k] == (Entries(s)[k].0, Reordered(Entries(s)[k].1, cols));
    assert Keys(Entries(t)) == Keys(Entries(s));
  }

  /**
   * `t` is `s` with every day record of days 0 to 9 rebuilt in column
   * order: same values under the columns, nothing else; later days, the
   * municipality keys and every other field unchanged.
   */
  ghost predicate Reorders(s: Snapshot, t: Snapshot, cols: seq<string>) {
    && t == s.(municipalities := t.municipalities)
    && t.municipalities.None? == s.municipalities.None?
    && Keys(Entries(t)) == Keys(Entries(s))
    && forall k :: 0 <= k < |Entries(s)| ==> RebuiltDays(Entries(s)[k].1, Entries(t)[k].1, cols)
  }

  ghost predicate RebuiltDays(d: Days, e: Days, cols: seq<string>) {
    && |e| == (if |d| < 10 then 10 else |d|)
    && (forall i, c :: 0 <= i < 10 ==> Get(e[i], c) == if c in cols then Some(ValueAt(DayAt(d, i), c)) else None)
    && (forall i :: 0 <= i < 10 && Distinct(cols) ==> Keys(e[i]) == cols)
    && (forall i :: 10 <= i < |d| ==> e[i] == d[i])
  }

  /**
   * orderDataColumns over a file's snapshots with columns `cols`: it fails
   * when some municipality has fewer than 10 day records (day `i` is read
   * for every `i` below 10) and `cols` is not empty; otherwise every
   * snapshot is reordered and nothing else changes.
   */
  function OrderColumns(data: seq<Snapshot>, cols: seq<string>): (r: Result<seq<Snapshot>>)
    ensures r.Failure? <==> cols != [] && exists j :: 0 <= j < |data| && HasShortList(data[j])
    ensures r.Failure? ==> r.error == UndefinedRead(cols[0])
    ensures r.Success? ==> |r.value| == |data| && forall j :: 0 <= j < |data| ==> Reorders(data[j], r.value[j], cols)
  {
    if cols != [] && exists j :: 0 <= j < |data| && HasShortList(data[j]) then Failure(UndefinedRead(cols[0]))
    else
      var r := seq(|data|, j requires 0 <= j < |data| => ReorderSnapshot(data[j], cols));
      assert forall j :: 0 <= j < |data| ==> Reorders(data[j], r[j], cols) by {
        forall j | 0 <= j < |data| ensures Reorders(data[j], r[j], cols) {
          ReorderSnapshotMeaning(data[j], cols);
        }
      }
      Success(r)
  }

  /** Reordering a second time changes nothing: the column order is a fixed point. */
  lemma ReorderIdempotent(data: seq<Snapshot>, cols: seq<string>)
    requires OrderColumns(data, cols).Success?
    ensures OrderColumns(OrderColumns(data, cols).value, cols) == OrderColumns(data, cols)
  {
    var once := OrderColumns(data, cols).value;
    assert once == seq(|data|, j requires 0 <= j < |data| => ReorderSnapshot(data[j], cols));
    forall j | 0 <= j < |data|
      ensures ReorderSnapshot(once[j], cols) == once[j]
    {
      ReorderSnapshotIdempotent(data[j], cols);
    }
    if cols != [] {
      forall j | 0 <= j < |once| ensures !HasShortList(once[j]) {
        assert Reorders(data[j], once[j], cols);
      }
    }
    assert seq(|once|, j requires 0 <= j < |once| => ReorderSnapshot(once[j], cols)) == once;
  }

  lemma ReorderSnapshotIdempotent(s: Snapshot, cols: seq<string>)
    ensures ReorderSnapshot(ReorderSnapshot(s, cols), cols) == ReorderSnapshot(s, cols)
  {
    if s.municipalities.Some? {
      var m := s.municipalities.value;
      var m1 := ReorderSnapshot(s, cols).municipalities.value;
      var m2 := ReorderSnapshot(ReorderSnapshot(s, cols), cols).municipalities.value;
      forall k | 0 <= k < |m| ensures m2[k] == m1[k] {
        ReorderedIdempotent(m[k].1, cols);
      }
      assert m2 == m1;
    }
  }

  lemma ReorderedIdempotent(days: Days, cols: seq<string>)
    ensures Reordered(Reordered(days, cols), cols) == Reordered(days, cols)
  {
    var once := Reordered(days, cols);
    var twice := Reordered(once, cols);
    forall i | 0 <= i < |once| ensures twice[i] == once[i] {
      if i < 10 {
        assert once[i] == Project(DayAt(days, i), cols);
        assert twice[i] == Project(DayAt(once, i), cols) && DayAt(once, i) == once[i];
        ProjectIdempotent(DayAt(days, i), cols);
      } else {
        assert twice[i] == once[10..][i - 10];
      }
    }
  }

  /**
   * When every schema field is a column, the rebuilt records still pass
   * the schema check that the original ones passed.
   */
  lemma ReorderKeepsConformance(data: seq<Snapshot>, cols: seq<string>, j: nat)
    requires forall f :: f in MunicipalityFields ==> f in cols
    requires OrderColumns(data, cols).Success? && j < |data|
    requires SnapshotConforms(data[j])
    ensures SnapshotConforms(OrderColumns(data, cols).value[j])
  {
    var s, t := data[j], OrderColumns(data, cols).value[j];
    assert Reorders(s, t, cols);
    assert !HasShortList(s) by { assert cols != [] by { assert MunicipalityFields[0] in cols; } }
    ReorderedSnapshotConforms(s, t, cols);
  }

  /** A conforming snapshot without short lists, reordered over columns holding every field, conforms. */
  lemma ReorderedSnapshotConforms(s: Snapshot, t: Snapshot, cols: seq<string>)
    requires forall f :: f in MunicipalityFields ==> f in cols
    requires SnapshotConforms(s) && !HasShortList(s) && Reorders(s, t, cols)
    ensures SnapshotConforms(t)
  {
    forall k | 0 <= k < |Entries(t)|
      ensures forall d :: 0 <= d < |Entries(t)[k].1| ==> RecordConforms(Entries(t)[k].1[d])
    {
      var before := Entries(s)[k].1;
      assert forall d :: 0 <= d < |before| ==> RecordConforms(before[d]);
      RebuiltDaysConform(before, Entries(t)[k].1, cols);
    }
  }

  /** One municipality's list, rebuilt over columns holding every field, conforms when the original did. */
  lemma RebuiltDaysConform(before: Days, after: Days, cols: seq<string>)
    requires forall f :: f in MunicipalityFields ==> f in cols
    requires |before| >= 10 && RebuiltDays(before, after, cols)
    requires forall d :: 0 <= d < |before| ==> RecordConforms(before[d])
    ensures forall d :: 0 <= d < |after| ==> RecordConforms(after[d])
  {
    forall d | 0 <= d < |after| ensures RecordConforms(after[d]) {
      if d < 10 {
        assert DayAt(before, d) == before[d];
        assert forall c :: Get(after[d], c) == if c in cols then Some(ValueAt(before[d], c)) else None;
        RebuiltRecordConforms(before[d], after[d], cols);
      } else {
        assert after[d] == before[d];
      }
    }
  }

  /** A record rebuilt over columns holding every field conforms when the original did. */
  lemma RebuiltRecordConforms(rec: Record, e: Record, cols: seq<string>)
    requires forall f :: f in MunicipalityFields ==> f in cols
    requires RecordConforms(rec)
    requires forall c :: Get(e, c) == if c in cols then Some(ValueAt(rec, c)) else None
    ensures RecordConforms(e)
  {
    forall i | 0 <= i < |MunicipalityFields| ensures FieldConforms(e, MunicipalityFields[i]) {
      assert FieldConforms(rec, MunicipalityFields[i]);
    }
  }

}
