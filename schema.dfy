/**
 * The shapes of the forecast data: a snapshot (one forecast run) and the
 * day records it holds per municipality, with the day-record fields in the
 * order the schema declares them.
 */
module Schema {
  import opened Json

  /** The day-record fields, in declaration order. */
  const MunicipalityFields: seq<string> := [
    "cover", "day", "day_format", "day_str", "humidity", "municipality", "province",
    "rainfall", "rainfall_amt_text", "tmax", "tmean", "tmin", "wdirection", "wspeed"
  ]

  /** The day-record fields the schema declares as numbers; the others are strings. */
  const NumericFields: set<string> := {"day", "humidity", "tmax", "tmean", "tmin", "wspeed"}

  /** A municipality's forecast, one record per day. */
  type Days = seq<Record>

  /** The municipality mapping of a snapshot: key to its day records, in insertion order. */
  type Municipalities = Assoc<Days>

  /**
   * One forecast run. Nullable fields are `Option`s; `municipalities` may be
   * null; `error` is the parse-error object, null when the run is usable.
   */
  datatype Snapshot = Snapshot(
    dateArchived: Value,
    dateArchivedStr: string,
    dateCreated: Value,
    dateCreatedStr: string,
    dateEnd: Option<string>,
    dateEndStr: Option<string>,
    dateForecast: Option<string>,
    dateForecastStr: Option<string>,
    dateRange: Option<string>,
    dateStart: Option<string>,
    dateStartStr: Option<string>,
    error: Option<Record>,
    id: string,
    municipalities: Option<Municipalities>)

  /** The entries a `for…in` over `s.municipalities` visits: none when it is null. */
  function Entries(s: Snapshot): Municipalities {
    match s.municipalities
    case Some(m) => m
    case None => []
  }

  /** Day `i` of a list, or the empty record where the list has no such day. */
  function DayAt(days: Days, i: nat): Record {
    if i < |days| then days[i] else []
  }

  /** A day-record field holds a value of the kind the schema declares. */
  predicate FieldConforms(rec: Record, field: string) {
    match Get(rec, field)
    case None => false
    case Some(v) => if field in NumericFields then v.Num? else v.Str?
  }

  /** What the schema check demands of a day record (extra keys are allowed). */
  predicate RecordConforms(rec: Record) {
    forall i :: 0 <= i < |MunicipalityFields| ==> FieldConforms(rec, MunicipalityFields[i])
  }

  /**
   * What the schema check demands of a snapshot beyond its field types:
   * numeric creation and archive times, and conforming day records.
   */
  predicate SnapshotConforms(s: Snapshot) {
    && s.dateArchived.Num? && s.dateCreated.Num?
    && forall k, d :: 0 <= k < |Entries(s)| && 0 <= d < |Entries(s)[k].1| ==> RecordConforms(Entries(s)[k].1[d])
  }
}
