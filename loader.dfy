/**
 * `load_data`: after the city's file has been read and the time fields
 * derived, keep the records of the chosen month and weekday.
 */
module Loader {
  import opened Wrappers
  import opened Aggregates
  import opened Trips
  import Text

  /** The keys of `CITY_DATA`, as the city prompt accepts them. */
  const CITIES: seq<string> := ["chicago", "new york city", "washington"]

  /** The months the month filter accepts besides "all", in calendar order. */
  const MONTHS: seq<string> := ["january", "february", "march", "april", "may", "june"]

  const CITY_DATA: map<string, string> :=
    map["chicago" := "chicago.csv", "new york city" := "new_york_city.csv", "washington" := "washington.csv"]

  /** `CITY_DATA[city]`; a city that is not a key raises `KeyError`, here `None`. */
  function DataFile(city: string): (f: Option<string>)
    ensures f.Some? <==> city in CITIES
  {
    if city in CITY_DATA then Some(CITY_DATA[city]) else None
  }

  /** Python's `list.index`: the first position of `x`, or `None` for `ValueError`. */
  function IndexOf(s: seq<string>, x: string): (r: Option<nat>)
    ensures r.None? <==> x !in s
    ensures r.Some? ==> r.value < |s| && s[r.value] == x && x !in s[..r.value]
    decreases |s|
  {
    if |s| == 0 then None
    else if s[0] == x then Some(0)
    else match IndexOf(s[1..], x)
      case None => None
      case Some(i) => Some(i + 1)
  }

  /** `months.index(month) + 1`: the calendar number of a month name. */
  function MonthNumber(month: string): (m: Option<int>)
    ensures m.Some? <==> month in MONTHS
    ensures m.Some? ==> 1 <= m.value <= 6 && MONTHS[m.value - 1] == month
  {
    match IndexOf(MONTHS, month)
    case None => None
    case Some(i) => Some(i + 1)
  }

  /** Naming month `k` and looking it up again gives back `k`. */
  lemma MonthNumberRoundTrip(k: int)
    requires 1 <= k <= 6
    ensures MonthNumber(MONTHS[k - 1]) == Some(k)
  {
    var m := MonthNumber(MONTHS[k - 1]);
    assert m.Some?;
    assert MONTHS[m.value - 1] == MONTHS[k - 1];
  }

  datatype LoadError = UnknownMonth   // `months.index` raises ValueError

  /**
   * Whether a record passes both filters; "all" skips a test. A month filter
   * keeps the records whose month number names it.
   */
  function Keeps(month: string, day: string, r: Record): (b: bool)
    ensures b <==>
      && (month == "all" || (1 <= r.month <= |MONTHS| && MONTHS[r.month - 1] == month))
      && (day == "all" || Text.Lower(r.dayOfWeek) == day)
  {
    && (month == "all" || (MonthNumber(month).Some? && r.month == MonthNumber(month).value))
    && (day == "all" || Text.Lower(r.dayOfWeek) == day)
  }

  /**
   * The month mask, then the weekday mask; each is skipped when its filter is
   * "all". The weekday is lower-cased before it is compared; the filter is not.
   */
  function LoadData(ds: Dataset, month: string, day: string): (r: Result<Dataset, LoadError>)
    ensures r.Err? <==> month != "all" && month !in MONTHS
    ensures r.Ok? ==> r.value.hasGender == ds.hasGender && r.value.hasBirthYear == ds.hasBirthYear
    ensures r.Ok? ==> |r.value.rows| <= |ds.rows|
    ensures r.Ok? ==> forall x :: x in r.value.rows ==> x in ds.rows && Keeps(month, day, x)
    ensures month == "all" && day == "all" ==> r == Ok(ds)
  {
    if month != "all" && MonthNumber(month).None? then Err(UnknownMonth)
    else
      var byMonth :=
        if month == "all" then ds.rows
        else
          var m := MonthNumber(month).value;
          Where(ds.rows, (x: Record) => x.month == m);
      var byDay :=
        if day == "all" then byMonth
        else Where(byMonth, (x: Record) => Text.Lower(x.dayOfWeek) == day);
      Ok(Dataset(ds.hasGender, ds.hasBirthYear, byDay))
  }

  /** The two masks select what one mask testing both filters selects. */
  lemma LoadDataIsOneMask(ds: Dataset, month: string, day: string)
    requires LoadData(ds, month, day).Ok?
    ensures LoadData(ds, month, day).value.rows == Where(ds.rows, (x: Record) => Keeps(month, day, x))
  {
    var keeps := (x: Record) => Keeps(month, day, x);
    var dayMask := (x: Record) => Text.Lower(x.dayOfWeek) == day;
    if month == "all" {
      if day == "all" {
        WhereAll(ds.rows, keeps);
      } else {
        WhereAgree(ds.rows, dayMask, keeps);
      }
    } else {
      var m := MonthNumber(month).value;
      var monthMask := (x: Record) => x.month == m;
      if day == "all" {
        WhereAgree(ds.rows, monthMask, keeps);
      } else {
        WhereWhere(ds.rows, monthMask, dayMask, keeps);
      }
    }
  }

  /**
   * The filtered records are exactly the records that pass both tests, in the
   * order of the file: `idx` lists their positions, increasing, and a position
   * is listed if and only if its record passes.
   */
  lemma LoadDataSelects(ds: Dataset, month: string, day: string) returns (idx: seq<nat>)
    requires LoadData(ds, month, day).Ok?
    ensures |idx| == |LoadData(ds, month, day).value.rows|
    ensures forall k :: 0 <= k < |idx| ==>
      idx[k] < |ds.rows| && LoadData(ds, month, day).value.rows[k] == ds.rows[idx[k]]
    ensures forall k, l :: 0 <= k < l < |idx| ==> idx[k] < idx[l]
    ensures forall j :: 0 <= j < |ds.rows| ==> (Keeps(month, day, ds.rows[j]) <==> j in idx)
  {
    LoadDataIsOneMask(ds, month, day);
    idx := WhereIndices(ds.rows, (x: Record) => Keeps(month, day, x));
  }
}
