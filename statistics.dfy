/**
 * The values that `time_stats`, `station_stats`, `trip_duration_stats` and
 * `user_stats` compute and print, returned as data. `mode()[0]` on an empty
 * column raises in pandas; here that is `Err(NoMode)`. Ties are broken as
 * pandas does: `mode()` returns the tied values sorted, so `[0]` is the
 * smallest.
 */
module Statistics {
  import opened Wrappers
  import opened Aggregates
  import opened Trips
  import opened Loader
  import Text

  datatype StatsError = NoMode   // `mode()[0]` of an empty column

  datatype TimeStats = TimeStats(popularMonth: int, popularDay: string, popularHour: int)

  datatype StationStats = StationStats(popularStart: string, popularEnd: string, popularTrip: string)

  /** `mean` is `None` where pandas gives NaN, for an empty record set. */
  datatype DurationStats = DurationStats(total: nat, mean: Option<real>)

  /** A statistic of a column the city's file may not have. */
  datatype Column<T> = Unavailable | Available(value: T)

  datatype BirthYearStats = BirthYearStats(earliest: int, mostRecent: int, mostCommon: int)

  datatype UserStats = UserStats(
    userTypes: seq<(string, nat)>,
    genders: Column<seq<(string, nat)>>,
    birthYears: Column<Result<BirthYearStats, StatsError>>)

  // ---------------------------------------------------------------- time_stats

  function TimeStatsOf(rows: seq<Record>): (r: Result<TimeStats, StatsError>)
    ensures r.Err? <==> |rows| == 0
    ensures r.Ok? ==> IsMode(MonthColumn(rows), r.value.popularMonth, IntLess)
    ensures r.Ok? ==> IsMode(DayColumn(rows), r.value.popularDay, Text.Less)
    ensures r.Ok? ==> IsMode(HourColumn(rows), r.value.popularHour, IntLess)
  {
    IntLessOrder();
    StringLessOrder();
    if |rows| == 0 then Err(NoMode)
    else
      Ok(TimeStats(
        Mode(MonthColumn(rows), IntLess).value,
        Mode(DayColumn(rows), Text.Less).value,
        Mode(HourColumn(rows), IntLess).value))
  }

  /** After a month filter, the most popular month is the chosen one. */
  lemma FilteredPopularMonth(ds: Dataset, month: string, day: string)
    requires month in MONTHS
    ensures LoadData(ds, month, day).Ok?
    ensures var rows := LoadData(ds, month, day).value.rows;
      |rows| > 0 ==> TimeStatsOf(rows).Ok? && TimeStatsOf(rows).value.popularMonth == MonthNumber(month).value
  {
    var rows := LoadData(ds, month, day).value.rows;
    if |rows| > 0 {
      var pm := TimeStatsOf(rows).value.popularMonth;
      var i :| 0 <= i < |rows| && MonthColumn(rows)[i] == pm;
      assert rows[i] in rows;
    }
  }

  /** After a weekday filter, the most popular weekday is the chosen one. */
  lemma FilteredPopularDay(ds: Dataset, month: string, day: string)
    requires month == "all" || month in MONTHS
    requires day != "all"
    ensures LoadData(ds, month, day).Ok?
    ensures var rows := LoadData(ds, month, day).value.rows;
      |rows| > 0 ==> TimeStatsOf(rows).Ok? && Text.Lower(TimeStatsOf(rows).value.popularDay) == day
  {
    var rows := LoadData(ds, month, day).value.rows;
    if |rows| > 0 {
      var pd := TimeStatsOf(rows).value.popularDay;
      var i :| 0 <= i < |rows| && DayColumn(rows)[i] == pd;
      assert rows[i] in rows;
    }
  }

  // ---------------------------------------------------------------- station_stats

  function StationStatsOf(rows: seq<Record>): (r: Result<StationStats, StatsError>)
    ensures r.Err? <==> |rows| == 0
    ensures r.Ok? ==> IsMode(StartColumn(rows), r.value.popularStart, Text.Less)
    ensures r.Ok? ==> IsMode(EndColumn(rows), r.value.popularEnd, Text.Less)
    ensures r.Ok? ==> IsMode(TripColumn(rows), r.value.popularTrip, Text.Less)
  {
    StringLessOrder();
    if |rows| == 0 then Err(NoMode)
    else
      Ok(StationStats(
        Mode(StartColumn(rows), Text.Less).value,
        Mode(EndColumn(rows), Text.Less).value,
        Mode(TripColumn(rows), Text.Less).value))
  }

  /** The popular trip is the start and end of one record, joined by " to ". */
  lemma PopularTripIsSomeTrip(rows: seq<Record>)
    requires |rows| > 0
    ensures exists r :: r in rows && StationStatsOf(rows).value.popularTrip == r.startStation + " to " + r.endStation
  {
    var trip := StationStatsOf(rows).value.popularTrip;
    var i :| 0 <= i < |rows| && TripColumn(rows)[i] == trip;
    assert rows[i] in rows && trip == TripKey(rows[i]);
  }

  // ---------------------------------------------------------------- trip_duration_stats

  /** `df['Trip Duration'].sum()`. */
  function TotalDuration(rows: seq<Record>): (t: nat)
    ensures |rows| == 0 ==> t == 0
    ensures forall i :: 0 <= i < |rows| ==> rows[i].duration <= t
  {
    var durations := DurationColumn(rows);
    assert |durations| == |rows| && forall i :: 0 <= i < |rows| ==> durations[i] == rows[i].duration;
    SumBoundsElements(durations);
    Sum(durations)
  }

  function DurationStatsOf(rows: seq<Record>): (d: DurationStats)
    ensures d.total == TotalDuration(rows)
    ensures |rows| == 0 ==> d.total == 0
    ensures d.mean.None? <==> |rows| == 0
    ensures d.mean.Some? ==> d.mean.value * (|rows| as real) == d.total as real
  {
    var total := TotalDuration(rows);
    DurationStats(total, if |rows| == 0 then None else Some(total as real / |rows| as real))
  }

  lemma TotalDurationPrepend(rows: seq<Record>)
    requires |rows| > 0
    ensures TotalDuration(rows) == rows[0].duration + TotalDuration(rows[1..])
  {
    assert DurationColumn(rows) == [rows[0].duration] + DurationColumn(rows[1..]);
  }

  /**
   * Any filter splits the total travel time: what it keeps plus what it
   * drops is the whole.
   */
  lemma {:induction false} TotalDurationSplits(rows: seq<Record>, keep: Record -> bool)
    ensures TotalDuration(Where(rows, keep)) + TotalDuration(Where(rows, (x: Record) => !keep(x))) == TotalDuration(rows)
    decreases |rows|
  {
    if |rows| > 0 {
      var drop := (x: Record) => !keep(x);
      TotalDurationSplits(rows[1..], keep);
      TotalDurationPrepend(rows);
      if keep(rows[0]) {
        TotalDurationPrepend(Where(rows, keep));
        assert Where(rows, keep)[1..] == Where(rows[1..], keep);
        assert Where(rows, drop) == Where(rows[1..], drop);
      } else {
        assert Where(rows, keep) == Where(rows[1..], keep);
        TotalDurationPrepend(Where(rows, drop));
        assert Where(rows, drop)[1..] == Where(rows[1..], drop);
      }
    }
  }

  /** Filtering never raises the total travel time. */
  lemma LoadDataTotalBound(ds: Dataset, month: string, day: string)
    requires LoadData(ds, month, day).Ok?
    ensures DurationStatsOf(LoadData(ds, month, day).value.rows).total <= DurationStatsOf(ds.rows).total
  {
    var keeps := (x: Record) => Keeps(month, day, x);
    LoadDataIsOneMask(ds, month, day);
    TotalDurationSplits(ds.rows, keeps);
  }

  // ---------------------------------------------------------------- user_stats

  function BirthYearStatsOf(years: seq<int>): (b: Option<BirthYearStats>)
    ensures b.None? <==> |years| == 0
    ensures b.Some? ==> b.value.earliest in years && b.value.mostRecent in years
    ensures b.Some? ==> forall y :: y in years ==> b.value.earliest <= y <= b.value.mostRecent
    ensures b.Some? ==> IsMode(years, b.value.mostCommon, IntLess)
    ensures b.Some? ==> b.value.earliest <= b.value.mostCommon <= b.value.mostRecent
  {
    IntLessOrder();
    if |years| == 0 then None
    else Some(BirthYearStats(Min(years), Max(years), Mode(years, IntLess).value))
  }

  /**
   * User-type counts always; gender counts and birth-year statistics only
   * when the city's file has the column, over the values that are present.
   * A Birth Year column with no value makes `mode()[0]` raise; the counts
   * printed before it are still produced, and only the birth-year section
   * fails.
   */
  function UserStatsOf(ds: Dataset): (u: UserStats)
    ensures IsValueCounts(u.userTypes, UserTypeColumn(ds.rows))
    ensures u.genders.Available? <==> ds.hasGender
    ensures ds.hasGender ==> IsValueCounts(u.genders.value, Present(GenderColumn(ds.rows)))
    ensures u.birthYears.Available? <==> ds.hasBirthYear
    ensures ds.hasBirthYear ==> (u.birthYears.value.Err? <==> |Present(BirthYearColumn(ds.rows))| == 0)
    ensures ds.hasBirthYear && u.birthYears.value.Ok? ==>
      var b := u.birthYears.value.value;
      var years := Present(BirthYearColumn(ds.rows));
      && (forall y :: y in years ==> b.earliest <= y <= b.mostRecent)
      && b.earliest in years && b.mostRecent in years
      && IsMode(years, b.mostCommon, IntLess)
  {
    var userTypes := ValueCounts(UserTypeColumn(ds.rows));
    var genders := if ds.hasGender then Available(ValueCounts(Present(GenderColumn(ds.rows)))) else Unavailable;
    var birthYears :=
      if !ds.hasBirthYear then Unavailable
      else match BirthYearStatsOf(Present(BirthYearColumn(ds.rows)))
        case None => Available(Err(NoMode))
        case Some(b) => Available(Ok(b));
    UserStats(userTypes, genders, birthYears)
  }

  /** The user-type counts add up to the number of records. */
  lemma UserTypeCountsAddUp(ds: Dataset)
    ensures Total(UserStatsOf(ds).userTypes) == |ds.rows|
  {
  }

  /** With no missing gender, the gender counts add up to the number of records. */
  lemma GenderCountsAddUp(ds: Dataset)
    requires ds.hasGender
    requires forall i :: 0 <= i < |ds.rows| ==> ds.rows[i].gender.Some?
    ensures Total(UserStatsOf(ds).genders.value) == |ds.rows|
  {
    PresentComplete(GenderColumn(ds.rows));
  }

  /** Each gender count is the number of records with that gender. */
  lemma GenderCountIsRecordCount(ds: Dataset)
    requires ds.hasGender
    ensures var g := UserStatsOf(ds).genders.value;
      forall k :: 0 <= k < |g| ==> g[k].1 == Count(GenderColumn(ds.rows), Some(g[k].0))
  {
  }

  // ---------------------------------------------------------------- a worked example

  /**
   * Two January trips starting at the same station, 600 and 300 seconds, by a
   * Subscriber and a Customer, in a city without Gender and Birth Year.
   */
  function TwoTrips(): Dataset
  {
    Dataset(false, false, [
      Record(1, "Sunday", 8, "A", "B", 600, "Subscriber", None, None),
      Record(1, "Sunday", 9, "A", "C", 300, "Customer", None, None)])
  }

  /** Filtered to January, both trips are kept. */
  lemma TwoTripsJanuaryKeepsBoth()
    ensures LoadData(TwoTrips(), "january", "all") == Ok(TwoTrips())
  {
    var rows := TwoTrips().rows;
    assert MonthNumber("january") == Some(1);
    WhereAll(rows, (x: Record) => x.month == 1);
  }

  /** Filtered to February, nothing is kept: no mode, no mean, total 0. */
  lemma TwoTripsFebruaryIsEmpty()
    ensures LoadData(TwoTrips(), "february", "all") == Ok(Dataset(false, false, []))
    ensures TimeStatsOf([]) == Err(NoMode)
    ensures DurationStatsOf([]) == DurationStats(0, None)
  {
    var rows := TwoTrips().rows;
    assert MonthNumber("february") == Some(2);
    assert Where(rows, (x: Record) => x.month == 2) == [];
  }

  /** The popular month is 1 and the popular start station "A". */
  lemma TwoTripsPopular()
    ensures TimeStatsOf(TwoTrips().rows).value.popularMonth == 1
    ensures StationStatsOf(TwoTrips().rows).value.popularStart == "A"
  {
    var rows := TwoTrips().rows;
    assert MonthColumn(rows) == [1, 1];
    assert StartColumn(rows) == ["A", "A"];
    assert TimeStatsOf(rows).value.popularMonth in MonthColumn(rows);
    assert StationStatsOf(rows).value.popularStart in StartColumn(rows);
  }

  /** Hours 8 and 9 occur once each; the tie goes to the smaller hour. */
  lemma TwoTripsHourTie()
    ensures TimeStatsOf(TwoTrips().rows).value.popularHour == 8
  {
    var rows := TwoTrips().rows;
    var hours := HourColumn(rows);
    var h := TimeStatsOf(rows).value.popularHour;
    assert hours == [8, 9];
    assert Count(hours, 8) == 1 && Count(hours, 9) == 1;
    assert IsMode(hours, h, IntLess);
    assert h == 8 || h == 9;
    assert h != 8 ==> IntLess(h, 8);
  }

  /** The total is 900 seconds and the mean 450. */
  lemma TwoTripsDuration()
    ensures DurationStatsOf(TwoTrips().rows) == DurationStats(900, Some(450.0))
  {
    var rows := TwoTrips().rows;
    assert DurationColumn(rows) == [600, 300];
  }

  /** Each user type is counted once. */
  lemma TwoTripsUserTypes()
    ensures UserStatsOf(TwoTrips()).userTypes == [("Subscriber", 1), ("Customer", 1)]
  {
    var s := UserTypeColumn(TwoTrips().rows);
    assert s == ["Subscriber", "Customer"];
    assert s[1..] == ["Customer"];
    assert Distinct(s[1..]) == ["Customer"];
    assert Distinct(s) == ["Subscriber", "Customer"];
    assert Count(s, "Subscriber") == 1 && Count(s, "Customer") == 1;
  }
}
