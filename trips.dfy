/**
 * One bikeshare trip after `load_data` has derived its time fields, and the
 * dataset of one city. The `month`, `dayOfWeek` and `hour` fields stand for
 * `Start Time.dt.month`, `.dt.day_name()` and `.dt.hour`; the calendar logic
 * that derives them is not part of this model.
 */
module Trips {
  import opened Wrappers

  datatype Record = Record(
    month: int,               // 1..12
    dayOfWeek: string,        // "Monday" .. "Sunday"
    hour: int,                // 0..23
    startStation: string,
    endStation: string,
    duration: nat,            // seconds
    userType: string,
    gender: Option<string>,   // None: a missing value in the Gender column
    birthYear: Option<int>)   // None: a missing value in the Birth Year column

  /**
   * A city's record set. Whether the Gender and Birth Year columns exist is a
   * property of the city's file, not of a record.
   */
  datatype Dataset = Dataset(hasGender: bool, hasBirthYear: bool, rows: seq<Record>)

  /** The synthetic `station_combination` column: start + " to " + end. */
  function TripKey(r: Record): (k: string)
    ensures |k| == |r.startStation| + 4 + |r.endStation|
    ensures k[..|r.startStation|] == r.startStation
    ensures k[|r.startStation|..|r.startStation| + 4] == " to "
    ensures k[|r.startStation| + 4..] == r.endStation
  {
    r.startStation + " to " + r.endStation
  }

  function MonthColumn(rows: seq<Record>): seq<int>
  {
    seq(|rows|, i requires 0 <= i < |rows| => rows[i].month)
  }

  function DayColumn(rows: seq<Record>): seq<string>
  {
    seq(|rows|, i requires 0 <= i < |rows| => rows[i].dayOfWeek)
  }

  function HourColumn(rows: seq<Record>): seq<int>
  {
    seq(|rows|, i requires 0 <= i < |rows| => rows[i].hour)
  }

  function StartColumn(rows: seq<Record>): seq<string>
  {
    seq(|rows|, i requires 0 <= i < |rows| => rows[i].startStation)
  }

  function EndColumn(rows: seq<Record>): seq<string>
  {
    seq(|rows|, i requires 0 <= i < |rows| => rows[i].endStation)
  }

  function TripColumn(rows: seq<Record>): seq<string>
  {
    seq(|rows|, i requires 0 <= i < |rows| => TripKey(rows[i]))
  }

  function DurationColumn(rows: seq<Record>): seq<nat>
  {
    seq(|rows|, i requires 0 <= i < |rows| => rows[i].duration)
  }

  function UserTypeColumn(rows: seq<Record>): seq<string>
  {
    seq(|rows|, i requires 0 <= i < |rows| => rows[i].userType)
  }

  function GenderColumn(rows: seq<Record>): seq<Option<string>>
  {
    seq(|rows|, i requires 0 <= i < |rows| => rows[i].gender)
  }

  function BirthYearColumn(rows: seq<Record>): seq<Option<int>>
  {
    seq(|rows|, i requires 0 <= i < |rows| => rows[i].birthYear)
  }
}
