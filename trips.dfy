/**
 The trip table after loading: one record per CSV row, with the calendar
 fields that `load_data` derives from `Start Time` already filled in, and the
 error outcomes of the library calls the program makes.
 */
module Trips {

  import opened Text

  datatype Option<T> = None | Some(value: T)

  /** The exceptions the program lets escape. */
  datatype Failure =
    | KeyError      // a dictionary or label lookup on a missing key
    | FileNotFound  // `pd.read_csv` on a file that does not exist
    | ValueError    // `list.index` on a value that is not in the list
    | IndexError    // `[0]` on an empty `mode()` result, whose empty index has no label 0

  datatype Result<T> = Ok(value: T) | Err(failure: Failure)

  datatype Weekday = Monday | Tuesday | Wednesday | Thursday | Friday | Saturday | Sunday

  /** What `Series.dt.weekday_name` writes into the `day_of_week` column. */
  function WeekdayName(w: Weekday): (name: string)
    ensures IsCapitalWord(name)
  {
    match w
    case Monday => "Monday"
    case Tuesday => "Tuesday"
    case Wednesday => "Wednesday"
    case Thursday => "Thursday"
    case Friday => "Friday"
    case Saturday => "Saturday"
    case Sunday => "Sunday"
  }

  /** Different weekdays get different names, so a name selects one weekday. */
  lemma WeekdayNameInjective(a: Weekday, b: Weekday)
    requires WeekdayName(a) == WeekdayName(b)
    ensures a == b
  {
  }

  /** `Series.dt.month` and `Series.dt.hour` of a timestamp. */
  type Month = m: int | 1 <= m <= 12 witness 1
  type Hour = h: int | 0 <= h <= 23 witness 0

  /**
   One row. `rowLabel` is the row's index label (its position in the CSV file,
   which filtering keeps); `gender` and `birthYear` are None where the cell is
   empty (NaN) or the city's file has no such column.
   */
  datatype Trip = Trip(
    rowLabel: nat,
    month: Month,
    weekday: Weekday,
    hour: Hour,
    startStation: string,
    endStation: string,
    duration: int,
    userType: string,
    gender: Option<string>,
    birthYear: Option<int>)

  /** The labels `pd.read_csv` gives the rows of a freshly read file: 0, 1, 2, ... */
  predicate Labelled(rows: seq<Trip>)
  {
    forall i :: 0 <= i < |rows| ==> rows[i].rowLabel == i
  }

  /** A column of the table, `df[name]`, as the sequence of its cells. */
  function Column<U>(rows: seq<Trip>, f: Trip -> U): seq<U>
  {
    seq(|rows|, i requires 0 <= i < |rows| => f(rows[i]))
  }

  function MonthColumn(rows: seq<Trip>): seq<int> { Column(rows, (t: Trip) => t.month as int) }

  function DayColumn(rows: seq<Trip>): seq<string> { Column(rows, (t: Trip) => WeekdayName(t.weekday)) }

  function HourColumn(rows: seq<Trip>): seq<int> { Column(rows, (t: Trip) => t.hour as int) }

  function StartColumn(rows: seq<Trip>): seq<string> { Column(rows, (t: Trip) => t.startStation) }

  function EndColumn(rows: seq<Trip>): seq<string> { Column(rows, (t: Trip) => t.endStation) }

  /** The (start station, end station) key that `groupby` forms for each row. */
  function TripColumn(rows: seq<Trip>): seq<(string, string)>
  {
    Column(rows, (t: Trip) => (t.startStation, t.endStation))
  }

  function UserTypeColumn(rows: seq<Trip>): seq<string> { Column(rows, (t: Trip) => t.userType) }
}
