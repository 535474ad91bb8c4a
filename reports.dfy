/**
 The four reporters `time_stats`, `station_stats`, `trip_duration_stats` and
 `user_stats` / `washington_user_stats`, as the values they print.
 */
module Reports {

  import opened Trips
  import opened Selection
  import opened Aggregates

  /** `calendar.month_name`: entry 0 is the empty string. */
  const MONTH_NAMES: seq<string> := ["", "January", "February", "March", "April", "May", "June",
    "July", "August", "September", "October", "November", "December"]

  datatype TimeReport = TimeReport(commonMonth: string, commonDay: string, commonHour: int)

  /**
   `time_stats`: the calendar name of a most common month, a most common
   weekday name and a most common start hour. On no rows the first
   `mode()[0]` raises IndexError.
   */
  function TimeStats(rows: seq<Trip>): (r: Result<TimeReport>)
    ensures r.Err? <==> rows == []
    ensures r.Err? ==> r.failure == IndexError
    ensures r.Ok? ==> exists m :: 1 <= m <= 12 && IsMode(MonthColumn(rows), m) && r.value.commonMonth == MONTH_NAMES[m]
    ensures r.Ok? ==> IsMode(DayColumn(rows), r.value.commonDay) && IsMode(HourColumn(rows), r.value.commonHour)
  {
    match (Mode(MonthColumn(rows)), Mode(DayColumn(rows)), Mode(HourColumn(rows)))
    case (Some(m), Some(d), Some(h)) => Ok(TimeReport(MONTH_NAMES[m], d, h))
    case _ => Err(IndexError)
  }

  /**
   `groupby(['Start Station', 'End Station']).size().nlargest(1)`: a most
   frequent (start, end) pair with its number of trips; nothing on no rows.
   */
  function MostFrequentTrip(rows: seq<Trip>): (r: Option<((string, string), nat)>)
    ensures r.None? <==> rows == []
    ensures r.Some? ==> IsMode(TripColumn(rows), r.value.0)
    ensures r.Some? ==> r.value.1 == Count(TripColumn(rows), r.value.0) && r.value.1 > 0
  {
    match Mode(TripColumn(rows))
    case None => None
    case Some(p) => Some((p, Count(TripColumn(rows), p)))
  }

  datatype StationReport = StationReport(commonStart: string, commonEnd: string, commonTrip: (string, string), tripCount: nat)

  /** `station_stats`. On no rows the `mode()[0]` of the start stations raises IndexError. */
  function StationStats(rows: seq<Trip>): (r: Result<StationReport>)
    ensures r.Err? <==> rows == []
    ensures r.Err? ==> r.failure == IndexError
    ensures r.Ok? ==> IsMode(StartColumn(rows), r.value.commonStart) && IsMode(EndColumn(rows), r.value.commonEnd)
    ensures r.Ok? ==> IsMode(TripColumn(rows), r.value.commonTrip)
    ensures r.Ok? ==> r.value.tripCount == Count(TripColumn(rows), r.value.commonTrip)
  {
    match (Mode(StartColumn(rows)), Mode(EndColumn(rows)), MostFrequentTrip(rows))
    case (Some(s), Some(e), Some((p, n))) => Ok(StationReport(s, e, p, n))
    case _ => Err(IndexError)
  }

  /** `df['Trip Duration'].sum()` in whole seconds; 0 on no rows. */
  function TotalDuration(rows: seq<Trip>): (total: int)
    ensures rows == [] ==> total == 0
    ensures (forall i :: 0 <= i < |rows| ==> rows[i].duration >= 0) ==> total >= 0
  {
    if rows == [] then 0 else rows[0].duration + TotalDuration(rows[1..])
  }

  lemma {:induction false} TotalDurationAppend(a: seq<Trip>, b: seq<Trip>)
    ensures TotalDuration(a + b) == TotalDuration(a) + TotalDuration(b)
  {
    if a == [] {
      assert a + b == b;
    } else {
      assert (a + b)[1..] == a[1..] + b;
      TotalDurationAppend(a[1..], b);
    }
  }

  lemma TotalDurationCons(t: Trip, rest: seq<Trip>)
    ensures TotalDuration([t] + rest) == t.duration + TotalDuration(rest)
  {
    assert ([t] + rest)[1..] == rest;
  }

  /** The rows a filter keeps and the rows it drops share out the total duration. */
  lemma {:induction false} TotalDurationSplits(rows: seq<Trip>, keep: Trip -> bool, drop: Trip -> bool)
    requires forall i :: 0 <= i < |rows| ==> drop(rows[i]) == !keep(rows[i])
    ensures TotalDuration(Where(rows, keep)) + TotalDuration(Where(rows, drop)) == TotalDuration(rows)
  {
    if rows != [] {
      var t := rows[0];
      TotalDurationSplits(rows[1..], keep, drop);
      if keep(t) {
        assert Where(rows, keep) == [t] + Where(rows[1..], keep);
        assert Where(rows, drop) == Where(rows[1..], drop);
        TotalDurationCons(t, Where(rows[1..], keep));
      } else {
        assert Where(rows, keep) == Where(rows[1..], keep);
        assert Where(rows, drop) == [t] + Where(rows[1..], drop);
        TotalDurationCons(t, Where(rows[1..], drop));
      }
    }
  }

  /** With durations that are not negative, a filtered total is between 0 and the full total. */
  lemma {:induction false} TotalDurationOfFilterBounded(rows: seq<Trip>, keep: Trip -> bool)
    requires forall i :: 0 <= i < |rows| ==> rows[i].duration >= 0
    ensures 0 <= TotalDuration(Where(rows, keep)) <= TotalDuration(rows)
  {
    if rows != [] {
      var t := rows[0];
      TotalDurationOfFilterBounded(rows[1..], keep);
      if keep(t) {
        assert Where(rows, keep) == [t] + Where(rows[1..], keep);
        TotalDurationCons(t, Where(rows[1..], keep));
      } else {
        assert Where(rows, keep) == Where(rows[1..], keep);
      }
    }
  }

  /**
   A cell of the `Gender` column: empty (NaN), a gender string, or the integer 0
   that `fillna(0)` writes into empty cells.
   */
  datatype GenderCell = Missing | Given(name: string) | Zero

  function GenderCellOf(t: Trip): GenderCell
  {
    match t.gender
    case None => Missing
    case Some(g) => Given(g)
  }

  function GenderColumn(rows: seq<Trip>): seq<GenderCell> { Column(rows, GenderCellOf) }

  function FillCell(c: GenderCell): GenderCell { if c.Missing? then Zero else c }

  /** `Series.fillna(0)`: every empty cell becomes 0, every other cell stays. */
  function FillNa(col: seq<GenderCell>): (r: seq<GenderCell>)
    ensures |r| == |col|
    ensures forall i :: 0 <= i < |r| ==> !r[i].Missing?
  {
    seq(|col|, i requires 0 <= i < |col| => FillCell(col[i]))
  }

  /** `df['Gender'] = df['Gender'].fillna(0)`, rewriting the column's cells in place. */
  method FillNaInPlace(a: array<GenderCell>)
    modifies a
    ensures a[..] == FillNa(old(a[..]))
  {
    for i := 0 to a.Length
      invariant forall j :: 0 <= j < i ==> a[j] == FillCell(old(a[j]))
      invariant forall j :: i <= j < a.Length ==> a[j] == old(a[j])
    {
      if a[i].Missing? {
        a[i] := Zero;
      }
    }
  }

  /** Filling moves the empty cells into the 0 bucket and leaves every named gender's count as it was. */
  lemma {:induction false} FillNaCounts(col: seq<GenderCell>)
    ensures Count(FillNa(col), Zero) == Count(col, Zero) + Count(col, Missing)
    ensures Count(FillNa(col), Missing) == 0
    ensures forall g :: Count(FillNa(col), Given(g)) == Count(col, Given(g))
  {
    if col != [] {
      FillNaCounts(col[1..]);
      assert FillNa(col)[1..] == FillNa(col[1..]);
    }
  }

  lemma FillNaIdempotent(col: seq<GenderCell>)
    ensures FillNa(FillNa(col)) == FillNa(col)
  {
  }

  predicate IsPresent(c: GenderCell) { !c.Missing? }

  /**
   `Series.value_counts()`, which leaves out empty cells: each value that is
   present once, with its number of occurrences in the whole column.
   */
  function PresentCounts(col: seq<GenderCell>): (r: seq<(GenderCell, nat)>)
    ensures forall i :: 0 <= i < |r| ==> !r[i].0.Missing? && r[i].1 == Count(col, r[i].0) && r[i].1 > 0
    ensures forall i, j :: 0 <= i < j < |r| ==> r[i].0 != r[j].0
    ensures forall i :: 0 <= i < |col| && !col[i].Missing? ==> exists k :: 0 <= k < |r| && r[k].0 == col[i]
  {
    PresentCellsCounted(col);
    ValueCounts(Where(col, IsPresent))
  }

  /** Leaving out the empty cells does not change how often a present value occurs. */
  lemma {:induction false} PresentCellsCounted(col: seq<GenderCell>)
    ensures forall c: GenderCell :: !c.Missing? ==> Count(Where(col, IsPresent), c) == Count(col, c)
  {
    if col != [] {
      var rest := Where(col[1..], IsPresent);
      PresentCellsCounted(col[1..]);
      if IsPresent(col[0]) {
        assert Where(col, IsPresent) == [col[0]] + rest;
        assert ([col[0]] + rest)[1..] == rest;
      } else {
        assert Where(col, IsPresent) == rest;
      }
    }
  }

  lemma {:induction false} PresentLength(col: seq<GenderCell>)
    ensures |Where(col, IsPresent)| == |col| - Count(col, Missing)
  {
    if col != [] {
      PresentLength(col[1..]);
    }
  }

  /** Without the fill, value_counts would leave the rows with no gender out of the counts. */
  lemma UnfilledGenderCountsSkipMissing(col: seq<GenderCell>)
    ensures Total(PresentCounts(col)) == |col| - Count(col, Missing)
  {
    ValueCountsTotal(Where(col, IsPresent));
    PresentLength(col);
  }

  /** After the fill the gender counts add up to the number of rows. */
  lemma FilledGenderCountsCoverRows(rows: seq<Trip>)
    ensures Total(PresentCounts(FillNa(GenderColumn(rows)))) == |rows|
  {
    var filled := FillNa(GenderColumn(rows));
    UnfilledGenderCountsSkipMissing(filled);
    FillNaCounts(GenderColumn(rows));
  }

  /** Row `i` has a birth year and no present birth year is earlier. */
  predicate IsEarliestBirth(rows: seq<Trip>, i: nat)
  {
    && i < |rows| && rows[i].birthYear.Some?
    && forall j :: 0 <= j < |rows| && rows[j].birthYear.Some? ==> rows[i].birthYear.value <= rows[j].birthYear.value
  }

  /** Row `i` has a birth year and no present birth year is later. */
  predicate IsLatestBirth(rows: seq<Trip>, i: nat)
  {
    && i < |rows| && rows[i].birthYear.Some?
    && forall j :: 0 <= j < |rows| && rows[j].birthYear.Some? ==> rows[j].birthYear.value <= rows[i].birthYear.value
  }

  predicate NoBirthYear(rows: seq<Trip>)
  {
    forall j :: 0 <= j < |rows| ==> rows[j].birthYear.None?
  }

  /** The position `idxmin` picks on `Birth Year`: the first row with the earliest present year. */
  function EarliestBirthRow(rows: seq<Trip>): (r: Option<nat>)
    ensures r.None? <==> NoBirthYear(rows)
    ensures r.Some? ==> IsEarliestBirth(rows, r.value)
    ensures r.Some? ==> forall j :: 0 <= j < r.value && rows[j].birthYear.Some? ==>
      rows[r.value].birthYear.value < rows[j].birthYear.value
  {
    if rows == [] then None
    else
      var n := |rows| - 1;
      var best := EarliestBirthRow(rows[..n]);
      match rows[n].birthYear
      case None => best
      case Some(y) =>
        if best.Some? && rows[best.value].birthYear.value <= y then best else Some(n)
  }

  /** The position `idxmax` picks on `Birth Year`: the first row with the latest present year. */
  function LatestBirthRow(rows: seq<Trip>): (r: Option<nat>)
    ensures r.None? <==> NoBirthYear(rows)
    ensures r.Some? ==> IsLatestBirth(rows, r.value)
    ensures r.Some? ==> forall j :: 0 <= j < r.value && rows[j].birthYear.Some? ==>
      rows[j].birthYear.value < rows[r.value].birthYear.value
  {
    if rows == [] then None
    else
      var n := |rows| - 1;
      var best := LatestBirthRow(rows[..n]);
      match rows[n].birthYear
      case None => best
      case Some(y) =>
        if best.Some? && y <= rows[best.value].birthYear.value then best else Some(n)
  }

  /** What `idxmin` reports: the label of that row, not its year. */
  function EarliestBirthLabel(rows: seq<Trip>): (r: Option<nat>)
    ensures r.None? <==> NoBirthYear(rows)
    ensures r.Some? ==> exists i: nat :: IsEarliestBirth(rows, i) && rows[i].rowLabel == r.value
  {
    match EarliestBirthRow(rows)
    case None => None
    case Some(i) => Some(rows[i].rowLabel)
  }

  /** What `idxmax` reports: the label of that row, not its year. */
  function LatestBirthLabel(rows: seq<Trip>): (r: Option<nat>)
    ensures r.None? <==> NoBirthYear(rows)
    ensures r.Some? ==> exists i: nat :: IsLatestBirth(rows, i) && rows[i].rowLabel == r.value
  {
    match LatestBirthRow(rows)
    case None => None
    case Some(i) => Some(rows[i].rowLabel)
  }

  function BirthYearColumn(rows: seq<Trip>): seq<Option<int>> { Column(rows, (t: Trip) => t.birthYear) }

  /** The present birth years, as `mode()` sees them after dropping empty cells. */
  function BirthYears(rows: seq<Trip>): (r: seq<int>)
    ensures forall y :: Count(r, y) == Count(BirthYearColumn(rows), Some(y))
  {
    if rows == [] then []
    else
      assert BirthYearColumn(rows)[1..] == BirthYearColumn(rows[1..]);
      match rows[0].birthYear
      case None => BirthYears(rows[1..])
      case Some(y) => [y] + BirthYears(rows[1..])
  }

  /**
   `df['Birth Year'].mode()[0]`: a most common present birth year. None where
   no birth year is present and indexing the empty mode raises.
   */
  function CommonBirthYear(rows: seq<Trip>): (r: Option<int>)
    ensures r.None? <==> NoBirthYear(rows)
    ensures r.Some? ==> Count(BirthYearColumn(rows), Some(r.value)) > 0
    ensures r.Some? ==> forall y :: Count(BirthYearColumn(rows), Some(y)) <= Count(BirthYearColumn(rows), Some(r.value))
  {
    NoBirthYearsPresent(rows);
    Mode(BirthYears(rows))
  }

  lemma {:induction false} NoBirthYearsPresent(rows: seq<Trip>)
    ensures BirthYears(rows) == [] <==> NoBirthYear(rows)
  {
    if rows != [] {
      NoBirthYearsPresent(rows[1..]);
    }
  }

  /**
   A user-statistics report: the full one of `user_stats` (user types, gender
   counts after the fill, the labels of the earliest and latest birth-year
   rows and the most common birth year) or the reduced one of
   `washington_user_stats` (user types only).
   */
  datatype UserReport =
    | Full(userTypes: seq<(string, nat)>, genders: seq<(GenderCell, nat)>,
           earliest: nat, latest: nat, commonYear: int)
    | Reduced(userTypes: seq<(string, nat)>)

  /**
   What `user_stats` computes, or the exception that ends it: `idxmin` of an
   empty column raises ValueError, and where rows exist but none has a birth
   year, `mode()` is empty and `[0]` raises IndexError. (`idxmin` and `idxmax`
   of a column with only empty cells give NaN and do not raise.)
   */
  function FullUserStats(rows: seq<Trip>): (r: Result<UserReport>)
    ensures r.Err? <==> NoBirthYear(rows)
    ensures r.Err? ==> r.failure == if rows == [] then ValueError else IndexError
    ensures r.Ok? ==> r.value.Full? && Total(r.value.userTypes) == |rows| && Total(r.value.genders) == |rows|
    ensures r.Ok? ==> r.value.userTypes == ValueCounts(UserTypeColumn(rows))
    ensures r.Ok? ==> r.value.genders == PresentCounts(FillNa(GenderColumn(rows)))
    ensures r.Ok? ==> exists i: nat :: IsEarliestBirth(rows, i) && rows[i].rowLabel == r.value.earliest
    ensures r.Ok? ==> exists i: nat :: IsLatestBirth(rows, i) && rows[i].rowLabel == r.value.latest
    ensures r.Ok? ==> forall y :: Count(BirthYearColumn(rows), Some(y)) <= Count(BirthYearColumn(rows), Some(r.value.commonYear))
    ensures r.Ok? ==> Count(BirthYearColumn(rows), Some(r.value.commonYear)) > 0
  {
    ValueCountsTotal(UserTypeColumn(rows));
    FilledGenderCountsCoverRows(rows);
    if rows == [] then Err(ValueError)
    else
      var earliest, latest, common := EarliestBirthLabel(rows), LatestBirthLabel(rows), CommonBirthYear(rows);
      if common.None? then Err(IndexError)
      else
        Ok(Full(ValueCounts(UserTypeColumn(rows)), PresentCounts(FillNa(GenderColumn(rows))),
                earliest.value, latest.value, common.value))
  }

  /**
   `user_stats`: counts the user types, fills the Gender column in place and
   counts it, then reads the birth years; the first exception ends it.
   */
  method UserStats(rows: seq<Trip>) returns (r: Result<UserReport>)
    ensures r == FullUserStats(rows)
  {
    var userTypes := ValueCounts(UserTypeColumn(rows));
    var gender := new GenderCell[|rows|](i requires 0 <= i < |rows| => GenderCellOf(rows[i]));
    assert gender[..] == GenderColumn(rows);
    FillNaInPlace(gender);
    var genders := PresentCounts(gender[..]);
    if rows == [] {
      return Err(ValueError);  // idxmin of an empty column
    }
    var earliest := EarliestBirthLabel(rows);
    var latest := LatestBirthLabel(rows);
    var common := CommonBirthYear(rows);
    if common.None? {
      return Err(IndexError);  // mode()[0] of no birth years
    }
    r := Ok(Full(userTypes, genders, earliest.value, latest.value, common.value));
  }

  /** `washington_user_stats`: the user-type counts only. */
  function WashingtonUserStats(rows: seq<Trip>): (r: UserReport)
    ensures r.Reduced? && r.userTypes == ValueCounts(UserTypeColumn(rows))
    ensures Total(r.userTypes) == |rows|
  {
    ValueCountsTotal(UserTypeColumn(rows));
    Reduced(ValueCounts(UserTypeColumn(rows)))
  }
}
