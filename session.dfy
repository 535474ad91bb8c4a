/**
 One pass of `main`: load and filter, run the four reporters, choose the user
 report by city, and decide from the last answer whether to start again.
 */
module Session {

  import opened Text
  import opened Trips
  import opened Aggregates
  import opened Filters
  import opened Reports

  /** The cities for which `main` calls `user_stats`; every other city gets `washington_user_stats`. */
  const FULL_STATS_CITIES: seq<string> := ["chicago", "new york city"]

  /** Of the accepted cities, only washington gets the reduced report. */
  lemma ReducedOnlyForWashington(city: string)
    requires city in CITY_DATA
    ensures city in FULL_STATS_CITIES <==> city != "washington"
  {
  }

  /** The user report `main` prints for a city, or the exception `user_stats` raises. */
  method ReportUsers(city: string, rows: seq<Trip>) returns (r: Result<UserReport>)
    ensures r == if city in FULL_STATS_CITIES then FullUserStats(rows) else Ok(WashingtonUserStats(rows))
    ensures r.Err? <==> city in FULL_STATS_CITIES && NoBirthYear(rows)
    ensures r.Ok? ==> (r.value.Full? <==> city in FULL_STATS_CITIES)
    ensures r.Ok? ==> r.value.userTypes == ValueCounts(UserTypeColumn(rows)) && Total(r.value.userTypes) == |rows|
  {
    if city in FULL_STATS_CITIES {
      r := UserStats(rows);
    } else {
      r := Ok(WashingtonUserStats(rows));
    }
  }

  /** `restart.lower() != 'yes'` ends the loop; this is the opposite test. */
  predicate Restart(answer: string)
    ensures Restart(answer) ==> |answer| == 3
  {
    Lower(answer) == "yes"
  }

  /** The program starts again exactly on "yes" typed in any mix of cases. */
  lemma RestartIff(answer: string)
    ensures Restart(answer) <==>
      && |answer| == 3
      && (answer[0] == 'y' || answer[0] == 'Y')
      && (answer[1] == 'e' || answer[1] == 'E')
      && (answer[2] == 's' || answer[2] == 'S')
  {
    if |answer| == 3 {
      var low := Lower(answer);
      assert low == [low[0], low[1], low[2]];
      assert low[0] == LowerChar(answer[0]) && low[1] == LowerChar(answer[1]) && low[2] == LowerChar(answer[2]);
    }
  }

  datatype RoundReport = RoundReport(time: TimeReport, stations: StationReport, totalDuration: int, users: UserReport)

  /**
   The body of `main`'s loop after `get_filters`: `load_data`, then the
   reporters in order; the first exception ends the round.
   */
  method RunRound(files: map<string, seq<Trip>>, city: string, month: string, day: string)
    returns (r: Result<RoundReport>)
    ensures city !in CITY_DATA ==> r == Err(KeyError)
    ensures city in CITY_DATA && CITY_DATA[city] !in files ==> r == Err(FileNotFound)
    ensures city in CITY_DATA && CITY_DATA[city] in files && month != "all" && month !in MONTHS ==> r == Err(ValueError)
    ensures city in CITY_DATA && CITY_DATA[city] in files && (month == "all" || month in MONTHS) ==>
      var rows := Filtered(files[CITY_DATA[city]], month, day);
      && (r.Err? <==> rows == [] || (city in FULL_STATS_CITIES && NoBirthYear(rows)))
      && (r.Err? ==> r.failure == IndexError)
      && (r.Ok? ==>
        && TimeStats(rows) == Ok(r.value.time)
        && StationStats(rows) == Ok(r.value.stations)
        && r.value.totalDuration == TotalDuration(rows)
        && Ok(r.value.users) == (if city in FULL_STATS_CITIES then FullUserStats(rows) else Ok(WashingtonUserStats(rows)))
        && (r.value.users.Full? <==> city != "washington"))
  {
    var loaded := LoadData(files, city, month, day);
    if loaded.Err? {
      return Err(loaded.failure);
    }
    var df := loaded.value;
    var time := TimeStats(df);
    if time.Err? {
      return Err(time.failure);
    }
    // station_stats fails only on an empty selection, which time_stats has already refused.
    var stations := StationStats(df);
    assert stations.Ok?;
    var total := TotalDuration(df);
    var users := ReportUsers(city, df);
    if users.Err? {
      return Err(users.failure);
    }
    ReducedOnlyForWashington(city);
    return Ok(RoundReport(time.value, stations.value, total, users.value));
  }

  /**
   The label `idxmin` reports after filtering a freshly read file is a row
   number of that file, and the file's row there is a returned row whose birth
   year is the earliest among the returned rows.
   */
  lemma EarliestLabelIsFileRow(file: seq<Trip>, month: string, day: string)
    requires Labelled(file)
    ensures var rows := Filtered(file, month, day);
      EarliestBirthLabel(rows).Some? ==>
        var l := EarliestBirthLabel(rows).value;
        && l < |file| && file[l] in rows && file[l].birthYear.Some?
        && forall j :: 0 <= j < |rows| && rows[j].birthYear.Some? ==> file[l].birthYear.value <= rows[j].birthYear.value
  {
    FilteredKeepsLabels(file, month, day);
  }

  /** The same for `idxmax` and the latest birth year. */
  lemma LatestLabelIsFileRow(file: seq<Trip>, month: string, day: string)
    requires Labelled(file)
    ensures var rows := Filtered(file, month, day);
      LatestBirthLabel(rows).Some? ==>
        var l := LatestBirthLabel(rows).value;
        && l < |file| && file[l] in rows && file[l].birthYear.Some?
        && forall j :: 0 <= j < |rows| && rows[j].birthYear.Some? ==> rows[j].birthYear.value <= file[l].birthYear.value
  {
    FilteredKeepsLabels(file, month, day);
  }
}
