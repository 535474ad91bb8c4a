/**
 Choosing and applying the filters: the answers `get_filters` accepts, the
 city-to-file table, and `load_data`'s month and weekday narrowing.
 */
module Filters {

  import opened Text
  import opened Trips
  import opened Selection
  import opened Aggregates

  /** The city-to-file table `CITY_DATA`. */
  const CITY_DATA: map<string, string> :=
    map["chicago" := "chicago.csv", "new york city" := "new_york_city.csv", "washington" := "washington.csv"]

  /** The answers each prompt of `get_filters` accepts, after lower-casing. */
  const CITY_CHOICES: seq<string> := ["chicago", "new york city", "washington"]
  const MONTH_CHOICES: seq<string> := ["all", "january", "february", "march", "april", "may", "june"]
  const DAY_CHOICES: seq<string> :=
    ["all", "monday", "tuesday", "wednesday", "thursday", "friday", "saturday", "sunday"]

  /** The list `load_data` looks the chosen month up in. */
  const MONTHS: seq<string> := ["january", "february", "march", "april", "may", "june"]

  /** The accepted cities are exactly the keys of CITY_DATA, so the lookup in `load_data` cannot fail on them. */
  lemma CityChoicesAreKeys()
    ensures forall c :: c in CITY_CHOICES <==> c in CITY_DATA
  {
  }

  /** `list.index(x)`: the first position of `x`; None where Python raises ValueError. */
  function IndexOf<T(==)>(s: seq<T>, x: T): (r: Option<nat>)
    ensures r.None? <==> x !in s
    ensures r.Some? ==> r.value < |s| && s[r.value] == x
    ensures r.Some? ==> forall j :: 0 <= j < r.value ==> s[j] != x
  {
    if s == [] then None
    else if s[0] == x then Some(0)
    else match IndexOf(s[1..], x)
      case None => None
      case Some(i) => Some(i + 1)
  }

  /** `months.index(month) + 1`: the month's number, None where `index` raises. */
  function MonthNumber(month: string): (r: Option<int>)
    ensures r.Some? <==> month in MONTHS
    ensures r.Some? ==> 1 <= r.value <= |MONTHS| && MONTHS[r.value - 1] == month
  {
    match IndexOf(MONTHS, month)
    case None => None
    case Some(i) => Some(i + 1)
  }

  /** Each listed month gets its 1-based position: january is 1, ..., june is 6. */
  lemma MonthNumberIsPosition()
    ensures forall i :: 0 <= i < |MONTHS| ==> MonthNumber(MONTHS[i]) == Some(i + 1)
    ensures MonthNumber("january") == Some(1) && MonthNumber("june") == Some(6)
  {
    assert NoDuplicates(MONTHS);
    forall i | 0 <= i < |MONTHS|
      ensures MonthNumber(MONTHS[i]) == Some(i + 1)
    {
      var r := MonthNumber(MONTHS[i]);
      assert MONTHS[r.value - 1] == MONTHS[i];
    }
    assert MONTHS[0] == "january" && MONTHS[5] == "june";
  }

  /** Different months get different numbers. */
  lemma MonthNumberInjective(a: string, b: string)
    requires MonthNumber(a).Some? && MonthNumber(a) == MonthNumber(b)
    ensures a == b
  {
  }

  /** The accepted month answers are "all" and exactly the months `load_data` can number. */
  lemma MonthChoicesAreNumbered()
    ensures forall m :: m in MONTH_CHOICES <==> m == "all" || MonthNumber(m).Some?
  {
    assert MONTH_CHOICES == ["all"] + MONTHS;
  }

  /**
   The accepted day answers other than "all" are the lower-cased `day_of_week`
   names, one for each weekday.
   */
  lemma DayChoicesAreWeekdays()
    ensures forall w :: Lower(WeekdayName(w)) in DAY_CHOICES
    ensures forall d :: d in DAY_CHOICES && d != "all" ==> exists w :: Lower(WeekdayName(w)) == d
  {
    assert Lower(WeekdayName(Monday)) == "monday";
    assert Lower(WeekdayName(Tuesday)) == "tuesday";
    assert Lower(WeekdayName(Wednesday)) == "wednesday";
    assert Lower(WeekdayName(Thursday)) == "thursday";
    assert Lower(WeekdayName(Friday)) == "friday";
    assert Lower(WeekdayName(Saturday)) == "saturday";
    assert Lower(WeekdayName(Sunday)) == "sunday";
  }

  /**
   For an answer made of lower-case letters other than "all", the day filter
   keeps exactly the rows whose weekday has that answer as its lower-cased name.
   */
  lemma DayFilterSelectsWeekday(t: Trip, day: string)
    requires day != "all" && day != [] && forall i :: 0 <= i < |day| ==> IsLower(day[i])
    ensures Matches(t, "all", day) <==> Lower(WeekdayName(t.weekday)) == day
  {
    TitleMatchesCapitalWord(day, WeekdayName(t.weekday));
  }

  /** The condition `load_data` keeps a row under: its month number and its weekday name match when they are not "all". */
  predicate Matches(t: Trip, month: string, day: string)
    ensures Matches(t, month, day) ==> month == "all" || month in MONTHS
    ensures month == "all" && day == "all" ==> Matches(t, month, day)
  {
    && (month == "all" || MonthNumber(month) == Some(t.month as int))
    && (day == "all" || WeekdayName(t.weekday) == Title(day))
  }

  /** Matches as a condition on rows, for Where. */
  function Keep(month: string, day: string): (keep: Trip -> bool)
    ensures forall t :: keep(t) == Matches(t, month, day)
  {
    t => Matches(t, month, day)
  }

  /** The rows `load_data` returns, as a single filter over the loaded rows. */
  function Filtered(rows: seq<Trip>, month: string, day: string): (r: seq<Trip>)
    ensures |r| <= |rows|
    ensures forall i :: 0 <= i < |r| ==> Matches(r[i], month, day)
    ensures month != "all" && month !in MONTHS ==> r == []
  {
    var r := Where(rows, Keep(month, day));
    assert r != [] ==> Matches(r[0], month, day);
    r
  }

  /** With no month and no day filter the loaded rows come back unchanged, in order. */
  lemma FilteredAllAll(rows: seq<Trip>)
    ensures Filtered(rows, "all", "all") == rows
  {
    WhereKeepsAll(rows, Keep("all", "all"));
  }

  /** A row is returned exactly when it matches the selection. */
  lemma FilteredKeepsMatches(rows: seq<Trip>, month: string, day: string)
    ensures forall t :: t in Filtered(rows, month, day) <==> t in rows && Matches(t, month, day)
  {
  }

  /** The returned rows are the loaded rows with some left out and none reordered. */
  lemma FilteredIsSubsequence(rows: seq<Trip>, month: string, day: string)
    ensures IsSubsequence(Filtered(rows, month, day), rows)
  {
    WhereIsSubsequence(rows, Keep(month, day));
  }

  function LabelKey(t: Trip): int { t.rowLabel }

  /**
   On a freshly read file, every returned row still carries its position in the
   file as its label, the labels are increasing, and row `i` of the file is
   returned exactly when it matches.
   */
  lemma FilteredKeepsLabels(rows: seq<Trip>, month: string, day: string)
    requires Labelled(rows)
    ensures IncreasingBy(Filtered(rows, month, day), LabelKey)
    ensures forall k :: 0 <= k < |Filtered(rows, month, day)| ==>
      var t := Filtered(rows, month, day)[k]; t.rowLabel < |rows| && rows[t.rowLabel] == t
    ensures forall i :: 0 <= i < |rows| ==> (rows[i] in Filtered(rows, month, day) <==> Matches(rows[i], month, day))
  {
    assert IncreasingBy(rows, LabelKey);
    WherePreservesIncreasing(rows, Keep(month, day), LabelKey);
  }

  /** Narrowing by month and then by day is the combined filter. */
  lemma MonthThenDay(rows: seq<Trip>, month: string, day: string)
    ensures Filtered(Filtered(rows, month, "all"), "all", day) == Filtered(rows, month, day)
  {
    WhereWhere(rows, Keep(month, "all"), Keep("all", day), Keep(month, day));
  }

  /** The two narrowings are independent: day first gives the same rows as month first. */
  lemma DayThenMonth(rows: seq<Trip>, month: string, day: string)
    ensures Filtered(Filtered(rows, "all", day), month, "all") == Filtered(rows, month, day)
  {
    WhereCommutes(rows, Keep("all", day), Keep(month, "all"));
    MonthThenDay(rows, month, day);
  }

  /** Filtering the filtered rows again with the same selection changes nothing. */
  lemma FilteredIdempotent(rows: seq<Trip>, month: string, day: string)
    ensures Filtered(Filtered(rows, month, day), month, day) == Filtered(rows, month, day)
  {
    WhereIdempotent(rows, Keep(month, day));
  }

  /**
   What one `while True` prompt loop of `get_filters` takes from the typed
   answers when it starts reading at position `from`: the first answer whose
   lower-cased form is a choice, and the position just after it. None when no
   answer from there on is a choice.
   */
  function FirstAccepted(answers: seq<string>, from: nat, choices: seq<string>): (r: Option<(string, nat)>)
    requires from <= |answers|
    ensures r.None? <==> forall j :: from <= j < |answers| ==> Lower(answers[j]) !in choices
    ensures r.Some? ==> from < r.value.1 <= |answers|
    ensures r.Some? ==> r.value.0 == Lower(answers[r.value.1 - 1]) && r.value.0 in choices
    ensures r.Some? ==> forall j :: from <= j < r.value.1 - 1 ==> Lower(answers[j]) !in choices
    decreases |answers| - from
  {
    if from == |answers| then None
    else if Lower(answers[from]) in choices then Some((Lower(answers[from]), from + 1))
    else FirstAccepted(answers, from + 1, choices)
  }

  /** An accepted answer after only rejected ones is what the prompt takes. */
  lemma FirstAcceptedAt(answers: seq<string>, from: nat, choices: seq<string>, i: nat)
    requires from <= i < |answers| && Lower(answers[i]) in choices
    requires forall j :: from <= j < i ==> Lower(answers[j]) !in choices
    ensures FirstAccepted(answers, from, choices) == Some((Lower(answers[i]), i + 1))
  {
    var r := FirstAccepted(answers, from, choices);
    assert r.Some?;
    assert !(r.value.1 - 1 < i);
  }

  /**
   One `while True` prompt loop of `get_filters`, with the typed answers as a
   parameter: reading from position `from`, the first answer whose lower-cased
   form is a choice is taken, and `next` is the position after it. None when
   the answers run out, with `next` at their end.
   */
  method Prompt(answers: seq<string>, from: nat, choices: seq<string>) returns (choice: Option<string>, next: nat)
    requires from <= |answers|
    ensures FirstAccepted(answers, from, choices) == if choice.Some? then Some((choice.value, next)) else None
    ensures from <= next <= |answers|
    ensures choice.None? ==> next == |answers|
  {
    var i := from;
    while i < |answers|
      invariant from <= i <= |answers|
      invariant forall j :: from <= j < i ==> Lower(answers[j]) !in choices
    {
      var answer := Lower(answers[i]);
      if answer in choices {
        FirstAcceptedAt(answers, from, choices, i);
        return Some(answer), i + 1;
      }
      i := i + 1;
    }
    return None, |answers|;
  }

  /**
   The selection `get_filters` makes reading the typed answers from position
   `from`: the city prompt first, the month prompt from where it stopped, then
   the day prompt; with the position after the last answer read.
   None when a prompt runs out of answers.
   */
  function SelectionFrom(answers: seq<string>, from: nat): (r: Option<((string, string, string), nat)>)
    requires from <= |answers|
    ensures r.Some? ==> from + 3 <= r.value.1 <= |answers|
  {
    var city := FirstAccepted(answers, from, CITY_CHOICES);
    if city.None? then None
    else
      var month := FirstAccepted(answers, city.value.1, MONTH_CHOICES);
      if month.None? then None
      else
        var day := FirstAccepted(answers, month.value.1, DAY_CHOICES);
        if day.None? then None
        else Some(((city.value.0, month.value.0, day.value.0), day.value.1))
  }

  /**
   A selection is a key of CITY_DATA, a month that is "all" or has a number,
   and an accepted day, so `load_data` can look all of them up.
   */
  lemma SelectionIsValid(answers: seq<string>, from: nat)
    requires from <= |answers|
    ensures var r := SelectionFrom(answers, from);
      r.Some? ==>
        && r.value.0.0 in CITY_DATA
        && (r.value.0.1 == "all" || MonthNumber(r.value.0.1).Some?)
        && r.value.0.2 in DAY_CHOICES
  {
    CityChoicesAreKeys();
    MonthChoicesAreNumbered();
  }

  /** Three valid answers in a row are the selection, in any mix of cases, and nothing after them is read. */
  lemma ValidAnswersSelect(city: string, month: string, day: string, rest: seq<string>)
    requires Lower(city) in CITY_CHOICES && Lower(month) in MONTH_CHOICES && Lower(day) in DAY_CHOICES
    ensures SelectionFrom([city, month, day] + rest, 0) == Some(((Lower(city), Lower(month), Lower(day)), 3))
  {
    var answers := [city, month, day] + rest;
    FirstAcceptedAt(answers, 0, CITY_CHOICES, 0);
    FirstAcceptedAt(answers, 1, MONTH_CHOICES, 1);
    FirstAcceptedAt(answers, 2, DAY_CHOICES, 2);
  }

  /** An invalid city answer is read and skipped: the prompt asks again. */
  lemma InvalidCityIsSkipped(answers: seq<string>, from: nat)
    requires from < |answers| && Lower(answers[from]) !in CITY_CHOICES
    ensures SelectionFrom(answers, from) == SelectionFrom(answers, from + 1)
  {
    assert FirstAccepted(answers, from, CITY_CHOICES) == FirstAccepted(answers, from + 1, CITY_CHOICES);
  }

  /**
   `get_filters`: a city, then a month, then a day, each prompted for until
   valid; `used` is the number of answers read.
   */
  method GetFilters(answers: seq<string>) returns (selection: Option<(string, string, string)>, used: nat)
    ensures used <= |answers|
    ensures selection.Some? ==> SelectionFrom(answers, 0) == Some((selection.value, used))
    ensures selection.None? ==> SelectionFrom(answers, 0) == None && used == |answers|
    ensures selection.Some? ==>
      && selection.value.0 in CITY_DATA
      && (selection.value.1 == "all" || MonthNumber(selection.value.1).Some?)
      && selection.value.2 in DAY_CHOICES
  {
    var city, afterCity := Prompt(answers, 0, CITY_CHOICES);
    if city.None? { return None, afterCity; }
    var month, afterMonth := Prompt(answers, afterCity, MONTH_CHOICES);
    if month.None? { return None, afterMonth; }
    var day, afterDay := Prompt(answers, afterMonth, DAY_CHOICES);
    if day.None? { return None, afterDay; }
    selection, used := Some((city.value, month.value, day.value)), afterDay;
    SelectionIsValid(answers, 0);
  }

  /**
   `load_data`. Reading the CSV file is the map `files` from file name to its
   rows; a missing city raises KeyError, a missing file FileNotFound and a month
   outside the list ValueError. Then `df` is narrowed step by step.
   */
  method LoadData(files: map<string, seq<Trip>>, city: string, month: string, day: string)
    returns (r: Result<seq<Trip>>)
    ensures city !in CITY_DATA ==> r == Err(KeyError)
    ensures city in CITY_DATA && CITY_DATA[city] !in files ==> r == Err(FileNotFound)
    ensures city in CITY_DATA && CITY_DATA[city] in files ==>
      if month == "all" || month in MONTHS then r == Ok(Filtered(files[CITY_DATA[city]], month, day))
      else r == Err(ValueError)
  {
    if city !in CITY_DATA {
      return Err(KeyError);
    }
    var name := CITY_DATA[city];
    if name !in files {
      return Err(FileNotFound);
    }
    var rows := files[name];
    var df := rows;
    var pm, pd := Keep(month, "all"), Keep("all", day);
    if month != "all" {
      var index := IndexOf(MONTHS, month);
      if index.None? {
        return Err(ValueError);
      }
      var number := index.value + 1;
      df := Select(df, MaskOf(df, (t: Trip) => t.month == number));
      SelectMaskIsWhere(rows, (t: Trip) => t.month == number);
      WhereCongruent(rows, (t: Trip) => t.month == number, pm);
    } else {
      WhereKeepsAll(rows, pm);
    }
    assert df == Where(rows, pm);
    if day != "all" {
      var name := Title(day);
      var before := df;
      df := Select(df, MaskOf(df, (t: Trip) => WeekdayName(t.weekday) == name));
      SelectMaskIsWhere(before, (t: Trip) => WeekdayName(t.weekday) == name);
      WhereCongruent(before, (t: Trip) => WeekdayName(t.weekday) == name, pd);
    } else {
      WhereKeepsAll(df, pd);
    }
    assert df == Where(Where(rows, pm), pd);
    MonthThenDay(rows, month, day);
    return Ok(df);
  }
}
