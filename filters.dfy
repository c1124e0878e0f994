/**
 * Launch filtering and derived values (src/utils/filters.ts): year extraction, the
 * mission-type and year filter, the list of years to choose from, the success rate
 * and text truncation.
 */
module Filters {
  import opened Wrappers
  import opened Types
  import opened Collections

  /** `getYear`: the local calendar year of a timestamp, or 0 for "unknown". An empty
      text is 0; text that does not parse gives NaN in the source and 0 here, which no
      caller can tell apart, since every caller tests `year > 0` or compares with a
      non-zero year. */
  function GetYear(date: Timestamp): (year: int)
    ensures date.text == "" ==> year == 0
    ensures date.fullYear == NotANumber ==> year == 0
    ensures date.text != "" && date.fullYear.Year? ==> year == date.fullYear.value
    ensures year != 0 ==> date.text != "" && date.fullYear == Year(year)
  {
    if date.text == "" then 0
    else
      match date.fullYear
      case Year(y) => y
      case NotANumber => 0
  }

  /** The year filter is active when the year is present and non-zero (JavaScript truthiness). */
  predicate YearSelected(year: Option<int>) {
    year.Some? && year.value != 0
  }

  /** The callback given to `launches.filter` in `filterLaunches`. */
  predicate Keeps(filters: FilterOptions, launch: Launch)
    ensures Keeps(filters, launch) && filters.missionType == Some(UpcomingMissions) ==> launch.upcoming
    ensures Keeps(filters, launch) && filters.missionType == Some(PastMissions) ==> !launch.upcoming
    ensures Keeps(filters, launch) && YearSelected(filters.year) ==> GetYear(launch.dateUtc) == filters.year.value
    ensures (filters.missionType == None || filters.missionType == Some(AllMissions)) ==>
              !YearSelected(filters.year) ==> Keeps(filters, launch)
  {
    && !(filters.missionType == Some(UpcomingMissions) && !launch.upcoming)
    && !(filters.missionType == Some(PastMissions) && launch.upcoming)
    && (YearSelected(filters.year) ==> GetYear(launch.dateUtc) == filters.year.value)
  }

  /** `filterLaunches`: the launches that pass the filters, in their original order. */
  function FilterLaunches(launches: seq<Launch>, filters: FilterOptions): (kept: seq<Launch>)
    ensures |kept| <= |launches|
    decreases |launches|
  {
    if launches == [] then []
    else
      var last := launches[|launches| - 1];
      var init := launches[..|launches| - 1];
      assert launches == init + [last];
      FilterLaunches(init, filters) + (if Keeps(filters, last) then [last] else [])
  }

  /** Filtering one more launch at the end extends the result by that launch if it passes. */
  lemma FilterAppend(launches: seq<Launch>, last: Launch, filters: FilterOptions)
    ensures FilterLaunches(launches + [last], filters)
         == FilterLaunches(launches, filters) + (if Keeps(filters, last) then [last] else [])
  {
    assert (launches + [last])[..|launches|] == launches;
  }

  /** A launch is in the result exactly when it is in the input and passes the filters. */
  lemma {:induction false} FilterMembers(launches: seq<Launch>, filters: FilterOptions)
    ensures forall l :: l in FilterLaunches(launches, filters) <==> l in launches && Keeps(filters, l)
    decreases |launches|
  {
    if launches != [] {
      var last := launches[|launches| - 1];
      var init := launches[..|launches| - 1];
      FilterMembers(init, filters);
      assert launches == init + [last];
    }
  }

  /** The filter keeps a subsequence of its input: nothing is added, nothing reordered. */
  lemma {:induction false} FilterIsSubsequence(launches: seq<Launch>, filters: FilterOptions)
    ensures IsSubsequence(FilterLaunches(launches, filters), launches)
    decreases |launches|
  {
    if launches != [] {
      var last := launches[|launches| - 1];
      var init := launches[..|launches| - 1];
      var kept := FilterLaunches(launches, filters);
      FilterIsSubsequence(init, filters);
      if Keeps(filters, last) {
        assert kept[..|kept| - 1] == FilterLaunches(init, filters);
      } else {
        assert kept == FilterLaunches(init, filters);
      }
    }
  }

  /** With mission type `'all'` or absent and no active year, nothing is filtered out. */
  lemma {:induction false} FilterNothingSelected(launches: seq<Launch>, filters: FilterOptions)
    requires filters.missionType == None || filters.missionType == Some(AllMissions)
    requires !YearSelected(filters.year)
    ensures FilterLaunches(launches, filters) == launches
    decreases |launches|
  {
    if launches != [] {
      var init := launches[..|launches| - 1];
      FilterNothingSelected(init, filters);
      assert launches == init + [launches[|launches| - 1]];
    }
  }

  /** For any year filter, the `'upcoming'` and `'past'` results split the `'all'` result
      between them: each holds only its own kind, and together they hold all of it. */
  lemma FilterPartition(launches: seq<Launch>, year: Option<int>)
    ensures var up := FilterLaunches(launches, FilterOptions(Some(UpcomingMissions), year));
            var past := FilterLaunches(launches, FilterOptions(Some(PastMissions), year));
            var all := FilterLaunches(launches, FilterOptions(Some(AllMissions), year));
            && (forall l :: l in up ==> l.upcoming)
            && (forall l :: l in past ==> !l.upcoming)
            && multiset(up) + multiset(past) == multiset(all)
            && |up| + |past| == |all|
  {
    var up := FilterLaunches(launches, FilterOptions(Some(UpcomingMissions), year));
    var past := FilterLaunches(launches, FilterOptions(Some(PastMissions), year));
    var all := FilterLaunches(launches, FilterOptions(Some(AllMissions), year));
    FilterMembers(launches, FilterOptions(Some(UpcomingMissions), year));
    FilterMembers(launches, FilterOptions(Some(PastMissions), year));
    FilterSplit(launches, year);
    calc {
      |up| + |past|;
      |multiset(up)| + |multiset(past)|;
      |multiset(up) + multiset(past)|;
      |multiset(all)|;
      |all|;
    }
  }

  /** The multiset half of the partition, by induction on the launches. */
  lemma {:induction false} FilterSplit(launches: seq<Launch>, year: Option<int>)
    ensures multiset(FilterLaunches(launches, FilterOptions(Some(UpcomingMissions), year)))
          + multiset(FilterLaunches(launches, FilterOptions(Some(PastMissions), year)))
         == multiset(FilterLaunches(launches, FilterOptions(Some(AllMissions), year)))
    decreases |launches|
  {
    if launches != [] {
      var init := launches[..|launches| - 1];
      var last := launches[|launches| - 1];
      var upcoming := FilterOptions(Some(UpcomingMissions), year);
      var past := FilterOptions(Some(PastMissions), year);
      var all := FilterOptions(Some(AllMissions), year);
      assert launches == init + [last];
      FilterSplit(init, year);
      FilterAppend(init, last, upcoming);
      FilterAppend(init, last, past);
      FilterAppend(init, last, all);
      KeepsSplit(year, last);
      MultisetStep(FilterLaunches(init, upcoming), FilterLaunches(init, past), FilterLaunches(init, all), last,
                   Keeps(upcoming, last), Keeps(past, last), Keeps(all, last));
    }
  }

  /** For one launch and any year filter, `'all'` keeps it exactly when one of `'upcoming'`
      and `'past'` does, and never both do. */
  lemma KeepsSplit(year: Option<int>, launch: Launch)
    ensures var upcoming := Keeps(FilterOptions(Some(UpcomingMissions), year), launch);
            var past := Keeps(FilterOptions(Some(PastMissions), year), launch);
            (Keeps(FilterOptions(Some(AllMissions), year), launch) <==> upcoming || past)
            && !(upcoming && past)
  {
  }

  /** Appending one element to the parts of a split of `al` that keep it. */
  lemma MultisetStep<T>(up: seq<T>, pa: seq<T>, al: seq<T>, x: T, inUp: bool, inPa: bool, inAl: bool)
    requires multiset(up) + multiset(pa) == multiset(al)
    requires (inAl <==> inUp || inPa) && !(inUp && inPa)
    ensures multiset(up + (if inUp then [x] else [])) + multiset(pa + (if inPa then [x] else []))
         == multiset(al + (if inAl then [x] else []))
  {
    assert multiset(up + (if inUp then [x] else [])) == multiset(up) + (if inUp then multiset{x} else multiset{});
    assert multiset(pa + (if inPa then [x] else [])) == multiset(pa) + (if inPa then multiset{x} else multiset{});
    assert multiset(al + (if inAl then [x] else [])) == multiset(al) + (if inAl then multiset{x} else multiset{});
  }

  /** Without a year, the `'upcoming'` and `'past'` results together are as long as the input. */
  lemma PartitionCoversInput(launches: seq<Launch>)
    ensures |FilterLaunches(launches, FilterOptions(Some(UpcomingMissions), None))|
          + |FilterLaunches(launches, FilterOptions(Some(PastMissions), None))| == |launches|
  {
    FilterPartition(launches, None);
    FilterNothingSelected(launches, FilterOptions(Some(AllMissions), None));
  }

  /** An active year filter keeps only launches of that (known) year; a year no launch
      has gives an empty result. */
  lemma FilterByYear(launches: seq<Launch>, filters: FilterOptions)
    requires YearSelected(filters.year)
    ensures forall l :: l in FilterLaunches(launches, filters) ==>
              GetYear(l.dateUtc) == filters.year.value && GetYear(l.dateUtc) != 0
    ensures (forall l :: l in launches ==> GetYear(l.dateUtc) != filters.year.value) ==>
              FilterLaunches(launches, filters) == []
  {
    var kept := FilterLaunches(launches, filters);
    FilterMembers(launches, filters);
    if kept != [] {
      assert kept[0] in kept;
    }
  }

  /** Filtering a filtered list again with the same options changes nothing. */
  lemma {:induction false} FilterIdempotent(launches: seq<Launch>, filters: FilterOptions)
    ensures FilterLaunches(FilterLaunches(launches, filters), filters) == FilterLaunches(launches, filters)
    decreases |launches|
  {
    if launches != [] {
      var last := launches[|launches| - 1];
      var init := launches[..|launches| - 1];
      var kept := FilterLaunches(init, filters);
      FilterIdempotent(init, filters);
      assert launches == init + [last];
      FilterAppend(init, last, filters);
      FilterAppend(kept, last, filters);
      if !Keeps(filters, last) {
        assert kept + [] == kept;
      }
    }
  }

  /** The mission-type test and the year test combine as a logical AND: filtering by
      both equals filtering by mission type, then by year. */
  lemma {:induction false} FilterComposes(launches: seq<Launch>, missionType: Option<MissionType>, year: Option<int>)
    ensures FilterLaunches(launches, FilterOptions(missionType, year))
         == FilterLaunches(FilterLaunches(launches, FilterOptions(missionType, None)), FilterOptions(None, year))
    decreases |launches|
  {
    if launches != [] {
      var last := launches[|launches| - 1];
      var init := launches[..|launches| - 1];
      var byType := FilterLaunches(init, FilterOptions(missionType, None));
      FilterComposes(init, missionType, year);
      assert launches == init + [last];
      FilterAppend(init, last, FilterOptions(missionType, year));
      FilterAppend(init, last, FilterOptions(missionType, None));
      FilterAppend(byType, last, FilterOptions(None, year));
      if !Keeps(FilterOptions(missionType, None), last) {
        assert byType + [] == byType;
      }
    }
  }

  /** The known (positive) years of the launches. */
  function KnownYears(launches: seq<Launch>): (years: set<int>)
    ensures forall y :: y in years <==> y > 0 && exists l :: l in launches && GetYear(l.dateUtc) == y
    decreases |launches|
  {
    if launches == [] then {}
    else
      var last := launches[|launches| - 1];
      var init := launches[..|launches| - 1];
      assert launches == init + [last];
      var year := GetYear(last.dateUtc);
      KnownYears(init) + (if year > 0 then {year} else {})
  }

  function Identity(y: int): int { y }

  /** `getAvailableYears`: the distinct known years in ascending order. The `Set` the source
      fills keeps insertion order, so it is modelled by a sequence without repeats. */
  method GetAvailableYears(launches: seq<Launch>) returns (years: seq<int>)
    ensures StrictlyIncreasing(years)
    ensures forall y :: y in years <==> y in KnownYears(launches)
  {
    var seen: seq<int> := [];
    var i := 0;
    while i < |launches|
      invariant 0 <= i <= |launches|
      invariant DistinctKeys(seen, Identity)
      invariant forall y :: y in seen <==> y in KnownYears(launches[..i])
    {
      assert launches[..i + 1] == launches[..i] + [launches[i]];
      var year := GetYear(launches[i].dateUtc);
      if year > 0 && year !in seen {
        seen := seen + [year];
      }
      i := i + 1;
    }
    assert launches[..i] == launches;
    years := SortBy(seen, Identity);
    SortBySorted(seen, Identity);
    SortByMembers(seen, Identity);
  }

  /** What `Count` counts. */
  datatype Selector = AnyOutcome | SucceededOnly | FailedOnly | UndecidedOnly | UpcomingOnly

  predicate Selects(sel: Selector, launch: Launch) {
    match sel
    case AnyOutcome => true
    case SucceededOnly => launch.success == Some(true)
    case FailedOnly => launch.success == Some(false)
    case UndecidedOnly => launch.success == None
    case UpcomingOnly => launch.upcoming
  }

  /** `launches.filter(l => ...).length` for the test `sel` names. */
  function Count(launches: seq<Launch>, sel: Selector): (n: nat)
    ensures n <= |launches|
    ensures sel == AnyOutcome ==> n == |launches|
    decreases |launches|
  {
    if launches == [] then 0
    else
      var last := launches[|launches| - 1];
      Count(launches[..|launches| - 1], sel) + (if Selects(sel, last) then 1 else 0)
  }

  /** Every launch has exactly one outcome: succeeded, failed or undecided (`null`). */
  lemma {:induction false} OutcomePartition(launches: seq<Launch>)
    ensures Count(launches, SucceededOnly) + Count(launches, FailedOnly) + Count(launches, UndecidedOnly)
         == |launches|
    decreases |launches|
  {
    if launches != [] {
      var last := launches[|launches| - 1];
      OutcomePartition(launches[..|launches| - 1]);
      OutcomeCases(last.success);
    }
  }

  /** `getSuccessRate`: the share of launches with `success === true`, as a percentage
      rounded half up; 0 for no launches. Launches whose outcome is `null` count in the
      denominator only. */
  function SuccessRate(launches: seq<Launch>): (rate: nat)
    ensures launches == [] ==> rate == 0
    ensures launches != [] ==> rate <= 100
    ensures launches != [] ==>
              var n := |launches|;
              var s := Count(launches, SucceededOnly);
              2 * rate * n - n <= 200 * s < 2 * rate * n + n
  {
    if |launches| == 0 then 0
    else
      var n := |launches|;
      var s := Count(launches, SucceededOnly);
      RoundHalfUp(s, n);
      (200 * s + n) / (2 * n)
  }

  /** Two successes and one failure give 67 (two thirds, rounded). */
  lemma SuccessRateTwoOfThree(a: Launch, b: Launch, c: Launch)
    requires a.success == Some(true) && b.success == Some(true) && c.success == Some(false)
    ensures SuccessRate([a, b, c]) == 67
  {
    assert [a, b, c][..2] == [a, b];
    assert [a, b][..1] == [a];
    assert [a][..0] == [];
    assert Count([a], SucceededOnly) == 1;
    assert Count([a, b], SucceededOnly) == 2;
    assert Count([a, b, c], SucceededOnly) == 2;
  }

  /** `100 * s / n` rounded half up is the quotient of `200 * s + n` by `2 * n`. */
  lemma RoundHalfUp(s: nat, n: nat)
    requires 0 < n && s <= n
    ensures var q := (200 * s + n) / (2 * n);
            q <= 100 && 2 * q * n - n <= 200 * s < 2 * q * n + n
  {
    var q := (200 * s + n) / (2 * n);
    QuotientBounds(200 * s + n, 2 * n);
    assert (2 * n) * q == 2 * q * n;
    AtMostHundred(q, n);
  }

  lemma QuotientBounds(a: nat, d: nat)
    requires 0 < d
    ensures d * (a / d) <= a < d * (a / d) + d
  {
    assert a == d * (a / d) + a % d;
  }

  lemma AtMostHundred(q: nat, n: nat)
    requires 0 < n && 2 * q * n <= 201 * n
    ensures q <= 100
  {
  }

  /** `truncateText`: empty for absent or empty text, the text itself when it fits in
      `length`, otherwise its first `length` characters followed by `"..."`. */
  function TruncateText(text: Option<string>, length: int): (r: string)
    ensures text == None || text == Some("") ==> r == ""
    ensures text.Some? && |text.value| <= length ==> r == text.value
    ensures text.Some? && |text.value| > length && text.value != "" ==>
              var keep := if length < 0 then 0 else length;
              |r| == keep + 3 && r[..keep] == text.value[..keep] && r[keep..] == "..."
  {
    if text == None || text == Some("") then ""
    else if |text.value| <= length then text.value
    else text.value[..if length < 0 then 0 else length] + "..."
  }
}
