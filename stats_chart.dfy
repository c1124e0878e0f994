/**
 * The statistics of the chart panel (src/components/StatsChart.tsx): the per-year
 * table built by a reduce over the launches and then sorted by year, and the overall
 * counters. Chart rendering is not modelled.
 */
module StatsChart {
  import opened Wrappers
  import opened Types
  import opened Collections
  import opened Filters

  /** One row of the yearly table: `{ year, total, successful, failed }`. */
  datatype YearStat = YearStat(year: int, total: nat, successful: nat, failed: nat)

  function StatYear(stat: YearStat): int { stat.year }

  /** The years that have a row. */
  function YearsOf(stats: seq<YearStat>): set<int> {
    set i | 0 <= i < |stats| :: stats[i].year
  }

  /** The year column, top to bottom. */
  function YearColumn(stats: seq<YearStat>): seq<int> {
    seq(|stats|, i requires 0 <= i < |stats| => stats[i].year)
  }

  function SumTotals(stats: seq<YearStat>): nat {
    if stats == [] then 0 else stats[0].total + SumTotals(stats[1..])
  }

  /** How many launches of `year` the selector picks: the count over the launches
      that `filterLaunches` keeps for that year. */
  function YearCount(launches: seq<Launch>, year: int, sel: Selector): nat {
    Count(FilterLaunches(launches, FilterOptions(None, Some(year))), sel)
  }

  /** The row holds the right tallies of its year over `launches`. */
  predicate Tallies(stat: YearStat, launches: seq<Launch>) {
    && stat.total == YearCount(launches, stat.year, AnyOutcome)
    && stat.successful == YearCount(launches, stat.year, SucceededOnly)
    && stat.failed == YearCount(launches, stat.year, FailedOnly)
  }

  /** Every row has a known year and the right tallies. */
  predicate RowsRight(acc: seq<YearStat>, launches: seq<Launch>) {
    forall k :: 0 <= k < |acc| ==> acc[k].year > 0 && Tallies(acc[k], launches)
  }

  /** The number of launches whose year is known. */
  function CountDated(launches: seq<Launch>): nat
    decreases |launches|
  {
    if launches == [] then 0
    else
      var last := launches[|launches| - 1];
      CountDated(launches[..|launches| - 1]) + (if GetYear(last.dateUtc) > 0 then 1 else 0)
  }

  /** A row after one more launch of its year: `total += 1`, and `successful` or
      `failed` by one more when the launch succeeded or failed. */
  function Counted(stat: YearStat, launch: Launch): (next: YearStat)
    ensures next.year == stat.year && next.total == stat.total + 1
    ensures stat.successful + stat.failed <= stat.total ==> next.successful + next.failed <= next.total
  {
    stat.(total := stat.total + 1,
          successful := stat.successful + (if launch.success == Some(true) then 1 else 0),
          failed := stat.failed + (if launch.success == Some(false) then 1 else 0))
  }

  /** `acc.find(item => item.year === year)`, as the index of the first such row. */
  function FindYear(acc: seq<YearStat>, year: int): (found: Option<nat>)
    ensures found.Some? ==> found.value < |acc| && acc[found.value].year == year
    ensures found.Some? ==> forall j :: 0 <= j < found.value ==> acc[j].year != year
    ensures found.None? ==> year !in YearsOf(acc)
  {
    if acc == [] then None
    else if acc[0].year == year then Some(0)
    else
      match FindYear(acc[1..], year)
      case None => None
      case Some(k) => Some(k + 1)
  }

  /** The reduce callback: count `launch` in the row of its year, appending a new row
      when the year has none; a launch of unknown year changes nothing. */
  method Accumulate(acc: seq<YearStat>, launch: Launch) returns (next: seq<YearStat>)
    ensures GetYear(launch.dateUtc) <= 0 ==> next == acc
    ensures forall i :: 0 <= i < |acc| && acc[i].year != GetYear(launch.dateUtc) ==>
              i < |next| && next[i] == acc[i]
    ensures var year := GetYear(launch.dateUtc);
            year > 0 && year !in YearsOf(acc) ==>
              next == acc + [Counted(YearStat(year, 0, 0, 0), launch)]
    ensures var year := GetYear(launch.dateUtc);
            year > 0 && year in YearsOf(acc) ==>
              exists k :: 0 <= k < |acc| && acc[k].year == year && next == acc[k := Counted(acc[k], launch)]
    ensures GetYear(launch.dateUtc) > 0 ==>
              YearsOf(next) == YearsOf(acc) + {GetYear(launch.dateUtc)}
              && SumTotals(next) == SumTotals(acc) + 1
    ensures DistinctKeys(acc, StatYear) ==> DistinctKeys(next, StatYear)
  {
    var year := GetYear(launch.dateUtc);
    next := acc;
    if year > 0 {
      var existing := FindYear(acc, year);
      if existing.Some? {
        var k := existing.value;
        next := acc[k := Counted(acc[k], launch)];
        UpdateRow(acc, k, Counted(acc[k], launch));
      } else {
        next := acc + [Counted(YearStat(year, 0, 0, 0), launch)];
        AppendRow(acc, Counted(YearStat(year, 0, 0, 0), launch));
      }
    }
  }

  /** Replacing a row by one of the same year keeps the years, their distinctness, and
      changes the sum of totals by the difference. */
  lemma UpdateRow(acc: seq<YearStat>, k: nat, row: YearStat)
    requires k < |acc| && row.year == acc[k].year
    ensures YearsOf(acc[k := row]) == YearsOf(acc)
    ensures SumTotals(acc[k := row]) + acc[k].total == SumTotals(acc) + row.total
    ensures DistinctKeys(acc, StatYear) ==> DistinctKeys(acc[k := row], StatYear)
  {
    var next := acc[k := row];
    SumTotalsConcat(acc[..k], [acc[k]] + acc[k + 1..]);
    SumTotalsConcat(acc[..k], [row] + acc[k + 1..]);
    assert acc == acc[..k] + ([acc[k]] + acc[k + 1..]);
    assert next == acc[..k] + ([row] + acc[k + 1..]);
    forall y
      ensures y in YearsOf(next) <==> y in YearsOf(acc)
    {
      if y in YearsOf(next) {
        var i :| 0 <= i < |next| && next[i].year == y;
        assert acc[i].year == y;
      }
      if y in YearsOf(acc) {
        var i :| 0 <= i < |acc| && acc[i].year == y;
        assert next[i].year == y;
      }
    }
  }

  /** Appending a row adds its year and its total. */
  lemma AppendRow(acc: seq<YearStat>, row: YearStat)
    ensures YearsOf(acc + [row]) == YearsOf(acc) + {row.year}
    ensures SumTotals(acc + [row]) == SumTotals(acc) + row.total
    ensures DistinctKeys(acc, StatYear) && row.year !in YearsOf(acc) ==> DistinctKeys(acc + [row], StatYear)
  {
    var next := acc + [row];
    SumTotalsConcat(acc, [row]);
    assert SumTotals([row]) == row.total;
    forall y
      ensures y in YearsOf(next) <==> y in YearsOf(acc) + {row.year}
    {
      if y in YearsOf(next) {
        var i :| 0 <= i < |next| && next[i].year == y;
        if i < |acc| {
          assert acc[i].year == y;
        }
      }
      if y in YearsOf(acc) {
        var i :| 0 <= i < |acc| && acc[i].year == y;
        assert next[i].year == y;
      }
      if y == row.year {
        assert next[|acc|].year == y;
      }
    }
    if DistinctKeys(acc, StatYear) && row.year !in YearsOf(acc) {
      forall i, j | 0 <= i < j < |next|
        ensures StatYear(next[i]) != StatYear(next[j])
      {
        if j == |acc| {
          assert acc[i].year in YearsOf(acc);
        }
      }
    }
  }

  /** `yearlyStats`: the reduce over all launches, then the sort by year. */
  method YearlyStats(launches: seq<Launch>) returns (stats: seq<YearStat>)
    ensures StrictlySortedBy(stats, StatYear)
    ensures YearsOf(stats) == KnownYears(launches)
    ensures forall k :: 0 <= k < |stats| ==> stats[k].year > 0 && Tallies(stats[k], launches)
    ensures forall k :: 0 <= k < |stats| ==> stats[k].successful + stats[k].failed <= stats[k].total
    ensures SumTotals(stats) == CountDated(launches)
  {
    var acc: seq<YearStat> := [];
    for i := 0 to |launches|
      invariant Summarizes(acc, launches[..i])
    {
      var launch := launches[i];
      var prefix := launches[..i];
      assert launches[..i + 1] == prefix + [launch];
      var next := Accumulate(acc, launch);
      StepSummarizes(acc, next, prefix, launch);
      acc := next;
    }
    assert launches[..|launches|] == launches;
    stats := SortBy(acc, StatYear);
    SortedRows(acc, launches);
  }

  /** Every row counts no more successes and failures than launches. */
  predicate RowsBounded(stats: seq<YearStat>) {
    forall k :: 0 <= k < |stats| ==> stats[k].successful + stats[k].failed <= stats[k].total
  }

  /** The rows of a table that is right for `launches` and has one row per year, once
      sorted by year. */
  lemma SortedRows(acc: seq<YearStat>, launches: seq<Launch>)
    requires DistinctKeys(acc, StatYear)
    requires RowsRight(acc, launches)
    requires YearsOf(acc) == KnownYears(launches)
    requires SumTotals(acc) == CountDated(launches)
    ensures var stats := SortBy(acc, StatYear);
            && StrictlySortedBy(stats, StatYear)
            && YearsOf(stats) == KnownYears(launches)
            && RowsRight(stats, launches)
            && RowsBounded(stats)
            && SumTotals(stats) == CountDated(launches)
  {
    SortBySorted(acc, StatYear);
    SumTotalsPermutation(acc, SortBy(acc, StatYear));
    SortedYears(acc);
    SortedRowsRight(acc, launches);
  }

  /** Sorting keeps the set of years. */
  lemma SortedYears(acc: seq<YearStat>)
    ensures YearsOf(SortBy(acc, StatYear)) == YearsOf(acc)
  {
    var stats := SortBy(acc, StatYear);
    SortByMembers(acc, StatYear);
    forall y
      ensures y in YearsOf(stats) <==> y in YearsOf(acc)
    {
      if y in YearsOf(stats) {
        var i :| 0 <= i < |stats| && stats[i].year == y;
        assert stats[i] in acc;
      }
      if y in YearsOf(acc) {
        var i :| 0 <= i < |acc| && acc[i].year == y;
        assert acc[i] in stats;
      }
    }
  }

  /** Sorting keeps every row right, and then every row is bounded by its total. */
  lemma SortedRowsRight(acc: seq<YearStat>, launches: seq<Launch>)
    requires RowsRight(acc, launches)
    ensures RowsRight(SortBy(acc, StatYear), launches)
    ensures RowsBounded(SortBy(acc, StatYear))
  {
    var stats := SortBy(acc, StatYear);
    SortByMembers(acc, StatYear);
    forall k | 0 <= k < |stats|
      ensures stats[k].year > 0 && Tallies(stats[k], launches)
      ensures stats[k].successful + stats[k].failed <= stats[k].total
    {
      assert stats[k] in acc;
      TallyPartition(stats[k], launches);
    }
  }

  /** One more launch adds its year to the known years and one to the dated count,
      when its year is known, and changes neither otherwise. */
  lemma DatedAppend(prefix: seq<Launch>, launch: Launch)
    ensures var year := GetYear(launch.dateUtc);
            KnownYears(prefix + [launch]) == KnownYears(prefix) + (if year > 0 then {year} else {})
    ensures var year := GetYear(launch.dateUtc);
            CountDated(prefix + [launch]) == CountDated(prefix) + (if year > 0 then 1 else 0)
  {
    assert (prefix + [launch])[..|prefix|] == prefix;
  }

  /** What the accumulator holds after the launches of `prefix`: one row per known
      year, each with its right tallies, and totals that add up to the dated launches. */
  predicate Summarizes(acc: seq<YearStat>, prefix: seq<Launch>) {
    && DistinctKeys(acc, StatYear)
    && RowsRight(acc, prefix)
    && YearsOf(acc) == KnownYears(prefix)
    && SumTotals(acc) == CountDated(prefix)
  }

  /** Whichever of its three cases the reduce callback takes, the accumulator goes on
      summarizing the launches seen so far. */
  lemma StepSummarizes(acc: seq<YearStat>, next: seq<YearStat>, prefix: seq<Launch>, launch: Launch)
    requires Summarizes(acc, prefix)
    requires GetYear(launch.dateUtc) <= 0 ==> next == acc
    requires var year := GetYear(launch.dateUtc);
             year > 0 && year !in YearsOf(acc) ==>
               next == acc + [Counted(YearStat(year, 0, 0, 0), launch)]
    requires var year := GetYear(launch.dateUtc);
             year > 0 && year in YearsOf(acc) ==>
               exists k :: 0 <= k < |acc| && acc[k].year == year && next == acc[k := Counted(acc[k], launch)]
    requires GetYear(launch.dateUtc) > 0 ==>
               YearsOf(next) == YearsOf(acc) + {GetYear(launch.dateUtc)}
               && SumTotals(next) == SumTotals(acc) + 1
    requires DistinctKeys(next, StatYear)
    ensures Summarizes(next, prefix + [launch])
  {
    var year := GetYear(launch.dateUtc);
    DatedAppend(prefix, launch);
    if year <= 0 {
      RowsAfterUnknownYear(acc, prefix, launch);
    } else if year in YearsOf(acc) {
      var j :| 0 <= j < |acc| && acc[j].year == year && next == acc[j := Counted(acc[j], launch)];
      RowsAfterKnownYear(acc, j, prefix, launch);
    } else {
      RowsAfterNewYear(acc, prefix, launch);
    }
  }

  /** A launch of unknown year leaves every row right. */
  lemma RowsAfterUnknownYear(acc: seq<YearStat>, prefix: seq<Launch>, launch: Launch)
    requires RowsRight(acc, prefix) && GetYear(launch.dateUtc) <= 0
    ensures RowsRight(acc, prefix + [launch])
  {
    forall k | 0 <= k < |acc|
      ensures acc[k].year > 0 && Tallies(acc[k], prefix + [launch])
    {
      TalliesAppend(acc[k], prefix, launch);
    }
  }

  /** Counting a launch in the one row of its year leaves every row right. */
  lemma RowsAfterKnownYear(acc: seq<YearStat>, j: nat, prefix: seq<Launch>, launch: Launch)
    requires RowsRight(acc, prefix) && DistinctKeys(acc, StatYear)
    requires j < |acc| && acc[j].year == GetYear(launch.dateUtc)
    ensures RowsRight(acc[j := Counted(acc[j], launch)], prefix + [launch])
  {
    var next := acc[j := Counted(acc[j], launch)];
    forall k | 0 <= k < |next|
      ensures next[k].year > 0 && Tallies(next[k], prefix + [launch])
    {
      TalliesAppend(acc[k], prefix, launch);
      if k != j {
        assert StatYear(acc[k]) != StatYear(acc[j]);
      }
    }
  }

  /** A new row for the first launch of a year leaves every row right. */
  lemma RowsAfterNewYear(acc: seq<YearStat>, prefix: seq<Launch>, launch: Launch)
    requires RowsRight(acc, prefix) && YearsOf(acc) == KnownYears(prefix)
    requires GetYear(launch.dateUtc) > 0 && GetYear(launch.dateUtc) !in YearsOf(acc)
    ensures RowsRight(acc + [Counted(YearStat(GetYear(launch.dateUtc), 0, 0, 0), launch)], prefix + [launch])
  {
    var next := acc + [Counted(YearStat(GetYear(launch.dateUtc), 0, 0, 0), launch)];
    forall k | 0 <= k < |next|
      ensures next[k].year > 0 && Tallies(next[k], prefix + [launch])
    {
      if k < |acc| {
        TalliesAppend(acc[k], prefix, launch);
      } else {
        TalliesFirst(prefix, launch);
      }
    }
  }

  /** Counting one more launch keeps a row right: rows of other years are unchanged, the
      row of its year takes it in. */
  lemma TalliesAppend(stat: YearStat, prefix: seq<Launch>, launch: Launch)
    requires stat.year > 0 && Tallies(stat, prefix)
    ensures GetYear(launch.dateUtc) != stat.year ==> Tallies(stat, prefix + [launch])
    ensures GetYear(launch.dateUtc) == stat.year ==> Tallies(Counted(stat, launch), prefix + [launch])
  {
    YearCountsAppend(prefix, launch, stat.year);
  }

  /** The first launch of a year that has no row yet gives a right new row. */
  lemma TalliesFirst(prefix: seq<Launch>, launch: Launch)
    requires GetYear(launch.dateUtc) > 0 && GetYear(launch.dateUtc) !in KnownYears(prefix)
    ensures Tallies(Counted(YearStat(GetYear(launch.dateUtc), 0, 0, 0), launch), prefix + [launch])
  {
    var year := GetYear(launch.dateUtc);
    NoLaunchesOfYear(prefix, year);
    YearCountsAppend(prefix, launch, year);
  }

  /** A positive year that no launch has gets nothing through the year filter. */
  lemma NoLaunchesOfYear(prefix: seq<Launch>, year: int)
    requires year > 0 && year !in KnownYears(prefix)
    ensures FilterLaunches(prefix, FilterOptions(None, Some(year))) == []
    ensures Tallies(YearStat(year, 0, 0, 0), prefix)
  {
    FilterByYear(prefix, FilterOptions(None, Some(year)));
  }

  /** The three tallies of a year over one more launch. */
  lemma YearCountsAppend(launches: seq<Launch>, launch: Launch, year: int)
    requires year != 0
    ensures YearCount(launches + [launch], year, AnyOutcome)
         == YearCount(launches, year, AnyOutcome)
            + (if GetYear(launch.dateUtc) == year then 1 else 0)
    ensures YearCount(launches + [launch], year, SucceededOnly)
         == YearCount(launches, year, SucceededOnly)
            + (if GetYear(launch.dateUtc) == year && launch.success == Some(true) then 1 else 0)
    ensures YearCount(launches + [launch], year, FailedOnly)
         == YearCount(launches, year, FailedOnly)
            + (if GetYear(launch.dateUtc) == year && launch.success == Some(false) then 1 else 0)
  {
    YearCountAppend(launches, launch, year, AnyOutcome);
    YearCountAppend(launches, launch, year, SucceededOnly);
    YearCountAppend(launches, launch, year, FailedOnly);
  }

  /** Per-year counts over one more launch. */
  lemma YearCountAppend(launches: seq<Launch>, launch: Launch, year: int, sel: Selector)
    requires year != 0
    ensures YearCount(launches + [launch], year, sel)
         == YearCount(launches, year, sel) + (if GetYear(launch.dateUtc) == year && Selects(sel, launch) then 1 else 0)
  {
    var filters := FilterOptions(None, Some(year));
    var kept := FilterLaunches(launches, filters);
    FilterAppend(launches, launch, filters);
    if Keeps(filters, launch) {
      assert (kept + [launch])[..|kept|] == kept;
    } else {
      assert kept + [] == kept;
    }
  }

  /** A row's total splits into its successes, its failures and its undecided launches;
      so `successful + failed <= total`. */
  lemma TallyPartition(stat: YearStat, launches: seq<Launch>)
    requires Tallies(stat, launches)
    ensures stat.total == stat.successful + stat.failed + YearCount(launches, stat.year, UndecidedOnly)
  {
    OutcomePartition(FilterLaunches(launches, FilterOptions(None, Some(stat.year))));
  }

  lemma {:induction false} SumTotalsConcat(a: seq<YearStat>, b: seq<YearStat>)
    ensures SumTotals(a + b) == SumTotals(a) + SumTotals(b)
    decreases |a|
  {
    if a == [] {
      assert a + b == b;
    } else {
      SumTotalsConcat(a[1..], b);
      assert (a + b)[1..] == a[1..] + b;
    }
  }

  /** Taking one row out of a table. */
  lemma RemoveRow(b: seq<YearStat>, i: nat)
    requires i < |b|
    ensures SumTotals(b) == b[i].total + SumTotals(b[..i] + b[i + 1..])
    ensures multiset(b[..i] + b[i + 1..]) == multiset(b) - multiset{b[i]}
  {
    SplitAt(b, i);
    RemoveRowSum(b[..i], b[i], b[i + 1..]);
    RemoveRowMultiset(b[..i], b[i], b[i + 1..]);
  }

  lemma SplitAt(b: seq<YearStat>, i: nat)
    requires i < |b|
    ensures b == b[..i] + ([b[i]] + b[i + 1..])
  {
    assert b[i..] == [b[i]] + b[i + 1..];
    assert b == b[..i] + b[i..];
  }

  lemma RemoveRowSum(front: seq<YearStat>, row: YearStat, back: seq<YearStat>)
    ensures SumTotals(front + ([row] + back)) == row.total + SumTotals(front + back)
  {
    SumTotalsConcat(front, [row] + back);
    SumTotalsConcat(front, back);
    assert ([row] + back)[1..] == back;
  }

  lemma RemoveRowMultiset(front: seq<YearStat>, row: YearStat, back: seq<YearStat>)
    ensures multiset(front + back) == multiset(front + ([row] + back)) - multiset{row}
  {
    calc {
      multiset(front + ([row] + back));
      multiset(front) + multiset([row] + back);
      multiset(front) + multiset{row} + multiset(back);
    }
  }

  /** Reordering the rows does not change the sum of their totals. */
  lemma {:induction false} SumTotalsPermutation(a: seq<YearStat>, b: seq<YearStat>)
    requires multiset(a) == multiset(b)
    ensures SumTotals(a) == SumTotals(b)
    decreases |a|
  {
    if a == [] {
      assert |b| == |multiset(b)| == 0;
    } else {
      assert a[0] in multiset(b);
      var i :| 0 <= i < |b| && b[i] == a[0];
      RemoveRow(b, i);
      assert a == [a[0]] + a[1..];
      assert multiset(a[1..]) == multiset(a) - multiset{a[0]};
      SumTotalsPermutation(a[1..], b[..i] + b[i + 1..]);
    }
  }

  /** The chart's years, top to bottom, are exactly the years `getAvailableYears` offers. */
  lemma ChartYearsAreAvailableYears(launches: seq<Launch>, stats: seq<YearStat>, years: seq<int>)
    requires StrictlySortedBy(stats, StatYear) && YearsOf(stats) == KnownYears(launches)
    requires StrictlyIncreasing(years) && forall y :: y in years <==> y in KnownYears(launches)
    ensures YearColumn(stats) == years
  {
    var column := YearColumn(stats);
    forall y
      ensures y in column <==> y in years
    {
      if y in column {
        var i :| 0 <= i < |column| && column[i] == y;
        assert y in YearsOf(stats);
      }
      if y in years {
        assert y in YearsOf(stats);
        var i :| 0 <= i < |stats| && stats[i].year == y;
        assert column[i] == y;
      }
    }
    StrictlyIncreasingUnique(column, years);
  }

  /** The summary cards: `totalLaunches`, `successful`, `failed` and `upcoming`. */
  datatype Summary = Summary(total: nat, successful: nat, failed: nat, upcoming: nat)

  function OverallStats(launches: seq<Launch>): (s: Summary)
    ensures s.total == |launches|
    ensures s.successful + s.failed <= s.total
    ensures s.upcoming <= s.total
  {
    OutcomePartition(launches);
    Summary(|launches|, Count(launches, SucceededOnly), Count(launches, FailedOnly), Count(launches, UpcomingOnly))
  }
}
