/**
 * The top-level coordinator (src/App.tsx): the state it keeps after loading, the id
 * lookup tables for rockets and launchpads, the list of years to choose from, the
 * filtered list and its count, and the resolution of a launch's rocket and launchpad.
 */
module App {
  import opened Wrappers
  import opened Types
  import opened Collections
  import opened Filters

  function RocketId(rocket: Rocket): string { rocket.id }

  function LaunchpadId(launchpad: Launchpad): string { launchpad.id }

  /** The contents of a `Map` after `set(idOf(r), r)` for each record, in order. */
  function IndexOf<R>(records: seq<R>, idOf: R -> string): (index: map<string, R>)
    ensures records != [] ==> idOf(records[|records| - 1]) in index
    ensures records != [] ==> index[idOf(records[|records| - 1])] == records[|records| - 1]
    decreases |records|
  {
    if records == [] then map[]
    else
      var last := records[|records| - 1];
      IndexOf(records[..|records| - 1], idOf)[idOf(last) := last]
  }

  /** The `forEach` loop that fills a fresh `Map` keyed by id. */
  method BuildIndex<R>(records: seq<R>, idOf: R -> string) returns (index: map<string, R>)
    ensures index == IndexOf(records, idOf)
  {
    index := map[];
    for i := 0 to |records|
      invariant index == IndexOf(records[..i], idOf)
    {
      assert records[..i + 1][..i] == records[..i];
      index := index[idOf(records[i]) := records[i]];
    }
    assert records[..|records|] == records;
  }

  /** The keys of the table are exactly the ids of the records. */
  lemma {:induction false} IndexKeys<R>(records: seq<R>, idOf: R -> string)
    ensures forall id :: id in IndexOf(records, idOf) <==>
              exists i :: 0 <= i < |records| && idOf(records[i]) == id
    decreases |records|
  {
    if records != [] {
      var init := records[..|records| - 1];
      IndexKeys(init, idOf);
      forall id | exists i :: 0 <= i < |records| && idOf(records[i]) == id
        ensures id in IndexOf(records, idOf)
      {
        var i :| 0 <= i < |records| && idOf(records[i]) == id;
        if i < |records| - 1 {
          assert idOf(init[i]) == id;
        }
      }
      forall id | id in IndexOf(init, idOf)
        ensures exists i :: 0 <= i < |records| && idOf(records[i]) == id
      {
        var i :| 0 <= i < |init| && idOf(init[i]) == id;
        assert records[i] == init[i];
      }
    }
  }

  /** Last write wins: an id maps to the last record that carries it. */
  lemma {:induction false} IndexLastWins<R>(records: seq<R>, idOf: R -> string, i: nat)
    requires i < |records|
    requires forall j :: i < j < |records| ==> idOf(records[j]) != idOf(records[i])
    ensures idOf(records[i]) in IndexOf(records, idOf)
    ensures IndexOf(records, idOf)[idOf(records[i])] == records[i]
    decreases |records|
  {
    if i < |records| - 1 {
      var init := records[..|records| - 1];
      assert init[i] == records[i];
      IndexLastWins(init, idOf, i);
    }
  }

  /** Every entry of the table is a record with that id that no later record overrides. */
  lemma {:induction false} IndexEntries<R>(records: seq<R>, idOf: R -> string, id: string)
    requires id in IndexOf(records, idOf)
    ensures exists i :: 0 <= i < |records| && records[i] == IndexOf(records, idOf)[id] && idOf(records[i]) == id
              && forall j :: i < j < |records| ==> idOf(records[j]) != id
    decreases |records|
  {
    var last := records[|records| - 1];
    var init := records[..|records| - 1];
    if idOf(last) != id {
      IndexEntries(init, idOf, id);
      var i :| 0 <= i < |init| && init[i] == IndexOf(init, idOf)[id] && idOf(init[i]) == id
                && forall j :: i < j < |init| ==> idOf(init[j]) != id;
      assert records[i] == init[i];
      assert forall j :: i < j < |records| ==> idOf(records[j]) != id by {
        forall j | i < j < |records|
          ensures idOf(records[j]) != id
        {
          if j < |records| - 1 {
            assert records[j] == init[j];
          }
        }
      }
    } else {
      assert records[|records| - 1] == IndexOf(records, idOf)[id];
    }
  }

  /** The table has at most one entry per record. */
  lemma {:induction false} IndexSize<R>(records: seq<R>, idOf: R -> string)
    ensures |IndexOf(records, idOf)| <= |records|
    decreases |records|
  {
    if records != [] {
      var last := records[|records| - 1];
      var init := records[..|records| - 1];
      IndexSize(init, idOf);
      var before := IndexOf(init, idOf);
      var after := before[idOf(last) := last];
      if idOf(last) in before {
        assert after.Keys == before.Keys;
      } else {
        assert after.Keys == before.Keys + {idOf(last)};
      }
    }
  }

  /** `map.get(id)`: the entry, or absence. */
  function Lookup<R>(table: map<string, R>, id: string): (found: Option<R>)
    ensures found.Some? <==> id in table
    ensures found.Some? ==> found.value == table[id]
  {
    if id in table then Some(table[id]) else None
  }

  /** Resolving an id against a table built from `records` finds nothing exactly when no
      record has that id, and otherwise the last record with it. */
  lemma Resolve<R>(records: seq<R>, idOf: R -> string, id: string)
    ensures Lookup(IndexOf(records, idOf), id) == None <==>
              forall i :: 0 <= i < |records| ==> idOf(records[i]) != id
    ensures Lookup(IndexOf(records, idOf), id).Some? ==>
              exists i :: 0 <= i < |records| && Lookup(IndexOf(records, idOf), id) == Some(records[i])
                && idOf(records[i]) == id
                && forall j :: i < j < |records| ==> idOf(records[j]) != id
  {
    IndexKeys(records, idOf);
    if id in IndexOf(records, idOf) {
      IndexEntries(records, idOf, id);
    }
  }

  /** The state the `App` component keeps. The rocket and launchpad records as fetched
      are kept as ghost state, to say what the lookup tables hold. */
  class AppState {
    var launches: seq<Launch>
    var rockets: map<string, Rocket>
    var launchpads: map<string, Launchpad>
    var availableYears: seq<int>
    var missionType: MissionType
    var selectedYear: Option<int>
    ghost var rocketsData: seq<Rocket>
    ghost var launchpadsData: seq<Launchpad>

    ghost predicate Valid()
      reads this
    {
      && rockets == IndexOf(rocketsData, RocketId)
      && launchpads == IndexOf(launchpadsData, LaunchpadId)
      && StrictlyIncreasing(availableYears)
      && (forall y :: y in availableYears <==> y in KnownYears(launches))
    }

    /** The initial state: nothing loaded, all missions, no year. */
    constructor ()
      ensures Valid()
      ensures launches == [] && rocketsData == [] && launchpadsData == []
      ensures rockets == map[] && launchpads == map[] && availableYears == []
      ensures missionType == AllMissions && selectedYear == None
    {
      launches := [];
      rockets := map[];
      launchpads := map[];
      availableYears := [];
      missionType := AllMissions;
      selectedYear := None;
      rocketsData := [];
      launchpadsData := [];
    }

    /** The successful path of `loadData`: keep the launches, build both lookup tables,
        and compute the years once. The filter selections are left as they were. */
    method LoadData(launchesData: seq<Launch>, rocketsFetched: seq<Rocket>, launchpadsFetched: seq<Launchpad>)
      modifies this
      ensures Valid()
      ensures launches == launchesData
      ensures rocketsData == rocketsFetched && launchpadsData == launchpadsFetched
      ensures missionType == old(missionType) && selectedYear == old(selectedYear)
    {
      launches := launchesData;
      rockets := BuildIndex(rocketsFetched, RocketId);
      rocketsData := rocketsFetched;
      launchpads := BuildIndex(launchpadsFetched, LaunchpadId);
      launchpadsData := launchpadsFetched;
      availableYears := GetAvailableYears(launchesData);
    }

    /** `onMissionTypeChange`. */
    method SetMissionType(t: MissionType)
      requires Valid()
      modifies this
      ensures Valid()
      ensures missionType == t
      ensures launches == old(launches) && rockets == old(rockets) && launchpads == old(launchpads)
      ensures availableYears == old(availableYears) && selectedYear == old(selectedYear)
      ensures rocketsData == old(rocketsData) && launchpadsData == old(launchpadsData)
    {
      missionType := t;
    }

    /** `onYearChange`: a year, or `undefined` for all years. */
    method SetSelectedYear(year: Option<int>)
      requires Valid()
      modifies this
      ensures Valid()
      ensures selectedYear == year
      ensures launches == old(launches) && rockets == old(rockets) && launchpads == old(launchpads)
      ensures availableYears == old(availableYears) && missionType == old(missionType)
      ensures rocketsData == old(rocketsData) && launchpadsData == old(launchpadsData)
    {
      selectedYear := year;
    }

    /** `filteredLaunches`: the launches under the current selections, in their order. */
    function FilteredLaunches(): (shown: seq<Launch>)
      reads this
      ensures IsSubsequence(shown, launches)
      ensures forall l :: l in shown <==> l in launches && Keeps(FilterOptions(Some(missionType), selectedYear), l)
    {
      var shown := FilterLaunches(launches, FilterOptions(Some(missionType), selectedYear));
      FilterIsSubsequence(launches, FilterOptions(Some(missionType), selectedYear));
      FilterMembers(launches, FilterOptions(Some(missionType), selectedYear));
      shown
    }

    /** The `launch-count` shown above the list. */
    function LaunchCount(): (n: nat)
      reads this
      ensures n == |FilteredLaunches()| && n <= |launches|
      ensures missionType == AllMissions && !YearSelected(selectedYear) ==> n == |launches|
    {
      var n := |FilterLaunches(launches, FilterOptions(Some(missionType), selectedYear))|;
      if missionType == AllMissions && !YearSelected(selectedYear) then
        FilterNothingSelected(launches, FilterOptions(Some(missionType), selectedYear));
        n
      else
        n
    }

    /** `rockets.get(launch.rocket)`: absent when no fetched rocket has that id, otherwise
        a fetched rocket with that id. */
    function RocketOf(launch: Launch): (rocket: Option<Rocket>)
      requires Valid()
      reads this
      ensures rocket.None? <==> forall i :: 0 <= i < |rocketsData| ==> rocketsData[i].id != launch.rocket
      ensures rocket.Some? ==> rocket.value in rocketsData && rocket.value.id == launch.rocket
    {
      Resolve(rocketsData, RocketId, launch.rocket);
      Lookup(rockets, launch.rocket)
    }

    /** `launchpads.get(launch.launchpad)`: absent when no fetched launchpad has that id,
        otherwise a fetched launchpad with that id. */
    function LaunchpadOf(launch: Launch): (launchpad: Option<Launchpad>)
      requires Valid()
      reads this
      ensures launchpad.None? <==> forall i :: 0 <= i < |launchpadsData| ==> launchpadsData[i].id != launch.launchpad
      ensures launchpad.Some? ==> launchpad.value in launchpadsData && launchpad.value.id == launch.launchpad
    {
      Resolve(launchpadsData, LaunchpadId, launch.launchpad);
      Lookup(launchpads, launch.launchpad)
    }
  }
}
