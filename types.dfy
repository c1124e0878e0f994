/**
 * The records of the launch tracker (src/types/index.ts), as values. A launch keeps the
 * fields that the filters, the statistics and the launch card read; a rocket and a
 * launchpad keep their id, which the lookup tables key on, and the names a card shows.
 */
module Types {
  import opened Wrappers

  /** What `new Date(text).getFullYear()` yields in the viewer's local time zone: a year,
      or NaN when the text does not parse. Date parsing and time zones are not modelled;
      the parsed year is carried alongside the text. */
  datatype LocalYear = Year(value: int) | NotANumber

  /** A launch's `date_utc`: the ISO text and the local calendar year it parses to. */
  datatype Timestamp = Timestamp(text: string, fullYear: LocalYear)

  /** A launch. `success` is `true`, `false` or `null` (not yet determined). */
  datatype Launch = Launch(
    id: string,
    name: string,
    dateUtc: Timestamp,
    rocket: string,       // a rocket id
    launchpad: string,    // a launchpad id
    success: Option<bool>,
    upcoming: bool,
    details: Option<string>)

  /** The outcome of a launch is one of exactly three values. */
  lemma OutcomeCases(success: Option<bool>)
    ensures success == Some(true) || success == Some(false) || success == None
  {
    if success.Some? {
      assert success.value || !success.value;
    }
  }

  datatype Rocket = Rocket(id: string, name: string)

  datatype Launchpad = Launchpad(id: string, name: string, fullName: string)

  /** The mission-type filter: `'all' | 'upcoming' | 'past'`. */
  datatype MissionType = AllMissions | UpcomingMissions | PastMissions

  /** `FilterOptions`: both fields are optional (`undefined` is `None`). */
  datatype FilterOptions = FilterOptions(missionType: Option<MissionType>, year: Option<int>)
}
