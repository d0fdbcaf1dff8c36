/** The update preferences of `AppState`: the check interval and the default
    values a fresh install starts from. */
module AppSettings {
  import opened Wrappers

  /** `AppState.UpdateCheckInterval`, an `Int`-backed enum. */
  datatype UpdateCheckInterval = Daily | Weekly

  /** The stored raw value of each case. */
  function RawValue(interval: UpdateCheckInterval): int
  {
    match interval
    case Daily => 0
    case Weekly => 1
  }

  /** `UpdateCheckInterval(rawValue:)`: the case a stored integer names. */
  function FromRawValue(raw: int): (r: Option<UpdateCheckInterval>)
    ensures r.Some? <==> raw == 0 || raw == 1
    ensures r.Some? ==> RawValue(r.value) == raw
  {
    if raw == 0 then Some(Daily) else if raw == 1 then Some(Weekly) else None
  }

  /** `timeInterval`, in seconds: a day, or seven of them. */
  function TimeInterval(interval: UpdateCheckInterval): (seconds: int)
    ensures seconds > 0 && seconds % (24 * 60 * 60) == 0
    ensures interval == Weekly ==> seconds == 7 * 86400
    ensures interval == Daily ==> seconds == 86400
  {
    match interval
    case Daily => 24 * 60 * 60
    case Weekly => 7 * 24 * 60 * 60
  }

  /** The update preferences. `lastCheckTimestamp` is in whole seconds. */
  datatype UpdatePreferences = UpdatePreferences(
    autoCheckUpdates: bool,
    checkInterval: UpdateCheckInterval,
    includePrerelease: bool,
    lastCheckTimestamp: Option<int>,
    dismissedVersion: Option<string>)

  /** The values a fresh install starts with. */
  function DefaultPreferences(): (p: UpdatePreferences)
    ensures p.autoCheckUpdates && p.checkInterval == Daily && !p.includePrerelease
    ensures p.lastCheckTimestamp.None? && p.dismissedVersion.None?
  {
    UpdatePreferences(true, Daily, false, None, None)
  }

  /** Storing an interval and reading it back gives the same interval. */
  lemma RawValueRoundTrip(interval: UpdateCheckInterval)
    ensures FromRawValue(RawValue(interval)) == Some(interval)
  {
  }

  /** The weekly interval is exactly seven daily ones, so strictly longer. */
  lemma WeeklyIsSevenDays()
    ensures TimeInterval(Weekly) == 7 * TimeInterval(Daily)
    ensures TimeInterval(Daily) < TimeInterval(Weekly)
  {
  }
}
