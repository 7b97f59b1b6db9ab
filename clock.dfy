/**
 * Time as whole seconds since the epoch, in UTC. Calendar arithmetic (time
 * zones, daylight saving) is not modelled: an hour is always 3600 seconds and
 * a day always 24 hours.
 */
module Clock {

  const SecondsPerHour: int := 3600
  const HoursPerDay: int := 24
  const SecondsPerDay: int := HoursPerDay * SecondsPerHour

  /** `t` moved forward by `hours` hours (addHours). */
  function AddHours(t: int, hours: int): int
  {
    t + hours * SecondsPerHour
  }

  /** `t` moved forward by `days` days (addDays). */
  function AddDays(t: int, days: int): int
  {
    t + days * SecondsPerDay
  }
}
