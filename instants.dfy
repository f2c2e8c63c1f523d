/**
  Instants are whole seconds on one local civil clock; durations are
  differences of instants.
 */
module Instants {

  type Instant = int

  const Minute: int := 60
  const Hour: int := 60 * Minute
  const HalfHour: int := 30 * Minute

  /** The solar events of one calendar date at one observer, all in local time.
      `midnight` is the midpoint of the night, not 00:00 on the clock. */
  datatype SolarEvents = SolarEvents(sunrise: Instant, noon: Instant, sunset: Instant, midnight: Instant)

  /** The ordering of an ordinary day: the sun rises more than half an hour
      before it transits, and transits more than half an hour before it sets. */
  predicate WellOrdered(e: SolarEvents) {
    e.sunrise + HalfHour <= e.noon <= e.sunset - HalfHour
  }

  /** Solar midnight: `sunset + (next_sunrise - sunset) / 2`, halving the night
      down to the whole second. */
  function Midpoint(sunset: Instant, nextSunrise: Instant): (m: Instant)
    ensures 0 <= (nextSunrise - sunset) - 2 * (m - sunset) <= 1
    ensures sunset <= nextSunrise ==> sunset <= m <= nextSunrise
  {
    sunset + (nextSunrise - sunset) / 2
  }
}
