/**
  Progress through an interval of the day (sunrise to sunset) or of the night
  (sunset to the next sunrise) as a percentage, clamped at both ends.
 */
module Progress {
  import opened Numbers
  import opened Instants

  /** Elapsed time over the interval's length, times 100; 0 before the start,
      100 after the end. Durations are divided as exact reals; a zero-length
      interval reached at its own start divides 0 by 0. */
  function Percent(t: Instant, start: Instant, end: Instant): (r: Result<real>)
    ensures r.Err? <==> t == start == end
    ensures r.Err? ==> r.error == ZeroDivision
    ensures r.Ok? ==> 0.0 <= r.value <= 100.0
    ensures t < start ==> r == Ok(0.0)
    ensures start <= t && end < t ==> r == Ok(100.0)
    ensures start < end && t == start ==> r == Ok(0.0)
    ensures start < end && t == end ==> r == Ok(100.0)
  {
    var duration := end - start;
    var elapsed := t - start;
    if elapsed < 0 then Ok(0.0)
    else if elapsed > duration then Ok(100.0)
    else if duration == 0 then Err(ZeroDivision)
    else
      assert elapsed == duration ==> elapsed as real / duration as real == 1.0;
      Ok(elapsed as real / duration as real * 100.0)
  }

  /** Inside a proper interval the percentage is the linear position of `t`:
      scaling it back onto the interval recovers `t`. */
  lemma PercentInverts(t: Instant, start: Instant, end: Instant)
    requires start < end && start <= t <= end
    ensures Percent(t, start, end).Ok?
    ensures start as real + Percent(t, start, end).value / 100.0 * (end - start) as real == t as real
  {
  }

  /** Progress never goes backwards. */
  lemma PercentMonotone(t1: Instant, t2: Instant, start: Instant, end: Instant)
    requires start < end && t1 <= t2
    ensures Percent(t1, start, end).Ok? && Percent(t2, start, end).Ok?
    ensures Percent(t1, start, end).value <= Percent(t2, start, end).value
  {
    if start <= t1 && t2 <= end {
      var d := (end - start) as real;
      var x1 := (t1 - start) as real;
      var x2 := (t2 - start) as real;
      assert x1 / d <= x2 / d by {
        assert x2 / d - x1 / d == (x2 - x1) / d;
      }
    }
  }

  /** `calculate_daylight_percent`: progress from sunrise to sunset. */
  function DaylightPercent(t: Instant, sunrise: Instant, sunset: Instant): (r: Result<real>)
    ensures r.Err? <==> t == sunrise == sunset
    ensures r.Ok? ==> 0.0 <= r.value <= 100.0
    ensures sunrise < sunset ==> (r.value == 0.0 <==> t <= sunrise)
    ensures sunrise < sunset ==> (r.value == 100.0 <==> sunset <= t)
  {
    Percent(t, sunrise, sunset)
  }

  /** `calculate_night_percent`: progress from sunset to the next sunrise. */
  function NightPercent(t: Instant, sunset: Instant, nextSunrise: Instant): (r: Result<real>)
    ensures r.Err? <==> t == sunset == nextSunrise
    ensures r.Ok? ==> 0.0 <= r.value <= 100.0
    ensures sunset < nextSunrise ==> (r.value == 0.0 <==> t <= sunset)
    ensures sunset < nextSunrise ==> (r.value == 100.0 <==> nextSunrise <= t)
  {
    Percent(t, sunset, nextSunrise)
  }

  /** Solar midnight of a night of an even number of seconds is exactly half way
      through it; noon of 06:00-18:00 daylight is exactly 50 percent. */
  lemma MidnightIsHalfway(sunset: Instant, nextSunrise: Instant)
    requires sunset < nextSunrise && (nextSunrise - sunset) % 2 == 0
    ensures NightPercent(Midpoint(sunset, nextSunrise), sunset, nextSunrise) == Ok(50.0)
  {
    var h := (nextSunrise - sunset) / 2;
    assert Midpoint(sunset, nextSunrise) - sunset == h;
    assert nextSunrise - sunset == 2 * h;
    assert (nextSunrise - sunset) as real == 2.0 * h as real;
    assert h as real / (2.0 * h as real) == 0.5;
  }

  lemma NoonOfTwelveHourDay()
    ensures DaylightPercent(12 * Hour, 6 * Hour, 18 * Hour) == Ok(50.0)
  {
  }
}
