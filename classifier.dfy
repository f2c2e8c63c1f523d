/**
  The period classifier: an ordered chain of strict comparisons of the current
  instant against boundaries derived from the solar events.
 */
module Classifier {
  import opened Instants

  datatype Period =
    | Night | LateNight | EarlyMorning
    | Sunrise | BeforeNoon | Afternoon | Sunset
    | Evening | Dusk
  {
    /** The four periods the sun is above the horizon in. */
    predicate IsDaytime() {
      Sunrise? || BeforeNoon? || Afternoon? || Sunset?
    }
  }

  /** The label the program prints for a period. */
  function Label(p: Period): string {
    match p
    case Night => "Night"
    case LateNight => "Late Night"
    case EarlyMorning => "Early Morning"
    case Sunrise => "Sunrise"
    case BeforeNoon => "Before Noon"
    case Afternoon => "Afternoon"
    case Sunset => "Sunset"
    case Evening => "Evening"
    case Dusk => "Dusk"
  }

  /** The labels the program treats as night, reporting moon colour for them. */
  const NightLabels: seq<string> := ["Night", "Dusk", "Evening", "Early Morning", "Late Night"]

  /** Different periods print differently, and a label is a night label exactly
      when its period is not a daytime one. */
  lemma LabelsDistinguishPeriods(p: Period, q: Period)
    ensures Label(p) == Label(q) ==> p == q
    ensures Label(p) in NightLabels <==> !p.IsDaytime()
  {
  }

  /** Half-open ranges, checked in order, first match wins. */
  function Classify(t: Instant, e: SolarEvents): (p: Period)
    ensures t == e.sunrise ==> p == Sunrise
    ensures t < e.sunrise && t < e.midnight - 3 * Hour ==> p == Night
    ensures t < e.sunrise ==> p == Night || p == LateNight || p == EarlyMorning
    ensures WellOrdered(e) ==> (p.IsDaytime() <==> e.sunrise <= t < e.sunset)
    ensures WellOrdered(e) && t == e.sunset ==> p == Evening || p == Dusk || p == Night
  {
    if t < e.sunrise then
      if t < e.midnight - 3 * Hour then Night
      else if t < e.midnight - Hour then LateNight
      else EarlyMorning
    else if t < e.sunrise + HalfHour then Sunrise
    else if t < e.noon then BeforeNoon
    else if t < e.sunset - HalfHour then Afternoon
    else if t < e.sunset then Sunset
    else if t < e.midnight - 3 * Hour then Evening
    else if t < e.midnight then Dusk
    else Night
  }

  /** The decision table read as unordered conditions: the range of instants
      each period covers. */
  predicate InPeriod(p: Period, t: Instant, e: SolarEvents) {
    match p
    case Night =>
      (t < e.sunrise && t < e.midnight - 3 * Hour) || (e.sunset <= t && e.midnight <= t)
    case LateNight => t < e.sunrise && e.midnight - 3 * Hour <= t < e.midnight - Hour
    case EarlyMorning => e.midnight - Hour <= t < e.sunrise
    case Sunrise => e.sunrise <= t < e.sunrise + HalfHour
    case BeforeNoon => e.sunrise + HalfHour <= t < e.noon
    case Afternoon => e.noon <= t < e.sunset - HalfHour
    case Sunset => e.sunset - HalfHour <= t < e.sunset
    case Evening => e.sunset <= t < e.midnight - 3 * Hour
    case Dusk => e.sunset <= t && e.midnight - 3 * Hour <= t < e.midnight
  }

  /** On a well-ordered day the ordered chain agrees with the table, so the
      periods partition time: every instant lies in exactly one of them. */
  lemma ClassifyMatchesTable(t: Instant, e: SolarEvents, p: Period)
    requires WellOrdered(e)
    ensures Classify(t, e) == p <==> InPeriod(p, t, e)
  {
  }

  lemma PeriodsPartitionTime(t: Instant, e: SolarEvents)
    requires WellOrdered(e)
    ensures InPeriod(Classify(t, e), t, e)
    ensures forall q: Period :: InPeriod(q, t, e) ==> q == Classify(t, e)
  {
  }

  /** Two instants of the chain that are pinned down by example: ten minutes
      after sunrise is Sunrise, two hours before midnight (while the sun is
      still below the horizon) is Late Night. */
  lemma ClassifyExamples(e: SolarEvents)
    ensures Classify(e.sunrise + 10 * Minute, e) == Sunrise
    ensures e.midnight - 2 * Hour < e.sunrise ==> Classify(e.midnight - 2 * Hour, e) == LateNight
  {
  }

  /** In a run, `midnight` is the midpoint of today's sunset and the next
      sunrise. When that night lasts at least four hours, midnight minus three
      hours falls after today's sunrise, so every instant before sunrise is
      Night: Late Night and Early Morning never come up. */
  lemma BeforeSunriseIsNightInARun(t: Instant, e: SolarEvents, nextSunrise: Instant)
    requires WellOrdered(e)
    requires e.midnight == Midpoint(e.sunset, nextSunrise) && nextSunrise - e.sunset >= 4 * Hour
    requires t < e.sunrise
    ensures Classify(t, e) == Night
  {
  }
}
