/**
  One run of the program: classify the instant, then report either the sun's
  colour (daytime periods) or the moon's (night periods).
 */
module SunHue {
  import opened Numbers
  import opened Instants
  import opened Classifier
  import opened Progress
  import opened Rgb
  import opened Temperature

  datatype Report =
    | DayReport(period: Period, roundedPercent: int, kelvin: int, colour: Colour, hex: string)
    | NightReport(period: Period, percent: real, colour: Colour, hex: string)

  /** The branch of `main`: a night label leads to the night percentage and
      the moon's grey, any other label to the rounded daylight percentage, its
      colour temperature and that temperature's colour. Sun and moon positions,
      the moon's illumination and the logarithm and power functions are given. */
  function MakeReport(t: Instant, e: SolarEvents, nextSunrise: Instant, moonPhase: real,
                      ln: real -> real, pow: (real, real) -> real): (r: Result<Report>)
    ensures r.Err? <==>
              || (!Classify(t, e).IsDaytime() && t == e.sunset == nextSunrise)
              || (Classify(t, e).IsDaytime() && t == e.sunrise == e.sunset)
    ensures r.Ok? ==> r.value.period == Classify(t, e)
    ensures r.Ok? ==> (r.value.NightReport? <==> !Classify(t, e).IsDaytime())
    ensures r.Ok? ==> r.value.hex == ToHex(r.value.colour)
    ensures r.Ok? && r.value.NightReport? ==>
              && r.value.percent == NightPercent(t, e.sunset, nextSunrise).value
              && 0.0 <= r.value.percent <= 100.0
              && r.value.colour == MoonColour(moonPhase)
    ensures r.Ok? && r.value.DayReport? ==>
              && r.value.roundedPercent == RoundHalfEven(DaylightPercent(t, e.sunrise, e.sunset).value)
              && 0 <= r.value.roundedPercent <= 100
              && r.value.kelvin == SunTemperature(r.value.roundedPercent)
              && 2000 <= r.value.kelvin <= 5500
              && r.value.colour == KelvinToRgb(r.value.kelvin, ln, pow).value
              && r.value.colour.red == 255
  {
    var period := Classify(t, e);
    LabelsDistinguishPeriods(period, period);
    if Label(period) in NightLabels then
      match NightPercent(t, e.sunset, nextSunrise)
      case Err(err) => Err(err)
      case Ok(percent) =>
        var colour := MoonColour(moonPhase);
        Ok(NightReport(period, percent, colour, ToHex(colour)))
    else
      match DaylightPercent(t, e.sunrise, e.sunset)
      case Err(err) => Err(err)
      case Ok(percent) =>
        var rounded := RoundHalfEven(percent);
        RoundedPercentInRange(percent);
        var kelvin := SunTemperature(rounded);
        SunTemperatureBounds(rounded);
        // A temperature of at least 2000 K never reaches `math.log`'s domain error.
        var colour := KelvinToRgb(kelvin, ln, pow).value;
        Ok(DayReport(period, rounded, kelvin, colour, ToHex(colour)))
  }

  /** On a well-ordered day with a proper night after it, a run never fails:
      between sunrise and sunset it reports a temperature in [2000, 5500] K
      with full red, otherwise a grey moon, and the hex code is always a
      canonical `#rrggbb` that reads back as the reported colour. */
  lemma ReportIsWellFormed(t: Instant, e: SolarEvents, nextSunrise: Instant, moonPhase: real,
                           ln: real -> real, pow: (real, real) -> real)
    requires WellOrdered(e) && e.sunset < nextSunrise
    requires 0.0 <= moonPhase <= 100.0
    ensures MakeReport(t, e, nextSunrise, moonPhase, ln, pow).Ok?
    ensures MakeReport(t, e, nextSunrise, moonPhase, ln, pow).value.DayReport? <==> e.sunrise <= t < e.sunset
    ensures MakeReport(t, e, nextSunrise, moonPhase, ln, pow).value.DayReport? ==>
              var d := MakeReport(t, e, nextSunrise, moonPhase, ln, pow).value;
              0 <= d.roundedPercent <= 100 && 2000 <= d.kelvin <= 5500 && d.colour.red == 255
    ensures MakeReport(t, e, nextSunrise, moonPhase, ln, pow).value.NightReport? ==>
              var n := MakeReport(t, e, nextSunrise, moonPhase, ln, pow).value;
              n.colour.red == n.colour.green == n.colour.blue
    ensures IsHexColour(MakeReport(t, e, nextSunrise, moonPhase, ln, pow).value.hex)
    ensures ParseHex(MakeReport(t, e, nextSunrise, moonPhase, ln, pow).value.hex)
              == Some(MakeReport(t, e, nextSunrise, moonPhase, ln, pow).value.colour)
  {
    var period := Classify(t, e);
    LabelsDistinguishPeriods(period, period);
    if Label(period) in NightLabels {
      ParseToHex(MoonColour(moonPhase));
    } else {
      assert e.sunrise < e.sunset;
      var percent := DaylightPercent(t, e.sunrise, e.sunset).value;
      RoundedPercentInRange(percent);
      var rounded := RoundHalfEven(percent);
      SunTemperatureBounds(rounded);
      var colour := KelvinToRgb(SunTemperature(rounded), ln, pow).value;
      ParseToHex(colour);
    }
  }
}
