/**
  Colour mapping: daylight percentage to colour temperature, colour temperature
  to RGB (Tanner Helland's approximation, branch and clamp structure only), and
  moon illumination to a grey level.
 */
module Temperature {
  import opened Numbers
  import opened Rgb

  /** `calculate_sun_temperature`: 2000 K at sunrise and sunset, 5500 K at
      noon, linear in between, truncated to whole kelvin. */
  function SunTemperature(p: int): (k: int)
    ensures 0 <= p <= 50 ==> k == 2000 + 70 * p
    ensures 50 < p <= 100 ==> k == 5500 - 70 * (p - 50)
  {
    if p <= 50 then
      assert (p as real / 50.0) * 3500.0 == (70 * p) as real;
      Trunc(2000.0 + (p as real / 50.0) * 3500.0)
    else
      assert ((p - 50) as real / 50.0) * 3500.0 == (70 * (p - 50)) as real;
      Trunc(5500.0 - ((p - 50) as real / 50.0) * 3500.0)
  }

  /** The temperature arc stays between 2000 K and 5500 K, with both ends at
      2000 K and the peak at 5500 K. */
  lemma SunTemperatureBounds(p: int)
    requires 0 <= p <= 100
    ensures 2000 <= SunTemperature(p) <= 5500
    ensures SunTemperature(0) == 2000 && SunTemperature(100) == 2000 && SunTemperature(50) == 5500
  {
  }

  /** Warming up to noon, cooling down after. */
  lemma SunTemperatureMonotone(p: int, q: int)
    requires 0 <= p <= q <= 100
    ensures q <= 50 ==> SunTemperature(p) <= SunTemperature(q)
    ensures 50 <= p ==> SunTemperature(p) >= SunTemperature(q)
  {
  }

  /** The arc is symmetric about noon. */
  lemma SunTemperatureSymmetric(p: int)
    requires 0 <= p <= 100
    ensures SunTemperature(p) == SunTemperature(100 - p)
  {
  }

  /** `kelvin_to_rgb` with `math.log` and `**` supplied as `ln` and `pow`:
      red is full up to 6600 K, blue is full from 6600 K and off up to 1900 K,
      and every channel is clamped to [0, 255] and truncated. A temperature of
      0 K or less makes `math.log` fail. */
  function KelvinToRgb(kelvin: int, ln: real -> real, pow: (real, real) -> real): (r: Result<Colour>)
    ensures r.Err? <==> kelvin <= 0
    ensures r.Err? ==> r.error == MathDomain
    ensures r.Ok? ==> InRange(r.value)
    ensures r.Ok? && kelvin <= 6600 ==> r.value.red == 255
    ensures r.Ok? && 6600 <= kelvin ==> r.value.blue == 255
    ensures r.Ok? && kelvin <= 1900 ==> r.value.blue == 0
  {
    var temperature := kelvin as real / 100.0;
    if temperature <= 0.0 then Err(MathDomain)
    else
      var red :=
        if temperature <= 66.0 then 255.0
        else Clamp(329.698727446 * pow(temperature - 60.0, -0.1332047592));
      var green :=
        Clamp(if temperature <= 66.0 then 99.4708025861 * ln(temperature) - 161.1195681661
              else 288.1221695283 * pow(temperature - 60.0, -0.0755148492));
      var blue :=
        if temperature >= 66.0 then 255.0
        else if temperature <= 19.0 then 0.0
        else Clamp(138.5177312231 * ln(temperature - 10.0) - 305.0447927307);
      Ok(Colour(Trunc(red), Trunc(green), Trunc(blue)))
  }

  /** `calculate_moon_color`: illumination 0-100 becomes an equal grey on all
      three channels, `phase / 100 * 255` truncated, not rounded. */
  function MoonColour(phase: real): (c: Colour)
    ensures c.red == c.green == c.blue
    ensures 0.0 <= phase ==> c.red == (phase * 255.0 / 100.0).Floor
    ensures 0.0 <= phase <= 100.0 ==> InRange(c)
    ensures phase == 0.0 ==> c == Colour(0, 0, 0)
    ensures phase == 100.0 ==> c == Colour(255, 255, 255)
  {
    var brightness := Trunc((phase / 100.0) * 255.0);
    Colour(brightness, brightness, brightness)
  }

  /** A brighter moon never gives a darker grey. */
  lemma MoonColourMonotone(p: real, q: real)
    requires 0.0 <= p <= q
    ensures MoonColour(p).red <= MoonColour(q).red
  {
  }

  /** Truncation: a moon 99.9 percent lit gives 254, not 255. */
  lemma MoonColourTruncates()
    ensures MoonColour(99.9) == Colour(254, 254, 254)
  {
  }
}
