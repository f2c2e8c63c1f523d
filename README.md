# sun-hue, modelled in Dafny

sun-hue works out, for a fixed observer (Weimar) and the current moment, which
period of the day or night it is. It then reports a colour for that moment:

- for the day, a colour temperature on a warm-cool-warm arc from sunrise to sunset, turned into RGB and `#rrggbb`;
- for the night, a grey level given by how much of the moon is lit.

This project models the pure part of that pipeline in `sunhue.py`. The inputs are the solar event times, already computed: sunrise, solar noon, sunset, solar midnight and the next sunrise. From them the model computes the period label, the progress percentage, the colour temperature, the RGB triple and the hex code.

Instants are whole seconds on one local clock. Thirty minutes is 1800 and three hours is 10800. Percentages and temperatures are exact `real`s. Python's `int()` is truncation toward zero (`Numbers.Trunc`). Python's `round()` rounds half to even (`Numbers.RoundHalfEven`). The exceptions the code can raise are `Err` values:

- `ZeroDivision` for the 0/0 progress ratio;
- `MathDomain` for `math.log` of a non-positive temperature.

Modules:

- `Numbers`: truncation, rounding, clamping and the result type.
- `Instants`: instants, the solar events record and solar midnight.
- `Classifier`: the period classifier and its decision table.
- `Progress`: the daylight and night percentages.
- `Rgb`: colours and the `#rrggbb` encoder with its decoder.
- `Temperature`: the colour temperature, the Kelvin-to-RGB branch structure and the moon colour.
- `SunHue`: the branch in `main` that joins them.

Three points about the code that the model keeps:

- The moon colour truncates with `int()`. It does not round.
- There is one classifier, with nine labels. "Night" comes from two of its branches.
- `main` queries the next sunrise itself (sunhue.py:186-191), separately from `get_midnight`. `SunHue.MakeReport` therefore takes the next sunrise and solar midnight as independent inputs.

In a run, `midnight` is the midpoint of today's sunset and the next sunrise. When that night lasts four hours or more, every instant before today's sunrise is classified "Night" (`Classifier.BeforeSunriseIsNightInARun`). So "Late Night" and "Early Morning" come up only for a midnight that does not come from `get_midnight`.

## Model

| member | source | states |
|---|---|---|
| Numbers.Trunc | sunhue.py:146 | `int()` truncates toward zero: the result lies within one of `x`, on `x`'s side of zero |
| Numbers.RoundHalfEven | sunhue.py:226 | `round()` gives an integer within 1/2 of `x`, even on a tie |
| Numbers.RoundHalfEvenIsUnique | sunhue.py:226 | those two conditions determine the rounded value uniquely |
| Numbers.RoundedPercentInRange | sunhue.py:223-226 | a percentage in [0,100] rounds to an integer in [0,100] |
| Numbers.Clamp | sunhue.py:135 | `min(max(x, 0), 255)` lies in [0,255], leaves values already in range alone and sends values below or above to the nearest bound |
| Instants.Midpoint | sunhue.py:61 | solar midnight is half the night after sunset, rounded down to the second, so it lies between sunset and the next sunrise |
| Classifier.LabelsDistinguishPeriods | sunhue.py:196 | the nine labels are distinct, and a label is one of the five night labels tested in `main` exactly when its period is not a daytime one |
| Classifier.Classify | sunhue.py:65-86 | t == sunrise gives Sunrise; before sunrise only Night, Late Night or Early Morning, and Night when t < midnight-3h; on a well-ordered day a daytime label comes back exactly when sunrise <= t < sunset, and t == sunset gives Evening, Dusk or Night, never Sunset |
| Classifier.ClassifyMatchesTable | sunhue.py:65-86 | on a well-ordered day the first-match chain agrees, in both directions, with the table of half-open ranges in `InPeriod` |
| Classifier.PeriodsPartitionTime | sunhue.py:65-86 | every instant lies in the range of exactly one period: the classifier is total and its periods are exclusive |
| Classifier.ClassifyExamples | sunhue.py:66-74 | ten minutes after sunrise is Sunrise; two hours before midnight is Late Night when that instant is before sunrise (which needs a midnight not computed by `get_midnight`) |
| Classifier.BeforeSunriseIsNightInARun | sunhue.py:57-61 | with midnight computed as in a run and a night of at least four hours, every instant before sunrise on a well-ordered day is Night |
| Progress.Percent | sunhue.py:88-108 | the 0/0 division error happens exactly when t == start == end; otherwise the result is in [0,100], 0 before the start, 100 after the end, exactly 0 at the start and 100 at the end of a proper interval |
| Progress.PercentInverts | sunhue.py:96 | inside the interval, mapping the percentage back onto the interval recovers t, so the percentage is linear in t |
| Progress.PercentMonotone | sunhue.py:88-108 | progress is non-decreasing in t |
| Progress.DaylightPercent | sunhue.py:88-97 | fails with the 0/0 error exactly when t == sunrise == sunset; otherwise in [0,100]; when sunrise < sunset, 0 exactly when t <= sunrise and 100 exactly when t >= sunset |
| Progress.NightPercent | sunhue.py:99-108 | fails with the 0/0 error exactly when t == sunset == next sunrise; otherwise in [0,100]; when sunset < next sunrise, 0 exactly when t <= sunset and 100 exactly when t >= next sunrise |
| Progress.MidnightIsHalfway | sunhue.py:61 | for a night of an even number of seconds, solar midnight is exactly 50 percent through it |
| Progress.NoonOfTwelveHourDay | sunhue.py:88-97 | with sunrise at 06:00 and sunset at 18:00, 12:00 is exactly 50 percent of daylight |
| Rgb.Hex | sunhue.py:150 | the `x` format yields lower-case hex digits that denote `n` (`HexValue`), with no leading zero except in the numeral of 0 |
| Rgb.Format02xDenotes | sunhue.py:150 | `{:02x}` yields at least two characters; for n >= 0, hex digits denoting n, zero-padded only when n has one digit, and exactly two characters exactly when n < 256; for n < 0, a `-` followed by the unpadded digits of -n |
| Rgb.FormatByte | sunhue.py:150 | `{:02x}` writes a byte as exactly two digits, the zero-padded high digit first |
| Rgb.ToHex | sunhue.py:148-150 | for channels in [0,255] the result is `#` followed by six lower-case hex digits, two per channel in red, green, blue order |
| Rgb.ParseHex | sunhue.py:148-150 | the decoder accepts exactly the canonical `#rrggbb` strings, and what it returns is in range |
| Rgb.ParseToHex | sunhue.py:148-150 | decoding the hex code of an in-range colour gives back the colour |
| Rgb.ParseHexInjective | sunhue.py:148-150 | two canonical strings that decode to the same colour are the same string |
| Rgb.ToHexParse | sunhue.py:148-150 | encoding a decoded canonical string gives back the string, so encoding is a bijection onto `#rrggbb` |
| Temperature.SunTemperature | sunhue.py:110-116 | for an integer percentage p in [0,100], truncation loses nothing: the result is exactly 2000+70p up to 50 and 5500-70(p-50) above |
| Temperature.SunTemperatureBounds | sunhue.py:110-116 | the temperature is in [2000,5500], 2000 at 0 and at 100, 5500 at 50 |
| Temperature.SunTemperatureMonotone | sunhue.py:110-116 | non-decreasing on [0,50] and non-increasing on [50,100] |
| Temperature.SunTemperatureSymmetric | sunhue.py:110-116 | temperature(p) == temperature(100-p) |
| Temperature.KelvinToRgb | sunhue.py:118-146 | fails with a math domain error exactly when kelvin <= 0; otherwise every channel is in [0,255]; red is 255 up to 6600 K; blue is 255 from 6600 K and 0 up to 1900 K; all of this holds whatever `ln` and `pow` return |
| Temperature.MoonColour | sunhue.py:158-161 | three equal channels, each floor(phase*255/100) for a non-negative phase; in [0,255] for a phase in [0,100]; black at 0 and white at 100 |
| Temperature.MoonColourMonotone | sunhue.py:158-161 | a more illuminated moon never gives a darker grey |
| Temperature.MoonColourTruncates | sunhue.py:160 | a moon 99.9 percent lit gives 254, so the value is truncated, not rounded |
| SunHue.MakeReport | sunhue.py:194-235 | a run fails (0/0) exactly when a night period has t == sunset == next sunrise or a daytime period has t == sunrise == sunset; otherwise the report carries the classified period and is a night report exactly for the non-daytime periods; a night report has the night percentage, in [0,100], and the moon's grey for the given phase; a day report has the rounded daylight percentage in [0,100], its temperature in [2000,5500], the RGB of that temperature with full red; and the hex code is the encoding of the reported colour |
| SunHue.ReportIsWellFormed | sunhue.py:194-235 | on a well-ordered day with a proper night and a moon phase in [0,100], a run never fails; it reports the sun exactly when sunrise <= t < sunset, with a rounded percentage in [0,100], a temperature in [2000,5500] and full red; otherwise it reports an equal-channel grey; either way the hex code is a canonical `#rrggbb` that decodes to the reported colour |

"Well-ordered day" (`Instants.WellOrdered`) means sunrise + 30 min <= noon <= sunset - 30 min. Solar midnight may fall anywhere.

## Left out

- Sun and moon positions, rise, set and transit searches, and the moon phase (sunhue.py:6-63, 152-156, 186-191) come from the `ephem` astronomy library. They are not part of this model. Their results are inputs: the `SolarEvents` record, the next sunrise and the moon phase.
- Time-zone conversion with `pytz` is not modelled. All instants are assumed to be on one local clock already.
- `main`'s reading of the clock, its `strftime` and `print` output, and `math.degrees` on positions are not modelled. `SunHue.MakeReport` returns the computed values before display rounding: the night percentage unrounded, where `main` prints it to two decimals (sunhue.py:218). It leaves out what `main` prints straight from its inputs: the local time, the event times, the location, the sun or moon position and the moon phase.
- `math.log` and the fractional powers in `kelvin_to_rgb` are transcendental floating-point functions. They are the parameters `ln` and `pow`. No specific RGB output, such as the one for 5500 K, is proved.
- Temperature.KelvinToRgb: does not state the value of a channel computed through `ln` or `pow`, only its range and the branches that are constant, because those functions are left abstract.
- Floating-point rounding is not modelled: durations, temperatures and the moon's grey level are computed as exact reals. The model does not cover the case where a float result lands just below an integer and `int()` then truncates it one lower.
- Instants.Midpoint: halves the night rounding down to the whole second. Python halves a `timedelta` to the microsecond, rounding half to even.
- A polar day or night, with no sunrise or sunset, is not modelled. The search in the astronomy library fails there, before any modelled code runs.
