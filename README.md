# formula-ts in Dafny

A model of the exact logic around the closed-form weather and solar formulas of the
TypeScript library formula-ts. The library has three parts:

- **Extraterrestrial irradiance.** The solar irradiance outside the atmosphere on a horizontal
  surface, from a date, a latitude and a longitude. It is built from the day of the year, the
  equation of time, the solar time, the hour angle, the solar declination and the orbital
  eccentricity. A strict `ZA > 0` test separates day from night. The global irradiance (linear
  cloud attenuation) is then split into diffuse and direct parts.
- **Absolute humidity.** A Magnus-type saturation vapour pressure with two coefficient sets
  (either side of 50 °C), scaled by relative humidity over the absolute temperature, in g/m³
  or g/kg.
- **Sky temperature.** A sky temperature linear in ambient temperature and cloud cover (oktas).

All arithmetic is on exact `real`s and `int`s. The transcendental calls `Math.sin`, `Math.cos`
and `Math.pow`, and the constant `Math.PI`, go through a value `m: JsMath.MathLib` of arbitrary
functions. `JsMath.Valid(m)` assumes only these facts about them:

- sine and cosine lie in [-1, 1];
- `10^x > 0`;
- `b^0 == 1`;
- `PI > 0`.

`JsMath.ValidIsSatisfiable` shows that these assumptions are consistent.

The JavaScript `Date` becomes an `Instant` of integers: the values its getters return
(`getFullYear`, `getMonth` counted from 0, `getDate`, `getUTCHours`, `getUTCMinutes`).
`Date.UTC` is modelled by module `Calendar`. That module follows the day arithmetic of
the ECMAScript language specification (ECMA-262), through the abstract operations `Date.UTC` is
defined by: `DayFromYear`, `MakeDay` and `MakeFullYear`. It uses the proleptic Gregorian
calendar, accepts month values out of range, and treats date 0 as the last day of the
previous month.

Modules: `JsMath` (js_math.dfy), `Calendar` (calendar.dfy), `ExtraterrestrialRadiation`
(extraterrestrial_radiation.dfy), `AbsoluteHumidity` (absolute_humidity.dfy),
`SkyTemperature` (sky_temperature.dfy).

## Model

| member | source | states |
|---|---|---|
| `Calendar.DaysBeforeMonth` | extraterrestrialRadiation.ts:60 | the days of a year before a month, summed month by month, equal ECMA-262's day-within-year table, plus one from March on in a leap year |
| `Calendar.DaysInMonth` | extraterrestrialRadiation.ts:60 | every month has 28 to 31 days, and February has 29 exactly in a leap year |
| `Calendar.DaysInYear` | extraterrestrialRadiation.ts:60-61 | a year has 365 days, or 366 exactly when it is a Gregorian leap year |
| `Calendar.DayFromYearStep` | extraterrestrialRadiation.ts:60-61 | the day numbers of consecutive 1 Januaries differ by the length of the earlier year |
| `Calendar.MakeDayWithinYear` | extraterrestrialRadiation.ts:60-61 | for months 0 to 11, the day number is the year's start plus the earlier months plus the date minus one |
| `Calendar.MonthWithinYear` | extraterrestrialRadiation.ts:60 | each month ends inside its year, and the twelve months fill the year exactly |
| `Calendar.NextDate` | extraterrestrialRadiation.ts:60-61 | date `d + 1` is the day after date `d`, even past the end of the month |
| `Calendar.MonthOverflow` | extraterrestrialRadiation.ts:60-61 | the day after a month's last date is the 1st of the next month, across a year end too |
| `Calendar.DayZeroIsLastDayOfPreviousYear` | extraterrestrialRadiation.ts:61 | the reference point `Date.UTC(y, 0, 0)` is 31 December of year `y - 1` |
| `Calendar.MakeFullYear` | extraterrestrialRadiation.ts:60-61 | the year `Date.UTC` counts in is never a two-digit one; it is a leap year exactly when the given year is, except that year 0 (leap) becomes 1900 (not leap) |
| `Calendar.UtcMidnight` | extraterrestrialRadiation.ts:60-61 | a date with no time of day is a whole number of days in milliseconds |
| `Calendar.DateUtc` | extraterrestrialRadiation.ts:60-61 | `Date.UTC(y, m, d)` with no time of day is a whole number of days in milliseconds |
| `Calendar.UtcMidnightSinceYearStart` | extraterrestrialRadiation.ts:60-61 | from midnight of day 0 of January to midnight of a date of months 0 to 11 is the earlier months' days plus the date |
| `Calendar.DateUtcSinceYearStart` | extraterrestrialRadiation.ts:60-61 | the same for the two `Date.UTC` values of `daysIntoYear`, with the months of the year `MakeFullYear` gives |
| `ExtraterrestrialRadiation.NextCalendarDay` | extraterrestrialRadiation.ts:58-67 | the calendar day after a valid date is again a valid date, with a `Date.UTC` day number one higher and the same clock time |
| `ExtraterrestrialRadiation.MsToDays` | extraterrestrialRadiation.ts:62-65 | dividing by 24, 60, 60 and 1000 turns milliseconds into days |
| `ExtraterrestrialRadiation.MsToWholeDays` | extraterrestrialRadiation.ts:62-65 | `n` days in milliseconds convert back to exactly `n` |
| `ExtraterrestrialRadiation.DateWithinYear` | extraterrestrialRadiation.ts:58-67 | a valid date's day of the year lies in 1 to the length of the year |
| `ExtraterrestrialRadiation.DaysIntoYear` | extraterrestrialRadiation.ts:58-67 | the day of the year is the days of the earlier months plus the date, from 1 to 365 (366 in a leap year) |
| `ExtraterrestrialRadiation.DaysIntoYearAsWritten` | extraterrestrialRadiation.ts:58-67 | as written, the months counted are those of the year `MakeFullYear` gives |
| `ExtraterrestrialRadiation.DaysIntoYearEnds` | extraterrestrialRadiation.ts:58-67 | 1 January is day 1, and 31 December is day 365 or 366 |
| `ExtraterrestrialRadiation.DaysIntoYearNextDay` | extraterrestrialRadiation.ts:58-67 | from one calendar day to the next, the day of the year grows by exactly 1 within a year, and restarts at 1 after the last day |
| `ExtraterrestrialRadiation.DaysIntoYearAsWrittenAgrees` | extraterrestrialRadiation.ts:58-67 | as written, the day of the year is correct on every valid date outside year 0 |
| `ExtraterrestrialRadiation.DaysIntoYearAsWrittenYearZero` | extraterrestrialRadiation.ts:60-61 | `Date.UTC(0, 1, 29)` and `Date.UTC(0, 2, 1)` are the same time value; in year 0, as written, 29 February and 1 March are both day 60, and 31 December is day 365 instead of 366 |
| `ExtraterrestrialRadiation.DegreesToRad` | extraterrestrialRadiation.ts:37-39 | converting degrees to radians keeps the sign and takes 180 degrees to pi |
| `ExtraterrestrialRadiation.EquationOfTime` | extraterrestrialRadiation.ts:69-72 | the equation of time stays within 18.9 minutes of zero |
| `ExtraterrestrialRadiation.SolarTime` | extraterrestrialRadiation.ts:48-56 | solar time is the UTC clock plus 4 minutes per degree of longitude, within the 18.9-minute band of the equation of time |
| `ExtraterrestrialRadiation.HourAngle` | extraterrestrialRadiation.ts:43-46 | the hour angle is 0 exactly at solar time 12, and positive exactly after it |
| `ExtraterrestrialRadiation.SolarTimeLongitudeShift` | extraterrestrialRadiation.ts:48-56 | `d` degrees further east moves solar time by `d/15` hours |
| `ExtraterrestrialRadiation.HourAngleLongitudeShift` | extraterrestrialRadiation.ts:43-56 | `d` degrees further east moves the hour angle by exactly `d` degrees |
| `ExtraterrestrialRadiation.Declination` | extraterrestrialRadiation.ts:40-42 | the declination magnitude is at most 23.45 degrees |
| `ExtraterrestrialRadiation.CosZenith` | extraterrestrialRadiation.ts:24-28 | the computed zenith cosine `ZA` lies in [-2, 2] (the range facts alone allow no better bound) |
| `ExtraterrestrialRadiation.EccentricityFactor` | extraterrestrialRadiation.ts:20-23 | the eccentricity factor lies in [0.963803, 1.036397] |
| `ExtraterrestrialRadiation.ExtraterrestrialIrradiation` | extraterrestrialRadiation.ts:18-35 | exactly 0.0 when `ZA <= 0`; positive exactly when `ZA > 0`; by day between 1367·0.963803·ZA and 1367·1.036397·ZA |
| `ExtraterrestrialRadiation.GlobalIrradiance` | extraterrestrialRadiation.ts:82-84 | at cloudiness 0 the result is `e*10/11`; for `e >= 0` and cloudiness in [0, 8] it lies between 0 and that |
| `ExtraterrestrialRadiation.GlobalIrradianceNonIncreasing` | extraterrestrialRadiation.ts:74-84 | for `e >= 0`, more cloud never gives more global irradiance |
| `ExtraterrestrialRadiation.GlobalIrradianceOvercast` | extraterrestrialRadiation.ts:83 | at 8 oktas the result is `e*1.2/11` |
| `ExtraterrestrialRadiation.DiffuseIrradiance` | extraterrestrialRadiation.ts:92-94 | diffuse is at most the global and at most 31% of `e`, and equals one of the two |
| `ExtraterrestrialRadiation.DirectIrradiance` | extraterrestrialRadiation.ts:102-104 | direct plus diffuse gives back the global |
| `ExtraterrestrialRadiation.IrradiancePartition` | extraterrestrialRadiation.ts:92-104 | Global = Diffuse + Direct; direct is never negative, and is 0 exactly when global <= 0.31·e |
| `ExtraterrestrialRadiation.IrradianceChain` | extraterrestrialRadiation.ts:74-104 | from any instant and cloudiness in [0, 8]: 0 <= diffuse <= global <= e·10/11, direct >= 0, direct + diffuse = global |
| `AbsoluteHumidity.CoefficientIndex` | absoluteHumidity.ts:35 | the second coefficient set is chosen exactly when the temperature is strictly above 50 |
| `AbsoluteHumidity.Coefficients` | absoluteHumidity.ts:36-38 | `(a, m, Tn)` is (6.116441, 7.59138, 240.726) up to 50 °C and (6.004918, 7.337936, 229.3975) above |
| `AbsoluteHumidity.ExponentDefinedExactly` | absoluteHumidity.ts:35-40 | the exponent's denominator is zero only at -240.726 °C |
| `AbsoluteHumidity.Exponent` | absoluteHumidity.ts:40 | `el` is 0 at 0 °C; above `-Tn` it has the sign of the temperature |
| `AbsoluteHumidity.WaterVapourSaturation` | absoluteHumidity.ts:34-42 | saturation pressure is positive, and is 6.116441 at 0 °C |
| `AbsoluteHumidity.AbsoluteHumidity` | absoluteHumidity.ts:21-24 | relative humidity 0 gives 0; positive relative humidity above absolute zero gives a positive result |
| `AbsoluteHumidity.AbsoluteHumidityLinear` | absoluteHumidity.ts:22-23 | scaling relative humidity by `k` scales absolute humidity by `k` |
| `AbsoluteHumidity.AbsoluteHumidityInGramsPerKGrams` | absoluteHumidity.ts:26-28 | the g/kg value times 1.204 gives the g/m³ value, with the same zero and sign facts |
| `SkyTemperature.SkyTemperature` | skyTemperature.ts:14-16 | overcast (8) gives `T - 2`, clear (0) gives `T - 20`, and cloudiness in [0, 8] gives a value between them |
| `SkyTemperature.SkyTemperatureHalfCover` | skyTemperature.ts:15 | 20 °C under 4 oktas gives 9 °C |
| `SkyTemperature.SkyTemperaturePerOkta` | skyTemperature.ts:15 | each okta of cloud raises the sky temperature by 2.25 |
| `SkyTemperature.SkyTemperatureFollowsAmbient` | skyTemperature.ts:15 | sky temperature moves one-for-one with ambient temperature |

## Left out

- The actual values of `Math.sin`, `Math.cos`, `Math.pow` and `Math.PI` are not modelled:
  they are floating-point transcendental functions. Only the range facts in `JsMath.Valid` are
  assumed, so there are no numeric reference values, such as the saturation at 20 °C.
- IEEE-754 rounding, NaN and Infinity are not modelled. Arithmetic is exact, so
  Global = Diffuse + Direct is exact here and only approximate in JavaScript.
- The two unguarded singularities are preconditions: `AbsoluteHumidity.HumidityDefined`
  excludes -273.15 °C and `AbsoluteHumidity.ExponentDefined` excludes -Tn (-240.726 °C).
  In JavaScript, the second yields `10^-Infinity = 0`, not NaN.
- The JavaScript `Date` object is not modelled beyond its getters' values, and neither is the
  host time zone. `daysIntoYear` reads the local-time getters, while solar time reads the UTC
  getters. Here both are taken from one `Instant`, so a local date that differs from the UTC
  date is not modelled. `Date.UTC`'s TimeClip range limit (±8.64·10^15 ms) is not modelled
  either.
- `CosZenith`: the bound [-2, 2] is weaker than the physical [-1, 1]. The sharper bound needs
  trigonometric identities, and those are not among the assumed range facts.
- The module export lines are not modelled. They hold no logic, and
  extraterrestrialRadiation.ts:106 exports `getExtraterrestrialRadiation`, a name that file never
  defines.
- `SolarTime`, `HourAngle`, `CosZenith` and `ExtraterrestrialIrradiation` take the day of the
  year from the corrected `DaysIntoYear`, not from `DaysIntoYearAsWritten`. On dates in year 0 from
  1 March on, they therefore use a day one higher than the code does (61 instead of 60 for 1 March)
  in the declination, the equation of time and the four harmonics. Their contracts hold for any day
  value, so nothing they promise depends on this choice.
- The duplicate computation of the day of the year (once in `getExtraterrestrialIrradiation`,
  once more inside `get_solar_time`) is modelled as one `DaysIntoYear` per use. The two calls
  give the same value.

## Findings

| source | as written | input that shows it | evidently intended | confidence | as-written member | corrected member |
|---|---|---|---|---|---|---|
| extraterrestrialRadiation.ts:60-61 | `daysIntoYear` passes `getFullYear()` to `Date.UTC`, which reads years 0 to 99 as 1900 to 1999; year 0 is a leap year and 1900 is not | 1 March of year 0: day 60, the same as 29 February; 31 December of year 0: day 365 | the day of the year in the date's own year: 61 for 1 March of year 0 and 366 for 31 December | not executed; follows ECMA-262's `MakeFullYear` | `ExtraterrestrialRadiation.DaysIntoYearAsWrittenYearZero` | `ExtraterrestrialRadiation.DaysIntoYear` (with `DaysIntoYearNextDay`) |

The rest of the model uses the corrected `DaysIntoYear`. `DaysIntoYearAsWrittenAgrees` proves
that the code as written gives the same value on every date outside year 0.
