/**
 * Extraterrestrial solar irradiance and its partition into global, diffuse
 * and direct irradiance, with the astronomical helpers it is built from:
 * day of the year, equation of time, solar time, hour angle and declination.
 *
 * Numbers are exact reals. Every call of `Math.sin`, `Math.cos` and
 * `Math.PI` goes through a `MathLib`, of which only range facts are known.
 */
module ExtraterrestrialRadiation {
  import opened JsMath
  import opened Calendar

  /**
   * What the formulas read from a JavaScript `Date`: the calendar date as
   * `getFullYear`, `getMonth` (0 = January) and `getDate` give it, and the
   * clock time as `getUTCHours` and `getUTCMinutes` give it.
   */
  datatype Instant = Instant(year: int, month: int, day: int, hour: int, minute: int)

  /** The values a `Date`'s getters can return. */
  predicate IsCalendarInstant(t: Instant) {
    && 0 <= t.month < 12
    && 1 <= t.day <= DaysInMonth(t.year, t.month)
    && 0 <= t.hour < 24
    && 0 <= t.minute < 60
  }

  /**
   * The calendar day after `t`, at the same clock time: a valid date whose
   * `Date.UTC` day number is one more than that of `t`.
   */
  function NextCalendarDay(t: Instant): (u: Instant)
    requires IsCalendarInstant(t)
    ensures IsCalendarInstant(u)
    ensures MakeDay(u.year, u.month, u.day) == MakeDay(t.year, t.month, t.day) + 1
    ensures u.hour == t.hour && u.minute == t.minute
  {
    NextDate(t.year, t.month, t.day);
    if t.day < DaysInMonth(t.year, t.month) then
      t.(day := t.day + 1)
    else if t.month < 11 then
      MonthOverflow(t.year, t.month);
      t.(month := t.month + 1, day := 1)
    else
      MonthOverflow(t.year, t.month);
      assert MakeDay(t.year, 12, 1) == MakeDay(t.year + 1, 0, 1);
      t.(year := t.year + 1, month := 0, day := 1)
  }

  // ---------------------------------------------------------------------
  // Day of the year

  /** A whole number of days, given in milliseconds, divided by 24, 60, 60 and 1000 in turn. */
  function MsToDays(ms: int): (r: real)
    ensures r * MsPerDay as real == ms as real
  {
    ms as real / 24.0 / 60.0 / 60.0 / 1000.0
  }

  /** A whole number `n` of days, in milliseconds, converts back to `n`. */
  lemma MsToWholeDays(n: int)
    ensures MsToDays(n * MsPerDay) == n as real
  {
  }

  /** A date of a month is a day of its year. */
  lemma DateWithinYear(y: int, m: int, d: int)
    requires 0 <= m < 12 && 1 <= d <= DaysInMonth(y, m)
    ensures 1 <= DaysBeforeMonth(y, m) + d <= DaysInYear(y)
  {
    MonthWithinYear(y, m);
  }

  /**
   * `daysIntoYear` exactly as written: the time from `Date.UTC(y, 0, 0)` to
   * `Date.UTC(y, m, d)`, in days. `Date.UTC` reads a year 0 to 99 as
   * 1900 to 1999, so the months are those of `MakeFullYear(y)`.
   */
  function DaysIntoYearAsWritten(t: Instant): (r: real)
    ensures 0 <= t.month < 12 ==> r == (DaysBeforeMonth(MakeFullYear(t.year), t.month) + t.day) as real
  {
    var r := MsToDays(DateUtc(t.year, t.month, t.day) - DateUtc(t.year, 0, 0));
    if 0 <= t.month < 12 then
      DateUtcSinceYearStart(t.year, t.month, t.day);
      MsToWholeDays(DaysBeforeMonth(MakeFullYear(t.year), t.month) + t.day);
      r
    else
      r
  }

  /**
   * `daysIntoYear` with both time values taken in the year itself: the
   * number of days from 31 December of the previous year to the date.
   * This is the definition the rest of the model uses.
   */
  function DaysIntoYear(t: Instant): (r: real)
    ensures 0 <= t.month < 12 ==> r == (DaysBeforeMonth(t.year, t.month) + t.day) as real
    ensures IsCalendarInstant(t) ==> 1.0 <= r <= DaysInYear(t.year) as real
  {
    var r := MsToDays(UtcMidnight(t.year, t.month, t.day) - UtcMidnight(t.year, 0, 0));
    if 0 <= t.month < 12 then
      UtcMidnightSinceYearStart(t.year, t.month, t.day);
      MsToWholeDays(DaysBeforeMonth(t.year, t.month) + t.day);
      if 1 <= t.day <= DaysInMonth(t.year, t.month) then
        DateWithinYear(t.year, t.month, t.day);
        r
      else
        r
    else
      r
  }

  /** 1 January is day 1, and 31 December is day 365 or, in a leap year, 366. */
  lemma DaysIntoYearEnds(y: int, hour: int, minute: int)
    ensures DaysIntoYear(Instant(y, 0, 1, hour, minute)) == 1.0
    ensures DaysIntoYear(Instant(y, 11, 31, hour, minute)) == DaysInYear(y) as real
  {
  }

  /**
   * From one calendar day to the next the day of the year grows by exactly
   * one, and it starts again at 1 on 1 January.
   */
  lemma DaysIntoYearNextDay(t: Instant)
    requires IsCalendarInstant(t)
    ensures NextCalendarDay(t).year == t.year ==>
      DaysIntoYear(NextCalendarDay(t)) == DaysIntoYear(t) + 1.0
    ensures NextCalendarDay(t).year != t.year ==>
      DaysIntoYear(t) == DaysInYear(t.year) as real && DaysIntoYear(NextCalendarDay(t)) == 1.0
  {
    var u := NextCalendarDay(t);
    if t.day == DaysInMonth(t.year, t.month) && t.month < 11 {
      assert DaysBeforeMonth(t.year, t.month + 1) == DaysBeforeMonth(t.year, t.month) + DaysInMonth(t.year, t.month);
    }
  }

  /** As written, `daysIntoYear` is correct on every date outside year 0. */
  lemma DaysIntoYearAsWrittenAgrees(t: Instant)
    requires IsCalendarInstant(t) && t.year != 0
    ensures DaysIntoYearAsWritten(t) == DaysIntoYear(t)
  {
    assert IsLeapYear(MakeFullYear(t.year)) == IsLeapYear(t.year);
  }

  /**
   * In year 0, a leap year, `Date.UTC` counts in 1900, which is not one: as
   * written, 29 February and 1 March of year 0 are both day 60, and
   * 31 December is day 365 of a 366-day year. The cause: `Date.UTC(0, 1, 29)`
   * is 29 February 1900, which does not exist and overflows to 1 March.
   */
  lemma DaysIntoYearAsWrittenYearZero()
    ensures IsLeapYear(0) && !IsLeapYear(1900)
    ensures DateUtc(0, 1, 29) == DateUtc(0, 2, 1)
    ensures DaysIntoYearAsWritten(Instant(0, 1, 29, 0, 0)) == 60.0
    ensures DaysIntoYearAsWritten(Instant(0, 2, 1, 0, 0)) == 60.0
    ensures DaysIntoYearAsWritten(Instant(0, 11, 31, 0, 0)) == 365.0
    ensures DaysIntoYear(Instant(0, 2, 1, 0, 0)) == 61.0
    ensures DaysIntoYear(Instant(0, 11, 31, 0, 0)) == 366.0
  {
    assert MakeFullYear(0) == 1900;
    assert DaysBeforeMonth(1900, 1) == 31 && DaysBeforeMonth(1900, 2) == 59 && DaysBeforeMonth(1900, 11) == 334;
    assert DaysBeforeMonth(0, 2) == 60 && DaysBeforeMonth(0, 11) == 335;
    MonthOverflow(1900, 1);
  }

  // ---------------------------------------------------------------------
  // Equation of time, solar time, hour angle, declination

  /** `degrees_to_rad`. */
  function DegreesToRad(m: MathLib, degrees: real): (r: real)
    requires Valid(m)
    ensures (r > 0.0 <==> degrees > 0.0) && (r == 0.0 <==> degrees == 0.0)
    ensures degrees == 180.0 ==> r == m.pi
  {
    (degrees * m.pi) / 180.0
  }

  /** Equation of time in minutes: within 9.87 + 7.53 + 1.5 = 18.9 minutes of zero. */
  function EquationOfTime(m: MathLib, day: real): (r: real)
    requires Valid(m)
    ensures -18.9 <= r <= 18.9
  {
    var b := ((2.0 * m.pi) / 364.0) * (day - 81.0);
    9.87 * m.sin(2.0 * b) - 7.53 * m.cos(b) - 1.5 * m.sin(b)
  }

  /** Minutes since UTC midnight on the clock of `t`. */
  function ClockMinutes(t: Instant): real {
    (t.hour * 60 + t.minute) as real
  }

  /**
   * `get_solar_time`, in decimal hours: the UTC clock time moved by four
   * minutes per degree of longitude and by the equation of time, so within
   * 18.9 minutes of the longitude-corrected clock.
   */
  function SolarTime(m: MathLib, t: Instant, lon: real): (r: real)
    requires Valid(m)
    ensures (ClockMinutes(t) + 4.0 * lon - 18.9) / 60.0 <= r <= (ClockMinutes(t) + 4.0 * lon + 18.9) / 60.0
  {
    (ClockMinutes(t) + 4.0 * lon + EquationOfTime(m, DaysIntoYear(t))) / 60.0
  }

  /** `get_hour_angle`, in degrees: zero exactly at solar noon, positive exactly after it. */
  function HourAngle(m: MathLib, t: Instant, lon: real): (r: real)
    requires Valid(m)
    ensures r == 0.0 <==> SolarTime(m, t, lon) == 12.0
    ensures r > 0.0 <==> SolarTime(m, t, lon) > 12.0
  {
    15.0 * (SolarTime(m, t, lon) - 12.0)
  }

  /** One degree further east is four minutes, 1/15 hour, later in solar time. */
  lemma SolarTimeLongitudeShift(m: MathLib, t: Instant, lon: real, d: real)
    requires Valid(m)
    ensures SolarTime(m, t, lon + d) == SolarTime(m, t, lon) + d / 15.0
  {
  }

  /** The hour angle moves one-for-one with longitude. */
  lemma HourAngleLongitudeShift(m: MathLib, t: Instant, lon: real, d: real)
    requires Valid(m)
    ensures HourAngle(m, t, lon + d) == HourAngle(m, t, lon) + d
  {
    SolarTimeLongitudeShift(m, t, lon, d);
  }

  /** `get_declination`, in degrees: never more than the axial tilt of 23.45 degrees. */
  function Declination(m: MathLib, dayOfYear: real): (r: real)
    requires Valid(m)
    ensures -23.45 <= r <= 23.45
  {
    23.45 * m.sin(((2.0 * m.pi) / 365.0) * (dayOfYear - 81.0))
  }

  // ---------------------------------------------------------------------
  // Extraterrestrial irradiance

  /**
   * `ZA`, the cosine of the solar zenith angle at latitude `lat` and
   * longitude `lon` (degrees). From the range facts alone it lies in [-2, 2].
   */
  function CosZenith(m: MathLib, t: Instant, lat: real, lon: real): (za: real)
    requires Valid(m)
    ensures -2.0 <= za <= 2.0
  {
    var decl := DegreesToRad(m, Declination(m, DaysIntoYear(t)));
    var ha := DegreesToRad(m, HourAngle(m, t, lon));
    var phi := DegreesToRad(m, lat);
    UnitProduct(m.sin(phi), m.sin(decl));
    UnitProduct(m.cos(phi), m.cos(decl));
    UnitProduct(m.cos(phi) * m.cos(decl), m.cos(ha));
    m.sin(phi) * m.sin(decl) + m.cos(phi) * m.cos(decl) * m.cos(ha)
  }

  /**
   * The eccentricity correction of the solar constant on day `day`. Each
   * harmonic is in [-1, 1], so the factor stays within 1.0001 -+ 0.036297.
   */
  function EccentricityFactor(m: MathLib, day: real): (f: real)
    requires Valid(m)
    ensures 0.963803 <= f <= 1.036397
  {
    var ab := m.cos((2.0 * m.pi * (day - 1.0)) / 365.0);
    var bc := m.sin((2.0 * m.pi * (day - 1.0)) / 365.0);
    var cd := m.cos(2.0 * ((2.0 * m.pi * (day - 1.0)) / 365.0));
    var df := m.sin(2.0 * ((2.0 * m.pi * (day - 1.0)) / 365.0));
    1.0001 + 0.034221 * ab + 0.00128 * bc + 0.000719 * cd + 0.000077 * df
  }

  /** By day, 1367 W/m2 times `ZA` times the eccentricity factor stays within the factor's bounds. */
  lemma DaytimeBounds(za: real, f: real)
    requires za > 0.0 && 0.963803 <= f <= 1.036397
    ensures 1367.0 * 0.963803 * za <= 1367.0 * za * f <= 1367.0 * 1.036397 * za
  {
    assert za * f - za * 0.963803 == za * (f - 0.963803);
    assert za * 1.036397 - za * f == za * (1.036397 - f);
  }

  /**
   * `getExtraterrestrialIrradiation`, in W/m2: exactly 0.0 while the sun is
   * not above the horizon (`ZA <= 0`), and otherwise strictly positive,
   * between 96.38% and 103.64% of 1367 W/m2 times `ZA`.
   */
  function ExtraterrestrialIrradiation(m: MathLib, t: Instant, lat: real, lon: real): (r: real)
    requires Valid(m)
    ensures CosZenith(m, t, lat, lon) <= 0.0 ==> r == 0.0
    ensures r > 0.0 <==> CosZenith(m, t, lat, lon) > 0.0
    ensures CosZenith(m, t, lat, lon) > 0.0 ==>
      1367.0 * 0.963803 * CosZenith(m, t, lat, lon) <= r <= 1367.0 * 1.036397 * CosZenith(m, t, lat, lon)
    ensures 0.0 <= r <= 1367.0 * 1.036397 * 2.0
  {
    var za := CosZenith(m, t, lat, lon);
    if za > 0.0 then
      var f := EccentricityFactor(m, DaysIntoYear(t));
      DaytimeBounds(za, f);
      1367.0 * za * f
    else
      0.0
  }

  // ---------------------------------------------------------------------
  // Global, diffuse and direct irradiance

  /**
   * `getGlobalIrradiance`: linear cloud attenuation. A clear sky keeps
   * 10/11 of `e`; for `e >= 0` and cloudiness in [0, 8] the result lies
   * between 0 and that.
   */
  function GlobalIrradiance(e: real, cloudiness: real): (g: real)
    ensures cloudiness == 0.0 ==> g == e * 10.0 / 11.0
    ensures e >= 0.0 && 0.0 <= cloudiness <= 8.0 ==> 0.0 <= g <= e * 10.0 / 11.0
  {
    var g := (e * (10.0 - cloudiness * 1.1)) / 11.0;
    assert e >= 0.0 && 0.0 <= cloudiness <= 8.0 ==> e * (10.0 - cloudiness * 1.1) >= e * 1.2 >= 0.0;
    g
  }

  /** More cloud never lets more light through. */
  lemma GlobalIrradianceNonIncreasing(e: real, c1: real, c2: real)
    requires e >= 0.0 && c1 <= c2
    ensures GlobalIrradiance(e, c2) <= GlobalIrradiance(e, c1)
  {
    assert GlobalIrradiance(e, c1) - GlobalIrradiance(e, c2) == e * (c2 - c1) * 1.1 / 11.0;
  }

  /** Fully overcast (8 oktas) keeps 1.2/11 of `e`. */
  lemma GlobalIrradianceOvercast(e: real)
    ensures GlobalIrradiance(e, 8.0) == e * 1.2 / 11.0
  {
  }

  /**
   * `getDiffuseIrradiance`: the smaller of the global irradiance and 31% of
   * the extraterrestrial irradiance.
   */
  function DiffuseIrradiance(g: real, e: real): (d: real)
    ensures d <= g && d <= e * 0.31
    ensures d == g || d == e * 0.31
  {
    if g <= e * 0.31 then g else e * 0.31
  }

  /** `getDirectIrradiance`: what is left of the global irradiance besides the diffuse part. */
  function DirectIrradiance(g: real, d: real): (b: real)
    ensures b + d == g
  {
    g - d
  }

  /**
   * Global = Diffuse + Direct, and the direct part computed from the diffuse
   * part of the same global irradiance is never negative; it is zero exactly
   * when the global irradiance does not exceed 31% of `e`.
   */
  lemma IrradiancePartition(g: real, e: real)
    ensures DirectIrradiance(g, DiffuseIrradiance(g, e)) + DiffuseIrradiance(g, e) == g
    ensures DirectIrradiance(g, DiffuseIrradiance(g, e)) >= 0.0
    ensures DirectIrradiance(g, DiffuseIrradiance(g, e)) == 0.0 <==> g <= e * 0.31
  {
  }

  /**
   * The whole chain by day or night: from the extraterrestrial irradiance at
   * an instant and cloudiness in [0, 8], the global, diffuse and direct parts
   * are all non-negative and the diffuse and direct parts add up to the global.
   */
  lemma IrradianceChain(m: MathLib, t: Instant, lat: real, lon: real, cloudiness: real)
    requires Valid(m) && 0.0 <= cloudiness <= 8.0
    ensures var e := ExtraterrestrialIrradiation(m, t, lat, lon);
      var g := GlobalIrradiance(e, cloudiness);
      var d := DiffuseIrradiance(g, e);
      && 0.0 <= d <= g <= e * 10.0 / 11.0
      && 0.0 <= DirectIrradiance(g, d)
      && DirectIrradiance(g, d) + d == g
  {
    var e := ExtraterrestrialIrradiation(m, t, lat, lon);
    var g := GlobalIrradiance(e, cloudiness);
    assert 0.0 <= g;
    IrradiancePartition(g, e);
  }
}
