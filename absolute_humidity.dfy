/**
 * Absolute humidity from temperature (degrees Celsius) and relative humidity
 * (percent), through a Magnus-type saturation vapour pressure with two
 * coefficient sets, one for water at most 50 degrees and one above.
 *
 * `Math.pow` goes through a `MathLib`; only `10^x > 0` and `b^0 == 1` are
 * known of it.
 */
module AbsoluteHumidity {
  import opened JsMath

  /** The three coefficient tables; index 0 up to 50 degrees, index 1 above. */
  const ArrayA: seq<real> := [6.116441, 6.004918]
  const ArrayM: seq<real> := [7.59138, 7.337936]
  const ArrayTn: seq<real> := [240.726, 229.3975]
  const KelvinConstant: real := 273.15
  const AirAhConstant: real := 2.16679
  const GKgConstant: real := 1.204

  /** The table index: 1 exactly when the temperature is strictly above 50. */
  function CoefficientIndex(temperature: real): (i: nat)
    ensures i < 2
    ensures i == 1 <==> temperature > 50.0
  {
    if temperature > 50.0 then 1 else 0
  }

  /** Magnus coefficients `(a, m, Tn)`, always taken from one index of the three tables. */
  function Coefficients(temperature: real): (c: (real, real, real))
    ensures temperature <= 50.0 ==> c == (6.116441, 7.59138, 240.726)
    ensures temperature > 50.0 ==> c == (6.004918, 7.337936, 229.3975)
  {
    var index := CoefficientIndex(temperature);
    (ArrayA[index], ArrayM[index], ArrayTn[index])
  }

  /** The exponent `m*T/(T+Tn)` has a denominator other than zero. */
  predicate ExponentDefined(temperature: real) {
    temperature + Coefficients(temperature).2 != 0.0
  }

  /** The only singular temperature is -240.726: the other table's -229.3975 is never selected there. */
  lemma ExponentDefinedExactly(temperature: real)
    ensures ExponentDefined(temperature) <==> temperature != -240.726
  {
  }

  /** Dividing by a positive number keeps the sign. */
  lemma QuotientSign(n: real, d: real)
    requires d > 0.0
    ensures (n / d > 0.0 <==> n > 0.0) && (n / d < 0.0 <==> n < 0.0)
  {
    var q := n / d;
    assert n == q * d;
    if q > 0.0 {
      assert q * d > 0.0 * d;
    } else if q < 0.0 {
      assert q * d < 0.0 * d;
    }
  }

  /**
   * The exponent `el = m*T/(T+Tn)`: 0 at 0 degrees with either set and, above
   * the singular temperature -Tn, of the same sign as the temperature.
   */
  function Exponent(temperature: real): (el: real)
    requires ExponentDefined(temperature)
    ensures temperature == 0.0 ==> el == 0.0
    ensures temperature + Coefficients(temperature).2 > 0.0 ==>
      (el > 0.0 <==> temperature > 0.0) && (el < 0.0 <==> temperature < 0.0)
  {
    var (_, m, tn) := Coefficients(temperature);
    var el := (m * temperature) / (temperature + tn);
    if temperature + tn > 0.0 then
      QuotientSign(m * temperature, temperature + tn);
      el
    else
      el
  }

  /**
   * `getWaterVapourSaturation`: `a * 10^el`. It is positive, and at 0 degrees
   * it is the coefficient `a` = 6.116441 of the low-temperature set.
   */
  function WaterVapourSaturation(mth: MathLib, temperature: real): (p: real)
    requires Valid(mth) && ExponentDefined(temperature)
    ensures p > 0.0
    ensures temperature == 0.0 ==> p == 6.116441
  {
    var a := Coefficients(temperature).0;
    a * mth.pow(10.0, Exponent(temperature))
  }

  /** Neither of the unguarded denominators is zero. */
  predicate HumidityDefined(temperature: real) {
    ExponentDefined(temperature) && KelvinConstant + temperature != 0.0
  }

  /**
   * `getAbsoluteHumidity`, in g/m3: the vapour pressure `pw`, a share
   * `RH/100` of the saturation pressure, over the absolute temperature.
   * No moisture gives none; moisture above absolute zero gives some.
   */
  function AbsoluteHumidity(mth: MathLib, temperature: real, relativeHumidity: real): (ah: real)
    requires Valid(mth) && HumidityDefined(temperature)
    ensures relativeHumidity == 0.0 ==> ah == 0.0
    ensures relativeHumidity > 0.0 && temperature > -KelvinConstant ==> ah > 0.0
  {
    var sat := WaterVapourSaturation(mth, temperature);
    var pw := sat * relativeHumidity / 100.0;
    assert relativeHumidity > 0.0 ==> pw > 0.0;
    (AirAhConstant * pw * 100.0) / (KelvinConstant + temperature)
  }

  /** Absolute humidity is proportional to relative humidity. */
  lemma AbsoluteHumidityLinear(mth: MathLib, temperature: real, relativeHumidity: real, k: real)
    requires Valid(mth) && HumidityDefined(temperature)
    ensures AbsoluteHumidity(mth, temperature, k * relativeHumidity)
      == k * AbsoluteHumidity(mth, temperature, relativeHumidity)
  {
    var sat := WaterVapourSaturation(mth, temperature);
    var den := KelvinConstant + temperature;
    var pw := sat * relativeHumidity / 100.0;
    assert sat * (k * relativeHumidity) / 100.0 == k * pw;
    assert AirAhConstant * (k * pw) * 100.0 == k * (AirAhConstant * pw * 100.0);
  }

  /**
   * `getAbsoluteHumidityInGramsPerKGrams`: the g/m3 value divided by 1.204,
   * so that multiplying back by 1.204 gives the g/m3 value.
   */
  function AbsoluteHumidityInGramsPerKGrams(mth: MathLib, temperature: real, relativeHumidity: real): (ah: real)
    requires Valid(mth) && HumidityDefined(temperature)
    ensures ah * GKgConstant == AbsoluteHumidity(mth, temperature, relativeHumidity)
    ensures relativeHumidity == 0.0 ==> ah == 0.0
    ensures relativeHumidity > 0.0 && temperature > -KelvinConstant ==> ah > 0.0
  {
    AbsoluteHumidity(mth, temperature, relativeHumidity) / GKgConstant
  }
}
