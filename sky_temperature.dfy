/**
 * Sky temperature from ambient temperature (degrees Celsius) and cloudiness
 * in oktas (0 = clear, 8 = overcast): a linear model 20 degrees below
 * ambient under a clear sky and 2 degrees below it under an overcast one.
 */
module SkyTemperature {

  /** `getSkyTemperature`, with its corner values and its range over [0, 8] oktas. */
  function SkyTemperature(temperature: real, cloudiness: real): (sky: real)
    ensures cloudiness == 8.0 ==> sky == temperature - 2.0
    ensures cloudiness == 0.0 ==> sky == temperature - 20.0
    ensures 0.0 <= cloudiness <= 8.0 ==> temperature - 20.0 <= sky <= temperature - 2.0
  {
    temperature - ((8.0 - cloudiness) / 8.0) * 18.0 - 2.0
  }

  /** At 20 degrees under half cover (4 oktas) the sky is at 9 degrees. */
  lemma SkyTemperatureHalfCover()
    ensures SkyTemperature(20.0, 4.0) == 9.0
  {
  }

  /** Each further okta of cloud warms the sky by 18/8 = 2.25 degrees. */
  lemma SkyTemperaturePerOkta(temperature: real, cloudiness: real)
    ensures SkyTemperature(temperature, cloudiness + 1.0) == SkyTemperature(temperature, cloudiness) + 2.25
  {
  }

  /** The sky follows the ambient temperature one-for-one. */
  lemma SkyTemperatureFollowsAmbient(temperature: real, cloudiness: real, d: real)
    ensures SkyTemperature(temperature + d, cloudiness) == SkyTemperature(temperature, cloudiness) + d
  {
  }
}
