/** The description half of the WMO weather-code lookup, and the context
    sentence a text message is prefixed with when the user opts in. */
module Weather {

  /** Every code some group lists. */
  const Listed: set<int> :=
    {0, 1, 2, 3, 45, 48, 51, 53, 55, 56, 57, 61, 63, 65, 66, 67, 71, 73, 75, 77, 80, 81, 82, 95, 96, 99}

  /** The descriptions the lookup can produce. */
  const Descriptions: set<string> :=
    {"Clear sky", "Cloudy", "Fog", "Drizzle", "Rain", "Snow", "Rain showers", "Thunderstorm"}

  /** `getWeatherInfo(code).description`: total over all codes. */
  function Description(code: int): (d: string)
    ensures d in Descriptions
    ensures code == 0 ==> d == "Clear sky"
    ensures code in {45, 48} ==> d == "Fog"
    ensures code in {51, 53, 55, 56, 57} ==> d == "Drizzle"
    ensures code in {61, 63, 65, 66, 67} ==> d == "Rain"
    ensures code in {71, 73, 75, 77} ==> d == "Snow"
    ensures code in {80, 81, 82} ==> d == "Rain showers"
    ensures code in {95, 96, 99} ==> d == "Thunderstorm"
    ensures d == "Cloudy" <==> code in {1, 2, 3} || code !in Listed
  {
    if code == 0 then "Clear sky"
    else if code in {1, 2, 3} then "Cloudy"
    else if code in {45, 48} then "Fog"
    else if code in {51, 53, 55, 56, 57} then "Drizzle"
    else if code in {61, 63, 65, 66, 67} then "Rain"
    else if code in {71, 73, 75, 77} then "Snow"
    else if code in {80, 81, 82} then "Rain showers"
    else if code in {95, 96, 99} then "Thunderstorm"
    else "Cloudy"
  }

  /** The current weather as the message handler reads it: the temperature
      already rounded and rendered, and the WMO code. */
  datatype Reading = Reading(temperature: string, code: int)

  /** The sentence prepended to a message when the weather context is on;
      `temperature` is the rounded temperature already rendered as text. */
  function Context(temperature: string, code: int): (c: string)
    ensures |c| > 0 && c[|c| - 1] == ' '
  {
    "(My local weather is currently " + temperature + "°C and " + Description(code) + ") "
  }
}
