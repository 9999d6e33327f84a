/** The weather readout (script.js, getWeatherDescription and
    displayWeather): a fixed table from WMO weather codes to a description
    and a Font Awesome icon, with a fallback for every other code. */
module Weather {
  import opened Wrappers
  import opened Text

  datatype Condition = Condition(description: string, icon: string)

  const Fallback := Condition("Weather unavailable", "fa-question-circle")

  /** The codes the table lists. */
  const KnownCodes: set<int> := {0, 1, 2, 3, 45, 48, 51, 61, 95}

  /** `getWeatherDescription(code)`: the table entry for a listed code, the
      fallback for any other. No listed entry uses the fallback's
      description or icon, so the fallback shows exactly the unlisted codes. */
  function Describe(code: int): (c: Condition)
    ensures c == Fallback <==> code !in KnownCodes
    ensures c.icon == Fallback.icon <==> code !in KnownCodes
    ensures c.description == Fallback.description <==> code !in KnownCodes
  {
    if code == 0 then Condition("Clear sky", "fa-sun")
    else if code == 1 then Condition("Mainly clear", "fa-cloud-sun")
    else if code == 2 then Condition("Partly cloudy", "fa-cloud-sun")
    else if code == 3 then Condition("Overcast", "fa-cloud")
    else if code == 45 then Condition("Fog", "fa-smog")
    else if code == 48 then Condition("Rime fog", "fa-smog")
    else if code == 51 then Condition("Light drizzle", "fa-cloud-rain")
    else if code == 61 then Condition("Slight rain", "fa-cloud-showers-heavy")
    else if code == 95 then Condition("Thunderstorm", "fa-cloud-bolt")
    else Fallback
  }

  /** The code a description names, reading the table backwards. */
  function CodeNamed(description: string): (r: Option<int>)
    ensures r.Some? ==> r.value in KnownCodes
  {
    if description == "Clear sky" then Some(0)
    else if description == "Mainly clear" then Some(1)
    else if description == "Partly cloudy" then Some(2)
    else if description == "Overcast" then Some(3)
    else if description == "Fog" then Some(45)
    else if description == "Rime fog" then Some(48)
    else if description == "Light drizzle" then Some(51)
    else if description == "Slight rain" then Some(61)
    else if description == "Thunderstorm" then Some(95)
    else None
  }

  /** Every listed code has its own description: the description of a
      listed code names that code, and the fallback names none. */
  lemma DescriptionsNameTheirCode(code: int)
    ensures code in KnownCodes ==> CodeNamed(Describe(code).description) == Some(code)
    ensures code !in KnownCodes ==> CodeNamed(Describe(code).description) == None
  {
  }

  /** What `displayWeather` ends with: the lookup either failed (no
      position, a network error, a non-success response, no current
      weather), or it gave a temperature — already rounded with
      `Math.round` — and a weather code, None when the response carries no
      integral code. */
  datatype Reading = Failed | Current(temperature: int, code: Option<int>)

  /** The icon and text of the readout. */
  datatype Readout = Readout(icon: string, text: string)

  const FailedReadout := Readout("fa-triangle-exclamation", "Weather N/A")

  /** A failed lookup shows the warning triangle, which no code maps to; a
      successful one shows the code's icon and the temperature in degrees
      Celsius, whose digits read back as the temperature. */
  function ShowReading(r: Reading): (out: Readout)
    ensures r.Failed? <==> out == FailedReadout
    ensures r.Current? ==>
              && out.icon == (if r.code.Some? then Describe(r.code.value).icon else Fallback.icon)
              && |out.text| >= 2 && out.text[|out.text| - 2..] == "°C"
              && ParseInt(out.text[..|out.text| - 2]) == Some(r.temperature)
  {
    match r
    case Failed => FailedReadout
    case Current(t, code) =>
      var text := IntToDecimal(t) + "°C";
      assert text[..|text| - 2] == IntToDecimal(t);
      ParseIntOfDecimal(t);
      var icon := match code case Some(c) => Describe(c).icon case None => Fallback.icon;
      Readout(icon, text)
  }
}
