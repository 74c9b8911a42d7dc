/**
 * `WeatherPlugin.get_weather`: a canned report for a city, picked at random
 * from four fixed templates. The pick is a non-deterministic choice.
 */
module WeatherPlugin {
  import opened Wrappers

  /** The condition and temperature part of each template, in the order the
      source lists them. */
  const Conditions: seq<string> := [
    "Sunny and 72\U{B0}F",
    "Partly cloudy and 68\U{B0}F",
    "Rainy and 61\U{B0}F",
    "Overcast and 65\U{B0}F"
  ]

  /** The template `i`, filled in with the city name. */
  function Report(i: nat, city: string): string
    requires i < |Conditions|
  {
    Conditions[i] + " in " + city
  }

  /** The four reports `get_weather(city)` chooses among. */
  function Options(city: string): (options: seq<string>)
    ensures |options| == |Conditions| == 4
    ensures forall i :: 0 <= i < 4 ==> options[i] == Report(i, city)
  {
    seq(4, i requires 0 <= i < 4 => Report(i, city))
  }

  predicate EndsWith(s: string, suffix: string) {
    |suffix| <= |s| && s[|s| - |suffix|..] == suffix
  }

  /** One of the four reports for `city`. */
  method GetWeather(city: string) returns (weather: string)
    ensures weather in Options(city)
    ensures EndsWith(weather, " in " + city)
  {
    var options := Options(city);
    var i :| 0 <= i < 4;
    weather := options[i];
    assert weather == Conditions[i] + (" in " + city);
  }

  /** The city a report is about, when the report follows one of the
      templates. */
  function CityOf(report: string): (city: Option<string>)
    ensures city.Some? ==> report in Options(city.value)
  {
    match TemplateOf(report, 0)
    case None => None
    case Some(i) =>
      var p := Conditions[i] + " in ";
      assert report == p + report[|p|..];
      assert report == Report(i, report[|p|..]);
      Some(report[|p|..])
  }

  /** The first template, from `i` on, that `report` starts with. */
  function TemplateOf(report: string, i: nat): (t: Option<nat>)
    ensures t.Some? ==> i <= t.value < |Conditions| && IsReportPrefix(t.value, report)
    ensures t.None? ==> forall j :: i <= j < |Conditions| ==> !IsReportPrefix(j, report)
    decreases |Conditions| - i
  {
    if i >= |Conditions| then None
    else if IsReportPrefix(i, report) then Some(i)
    else TemplateOf(report, i + 1)
  }

  predicate IsReportPrefix(i: nat, report: string)
    requires i < |Conditions|
  {
    var p := Conditions[i] + " in ";
    |p| <= |report| && report[..|p|] == p
  }

  /** The four reports differ from each other: each template starts with a
      different letter. */
  lemma OptionsDistinct(city: string)
    ensures forall i, j :: 0 <= i < j < 4 ==> Options(city)[i] != Options(city)[j]
  {
    var o := Options(city);
    assert o[0][0] == 'S' && o[1][0] == 'P' && o[2][0] == 'R' && o[3][0] == 'O';
  }

  /** Every report names its city: the city can be read back from it, and no
      report belongs to two different cities. */
  lemma ReportNamesCity(city: string, report: string)
    requires report in Options(city)
    ensures CityOf(report) == Some(city)
  {
    var i :| 0 <= i < 4 && report == Report(i, city);
    assert IsReportPrefix(i, report);
    var t := TemplateOf(report, 0);
    assert t.Some?;
    var j := t.value;
    var p := Conditions[j] + " in ";
    assert report[..|p|][0] == p[0];
    assert i == j;
  }
}
