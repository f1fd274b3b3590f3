/** `fit_and_forecast_arima` of the prediction page: the series of one
    country and disaster type, handed to an ARIMA(1,1,1) fit, with a flat
    zero forecast when the fit raises `ValueError`. */
module Forecast {
  import opened Outcomes
  import opened Table

  /** Number of years forecast, `forecast(steps=5)`. */
  const Horizon: nat := 5

  /** One forecast value at a calendar year. */
  datatype Point = Point(year: int, value: real)

  /** The values of one forecast, one per forecast year. */
  type Values = v: seq<real> | |v| == Horizon witness [0.0, 0.0, 0.0, 0.0, 0.0]

  /** The flat forecast `[0] * 5` the page falls back to. */
  const ZeroForecast: Values := [0.0, 0.0, 0.0, 0.0, 0.0]

  /** What fitting the model to a series can end in: the five forecast
      values, the `ValueError` the page catches, or any other exception. */
  datatype Fit = Fitted(values: Values) | FitValueError | FitRaised(exception: string)

  /** An exception the page does not catch. */
  datatype ForecastError = Uncaught(exception: string)

  /** `data[(data['Country'] == c) & (data['Indicator'] == i)][years].T`:
      one entry per year column, holding that year's count from every
      matching row. */
  function Series(t: Table, country: string, indicator: string): (s: seq<seq<nat>>)
    ensures |s| == NumYears
    ensures forall y :: 0 <= y < NumYears ==>
      |s[y]| == |Select(t, And(CountryIs(country), IndicatorIs(indicator)))|
  {
    var rows := Select(t, And(CountryIs(country), IndicatorIs(indicator)));
    seq(NumYears, (y: int) requires 0 <= y < NumYears => seq(|rows|, (j: int) requires 0 <= j < |rows| => rows[j].years[y]))
  }

  /** The transposed frame keeps every matching row as one column: reading
      column `j` back year by year gives that row's counts. */
  lemma SeriesColumns(t: Table, country: string, indicator: string, j: nat)
    requires j < |Select(t, And(CountryIs(country), IndicatorIs(indicator)))|
    ensures forall y :: 0 <= y < NumYears ==> j < |Series(t, country, indicator)[y]|
    ensures seq(NumYears, (y: int) requires 0 <= y < NumYears => Series(t, country, indicator)[y][j])
         == Select(t, And(CountryIs(country), IndicatorIs(indicator)))[j].years
  {
  }

  /** A country without rows of the type gives a series with no columns. */
  lemma SeriesAbsent(t: Table, country: string, indicator: string)
    requires forall r :: r in t ==> r.country != country || r.indicator != indicator
    ensures forall y :: 0 <= y < NumYears ==> Series(t, country, indicator)[y] == []
  {
    var s := And(CountryIs(country), IndicatorIs(indicator));
    forall r | r in t
      ensures !Selects(s, r)
    {
      assert Selects(s, r) == (Matches(CountryIs(country), r.country, r.indicator) && Matches(IndicatorIs(indicator), r.country, r.indicator));
    }
    SelectNone(t, s);
  }

  /** Values placed on consecutive yearly dates from `start`, as a forecast
      on a yearly date index, or `date_range(start, periods=5, freq='AS')`,
      places them. */
  function Dated(start: int, values: seq<real>): (ps: seq<Point>)
    ensures |ps| == |values|
    ensures forall k :: 0 <= k < |values| ==> ps[k] == Point(start + k, values[k])
    decreases values
  {
    if values == [] then [] else [Point(start, values[0])] + Dated(start + 1, values[1..])
  }

  /** The frame's index is built from the year columns, so its last entry is
      always the last year column, whatever rows were selected. */
  function LastIndexYear(s: seq<seq<nat>>): (year: int)
    requires |s| == NumYears
    ensures year == LastYear
  {
    YearOf(|s| - 1)
  }

  /** The whole function: the fit's five values dated on the five years after
      the series when it succeeds, five zeros on the same years when it raises
      `ValueError`, and any other exception passed on to the caller. */
  function FitAndForecast(t: Table, country: string, indicator: string, arima: seq<seq<nat>> -> Fit): (r: Result<seq<Point>, ForecastError>)
    ensures r.Err? <==> arima(Series(t, country, indicator)).FitRaised?
    ensures r.Err? ==> r.error == Uncaught(arima(Series(t, country, indicator)).exception)
    ensures r.Ok? ==>
      |r.value| == Horizon && forall k :: 0 <= k < Horizon ==> r.value[k].year == LastYear + 1 + k
    ensures arima(Series(t, country, indicator)).Fitted? ==>
      r.Ok? && forall k :: 0 <= k < Horizon ==> r.value[k].value == arima(Series(t, country, indicator)).values[k]
    ensures arima(Series(t, country, indicator)) == FitValueError ==>
      r.Ok? && forall k :: 0 <= k < Horizon ==> r.value[k].value == 0.0
  {
    var s := Series(t, country, indicator);
    match arima(s)
    case Fitted(values) => Ok(Dated(LastIndexYear(s) + 1, values))
    case FitValueError => Ok(Dated(LastIndexYear(s) + 1, ZeroForecast))
    case FitRaised(e) => Err(Uncaught(e))
  }

  /** The fallback does not depend on the data: whenever the fit raises
      `ValueError`, every country and type gets the same forecast, for
      2022 to 2026. */
  lemma FallbackIndependentOfData(t: Table, c: string, i: string, arima: seq<seq<nat>> -> Fit,
                                  t': Table, c': string, i': string, arima': seq<seq<nat>> -> Fit)
    requires arima(Series(t, c, i)) == FitValueError
    requires arima'(Series(t', c', i')) == FitValueError
    ensures FitAndForecast(t, c, i, arima) == FitAndForecast(t', c', i', arima')
    ensures FitAndForecast(t, c, i, arima).value[0].year == 2022
    ensures FitAndForecast(t, c, i, arima).value[Horizon - 1].year == 2026
  {
    var r, r' := FitAndForecast(t, c, i, arima).value, FitAndForecast(t', c', i', arima').value;
    assert |r| == |r'|;
    assert forall k :: 0 <= k < |r| ==> r[k] == r'[k];
  }
}
