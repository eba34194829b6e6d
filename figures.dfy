/**
 * The two figure callbacks. Each reads the prepared table and derives the
 * data series of one trace; the plotly styling around them is not modelled.
 */
module Figures {
  import opened Table
  import opened Preparation

  /** The data arguments of the `go.Choropleth` trace. */
  datatype Choropleth<V> = Choropleth(locations: seq<string>, z: seq<V>, text: seq<string>)
  {
    function Append(other: Choropleth<V>): Choropleth<V>
    {
      Choropleth(locations + other.locations, z + other.z, text + other.text)
    }
  }

  /** The data arguments of the `go.Scatter` trace. */
  datatype Scatter<V> = Scatter(x: seq<int>, y: seq<V>)

  /** The mask `df["Year"] == value`. */
  function AtYear<V>(value: int): Row<V> -> bool
  {
    (r: Row<V>) => r.year == value
  }

  /** The mask `df["Country"] == value`. */
  function OfCountry<V>(value: string): Row<V> -> bool
  {
    (r: Row<V>) => r.country == value
  }

  /** Some row of `df` for year `value` carries this country code, annual emissions and name. */
  ghost predicate HasYearRow<V>(df: seq<Row<V>>, value: int, code: string, annual: V, country: string)
  {
    exists r :: r in df && r.year == value && r.code == code && r.annual == annual && r.country == country
  }

  /** The map shows row `r`: some hover entry carries its code, annual emissions and name together. */
  ghost predicate ShowsRow<V>(fig: Choropleth<V>, r: Row<V>)
    requires |fig.locations| == |fig.z| == |fig.text|
  {
    exists k :: 0 <= k < |fig.text| && fig.locations[k] == r.code && fig.z[k] == r.annual && fig.text[k] == r.country
  }

  /**
   * `getFig(value)`: `locations`, `z` and `text` are the "Country Code",
   * "Annual_CO2_Emissions" and "Country" columns of `df.loc[df["Year"] == value]`,
   * each selected on its own.
   */
  function WorldMap<V>(df: seq<Row<V>>, value: int): (fig: Choropleth<V>)
    ensures |fig.locations| == |fig.z| == |fig.text| <= |df|
    ensures forall k :: 0 <= k < |fig.text| ==> HasYearRow(df, value, fig.locations[k], fig.z[k], fig.text[k])
  {
    var selected := Filter(df, AtYear(value));
    assert forall k :: 0 <= k < |selected| ==>
      HasYearRow(df, value, selected[k].code, selected[k].annual, selected[k].country);
    Choropleth(
      Column(selected, (r: Row<V>) => r.code),
      Column(selected, (r: Row<V>) => r.annual),
      Column(selected, (r: Row<V>) => r.country))
  }

  /** Conversely, every row of the selected year is shown on the map. */
  lemma {:induction false} WorldMapComplete<V>(df: seq<Row<V>>, value: int)
    ensures forall r :: r in df && r.year == value ==> ShowsRow(WorldMap(df, value), r)
  {
    var selected := Filter(df, AtYear(value));
    var fig := WorldMap(df, value);
    forall r | r in df && r.year == value ensures ShowsRow(fig, r) {
      var i :| 0 <= i < |df| && df[i] == r;
      assert AtYear(value)(df[i]);
      var k :| 0 <= k < |selected| && selected[k] == r;
      assert fig.locations[k] == r.code && fig.z[k] == r.annual && fig.text[k] == r.country;
    }
  }

  /** The map is built row by row: the rows of a longer table follow those of a shorter one, in order. */
  lemma WorldMapAppend<V>(a: seq<Row<V>>, b: seq<Row<V>>, value: int)
    ensures WorldMap(a + b, value) == WorldMap(a, value).Append(WorldMap(b, value))
  {
    FilterAppend(a, b, AtYear(value));
    var sa, sb := Filter(a, AtYear(value)), Filter(b, AtYear(value));
    ColumnAppend(sa, sb, (r: Row<V>) => r.code);
    ColumnAppend(sa, sb, (r: Row<V>) => r.annual);
    ColumnAppend(sa, sb, (r: Row<V>) => r.country);
  }

  /** A single row contributes exactly its code, emissions and name when its year is selected, else nothing. */
  lemma WorldMapSingle<V>(r: Row<V>, value: int)
    ensures WorldMap([r], value) ==
      if r.year == value then Choropleth([r.code], [r.annual], [r.country]) else Choropleth([], [], [])
  {
    assert [r][1..] == [];
  }

  /** The map has data exactly when some row has the selected year. */
  lemma WorldMapEmptyIff<V>(df: seq<Row<V>>, value: int)
    ensures WorldMap(df, value).text == [] <==> forall k :: 0 <= k < |df| ==> df[k].year != value
  {
    FilterEmpty(df, AtYear(value));
    if WorldMap(df, value).text == [] {
      forall k | 0 <= k < |df| ensures df[k].year != value {
        assert df[k] in df;
      }
    }
  }

  /** A year outside 1900..2017 finds no prepared row: an empty map, not an error. */
  lemma WorldMapOutsideRange<V>(merged: seq<RawRow<V>>, value: int)
    requires value < FirstYear || LastYear < value
    ensures WorldMap(Prepare(merged), value) == Choropleth([], [], [])
  {
    WorldMapEmptyIff(Prepare(merged), value);
  }

  /** The aggregate "World" never appears on the map of the prepared table. */
  lemma WorldMapHasNoWorld<V>(merged: seq<RawRow<V>>, value: int)
    ensures World !in WorldMap(Prepare(merged), value).text
  {
    var df := Prepare(merged);
    var fig := WorldMap(df, value);
    forall k | 0 <= k < |fig.text| ensures fig.text[k] != World {
      assert HasYearRow(df, value, fig.locations[k], fig.z[k], fig.text[k]);
    }
  }

  /** Some row of `df` for country `value` has per-capita emissions `perCapita`. */
  ghost predicate HasCountryValue<V>(df: seq<Row<V>>, value: string, perCapita: V)
  {
    exists r :: r in df && r.country == value && r.perCapita == perCapita
  }

  /** Some row of `df` for country `value` and year `year` has per-capita emissions `perCapita`. */
  ghost predicate HasCountryPoint<V>(df: seq<Row<V>>, value: string, year: int, perCapita: V)
  {
    exists r :: r in df && r.country == value && r.year == year && r.perCapita == perCapita
  }

  /**
   * `getFigq(value)` as written: `y` is the "Per_Capita_CO2_Emissions" column
   * of the rows of the selected country, but `x` is `list(df.Year)`, the year
   * of every row of the table.
   */
  function LineSeries<V>(df: seq<Row<V>>, value: string): (fig: Scatter<V>)
    ensures |fig.x| == |df| && |fig.y| <= |df|
    ensures forall k :: 0 <= k < |df| ==> fig.x[k] == df[k].year
    ensures forall k :: 0 <= k < |fig.y| ==> HasCountryValue(df, value, fig.y[k])
  {
    var selected := Filter(df, OfCountry(value));
    assert forall k :: 0 <= k < |selected| ==> HasCountryValue(df, value, selected[k].perCapita);
    Scatter(
      Column(df, (r: Row<V>) => r.year),
      Column(selected, (r: Row<V>) => r.perCapita))
  }

  /** The `y` series is built row by row, in table order. */
  lemma LineSeriesAppend<V>(a: seq<Row<V>>, b: seq<Row<V>>, value: string)
    ensures LineSeries(a + b, value).x == LineSeries(a, value).x + LineSeries(b, value).x
    ensures LineSeries(a + b, value).y == LineSeries(a, value).y + LineSeries(b, value).y
  {
    FilterAppend(a, b, OfCountry(value));
    ColumnAppend(a, b, (r: Row<V>) => r.year);
    ColumnAppend(Filter(a, OfCountry(value)), Filter(b, OfCountry(value)), (r: Row<V>) => r.perCapita);
  }

  /** `x` and `y` have the same length exactly when every row of the table is of the selected country. */
  lemma LineSeriesAlignedIff<V>(df: seq<Row<V>>, value: string)
    ensures |LineSeries(df, value).x| == |LineSeries(df, value).y| <==>
      forall k :: 0 <= k < |df| ==> df[k].country == value
  {
    FilterKeepsAll(df, OfCountry(value));
    if exists k :: 0 <= k < |df| && df[k].country != value {
      var k :| 0 <= k < |df| && df[k].country != value;
      FilterShorter(df, OfCountry(value), k);
    } else {
      forall x | x in df ensures OfCountry(value)(x) {
        var k :| 0 <= k < |df| && df[k] == x;
      }
    }
  }

  /** A country of the dropdown has data points; any other value gives an empty series, not an error. */
  lemma LineSeriesNonEmptyIff<V>(df: seq<Row<V>>, value: string)
    ensures |LineSeries(df, value).y| > 0 <==> value in CountryList(df)
  {
    CountryListSpec(df);
    FilterEmpty(df, OfCountry(value));
    if value in CountryList(df) {
      var k :| 0 <= k < |df| && df[k].country == value;
      assert df[k] in df;
    }
    if |LineSeries(df, value).y| > 0 {
      assert HasCountryValue(df, value, LineSeries(df, value).y[0]);
      var r :| r in df && r.country == value && r.perCapita == LineSeries(df, value).y[0];
      var k :| 0 <= k < |df| && df[k] == r;
    }
  }

  /**
   * The series `getFigq` evidently means to draw: the years and per-capita
   * emissions of the selected country's rows, pair by pair.
   */
  function CountrySeries<V>(df: seq<Row<V>>, value: string): (fig: Scatter<V>)
    ensures |fig.x| == |fig.y|
    ensures forall k :: 0 <= k < |fig.y| ==> HasCountryPoint(df, value, fig.x[k], fig.y[k])
  {
    var selected := Filter(df, OfCountry(value));
    assert forall k :: 0 <= k < |selected| ==> HasCountryPoint(df, value, selected[k].year, selected[k].perCapita);
    Scatter(
      Column(selected, (r: Row<V>) => r.year),
      Column(selected, (r: Row<V>) => r.perCapita))
  }

  /** The scatter has a point at `(year, perCapita)`. */
  ghost predicate HasPoint<V>(fig: Scatter<V>, year: int, perCapita: V)
    requires |fig.x| == |fig.y|
  {
    exists k :: 0 <= k < |fig.y| && fig.x[k] == year && fig.y[k] == perCapita
  }

  /** Conversely, every row of the selected country is a point of the corrected series. */
  lemma {:induction false} CountrySeriesComplete<V>(df: seq<Row<V>>, value: string)
    ensures forall r :: r in df && r.country == value ==> HasPoint(CountrySeries(df, value), r.year, r.perCapita)
  {
    var selected := Filter(df, OfCountry(value));
    var fig := CountrySeries(df, value);
    forall r | r in df && r.country == value ensures HasPoint(fig, r.year, r.perCapita) {
      var i :| 0 <= i < |df| && df[i] == r;
      assert OfCountry(value)(df[i]);
      var k :| 0 <= k < |selected| && selected[k] == r;
      assert fig.x[k] == r.year && fig.y[k] == r.perCapita;
    }
  }

  /** No two rows of country `value` share a year, as the dataset has one row per country and year. */
  predicate OneRowPerYear<V>(df: seq<Row<V>>, value: string)
  {
    forall i, j :: 0 <= i < j < |df| && df[i].country == value && df[j].country == value ==> df[i].year != df[j].year
  }

  lemma OneRowPerYearTail<V>(df: seq<Row<V>>, value: string)
    requires df != [] && OneRowPerYear(df, value)
    ensures OneRowPerYear(df[1..], value)
  {
    var tail := df[1..];
    forall i, j | 0 <= i < j < |tail| && tail[i].country == value && tail[j].country == value
      ensures tail[i].year != tail[j].year
    {
      assert tail[i] == df[i + 1] && tail[j] == df[j + 1];
    }
  }

  /** The first row's year does not come back among the later rows of its country. */
  lemma HeadYearNotRepeated<V>(df: seq<Row<V>>, value: string)
    requires df != [] && df[0].country == value && OneRowPerYear(df, value)
    ensures forall k :: 0 <= k < |Filter(df[1..], OfCountry(value))| ==>
      Filter(df[1..], OfCountry(value))[k].year != df[0].year
  {
    var rest := Filter(df[1..], OfCountry(value));
    forall k | 0 <= k < |rest| ensures rest[k].year != df[0].year {
      var m :| 0 <= m < |df[1..]| && df[1..][m] == rest[k];
      assert df[m + 1] == rest[k];
    }
  }

  /** The rows a country selection keeps from such a table have pairwise different years. */
  lemma {:induction false} SelectedYearsDistinct<V>(df: seq<Row<V>>, value: string)
    requires OneRowPerYear(df, value)
    ensures forall i, j :: 0 <= i < j < |Filter(df, OfCountry(value))| ==>
      Filter(df, OfCountry(value))[i].year != Filter(df, OfCountry(value))[j].year
  {
    if df != [] {
      OneRowPerYearTail(df, value);
      SelectedYearsDistinct(df[1..], value);
      if df[0].country == value {
        HeadYearNotRepeated(df, value);
        FilterCons(df, OfCountry(value));
        SelectedConsDistinct(df[0], Filter(df[1..], OfCountry(value)));
      } else {
        FilterCons(df, OfCountry(value));
      }
    }
  }

  /** Prefixing a row whose year is new to a list of rows with pairwise different years keeps them different. */
  lemma SelectedConsDistinct<V>(head: Row<V>, rest: seq<Row<V>>)
    requires forall i, j :: 0 <= i < j < |rest| ==> rest[i].year != rest[j].year
    requires forall k :: 0 <= k < |rest| ==> rest[k].year != head.year
    ensures forall i, j :: 0 <= i < j < |[head] + rest| ==> ([head] + rest)[i].year != ([head] + rest)[j].year
  {
    var sel := [head] + rest;
    forall i, j | 0 <= i < j < |sel| ensures sel[i].year != sel[j].year {
      assert sel[j] == rest[j - 1];
      if i > 0 {
        assert sel[i] == rest[i - 1];
      }
    }
  }

  /** On such a table each year appears at most once on the corrected series' `x` axis. */
  lemma CountrySeriesYearsDistinct<V>(df: seq<Row<V>>, value: string)
    requires OneRowPerYear(df, value)
    ensures forall i, j :: 0 <= i < j < |CountrySeries(df, value).x| ==>
      CountrySeries(df, value).x[i] != CountrySeries(df, value).x[j]
  {
    SelectedYearsDistinct(df, value);
  }

  /** The corrected series keeps the `y` values of the series as written. */
  lemma CountrySeriesKeepsValues<V>(df: seq<Row<V>>, value: string)
    ensures CountrySeries(df, value).y == LineSeries(df, value).y
    ensures |CountrySeries(df, value).x| == |LineSeries(df, value).y|
  {
  }

  /**
   * As written, the line for a country that is not first in the table pairs
   * its values with another country's years: here Togo's 1960 value is drawn
   * at 1950, Chad's year, while the corrected series draws it at 1960.
   */
  lemma LineSeriesMisplacesYears<V>(a: V, p: V, q: V)
    ensures var df := [Row("Chad", "TCD", 1950, a, p), Row("Togo", "TGO", 1960, a, q)];
      && LineSeries(df, "Togo") == Scatter([1950, 1960], [q])
      && CountrySeries(df, "Togo") == Scatter([1960], [q])
  {
    var df := [Row("Chad", "TCD", 1950, a, p), Row("Togo", "TGO", 1960, a, q)];
    assert df[1..][1..] == [];
    assert Filter(df, OfCountry("Togo")) == [df[1]];
  }
}
