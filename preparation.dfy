/**
 * Dataset preparation: the module-level script that turns the merged frame
 * into the prepared table and derives the country list, the year labels and
 * the slider tick marks from it.
 */
module Preparation {
  import opened Wrappers
  import opened Table
  import opened StringOrder
  import opened Decimal

  /** The inclusive bounds of `Series.between(1900, 2017)`. */
  const FirstYear: int := 1900
  const LastYear: int := 2017

  /** The aggregate entity that is dropped from the table. */
  const World: string := "World"

  /** The `columns=` dictionary passed to `DataFrame.rename`. */
  const Renames: map<string, string> := map[
    "Entity" := "Country",
    "Code" := "Country Code",
    "Annual CO\U{2082} emissions (tonnes )" := "Annual_CO2_Emissions",
    "Per capita CO\U{2082} emissions (tonnes per capita)" := "Per_Capita_CO2_Emissions"
  ]

  // ---------------------------------------------------------------- the table

  predicate InYearRange<V>(r: RawRow<V>)
  {
    FirstYear <= r.year <= LastYear
  }

  /** `df[df["Year"].between(1900, 2017)]`. */
  function KeepYears<V>(t: seq<RawRow<V>>): (r: seq<RawRow<V>>)
    ensures forall k :: 0 <= k < |r| ==> FirstYear <= r[k].year <= LastYear && r[k] in t
    ensures forall k :: 0 <= k < |t| && FirstYear <= t[k].year <= LastYear ==> t[k] in r
  {
    Filter(t, InYearRange)
  }

  /** `rename(columns=...)` on the header: labels with an entry are replaced, the rest kept. */
  function RenameColumns(columns: seq<string>, renames: map<string, string>): (r: seq<string>)
    ensures |r| == |columns|
  {
    seq(|columns|, k requires 0 <= k < |columns| =>
      if columns[k] in renames then renames[columns[k]] else columns[k])
  }

  /** The rename turns the raw header into the canonical one, field by field; "Year" is kept. */
  lemma RenamesRawHeader()
    ensures RenameColumns(RawColumns, Renames) == CanonicalColumns
    ensures RawColumns[2] == CanonicalColumns[2] == "Year"
  {
  }

  /**
   * Side fact about the rename function, not about a step of the script
   * (which renames once): when no new label is itself renamed, renaming
   * twice is renaming once.
   */
  lemma RenameColumnsIdempotent(columns: seq<string>, renames: map<string, string>)
    requires forall c :: c in renames ==> renames[c] !in renames
    ensures RenameColumns(RenameColumns(columns, renames), renames) == RenameColumns(columns, renames)
  {
    var once := RenameColumns(columns, renames);
    var twice := RenameColumns(once, renames);
    forall k | 0 <= k < |columns| ensures twice[k] == once[k] {
      if columns[k] in renames {
        assert once[k] == renames[columns[k]];
      }
    }
  }

  /** Side fact: none of the canonical labels is a raw label, so the canonical header is a fixed point of the rename. */
  lemma RenamesSettled()
    ensures forall c :: c in Renames ==> Renames[c] !in Renames
    ensures RenameColumns(CanonicalColumns, Renames) == CanonicalColumns
  {
    RenamesRawHeader();
    RenameColumnsIdempotent(RawColumns, Renames);
  }

  /** A row after the rename: the same values under the canonical column names. */
  function Renamed<V>(r: RawRow<V>): Row<V>
  {
    Row(r.entity, r.code, r.year, r.annualTonnes, r.perCapitaTonnes)
  }

  /** The inverse relabelling, used to state that the rename loses nothing. */
  function Unrenamed<V>(r: Row<V>): RawRow<V>
  {
    RawRow(r.country, r.code, r.year, r.annual, r.perCapita)
  }

  /** `df.rename(..., inplace=True)`: every row relabelled, none added or dropped. */
  function RenameRows<V>(t: seq<RawRow<V>>): (r: seq<Row<V>>)
    ensures |r| == |t|
  {
    Column(t, Renamed)
  }

  /** Renaming is lossless: undoing it gives back the table, year and values unchanged. */
  lemma RenameRowsLossless<V>(t: seq<RawRow<V>>)
    ensures Column(RenameRows(t), Unrenamed) == t
    ensures forall k :: 0 <= k < |t| ==> RenameRows(t)[k].year == t[k].year
  {
    var back := Column(RenameRows(t), Unrenamed);
    assert |back| == |t|;
    forall k | 0 <= k < |t| ensures back[k] == t[k] {
      assert back[k] == Unrenamed(Renamed(t[k]));
    }
  }

  predicate NotWorld<V>(r: Row<V>)
  {
    r.country != World
  }

  /** `df[df.Country != "World"]`. */
  function DropWorld<V>(t: seq<Row<V>>): (r: seq<Row<V>>)
    ensures forall k :: 0 <= k < |r| ==> r[k].country != World && r[k] in t
    ensures forall k :: 0 <= k < |t| && t[k].country != World ==> t[k] in r
  {
    Filter(t, NotWorld)
  }

  /** The prepared table: lines 22 to 35 of the script, with the merge already done. */
  function Prepare<V>(merged: seq<RawRow<V>>): (df: seq<Row<V>>)
    ensures forall k :: 0 <= k < |df| ==> FirstYear <= df[k].year <= LastYear && df[k].country != World
  {
    var kept := KeepYears(merged);
    var renamed := RenameRows(kept);
    assert forall k :: 0 <= k < |renamed| ==> FirstYear <= renamed[k].year <= LastYear by {
      forall k | 0 <= k < |renamed| ensures FirstYear <= renamed[k].year <= LastYear {
        assert renamed[k] == Renamed(kept[k]);
      }
    }
    DropWorld(renamed)
  }

  /** Preparation works row by row: it keeps the table order and drops nothing else. */
  lemma PrepareAppend<V>(a: seq<RawRow<V>>, b: seq<RawRow<V>>)
    ensures Prepare(a + b) == Prepare(a) + Prepare(b)
  {
    FilterAppend(a, b, InYearRange);
    ColumnAppend(KeepYears(a), KeepYears(b), Renamed);
    FilterAppend(RenameRows(KeepYears(a)), RenameRows(KeepYears(b)), NotWorld);
  }

  /** A single merged row survives, renamed, exactly when its year is in range and it is not "World". */
  lemma PrepareSingle<V>(x: RawRow<V>)
    ensures Prepare([x]) == if FirstYear <= x.year <= LastYear && x.entity != World then [Renamed(x)] else []
  {
    assert [x][1..] == [];
    if InYearRange(x) {
      assert KeepYears([x]) == [x];
      assert RenameRows([x]) == [Renamed(x)];
      assert [Renamed(x)][1..] == [];
    }
  }

  /** A row is in the prepared table exactly when it is a kept merged row, renamed. */
  lemma PrepareMembership<V>(merged: seq<RawRow<V>>, row: Row<V>)
    ensures row in Prepare(merged) <==>
      exists x :: x in merged && FirstYear <= x.year <= LastYear && x.entity != World && Renamed(x) == row
  {
    var kept := KeepYears(merged);
    var renamed := RenameRows(kept);
    if row in Prepare(merged) {
      assert row in renamed;
      var k :| 0 <= k < |renamed| && renamed[k] == row;
      assert Renamed(kept[k]) == row;
      assert kept[k] in merged;
    }
    if exists x :: x in merged && FirstYear <= x.year <= LastYear && x.entity != World && Renamed(x) == row {
      var x :| x in merged && FirstYear <= x.year <= LastYear && x.entity != World && Renamed(x) == row;
      var i :| 0 <= i < |merged| && merged[i] == x;
      assert x in kept;
      var k :| 0 <= k < |kept| && kept[k] == x;
      assert renamed[k] == row;
    }
  }

  /** A single in-range merged row for Chad comes out as one row under the canonical names. */
  lemma ChadRowScenario<V>(annual: V, perCapita: V)
    ensures Prepare([RawRow("Chad", "TCD", 1950, annual, perCapita)]) == [Row("Chad", "TCD", 1950, annual, perCapita)]
  {
    PrepareSingle(RawRow("Chad", "TCD", 1950, annual, perCapita));
  }

  // ----------------------------------------------------------- derived lists

  function CountryColumn<V>(df: seq<Row<V>>): seq<string>
  {
    Column(df, (r: Row<V>) => r.country)
  }

  /**
   * `list(df["Country"].value_counts().sort_index().index)`: ascending, and
   * exactly the countries that occur in the table.
   */
  function CountryList<V>(df: seq<Row<V>>): (r: seq<string>)
    ensures StrictlyAscending(r)
    ensures forall c :: c in r <==> exists k :: 0 <= k < |df| && df[k].country == c
  {
    var names := CountryColumn(df);
    assert forall c :: c in names <==> exists k :: 0 <= k < |df| && df[k].country == c by {
      forall c ensures c in names <==> exists k :: 0 <= k < |df| && df[k].country == c {
        if c in names {
          var k :| 0 <= k < |names| && names[k] == c;
          assert df[k].country == c;
        }
        if exists k :: 0 <= k < |df| && df[k].country == c {
          var k :| 0 <= k < |df| && df[k].country == c;
          assert names[k] == c;
        }
      }
    }
    SortedUnique(names)
  }

  /** The country list has no duplicates, and its order and contents are those of its contract. */
  lemma CountryListSpec<V>(df: seq<Row<V>>)
    ensures StrictlyAscending(CountryList(df))
    ensures forall i, j :: 0 <= i < j < |CountryList(df)| ==> CountryList(df)[i] != CountryList(df)[j]
    ensures forall c :: c in CountryList(df) <==> exists k :: 0 <= k < |df| && df[k].country == c
  {
    AscendingHasNoDuplicates(CountryList(df));
  }

  /** Any sorted, duplicate-free list of exactly the table's countries is the country list. */
  lemma CountryListIsCanonical<V>(df: seq<Row<V>>, names: seq<string>)
    requires StrictlyAscending(names)
    requires forall c :: c in names <==> exists k :: 0 <= k < |df| && df[k].country == c
    ensures names == CountryList(df)
  {
    CountryListSpec(df);
    AscendingIsUnique(names, CountryList(df));
  }

  /** The aggregate "World" never reaches the country dropdown. */
  lemma CountryListHasNoWorld<V>(merged: seq<RawRow<V>>)
    ensures World !in CountryList(Prepare(merged))
  {
    CountryListSpec(Prepare(merged));
  }

  /** A table of one row lists exactly that row's country. */
  lemma CountryListOfOne<V>(df: seq<Row<V>>)
    requires |df| == 1
    ensures CountryList(df) == [df[0].country]
  {
    var names := [df[0].country];
    forall name ensures name in names <==> exists k :: 0 <= k < |df| && df[k].country == name {
      if name == df[0].country {
        assert df[0].country == name;
      }
    }
    CountryListIsCanonical(df, names);
  }

  /** A table of a "World" row and an in-range "Chad" row lists exactly `["Chad"]`. */
  lemma WorldAndChadScenario<V>(w: RawRow<V>, c: RawRow<V>)
    requires w.entity == World && c.entity == "Chad" && FirstYear <= c.year <= LastYear
    ensures CountryList(Prepare([w, c])) == ["Chad"]
  {
    assert [w, c] == [w] + [c];
    PrepareAppend([w], [c]);
    PrepareSingle(w);
    PrepareSingle(c);
    CountryListOfOne(Prepare([w, c]));
  }

  /** `range(lo, hi)`. */
  function Range(lo: nat, hi: nat): (r: seq<nat>)
  {
    seq(if lo <= hi then hi - lo else 0, i requires 0 <= i < (if lo <= hi then hi - lo else 0) => lo + i)
  }

  /** `[str(y) for y in years]`. */
  function YearLabels(years: seq<nat>): seq<string>
  {
    seq(|years|, t requires 0 <= t < |years| => DecimalString(years[t]))
  }

  /** `date_list = [str(each_year) for each_year in range(1900, 2018)]`. */
  function DateList(): (r: seq<string>)
    ensures |r| == 118
    ensures forall i :: 0 <= i < |r| ==> r[i] == DecimalString(FirstYear + i)
  {
    YearLabels(Range(FirstYear, LastYear + 1))
  }

  /** `int` applied to each label in turn; `None` as soon as one raises. */
  function ParseAll(labels: seq<string>): (r: Option<seq<int>>)
    ensures r.Some? <==> forall k :: 0 <= k < |labels| ==> ParseDecimal(labels[k]).Some?
    ensures r.Some? ==> |r.value| == |labels|
    ensures r.Some? ==> forall k :: 0 <= k < |labels| ==> ParseDecimal(labels[k]) == Some(r.value[k])
  {
    if labels == [] then Some([])
    else match (ParseDecimal(labels[0]), ParseAll(labels[1..]))
      case (Some(key), Some(rest)) => Some([key] + rest)
      case _ => None
  }

  /** `int` reads the label of every year back as that year. */
  lemma {:induction false} ParseYearLabels(years: seq<nat>)
    ensures ParseAll(YearLabels(years)) == Some(years)
  {
    var labels := YearLabels(years);
    forall t | 0 <= t < |years| ensures ParseDecimal(labels[t]) == Some(years[t]) {
      ParseDecimalString(years[t]);
    }
    assert ParseAll(labels).value == years;
  }

  /** The year labels are 118 strings that read back, in order, as the years 1900 to 2017. */
  lemma DateListSpec()
    ensures |DateList()| == 118
    ensures forall i :: 0 <= i < |DateList()| ==> DateList()[i] == DecimalString(1900 + i)
    ensures forall i :: 0 <= i < |DateList()| ==> ParseDecimal(DateList()[i]) == Some(1900 + i)
  {
    forall i | 0 <= i < |DateList()| ensures ParseDecimal(DateList()[i]) == Some(1900 + i) {
      assert DateList()[i] == DecimalString(1900 + i);
      ParseDecimalString(1900 + i);
    }
  }

  /** `int(date_list[0])` and `int(date_list[-1])`, the slider bounds. */
  lemma SliderBounds()
    ensures ParseDecimal(DateList()[0]) == Some(1900)
    ensures ParseDecimal(DateList()[|DateList()| - 1]) == Some(2017)
  {
    DateListSpec();
  }

  /** The indices of `range(0, n, 10)`. */
  function MarkIndices(n: nat): (r: seq<nat>)
    ensures forall k :: 0 <= k < |r| ==> r[k] < n
  {
    seq((n + 9) / 10, k requires 0 <= k < (n + 9) / 10 => 10 * k)
  }

  /** The labels `date_list[i]` at the mark indices `i`. */
  function MarkLabels(dl: seq<string>): seq<string>
  {
    var indices := MarkIndices(|dl|);
    seq(|indices|, k requires 0 <= k < |indices| => dl[indices[k]])
  }

  /**
   * A dict comprehension: the pairs are entered in order, a later pair
   * overwriting an earlier one with the same key.
   */
  function DictOf(keys: seq<int>, values: seq<string>): (m: map<int, string>)
    requires |keys| == |values|
    ensures forall x :: x in m <==> x in keys
  {
    if keys == [] then map[]
    else
      var n := |keys| - 1;
      assert keys == keys[..n] + [keys[n]];
      DictOf(keys[..n], values[..n])[keys[n] := values[n]]
  }

  /** With no key repeated, every key of the comprehension maps to its own value. */
  lemma {:induction false} DictOfDistinct(keys: seq<int>, values: seq<string>)
    requires |keys| == |values|
    requires forall i, j :: 0 <= i < j < |keys| ==> keys[i] != keys[j]
    ensures forall k :: 0 <= k < |keys| ==> DictOf(keys, values)[keys[k]] == values[k]
  {
    if keys != [] {
      var n := |keys| - 1;
      var ks, vs := keys[..n], values[..n];
      DictOfDistinct(ks, vs);
      var m := DictOf(ks, vs);
      assert DictOf(keys, values) == m[keys[n] := values[n]];
      forall k | 0 <= k < |keys| ensures DictOf(keys, values)[keys[k]] == values[k] {
        if k < n {
          assert ks[k] == keys[k] && vs[k] == values[k];
          assert m[keys[k]] == values[k];
        }
      }
    }
  }

  /** Every entry of the comprehension is some pair it iterated over: a key with a value given for it. */
  lemma {:induction false} DictOfFrom(keys: seq<int>, values: seq<string>)
    requires |keys| == |values|
    ensures forall x :: x in DictOf(keys, values) ==>
      exists j :: 0 <= j < |keys| && keys[j] == x && DictOf(keys, values)[x] == values[j]
  {
    if keys != [] {
      var n := |keys| - 1;
      var ks, vs := keys[..n], values[..n];
      DictOfFrom(ks, vs);
      var m := DictOf(ks, vs);
      assert DictOf(keys, values) == m[keys[n] := values[n]];
      forall x | x in DictOf(keys, values)
        ensures exists j :: 0 <= j < |keys| && keys[j] == x && DictOf(keys, values)[x] == values[j]
      {
        if x != keys[n] {
          var j :| 0 <= j < |ks| && ks[j] == x && m[x] == vs[j];
          assert keys[j] == x && values[j] == vs[j];
        }
      }
    }
  }

  /** `{int(date_list[i]): date_list[i] for i in range(0, len(date_list), 10)}`; `None` where `int` raises. */
  function DateMarks(dl: seq<string>): (r: Option<map<int, string>>)
    ensures r.Some? <==> forall k :: 0 <= k < |MarkLabels(dl)| ==> ParseDecimal(MarkLabels(dl)[k]).Some?
    ensures r.Some? ==> forall key :: key in r.value ==> ParseDecimal(r.value[key]) == Some(key)
  {
    var labels := MarkLabels(dl);
    match ParseAll(labels)
    case None => None
    case Some(keys) =>
      DictOfFrom(keys, labels);
      Some(DictOf(keys, labels))
  }

  /** The years that get a tick mark: every tenth year from 1900. */
  function MarkYears(): seq<nat>
  {
    seq(12, t requires 0 <= t < 12 => FirstYear + 10 * t)
  }

  lemma MarkYearsKeys()
    ensures forall i, j :: 0 <= i < j < |MarkYears()| ==> MarkYears()[i] != MarkYears()[j]
    ensures forall t :: t in MarkYears() ==> FirstYear <= t <= LastYear
    ensures (set t | t in MarkYears()) == {1900, 1910, 1920, 1930, 1940, 1950, 1960, 1970, 1980, 1990, 2000, 2010}
  {
    var years := MarkYears();
    assert years[0] == 1900 && years[1] == 1910 && years[2] == 1920 && years[3] == 1930;
    assert years[4] == 1940 && years[5] == 1950 && years[6] == 1960 && years[7] == 1970;
    assert years[8] == 1980 && years[9] == 1990 && years[10] == 2000 && years[11] == 2010;
  }

  /** The labels at the mark indices of `date_list` are those of the years 1900, 1910, ..., 2010. */
  lemma DateListMarkLabels()
    ensures MarkLabels(DateList()) == YearLabels(MarkYears())
  {
  }

  /** Helper: a comprehension over years has exactly those years as keys. */
  lemma DictOfYearLabelsKeys(years: seq<nat>, m: map<int, string>)
    requires m == DictOf(years, YearLabels(years))
    ensures m.Keys == set t | t in years
  {
  }

  /** A comprehension over distinct years, each with its own label, maps every year to its label. */
  lemma DictOfYearLabelsValues(years: seq<nat>, m: map<int, string>)
    requires forall i, j :: 0 <= i < j < |years| ==> years[i] != years[j]
    requires m == DictOf(years, YearLabels(years))
    ensures forall key :: key in m ==> key >= 0 && m[key] == DecimalString(key)
  {
    var labels := YearLabels(years);
    DictOfDistinct(years, labels);
    forall key | key in m ensures key >= 0 && m[key] == DecimalString(key) {
      var t :| 0 <= t < |years| && years[t] == key;
      assert m[years[t]] == labels[t];
    }
  }

  lemma DateMarksAreDict()
    ensures DateMarks(DateList()) == Some(DictOf(MarkYears(), YearLabels(MarkYears())))
  {
    DateListMarkLabels();
    ParseYearLabels(MarkYears());
  }

  /** The comprehension over the mark years has exactly the twelve keys 1900, 1910, ..., 2010. */
  lemma MarksOfYearsKeys(m: map<int, string>)
    requires m == DictOf(MarkYears(), YearLabels(MarkYears()))
    ensures m.Keys == {1900, 1910, 1920, 1930, 1940, 1950, 1960, 1970, 1980, 1990, 2000, 2010}
  {
    MarkYearsKeys();
    DictOfYearLabelsKeys(MarkYears(), m);
  }

  /** Every key of that comprehension lies within the slider bounds. */
  lemma MarksOfYearsInRange(m: map<int, string>)
    requires m == DictOf(MarkYears(), YearLabels(MarkYears()))
    ensures forall key :: key in m ==> FirstYear <= key <= LastYear
  {
    MarkYearsKeys();
    DictOfYearLabelsKeys(MarkYears(), m);
  }

  /** Every key of that comprehension is labelled with its own decimal string. */
  lemma MarksOfYearsLabels(m: map<int, string>)
    requires m == DictOf(MarkYears(), YearLabels(MarkYears()))
    ensures forall key :: key in m ==> m[key] == DecimalString(key)
  {
    MarkYearsKeys();
    DictOfYearLabelsValues(MarkYears(), m);
  }

  /**
   * The tick marks exist, have exactly the twelve keys 1900, 1910, ..., 2010,
   * each labelled with its own decimal string, all within the slider bounds.
   */
  lemma DateMarksSpec()
    ensures DateMarks(DateList()).Some?
    ensures DateMarks(DateList()).value.Keys == {1900, 1910, 1920, 1930, 1940, 1950, 1960, 1970, 1980, 1990, 2000, 2010}
    ensures forall key :: key in DateMarks(DateList()).value ==> DateMarks(DateList()).value[key] == DecimalString(key)
    ensures forall key :: key in DateMarks(DateList()).value ==> FirstYear <= key <= LastYear
  {
    DateMarksAreDict();
    MarksOfYearsKeys(DateMarks(DateList()).value);
    MarksOfYearsInRange(DateMarks(DateList()).value);
    MarksOfYearsLabels(DateMarks(DateList()).value);
  }

  // ------------------------------------------------------------ the script

  /**
   * The module-level script from the merged frame on: `df` is rebound by the
   * year filter, relabelled by the rename and rebound again by the "World"
   * exclusion; the country list, the year labels and the tick marks follow.
   */
  method PrepareDataset<V>(merged: seq<RawRow<V>>)
    returns (df: seq<Row<V>>, countryList: seq<string>, dateList: seq<string>, dateMark: map<int, string>)
    ensures df == Prepare(merged)
    ensures forall k :: 0 <= k < |df| ==> FirstYear <= df[k].year <= LastYear && df[k].country != World
    ensures countryList == CountryList(df)
    ensures StrictlyAscending(countryList)
    ensures forall c :: c in countryList <==> exists k :: 0 <= k < |df| && df[k].country == c
    ensures dateList == DateList()
    ensures |dateList| == 118
    ensures forall i :: 0 <= i < |dateList| ==> dateList[i] == DecimalString(1900 + i)
    ensures forall i :: 0 <= i < |dateList| ==> ParseDecimal(dateList[i]) == Some(1900 + i)
    ensures Some(dateMark) == DateMarks(dateList)
    ensures dateMark.Keys == {1900, 1910, 1920, 1930, 1940, 1950, 1960, 1970, 1980, 1990, 2000, 2010}
    ensures forall key :: key in dateMark ==> dateMark[key] == DecimalString(key)
  {
    var rows := KeepYears(merged);
    df := RenameRows(rows);
    df := DropWorld(df);
    countryList := CountryList(df);
    CountryListSpec(df);
    dateList := DateList();
    DateListSpec();
    DateMarksSpec();
    dateMark := DateMarks(dateList).value;
  }
}
