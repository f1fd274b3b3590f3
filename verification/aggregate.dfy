/** `groupby(...).sum()` and the filters around it: the per-indicator
    distribution of one year, the year's total occurrences, the per-country
    totals of one disaster type and the world map of "TOTAL" rows. */
module Aggregate {
  import opened Outcomes
  import opened Distinct
  import opened Table

  /** The error pandas raises for a year with no column. */
  datatype TableError = MissingColumn(year: int)

  /** The column a `groupby` uses as its key. */
  datatype Key = ByIndicator | ByCountry

  function KeyOf(r: Record, k: Key): string {
    match k
    case ByIndicator => r.indicator
    case ByCountry => r.country
  }

  /** The mask selecting one group. */
  function KeyIs(k: Key, name: string): (s: Selector)
    ensures forall r :: Selects(s, r) <==> KeyOf(r, k) == name
  {
    match k
    case ByIndicator => IndicatorIs(name)
    case ByCountry => CountryIs(name)
  }

  /** The key column, `df[key]`. */
  function KeyColumn(t: Table, k: Key): (ks: seq<string>)
    ensures |ks| == |t|
  {
    if t == [] then [] else [KeyOf(t[0], k)] + KeyColumn(t[1..], k)
  }

  /** Entry `i` of the key column is the key of row `i`. */
  lemma {:induction false} KeyColumnIndex(t: Table, k: Key, i: nat)
    requires i < |t|
    ensures KeyColumn(t, k)[i] == KeyOf(t[i], k)
  {
    if i > 0 {
      KeyColumnIndex(t[1..], k, i - 1);
    }
  }

  /** A value is in the key column exactly when some row index carries it. */
  lemma {:induction false} KeyColumnHas(t: Table, k: Key, name: string)
    ensures name in KeyColumn(t, k) <==> exists i :: 0 <= i < |t| && KeyOf(t[i], k) == name
  {
    if t != [] {
      KeyColumnHas(t[1..], k, name);
      if exists i :: 0 <= i < |t| && KeyOf(t[i], k) == name {
        var i :| 0 <= i < |t| && KeyOf(t[i], k) == name;
        if i > 0 {
          assert t[1..][i - 1] == t[i];
        }
      }
    }
  }

  /** The key column of the selected rows holds the keys of the rows the
      mask keeps. */
  lemma {:induction false} KeyColumnSelect(t: Table, k: Key, s: Selector, name: string)
    ensures name in KeyColumn(Select(t, s), k) <==> exists i :: 0 <= i < |t| && Selects(s, t[i]) && KeyOf(t[i], k) == name
  {
    if t != [] {
      KeyColumnSelect(t[1..], k, s, name);
      if exists i :: 0 <= i < |t| && Selects(s, t[i]) && KeyOf(t[i], k) == name {
        var i :| 0 <= i < |t| && Selects(s, t[i]) && KeyOf(t[i], k) == name;
        if i > 0 {
          assert t[1..][i - 1] == t[i];
        }
      }
    }
  }

  /** `df[key].unique()`: the distinct keys in first-appearance order. */
  function Groups(t: Table, k: Key): (gs: seq<string>)
    ensures NoDuplicates(gs)
    ensures forall name :: name in gs <==> name in KeyColumn(t, k)
  {
    Unique(KeyColumn(t, k))
  }

  /** One row of `groupby(key)[measure].sum()`: the row's measure is added
      to the running sum of its key, which starts at 0. */
  function AddRow(g: map<string, nat>, r: Record, k: Key, m: Measure): map<string, nat> {
    var key := KeyOf(r, k);
    g[key := (if key in g then g[key] else 0) + Value(r, m)]
  }

  /** Appending a row adds its key to the key column. */
  lemma KeyColumnSnoc(init: Table, r: Record, k: Key, name: string)
    ensures name in KeyColumn(init + [r], k) <==> name in KeyColumn(init, k) || name == KeyOf(r, k)
  {
    var t := init + [r];
    KeyColumnHas(t, k, name);
    KeyColumnHas(init, k, name);
    assert forall i :: 0 <= i < |init| ==> t[i] == init[i];
    assert t[|init|] == r;
  }

  /** A key absent from the key column selects no rows. */
  lemma AbsentKey(t: Table, k: Key, name: string)
    requires name !in KeyColumn(t, k)
    ensures Select(t, KeyIs(k, name)) == []
  {
    KeyColumnHas(t, k, name);
    forall row | row in t
      ensures !Selects(KeyIs(k, name), row)
    {
      var i :| 0 <= i < |t| && t[i] == row;
    }
    SelectNone(t, KeyIs(k, name));
  }

  /** One group after adding a row: its old sum plus the row's measure when
      the row carries its key. */
  lemma AddRowValue(init: Table, r: Record, k: Key, m: Measure, g: map<string, nat>, name: string)
    requires forall name :: name in g <==> name in KeyColumn(init, k)
    requires forall name :: name in g ==> g[name] == Sum(Select(init, KeyIs(k, name)), m)
    requires name in AddRow(g, r, k, m)
    ensures AddRow(g, r, k, m)[name] == Sum(Select(init + [r], KeyIs(k, name)), m)
  {
    var s := KeyIs(k, name);
    SelectAppend(init, [r], s);
    SumAppend(Select(init, s), Select([r], s), m);
    assert Select([r], s) == if name == KeyOf(r, k) then [r] else [] by {
      assert [r][1..] == [];
    }
    if name == KeyOf(r, k) {
      SumSingle(r, m);
      if name !in g {
        AbsentKey(init, k, name);
      }
    }
  }

  /** Adding a row to running sums that are the group sums of `init` gives
      the group sums of `init + [r]`. */
  lemma AddRowKeeps(init: Table, r: Record, k: Key, m: Measure, g: map<string, nat>)
    requires forall name :: name in g <==> name in KeyColumn(init, k)
    requires forall name :: name in g ==> g[name] == Sum(Select(init, KeyIs(k, name)), m)
    ensures forall name :: name in AddRow(g, r, k, m) <==> name in KeyColumn(init + [r], k)
    ensures forall name :: name in AddRow(g, r, k, m) ==>
      AddRow(g, r, k, m)[name] == Sum(Select(init + [r], KeyIs(k, name)), m)
  {
    forall name
      ensures name in AddRow(g, r, k, m) <==> name in KeyColumn(init + [r], k)
    {
      KeyColumnSnoc(init, r, k, name);
    }
    forall name | name in AddRow(g, r, k, m)
      ensures AddRow(g, r, k, m)[name] == Sum(Select(init + [r], KeyIs(k, name)), m)
    {
      AddRowValue(init, r, k, m, g, name);
    }
  }

  /** The fold `df.groupby(key)[measure].sum()` performs: the rows are
      visited in order, each adding its measure to the running sum of its
      key. */
  function Accumulate(t: Table, k: Key, m: Measure): map<string, nat> {
    if t == [] then map[] else AddRow(Accumulate(t[..|t| - 1], k, m), t[|t| - 1], k, m)
  }

  /** After every row has been visited, there is a running sum for exactly
      the keys present, and each is the measure summed over that key's rows. */
  lemma {:induction false} AccumulateSums(t: Table, k: Key, m: Measure)
    ensures forall name :: name in Accumulate(t, k, m) <==> name in KeyColumn(t, k)
    ensures forall name :: name in Accumulate(t, k, m) ==>
      Accumulate(t, k, m)[name] == Sum(Select(t, KeyIs(k, name)), m)
  {
    if t != [] {
      var init, r := t[..|t| - 1], t[|t| - 1];
      assert init + [r] == t;
      AccumulateSums(init, k, m);
      AddRowKeeps(init, r, k, m, Accumulate(init, k, m));
    }
  }

  /** `df.groupby(key)[measure].sum()`: a group exists exactly for the keys
      present in the table, and holds the measure summed over exactly the
      rows with that key. */
  function GroupSum(t: Table, k: Key, m: Measure): (g: map<string, nat>)
    ensures forall name :: name in g <==> name in KeyColumn(t, k)
    ensures forall name :: name in g ==> g[name] == Sum(Select(t, KeyIs(k, name)), m)
  {
    AccumulateSums(t, k, m);
    Accumulate(t, k, m)
  }

  /** The values of `g` at `names`, added up. */
  function SumOver(g: map<string, nat>, names: seq<string>): nat
    requires forall name :: name in names ==> name in g
  {
    if names == [] then 0 else g[names[0]] + SumOver(g, names[1..])
  }

  /** The per-group sums of `t` for `names`, added up. */
  function SumGroups(t: Table, k: Key, m: Measure, names: seq<string>): nat {
    if names == [] then 0 else Sum(Select(t, KeyIs(k, names[0])), m) + SumGroups(t, k, m, names[1..])
  }

  /** The contribution of one row to `SumGroups`: its value, once per listed
      name equal to its key. */
  function Hits(r: Record, k: Key, m: Measure, names: seq<string>): nat {
    if names == [] then 0
    else (if KeyOf(r, k) == names[0] then Value(r, m) else 0) + Hits(r, k, m, names[1..])
  }

  lemma {:induction false} HitsOnce(r: Record, k: Key, m: Measure, names: seq<string>)
    requires NoDuplicates(names) && KeyOf(r, k) in names
    ensures Hits(r, k, m, names) == Value(r, m)
  {
    if KeyOf(r, k) == names[0] {
      HitsNone(r, k, m, names[1..]);
    } else {
      HitsOnce(r, k, m, names[1..]);
    }
  }

  lemma {:induction false} HitsNone(r: Record, k: Key, m: Measure, names: seq<string>)
    requires KeyOf(r, k) !in names
    ensures Hits(r, k, m, names) == 0
  {
    if names != [] {
      HitsNone(r, k, m, names[1..]);
    }
  }

  lemma {:induction false} SumGroupsEmpty(k: Key, m: Measure, names: seq<string>)
    ensures SumGroups([], k, m, names) == 0
  {
    if names != [] {
      SumGroupsEmpty(k, m, names[1..]);
    }
  }

  lemma {:induction false} SumGroupsCons(t: Table, k: Key, m: Measure, names: seq<string>)
    requires t != []
    ensures SumGroups(t, k, m, names) == Hits(t[0], k, m, names) + SumGroups(t[1..], k, m, names)
  {
    if names != [] {
      SumGroupsCons(t, k, m, names[1..]);
    }
  }

  /** Grouping loses and double-counts nothing: when every row's key is listed
      once, the group sums add up to the ungrouped column sum. */
  lemma {:induction false} SumGroupsCover(t: Table, k: Key, m: Measure, names: seq<string>)
    requires NoDuplicates(names)
    requires forall r :: r in t ==> KeyOf(r, k) in names
    ensures SumGroups(t, k, m, names) == Sum(t, m)
  {
    if t == [] {
      SumGroupsEmpty(k, m, names);
    } else {
      assert t[0] in t;
      assert forall r :: r in t[1..] ==> r in t;
      SumGroupsCons(t, k, m, names);
      HitsOnce(t[0], k, m, names);
      SumGroupsCover(t[1..], k, m, names);
    }
  }

  lemma {:induction false} SumOverGroups(g: map<string, nat>, t: Table, k: Key, m: Measure, names: seq<string>)
    requires forall name :: name in names ==> name in g && g[name] == Sum(Select(t, KeyIs(k, name)), m)
    ensures SumOver(g, names) == SumGroups(t, k, m, names)
  {
    if names != [] {
      assert names[0] in names;
      assert forall name :: name in names[1..] ==> name in names;
      SumOverGroups(g, t, k, m, names[1..]);
    }
  }

  /** The entries of a group-by sum add up to the column sum of the table. */
  lemma {:induction false} GroupSumPartition(t: Table, k: Key, m: Measure)
    ensures SumOver(GroupSum(t, k, m), Groups(t, k)) == Sum(t, m)
  {
    forall r | r in t
      ensures KeyOf(r, k) in Groups(t, k)
    {
      var i :| 0 <= i < |t| && t[i] == r;
      KeyColumnHas(t, k, KeyOf(r, k));
    }
    SumOverGroups(GroupSum(t, k, m), t, k, m, Groups(t, k));
    SumGroupsCover(t, k, m, Groups(t, k));
  }

  /** The disaster-type menu of the forecast page:
      `data[data['Indicator'] != 'TOTAL']['Indicator'].unique()`. */
  function IndicatorMenu(t: Table): (menu: seq<string>)
    ensures NoDuplicates(menu)
    ensures forall name :: name in menu <==> name != TotalIndicator && name in KeyColumn(t, ByIndicator)
  {
    forall name
      ensures name in KeyColumn(Select(t, NonTotal), ByIndicator) <==> name != TotalIndicator && name in KeyColumn(t, ByIndicator)
    {
      KeyColumnSelect(t, ByIndicator, NonTotal, name);
      KeyColumnHas(t, ByIndicator, name);
      forall i | 0 <= i < |t|
        ensures Selects(NonTotal, t[i]) <==> t[i].indicator != TotalIndicator
      {
        NonTotalMatches(t[i].country, t[i].indicator);
      }
    }
    Groups(Select(t, NonTotal), ByIndicator)
  }

  /** The country menu: `df['Country'].unique()`. */
  function CountryMenu(t: Table): (menu: seq<string>)
    ensures NoDuplicates(menu)
    ensures forall c :: c in menu <==> c in KeyColumn(t, ByCountry)
  {
    Groups(t, ByCountry)
  }

  /** Both menus list each value at its first appearance in the table. */
  lemma MenusInFirstAppearanceOrder(t: Table)
    ensures forall i, j :: 0 <= i < j < |CountryMenu(t)| ==>
      IndexOf(KeyColumn(t, ByCountry), CountryMenu(t)[i]) < IndexOf(KeyColumn(t, ByCountry), CountryMenu(t)[j])
    ensures forall i, j :: 0 <= i < j < |IndicatorMenu(t)| ==>
      IndexOf(KeyColumn(Select(t, NonTotal), ByIndicator), IndicatorMenu(t)[i])
        < IndexOf(KeyColumn(Select(t, NonTotal), ByIndicator), IndicatorMenu(t)[j])
  {
    UniqueFirstAppearance(KeyColumn(t, ByCountry));
    UniqueFirstAppearance(KeyColumn(Select(t, NonTotal), ByIndicator));
  }

  /** The pie chart "Distribution of types of disasters across all countries"
      for one year: all rows grouped by indicator, the year column summed,
      then the "TOTAL" group dropped. */
  function YearDistribution(t: Table, year: int): (r: Result<map<string, nat>, TableError>)
    ensures r.Err? <==> !(FirstYear <= year <= LastYear)
    ensures r.Err? ==> r.error == MissingColumn(year)
    ensures r.Ok? ==> forall ind :: ind in r.value <==> ind != TotalIndicator && ind in KeyColumn(t, ByIndicator)
  {
    match ColumnOf(year)
    case None => Err(MissingColumn(year))
    case Some(y) =>
      Ok(GroupSum(t, ByIndicator, Year(y)) - {TotalIndicator})
  }

  /** Each slice of the pie is the year's count summed over the rows of that
      disaster type, in every country. */
  lemma YearDistributionValue(t: Table, year: int, ind: string)
    requires FirstYear <= year <= LastYear
    requires ind in YearDistribution(t, year).value
    ensures YearDistribution(t, year).value[ind] == Sum(Select(t, IndicatorIs(ind)), Year(year - FirstYear))
  {
    var m := Year(year - FirstYear);
    var g := GroupSum(t, ByIndicator, m);
    assert YearDistribution(t, year) == Ok(g - {TotalIndicator}) by {
      assert ColumnOf(year) == Some(year - FirstYear);
    }
    calc {
      YearDistribution(t, year).value[ind];
    ==
      g[ind];
    == { assert KeyIs(ByIndicator, ind) == IndicatorIs(ind); }
      Sum(Select(t, IndicatorIs(ind)), m);
    }
  }

  /** "Total occurrences of all types of disasters in all countries" for one
      year: the year column summed over every row, "TOTAL" rows included. */
  function TotalOccurrences(t: Table, year: int): (r: Result<nat, TableError>)
    ensures r.Err? <==> !(FirstYear <= year <= LastYear)
    ensures r.Err? ==> r.error == MissingColumn(year)
  {
    match ColumnOf(year)
    case None => Err(MissingColumn(year))
    case Some(y) => Ok(Sum(t, Year(y)))
  }

  /** The displayed total is the sum of the pie's slices plus what the
      "TOTAL" rows contribute: the aggregate rows are counted on top of the
      per-type rows. */
  lemma {:induction false} TotalOccurrencesSplit(t: Table, year: int)
    requires FirstYear <= year <= LastYear
    ensures TotalOccurrences(t, year).value
         == SumOver(YearDistribution(t, year).value, IndicatorMenu(t))
          + Sum(Select(t, IndicatorIs(TotalIndicator)), Year(year - FirstYear))
  {
    var m := Year(year - FirstYear);
    assert TotalOccurrences(t, year).value == Sum(t, m) by {
      assert ColumnOf(year) == Some(year - FirstYear);
    }
    SumSplit(t, IndicatorIs(TotalIndicator), m);
    YearDistributionPartition(t, year);
  }

  /** With the data's promise that each country's "TOTAL" row adds up its
      per-type rows, the displayed total is twice the sum of the pie's
      slices: every occurrence is counted once per type and once more in the
      aggregate row. */
  lemma {:induction false} TotalOccurrencesDoubleCounts(t: Table, year: int)
    requires FirstYear <= year <= LastYear
    requires Sum(Select(t, IndicatorIs(TotalIndicator)), Year(year - FirstYear))
          == Sum(Select(t, NonTotal), Year(year - FirstYear))
    ensures TotalOccurrences(t, year).value == 2 * SumOver(YearDistribution(t, year).value, IndicatorMenu(t))
  {
    TotalOccurrencesSplit(t, year);
    YearDistributionPartition(t, year);
  }

  /** One flood in Chile in 2001 and Chile's "TOTAL" row recording it: the
      pie holds 1 occurrence while the caption reports 2. */
  lemma TotalOccurrencesDoubleCountsExample()
    ensures var ys := Zeros()[0 := 1];
            var t := [Record("Chile", "Flood", ys, 1), Record("Chile", TotalIndicator, ys, 1)];
            TotalOccurrences(t, 2001) == Ok(2)
            && SumOver(YearDistribution(t, 2001).value, IndicatorMenu(t)) == 1
  {
    var ys: YearCounts := Zeros()[0 := 1];
    var flood, total := Record("Chile", "Flood", ys, 1), Record("Chile", TotalIndicator, ys, 1);
    var t := [flood, total];
    assert ColumnOf(2001) == Some(0);
    assert Sum(t, Year(0)) == 2 by {
      assert t[1..] == [total];
      SumSingle(total, Year(0));
    }
    assert Select(t, NonTotal) == [flood] by {
      NonTotalMatches(flood.country, flood.indicator);
      NonTotalMatches(total.country, total.indicator);
      assert t[1..] == [total];
      assert Select([total], NonTotal) == [] by { assert [total][1..] == []; }
    }
    SumSingle(flood, Year(0));
    YearDistributionPartition(t, 2001);
  }

  /** The total the caption describes: the year column summed over the
      per-type rows only, so every occurrence is counted once. */
  function IntendedTotalOccurrences(t: Table, year: int): (r: Result<nat, TableError>)
    ensures r.Err? <==> !(FirstYear <= year <= LastYear)
    ensures r.Err? ==> r.error == MissingColumn(year)
  {
    match ColumnOf(year)
    case None => Err(MissingColumn(year))
    case Some(y) => Ok(Sum(Select(t, NonTotal), Year(y)))
  }

  /** The corrected total agrees with the pie: it is exactly the sum of the
      slices, one per entry of the disaster-type menu. */
  lemma {:induction false} IntendedTotalMatchesPie(t: Table, year: int)
    requires FirstYear <= year <= LastYear
    ensures IntendedTotalOccurrences(t, year).value == SumOver(YearDistribution(t, year).value, IndicatorMenu(t))
  {
    var m := Year(year - FirstYear);
    assert IntendedTotalOccurrences(t, year) == Ok(Sum(Select(t, NonTotal), m)) by {
      assert ColumnOf(year) == Some(year - FirstYear);
    }
    YearDistributionPartition(t, year);
  }

  /** The pie's slices, one per entry of the disaster-type menu, add up to
      the year's count over all rows except the "TOTAL" ones. */
  lemma {:induction false} YearDistributionPartition(t: Table, year: int)
    requires FirstYear <= year <= LastYear
    ensures SumOver(YearDistribution(t, year).value, IndicatorMenu(t))
         == Sum(Select(t, NonTotal), Year(year - FirstYear))
  {
    var m := Year(year - FirstYear);
    var dist, menu, rows := YearDistribution(t, year).value, IndicatorMenu(t), Select(t, NonTotal);
    forall name | name in menu
      ensures name in dist && dist[name] == Sum(Select(rows, KeyIs(ByIndicator, name)), m)
    {
      MenuSlice(t, year, name);
    }
    SumOverGroups(dist, rows, ByIndicator, m, menu);
    forall r | r in rows
      ensures KeyOf(r, ByIndicator) in menu
    {
      MenuCoversRow(t, r);
    }
    SumGroupsCover(rows, ByIndicator, m, menu);
  }

  lemma {:induction false} MenuSlice(t: Table, year: int, name: string)
    requires FirstYear <= year <= LastYear && name in IndicatorMenu(t)
    ensures name in YearDistribution(t, year).value
    ensures YearDistribution(t, year).value[name]
         == Sum(Select(Select(t, NonTotal), KeyIs(ByIndicator, name)), Year(year - FirstYear))
  {
    YearDistributionValue(t, year, name);
    forall r: Record | Selects(IndicatorIs(name), r)
      ensures Selects(NonTotal, r)
    {
      NonTotalMatches(r.country, r.indicator);
    }
    SelectNarrow(t, NonTotal, IndicatorIs(name));
    assert KeyIs(ByIndicator, name) == IndicatorIs(name);
  }

  lemma MenuCoversRow(t: Table, r: Record)
    requires r in Select(t, NonTotal)
    ensures r.indicator in IndicatorMenu(t)
  {
    SelectMembers(t, NonTotal);
    NonTotalMatches(r.country, r.indicator);
    var i :| 0 <= i < |t| && t[i] == r;
    KeyColumnHas(t, ByIndicator, r.indicator);
  }

  /** When a row is the only one of its disaster type (a single-country
      table, say), its slice of the pie is that row's own count for the year. */
  lemma YearDistributionSingleRow(t: Table, i: nat, year: int)
    requires i < |t| && t[i].indicator != TotalIndicator
    requires forall j :: 0 <= j < |t| && j != i ==> t[j].indicator != t[i].indicator
    requires FirstYear <= year <= LastYear
    ensures t[i].indicator in YearDistribution(t, year).value
    ensures YearDistribution(t, year).value[t[i].indicator] == t[i].years[year - FirstYear]
  {
    var ind, m := t[i].indicator, Year(year - FirstYear);
    var d := YearDistribution(t, year).value;
    KeyColumnIndex(t, ByIndicator, i);
    assert ind in d;
    calc {
      d[ind];
    == { YearDistributionValue(t, year, ind); }
      Sum(Select(t, IndicatorIs(ind)), m);
    == { SelectOnly(t, i, IndicatorIs(ind)); }
      Sum([t[i]], m);
    == { SumSingle(t[i], m); }
      Value(t[i], m);
    }
  }

  /** A mask that keeps exactly one row selects that row alone. */
  lemma {:induction false} SelectOnly(t: Table, i: nat, s: Selector)
    requires i < |t| && Selects(s, t[i])
    requires forall j :: 0 <= j < |t| && j != i ==> !Selects(s, t[j])
    ensures Select(t, s) == [t[i]]
  {
    if i == 0 {
      SelectNone(t[1..], s) by {
        forall r | r in t[1..]
          ensures !Selects(s, r)
        {
          var j :| 0 <= j < |t[1..]| && t[1..][j] == r;
          assert t[j + 1] == r;
        }
      }
    } else {
      assert !Selects(s, t[0]);
      assert forall j :: 0 <= j < |t[1..]| ==> t[1..][j] == t[j + 1];
      SelectOnly(t[1..], i - 1, s);
    }
  }

  /** The bubble chart of a disaster page: rows of the page's type grouped
      by country, `Total` summed. With `TotalIndicator` it is the world map. */
  function CountryTotals(t: Table, indicator: string): (g: map<string, nat>)
    ensures forall c :: c in g <==> c in KeyColumn(Select(t, IndicatorIs(indicator)), ByCountry)
    ensures forall c :: c in g ==> g[c] == Sum(Select(t, And(IndicatorIs(indicator), CountryIs(c))), Total)
  {
    var rows := Select(t, IndicatorIs(indicator));
    forall c
      ensures Select(rows, CountryIs(c)) == Select(t, And(IndicatorIs(indicator), CountryIs(c)))
    {
      SelectSelect(t, IndicatorIs(indicator), CountryIs(c));
    }
    GroupSum(rows, ByCountry, Total)
  }

  /** "Total occurrences of disasters by country": each country's `Total`
      summed over its "TOTAL" rows. */
  function WorldTotals(t: Table): (g: map<string, nat>)
    ensures forall c :: c in g ==> g[c] == Sum(Select(t, And(IndicatorIs(TotalIndicator), CountryIs(c))), Total)
  {
    CountryTotals(t, TotalIndicator)
  }

  /** The world map has an entry for a country exactly when the country has a
      "TOTAL" row; other countries are absent, not zero. */
  lemma WorldTotalsKeys(t: Table, c: string)
    ensures c in WorldTotals(t) <==> exists r :: r in t && r.indicator == TotalIndicator && r.country == c
  {
    var rows := Select(t, IndicatorIs(TotalIndicator));
    KeyColumnHas(rows, ByCountry, c);
    SelectMembers(t, IndicatorIs(TotalIndicator));
    if exists r :: r in t && r.indicator == TotalIndicator && r.country == c {
      var r :| r in t && r.indicator == TotalIndicator && r.country == c;
      assert r in rows;
      var i :| 0 <= i < |rows| && rows[i] == r;
    }
    if c in WorldTotals(t) {
      var i :| 0 <= i < |rows| && KeyOf(rows[i], ByCountry) == c;
      assert rows[i] in rows;
    }
  }

  /** A page's per-country totals add up to the `Total` column of its rows. */
  lemma {:induction false} CountryTotalsPartition(t: Table, indicator: string)
    ensures SumOver(CountryTotals(t, indicator), Groups(Select(t, IndicatorIs(indicator)), ByCountry))
         == Sum(Select(t, IndicatorIs(indicator)), Total)
  {
    GroupSumPartition(Select(t, IndicatorIs(indicator)), ByCountry, Total);
  }

  /** A row of another type, inserted anywhere, changes no country's total. */
  lemma CountryTotalsIgnoreOtherTypes(t: Table, i: nat, r: Record, indicator: string)
    requires i <= |t| && r.indicator != indicator
    ensures CountryTotals(t[..i] + [r] + t[i..], indicator) == CountryTotals(t, indicator)
  {
    var s := IndicatorIs(indicator);
    var t' := t[..i] + [r] + t[i..];
    assert Select(t', s) == Select(t, s) by {
      SelectAppend(t[..i] + [r], t[i..], s);
      SelectAppend(t[..i], [r], s);
      SelectAppend(t[..i], t[i..], s);
      assert Select([r], s) == [];
      assert t[..i] + t[i..] == t;
    }
  }

  /** A country with exactly one "TOTAL" row appears on the world map with
      that row's `Total`. */
  lemma WorldTotalsSingleRow(t: Table, i: nat)
    requires i < |t| && t[i].indicator == TotalIndicator
    requires forall j :: 0 <= j < |t| && j != i && t[j].indicator == TotalIndicator ==> t[j].country != t[i].country
    ensures t[i].country in WorldTotals(t)
    ensures WorldTotals(t)[t[i].country] == t[i].total
  {
    var c := t[i].country;
    var s := And(IndicatorIs(TotalIndicator), CountryIs(c));
    WorldTotalsKeys(t, c);
    assert t[i] in t;
    forall j | 0 <= j < |t| && j != i
      ensures !Selects(s, t[j])
    {
      var r := t[j];
      assert Selects(s, r) == (Matches(IndicatorIs(TotalIndicator), r.country, r.indicator) && Matches(CountryIs(c), r.country, r.indicator));
    }
    calc {
      WorldTotals(t)[c];
    ==
      Sum(Select(t, s), Total);
    == { SelectOnly(t, i, s); }
      Sum([t[i]], Total);
    == { SumSingle(t[i], Total); }
      t[i].total;
    }
  }

  /** The bar and pie charts of one country's breakdown: its rows without the
      "TOTAL" aggregate, each with its `Total`. */
  function IndicatorBreakdown(t: Table, c: string): (b: Table)
    ensures b == Select(t, And(CountryIs(c), NonTotal))
    ensures forall r :: r in b <==> r in t && r.country == c && r.indicator != TotalIndicator
  {
    SelectSelect(t, CountryIs(c), NonTotal);
    var b := Select(Select(t, CountryIs(c)), NonTotal);
    SelectMembers(t, And(CountryIs(c), NonTotal));
    forall r
      ensures r in b <==> r in t && r.country == c && r.indicator != TotalIndicator
    {
      NonTotalMatches(r.country, r.indicator);
      assert Selects(And(CountryIs(c), NonTotal), r)
        <==> Matches(CountryIs(c), r.country, r.indicator) && Matches(NonTotal, r.country, r.indicator);
    }
    b
  }

  /** The breakdown plus the country's "TOTAL" rows account for every row of
      the country exactly once. */
  lemma IndicatorBreakdownSplit(t: Table, c: string)
    ensures Sum(IndicatorBreakdown(t, c), Total)
          + Sum(Select(Select(t, CountryIs(c)), IndicatorIs(TotalIndicator)), Total)
         == Sum(Select(t, CountryIs(c)), Total)
  {
    SumSplit(Select(t, CountryIs(c)), IndicatorIs(TotalIndicator), Total);
  }
}
