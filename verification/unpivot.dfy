/** `pd.melt` over the year columns: the long-form (country, indicator, year,
    value) views that feed the per-country and per-type bar and line charts. */
module Unpivot {
  import opened Table

  /** One row of a melted table. */
  datatype Observation = Observation(country: string, indicator: string, year: int, value: nat)

  /** One row of a melted table whose `Indicator` column was dropped first. */
  datatype YearCount = YearCount(country: string, year: int, count: nat)

  /** The melted row for record `r` and year column `y`. */
  function Cell(r: Record, y: YearIndex): Observation {
    Observation(r.country, r.indicator, YearOf(y), r.years[y])
  }

  /** The block of the melted table that comes from year column `y`: one
      observation per record, in table order. */
  function MeltYear(t: Table, y: YearIndex): (v: seq<Observation>)
    ensures |v| == |t|
  {
    if t == [] then [] else [Cell(t[0], y)] + MeltYear(t[1..], y)
  }

  lemma {:induction false} MeltYearIndex(t: Table, y: YearIndex)
    ensures forall i :: 0 <= i < |t| ==> MeltYear(t, y)[i] == Cell(t[i], y)
  {
    if t != [] {
      MeltYearIndex(t[1..], y);
    }
  }

  /** The blocks for the first `y` year columns, one after the other. */
  function MeltUpTo(t: Table, y: nat): seq<Observation>
    requires y <= NumYears
  {
    if y == 0 then [] else MeltUpTo(t, y - 1) + MeltYear(t, y - 1)
  }

  /** `pd.melt(df, id_vars=[...], var_name='Year')`: pandas emits the year
      columns one after the other, each listing every row. */
  function Melt(t: Table): (v: seq<Observation>)
    ensures |v| == NumYears * |t|
  {
    MeltUpToLength(t, NumYears);
    MeltUpTo(t, NumYears)
  }

  lemma {:induction false} MeltUpToLength(t: Table, y: nat)
    requires y <= NumYears
    ensures |MeltUpTo(t, y)| == y * |t|
  {
    if y > 0 {
      MeltUpToLength(t, y - 1);
      MulStep(y, |t|);
    }
  }

  lemma MulStep(y: nat, n: nat)
    requires y > 0
    ensures (y - 1) * n + n == y * n
  {
  }

  /** Block `k` of the melted table starts where the first `k` blocks end. */
  lemma {:induction false} MeltUpToBlock(t: Table, y: nat, k: YearIndex, i: nat)
    requires k < y <= NumYears && i < |t|
    ensures |MeltUpTo(t, k)| + i < |MeltUpTo(t, y)|
    ensures MeltUpTo(t, y)[|MeltUpTo(t, k)| + i] == Cell(t[i], k)
  {
    var front, block := MeltUpTo(t, y - 1), MeltYear(t, y - 1);
    assert MeltUpTo(t, y) == front + block;
    if k < y - 1 {
      MeltUpToBlock(t, y - 1, k, i);
    } else {
      MeltYearIndex(t, k);
    }
  }

  /** The observation for row `i` and year column `y` sits at position
      `y * |t| + i` of the melted table, so every row contributes exactly one
      observation per year 2001..2021, carrying that year's count. */
  lemma {:induction false} MeltIndex(t: Table, y: YearIndex, i: nat)
    requires i < |t|
    ensures y * |t| + i < |Melt(t)|
    ensures Melt(t)[y * |t| + i] == Cell(t[i], y)
  {
    MeltUpToBlock(t, NumYears, y, i);
    MeltUpToLength(t, y);
    assert Melt(t) == MeltUpTo(t, NumYears);
  }

  lemma {:induction false} MeltYearMembers(t: Table, y: YearIndex, o: Observation)
    ensures o in MeltYear(t, y) <==> exists i :: 0 <= i < |t| && o == Cell(t[i], y)
  {
    if t != [] {
      MeltYearMembers(t[1..], y, o);
      assert forall i :: 0 < i < |t| ==> t[i] == t[1..][i - 1];
      if exists i :: 0 <= i < |t| && o == Cell(t[i], y) {
        var i :| 0 <= i < |t| && o == Cell(t[i], y);
        if i > 0 {
          assert o == Cell(t[1..][i - 1], y);
        }
      }
    }
  }

  lemma {:induction false} MeltUpToMembers(t: Table, y: nat, o: Observation)
    requires y <= NumYears
    ensures o in MeltUpTo(t, y) <==> exists i, k: YearIndex :: 0 <= i < |t| && k < y && o == Cell(t[i], k)
  {
    if y > 0 {
      MeltUpToMembers(t, y - 1, o);
      MeltYearMembers(t, y - 1, o);
    }
  }

  /** The melted table holds exactly the cells of the original table. */
  lemma MeltMembers(t: Table, o: Observation)
    ensures o in Melt(t) <==> exists i, y: YearIndex :: 0 <= i < |t| && o == Cell(t[i], y)
  {
    MeltUpToMembers(t, NumYears, o);
  }

  /** A mask every row passes is passed by every melted observation. */
  lemma MeltKeeps(t: Table, s: Selector)
    requires forall r :: r in t ==> Selects(s, r)
    ensures forall o :: o in Melt(t) ==> Matches(s, o.country, o.indicator)
  {
    forall o | o in Melt(t)
      ensures Matches(s, o.country, o.indicator)
    {
      MeltMembers(t, o);
      var i, y: YearIndex :| 0 <= i < |t| && o == Cell(t[i], y);
      assert t[i] in t;
    }
  }

  /** `melted[mask]`: the observations the mask keeps, in order. */
  function FilterObs(v: seq<Observation>, s: Selector): (w: seq<Observation>)
    ensures |w| <= |v|
  {
    if v == [] then []
    else if Matches(s, v[0].country, v[0].indicator) then [v[0]] + FilterObs(v[1..], s)
    else FilterObs(v[1..], s)
  }

  /** The filtered observations are exactly those the mask keeps. */
  lemma {:induction false} FilterObsMembers(v: seq<Observation>, s: Selector)
    ensures forall o :: o in FilterObs(v, s) <==> o in v && Matches(s, o.country, o.indicator)
  {
    if v != [] {
      FilterObsMembers(v[1..], s);
      assert forall o :: o in v <==> o == v[0] || o in v[1..];
    }
  }

  lemma {:induction false} FilterObsAppend(a: seq<Observation>, b: seq<Observation>, s: Selector)
    ensures FilterObs(a + b, s) == FilterObs(a, s) + FilterObs(b, s)
  {
    if a != [] {
      assert (a + b)[1..] == a[1..] + b;
      FilterObsAppend(a[1..], b, s);
    } else {
      assert a + b == b;
    }
  }

  lemma {:induction false} FilterMeltYear(t: Table, y: YearIndex, s: Selector)
    ensures FilterObs(MeltYear(t, y), s) == MeltYear(Select(t, s), y)
  {
    if t != [] {
      var v := MeltYear(t, y);
      assert v == [Cell(t[0], y)] + MeltYear(t[1..], y);
      assert v[1..] == MeltYear(t[1..], y);
      FilterMeltYear(t[1..], y, s);
    }
  }

  lemma {:induction false} FilterMeltUpTo(t: Table, y: nat, s: Selector)
    requires y <= NumYears
    ensures FilterObs(MeltUpTo(t, y), s) == MeltUpTo(Select(t, s), y)
  {
    if y > 0 {
      FilterObsAppend(MeltUpTo(t, y - 1), MeltYear(t, y - 1), s);
      FilterMeltYear(t, y - 1, s);
      FilterMeltUpTo(t, y - 1, s);
    }
  }

  /** Filtering the melted table by country or indicator is the same as
      melting the filtered table: the two orders the dashboard uses agree. */
  lemma FilterMelt(t: Table, s: Selector)
    ensures FilterObs(Melt(t), s) == Melt(Select(t, s))
  {
    FilterMeltUpTo(t, NumYears, s);
  }

  lemma AbsentCountry(t: Table, c: string)
    ensures (forall r :: r in t ==> r.country != c) ==> Select(t, CountryIs(c)) == []
  {
    if forall r :: r in t ==> r.country != c {
      SelectNone(t, CountryIs(c));
    }
  }

  /** The long-form view behind the "Total disasters" bar chart and the trend
      line chart for one country: that country's rows, melted, without the
      "TOTAL" aggregate rows. */
  function CountryView(t: Table, c: string): (v: seq<Observation>)
    ensures v == Melt(Select(t, And(CountryIs(c), NonTotal)))
    ensures |v| == NumYears * |Select(t, And(CountryIs(c), NonTotal))|
    ensures forall o :: o in v ==> o.country == c && o.indicator != TotalIndicator
    ensures (forall r :: r in t ==> r.country != c) ==> v == []
  {
    var rows := Select(t, CountryIs(c));
    FilterMelt(rows, NonTotal);
    SelectSelect(t, CountryIs(c), NonTotal);
    var kept := And(CountryIs(c), NonTotal);
    SelectMembers(t, kept);
    MeltKeeps(Select(t, kept), kept);
    AbsentCountry(t, c);
    var v := FilterObs(Melt(rows), NonTotal);
    assert forall o :: o in v ==> Matches(kept, o.country, o.indicator);
    assert forall o :: o in v ==> Matches(CountryIs(c), o.country, o.indicator) && Matches(NonTotal, o.country, o.indicator);
    assert forall o :: o in v ==> !Matches(IndicatorIs(TotalIndicator), o.country, o.indicator);
    v
  }

  /** The "<type> Frequency by Country" view of a per-disaster page: the rows
      of the chosen countries, melted, then restricted to the page's type. */
  function TypeView(t: Table, countries: set<string>, disaster: Disaster): (v: seq<Observation>)
    ensures v == Melt(Select(t, And(CountryIn(countries), IndicatorIs(disaster.Indicator()))))
    ensures |v| == NumYears * |Select(t, And(CountryIn(countries), IndicatorIs(disaster.Indicator())))|
    ensures forall o :: o in v ==> o.country in countries && o.indicator == disaster.Indicator()
  {
    var name := disaster.Indicator();
    var rows := Select(t, CountryIn(countries));
    var kept := And(CountryIn(countries), IndicatorIs(name));
    FilterMelt(rows, IndicatorIs(name));
    SelectSelect(t, CountryIn(countries), IndicatorIs(name));
    SelectMembers(t, kept);
    MeltKeeps(Select(t, kept), kept);
    var v := FilterObs(Melt(rows), IndicatorIs(name));
    assert forall o :: o in v ==> Matches(kept, o.country, o.indicator);
    assert forall o :: o in v ==> Matches(CountryIn(countries), o.country, o.indicator) && Matches(IndicatorIs(name), o.country, o.indicator);
    v
  }

  /** No two disaster pages show the same observation, whatever table each
      page loaded and whatever countries each page selected: each page's view
      carries only its own type's indicator. */
  lemma TypeViewsDisjoint(t: Table, countries: set<string>, d: Disaster,
                          t': Table, countries': set<string>, e: Disaster, o: Observation)
    requires d != e
    ensures !(o in TypeView(t, countries, d) && o in TypeView(t', countries', e))
  {
  }

  /** `.drop('Indicator', axis=1)` applied to melted rows. */
  function DropIndicator(v: seq<Observation>): seq<YearCount> {
    seq(|v|, p requires 0 <= p < |v| => YearCount(v[p].country, v[p].year, v[p].value))
  }

  /** The "<type> Count by Year" view: every row of the country (whatever its
      indicator) contributes one (year, count) pair per year column. */
  function CountByYear(t: Table, c: string): (w: seq<YearCount>)
    ensures |w| == NumYears * |Select(t, CountryIs(c))|
    ensures forall p :: 0 <= p < |w| ==> w[p].country == c
  {
    var rows := Select(t, CountryIs(c));
    var v := Melt(rows);
    SelectMembers(t, CountryIs(c));
    MeltKeeps(rows, CountryIs(c));
    assert forall p :: 0 <= p < |v| ==> v[p] in v;
    DropIndicator(v)
  }

  /** Row `i` of the country's rows gives the pair at position `y * n + i`
      (n the number of such rows): its count for year column `y`. */
  lemma {:induction false} CountByYearIndex(t: Table, c: string, y: YearIndex, i: nat)
    requires i < |Select(t, CountryIs(c))|
    ensures y * |Select(t, CountryIs(c))| + i < |CountByYear(t, c)|
    ensures CountByYear(t, c)[y * |Select(t, CountryIs(c))| + i]
         == YearCount(c, YearOf(y), Select(t, CountryIs(c))[i].years[y])
  {
    var rows := Select(t, CountryIs(c));
    MeltIndex(rows, y, i);
    SelectMembers(t, CountryIs(c));
    assert rows[i] in rows;
  }
}
