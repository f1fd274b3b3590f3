/** The loaded disaster table: one record per (country, indicator) pair with
    one occurrence count per year 2001..2021 and a stored `Total` column, and
    the row filters the dashboard applies to it (`df[df['Country'] == c]`,
    `df[df['Indicator'] != 'TOTAL']`, `df['Country'].isin(cs)`, ...). */
module Table {
  import opened Outcomes

  /** The year columns are "2001" .. "2021". */
  const FirstYear: int := 2001
  const NumYears: nat := 21
  const LastYear: int := FirstYear + NumYears - 1

  /** The reserved indicator of a country's precomputed aggregate row. */
  const TotalIndicator: string := "TOTAL"

  /** Position of a year column, 0 for 2001 up to 20 for 2021. */
  type YearIndex = y: nat | y < NumYears

  /** One count per year column. */
  type YearCounts = s: seq<nat> | |s| == NumYears witness Zeros()

  function Zeros(): seq<nat> {
    seq(NumYears, _ => 0)
  }

  /** One row of a cleaned CSV; the `ObjectId` column is not modelled. */
  datatype Record = Record(country: string, indicator: string, years: YearCounts, total: nat)

  type Table = seq<Record>

  /** The calendar year of a year column. */
  function YearOf(y: YearIndex): int {
    FirstYear + y
  }

  /** Looks up the column named by a year; `None` is pandas' KeyError for a
      column the table does not have. */
  function ColumnOf(year: int): (c: Option<YearIndex>)
    ensures c.Some? <==> FirstYear <= year <= LastYear
    ensures c.Some? ==> YearOf(c.value) == year
  {
    if FirstYear <= year <= LastYear then Some(year - FirstYear) else None
  }

  /** The six disaster datasets, each with its own indicator name. */
  datatype Disaster = Drought | ExtremeTemperature | Flood | Landslide | Storm | Wildfire {
    /** The indicator value the dataset's page selects. */
    function Indicator(): (name: string)
      ensures name != TotalIndicator
    {
      match this
      case Drought => "Drought"
      case ExtremeTemperature => "Extreme temperature"
      case Flood => "Flood"
      case Landslide => "Landslide"
      case Storm => "Storm"
      case Wildfire => "Wildfire"
    }
  }

  /** A boolean mask over the `Country` and `Indicator` columns. */
  datatype Selector =
    | AllRows
    | CountryIs(country: string)
    | CountryIn(countries: set<string>)
    | IndicatorIs(indicator: string)
    | Not(negated: Selector)
    | And(left: Selector, right: Selector)

  /** `df['Indicator'] != 'TOTAL'`. */
  const NonTotal: Selector := Not(IndicatorIs(TotalIndicator))

  predicate Matches(s: Selector, country: string, indicator: string) {
    match s
    case AllRows => true
    case CountryIs(c) => country == c
    case CountryIn(cs) => country in cs
    case IndicatorIs(i) => indicator == i
    case Not(s') => !Matches(s', country, indicator)
    case And(a, b) => Matches(a, country, indicator) && Matches(b, country, indicator)
  }

  predicate Selects(s: Selector, r: Record) {
    Matches(s, r.country, r.indicator)
  }

  lemma NonTotalMatches(country: string, indicator: string)
    ensures Matches(NonTotal, country, indicator) <==> indicator != TotalIndicator
  {
  }

  /** `df[mask]`: the rows the mask keeps, in table order. */
  function Select(t: Table, s: Selector): (u: Table)
    ensures |u| <= |t|
  {
    if t == [] then []
    else if Selects(s, t[0]) then [t[0]] + Select(t[1..], s)
    else Select(t[1..], s)
  }

  /** The filtered table holds exactly the rows of `t` the mask keeps. */
  lemma {:induction false} SelectMembers(t: Table, s: Selector)
    ensures forall r :: r in Select(t, s) <==> r in t && Selects(s, r)
  {
    if t != [] {
      SelectMembers(t[1..], s);
      assert forall r :: r in t <==> r == t[0] || r in t[1..];
    }
  }

  /** A numeric column: one year column or the stored `Total`. */
  datatype Measure = Year(y: YearIndex) | Total

  function Value(r: Record, m: Measure): nat {
    match m
    case Year(y) => r.years[y]
    case Total => r.total
  }

  /** `t[column].sum()`. */
  function Sum(t: Table, m: Measure): nat {
    if t == [] then 0 else Value(t[0], m) + Sum(t[1..], m)
  }

  lemma SumSingle(r: Record, m: Measure)
    ensures Sum([r], m) == Value(r, m)
  {
    assert [r][1..] == [];
  }

  lemma {:induction false} SumAppend(a: Table, b: Table, m: Measure)
    ensures Sum(a + b, m) == Sum(a, m) + Sum(b, m)
  {
    if a != [] {
      assert (a + b)[1..] == a[1..] + b;
      SumAppend(a[1..], b, m);
    } else {
      assert a + b == b;
    }
  }

  lemma {:induction false} SelectAppend(a: Table, b: Table, s: Selector)
    ensures Select(a + b, s) == Select(a, s) + Select(b, s)
  {
    if a == [] {
      assert a + b == b;
    } else {
      var head := if Selects(s, a[0]) then [a[0]] else [];
      calc {
        Select(a + b, s);
      == { assert (a + b)[0] == a[0] && (a + b)[1..] == a[1..] + b; }
        head + Select(a[1..] + b, s);
      == { SelectAppend(a[1..], b, s); }
        head + (Select(a[1..], s) + Select(b, s));
      == { assert Select(a, s) == head + Select(a[1..], s); }
        Select(a, s) + Select(b, s);
      }
    }
  }

  /** Filtering twice is filtering once by the conjunction of the masks. */
  lemma {:induction false} SelectSelect(t: Table, a: Selector, b: Selector)
    ensures Select(Select(t, a), b) == Select(t, And(a, b))
  {
    if t != [] {
      SelectSelect(t[1..], a, b);
    }
  }

  /** A second filter that keeps only rows the first kept anyway can drop the first. */
  lemma {:induction false} SelectNarrow(t: Table, a: Selector, b: Selector)
    requires forall r: Record :: Selects(b, r) ==> Selects(a, r)
    ensures Select(Select(t, a), b) == Select(t, b)
  {
    if t != [] {
      SelectNarrow(t[1..], a, b);
    }
  }

  /** A mask that matches no row gives an empty table, not an error. */
  lemma {:induction false} SelectNone(t: Table, s: Selector)
    requires forall r :: r in t ==> !Selects(s, r)
    ensures Select(t, s) == []
  {
    if t != [] {
      assert t[0] in t;
      assert forall r :: r in t[1..] ==> r in t;
      SelectNone(t[1..], s);
    }
  }

  /** Every row is counted once, either by the mask or by its negation. */
  lemma {:induction false} SumSplit(t: Table, s: Selector, m: Measure)
    ensures Sum(t, m) == Sum(Select(t, s), m) + Sum(Select(t, Not(s)), m)
  {
    if t != [] {
      SumSplit(t[1..], s, m);
    }
  }
}
