/** The pie chart at the bottom of each disaster page: every year column's
    sum as a percentage of the sum of the stored `Total` column. */
module Percentage {
  import opened Table

  /** `count / total * 100`, in exact arithmetic. */
  function Percent(count: nat, total: nat): real
    requires total > 0
  {
    count as real / total as real * 100.0
  }

  /** Each count of `counts` as a percentage of `total`. */
  function Percents(counts: seq<nat>, total: nat): (p: seq<real>)
    requires total > 0
    ensures |p| == |counts|
  {
    seq(|counts|, (i: int) requires 0 <= i < |counts| => Percent(counts[i], total))
  }

  function SumReals(xs: seq<real>): real {
    if xs == [] then 0.0 else SumReals(xs[..|xs| - 1]) + xs[|xs| - 1]
  }

  function SumNats(xs: seq<nat>): nat {
    if xs == [] then 0 else SumNats(xs[..|xs| - 1]) + xs[|xs| - 1]
  }

  /** `[data[year].sum() for year in year_columns]`. */
  function ColumnTotals(t: Table): (cs: seq<nat>)
    ensures |cs| == NumYears
  {
    seq(NumYears, (y: int) requires 0 <= y < NumYears => Sum(t, Year(y)))
  }

  /** `[data[year].sum() / total_occurrences * 100 for year in year_columns]`
      with `total_occurrences = data["Total"].sum()`: entry `y` belongs to
      year `YearOf(y)`. The dashboard divides without a guard, so the stored
      total must be positive. */
  function YearlyPercentages(t: Table): (p: seq<real>)
    requires Sum(t, Total) > 0
    ensures |p| == NumYears
  {
    Percents(ColumnTotals(t), Sum(t, Total))
  }

  lemma PercentScale(count: nat, total: nat)
    requires total > 0
    ensures 0.0 <= Percent(count, total)
    ensures Percent(count, total) * total as real == 100.0 * count as real
  {
    var c, d := count as real, total as real;
    assert c / d * 100.0 * d == 100.0 * c;
  }

  lemma PercentAdd(a: nat, c: nat, total: nat)
    requires total > 0
    ensures Percent(a, total) + Percent(c, total) == Percent(a + c, total)
  {
    var x, y, d := a as real, c as real, total as real;
    assert x / d + y / d == (x + y) / d;
  }

  lemma PercentWhole(total: nat)
    requires total > 0
    ensures Percent(total, total) == 100.0
  {
  }

  /** Each slice is its year's sum as a share of the stored total, scaled to
      100: `share * total == 100 * column`. */
  lemma ShareOfYear(t: Table, y: YearIndex)
    requires Sum(t, Total) > 0
    ensures 0.0 <= YearlyPercentages(t)[y]
    ensures YearlyPercentages(t)[y] * Sum(t, Total) as real == 100.0 * Sum(t, Year(y)) as real
  {
    assert YearlyPercentages(t)[y] == Percent(Sum(t, Year(y)), Sum(t, Total));
    PercentScale(Sum(t, Year(y)), Sum(t, Total));
  }

  /** Percentages of one total add up to the percentage of the counts' sum. */
  lemma {:induction false} PercentsSum(counts: seq<nat>, total: nat)
    requires total > 0
    ensures SumReals(Percents(counts, total)) == Percent(SumNats(counts), total)
  {
    var p := Percents(counts, total);
    if counts != [] {
      var n := |counts|;
      assert p[..n - 1] == Percents(counts[..n - 1], total);
      PercentsSum(counts[..n - 1], total);
      PercentAdd(SumNats(counts[..n - 1]), counts[n - 1], total);
    }
  }

  /** The year columns `0 .. n-1` of `t`, each summed, added up. */
  function ColumnsSum(t: Table, n: nat): nat
    requires n <= NumYears
  {
    if n == 0 then 0 else ColumnsSum(t, n - 1) + Sum(t, Year(n - 1))
  }

  lemma {:induction false} ColumnTotalsSum(t: Table, n: nat)
    requires n <= NumYears
    ensures SumNats(ColumnTotals(t)[..n]) == ColumnsSum(t, n)
  {
    if n > 0 {
      assert ColumnTotals(t)[..n][..n - 1] == ColumnTotals(t)[..n - 1];
      ColumnTotalsSum(t, n - 1);
    }
  }

  /** The rows' first `n` counts, added up row by row. */
  function RowsSum(t: Table, n: nat): nat
    requires n <= NumYears
  {
    if t == [] then 0 else SumNats(t[0].years[..n]) + RowsSum(t[1..], n)
  }

  /** The cleaned data promises that each row's `Total` is the sum of its
      year counts. */
  predicate ConsistentTotals(t: Table) {
    forall r :: r in t ==> r.total == SumNats(r.years)
  }

  /** Adding one more column to every row adds that column's sum. */
  lemma {:induction false} RowsSumStep(t: Table, n: nat)
    requires 0 < n <= NumYears
    ensures RowsSum(t, n) == RowsSum(t, n - 1) + Sum(t, Year(n - 1))
  {
    if t != [] {
      assert t[0].years[..n][..n - 1] == t[0].years[..n - 1];
      RowsSumStep(t[1..], n);
    }
  }

  lemma {:induction false} RowsSumZero(t: Table)
    ensures RowsSum(t, 0) == 0
  {
    if t != [] {
      RowsSumZero(t[1..]);
    }
  }

  /** Summing by columns or by rows gives the same grand total. */
  lemma {:induction false} ColumnsSumRows(t: Table, n: nat)
    requires n <= NumYears
    ensures ColumnsSum(t, n) == RowsSum(t, n)
  {
    if n == 0 {
      RowsSumZero(t);
    } else {
      ColumnsSumRows(t, n - 1);
      RowsSumStep(t, n);
    }
  }

  /** With consistent totals, adding up every row's counts gives the `Total`
      column's sum. */
  lemma {:induction false} RowsSumTotals(t: Table)
    requires ConsistentTotals(t)
    ensures RowsSum(t, NumYears) == Sum(t, Total)
  {
    if t != [] {
      assert t[0] in t;
      assert t[0].years[..NumYears] == t[0].years;
      assert forall r :: r in t[1..] ==> r in t;
      RowsSumTotals(t[1..]);
    }
  }

  /** For any table the slices add up to the percentage that all year counts
      make of the stored `Total` column: the denominator is never recomputed
      from the year columns. */
  lemma PercentagesSum(t: Table)
    requires Sum(t, Total) > 0
    ensures SumReals(YearlyPercentages(t)) == Percent(ColumnsSum(t, NumYears), Sum(t, Total))
  {
    PercentsSum(ColumnTotals(t), Sum(t, Total));
    ColumnTotalsSum(t, NumYears);
    assert ColumnTotals(t)[..NumYears] == ColumnTotals(t);
  }

  /** When every row's `Total` is the sum of its year counts, the pie is
      complete: the slices add up to exactly 100. */
  lemma PercentagesSumTo100(t: Table)
    requires Sum(t, Total) > 0 && ConsistentTotals(t)
    ensures SumReals(YearlyPercentages(t)) == 100.0
  {
    PercentagesSum(t);
    ColumnsSumRows(t, NumYears);
    RowsSumTotals(t);
    PercentWhole(Sum(t, Total));
  }
}
