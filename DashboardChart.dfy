/**
 * The series the dashboard derives from the uploaded rows before handing them
 * to the charts: x-axis labels, per-row calories, their running sum, a
 * three-point moving average, total distance per row, the two category
 * totals of the pie chart and the pie's percentage labels.
 *
 * Numbers are exact reals; sums are taken left to right, as `reduce` does.
 */
module DashboardChart {
  import opened Wrappers
  import Decimal

  /**
   * One row of the spreadsheet, reduced to the five numeric columns the charts
   * read: Kcal_Total, Kcal_Corrida (running), Kcal_Bike (cycling),
   * Distancia_Corrida and Distancia_Bike.
   */
  datatype Session = Session(
    kcalTotal: real,
    kcalRunning: real,
    kcalCycling: real,
    distRunning: real,
    distCycling: real)

  /**
   * The sum of a list taken left to right from 0, as a reduction with an
   * accumulator does it; never negative when no entry is.
   */
  function Sum(s: seq<real>): (r: real)
    ensures (forall i :: 0 <= i < |s| ==> s[i] >= 0.0) ==> r >= 0.0
  {
    if s == [] then 0.0 else Sum(s[..|s| - 1]) + s[|s| - 1]
  }

  /** Summing a concatenation sums the parts. */
  lemma {:induction false} SumAppend(a: seq<real>, b: seq<real>)
    ensures Sum(a + b) == Sum(a) + Sum(b)
    decreases |b|
  {
    if b == [] {
      assert a + b == a;
    } else {
      var b' := b[..|b| - 1];
      assert (a + b)[..|a + b| - 1] == a + b';
      SumAppend(a, b');
    }
  }

  /** Sums of two and three values, unfolded. */
  lemma SumOfFew(x: real, y: real, z: real)
    ensures Sum([x, y]) == x + y
    ensures Sum([x, y, z]) == x + y + z
  {
    assert [x][..0] == [];
    assert Sum([x]) == x;
    assert [x, y][..1] == [x];
    assert Sum([x, y]) == x + y;
    assert [x, y, z][..2] == [x, y];
  }

  /** A sum of non-negative values is at least each of them and at least zero. */
  lemma {:induction false} SumBounds(s: seq<real>)
    requires forall i :: 0 <= i < |s| ==> s[i] >= 0.0
    ensures Sum(s) >= 0.0
    ensures forall i :: 0 <= i < |s| ==> s[i] <= Sum(s)
    decreases |s|
  {
    if s != [] {
      SumBounds(s[..|s| - 1]);
    }
  }

  // ----- columns of the rows -----

  function KcalTotal(data: seq<Session>): (r: seq<real>)
    ensures |r| == |data|
  {
    seq(|data|, i requires 0 <= i < |data| => data[i].kcalTotal)
  }

  function KcalRunning(data: seq<Session>): (r: seq<real>)
    ensures |r| == |data|
  {
    seq(|data|, i requires 0 <= i < |data| => data[i].kcalRunning)
  }

  function KcalCycling(data: seq<Session>): (r: seq<real>)
    ensures |r| == |data|
  {
    seq(|data|, i requires 0 <= i < |data| => data[i].kcalCycling)
  }

  function DistRunning(data: seq<Session>): (r: seq<real>)
    ensures |r| == |data|
  {
    seq(|data|, i requires 0 <= i < |data| => data[i].distRunning)
  }

  function DistCycling(data: seq<Session>): (r: seq<real>)
    ensures |r| == |data|
  {
    seq(|data|, i requires 0 <= i < |data| => data[i].distCycling)
  }

  // ----- x-axis labels -----

  /** One x-axis label per row: the day number of the row, counting from 1. */
  function Labels(data: seq<Session>): (r: seq<string>)
    ensures |r| == |data|
  {
    seq(|data|, i requires 0 <= i < |data| => Decimal.NatToString(i + 1))
  }

  /** There is one label per row, and label `i` is the numeral, without leading zero, that reads as `i + 1`. */
  lemma LabelsAreDayNumbers(data: seq<Session>)
    ensures |Labels(data)| == |data|
    ensures forall i :: 0 <= i < |data| ==>
      Decimal.ParseDecimal(Labels(data)[i]) == Some(i + 1) && Labels(data)[i][0] != '0'
  {
    forall i | 0 <= i < |data|
      ensures Decimal.ParseDecimal(Labels(data)[i]) == Some(i + 1)
    {
      Decimal.ParseIntToString(i + 1);
    }
  }

  // ----- cumulative calories -----

  /**
   * The running sum of the per-row calories, written entry by entry into an
   * array while an accumulator carries the sum so far.  Entry `i` is the sum
   * of entries `0..i` inclusive, so it depends on no later row; the first entry
   * is the first value and each later entry exceeds the previous one by
   * exactly the value at its index.
   */
  method CumulativeKcal(t: seq<real>) returns (c: seq<real>)
    ensures |c| == |t|
    ensures forall i :: 0 <= i < |t| ==> c[i] == Sum(t[..i + 1])
    ensures |t| > 0 ==> c[0] == t[0]
    ensures forall i :: 0 < i < |t| ==> c[i] - c[i - 1] == t[i]
  {
    var cumulative := new real[|t|];
    var acc := 0.0;
    var i := 0;
    while i < |t|
      invariant 0 <= i <= |t|
      invariant acc == Sum(t[..i])
      invariant forall k :: 0 <= k < i ==> cumulative[k] == Sum(t[..k + 1])
    {
      assert t[..i + 1][..i] == t[..i];
      cumulative[i] := acc + t[i];
      acc := acc + t[i];
      i := i + 1;
    }
    c := cumulative[..];
    forall i | 0 < i < |t|
      ensures c[i] - c[i - 1] == t[i]
    {
      assert t[..i + 1][..i] == t[..i];
    }
    if |t| > 0 {
      assert t[..1][..0] == [];
    }
  }

  // ----- moving average -----

  /**
   * The three-point moving average: absent (`null`) at indices 0 and 1, else
   * the mean of the value at `i` and the two before it.
   */
  function MovingAvg(t: seq<real>): (r: seq<Option<real>>)
    ensures |r| == |t|
  {
    seq(|t|, i requires 0 <= i < |t| =>
      if i < 2 then None else Some((t[i - 2] + t[i - 1] + t[i]) / 3.0))
  }

  /** The first two entries are absent, so an input shorter than three gives nothing but gaps. */
  lemma MovingAvgLeadingGaps(t: seq<real>)
    ensures forall i :: 0 <= i < |t| && i < 2 ==> MovingAvg(t)[i] == None
    ensures |t| < 3 ==> forall i :: 0 <= i < |t| ==> MovingAvg(t)[i] == None
  {
  }

  /** From index 2 on, the entry is the sum of the window `i-2..i` divided by three. */
  lemma MovingAvgIsWindowMean(t: seq<real>, i: int)
    requires 2 <= i < |t|
    ensures MovingAvg(t)[i] == Some(Sum(t[i - 2..i + 1]) / 3.0)
  {
    assert t[i - 2..i + 1] == [t[i - 2], t[i - 1], t[i]];
    SumOfFew(t[i - 2], t[i - 1], t[i]);
  }

  /** Entry `i` is determined by the entries `0..i` of the input: later rows never change it. */
  lemma MovingAvgIsCausal(t: seq<real>, u: seq<real>, i: int)
    requires 0 <= i < |t| && i < |u|
    requires t[..i + 1] == u[..i + 1]
    ensures MovingAvg(t)[i] == MovingAvg(u)[i]
  {
    if i >= 2 {
      assert t[i - 2] == t[..i + 1][i - 2] == u[..i + 1][i - 2] == u[i - 2];
      assert t[i - 1] == t[..i + 1][i - 1] == u[..i + 1][i - 1] == u[i - 1];
      assert t[i] == t[..i + 1][i] == u[..i + 1][i] == u[i];
    }
  }

  /** The example of a three-row input: calories 10, 20, 30 average to gap, gap, 20. */
  lemma MovingAvgExample()
    ensures MovingAvg([10.0, 20.0, 30.0]) == [None, None, Some(20.0)]
  {
  }

  // ----- total distance -----

  /** Per row, the running distance plus the cycling distance at the same index. */
  function TotalDistance(data: seq<Session>): (r: seq<real>)
    ensures |r| == |data|
  {
    seq(|data|, i requires 0 <= i < |data| => DistRunning(data)[i] + DistCycling(data)[i])
  }

  /**
   * The total-distance series adds the two distance series entry by entry,
   * so over the whole list it sums to the running total plus the cycling total.
   */
  lemma {:induction false} TotalDistanceSum(data: seq<Session>)
    ensures forall i :: 0 <= i < |data| ==>
      TotalDistance(data)[i] == data[i].distRunning + data[i].distCycling
    ensures Sum(TotalDistance(data)) == Sum(DistRunning(data)) + Sum(DistCycling(data))
    decreases |data|
  {
    if data != [] {
      var front := data[..|data| - 1];
      TotalDistanceSum(front);
      assert DistRunning(data)[..|data| - 1] == DistRunning(front);
      assert DistCycling(data)[..|data| - 1] == DistCycling(front);
      assert TotalDistance(data)[..|data| - 1] == TotalDistance(front);
    }
  }

  // ----- pie chart: category totals and percentages -----

  /** The running calories of all rows, summed left to right; 0 for no rows, never negative when no row is. */
  function TotalKcalRunning(data: seq<Session>): (r: real)
    ensures data == [] ==> r == 0.0
    ensures (forall i :: 0 <= i < |data| ==> data[i].kcalRunning >= 0.0) ==> r >= 0.0
  {
    Sum(KcalRunning(data))
  }

  /** The cycling calories of all rows, summed left to right; 0 for no rows, never negative when no row is. */
  function TotalKcalCycling(data: seq<Session>): (r: real)
    ensures data == [] ==> r == 0.0
    ensures (forall i :: 0 <= i < |data| ==> data[i].kcalCycling >= 0.0) ==> r >= 0.0
  {
    Sum(KcalCycling(data))
  }

  /**
   * The category totals are 0 for no rows, add up over a split of the rows
   * into a front and a back, and are never negative when no row is.
   */
  lemma CategoryTotalsProperties(front: seq<Session>, back: seq<Session>)
    ensures TotalKcalRunning([]) == 0.0 && TotalKcalCycling([]) == 0.0
    ensures TotalKcalRunning(front + back) == TotalKcalRunning(front) + TotalKcalRunning(back)
    ensures TotalKcalCycling(front + back) == TotalKcalCycling(front) + TotalKcalCycling(back)
    ensures (forall i :: 0 <= i < |front| ==> front[i].kcalRunning >= 0.0) ==> TotalKcalRunning(front) >= 0.0
    ensures (forall i :: 0 <= i < |front| ==> front[i].kcalCycling >= 0.0) ==> TotalKcalCycling(front) >= 0.0
  {
    assert KcalRunning(front + back) == KcalRunning(front) + KcalRunning(back);
    assert KcalCycling(front + back) == KcalCycling(front) + KcalCycling(back);
    SumAppend(KcalRunning(front), KcalRunning(back));
    SumAppend(KcalCycling(front), KcalCycling(back));
    if forall i :: 0 <= i < |front| ==> front[i].kcalRunning >= 0.0 {
      SumBounds(KcalRunning(front));
    }
    if forall i :: 0 <= i < |front| ==> front[i].kcalCycling >= 0.0 {
      SumBounds(KcalCycling(front));
    }
  }

  /** The pie chart's one data set: running calories, then cycling calories. */
  function PieSlices(data: seq<Session>): (r: seq<real>)
    ensures |r| == 2
  {
    [TotalKcalRunning(data), TotalKcalCycling(data)]
  }

  /** Every row's running plus cycling calories. */
  function KcalBoth(data: seq<Session>): (r: seq<real>)
    ensures |r| == |data|
  {
    seq(|data|, i requires 0 <= i < |data| => data[i].kcalRunning + data[i].kcalCycling)
  }

  /**
   * The first slice is the running total and the second the cycling total,
   * and together the two slices hold every row's running and cycling calories.
   */
  lemma {:induction false} PieSlicesTotal(data: seq<Session>)
    ensures PieSlices(data)[0] == Sum(KcalRunning(data))
    ensures PieSlices(data)[1] == Sum(KcalCycling(data))
    ensures Sum(PieSlices(data)) == Sum(KcalBoth(data))
    decreases |data|
  {
    SumOfFew(TotalKcalRunning(data), TotalKcalCycling(data), 0.0);
    assert PieSlices(data) == [TotalKcalRunning(data), TotalKcalCycling(data)];
    if data != [] {
      var front := data[..|data| - 1];
      PieSlicesTotal(front);
      SumOfFew(TotalKcalRunning(front), TotalKcalCycling(front), 0.0);
      assert PieSlices(front) == [TotalKcalRunning(front), TotalKcalCycling(front)];
      assert KcalRunning(data)[..|data| - 1] == KcalRunning(front);
      assert KcalCycling(data)[..|data| - 1] == KcalCycling(front);
      assert KcalBoth(data)[..|data| - 1] == KcalBoth(front);
    }
  }

  /**
   * The label of a pie slice: `value * 100 / sum`, where `sum` is the left
   * fold of the whole data set.  A zero sum makes the source divide by zero
   * (its label is then not a number); the model gives `None` there.
   */
  function Percentage(value: real, slices: seq<real>): (r: Option<real>)
    ensures r.Some? <==> Sum(slices) != 0.0
    ensures r.Some? ==> r.value * Sum(slices) == value * 100.0
  {
    var sum := Sum(slices);
    if sum == 0.0 then None else Some(value * 100.0 / sum)
  }

  /**
   * For a nonzero sum both slices have a label, and the two labels add up to
   * exactly 100; with no negative slice each lies in [0, 100].
   */
  lemma PercentagesOfPie(data: seq<Session>)
    requires Sum(PieSlices(data)) != 0.0
    ensures var s := PieSlices(data);
      Percentage(s[0], s).Some? && Percentage(s[1], s).Some? &&
      Percentage(s[0], s).value + Percentage(s[1], s).value == 100.0
    ensures var s := PieSlices(data);
      s[0] >= 0.0 && s[1] >= 0.0 ==>
        0.0 <= Percentage(s[0], s).value <= 100.0 && 0.0 <= Percentage(s[1], s).value <= 100.0
  {
    var s := PieSlices(data);
    SumOfFew(s[0], s[1], 0.0);
    assert s == [s[0], s[1]];
    SharesOfTwo(s[0], s[1]);
  }

  /** The shares `a * 100 / (a + b)` and `b * 100 / (a + b)` of a nonzero sum add up to 100, and lie in [0, 100] for non-negative parts. */
  lemma SharesOfTwo(a: real, b: real)
    requires a + b != 0.0
    ensures a * 100.0 / (a + b) + b * 100.0 / (a + b) == 100.0
    ensures a >= 0.0 && b >= 0.0 ==>
      0.0 <= a * 100.0 / (a + b) <= 100.0 && 0.0 <= b * 100.0 / (a + b) <= 100.0
  {
    var sum := a + b;
    assert a * 100.0 / sum + b * 100.0 / sum == (a + b) * 100.0 / sum;
  }

  /** The example of totals 300 and 700: labels 30 and 70. */
  lemma PercentageExample()
    ensures Percentage(300.0, [300.0, 700.0]) == Some(30.0)
    ensures Percentage(700.0, [300.0, 700.0]) == Some(70.0)
  {
    SumOfFew(300.0, 700.0, 0.0);
  }
}
