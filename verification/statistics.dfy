/**
 * The statistics page (`Statistics.tsx`) apart from its streaks: the
 * rounded average completion of a window, the monthly field totals, the
 * hours figure and the colour of each recent record's rate dot.
 */
module Statistics {
  import opened Common
  import opened Types

  function Rate(s: DailyStats): int { s.completionRate }
  function Distance(s: DailyStats): real { s.totalDistance }
  function Duration(s: DailyStats): int { s.totalDuration }
  function CaloriesTotal(s: DailyStats): int { s.totalCalories }

  /** `calculateAverage`: zero for no values, else the mean rounded to the
      nearest integer with halves rounded up. */
  function Average(values: seq<int>): (r: int)
    ensures |values| == 0 ==> r == 0
    ensures |values| > 0 ==>
              |values| * (2 * r - 1) <= 2 * SumInt(values, (v: int) => v) < |values| * (2 * r + 1)
  {
    if |values| == 0 then 0 else RoundDiv(SumInt(values, (v: int) => v), |values|)
  }

  /** The completion rates of a list of records, in order. */
  function Rates(stats: seq<DailyStats>): (r: seq<int>)
    ensures |r| == |stats|
    ensures forall i :: 0 <= i < |stats| ==> r[i] == stats[i].completionRate
  {
    seq(|stats|, i requires 0 <= i < |stats| => stats[i].completionRate)
  }

  /** A sum of values all within [lo, hi] lies within n*lo and n*hi. */
  lemma {:induction false} SumBounds(values: seq<int>, lo: int, hi: int)
    requires forall i :: 0 <= i < |values| ==> lo <= values[i] <= hi
    ensures |values| * lo <= SumInt(values, (v: int) => v) <= |values| * hi
  {
    if |values| > 0 {
      SumBounds(values[1..], lo, hi);
    }
  }

  /** The average of a non-empty list lies between its smallest and its
      largest value (rounding never leaves that range for integer input). */
  lemma AverageBounds(values: seq<int>, lo: int, hi: int)
    requires |values| > 0
    requires forall i :: 0 <= i < |values| ==> lo <= values[i] <= hi
    ensures lo <= Average(values) <= hi
  {
    var n := |values|;
    var s := SumInt(values, (v: int) => v);
    var r := Average(values);
    SumBounds(values, lo, hi);
    assert n * (2 * hi + 1) == 2 * (n * hi) + n;
    assert n * (2 * lo - 1) == 2 * (n * lo) - n;
    MulMonotone(n, 2 * hi + 1, 2 * r - 1);
    MulMonotone(n, 2 * r + 1, 2 * lo - 1);
  }

  /** An average of completion rates (each 0..100) is itself a rate. */
  lemma AverageOfRates(stats: seq<DailyStats>)
    requires forall i :: 0 <= i < |stats| ==> 0 <= stats[i].completionRate <= 100
    ensures 0 <= Average(Rates(stats)) <= 100
  {
    if |stats| > 0 {
      AverageBounds(Rates(stats), 0, 100);
    }
  }

  /** The three monthly totals: field sums over the monthly records. */
  datatype Totals = Totals(distance: real, duration: int, calories: int)

  function MonthlyTotals(monthly: seq<DailyStats>): (r: Totals)
    ensures |monthly| == 0 ==> r == Totals(0.0, 0, 0)
    ensures (forall i :: 0 <= i < |monthly| ==> monthly[i].totalDuration >= 0) ==> r.duration >= 0
    ensures (forall i :: 0 <= i < |monthly| ==> monthly[i].totalCalories >= 0) ==> r.calories >= 0
  {
    NonNegativeSum(monthly, Duration);
    NonNegativeSum(monthly, CaloriesTotal);
    Totals(SumReal(monthly, Distance), SumInt(monthly, Duration), SumInt(monthly, CaloriesTotal))
  }

  /** A sum of non-negative terms is non-negative. */
  lemma {:induction false} NonNegativeSum(xs: seq<DailyStats>, f: DailyStats -> int)
    ensures (forall i :: 0 <= i < |xs| ==> f(xs[i]) >= 0) ==> SumInt(xs, f) >= 0
  {
    if |xs| > 0 {
      NonNegativeSum(xs[1..], f);
      assert forall i :: 1 <= i < |xs| ==> xs[1..][i - 1] == xs[i];
    }
  }

  /** Appending one more record adds its fields to the totals. */
  lemma TotalsAppend(monthly: seq<DailyStats>, s: DailyStats)
    ensures MonthlyTotals(monthly + [s]) ==
            Totals(MonthlyTotals(monthly).distance + s.totalDistance,
                   MonthlyTotals(monthly).duration + s.totalDuration,
                   MonthlyTotals(monthly).calories + s.totalCalories)
  {
    SumIntConcat(monthly, [s], Duration);
    SumIntConcat(monthly, [s], CaloriesTotal);
    SumRealConcat(monthly, [s], Distance);
  }

  /** "Hours Exercised": the total minutes divided by sixty, rounded. */
  function HoursExercised(totalDuration: int): (r: int)
    ensures 60 * (2 * r - 1) <= 2 * totalDuration < 60 * (2 * r + 1)
    ensures totalDuration >= 0 ==> r >= 0
  {
    RoundDiv(totalDuration, 60)
  }

  datatype DotColour = Green | Amber | Orange | Red

  /** The colour of the rate dot next to a recent record: one of four bands
      by completion rate. */
  function RateDot(rate: int): (r: DotColour)
    ensures r == Green <==> rate >= 90
    ensures r == Amber <==> 70 <= rate < 90
    ensures r == Orange <==> 50 <= rate < 70
    ensures r == Red <==> rate < 50
  {
    if rate >= 90 then Green
    else if rate >= 70 then Amber
    else if rate >= 50 then Orange
    else Red
  }
}
