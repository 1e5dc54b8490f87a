/**
  The salary estimator: one representative figure for a salary range.

  A bound of 0 stands for an absent bound: the program only tests the bounds
  for truthiness, so `None` and `0` behave alike. The float products
  `upper * 0.8` and `lower * 1.2` followed by `int(...)`, and `int(mean(...))`
  of two integers, are modelled as exact floor divisions, which is what they
  compute for non-negative salaries of realistic size.
 */
module Salary {
  import opened Wrappers

  function Min(a: nat, b: nat): nat { if a <= b then a else b }
  function Max(a: nat, b: nat): nat { if a <= b then b else a }

  /** The estimate for the range [lower, upper]; None when both bounds are absent. */
  function PredictRubSalary(lower: nat, upper: nat): (r: Option<nat>)
    // an estimate exists exactly when some bound is present
    ensures r.Some? <==> lower > 0 || upper > 0
    // both bounds: the truncated mean, which lies inside the range
    ensures lower > 0 && upper > 0 ==>
      && r.Some?
      && 2 * r.value <= lower + upper < 2 * r.value + 2
      && Min(lower, upper) <= r.value <= Max(lower, upper)
    // only the upper bound: 80% of it, truncated, never above the bound
    ensures lower == 0 && upper > 0 ==>
      && r.Some?
      && 5 * r.value <= 4 * upper < 5 * r.value + 5
      && r.value <= upper
    // only the lower bound: 120% of it, truncated, never below the bound
    ensures lower > 0 && upper == 0 ==>
      && r.Some?
      && 5 * r.value <= 6 * lower < 5 * r.value + 5
      && lower <= r.value
    // the only falsy estimate is 80% of an upper bound of 1
    ensures r == Some(0) <==> lower == 0 && upper == 1
  {
    if lower > 0 && upper > 0 then Some((lower + upper) / 2)
    else if lower == 0 && upper > 0 then Some(upper * 4 / 5)
    else if lower > 0 && upper == 0 then Some(lower * 6 / 5)
    else None
  }

  /** Worked examples of the estimator. */
  lemma EstimatorExamples()
    ensures PredictRubSalary(100, 200) == Some(150)
    ensures PredictRubSalary(0, 200) == Some(160)
    ensures PredictRubSalary(100, 0) == Some(120)
    ensures PredictRubSalary(0, 0) == None
  {
  }
}
