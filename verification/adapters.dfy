/**
  Source adapters: each job board's vacancy record is filtered by currency and
  projected onto the (lower, upper) pair the estimator takes.
 */
module Adapters {
  import opened Wrappers
  import opened Salary

  /**
    The salary part of a vacancy: SuperJob's `currency`, `payment_from`,
    `payment_to`, or HeadHunter's `salary` object with `currency`, `from`, `to`.
    A bound of 0 is an absent bound.
   */
  datatype Vacancy = Vacancy(currency: string, lower: nat, upper: nat)

  /** A salary range handed to the estimator; 0 is an absent bound. */
  datatype Bounds = Bounds(lower: nat, upper: nat)

  const SjCurrency: string := "rub"
  const HhCurrency: string := "RUR"

  /** SuperJob adapter. */
  function SjBounds(v: Vacancy): (b: Bounds)
    // a foreign currency yields no bounds at all
    ensures v.currency != SjCurrency ==> b == Bounds(0, 0)
    // in roubles the record's bounds are passed through unchanged
    ensures v.currency == SjCurrency ==> b == Bounds(v.lower, v.upper)
  {
    if v.currency != SjCurrency then Bounds(0, 0)
    else if v.lower > 0 && v.upper > 0 then Bounds(v.lower, v.upper)
    else if v.lower == 0 then Bounds(0, v.upper)
    else Bounds(v.lower, 0)
  }

  /**
    HeadHunter adapter as the program has it: the lower-bound-only branch
    returns the (absent) upper bound in the lower position.
   */
  function HhBounds(v: Vacancy): (b: Bounds)
    ensures v.currency != HhCurrency ==> b == Bounds(0, 0)
    // with an upper bound the record's bounds are passed through
    ensures v.currency == HhCurrency && v.upper > 0 ==> b == Bounds(v.lower, v.upper)
    // without an upper bound nothing survives, the lower bound included
    ensures v.currency == HhCurrency && v.upper == 0 ==> b == Bounds(0, 0)
  {
    if v.currency != HhCurrency then Bounds(0, 0)
    else if v.lower > 0 && v.upper > 0 then Bounds(v.lower, v.upper)
    else if v.lower == 0 then Bounds(0, v.upper)
    else Bounds(v.upper, 0)
  }

  /**
    HeadHunter adapter as evidently intended: the lower-bound-only branch
    returns the lower bound.
   */
  function HhBoundsFixed(v: Vacancy): (b: Bounds)
    ensures v.currency != HhCurrency ==> b == Bounds(0, 0)
    ensures v.currency == HhCurrency ==> b == Bounds(v.lower, v.upper)
  {
    if v.currency != HhCurrency then Bounds(0, 0)
    else if v.lower > 0 && v.upper > 0 then Bounds(v.lower, v.upper)
    else if v.lower == 0 then Bounds(0, v.upper)
    else Bounds(v.lower, 0)
  }

  /** The estimate the program computes for a SuperJob vacancy. */
  function SjEstimate(v: Vacancy): (r: Option<nat>)
    // an estimate exists exactly for a rouble vacancy with some bound
    ensures r.Some? <==> v.currency == SjCurrency && (v.lower > 0 || v.upper > 0)
    // and it is the estimator's figure for the record's own bounds
    ensures v.currency == SjCurrency ==> r == PredictRubSalary(v.lower, v.upper)
  {
    var b := SjBounds(v);
    PredictRubSalary(b.lower, b.upper)
  }

  /** The estimate the program computes for a HeadHunter vacancy. */
  function HhEstimate(v: Vacancy): (r: Option<nat>)
    // an estimate exists exactly for a rouble vacancy with an upper bound
    ensures r.Some? <==> v.currency == HhCurrency && v.upper > 0
    // and it is then the estimator's figure for the record's own bounds
    ensures v.currency == HhCurrency && v.upper > 0 ==> r == PredictRubSalary(v.lower, v.upper)
  {
    var b := HhBounds(v);
    PredictRubSalary(b.lower, b.upper)
  }

  /** A currency mismatch leaves the vacancy without an estimate, on either board. */
  lemma CurrencyMismatchHasNoEstimate(v: Vacancy)
    ensures v.currency != SjCurrency ==> SjEstimate(v) == None
    ensures v.currency != HhCurrency ==> HhEstimate(v) == None
  {
  }

  /** A rouble HeadHunter vacancy offering only a lower bound is dropped as written. */
  lemma HhLowerOnlyDropped()
    ensures HhBounds(Vacancy(HhCurrency, 100000, 0)) == Bounds(0, 0)
    ensures HhEstimate(Vacancy(HhCurrency, 100000, 0)) == None
    ensures PredictRubSalary(100000, 0) == Some(120000)
  {
  }

  /** The corrected adapter differs from the written one on lower-bound-only rouble vacancies alone. */
  lemma HhFixedDiffersOnlyOnLowerOnly(v: Vacancy)
    ensures HhBoundsFixed(v) != HhBounds(v) <==> v.currency == HhCurrency && v.lower > 0 && v.upper == 0
    ensures v.currency == HhCurrency && v.lower > 0 && v.upper == 0 ==>
      PredictRubSalary(HhBoundsFixed(v).lower, HhBoundsFixed(v).upper).Some?
  {
  }
}
