/** Shared vocabulary of the node statistics model: the failures the Python
    code raises, a result wrapper that carries them, and sums of sequences. */
module Common {

  /** One constructor per exception the modelled code can raise. */
  datatype Error =
    | DuplicateValue(value: string)   // ValueError from inverse_multidict, naming the element
    | EmptyMean                       // statistics.StatisticsError: mean of no data points
    | ZeroDivision                    // ZeroDivisionError
    | NotIntegral                     // "fully rounded float not equal to int"
    | YearOutOfRange                  // ValueError from date.replace: year outside 1..9999
    | DayOutOfRange                   // ValueError from date.replace: no such day in the month
    | IndexOutOfRange                 // IndexError from indexing a split list

  datatype Result<+T> = Ok(value: T) | Err(error: Error) {
    predicate IsFailure() {
      Err?
    }

    function PropagateFailure<U>(): Result<U>
      requires Err?
    {
      Err(error)
    }

    function Extract(): T
      requires Ok?
    {
      value
    }
  }

  /** A non-empty sequence is its front followed by its last element. */
  lemma ButLast<T>(s: seq<T>)
    requires |s| > 0
    ensures s == s[..|s| - 1] + [s[|s| - 1]]
  {
  }

  /** Sum of a sequence of reals, left to right. */
  function Sum(xs: seq<real>): real
  {
    if |xs| == 0 then 0.0 else xs[0] + Sum(xs[1..])
  }

  /** Sum of a sequence of naturals. */
  function SumNat(xs: seq<nat>): nat
  {
    if |xs| == 0 then 0 else xs[0] + SumNat(xs[1..])
  }

  ghost predicate AllNonNegative(xs: seq<real>)
  {
    forall i :: 0 <= i < |xs| ==> 0.0 <= xs[i]
  }

  lemma {:induction false} SumConcat(a: seq<real>, b: seq<real>)
    ensures Sum(a + b) == Sum(a) + Sum(b)
    decreases |a|
  {
    if |a| == 0 {
      assert a + b == b;
    } else {
      assert (a + b)[1..] == a[1..] + b;
      SumConcat(a[1..], b);
    }
  }

  /** Shares of one non-zero whole add up to the share of their sum. */
  lemma {:induction false} SumScaled(xs: seq<real>, ys: seq<real>, d: real)
    requires d != 0.0
    requires |xs| == |ys|
    requires forall i :: 0 <= i < |xs| ==> ys[i] == xs[i] / d
    ensures Sum(ys) == Sum(xs) / d
    decreases |xs|
  {
    if |xs| > 0 {
      SumScaled(xs[1..], ys[1..], d);
      SharesAdd(xs[0], Sum(xs[1..]), d);
    }
  }

  /** Shares of one whole add. */
  lemma SharesAdd(a: real, b: real, d: real)
    requires d != 0.0
    ensures a / d + b / d == (a + b) / d
  {
  }

  /** A share of a positive whole, taken of a part of it, lies in [0, 1]. */
  lemma ShareBounds(part: real, whole: real)
    requires 0.0 < whole && 0.0 <= part <= whole
    ensures 0.0 <= part / whole <= 1.0
  {
  }

  /** A sum of non-negative reals is non-negative and bounds each of its terms. */
  lemma {:induction false} SumBoundsTerms(xs: seq<real>)
    requires AllNonNegative(xs)
    ensures 0.0 <= Sum(xs)
    ensures forall i :: 0 <= i < |xs| ==> xs[i] <= Sum(xs)
    decreases |xs|
  {
    if |xs| > 0 {
      SumBoundsTerms(xs[1..]);
      forall i | 0 < i < |xs|
        ensures xs[i] <= Sum(xs)
      {
        assert xs[i] == xs[1..][i - 1];
      }
    }
  }
}
