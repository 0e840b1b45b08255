/** `concise_round` (nodes/nodestats.py) and the `round(x, d)` it relies on,
    in exact rational arithmetic. Python rounds halves to the even neighbour,
    so `round(10.5) == 10` and `round(0.125, 2) == 0.12`. */
module Rounding {
  import opened Common

  function Abs(x: real): (a: real)
    ensures 0.0 <= a && (a == x || a == -x)
  {
    if x < 0.0 then -x else x
  }

  function Pow10(d: nat): (p: real)
    ensures p >= 1.0
  {
    if d == 0 then 1.0 else 10.0 * Pow10(d - 1)
  }

  /** Python's `round(y)`: the nearest integer, ties going to the even one. */
  function RoundHalfEvenInt(y: real): (n: int)
    ensures Abs(n as real - y) <= 0.5
    ensures Abs(n as real - y) == 0.5 ==> n % 2 == 0
  {
    var fl := y.Floor;
    var frac := y - fl as real;
    if frac < 0.5 then fl
    else if frac > 0.5 then fl + 1
    else if fl % 2 == 0 then fl
    else fl + 1
  }

  /** `x` in units of the `d`-th decimal place. */
  function Scaled(x: real, d: nat): real
  {
    x * Pow10(d)
  }

  /** Python's `round(x, d)` for `d >= 0`: `x` rounded to `d` decimal places. */
  function RoundHalfEven(x: real, d: nat): real
  {
    RoundHalfEvenInt(Scaled(x, d)) as real / Pow10(d)
  }

  /** `round(x, d)` has at most `d` decimals, is within half a unit of the
      last place from `x`, and on a tie ends in an even digit. */
  lemma RoundHalfEvenDecimal(x: real, d: nat)
    ensures var n := Scaled(RoundHalfEven(x, d), d);
            && n == n.Floor as real
            && Abs(n - Scaled(x, d)) <= 0.5
            && (Abs(n - Scaled(x, d)) == 0.5 ==> n.Floor % 2 == 0)
  {
    var m := RoundHalfEvenInt(Scaled(x, d)) as real;
    var p := Pow10(d);
    assert RoundHalfEven(x, d) == m / p;
    DivMul(m, p);
    assert Scaled(RoundHalfEven(x, d), d) == (m / p) * p;
  }

  lemma DivMul(a: real, p: real)
    requires p != 0.0
    ensures (a / p) * p == a
  {
  }

  /** No integer is nearer to `y` than its rounding. */
  lemma NearestInt(y: real, m: int)
    ensures Abs(RoundHalfEvenInt(y) as real - y) <= Abs(m as real - y)
  {
    var n := RoundHalfEvenInt(y);
    assert -0.5 <= n as real - y <= 0.5;
    if m < n {
      assert m as real <= n as real - 1.0;
    } else if m > n {
      assert m as real >= n as real + 1.0;
    }
  }

  /** Reference definition: an integer less than half away from `y`, or
      exactly half away and even, is the rounding of `y`. */
  lemma RoundHalfEvenIntUnique(y: real, m: int)
    requires Abs(m as real - y) < 0.5 || (Abs(m as real - y) == 0.5 && m % 2 == 0)
    ensures m == RoundHalfEvenInt(y)
  {
    var n := RoundHalfEvenInt(y);
    assert -1.0 <= m as real - n as real <= 1.0;
  }

  const Sensitivity: real := 0.1
  const MaxDigits: nat := 2

  /** `abs(1 - cand / f)`: how far a candidate is from `f`, relative to `f`. */
  function Change(f: real, cand: real): real
    requires f != 0.0
  {
    Abs(1.0 - cand / f)
  }

  /** Every candidate from `digits` places up to `MaxDigits` places stays
      within the sensitivity. */
  ghost predicate AcceptedFrom(f: real, digits: nat)
    requires f != 0.0
  {
    forall e: nat :: digits <= e <= MaxDigits ==> Change(f, RoundHalfEven(f, e)) <= Sensitivity
  }

  /** The `while digits >= 0` loop. Returns the last accepted candidate and
      the number of digits at which the loop stopped, or -1 when it ran down
      past zero digits. */
  function RoundingLoop(f: real, res: real, digits: int): (r: (real, int))
    requires f != 0.0
    requires -1 <= digits <= MaxDigits as int
    decreases digits + 1
  {
    if digits < 0 then (res, -1)
    else
      var cand := RoundHalfEven(f, digits as nat);
      if Change(f, cand) > Sensitivity then (res, digits)
      else RoundingLoop(f, cand, digits - 1)
  }

  lemma AcceptedStep(f: real, d: nat)
    requires f != 0.0 && d <= MaxDigits
    requires d < MaxDigits ==> AcceptedFrom(f, d + 1)
    requires Change(f, RoundHalfEven(f, d)) <= Sensitivity
    ensures AcceptedFrom(f, d)
  {
    forall e: nat | d <= e <= MaxDigits
      ensures Change(f, RoundHalfEven(f, e)) <= Sensitivity
    {
      if e > d {
        assert d + 1 <= e;
      }
    }
  }

  /** The loop keeps its result within the sensitivity. If it completes, the
      result is `round(f)` and every candidate was accepted; if it stops, it
      stops at the first rejected candidate and returns the one before. */
  lemma {:induction false} RoundingLoopSpec(f: real, res: real, digits: int)
    requires f != 0.0
    requires -1 <= digits <= MaxDigits as int
    requires Change(f, res) <= Sensitivity
    requires digits < MaxDigits as int ==> res == RoundHalfEven(f, (digits + 1) as nat) && AcceptedFrom(f, (digits + 1) as nat)
    ensures var (value, stop) := RoundingLoop(f, res, digits);
            && -1 <= stop <= digits
            && Change(f, value) <= Sensitivity
            && (stop == -1 ==> value == RoundHalfEven(f, 0) && AcceptedFrom(f, 0))
            && (stop >= 0 ==> !(Change(f, RoundHalfEven(f, stop as nat)) <= Sensitivity))
            && (0 <= stop < MaxDigits as int ==> value == RoundHalfEven(f, (stop + 1) as nat) && AcceptedFrom(f, (stop + 1) as nat))
            && (stop == MaxDigits as int ==> value == res)
    decreases digits + 1
  {
    if digits >= 0 {
      var cand := RoundHalfEven(f, digits as nat);
      if Change(f, cand) <= Sensitivity {
        AcceptedStep(f, digits as nat);
        RoundingLoopSpec(f, cand, digits - 1);
      }
    }
  }

  /** `concise_round(f)` as written: the candidates `round(f, 2)`,
      `round(f, 1)`, `round(f, 0)` are tried in turn and the last one within
      10% of `f` is kept. `f == 0` divides by zero. */
  function ConciseRound(f: real): (r: Result<real>)
    ensures r.Ok? <==> f != 0.0
    ensures r.Err? ==> r.error == ZeroDivision
    ensures r.Ok? ==> Change(f, r.value) <= Sensitivity
  {
    if f == 0.0 then Err(ZeroDivision)
    else
      RoundingLoopSpec(f, f, MaxDigits as int);
      var (res, stop) := RoundingLoop(f, f, MaxDigits as int);
      if stop >= 0 then Ok(res)
      else if res.Floor as real == res then Ok(res)
      else Err(NotIntegral)
  }

  /** The result is the most rounded candidate that, together with every
      finer candidate, stays within 10%; if even `round(f, 2)` is too far,
      `f` itself. */
  lemma ConciseRoundIsCoarsestAccepted(f: real)
    requires f != 0.0
    ensures var r := ConciseRound(f).value;
            || (r == f && !AcceptedFrom(f, MaxDigits))
            || exists d: nat :: d <= MaxDigits && AcceptedFrom(f, d) && r == RoundHalfEven(f, d)
                 && (d == 0 || !AcceptedFrom(f, d - 1))
  {
    RoundingLoopSpec(f, f, MaxDigits as int);
    var (res, stop) := RoundingLoop(f, f, MaxDigits as int);
    if stop == -1 {
      assert AcceptedFrom(f, 0) && res == RoundHalfEven(f, 0);
    } else if stop < MaxDigits as int {
      var d: nat := stop + 1;
      assert !AcceptedFrom(f, d - 1);
      assert AcceptedFrom(f, d) && res == RoundHalfEven(f, d);
    } else {
      assert !AcceptedFrom(f, MaxDigits);
    }
  }

  /** A nonzero number never rounds to zero, nor changes sign. */
  lemma ConciseRoundKeepsSign(f: real)
    requires f != 0.0
    ensures ConciseRound(f).value != 0.0
    ensures (ConciseRound(f).value > 0.0) == (f > 0.0)
  {
    var r := ConciseRound(f).value;
    assert Abs(1.0 - r / f) <= 0.1;
    PositiveShare(r, f);
  }

  lemma PositiveShare(r: real, f: real)
    requires f != 0.0 && r / f > 0.0
    ensures r != 0.0 && (r > 0.0) == (f > 0.0)
  {
    var q := r / f;
    DivMul(r, f);
    assert r == q * f;
  }

  /** `concise_round` is not idempotent: rounding 4.449 gives 4.4, and
      rounding that again gives 4. */
  lemma ConciseRoundNotIdempotent()
    ensures ConciseRound(4.449) == Ok(4.4)
    ensures ConciseRound(4.4) == Ok(4.0)
  {
    Row(4.449, 445, 44, 4);
    Row(4.4, 440, 44, 4);
  }

  // ---------------------------------------------------------------------
  // The corrected variant used by the report.

  /** `concise_round` with zero mapped to zero instead of dividing by it. */
  function ConciseRoundOrZero(f: real): (r: real)
    ensures r == 0.0 <==> f == 0.0
    ensures (r > 0.0) == (f > 0.0)
    ensures f != 0.0 ==> Change(f, r) <= Sensitivity
    ensures f != 0.0 ==> Ok(r) == ConciseRound(f)
  {
    if f == 0.0 then 0.0
    else
      ConciseRoundKeepsSign(f);
      ConciseRound(f).value
  }

  // ---------------------------------------------------------------------
  // The table of nodes/nodestats_test.py, five rows per lemma.

  lemma Pow10Small()
    ensures Pow10(0) == 1.0 && Pow10(1) == 10.0 && Pow10(2) == 100.0
  {
  }

  /** `round(x, d)` is `n` units of the `d`-th place when `n` is the nearest
      such value, an even one on a tie. */
  lemma RoundsTo(x: real, d: nat, n: int)
    requires Abs(n as real - Scaled(x, d)) < 0.5 || (Abs(n as real - Scaled(x, d)) == 0.5 && n % 2 == 0)
    ensures RoundHalfEven(x, d) == n as real / Pow10(d)
  {
    RoundHalfEvenIntUnique(Scaled(x, d), n);
  }

  lemma Row(f: real, n2: int, n1: int, n0: int)
    requires f != 0.0
    requires Abs(n2 as real - f * 100.0) < 0.5 || (Abs(n2 as real - f * 100.0) == 0.5 && n2 % 2 == 0)
    requires Abs(n1 as real - f * 10.0) < 0.5 || (Abs(n1 as real - f * 10.0) == 0.5 && n1 % 2 == 0)
    requires Abs(n0 as real - f) < 0.5 || (Abs(n0 as real - f) == 0.5 && n0 % 2 == 0)
    ensures var c2, c1, c0 := n2 as real / 100.0, n1 as real / 10.0, n0 as real;
            ConciseRound(f) == Ok(if Change(f, c2) > Sensitivity then f
                                  else if Change(f, c1) > Sensitivity then c2
                                  else if Change(f, c0) > Sensitivity then c1
                                  else c0)
  {
    var c2, c1, c0 := n2 as real / 100.0, n1 as real / 10.0, n0 as real;
    ThreeRoundings(f, n2, n1, n0);
    LoopOfCandidates(f, c2, c1, c0);
    ConciseRoundIsLoop(f);
  }

  lemma ThreeRoundings(f: real, n2: int, n1: int, n0: int)
    requires Abs(n2 as real - f * 100.0) < 0.5 || (Abs(n2 as real - f * 100.0) == 0.5 && n2 % 2 == 0)
    requires Abs(n1 as real - f * 10.0) < 0.5 || (Abs(n1 as real - f * 10.0) == 0.5 && n1 % 2 == 0)
    requires Abs(n0 as real - f) < 0.5 || (Abs(n0 as real - f) == 0.5 && n0 % 2 == 0)
    ensures RoundHalfEven(f, 2) == n2 as real / 100.0
    ensures RoundHalfEven(f, 1) == n1 as real / 10.0
    ensures RoundHalfEven(f, 0) == n0 as real
  {
    RoundsAt2(f, n2);
    RoundsAt1(f, n1);
    RoundsAt0(f, n0);
  }

  lemma RoundsAt2(f: real, n: int)
    requires Abs(n as real - f * 100.0) < 0.5 || (Abs(n as real - f * 100.0) == 0.5 && n % 2 == 0)
    ensures RoundHalfEven(f, 2) == n as real / 100.0
  {
    Pow10Small();
    assert Scaled(f, 2) == f * 100.0;
    RoundsTo(f, 2, n);
  }

  lemma RoundsAt1(f: real, n: int)
    requires Abs(n as real - f * 10.0) < 0.5 || (Abs(n as real - f * 10.0) == 0.5 && n % 2 == 0)
    ensures RoundHalfEven(f, 1) == n as real / 10.0
  {
    Pow10Small();
    assert Scaled(f, 1) == f * 10.0;
    RoundsTo(f, 1, n);
  }

  lemma RoundsAt0(f: real, n: int)
    requires Abs(n as real - f) < 0.5 || (Abs(n as real - f) == 0.5 && n % 2 == 0)
    ensures RoundHalfEven(f, 0) == n as real
  {
    Pow10Small();
    assert Scaled(f, 0) == f;
    RoundsTo(f, 0, n);
  }

  /** Away from zero, the result is whatever the loop ends with: a value
      rounded to no places is always an integer. */
  lemma ConciseRoundIsLoop(f: real)
    requires f != 0.0
    ensures ConciseRound(f) == Ok(RoundingLoop(f, f, MaxDigits as int).0)
  {
    RoundingLoopSpec(f, f, MaxDigits as int);
    var (res, stop) := RoundingLoop(f, f, MaxDigits as int);
    if stop == -1 {
      Pow10Small();
      assert res == RoundHalfEvenInt(Scaled(f, 0)) as real / 1.0;
      assert res.Floor as real == res;
    }
  }

  /** The loop unrolled over its three candidates. */
  lemma LoopOfCandidates(f: real, c2: real, c1: real, c0: real)
    requires f != 0.0
    requires RoundHalfEven(f, 2) == c2 && RoundHalfEven(f, 1) == c1 && RoundHalfEven(f, 0) == c0
    ensures RoundingLoop(f, f, 2) == if Change(f, c2) > Sensitivity then (f, 2)
                                     else if Change(f, c1) > Sensitivity then (c2, 1)
                                     else if Change(f, c0) > Sensitivity then (c1, 0)
                                     else (c0, -1)
  {
    if Change(f, c2) <= Sensitivity {
      assert RoundingLoop(f, f, 2) == RoundingLoop(f, c2, 1);
      if Change(f, c1) <= Sensitivity {
        assert RoundingLoop(f, c2, 1) == RoundingLoop(f, c1, 0);
        if Change(f, c0) <= Sensitivity {
          assert RoundingLoop(f, c1, 0) == RoundingLoop(f, c0, -1);
        }
      }
    }
  }

  lemma ConciseRoundTableA()
    ensures ConciseRound(48.01) == Ok(48.0)
    ensures ConciseRound(17.16) == Ok(17.0)
    ensures ConciseRound(10.5) == Ok(10.0)
    ensures ConciseRound(9.08) == Ok(9.0)
    ensures ConciseRound(7.72) == Ok(8.0)
  {
    Row(48.01, 4801, 480, 48);
    Row(17.16, 1716, 172, 17);
    Row(10.5, 1050, 105, 10);
    Row(9.08, 908, 91, 9);
    Row(7.72, 772, 77, 8);
  }

  lemma ConciseRoundTableB()
    ensures ConciseRound(5.98) == Ok(6.0)
    ensures ConciseRound(5.28) == Ok(5.0)
    ensures ConciseRound(4.88) == Ok(5.0)
    ensures ConciseRound(4.25) == Ok(4.0)
    ensures ConciseRound(2.42) == Ok(2.4)
  {
    Row(5.98, 598, 60, 6);
    Row(5.28, 528, 53, 5);
    Row(4.88, 488, 49, 5);
    Row(4.25, 425, 42, 4);
    Row(2.42, 242, 24, 2);
  }

  lemma ConciseRoundTableC()
    ensures ConciseRound(2.17) == Ok(2.0)
    ensures ConciseRound(2.03) == Ok(2.0)
    ensures ConciseRound(1.9) == Ok(2.0)
    ensures ConciseRound(1.8) == Ok(1.8)
    ensures ConciseRound(1.45) == Ok(1.4)
  {
    Row(2.17, 217, 22, 2);
    Row(2.03, 203, 20, 2);
    Row(1.9, 190, 19, 2);
    Row(1.8, 180, 18, 2);
    Row(1.45, 145, 14, 1);
  }

  lemma ConciseRoundTableD()
    ensures ConciseRound(1.42) == Ok(1.4)
    ensures ConciseRound(1.41) == Ok(1.4)
    ensures ConciseRound(0.9) == Ok(0.9)
    ensures ConciseRound(0.46) == Ok(0.5)
    ensures ConciseRound(0.36) == Ok(0.36)
  {
    Row(1.42, 142, 14, 1);
    Row(1.41, 141, 14, 1);
    Row(0.9, 90, 9, 1);
    Row(0.46, 46, 5, 0);
    Row(0.36, 36, 4, 0);
  }
}
