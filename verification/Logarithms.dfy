/** The code function as p * log(p), and what follows from the law of the logarithm. */
module Logarithms {
  import opened Sums
  import opened MapEquations

  const NEGLIGIBLE: real := 0.0000000000000001

  /** The code function is p * log(p) for some logarithm. */
  ghost predicate IsPLogP(code: Code, log: real -> real)
  {
    && (forall p: real :: p > 0.0 ==> code.PLogP(p) == p * log(p))
    && code.PLogP(0.0) == 0.0
    && forall x: real, y: real :: x > 0.0 && y > 0.0 ==> log(x / y) == log(x) - log(y)
  }

  function Logs(code: Code, ws: seq<real>): (r: seq<real>)
    ensures |r| == |ws| && forall i :: 0 <= i < |r| ==> r[i] == code.PLogP(ws[i])
  {
    seq(|ws|, i requires 0 <= i < |ws| => code.PLogP(ws[i]))
  }

  /** T * plogp(x / T) == plogp(x) - x * log(T). */
  lemma {:induction false} NormalisedTerm(code: Code, log: real -> real, x: real, total: real)
    requires IsPLogP(code, log) && x >= 0.0 && total > 0.0
    ensures total * code.PLogP(x / total) == code.PLogP(x) - x * log(total)
  {
    hide IsPLogP, Code.PLogP;
    if x == 0.0 {
      assert x / total == 0.0;
      PLogPOf(code, log, total);
    } else {
      Quotient(x, total, log(x), log(total));
      LogOfQuotient(code, log, x, total);
      PLogPOf(code, log, x / total);
      PLogPOf(code, log, x);
    }
  }

  lemma {:induction false} PLogPOf(code: Code, log: real -> real, p: real)
    requires IsPLogP(code, log) && p > 0.0
    ensures code.PLogP(p) == p * log(p) && code.PLogP(0.0) == 0.0
  {
  }

  lemma {:induction false} LogOfQuotient(code: Code, log: real -> real, x: real, y: real)
    requires IsPLogP(code, log) && x > 0.0 && y > 0.0
    ensures log(x / y) == log(x) - log(y)
  {
  }

  lemma {:induction false} Quotient(x: real, total: real, a: real, b: real)
    requires x > 0.0 && total > 0.0
    ensures x / total > 0.0
    ensures total * ((x / total) * (a - b)) == x * a - x * b
  {
    var r := x / total;
    assert total * r == x;
    assert total * (r * (a - b)) == (total * r) * (a - b);
  }

  /** The logarithm grows with its argument. */
  ghost predicate Grows(log: real -> real)
  {
    forall x: real, y: real :: 0.0 < x <= y ==> log(x) <= log(y)
  }

  /** What an outcome of probability p takes. */
  ghost function Surprise(log: real -> real, p: real): real
  {
    if p > 0.0 then -(p * log(p)) else 0.0
  }

  lemma {:induction false} SurpriseAtLeastZero(code: Code, log: real -> real, p: real)
    requires IsPLogP(code, log) && Grows(log) && p <= 1.0
    ensures Surprise(log, p) >= 0.0
  {
    hide Code.PLogP;
    LogOfQuotient(code, log, 1.0, 1.0);
    if p > 0.0 {
      assert log(p) <= log(1.0) == 0.0;
      NotPositive(p, log(p));
    }
  }

  lemma {:induction false} NotPositive(p: real, x: real)
    requires p >= 0.0 && x <= 0.0
    ensures p * x <= 0.0
  {
  }

  /** T * (-(x / T) * log(x / T)) == x * log(T) - plogp(x). */
  lemma {:induction false} SurpriseOfShare(code: Code, log: real -> real, x: real, total: real)
    requires IsPLogP(code, log) && x >= 0.0 && total > 0.0
    ensures total * Surprise(log, x / total) == x * log(total) - code.PLogP(x)
  {
    hide IsPLogP, Code.PLogP;
    NormalisedTerm(code, log, x, total);
    if x > 0.0 {
      Positive(x, total);
      PLogPOf(code, log, x / total);
      var word := code.PLogP(x / total);
      assert total * (-word) == -(total * word);
    } else {
      assert x / total == 0.0;
      PLogPOf(code, log, total);
    }
  }

  lemma {:induction false} Positive(x: real, total: real)
    requires x > 0.0 && total > 0.0
    ensures x / total > 0.0
  {
  }
}
