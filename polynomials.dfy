/**
 * Polynomials in one variable t with exact (real) coefficients, stored
 * lowest degree first: p = [p_0, p_1, ...] stands for sum_i p_i t^i.
 * These stand in for the sympy expressions in `t` that
 * orthopy/tools/generate_rc.py builds in `stieltjes`.
 */
module Polynomials {

  /** A coefficient list, lowest degree first. */
  type Poly = seq<real>

  /** The coefficient of t^i; zero beyond the stored list. */
  function Coef(p: Poly, i: nat): real
  {
    if i < |p| then p[i] else 0.0
  }

  /** The larger of two lengths. */
  function Max(a: nat, b: nat): nat
  {
    if a < b then b else a
  }

  /** The constant polynomial 1. */
  function One(): (p: Poly)
    ensures Monic(p, 0)
  {
    [1.0]
  }

  /** The sum p + q, coefficient by coefficient. */
  function Add(p: Poly, q: Poly): (r: Poly)
    ensures |r| == Max(|p|, |q|)
  {
    seq(Max(|p|, |q|), i requires 0 <= i => Coef(p, i) + Coef(q, i))
  }

  /** The multiple c * p. */
  function Scale(c: real, p: Poly): (r: Poly)
    ensures |r| == |p|
  {
    seq(|p|, i requires 0 <= i < |p| => c * p[i])
  }

  /** The product t * p: every coefficient moves up one degree. */
  function TimesT(p: Poly): (r: Poly)
    ensures |r| == |p| + 1 && r[0] == 0.0
  {
    [0.0] + p
  }

  /** The product p * q, by expanding p term by term. */
  function Mul(p: Poly, q: Poly): Poly
    decreases |p|
  {
    if |p| == 0 then []
    else Add(Scale(p[0], q), TimesT(Mul(p[1..], q)))
  }

  /** The square p^2 handed to the integration oracle. */
  function Square(p: Poly): Poly
  {
    Mul(p, p)
  }

  /** (t - a) * p, the first step of the three-term rule. */
  function LinearTimes(a: real, p: Poly): Poly
  {
    Add(TimesT(p), Scale(-a, p))
  }

  /** (t - a) * p1 - b * p2, the three-term rule. */
  function ThreeTerm(a: real, b: real, p1: Poly, p2: Poly): Poly
  {
    Add(LinearTimes(a, p1), Scale(-b, p2))
  }

  /** p is monic of degree k: k + 1 coefficients, the leading one equal to 1. */
  predicate Monic(p: Poly, k: nat)
  {
    |p| == k + 1 && p[k] == 1.0
  }

  /** The coefficients of a sum are the sums of the coefficients. */
  lemma AddCoef(p: Poly, q: Poly, i: nat)
    ensures Coef(Add(p, q), i) == Coef(p, i) + Coef(q, i)
  {
  }

  /** The coefficients of c * p are c times those of p. */
  lemma ScaleCoef(c: real, p: Poly, i: nat)
    ensures Coef(Scale(c, p), i) == c * Coef(p, i)
  {
  }

  /** The coefficients of t * p are those of p moved up one degree. */
  lemma TimesTCoef(p: Poly, i: nat)
    ensures Coef(TimesT(p), i + 1) == Coef(p, i)
    ensures Coef(TimesT(p), 0) == 0.0
  {
  }

  /** The coefficients of (t - a) * p: p_{i-1} - a p_i. */
  lemma LinearTimesCoef(a: real, p: Poly, i: nat)
    ensures |LinearTimes(a, p)| == |p| + 1
    ensures Coef(LinearTimes(a, p), i) == (if i == 0 then 0.0 else Coef(p, i - 1)) - a * Coef(p, i)
  {
    AddCoef(TimesT(p), Scale(-a, p), i);
    ScaleCoef(-a, p, i);
    if i > 0 {
      TimesTCoef(p, i - 1);
    }
  }

  /** The coefficients of (t - a) * p1 - b * p2: p1_{i-1} - a p1_i - b p2_i. */
  lemma ThreeTermCoef(a: real, b: real, p1: Poly, p2: Poly, i: nat)
    ensures Coef(ThreeTerm(a, b, p1, p2), i) ==
      (if i == 0 then 0.0 else Coef(p1, i - 1)) - a * Coef(p1, i) - b * Coef(p2, i)
  {
    AddCoef(LinearTimes(a, p1), Scale(-b, p2), i);
    ScaleCoef(-b, p2, i);
    LinearTimesCoef(a, p1, i);
  }

  /** (t - a) * p of a monic p of degree k is monic of degree k + 1. */
  lemma LinearTimesMonic(a: real, p: Poly, k: nat)
    requires Monic(p, k)
    ensures Monic(LinearTimes(a, p), k + 1)
  {
    LinearTimesCoef(a, p, k + 1);
  }

  /**
   * The three-term rule applied to a monic p1 of degree k and a p2 of
   * degree below k gives a monic polynomial of degree k + 1.
   */
  lemma ThreeTermMonic(a: real, b: real, p1: Poly, p2: Poly, k: nat)
    requires Monic(p1, k) && |p2| <= k
    ensures Monic(ThreeTerm(a, b, p1, p2), k + 1)
  {
    LinearTimesMonic(a, p1, k);
    AddCoef(LinearTimes(a, p1), Scale(-b, p2), k + 1);
    ScaleCoef(-b, p2, k + 1);
  }

  /**
   * The three-term rule lowers the sub-leading coefficient by a: for a monic
   * p1 of degree k >= 1 and a p2 of degree below k, the coefficient of t^k
   * in (t - a) * p1 - b * p2 is p1_{k-1} - a.
   */
  lemma ThreeTermSubleading(a: real, b: real, p1: Poly, p2: Poly, k: nat)
    requires 1 <= k && Monic(p1, k) && |p2| <= k
    ensures Coef(ThreeTerm(a, b, p1, p2), k) == Coef(p1, k - 1) - a
  {
    ThreeTermCoef(a, b, p1, p2, k);
    var one := Coef(p1, k);
    var zero := Coef(p2, k);
    assert one == 1.0 && zero == 0.0;
    assert a * one == a && b * zero == 0.0;
  }

  /** The product of monic polynomials of degrees k and j is monic of degree k + j. */
  lemma {:induction false} MulMonic(p: Poly, q: Poly, k: nat, j: nat)
    requires Monic(p, k) && Monic(q, j)
    ensures Monic(Mul(p, q), k + j)
    decreases k
  {
    var s := Scale(p[0], q);
    var tail := Mul(p[1..], q);
    var t := TimesT(tail);
    assert Mul(p, q) == Add(s, t);
    if k == 0 {
      assert tail == [];
      AddCoef(s, t, j);
      ScaleCoef(p[0], q, j);
    } else {
      assert Monic(p[1..], k - 1);
      MulMonic(p[1..], q, k - 1, j);
      AddCoef(s, t, k + j);
      assert Coef(s, k + j) == 0.0;
      TimesTCoef(tail, k - 1 + j);
    }
  }

  /** The square of a monic polynomial of degree k is monic of degree 2k. */
  lemma SquareMonic(p: Poly, k: nat)
    requires Monic(p, k)
    ensures Monic(Square(p), k + k)
  {
    MulMonic(p, p, k, k);
  }
}
