/**
 * Integration against a weight given by its moments, the kind of oracle
 * that the Stieltjes procedure of orthopy/tools/generate_rc.py is handed:
 * a weight with moments moment(0), moment(1), ... integrates t^l * p to
 * sum_i p_i * moment(l + i).
 *
 * The module proves the facts about integrals of products that the
 * Stieltjes quotients rest on: the square of an orthogonal monic polynomial
 * integrates to its leading moment, and t times that square picks up the
 * sub-leading coefficient.  It also defines the monic polynomials P_k that
 * a pair of coefficient sequences (alpha, beta) generates by the three-term
 * rule, and `RecurrenceMoment`, the integral of t^l * P_k computed from the
 * moments by the same rule, which is what the buffer of the Chebyshev
 * algorithm holds.
 */
module Functional {
  import opened Polynomials

  /** The integral of t^l * (p_i t^i + p_(i+1) t^(i+1) + ...), the terms of p from degree i up. */
  function IntegralFrom(moment: nat -> real, p: Poly, l: nat, i: nat): real
    decreases |p| - i
  {
    if |p| <= i then 0.0 else p[i] * moment(l + i) + IntegralFrom(moment, p, l, i + 1)
  }

  /** The integral of t^l * p against the weight with the given moments. */
  function Integral(moment: nat -> real, p: Poly, l: nat): real
  {
    IntegralFrom(moment, p, l, 0)
  }

  /** The integration oracle of the weight with the given moments. */
  function Oracle(moment: nat -> real): Poly -> real
  {
    p => Integral(moment, p, 0)
  }

  /** The integral of t^l is the moment of order l. */
  lemma IntegralOne(moment: nat -> real, l: nat)
    ensures Integral(moment, One(), l) == moment(l)
  {
  }

  /** Every degree contributes its coefficient times its moment, also beyond the stored list. */
  lemma IntegralFromStep(moment: nat -> real, p: Poly, l: nat, i: nat)
    ensures IntegralFrom(moment, p, l, i) == Coef(p, i) * moment(l + i) + IntegralFrom(moment, p, l, i + 1)
  {
  }

  /** Integration is additive. */
  lemma {:induction false} IntegralFromAdd(moment: nat -> real, p: Poly, q: Poly, l: nat, i: nat)
    ensures IntegralFrom(moment, Add(p, q), l, i) == IntegralFrom(moment, p, l, i) + IntegralFrom(moment, q, l, i)
    decreases Max(|p|, |q|) - i
  {
    if i < Max(|p|, |q|) {
      IntegralFromAdd(moment, p, q, l, i + 1);
      IntegralFromStep(moment, p, l, i);
      IntegralFromStep(moment, q, l, i);
      var x := moment(l + i);
      AddCoef(p, q, i);
      assert (Coef(p, i) + Coef(q, i)) * x == Coef(p, i) * x + Coef(q, i) * x;
    }
  }

  /** Integration is additive. */
  lemma IntegralAdd(moment: nat -> real, p: Poly, q: Poly, l: nat)
    ensures Integral(moment, Add(p, q), l) == Integral(moment, p, l) + Integral(moment, q, l)
  {
    IntegralFromAdd(moment, p, q, l, 0);
  }

  /** Integration is homogeneous. */
  lemma {:induction false} IntegralFromScale(moment: nat -> real, c: real, p: Poly, l: nat, i: nat)
    ensures IntegralFrom(moment, Scale(c, p), l, i) == c * IntegralFrom(moment, p, l, i)
    decreases |p| - i
  {
    if i < |p| {
      IntegralFromScale(moment, c, p, l, i + 1);
      var x := moment(l + i);
      var rest := IntegralFrom(moment, p, l, i + 1);
      ScaleCoef(c, p, i);
      assert (c * p[i]) * x + c * rest == c * (p[i] * x + rest);
    }
  }

  /** Integration is homogeneous. */
  lemma IntegralScale(moment: nat -> real, c: real, p: Poly, l: nat)
    ensures Integral(moment, Scale(c, p), l) == c * Integral(moment, p, l)
  {
    IntegralFromScale(moment, c, p, l, 0);
  }

  /** Shifting the terms up one degree shifts the moments up by one. */
  lemma {:induction false} IntegralFromTimesT(moment: nat -> real, p: Poly, l: nat, i: nat)
    ensures IntegralFrom(moment, TimesT(p), l, i + 1) == IntegralFrom(moment, p, l + 1, i)
    decreases |p| - i
  {
    if i < |p| {
      IntegralFromTimesT(moment, p, l, i + 1);
      assert TimesT(p)[i + 1] == p[i];
    }
  }

  /** Multiplying by t shifts every moment up by one. */
  lemma IntegralTimesT(moment: nat -> real, p: Poly, l: nat)
    ensures Integral(moment, TimesT(p), l) == Integral(moment, p, l + 1)
  {
    IntegralFromTimesT(moment, p, l, 0);
  }

  /** The integral of (t - a) * p. */
  lemma IntegralLinearTimes(moment: nat -> real, a: real, p: Poly, l: nat)
    ensures Integral(moment, LinearTimes(a, p), l) ==
      Integral(moment, p, l + 1) - a * Integral(moment, p, l)
  {
    IntegralAdd(moment, TimesT(p), Scale(-a, p), l);
    IntegralTimesT(moment, p, l);
    IntegralScale(moment, -a, p, l);
  }

  /** The integral of (t - a) * p1 - b * p2. */
  lemma IntegralThreeTerm(moment: nat -> real, a: real, b: real, p1: Poly, p2: Poly, l: nat)
    ensures Integral(moment, ThreeTerm(a, b, p1, p2), l) ==
      Combine(Integral(moment, p1, l + 1), a, Integral(moment, p1, l), b, Integral(moment, p2, l))
  {
    var lt := LinearTimes(a, p1);
    var sc := Scale(-b, p2);
    IntegralAdd(moment, lt, sc, l);
    IntegralLinearTimes(moment, a, p1, l);
    IntegralScale(moment, -b, p2, l);
    NegateProduct(b, Integral(moment, p2, l));
  }

  /** (-b) * y = -(b * y). */
  lemma NegateProduct(b: real, y: real)
    ensures -b * y == -(b * y)
  {
  }

  /** The integral of p * q, expanded by the first coefficient of p. */
  lemma IntegralMulStep(moment: nat -> real, p: Poly, q: Poly, l: nat)
    requires |p| > 0
    ensures Integral(moment, Mul(p, q), l) ==
      p[0] * Integral(moment, q, l) + Integral(moment, Mul(p[1..], q), l + 1)
  {
    IntegralAdd(moment, Scale(p[0], q), TimesT(Mul(p[1..], q)), l);
    IntegralScale(moment, p[0], q, l);
    IntegralTimesT(moment, Mul(p[1..], q), l);
  }

  /** The integral of 1 * q. */
  lemma IntegralMulOne(moment: nat -> real, q: Poly, l: nat)
    ensures Integral(moment, Mul([1.0], q), l) == Integral(moment, q, l)
  {
    IntegralMulStep(moment, [1.0], q, l);
    assert [1.0][1..] == [];
  }

  /**
   * When q integrates to zero against t^l, ..., t^(l+j-1), the first j
   * coefficients of p contribute nothing to the integral of t^l * p * q.
   */
  lemma {:induction false} IntegralMulSkip(moment: nat -> real, p: Poly, q: Poly, l: nat, j: nat)
    requires j <= |p|
    requires forall i :: l <= i < l + j ==> Integral(moment, q, i) == 0.0
    ensures Integral(moment, Mul(p, q), l) == Integral(moment, Mul(p[j..], q), l + j)
    decreases j
  {
    if j == 0 {
      assert p[j..] == p;
    } else {
      IntegralMulStep(moment, p, q, l);
      assert Integral(moment, q, l) == 0.0;
      IntegralMulSkip(moment, p[1..], q, l + 1, j - 1);
      assert p[1..][j - 1..] == p[j..];
    }
  }

  /** p is orthogonal to every polynomial of degree below k: it integrates to zero against t^l, l < k. */
  ghost predicate Orthogonal(moment: nat -> real, p: Poly, k: nat)
  {
    forall l :: 0 <= l < k ==> Integral(moment, p, l) == 0.0
  }

  /** For a monic p of degree k orthogonal to lower degrees, p^2 integrates to the integral of t^k * p. */
  lemma OrthogonalSquare(moment: nat -> real, p: Poly, k: nat)
    requires Monic(p, k) && Orthogonal(moment, p, k)
    ensures Integral(moment, Square(p), 0) == Integral(moment, p, k)
  {
    IntegralMulSkip(moment, p, p, 0, k);
    assert p[k..] == [1.0];
    IntegralMulOne(moment, p, k);
  }

  /**
   * For a monic p of degree k orthogonal to lower degrees, t * p^2
   * integrates to the integral of t^(k+1) * p, plus, from degree 1 on, the
   * sub-leading coefficient of p times the integral of t^k * p.
   */
  lemma OrthogonalTimesSquare(moment: nat -> real, p: Poly, k: nat)
    requires Monic(p, k) && Orthogonal(moment, p, k)
    ensures k == 0 ==>
      Integral(moment, TimesT(Square(p)), 0) == Integral(moment, p, 1)
    ensures k > 0 ==>
      Integral(moment, TimesT(Square(p)), 0) ==
      Integral(moment, p, k + 1) + Coef(p, k - 1) * Integral(moment, p, k)
  {
    IntegralTimesT(moment, Square(p), 0);
    if k == 0 {
      ConstantSquareShifted(moment, p);
    } else {
      OrthogonalSquareShifted(moment, p, k);
    }
  }

  /** The integral of t * 1^2. */
  lemma ConstantSquareShifted(moment: nat -> real, p: Poly)
    requires Monic(p, 0)
    ensures Integral(moment, Square(p), 1) == Integral(moment, p, 1)
  {
    assert p == [1.0];
    IntegralMulOne(moment, p, 1);
  }

  /** The integral of t * p^2 for a monic orthogonal p of degree k >= 1. */
  lemma OrthogonalSquareShifted(moment: nat -> real, p: Poly, k: nat)
    requires 1 <= k && Monic(p, k) && Orthogonal(moment, p, k)
    ensures Integral(moment, Square(p), 1) == p[k - 1] * Integral(moment, p, k) + Integral(moment, p, k + 1)
  {
    var tail := p[k - 1..];
    assert |tail| == 2 && tail[0] == p[k - 1] && tail[1] == 1.0;
    IntegralMulSkip(moment, p, p, 1, k - 1);
    IntegralMulLinear(moment, tail, p, k);
  }

  /** The integral of t^l * (c + t) * q. */
  lemma IntegralMulLinear(moment: nat -> real, p: Poly, q: Poly, l: nat)
    requires |p| == 2 && p[1] == 1.0
    ensures Integral(moment, Mul(p, q), l) == p[0] * Integral(moment, q, l) + Integral(moment, q, l + 1)
  {
    IntegralMulStep(moment, p, q, l);
    assert p[1..] == [1.0];
    IntegralMulOne(moment, q, l + 1);
  }

  /** Step k >= 2 of the three-term rule: P_k = (t - alpha[k-1]) P_(k-1) - beta[k-1] P_(k-2). */
  ghost predicate RuleStep(alpha: seq<real>, beta: seq<real>, ps: seq<Poly>, k: nat)
  {
    2 <= k < |ps| && k <= |alpha| && k <= |beta| &&
    ps[k] == ThreeTerm(alpha[k - 1], beta[k - 1], ps[k - 1], ps[k - 2])
  }

  /**
   * ps = [P_0, ..., P_m] are the monic polynomials that the coefficients
   * alpha and beta generate by the three-term rule: P_0 = 1,
   * P_1 = (t - alpha[0]) P_0 and every later P_k by `RuleStep`.
   * beta[0] is never used.
   */
  ghost predicate Generated(alpha: seq<real>, beta: seq<real>, ps: seq<Poly>)
  {
    1 <= |ps| && |ps| <= |alpha| + 1 && |ps| <= |beta| + 1 &&
    ps[0] == One() && (2 <= |ps| ==> ps[1] == LinearTimes(alpha[0], One())) &&
    forall k :: 2 <= k < |ps| ==> RuleStep(alpha, beta, ps, k)
  }

  /** P_0, ..., P_m, built one step of the three-term rule at a time. */
  function GeneratedPolys(alpha: seq<real>, beta: seq<real>, m: nat): (ps: seq<Poly>)
    requires m <= |alpha| && m <= |beta|
    ensures |ps| == m + 1
    decreases m
  {
    if m == 0 then [One()]
    else if m == 1 then [One(), LinearTimes(alpha[0], One())]
    else
      var ps := GeneratedPolys(alpha, beta, m - 1);
      ps + [ThreeTerm(alpha[m - 1], beta[m - 1], ps[m - 1], ps[m - 2])]
  }

  /** The polynomials built by `GeneratedPolys` are generated by alpha and beta. */
  lemma {:induction false} GeneratedPolysGenerated(alpha: seq<real>, beta: seq<real>, m: nat)
    requires m <= |alpha| && m <= |beta|
    ensures Generated(alpha, beta, GeneratedPolys(alpha, beta, m))
    decreases m
  {
    if m >= 2 {
      var ps := GeneratedPolys(alpha, beta, m - 1);
      var qs := GeneratedPolys(alpha, beta, m);
      GeneratedPolysGenerated(alpha, beta, m - 1);
      assert qs == ps + [ThreeTerm(alpha[m - 1], beta[m - 1], ps[m - 1], ps[m - 2])];
      forall k | 2 <= k < |qs|
        ensures RuleStep(alpha, beta, qs, k)
      {
        if k < m {
          assert RuleStep(alpha, beta, ps, k);
        }
      }
    }
  }

  /** The three-term rule determines the polynomials: two generated lists agree where both are defined. */
  lemma {:induction false} GeneratedUnique(alpha: seq<real>, beta: seq<real>, ps: seq<Poly>, qs: seq<Poly>, k: nat)
    requires Generated(alpha, beta, ps) && Generated(alpha, beta, qs) && k < |ps| && k < |qs|
    ensures ps[k] == qs[k]
    decreases k
  {
    if k >= 2 {
      assert RuleStep(alpha, beta, ps, k) && RuleStep(alpha, beta, qs, k);
      GeneratedUnique(alpha, beta, ps, qs, k - 1);
      GeneratedUnique(alpha, beta, ps, qs, k - 2);
    }
  }

  /** P_k is monic of degree k. */
  lemma {:induction false} GeneratedMonic(alpha: seq<real>, beta: seq<real>, ps: seq<Poly>, k: nat)
    requires Generated(alpha, beta, ps) && k < |ps|
    ensures Monic(ps[k], k)
    decreases k
  {
    if k == 1 {
      LinearTimesMonic(alpha[0], One(), 0);
    } else if k >= 2 {
      assert RuleStep(alpha, beta, ps, k);
      GeneratedMonic(alpha, beta, ps, k - 1);
      GeneratedMonic(alpha, beta, ps, k - 2);
      ThreeTermMonic(alpha[k - 1], beta[k - 1], ps[k - 1], ps[k - 2], k - 1);
    }
  }

  /** One step of the three-term rule on numbers: up - a * mid - b * down. */
  function Combine(up: real, a: real, mid: real, b: real, down: real): real
  {
    up - a * mid - b * down
  }

  /**
   * The integral of t^l * P_k computed from the moments by the three-term
   * rule alone, without forming P_k.
   */
  function RecurrenceMoment(moment: nat -> real, alpha: seq<real>, beta: seq<real>, k: nat, l: nat): real
    requires k <= |alpha| && k <= |beta|
    decreases k
  {
    if k == 0 then moment(l)
    else if k == 1 then
      Combine(RecurrenceMoment(moment, alpha, beta, 0, l + 1), alpha[0],
              RecurrenceMoment(moment, alpha, beta, 0, l), 0.0, 0.0)
    else
      Combine(RecurrenceMoment(moment, alpha, beta, k - 1, l + 1), alpha[k - 1],
              RecurrenceMoment(moment, alpha, beta, k - 1, l), beta[k - 1],
              RecurrenceMoment(moment, alpha, beta, k - 2, l))
  }

  /** The recurrence on moments computes the integral of t^l * P_k. */
  lemma {:induction false} RecurrenceMomentIsIntegral(moment: nat -> real, alpha: seq<real>, beta: seq<real>,
                                                      ps: seq<Poly>, k: nat, l: nat)
    requires Generated(alpha, beta, ps) && k < |ps|
    ensures RecurrenceMoment(moment, alpha, beta, k, l) == Integral(moment, ps[k], l)
    decreases k
  {
    if k == 0 {
      IntegralOne(moment, l);
    } else if k == 1 {
      IntegralLinearTimes(moment, alpha[0], One(), l);
      IntegralOne(moment, l);
      IntegralOne(moment, l + 1);
    } else {
      assert RuleStep(alpha, beta, ps, k);
      IntegralThreeTerm(moment, alpha[k - 1], beta[k - 1], ps[k - 1], ps[k - 2], l);
      RecurrenceMomentIsIntegral(moment, alpha, beta, ps, k - 1, l + 1);
      RecurrenceMomentIsIntegral(moment, alpha, beta, ps, k - 1, l);
      RecurrenceMomentIsIntegral(moment, alpha, beta, ps, k - 2, l);
    }
  }

  /** The moment recurrence of row k vanishes in every column below k. */
  ghost predicate MomentsVanish(moment: nat -> real, alpha: seq<real>, beta: seq<real>, k: nat)
    requires k <= |alpha| && k <= |beta|
  {
    forall l :: 0 <= l < k ==> RecurrenceMoment(moment, alpha, beta, k, l) == 0.0
  }

  /** P_k is orthogonal to lower degrees exactly when the moment recurrence vanishes below column k. */
  lemma {:induction false} GeneratedOrthogonal(moment: nat -> real, alpha: seq<real>, beta: seq<real>, ps: seq<Poly>, k: nat)
    requires Generated(alpha, beta, ps) && k < |ps|
    ensures Orthogonal(moment, ps[k], k) <==> MomentsVanish(moment, alpha, beta, k)
  {
    forall l | 0 <= l < k
      ensures RecurrenceMoment(moment, alpha, beta, k, l) == Integral(moment, ps[k], l)
    {
      RecurrenceMomentIsIntegral(moment, alpha, beta, ps, k, l);
    }
  }

  /** -(alpha[0] + ... + alpha[k-1]), the sub-leading coefficient that k steps of the rule build up. */
  function SubleadingSum(alpha: seq<real>, k: nat): real
    requires k <= |alpha|
  {
    if k == 0 then 0.0 else SubleadingSum(alpha, k - 1) - alpha[k - 1]
  }

  /** The coefficient of t^(k-1) in P_k is -(alpha[0] + ... + alpha[k-1]). */
  lemma {:induction false} GeneratedSubleading(alpha: seq<real>, beta: seq<real>, ps: seq<Poly>, k: nat)
    requires Generated(alpha, beta, ps) && 1 <= k < |ps|
    ensures Coef(ps[k], k - 1) == SubleadingSum(alpha, k)
    decreases k
  {
    if k == 1 {
      LinearTimesCoef(alpha[0], One(), 0);
      var one := Coef(One(), 0);
      assert one == 1.0;
      assert alpha[0] * one == alpha[0];
    } else {
      assert RuleStep(alpha, beta, ps, k);
      GeneratedMonic(alpha, beta, ps, k - 1);
      GeneratedMonic(alpha, beta, ps, k - 2);
      ThreeTermSubleading(alpha[k - 1], beta[k - 1], ps[k - 1], ps[k - 2], k - 1);
      GeneratedSubleading(alpha, beta, ps, k - 1);
    }
  }
}
