/**
 * The recurrence coefficients of the Jacobi polynomials of
 * orthopy/c1/jacobi.py, in the exact-arithmetic mode.
 *
 * For the weight (1 - x)^alpha (1 + x)^beta on [-1, 1] the polynomials obey
 * P_{N+1}(x) = (a_N x - b_N) P_N(x) - c_N P_{N-1}(x).  Each scaling maps
 * (alpha, beta, N) to the triple (a_N, b_N, c_N) by closed-form rational
 * formulas; c_0 is the undefined sentinel `None`.  Every quotient of the
 * source is a sympy `Rational`, so each formula is defined exactly when its
 * denominator is nonzero, and that is what the `...Defined` predicates ask.
 */
module Jacobi {
  import opened Wrappers

  /** The scalings that `RecurrenceCoefficients` accepts. */
  datatype Scaling = Monic | Classical | Normal

  /** One triple (a_N, b_N, c_N). */
  datatype Rc = Rc(a: real, b: real, c: Option<real>)

  /** The dictionary lookup of the scaling name; any other key raises KeyError. */
  function LookupScaling(key: string): (r: Result<Scaling, Exception>)
    ensures r.Success? <==> key == "monic" || key == "classical" || key == "normal"
    ensures r.Failure? ==> r.error == KeyError
    ensures key == "monic" ==> r == Success(Monic)
    ensures key == "classical" ==> r == Success(Classical)
    ensures key == "normal" ==> r == Success(Normal)
  {
    if key == "monic" then Success(Monic)
    else if key == "classical" then Success(Classical)
    else if key == "normal" then Success(Normal)
    else Failure(KeyError)
  }

  /** The starting value p0 = 1 of both modelled scalings. */
  function P0(scaling: Scaling): (p: real)
    requires scaling != Normal
    ensures p == 1.0
  {
    1.0
  }

  // ---------------------------------------------------------------------
  // The general-N formulas, as functions of a real N
  // ---------------------------------------------------------------------

  /** Denominator (2N + alpha + beta)(2N + alpha + beta + 2) of the general monic b_N. */
  function MonicBDen(alpha: real, beta: real, n: real): real
  {
    (2.0 * n + alpha + beta) * (2.0 * n + alpha + beta + 2.0)
  }

  /** The general monic b_N = (beta^2 - alpha^2) / ((2N+alpha+beta)(2N+alpha+beta+2)). */
  function MonicBFormula(alpha: real, beta: real, n: real): real
    requires MonicBDen(alpha, beta, n) != 0.0
  {
    (beta * beta - alpha * alpha) / MonicBDen(alpha, beta, n)
  }

  /** Denominator (2N+alpha+beta)^2 (2N+alpha+beta+1)(2N+alpha+beta-1) of the general monic c_N. */
  function MonicCDen(alpha: real, beta: real, n: real): real
  {
    (2.0 * n + alpha + beta) * (2.0 * n + alpha + beta)
    * (2.0 * n + alpha + beta + 1.0) * (2.0 * n + alpha + beta - 1.0)
  }

  /** The general monic c_N = 4 (N+alpha)(N+beta) N (N+alpha+beta) / MonicCDen. */
  function MonicCFormula(alpha: real, beta: real, n: real): real
    requires MonicCDen(alpha, beta, n) != 0.0
  {
    4.0 * (n + alpha) * (n + beta) * n * (n + alpha + beta) / MonicCDen(alpha, beta, n)
  }

  /** Denominator (2 + alpha + beta)^2 (3 + alpha + beta) of the special monic c_1. */
  function MonicC1Den(alpha: real, beta: real): real
  {
    (2.0 + alpha + beta) * (2.0 + alpha + beta) * (3.0 + alpha + beta)
  }

  /** Denominator 2 (N+1)(N+alpha+beta+1) of the general classical a_N. */
  function ClassicalADen(alpha: real, beta: real, n: real): real
  {
    2.0 * (n + 1.0) * (n + alpha + beta + 1.0)
  }

  /** The general classical a_N = (2N+alpha+beta+1)(2N+alpha+beta+2) / ClassicalADen. */
  function ClassicalAFormula(alpha: real, beta: real, n: real): real
    requires ClassicalADen(alpha, beta, n) != 0.0
  {
    (2.0 * n + alpha + beta + 1.0) * (2.0 * n + alpha + beta + 2.0) / ClassicalADen(alpha, beta, n)
  }

  /** Denominator 2 (N+1)(N+alpha+beta+1)(2N+alpha+beta) of the general classical b_N. */
  function ClassicalBDen(alpha: real, beta: real, n: real): real
  {
    2.0 * (n + 1.0) * (n + alpha + beta + 1.0) * (2.0 * n + alpha + beta)
  }

  /** The general classical b_N = (beta^2 - alpha^2)(2N+alpha+beta+1) / ClassicalBDen. */
  function ClassicalBFormula(alpha: real, beta: real, n: real): real
    requires ClassicalBDen(alpha, beta, n) != 0.0
  {
    (beta * beta - alpha * alpha) * (2.0 * n + alpha + beta + 1.0) / ClassicalBDen(alpha, beta, n)
  }

  /** Denominator (N+1)(N+alpha+beta+1)(2N+alpha+beta) of the classical c_N. */
  function ClassicalCDen(alpha: real, beta: real, n: real): real
  {
    (n + 1.0) * (n + alpha + beta + 1.0) * (2.0 * n + alpha + beta)
  }

  /** The classical c_N = (N+alpha)(N+beta)(2N+alpha+beta+2) / ClassicalCDen. */
  function ClassicalCFormula(alpha: real, beta: real, n: real): real
    requires ClassicalCDen(alpha, beta, n) != 0.0
  {
    (n + alpha) * (n + beta) * (2.0 * n + alpha + beta + 2.0) / ClassicalCDen(alpha, beta, n)
  }

  // ---------------------------------------------------------------------
  // Monic scaling (RCMonic.__getitem__)
  // ---------------------------------------------------------------------

  /** The denominator of the branch that the monic b_N takes is nonzero. */
  predicate MonicBDefined(alpha: real, beta: real, N: nat)
  {
    if N == 0 then alpha + beta + 2.0 != 0.0 else MonicBDen(alpha, beta, N as real) != 0.0
  }

  /** The denominator of the branch that the monic c_N, N >= 1, takes is nonzero. */
  predicate MonicCDefined(alpha: real, beta: real, N: nat)
  {
    (N == 1 ==> MonicC1Den(alpha, beta) != 0.0) &&
    (N >= 2 ==> MonicCDen(alpha, beta, N as real) != 0.0)
  }

  /** Every denominator of the branches that the monic formulas take is nonzero. */
  predicate MonicDefined(alpha: real, beta: real, N: nat)
  {
    MonicBDefined(alpha, beta, N) && MonicCDefined(alpha, beta, N)
  }

  /** b_N of the monic scaling, with the N = 0 branch of the source. */
  function MonicB(alpha: real, beta: real, N: nat): real
    requires MonicBDefined(alpha, beta, N)
  {
    if N == 0 then (beta - alpha) / (alpha + beta + 2.0)
    else MonicBFormula(alpha, beta, N as real)
  }

  /** c_N of the monic scaling for N >= 1, with the N = 1 branch of the source. */
  function MonicC(alpha: real, beta: real, N: nat): real
    requires N >= 1 && MonicCDefined(alpha, beta, N)
  {
    if N == 1 then 4.0 * (1.0 + alpha) * (1.0 + beta) / MonicC1Den(alpha, beta)
    else MonicCFormula(alpha, beta, N as real)
  }

  /**
   * `RCMonic(alpha, beta)[N]`: a_N = 1 always, and c_N is the sentinel
   * exactly when N = 0.
   */
  function MonicRc(alpha: real, beta: real, N: nat): (r: Rc)
    requires MonicDefined(alpha, beta, N)
    ensures r.a == 1.0
    ensures r.c.None? <==> N == 0
    ensures N >= 1 ==> r.c == Some(MonicC(alpha, beta, N))
    ensures r.b == MonicB(alpha, beta, N)
  {
    Rc(1.0, MonicB(alpha, beta, N), if N == 0 then None else Some(MonicC(alpha, beta, N)))
  }

  // ---------------------------------------------------------------------
  // Classical scaling (RCClassical.__getitem__)
  // ---------------------------------------------------------------------

  /** The classical a_N divides only from N = 1 on, by ClassicalADen. */
  predicate ClassicalADefined(alpha: real, beta: real, N: nat)
  {
    N == 0 || ClassicalADen(alpha, beta, N as real) != 0.0
  }

  /** The classical b_N divides only from N = 1 on, by ClassicalBDen. */
  predicate ClassicalBDefined(alpha: real, beta: real, N: nat)
  {
    N == 0 || ClassicalBDen(alpha, beta, N as real) != 0.0
  }

  /** Every denominator of the branches that the classical formulas take is nonzero. */
  predicate ClassicalDefined(alpha: real, beta: real, N: nat)
  {
    ClassicalADefined(alpha, beta, N) && ClassicalBDefined(alpha, beta, N) &&
    (N == 0 || ClassicalCDen(alpha, beta, N as real) != 0.0)
  }

  /** a_N of the classical scaling, with the N = 0 branch of the source. */
  function ClassicalA(alpha: real, beta: real, N: nat): real
    requires ClassicalADefined(alpha, beta, N)
  {
    if N == 0 then (alpha + beta + 2.0) / 2.0 else ClassicalAFormula(alpha, beta, N as real)
  }

  /** b_N of the classical scaling, with the N = 0 branch of the source. */
  function ClassicalB(alpha: real, beta: real, N: nat): real
    requires ClassicalBDefined(alpha, beta, N)
  {
    if N == 0 then (beta - alpha) / 2.0 else ClassicalBFormula(alpha, beta, N as real)
  }

  /** `RCClassical(alpha, beta)[N]`: c_N is the sentinel exactly when N = 0. */
  function ClassicalRc(alpha: real, beta: real, N: nat): (r: Rc)
    requires ClassicalDefined(alpha, beta, N)
    ensures r.c.None? <==> N == 0
    ensures N >= 1 ==> r.c == Some(ClassicalCFormula(alpha, beta, N as real))
    ensures r.a == ClassicalA(alpha, beta, N) && r.b == ClassicalB(alpha, beta, N)
  {
    Rc(ClassicalA(alpha, beta, N), ClassicalB(alpha, beta, N),
       if N == 0 then None else Some(ClassicalCFormula(alpha, beta, N as real)))
  }

  // ---------------------------------------------------------------------
  // Dispatch (RecurrenceCoefficients)
  // ---------------------------------------------------------------------

  /** The formulas of the chosen scaling are defined at N. */
  predicate Defined(scaling: Scaling, alpha: real, beta: real, N: nat)
    requires scaling != Normal
  {
    if scaling == Monic then MonicDefined(alpha, beta, N) else ClassicalDefined(alpha, beta, N)
  }

  /**
   * `RecurrenceCoefficients(alpha, beta, scaling)[N]`: an unknown scaling
   * name raises KeyError, and a known one yields the triple of its class;
   * the normal scaling is not part of this model.
   */
  function RecurrenceCoefficients(alpha: real, beta: real, key: string, N: nat): (r: Result<Rc, Exception>)
    requires LookupScaling(key).Success? ==>
      LookupScaling(key).value != Normal && Defined(LookupScaling(key).value, alpha, beta, N)
    ensures LookupScaling(key).Failure? ==> r == Failure(KeyError)
    ensures key == "monic" ==> r == Success(MonicRc(alpha, beta, N))
    ensures key == "classical" ==> r == Success(ClassicalRc(alpha, beta, N))
  {
    match LookupScaling(key)
    case Failure(e) => Failure(e)
    case Success(s) =>
      if s == Monic then Success(MonicRc(alpha, beta, N)) else Success(ClassicalRc(alpha, beta, N))
  }

  // ---------------------------------------------------------------------
  // Rational identities used below.  The proofs name each compound factor
  // with a local variable, apply one of these to the variables and then
  // relate the variables to the formulas.
  // ---------------------------------------------------------------------

  /** A common nonzero factor of numerator and denominator cancels. */
  lemma QuotientCancel(num: real, den: real, x: real, y: real, f: real)
    requires y != 0.0 && f != 0.0 && num == x * f && den == y * f
    ensures den != 0.0 && num / den == x / y
  {
  }

  /** Dividing by a quotient multiplies by its reciprocal. */
  lemma DivOfDiv(p: real, q: real, r: real, t: real)
    requires q != 0.0 && r != 0.0 && t != 0.0
    ensures r / t != 0.0 && (p / q) / (r / t) == (p * t) / (q * r)
  {
  }

  /** A product of nonzero numbers is nonzero. */
  lemma MulNonzero(x: real, y: real)
    requires x != 0.0 && y != 0.0
    ensures x * y != 0.0
  {
  }

  /** A nonzero product has nonzero factors. */
  lemma FactorsNonzero(x: real, y: real)
    requires x * y != 0.0
    ensures x != 0.0 && y != 0.0
  {
  }

  /** A quotient with a nonzero value has a nonzero numerator. */
  lemma QuotientNonzero(p: real, q: real)
    requires q != 0.0 && p / q != 0.0
    ensures p != 0.0
  {
  }

  /** The product of positive numbers is positive. */
  lemma MulPos(x: real, y: real)
    requires x > 0.0 && y > 0.0
    ensures x * y > 0.0
  {
  }

  /** The square of a nonzero number is positive. */
  lemma SquarePos(x: real)
    requires x != 0.0
    ensures x * x > 0.0
  {
  }

  /** p^2 q is positive for positive p and q. */
  lemma CubePos(p: real, q: real)
    requires p > 0.0 && q > 0.0
    ensures p * p * q > 0.0
  {
    SquarePos(p);
  }

  /** The quotient of positive numbers is positive. */
  lemma DivPos(x: real, y: real)
    requires x > 0.0 && y > 0.0
    ensures x / y > 0.0
  {
  }

  // ---------------------------------------------------------------------
  // Sentinels and symmetry
  // ---------------------------------------------------------------------

  /** A symmetric weight (alpha = beta) has b_N = 0 in the monic scaling. */
  lemma MonicSymmetricB(alpha: real, N: nat)
    requires MonicBDefined(alpha, alpha, N)
    ensures MonicB(alpha, alpha, N) == 0.0
  {
  }

  /** A symmetric weight (alpha = beta) has b_N = 0 in the classical scaling. */
  lemma ClassicalSymmetricB(alpha: real, N: nat)
    requires ClassicalBDefined(alpha, alpha, N)
    ensures ClassicalB(alpha, alpha, N) == 0.0
  {
  }

  // ---------------------------------------------------------------------
  // The special branches agree with the general formulas
  // ---------------------------------------------------------------------

  /** The monic N = 0 branch for b is the general formula at N = 0 when alpha + beta != 0. */
  lemma MonicBAtZero(alpha: real, beta: real)
    requires alpha + beta != 0.0 && alpha + beta + 2.0 != 0.0
    ensures MonicBDefined(alpha, beta, 0) && MonicBDen(alpha, beta, 0.0) != 0.0
    ensures MonicB(alpha, beta, 0) == MonicBFormula(alpha, beta, 0.0)
  {
    var d, s, y := beta - alpha, alpha + beta, alpha + beta + 2.0;
    var num, den := beta * beta - alpha * alpha, MonicBDen(alpha, beta, 0.0);
    assert num == d * s;
    assert den == y * s;
    QuotientCancel(num, den, d, y, s);
  }

  /** The classical N = 0 branch for a is the general formula at N = 0 when alpha + beta + 1 != 0. */
  lemma ClassicalAAtZero(alpha: real, beta: real)
    requires alpha + beta + 1.0 != 0.0
    ensures ClassicalADen(alpha, beta, 0.0) != 0.0
    ensures ClassicalA(alpha, beta, 0) == ClassicalAFormula(alpha, beta, 0.0)
  {
    var s1, s2 := alpha + beta + 1.0, alpha + beta + 2.0;
    var num, den := (2.0 * 0.0 + alpha + beta + 1.0) * (2.0 * 0.0 + alpha + beta + 2.0), ClassicalADen(alpha, beta, 0.0);
    assert num == s2 * s1;
    assert den == 2.0 * s1;
    QuotientCancel(num, den, s2, 2.0, s1);
  }

  /**
   * The classical N = 0 branch for b is the general formula at N = 0 when
   * alpha + beta != 0 and alpha + beta + 1 != 0.
   */
  lemma ClassicalBAtZero(alpha: real, beta: real)
    requires alpha + beta != 0.0 && alpha + beta + 1.0 != 0.0
    ensures ClassicalBDen(alpha, beta, 0.0) != 0.0
    ensures ClassicalB(alpha, beta, 0) == ClassicalBFormula(alpha, beta, 0.0)
  {
    var d, s, s1 := beta - alpha, alpha + beta, alpha + beta + 1.0;
    MulNonzero(s1, s);
    var f := s1 * s;
    var num, den := (beta * beta - alpha * alpha) * (2.0 * 0.0 + alpha + beta + 1.0), ClassicalBDen(alpha, beta, 0.0);
    assert num == d * f;
    assert den == 2.0 * f;
    QuotientCancel(num, den, d, 2.0, f);
  }

  /** The monic N = 1 branch for c is the general formula at N = 1 when alpha + beta + 1 != 0. */
  lemma MonicCAtOne(alpha: real, beta: real)
    requires MonicC1Den(alpha, beta) != 0.0 && alpha + beta + 1.0 != 0.0
    ensures MonicCDen(alpha, beta, 1.0) != 0.0
    ensures MonicC(alpha, beta, 1) == MonicCFormula(alpha, beta, 1.0)
  {
    var x, c1, t := 4.0 * (1.0 + alpha) * (1.0 + beta), MonicC1Den(alpha, beta), alpha + beta + 1.0;
    var num, den := 4.0 * (1.0 + alpha) * (1.0 + beta) * 1.0 * (1.0 + alpha + beta), MonicCDen(alpha, beta, 1.0);
    assert num == x * t;
    assert den == c1 * t;
    QuotientCancel(num, den, x, c1, t);
  }

  /**
   * Where the N = 1 branch is defined, the general formula at N = 1 would
   * divide by zero exactly when alpha + beta = -1 (alpha = beta = -1/2 is
   * one such weight, and so is every other pair with that sum).
   */
  lemma MonicCOneBranchNeeded(alpha: real, beta: real)
    requires MonicC1Den(alpha, beta) != 0.0
    ensures MonicCDen(alpha, beta, 1.0) == 0.0 <==> alpha + beta == -1.0
  {
    var c1, t := MonicC1Den(alpha, beta), alpha + beta + 1.0;
    assert MonicCDen(alpha, beta, 1.0) == c1 * t;
    if t != 0.0 {
      MulNonzero(c1, t);
    }
  }

  // ---------------------------------------------------------------------
  // The monic and classical scalings agree
  // ---------------------------------------------------------------------

  /** The cancellation behind `ScalingsAgreeBGeneral`, over plain numbers. */
  lemma RatioCancel(d: real, u: real, u1: real, u2: real, ad: real)
    requires ad != 0.0 && u != 0.0 && u2 != 0.0 && (u1 * u2) / ad != 0.0
    ensures u * u2 != 0.0 && ad * u != 0.0
    ensures d / (u * u2) == ((d * u1) / (ad * u)) / ((u1 * u2) / ad)
  {
    var qa, pb, bd, mb := u1 * u2, d * u1, ad * u, u * u2;
    QuotientNonzero(qa, ad);
    FactorsNonzero(u1, u2);
    MulNonzero(u1, ad);
    MulNonzero(ad, u);
    MulNonzero(u, u2);
    var f := u1 * ad;
    DivOfDiv(pb, bd, qa, ad);
    var num, den := pb * ad, bd * qa;
    assert num == d * f;
    assert den == mb * f;
    QuotientCancel(num, den, d, mb, f);
  }

  /** The classical b denominator is the classical a denominator times 2N + alpha + beta. */
  lemma ClassicalBDenFactor(alpha: real, beta: real, n: real)
    ensures ClassicalBDen(alpha, beta, n) == ClassicalADen(alpha, beta, n) * (2.0 * n + alpha + beta)
  {
  }

  /** The general classical a_N, written over its factors. */
  lemma ClassicalAShape(alpha: real, beta: real, n: real, u1: real, u2: real, ad: real)
    requires u1 == 2.0 * n + alpha + beta + 1.0 && u2 == 2.0 * n + alpha + beta + 2.0
    requires ad == ClassicalADen(alpha, beta, n) && ad != 0.0
    ensures ClassicalAFormula(alpha, beta, n) == (u1 * u2) / ad
  {
  }

  /** The general classical b_N, written over its factors. */
  lemma ClassicalBShape(alpha: real, beta: real, n: real, d: real, u: real, u1: real, ad: real)
    requires d == beta * beta - alpha * alpha && u == 2.0 * n + alpha + beta && u1 == u + 1.0
    requires ad == ClassicalADen(alpha, beta, n) && ClassicalBDen(alpha, beta, n) != 0.0
    ensures ad * u != 0.0 && ClassicalBFormula(alpha, beta, n) == (d * u1) / (ad * u)
  {
    ClassicalBDenFactor(alpha, beta, n);
    var pb := d * u1;
    assert (beta * beta - alpha * alpha) * (2.0 * n + alpha + beta + 1.0) == pb;
  }

  /** The general monic b_N, written over its factors. */
  lemma MonicBShape(alpha: real, beta: real, n: real, d: real, u: real, u2: real)
    requires d == beta * beta - alpha * alpha && u == 2.0 * n + alpha + beta && u2 == u + 2.0
    requires MonicBDen(alpha, beta, n) != 0.0
    ensures u * u2 != 0.0 && MonicBFormula(alpha, beta, n) == d / (u * u2)
  {
    assert MonicBDen(alpha, beta, n) == u * u2;
  }

  /** `ScalingsAgreeB` for the general formulas (N >= 1). */
  lemma ScalingsAgreeBGeneral(alpha: real, beta: real, n: real)
    requires MonicBDen(alpha, beta, n) != 0.0 && ClassicalADen(alpha, beta, n) != 0.0
    requires ClassicalBDen(alpha, beta, n) != 0.0 && ClassicalAFormula(alpha, beta, n) != 0.0
    ensures MonicBFormula(alpha, beta, n) == ClassicalBFormula(alpha, beta, n) / ClassicalAFormula(alpha, beta, n)
  {
    var u := 2.0 * n + alpha + beta;
    var u1, u2 := u + 1.0, u + 2.0;
    var ad, d := ClassicalADen(alpha, beta, n), beta * beta - alpha * alpha;
    ClassicalAShape(alpha, beta, n, u1, u2, ad);
    ClassicalBShape(alpha, beta, n, d, u, u1, ad);
    MonicBShape(alpha, beta, n, d, u, u2);
    FactorsNonzero(u, u2);
    RatioCancel(d, u, u1, u2, ad);
  }

  /**
   * The two scalings describe the same polynomials: for every N, the monic
   * b_N is the classical b_N divided by the classical a_N.
   */
  lemma ScalingsAgreeB(alpha: real, beta: real, N: nat)
    requires MonicBDefined(alpha, beta, N) && ClassicalADefined(alpha, beta, N) && ClassicalBDefined(alpha, beta, N)
    requires ClassicalA(alpha, beta, N) != 0.0
    ensures MonicB(alpha, beta, N) == ClassicalB(alpha, beta, N) / ClassicalA(alpha, beta, N)
  {
    if N == 0 {
      var d, y := beta - alpha, alpha + beta + 2.0;
      DivOfDiv(d, 2.0, y, 2.0);
      QuotientCancel(d * 2.0, 2.0 * y, d, y, 2.0);
    } else {
      ScalingsAgreeBGeneral(alpha, beta, N as real);
    }
  }

  // ---------------------------------------------------------------------
  // The Legendre case alpha = beta = 0
  // ---------------------------------------------------------------------

  /** Legendre (alpha = beta = 0): the monic c_N is N^2 / (4 N^2 - 1) for N >= 1. */
  lemma LegendreMonicC(N: nat)
    requires N >= 1
    ensures MonicDefined(0.0, 0.0, N)
    ensures MonicC(0.0, 0.0, N) == (N as real) * (N as real) / (4.0 * (N as real) * (N as real) - 1.0)
  {
    var n := N as real;
    var a1, a2 := 2.0 * n, 2.0 * n + 2.0;
    MulPos(a1, a2);
    assert MonicBDen(0.0, 0.0, n) == a1 * a2;
    if N >= 2 {
      MulPos(n, n - 1.0);
      var nn := n * n;
      assert n * (n - 1.0) == nn - n;
      var m := 4.0 * nn;
      var y := m - 1.0;
      var num, den := 4.0 * (n + 0.0) * (n + 0.0) * n * (n + 0.0 + 0.0), MonicCDen(0.0, 0.0, n);
      assert num == nn * m;
      LegendreMonicCDen(n, nn, m, y);
      QuotientCancel(num, den, nn, y, m);
    }
  }

  /** The Legendre monic c_N denominator (2N)^2 (2N+1)(2N-1) is (4N^2 - 1) 4N^2. */
  lemma LegendreMonicCDen(n: real, nn: real, m: real, y: real)
    requires nn == n * n && m == 4.0 * nn && y == m - 1.0
    ensures MonicCDen(0.0, 0.0, n) == y * m
  {
    var u := 2.0 * n;
    var s := u * u;
    assert s == m;
    var p := (u + 1.0) * (u - 1.0);
    assert p == s - 1.0;
    MonicCDenFactors(0.0, 0.0, n, u);
    assert s * (u + 1.0) * (u - 1.0) == s * p;
  }

  /** The monic c_N denominator over the factor w = 2N + alpha + beta. */
  lemma MonicCDenFactors(alpha: real, beta: real, n: real, w: real)
    requires w == 2.0 * n + alpha + beta
    ensures MonicCDen(alpha, beta, n) == w * w * (w + 1.0) * (w - 1.0)
  {
  }

  /** Legendre (alpha = beta = 0): the classical a_N is (2N + 1)/(N + 1) for N >= 1. */
  lemma LegendreClassicalA(N: nat)
    requires N >= 1
    ensures ClassicalADen(0.0, 0.0, N as real) != 0.0
    ensures ClassicalAFormula(0.0, 0.0, N as real) == (2.0 * (N as real) + 1.0) / ((N as real) + 1.0)
  {
    var n := N as real;
    var t, v := n + 1.0, 2.0 * n + 1.0;
    var f := 2.0 * t;
    var num, ad := (2.0 * n + 0.0 + 0.0 + 1.0) * (2.0 * n + 0.0 + 0.0 + 2.0), ClassicalADen(0.0, 0.0, n);
    assert num == v * f;
    assert ad == t * f;
    QuotientCancel(num, ad, v, t, f);
  }

  /** Legendre (alpha = beta = 0): the classical c_N is N/(N + 1) for N >= 1. */
  lemma LegendreClassicalC(N: nat)
    requires N >= 1
    ensures ClassicalCDen(0.0, 0.0, N as real) != 0.0
    ensures ClassicalCFormula(0.0, 0.0, N as real) == (N as real) / ((N as real) + 1.0)
  {
    var n := N as real;
    var t, w := n + 1.0, 2.0 * n + 2.0;
    MulPos(n, w);
    var g := n * w;
    var num, cd := (n + 0.0) * (n + 0.0) * (2.0 * n + 0.0 + 0.0 + 2.0), ClassicalCDen(0.0, 0.0, n);
    assert num == n * g;
    assert cd == t * g;
    QuotientCancel(num, cd, n, t, g);
  }

  /**
   * Legendre (alpha = beta = 0): the classical a_N is (2N + 1)/(N + 1) and
   * c_N is N/(N + 1) for N >= 1.
   */
  lemma LegendreClassical(N: nat)
    requires N >= 1
    ensures ClassicalDefined(0.0, 0.0, N)
    ensures ClassicalA(0.0, 0.0, N) == (2.0 * (N as real) + 1.0) / ((N as real) + 1.0)
    ensures ClassicalRc(0.0, 0.0, N).c == Some((N as real) / ((N as real) + 1.0))
  {
    LegendreClassicalA(N);
    LegendreClassicalC(N);
    var n := N as real;
    var ad, n2 := ClassicalADen(0.0, 0.0, n), 2.0 * n;
    MulNonzero(ad, n2);
    ClassicalBDenFactor(0.0, 0.0, n);
  }

  // ---------------------------------------------------------------------
  // Admissible parameters alpha, beta > -1
  // ---------------------------------------------------------------------

  /**
   * For alpha, beta > -1 every denominator of the monic formulas is
   * nonzero, and c_N > 0 for N >= 1.
   */
  lemma AdmissibleMonic(alpha: real, beta: real, N: nat)
    requires alpha > -1.0 && beta > -1.0
    ensures MonicDefined(alpha, beta, N)
    ensures N >= 1 ==> MonicC(alpha, beta, N) > 0.0
  {
    if N >= 1 {
      var n := N as real;
      var u := 2.0 * n + alpha + beta;
      var u2 := u + 2.0;
      MulPos(u, u2);
      assert MonicBDen(alpha, beta, n) == u * u2;
      if N == 1 {
        AdmissibleMonicCOne(alpha, beta);
      } else {
        AdmissibleMonicC(alpha, beta, n);
      }
    }
  }

  /** The monic c_1 is defined and positive for alpha, beta > -1. */
  lemma AdmissibleMonicCOne(alpha: real, beta: real)
    requires alpha > -1.0 && beta > -1.0
    ensures MonicC1Den(alpha, beta) > 0.0
    ensures 4.0 * (1.0 + alpha) * (1.0 + beta) / MonicC1Den(alpha, beta) > 0.0
  {
    CubePos(2.0 + alpha + beta, 3.0 + alpha + beta);
    MulPos(4.0 * (1.0 + alpha), 1.0 + beta);
    DivPos(4.0 * (1.0 + alpha) * (1.0 + beta), MonicC1Den(alpha, beta));
  }

  /** The general monic c_N is defined and positive for alpha, beta > -1 and N >= 2. */
  lemma AdmissibleMonicC(alpha: real, beta: real, n: real)
    requires alpha > -1.0 && beta > -1.0 && n >= 2.0
    ensures MonicCDen(alpha, beta, n) != 0.0 && MonicCFormula(alpha, beta, n) > 0.0
  {
    var u := 2.0 * n + alpha + beta;
    var u1, um := u + 1.0, u - 1.0;
    SquarePos(u);
    var uu := u * u;
    MulPos(uu, u1);
    var uuu := uu * u1;
    MulPos(uuu, um);
    var den := uuu * um;
    assert MonicCDen(alpha, beta, n) == den;
    var a, b, c := n + alpha, n + beta, n + alpha + beta;
    MulPos(a, b);
    var ab := a * b;
    MulPos(ab, n);
    var abn := ab * n;
    MulPos(abn, c);
    var num := abn * c;
    assert 4.0 * (n + alpha) * (n + beta) * n * (n + alpha + beta) == 4.0 * num;
    DivPos(4.0 * num, den);
  }

  /**
   * For alpha, beta > -1 every denominator of the classical formulas is
   * nonzero, a_N > 0, and c_N > 0 for N >= 1.
   */
  lemma AdmissibleClassical(alpha: real, beta: real, N: nat)
    requires alpha > -1.0 && beta > -1.0
    ensures ClassicalDefined(alpha, beta, N)
    ensures ClassicalA(alpha, beta, N) > 0.0
    ensures N >= 1 ==> ClassicalCFormula(alpha, beta, N as real) > 0.0
  {
    if N >= 1 {
      var n := N as real;
      var t, w, u := n + 1.0, n + alpha + beta + 1.0, 2.0 * n + alpha + beta;
      MulPos(t, w);
      var tw := t * w;
      var ad := 2.0 * tw;
      assert ClassicalADen(alpha, beta, n) == ad;
      MulPos(ad, u);
      assert ClassicalBDen(alpha, beta, n) == ad * u;
      MulPos(tw, u);
      var cd := tw * u;
      assert ClassicalCDen(alpha, beta, n) == cd;
      var u1, u2 := u + 1.0, u + 2.0;
      MulPos(u1, u2);
      DivPos(u1 * u2, ad);
      var a, b := n + alpha, n + beta;
      MulPos(a, b);
      var ab := a * b;
      MulPos(ab, u2);
      DivPos(ab * u2, cd);
      assert (n + alpha) * (n + beta) * (2.0 * n + alpha + beta + 2.0) == ab * u2;
    }
  }

  /** For alpha, beta > -1 the scalings agree without further side conditions. */
  lemma AdmissibleScalingsAgreeB(alpha: real, beta: real, N: nat)
    requires alpha > -1.0 && beta > -1.0
    ensures MonicDefined(alpha, beta, N) && ClassicalDefined(alpha, beta, N)
    ensures MonicB(alpha, beta, N) == ClassicalB(alpha, beta, N) / ClassicalA(alpha, beta, N)
  {
    AdmissibleMonic(alpha, beta, N);
    AdmissibleClassical(alpha, beta, N);
    ScalingsAgreeB(alpha, beta, N);
  }
}
