/**
 * The classical Chebyshev algorithm of orthopy/tools/generate_rc.py read
 * against the weight whose moments it is given.
 *
 * For moments moment(0), ..., moment(2n-1) and a zero reference recurrence,
 * buffer entry sigma[k, l] is the integral of t^l * P_k, where P_k is the
 * monic polynomial that the coefficients read off so far generate by the
 * three-term rule.  From this the polynomials are orthogonal, mu[k] = sigma[k, k]
 * is the integral of P_k^2, and alpha[k], beta[k] are exactly the
 * quotients of integrals that the Stieltjes procedure forms.
 */
module Orthogonality {
  import opened Wrappers
  import opened Polynomials
  import opened Functional
  import opened ModifiedChebyshev
  import opened Chebyshev

  /** The first 2n moments of a weight, the input of `chebyshev`. */
  function Moments(moment: nat -> real, n: nat): (nu: seq<real>)
    ensures |nu| == 2 * n && forall i :: 0 <= i < 2 * n ==> nu[i] == moment(i)
  {
    seq(2 * n, i requires 0 <= i => moment(i))
  }

  /** The coefficients read off the first m rows for these moments. */
  function Coeffs(moment: nat -> real, n: nat, m: nat): Option<Rc>
    requires m <= n
  {
    Coefficients(Moments(moment, n), Zeros(2 * n), Zeros(2 * n), m)
  }

  /** Buffer entry sigma[k, l] for these moments and the coefficients c. */
  function Sig(moment: nat -> real, n: nat, c: Rc, k: nat, l: nat): real
    requires k <= l < 2 * n - k && k <= |c.alpha| && k <= |c.beta|
  {
    Sigma(Moments(moment, n), Zeros(2 * n), Zeros(2 * n), c.alpha, c.beta, k, l)
  }

  /** With a zero reference the update of row 1 is one step of the three-term rule. */
  lemma UpdateZeroReference(up: real, mid: real, down: real, alpha: real)
    ensures Update(up, mid, down, alpha, 0.0, 0.0) == Combine(up, alpha, mid, 0.0, 0.0)
  {
  }

  /** With a zero reference the update and correction of row k >= 2 are one step of the three-term rule. */
  lemma SubtractZeroReference(up: real, mid: real, down: real, alpha: real, beta: real, twoBack: real)
    ensures Subtract(Update(up, mid, down, alpha, 0.0, 0.0), beta, twoBack) == Combine(up, alpha, mid, beta, twoBack)
  {
  }

  /** The first read-off makes x - (x / d) * d vanish. */
  lemma CancelFirst(x: real, d: real)
    requires d != 0.0
    ensures Combine(x, x / d, d, 0.0, 0.0) == 0.0
  {
  }

  /** Against a vanishing middle term, beta = x / e cancels x - beta * e. */
  lemma CancelTwoBack(x: real, a: real, e: real)
    requires e != 0.0
    ensures Combine(x, a, 0.0, ReadBeta(x, e), e) == 0.0
  {
  }

  /** The read-off alpha and beta annihilate x - alpha * d - beta * y. */
  lemma CancelOneBack(x: real, d: real, y: real, e: real)
    requires d != 0.0 && e != 0.0
    ensures Combine(x, ReadAlpha(0.0, x, d, y, e), d, ReadBeta(d, e), y) == 0.0
  {
    var q := y / e;
    assert ReadAlpha(0.0, x, d, y, e) * d == x - q * d;
    assert ReadBeta(d, e) * y == q * d;
  }

  /** Zero integrals combine to zero. */
  lemma CombineZeros(a: real, b: real)
    ensures Combine(0.0, a, 0.0, b, 0.0) == 0.0
  {
  }

  /** The sub-leading coefficient -(y / e) lowered by the read-off alpha is -(x / d). */
  lemma SubleadingReadOff(x: real, d: real, y: real, e: real)
    requires d != 0.0 && e != 0.0
    ensures -(y / e) - ReadAlpha(0.0, x, d, y, e) == -(x / d)
  {
  }

  /**
   * One buffer step with a zero reference:
   * sigma[k, l] = sigma[k-1, l+1] - alpha[k-1] * sigma[k-1, l] - beta[k-1] * sigma[k-2, l],
   * the last term only from row 2 on.
   */
  lemma ZeroReferenceStep(moment: nat -> real, n: nat, c: Rc, k: nat, l: nat)
    requires 1 <= k <= l < 2 * n - k && k <= |c.alpha| && k <= |c.beta|
    ensures k == 1 ==>
      Sig(moment, n, c, 1, l) ==
      Combine(Sig(moment, n, c, 0, l + 1), c.alpha[0], Sig(moment, n, c, 0, l), 0.0, 0.0)
    ensures k >= 2 ==>
      Sig(moment, n, c, k, l) ==
      Combine(Sig(moment, n, c, k - 1, l + 1), c.alpha[k - 1], Sig(moment, n, c, k - 1, l), c.beta[k - 1],
              Sig(moment, n, c, k - 2, l))
  {
    var up := Sig(moment, n, c, k - 1, l + 1);
    var mid := Sig(moment, n, c, k - 1, l);
    var down := Sig(moment, n, c, k - 1, l - 1);
    assert Zeros(2 * n)[l] == 0.0;
    if k == 1 {
      UpdateZeroReference(up, mid, down, c.alpha[0]);
    } else {
      SubtractZeroReference(up, mid, down, c.alpha[k - 1], c.beta[k - 1], Sig(moment, n, c, k - 2, l));
    }
  }

  /**
   * sigma[k, l] is the moment recurrence of row k in column l, for every
   * column that row k of the buffer holds and any coefficients before row k.
   */
  lemma {:induction false} SigmaIsMoment(moment: nat -> real, n: nat, c: Rc, k: nat, l: nat)
    requires k <= l < 2 * n - k && k <= |c.alpha| && k <= |c.beta|
    ensures Sig(moment, n, c, k, l) == RecurrenceMoment(moment, c.alpha, c.beta, k, l)
    decreases k
  {
    if k >= 1 {
      ZeroReferenceStep(moment, n, c, k, l);
      SigmaIsMoment(moment, n, c, k - 1, l + 1);
      SigmaIsMoment(moment, n, c, k - 1, l);
      if k >= 2 {
        SigmaIsMoment(moment, n, c, k - 2, l);
      }
    }
  }

  /** The first read-off with a zero reference: nu[0] != 0, alpha[0] = nu[1] / nu[0], beta[0] = nu[0]. */
  lemma FirstEntries(moment: nat -> real, n: nat, m: nat, c: Rc)
    requires 0 < m <= n && Coeffs(moment, n, m) == Some(c)
    ensures moment(0) != 0.0 && c.alpha[0] == moment(1) / moment(0) && c.beta[0] == moment(0)
  {
    ReadOffFirst(Moments(moment, n), Zeros(2 * n), Zeros(2 * n), m);
  }

  /**
   * The read-off at row k >= 1 with a zero reference:
   * alpha[k] = sigma[k, k+1] / sigma[k, k] - sigma[k-1, k] / sigma[k-1, k-1] and
   * beta[k] = sigma[k, k] / sigma[k-1, k-1], both diagonal entries nonzero.
   */
  lemma NextEntries(moment: nat -> real, n: nat, m: nat, c: Rc, k: nat)
    requires 1 <= k < m <= n && Coeffs(moment, n, m) == Some(c)
    ensures Sig(moment, n, c, k, k) != 0.0 && Sig(moment, n, c, k - 1, k - 1) != 0.0
    ensures c.alpha[k] == ReadAlpha(0.0, Sig(moment, n, c, k, k + 1), Sig(moment, n, c, k, k),
                                    Sig(moment, n, c, k - 1, k), Sig(moment, n, c, k - 1, k - 1))
    ensures c.beta[k] == ReadBeta(Sig(moment, n, c, k, k), Sig(moment, n, c, k - 1, k - 1))
  {
    ReadOffNext(Moments(moment, n), Zeros(2 * n), Zeros(2 * n), m, k);
  }

  /** What the first read-off leaves behind: nu[0] != 0, alpha[0] = nu[1] / nu[0], beta[0] = nu[0]. */
  ghost predicate FirstRow(moment: nat -> real, c: Rc)
  {
    1 <= |c.alpha| && 1 <= |c.beta| && moment(0) != 0.0 &&
    c.alpha[0] == moment(1) / moment(0) && c.beta[0] == moment(0)
  }

  /**
   * What the read-off of row k >= 1 leaves behind, as `NextEntries` states
   * it, with every buffer entry replaced by the moment recurrence it equals.
   */
  ghost predicate Row(moment: nat -> real, c: Rc, k: nat)
  {
    1 <= k < |c.alpha| && k < |c.beta| &&
    RecurrenceMoment(moment, c.alpha, c.beta, k, k) != 0.0 &&
    RecurrenceMoment(moment, c.alpha, c.beta, k - 1, k - 1) != 0.0 &&
    c.alpha[k] == ReadAlpha(0.0, RecurrenceMoment(moment, c.alpha, c.beta, k, k + 1),
                            RecurrenceMoment(moment, c.alpha, c.beta, k, k),
                            RecurrenceMoment(moment, c.alpha, c.beta, k - 1, k),
                            RecurrenceMoment(moment, c.alpha, c.beta, k - 1, k - 1)) &&
    c.beta[k] == ReadBeta(RecurrenceMoment(moment, c.alpha, c.beta, k, k),
                          RecurrenceMoment(moment, c.alpha, c.beta, k - 1, k - 1))
  }

  /** The read-offs of rows 0, ..., m-1. */
  ghost predicate ReadOffUpTo(moment: nat -> real, c: Rc, m: nat)
  {
    m <= |c.alpha| && m <= |c.beta| &&
    (0 < m ==> FirstRow(moment, c)) &&
    forall k :: 1 <= k < m ==> Row(moment, c, k)
  }

  /** The read-off of row k >= 1, moved from the buffer entries to the moment recurrence. */
  lemma RowEntries(moment: nat -> real, n: nat, m: nat, c: Rc, k: nat)
    requires 1 <= k < m <= n && Coeffs(moment, n, m) == Some(c)
    ensures Row(moment, c, k)
  {
    NextEntries(moment, n, m, c, k);
    SigmaIsMoment(moment, n, c, k, k);
    SigmaIsMoment(moment, n, c, k, k + 1);
    SigmaIsMoment(moment, n, c, k - 1, k);
    SigmaIsMoment(moment, n, c, k - 1, k - 1);
  }

  /** Coefficients that `chebyshev` reads off m rows satisfy the read-off of every row. */
  lemma ReadOffRows(moment: nat -> real, n: nat, m: nat, c: Rc)
    requires m <= n && Coeffs(moment, n, m) == Some(c)
    ensures ReadOffUpTo(moment, c, m)
  {
    if 0 < m {
      FirstEntries(moment, n, m, c);
    }
    forall k | 1 <= k < m
      ensures Row(moment, c, k)
    {
      RowEntries(moment, n, m, c, k);
    }
  }

  /** The read-off of one row below m. */
  lemma RowAt(moment: nat -> real, m: nat, c: Rc, k: nat)
    requires 1 <= k < m && ReadOffUpTo(moment, c, m)
    ensures Row(moment, c, k)
  {
  }

  /** The read-off of row k cancels column k+1: RM[k, k+1] - alpha[k] RM[k, k] - beta[k] RM[k-1, k] = 0. */
  lemma RowCancelsNext(moment: nat -> real, c: Rc, k: nat)
    requires Row(moment, c, k)
    ensures Combine(RecurrenceMoment(moment, c.alpha, c.beta, k, k + 1), c.alpha[k],
                    RecurrenceMoment(moment, c.alpha, c.beta, k, k), c.beta[k],
                    RecurrenceMoment(moment, c.alpha, c.beta, k - 1, k)) == 0.0
  {
    CancelOneBack(RecurrenceMoment(moment, c.alpha, c.beta, k, k + 1), RecurrenceMoment(moment, c.alpha, c.beta, k, k),
                  RecurrenceMoment(moment, c.alpha, c.beta, k - 1, k), RecurrenceMoment(moment, c.alpha, c.beta, k - 1, k - 1));
  }

  /** The read-off beta[k] cancels the diagonal: RM[k, k] - alpha[k] * 0 - beta[k] RM[k-1, k-1] = 0. */
  lemma RowCancelsDiagonal(moment: nat -> real, c: Rc, k: nat)
    requires Row(moment, c, k)
    ensures Combine(RecurrenceMoment(moment, c.alpha, c.beta, k, k), c.alpha[k], 0.0, c.beta[k],
                    RecurrenceMoment(moment, c.alpha, c.beta, k - 1, k - 1)) == 0.0
  {
    CancelTwoBack(RecurrenceMoment(moment, c.alpha, c.beta, k, k), c.alpha[k],
                  RecurrenceMoment(moment, c.alpha, c.beta, k - 1, k - 1));
  }

  /** The read-off alpha[k] lowers -RM[k-1, k] / RM[k-1, k-1] to -RM[k, k+1] / RM[k, k]. */
  lemma RowSubleading(moment: nat -> real, c: Rc, k: nat)
    requires Row(moment, c, k)
    ensures -(RecurrenceMoment(moment, c.alpha, c.beta, k - 1, k) / RecurrenceMoment(moment, c.alpha, c.beta, k - 1, k - 1))
            - c.alpha[k] ==
            -(RecurrenceMoment(moment, c.alpha, c.beta, k, k + 1) / RecurrenceMoment(moment, c.alpha, c.beta, k, k))
  {
    SubleadingReadOff(RecurrenceMoment(moment, c.alpha, c.beta, k, k + 1), RecurrenceMoment(moment, c.alpha, c.beta, k, k),
                      RecurrenceMoment(moment, c.alpha, c.beta, k - 1, k), RecurrenceMoment(moment, c.alpha, c.beta, k - 1, k - 1));
  }

  /** The moment recurrence of row 1 vanishes in column 0: alpha[0] = nu[1] / nu[0] cancels it. */
  lemma {:induction false} VanishFirst(moment: nat -> real, m: nat, c: Rc)
    requires 1 <= m && ReadOffUpTo(moment, c, m)
    ensures MomentsVanish(moment, c.alpha, c.beta, 1)
  {
    CancelFirst(moment(1), moment(0));
    assert RecurrenceMoment(moment, c.alpha, c.beta, 1, 0) == Combine(moment(1), c.alpha[0], moment(0), 0.0, 0.0);
  }

  /** For l < k - 2 every term of the recurrence of row k vanishes in column l. */
  lemma {:induction false} VanishBelow(moment: nat -> real, alpha: seq<real>, beta: seq<real>, k: nat, l: nat)
    requires 2 <= k <= |alpha| && k <= |beta| && l + 2 < k
    requires MomentsVanish(moment, alpha, beta, k - 1) && MomentsVanish(moment, alpha, beta, k - 2)
    ensures RecurrenceMoment(moment, alpha, beta, k, l) == 0.0
  {
    assert RecurrenceMoment(moment, alpha, beta, k - 1, l + 1) == 0.0;
    assert RecurrenceMoment(moment, alpha, beta, k - 1, l) == 0.0;
    assert RecurrenceMoment(moment, alpha, beta, k - 2, l) == 0.0;
    CombineZeros(alpha[k - 1], beta[k - 1]);
  }

  /** In column k-2, beta[k-1] = RM[k-1, k-1] / RM[k-2, k-2] cancels the recurrence of row k. */
  lemma {:induction false} VanishTwoBack(moment: nat -> real, m: nat, c: Rc, k: nat)
    requires 2 <= k <= m && ReadOffUpTo(moment, c, m)
    requires MomentsVanish(moment, c.alpha, c.beta, k - 1)
    ensures RecurrenceMoment(moment, c.alpha, c.beta, k, k - 2) == 0.0
  {
    RowAt(moment, m, c, k - 1);
    RowCancelsDiagonal(moment, c, k - 1);
    assert RecurrenceMoment(moment, c.alpha, c.beta, k - 1, k - 2) == 0.0;
  }

  /** In column k-1, the read-off alpha[k-1] and beta[k-1] cancel the recurrence of row k. */
  lemma {:induction false} VanishOneBack(moment: nat -> real, m: nat, c: Rc, k: nat)
    requires 2 <= k <= m && ReadOffUpTo(moment, c, m)
    ensures RecurrenceMoment(moment, c.alpha, c.beta, k, k - 1) == 0.0
  {
    RowAt(moment, m, c, k - 1);
    RowCancelsNext(moment, c, k - 1);
  }

  /**
   * The moment recurrence of every row k <= m vanishes below column k:
   * the coefficients that `chebyshev` reads off make the generated
   * polynomials orthogonal.
   */
  lemma {:induction false} MomentsVanishUpTo(moment: nat -> real, m: nat, c: Rc, k: nat)
    requires k <= m && ReadOffUpTo(moment, c, m)
    ensures MomentsVanish(moment, c.alpha, c.beta, k)
    decreases k
  {
    if k == 1 {
      VanishFirst(moment, m, c);
    } else if k >= 2 {
      MomentsVanishUpTo(moment, m, c, k - 1);
      MomentsVanishUpTo(moment, m, c, k - 2);
      forall l | 0 <= l < k
        ensures RecurrenceMoment(moment, c.alpha, c.beta, k, l) == 0.0
      {
        if l + 2 < k {
          VanishBelow(moment, c.alpha, c.beta, k, l);
        } else if l + 2 == k {
          VanishTwoBack(moment, m, c, k);
        } else {
          VanishOneBack(moment, m, c, k);
        }
      }
    }
  }

  /**
   * -(alpha[0] + ... + alpha[k-1]), the sub-leading coefficient of P_k, is
   * -RM[k-1, k] / RM[k-1, k-1], the correction that the read-off of
   * alpha[k] subtracts.
   */
  lemma {:induction false} SubleadingIsQuotient(moment: nat -> real, m: nat, c: Rc, k: nat)
    requires 1 <= k <= m && ReadOffUpTo(moment, c, m)
    ensures RecurrenceMoment(moment, c.alpha, c.beta, k - 1, k - 1) != 0.0
    ensures SubleadingSum(c.alpha, k) ==
            -(RecurrenceMoment(moment, c.alpha, c.beta, k - 1, k) / RecurrenceMoment(moment, c.alpha, c.beta, k - 1, k - 1))
    decreases k
  {
    if k == 1 {
      assert RecurrenceMoment(moment, c.alpha, c.beta, 0, 1) == moment(1);
      assert RecurrenceMoment(moment, c.alpha, c.beta, 0, 0) == moment(0);
    } else {
      RowAt(moment, m, c, k - 1);
      RowSubleading(moment, c, k - 1);
      SubleadingIsQuotient(moment, m, c, k - 1);
    }
  }

  /** The quotient (x + s * d) / d that the Stieltjes procedure forms for alpha. */
  function ShiftedQuotient(x: real, s: real, d: real): real
    requires d != 0.0
  {
    (x + s * d) / d
  }

  /** With s = -(y / e) the shifted quotient is the read-off alpha x / d - y / e. */
  lemma QuotientReadOff(x: real, s: real, d: real, y: real, e: real)
    requires d != 0.0 && e != 0.0 && s == -(y / e)
    ensures ShiftedQuotient(x, s, d) == ReadAlpha(0.0, x, d, y, e)
  {
    assert (x + s * d) / d == x / d + s;
  }

  /**
   * alpha[k], k < m, from the moment recurrence: its diagonal entry is
   * nonzero and alpha[0] = nu[1] / nu[0], and from row 1 on
   * alpha[k] = (RM[k, k+1] + s_k * RM[k, k]) / RM[k, k] with
   * s_k = -(alpha[0] + ... + alpha[k-1]).
   */
  lemma {:induction false} AlphaFromMoments(moment: nat -> real, m: nat, c: Rc, k: nat)
    requires k < m && ReadOffUpTo(moment, c, m)
    ensures RecurrenceMoment(moment, c.alpha, c.beta, k, k) != 0.0
    ensures k == 0 ==>
      RecurrenceMoment(moment, c.alpha, c.beta, 0, 1) / RecurrenceMoment(moment, c.alpha, c.beta, 0, 0) == c.alpha[0]
    ensures k > 0 ==>
      ShiftedQuotient(RecurrenceMoment(moment, c.alpha, c.beta, k, k + 1), SubleadingSum(c.alpha, k),
                      RecurrenceMoment(moment, c.alpha, c.beta, k, k)) == c.alpha[k]
  {
    if k > 0 {
      RowAt(moment, m, c, k);
      SubleadingIsQuotient(moment, m, c, k);
      QuotientReadOff(RecurrenceMoment(moment, c.alpha, c.beta, k, k + 1), SubleadingSum(c.alpha, k),
                      RecurrenceMoment(moment, c.alpha, c.beta, k, k),
                      RecurrenceMoment(moment, c.alpha, c.beta, k - 1, k),
                      RecurrenceMoment(moment, c.alpha, c.beta, k - 1, k - 1));
    }
  }

  /**
   * beta[k], k < m, from the moment recurrence: beta[0] = nu[0], and from
   * row 1 on beta[k] = RM[k, k] / RM[k-1, k-1] with a nonzero denominator.
   */
  lemma {:induction false} BetaFromMoments(moment: nat -> real, m: nat, c: Rc, k: nat)
    requires k < m && ReadOffUpTo(moment, c, m)
    ensures k == 0 ==> RecurrenceMoment(moment, c.alpha, c.beta, 0, 0) == c.beta[0]
    ensures k > 0 ==>
      RecurrenceMoment(moment, c.alpha, c.beta, k - 1, k - 1) != 0.0 &&
      RecurrenceMoment(moment, c.alpha, c.beta, k, k) / RecurrenceMoment(moment, c.alpha, c.beta, k - 1, k - 1) == c.beta[k]
  {
    if k > 0 {
      RowAt(moment, m, c, k);
    }
  }

  /** What `chebyshev` guarantees of the polynomials ps that its m-row read-off generates. */
  ghost predicate ChebyshevSetting(moment: nat -> real, m: nat, c: Rc, ps: seq<Poly>)
  {
    ReadOffUpTo(moment, c, m) && Generated(c.alpha, c.beta, ps) && |ps| == m + 1
  }

  /** The generated polynomials P_0, ..., P_m are orthogonal for the weight. */
  lemma {:induction false} RecurrenceOrthogonal(moment: nat -> real, m: nat, c: Rc, ps: seq<Poly>, k: nat)
    requires k <= m && ChebyshevSetting(moment, m, c, ps)
    ensures Orthogonal(moment, ps[k], k)
  {
    MomentsVanishUpTo(moment, m, c, k);
    GeneratedOrthogonal(moment, c.alpha, c.beta, ps, k);
  }

  /** `AlphaFromMoments` restated on the integrals of t^l * P_k. */
  lemma {:induction false} AlphaFromIntegrals(moment: nat -> real, m: nat, c: Rc, ps: seq<Poly>, k: nat)
    requires k < m && ChebyshevSetting(moment, m, c, ps)
    ensures Integral(moment, ps[k], k) != 0.0
    ensures k == 0 ==> Integral(moment, ps[0], 1) / Integral(moment, ps[0], 0) == c.alpha[0]
    ensures k > 0 ==> ShiftedQuotient(Integral(moment, ps[k], k + 1), Coef(ps[k], k - 1), Integral(moment, ps[k], k)) == c.alpha[k]
  {
    AlphaFromMoments(moment, m, c, k);
    RecurrenceMomentIsIntegral(moment, c.alpha, c.beta, ps, k, k);
    RecurrenceMomentIsIntegral(moment, c.alpha, c.beta, ps, k, k + 1);
    if k > 0 {
      GeneratedSubleading(c.alpha, c.beta, ps, k);
    }
  }

  /** `BetaFromMoments` restated on the integrals of t^l * P_k. */
  lemma {:induction false} BetaFromIntegrals(moment: nat -> real, m: nat, c: Rc, ps: seq<Poly>, k: nat)
    requires k < m && ChebyshevSetting(moment, m, c, ps)
    ensures k == 0 ==> Integral(moment, ps[0], 0) == c.beta[0]
    ensures k > 0 ==>
      Integral(moment, ps[k - 1], k - 1) != 0.0 &&
      Integral(moment, ps[k], k) / Integral(moment, ps[k - 1], k - 1) == c.beta[k]
  {
    BetaFromMoments(moment, m, c, k);
    RecurrenceMomentIsIntegral(moment, c.alpha, c.beta, ps, k, k);
    if k > 0 {
      RecurrenceMomentIsIntegral(moment, c.alpha, c.beta, ps, k - 1, k - 1);
    }
  }

  /**
   * Row k < m of the Stieltjes quotients: the integral of P_k^2 is nonzero
   * and the integral of t * P_k^2 divided by it is alpha[k].
   */
  lemma {:induction false} AlphaIsQuotient(moment: nat -> real, m: nat, c: Rc, ps: seq<Poly>, k: nat)
    requires k < m && ChebyshevSetting(moment, m, c, ps)
    ensures Integral(moment, Square(ps[k]), 0) != 0.0
    ensures Integral(moment, TimesT(Square(ps[k])), 0) / Integral(moment, Square(ps[k]), 0) == c.alpha[k]
  {
    RecurrenceOrthogonal(moment, m, c, ps, k);
    GeneratedMonic(c.alpha, c.beta, ps, k);
    AlphaFromIntegrals(moment, m, c, ps, k);
    OrthogonalSquare(moment, ps[k], k);
    OrthogonalTimesSquare(moment, ps[k], k);
  }

  /**
   * beta[0] is the integral of P_0^2 = 1, and beta[k], 0 < k < m, is the
   * integral of P_k^2 divided by that of P_(k-1)^2.
   */
  lemma {:induction false} BetaIsQuotient(moment: nat -> real, m: nat, c: Rc, ps: seq<Poly>, k: nat)
    requires k < m && ChebyshevSetting(moment, m, c, ps)
    ensures k == 0 ==> Integral(moment, Square(ps[0]), 0) == c.beta[0]
    ensures k > 0 ==>
      Integral(moment, Square(ps[k - 1]), 0) != 0.0 &&
      Integral(moment, Square(ps[k]), 0) / Integral(moment, Square(ps[k - 1]), 0) == c.beta[k]
  {
    BetaFromIntegrals(moment, m, c, ps, k);
    RecurrenceOrthogonal(moment, m, c, ps, k);
    GeneratedMonic(c.alpha, c.beta, ps, k);
    OrthogonalSquare(moment, ps[k], k);
    if k > 0 {
      RecurrenceOrthogonal(moment, m, c, ps, k - 1);
      GeneratedMonic(c.alpha, c.beta, ps, k - 1);
      OrthogonalSquare(moment, ps[k - 1], k - 1);
    }
  }

  /**
   * The classical Chebyshev algorithm computes the Stieltjes coefficients:
   * when `chebyshev` reads off m rows from the first 2n moments of a weight,
   * the polynomials P_0, ..., P_m that its alpha and beta generate are
   * orthogonal for that weight, and alpha[k] and beta[k] are the quotients
   * of integrals that the Stieltjes procedure forms.
   */
  lemma {:induction false} StieltjesQuotients(moment: nat -> real, n: nat, m: nat, c: Rc, ps: seq<Poly>)
    requires m <= n && Coeffs(moment, n, m) == Some(c) && Generated(c.alpha, c.beta, ps) && |ps| == m + 1
    ensures |c.alpha| == m && |c.beta| == m
    ensures forall k :: 0 <= k <= m ==> Orthogonal(moment, ps[k], k)
    ensures forall k :: 0 <= k < m ==>
      Integral(moment, Square(ps[k]), 0) != 0.0 &&
      Integral(moment, TimesT(Square(ps[k])), 0) / Integral(moment, Square(ps[k]), 0) == c.alpha[k]
    ensures 0 < m ==> Integral(moment, Square(ps[0]), 0) == c.beta[0]
    ensures forall k :: 0 < k < m ==>
      Integral(moment, Square(ps[k]), 0) / Integral(moment, Square(ps[k - 1]), 0) == c.beta[k]
  {
    ReadOffRows(moment, n, m, c);
    assert ChebyshevSetting(moment, m, c, ps);
    forall k | 0 <= k <= m
      ensures Orthogonal(moment, ps[k], k)
    {
      RecurrenceOrthogonal(moment, m, c, ps, k);
    }
    forall k | 0 <= k < m
      ensures Integral(moment, Square(ps[k]), 0) != 0.0
      ensures Integral(moment, TimesT(Square(ps[k])), 0) / Integral(moment, Square(ps[k]), 0) == c.alpha[k]
    {
      AlphaIsQuotient(moment, m, c, ps, k);
    }
    if 0 < m {
      BetaIsQuotient(moment, m, c, ps, 0);
    }
    forall k | 0 < k < m
      ensures Integral(moment, Square(ps[k]), 0) / Integral(moment, Square(ps[k - 1]), 0) == c.beta[k]
    {
      BetaIsQuotient(moment, m, c, ps, k);
    }
  }
}
