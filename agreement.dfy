/**
 * The two procedures of orthopy/tools/generate_rc.py that start from a
 * weight give the same coefficients.  For any weight given by its moments,
 * when the Chebyshev algorithm reads off m rows from the first 2n moments,
 * the Stieltjes procedure run on the integral of that weight is defined for
 * m steps, builds the same polynomials and returns the same alpha and the
 * same beta[1..]; the Chebyshev algorithm returns beta[0] = mu[0], the total
 * mass, where the Stieltjes procedure leaves beta[0] = None.  The Legendre
 * weight 1 on [-1, 1] is worked out as an example.
 */
module Agreement {
  import opened Wrappers
  import opened Polynomials
  import opened Functional
  import opened ModifiedChebyshev
  import Chebyshev
  import Stieltjes
  import opened Orthogonality

  /** Both procedures give alpha = [0, 0] and beta[1] = 1/3 for the Legendre weight. */
  lemma LegendreAgreement()
    ensures Stieltjes.Regular(Stieltjes.LegendreIntegral, 2)
    ensures ModifiedChebyshev.WellShaped(Chebyshev.LegendreMoments(), Chebyshev.Zeros(4), Chebyshev.Zeros(4))
    ensures var c := ModifiedChebyshev.Coefficients(Chebyshev.LegendreMoments(), Chebyshev.Zeros(4), Chebyshev.Zeros(4), 2);
      var s := Stieltjes.Steps(Stieltjes.LegendreIntegral, 2).value;
      c.Some? &&
      s[0].alpha == c.value.alpha[0] && s[1].alpha == c.value.alpha[1] &&
      s[1].beta == Some(c.value.beta[1]) &&
      s[0].beta == None && c.value.beta[0] == s[0].mu
  {
    Chebyshev.LegendreExample();
    Stieltjes.LegendreExample();
  }

  /**
   * Row k of the Stieltjes table as the Chebyshev coefficients c predict it:
   * the polynomial P_k that c generates, the integral of its square,
   * alpha[k], and beta[k] from row 1 on.
   */
  function PredictedRow(moment: nat -> real, c: Rc, ps: seq<Poly>, k: nat): Stieltjes.Row
    requires k < |ps| && k < |c.alpha| && k < |c.beta|
  {
    Stieltjes.Row(ps[k], Integral(moment, Square(ps[k]), 0), c.alpha[k], if k == 0 then None else Some(c.beta[k]))
  }

  /** rows holds the predicted rows 0, ..., |rows|-1. */
  ghost predicate Predicted(moment: nat -> real, m: nat, c: Rc, ps: seq<Poly>, rows: seq<Stieltjes.Row>)
    requires ChebyshevSetting(moment, m, c, ps)
  {
    |rows| <= m && forall k :: 0 <= k < |rows| ==> rows[k] == PredictedRow(moment, c, ps, k)
  }

  /** Fed the predicted rows 0, ..., k-1, step k of the Stieltjes procedure produces the predicted row k. */
  lemma PredictedStep(moment: nat -> real, m: nat, c: Rc, ps: seq<Poly>, rows: seq<Stieltjes.Row>)
    requires ChebyshevSetting(moment, m, c, ps)
    requires Predicted(moment, m, c, ps, rows) && |rows| < m
    ensures Stieltjes.Extensible(rows)
    ensures Stieltjes.Step(Oracle(moment), rows) == Some(PredictedRow(moment, c, ps, |rows|))
  {
    var k := |rows|;
    if k >= 1 {
      assert rows[k - 1] == PredictedRow(moment, c, ps, k - 1);
      AlphaIsQuotient(moment, m, c, ps, k - 1);
    }
    if k == 1 {
      assert rows[0] == PredictedRow(moment, c, ps, 0);
    } else if k >= 2 {
      assert rows[k - 2] == PredictedRow(moment, c, ps, k - 2);
      assert RuleStep(c.alpha, c.beta, ps, k);
    }
    assert Stieltjes.NextPi(rows) == ps[k];
    AlphaIsQuotient(moment, m, c, ps, k);
    BetaIsQuotient(moment, m, c, ps, k);
  }

  /** Appending the predicted row k to the predicted rows 0, ..., k-1 gives the predicted rows 0, ..., k. */
  lemma PredictedAppend(moment: nat -> real, m: nat, c: Rc, ps: seq<Poly>, rows: seq<Stieltjes.Row>)
    requires ChebyshevSetting(moment, m, c, ps)
    requires Predicted(moment, m, c, ps, rows) && |rows| < m
    ensures Predicted(moment, m, c, ps, rows + [PredictedRow(moment, c, ps, |rows|)])
  {
    var next := rows + [PredictedRow(moment, c, ps, |rows|)];
    forall k | 0 <= k < |next|
      ensures next[k] == PredictedRow(moment, c, ps, k)
    {
      if k < |rows| {
        assert next[k] == rows[k];
      }
    }
  }

  /** The first j <= m steps of the Stieltjes procedure are defined and give the predicted rows. */
  lemma {:induction false} PredictedSteps(moment: nat -> real, m: nat, c: Rc, ps: seq<Poly>, j: nat)
    requires ChebyshevSetting(moment, m, c, ps) && j <= m
    ensures Stieltjes.Regular(Oracle(moment), j)
    ensures Predicted(moment, m, c, ps, Stieltjes.Steps(Oracle(moment), j).value)
    decreases j
  {
    if j > 0 {
      PredictedSteps(moment, m, c, ps, j - 1);
      var rows := Stieltjes.Steps(Oracle(moment), j - 1).value;
      PredictedStep(moment, m, c, ps, rows);
      Stieltjes.StepsExtend(Oracle(moment), j, PredictedRow(moment, c, ps, j - 1));
      PredictedAppend(moment, m, c, ps, rows);
    }
  }

  /**
   * The Chebyshev algorithm and the Stieltjes procedure agree on every
   * weight: when `chebyshev` reads off m <= n rows from the first 2n moments,
   * `stieltjes` on the integral of the same weight is defined for m steps,
   * its alpha[k] is the Chebyshev alpha[k], its beta[k] for k >= 1 is the
   * Chebyshev beta[k], and the Chebyshev beta[0] is its mu[0].
   */
  lemma ChebyshevAgreesWithStieltjes(moment: nat -> real, n: nat, m: nat, c: Rc)
    requires m <= n && Coeffs(moment, n, m) == Some(c)
    ensures Stieltjes.Regular(Oracle(moment), m)
    ensures var rows := Stieltjes.Steps(Oracle(moment), m).value;
      |c.alpha| == m && |c.beta| == m &&
      (forall k :: 0 <= k < m ==> rows[k].alpha == c.alpha[k]) &&
      (forall k :: 0 < k < m ==> rows[k].beta == Some(c.beta[k])) &&
      (0 < m ==> rows[0].beta == None && rows[0].mu == c.beta[0])
  {
    ReadOffRows(moment, n, m, c);
    var ps := GeneratedPolys(c.alpha, c.beta, m);
    GeneratedPolysGenerated(c.alpha, c.beta, m);
    assert ChebyshevSetting(moment, m, c, ps);
    PredictedSteps(moment, m, c, ps, m);
    var rows := Stieltjes.Steps(Oracle(moment), m).value;
    assert forall k :: 0 <= k < m ==> rows[k] == PredictedRow(moment, c, ps, k);
    if 0 < m {
      BetaIsQuotient(moment, m, c, ps, 0);
    }
  }
}
