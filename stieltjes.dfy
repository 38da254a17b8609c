/**
 * The Stieltjes procedure of orthopy/tools/generate_rc.py.
 *
 * Given an integration oracle `integrate` (the source calls it as
 * `integrate(t, expr)` on sympy expressions in `t`; here it receives the
 * coefficient list of the polynomial to integrate) and a count n, the source
 * builds the monic orthogonal polynomials pi[k] one at a time by the
 * three-term rule and reads off
 *   mu[k] = integrate(pi[k]^2),
 *   alpha[k] = integrate(t * pi[k]^2) / mu[k],
 *   beta[k] = mu[k] / mu[k-1], with beta[0] = None.
 *
 * `Steps` is the specification: the table of the first m rows
 * (pi[k], mu[k], alpha[k], beta[k]), or `None` when some mu[k] is zero and a
 * division would be undefined.  The method `StieltjesRun` fills four arrays
 * the way the source fills its four lists.
 */
module Stieltjes {
  import opened Wrappers
  import opened Polynomials

  /** Row k of the procedure: pi[k], mu[k], alpha[k] and beta[k]. */
  datatype Row = Row(pi: Poly, mu: real, alpha: real, beta: Option<real>)

  /** The two lists returned by the source. */
  datatype StieltjesRc = StieltjesRc(alpha: array<real>, beta: array<Option<real>>)

  /**
   * The rows computed so far can be extended by one more step: the last
   * mu is nonzero (the next beta divides by it), and the last row has a
   * beta exactly when it is not row 0 (the next pi reads it from row 2 on).
   */
  predicate Extensible(rows: seq<Row>)
  {
    |rows| > 0 ==>
      rows[|rows| - 1].mu != 0.0 && (rows[|rows| - 1].beta.Some? <==> |rows| >= 2)
  }

  /**
   * The next polynomial pi[k], k = |rows|: 1 for k = 0,
   * (t - alpha[0]) * pi[0] for k = 1, and
   * (t - alpha[k-1]) * pi[k-1] - beta[k-1] * pi[k-2] for k >= 2.
   */
  function NextPi(rows: seq<Row>): Poly
    requires Extensible(rows)
  {
    var k := |rows|;
    if k == 0 then One()
    else if k == 1 then LinearTimes(rows[0].alpha, rows[0].pi)
    else ThreeTerm(rows[k - 1].alpha, rows[k - 1].beta.value, rows[k - 1].pi, rows[k - 2].pi)
  }

  /** The quotient x / y of two oracle values. */
  function Ratio(x: real, y: real): real
    requires y != 0.0
  {
    x / y
  }

  /**
   * Step k = |rows| of the procedure: pi[k] = NextPi(rows),
   * mu[k] = integrate(pi[k]^2), alpha[k] = integrate(t * pi[k]^2) / mu[k] and
   * beta[k] = mu[k] / mu[k-1] (None for k = 0), or `None` when mu[k] is zero.
   */
  function Step(integrate: Poly -> real, rows: seq<Row>): (r: Option<Row>)
    requires Extensible(rows)
    ensures r.Some? <==> integrate(Square(NextPi(rows))) != 0.0
    ensures r.Some? ==> Extensible(rows + [r.value])
  {
    var p := NextPi(rows);
    var mu := integrate(Square(p));
    if mu == 0.0 then None
    else
      Some(Row(p, mu, Ratio(integrate(TimesT(Square(p))), mu),
               if |rows| == 0 then None else Some(Ratio(mu, rows[|rows| - 1].mu))))
  }

  /**
   * The table of the first m steps of the procedure, or `None` when one of
   * mu[0], ..., mu[m-1] is zero.
   */
  function Steps(integrate: Poly -> real, m: nat): (r: Option<seq<Row>>)
    ensures r.Some? ==> |r.value| == m && Extensible(r.value)
    decreases m
  {
    if m == 0 then Some([])
    else
      match Steps(integrate, m - 1)
      case None => None
      case Some(rows) =>
        match Step(integrate, rows)
        case None => None
        case Some(row) => Some(rows + [row])
  }

  /** Every division of the first n steps is defined. */
  predicate Regular(integrate: Poly -> real, n: nat)
  {
    Steps(integrate, n).Some?
  }

  /** A defined table of m >= 1 rows is one step after a defined table of m - 1 rows. */
  lemma StepsLast(integrate: Poly -> real, m: nat)
    requires 0 < m && Regular(integrate, m)
    ensures Regular(integrate, m - 1)
    ensures Step(integrate, Steps(integrate, m - 1).value).Some?
    ensures Steps(integrate, m).value ==
      Steps(integrate, m - 1).value + [Step(integrate, Steps(integrate, m - 1).value).value]
  {
  }

  /** When step m-1 succeeds on a defined table of m-1 rows, the table of m rows is that table and the new row. */
  lemma StepsExtend(integrate: Poly -> real, m: nat, row: Row)
    requires 0 < m && Regular(integrate, m - 1)
    requires Step(integrate, Steps(integrate, m - 1).value) == Some(row)
    ensures Steps(integrate, m) == Some(Steps(integrate, m - 1).value + [row])
  {
  }

  /** A defined table of m rows starts with the defined table of each shorter length. */
  lemma {:induction false} StepsPrefix(integrate: Poly -> real, j: nat, m: nat)
    requires j <= m && Regular(integrate, m)
    ensures Regular(integrate, j)
    ensures Steps(integrate, m).value[..j] == Steps(integrate, j).value
    decreases m
  {
    var rows := Steps(integrate, m).value;
    if j < m {
      StepsLast(integrate, m);
      StepsPrefix(integrate, j, m - 1);
      var prev := Steps(integrate, m - 1).value;
      assert rows[..m - 1] == prev;
      assert rows[..j] == prev[..j];
    } else {
      assert rows[..j] == rows;
    }
  }

  /** Row k of a defined table is step k applied to the rows before it. */
  lemma StepsRow(integrate: Poly -> real, n: nat, k: nat)
    requires k < n && Regular(integrate, n)
    ensures Extensible(Steps(integrate, n).value[..k])
    ensures Step(integrate, Steps(integrate, n).value[..k]) == Some(Steps(integrate, n).value[k])
  {
    StepsPrefix(integrate, k + 1, n);
    StepsLast(integrate, k + 1);
    StepsPrefix(integrate, k, n);
    var rows := Steps(integrate, n).value;
    assert rows[k] == rows[..k + 1][k];
  }

  /** The fields of a row that a step produces. */
  lemma StepFields(integrate: Poly -> real, rows: seq<Row>, row: Row)
    requires Extensible(rows) && Step(integrate, rows) == Some(row)
    ensures row.pi == NextPi(rows)
    ensures row.mu == integrate(Square(row.pi)) && row.mu != 0.0
    ensures row.alpha == integrate(TimesT(Square(row.pi))) / row.mu
    ensures |rows| == 0 ==> row.beta == None
    ensures |rows| > 0 ==> row.beta == Some(row.mu / rows[|rows| - 1].mu)
  {
  }

  /**
   * The entries of a defined table: mu[k] is the nonzero integral of
   * pi[k]^2, alpha[k] = integrate(t * pi[k]^2) / mu[k], beta[0] = None and
   * beta[k] = mu[k] / mu[k-1] for k >= 1.
   */
  lemma StepsEntry(integrate: Poly -> real, n: nat, k: nat)
    requires k < n && Regular(integrate, n)
    ensures var rows := Steps(integrate, n).value;
      rows[k].mu == integrate(Square(rows[k].pi)) && rows[k].mu != 0.0 &&
      rows[k].alpha == integrate(TimesT(Square(rows[k].pi))) / rows[k].mu &&
      (k == 0 ==> rows[k].beta == None) &&
      (k > 0 ==> rows[k - 1].mu != 0.0 && rows[k].beta == Some(rows[k].mu / rows[k - 1].mu))
  {
    StepsRow(integrate, n, k);
    var rows := Steps(integrate, n).value;
    StepFields(integrate, rows[..k], rows[k]);
    if k > 0 {
      assert rows[..k][k - 1] == rows[k - 1];
    }
  }

  /**
   * The polynomials of a defined table follow the three-term rule:
   * pi[0] = 1, pi[1] = (t - alpha[0]) * pi[0] and
   * pi[k] = (t - alpha[k-1]) * pi[k-1] - beta[k-1] * pi[k-2] for k >= 2,
   * where beta[k-1] is present.
   */
  lemma PiEntry(integrate: Poly -> real, n: nat, k: nat)
    requires k < n && Regular(integrate, n)
    ensures var rows := Steps(integrate, n).value;
      (k == 0 ==> rows[0].pi == One()) &&
      (k == 1 ==> rows[1].pi == LinearTimes(rows[0].alpha, rows[0].pi)) &&
      (k >= 2 ==>
         rows[k - 1].beta.Some? &&
         rows[k].pi == ThreeTerm(rows[k - 1].alpha, rows[k - 1].beta.value, rows[k - 1].pi, rows[k - 2].pi))
  {
    StepsRow(integrate, n, k);
    var rows := Steps(integrate, n).value;
    StepFields(integrate, rows[..k], rows[k]);
    NextPiPrefix(rows, k);
  }

  /** The next polynomial after the first k rows of a longer table, read off that table. */
  lemma NextPiPrefix(rows: seq<Row>, k: nat)
    requires k < |rows| && Extensible(rows[..k])
    ensures k == 0 ==> NextPi(rows[..k]) == One()
    ensures k == 1 ==> NextPi(rows[..k]) == LinearTimes(rows[0].alpha, rows[0].pi)
    ensures k >= 2 ==>
      rows[k - 1].beta.Some? && NextPi(rows[..k]) == ThreeTerm(rows[k - 1].alpha, rows[k - 1].beta.value, rows[k - 1].pi, rows[k - 2].pi)
  {
    var prefix := rows[..k];
    if k >= 1 {
      assert prefix[k - 1] == rows[k - 1];
    }
    if k >= 2 {
      assert prefix[k - 2] == rows[k - 2];
    }
  }

  /** Every mu[k] of a defined table is nonzero, and beta[k] is present exactly for k >= 1. */
  lemma RowsShape(integrate: Poly -> real, n: nat)
    requires Regular(integrate, n)
    ensures forall k :: 0 <= k < n ==>
      Steps(integrate, n).value[k].mu != 0.0 &&
      (Steps(integrate, n).value[k].beta.None? <==> k == 0)
  {
    forall k | 0 <= k < n
      ensures Steps(integrate, n).value[k].mu != 0.0
      ensures Steps(integrate, n).value[k].beta.None? <==> k == 0
    {
      StepsEntry(integrate, n, k);
    }
  }

  /** The next polynomial after k monic ones of degrees 0 .. k-1 is monic of degree k. */
  lemma NextPiMonic(rows: seq<Row>)
    requires Extensible(rows)
    requires forall i :: 0 <= i < |rows| ==> Monic(rows[i].pi, i)
    ensures Monic(NextPi(rows), |rows|)
  {
    var k := |rows|;
    if k == 1 {
      LinearTimesMonic(rows[0].alpha, rows[0].pi, 0);
    } else if k >= 2 {
      ThreeTermMonic(rows[k - 1].alpha, rows[k - 1].beta.value, rows[k - 1].pi, rows[k - 2].pi, k - 1);
    }
  }

  /** Each pi[k] of a defined table is monic of degree k. */
  lemma {:induction false} PiMonic(integrate: Poly -> real, m: nat)
    requires Regular(integrate, m)
    ensures forall k :: 0 <= k < m ==> Monic(Steps(integrate, m).value[k].pi, k)
    decreases m
  {
    if m > 0 {
      PiMonic(integrate, m - 1);
      StepsLast(integrate, m);
      var prev := Steps(integrate, m - 1).value;
      NextPiMonic(prev);
      var rows := Steps(integrate, m).value;
      forall k | 0 <= k < m
        ensures Monic(rows[k].pi, k)
      {
        if k < m - 1 {
          assert rows[k] == prev[k];
        }
      }
    }
  }

  /** The first k entries of the four arrays hold the first k rows of the table. */
  ghost predicate Filled(pi: array<Poly>, mu: array<real>, alpha: array<real>, beta: array<Option<real>>,
                         rows: seq<Row>, k: nat)
    reads pi, mu, alpha, beta
  {
    k <= pi.Length && k <= mu.Length && k <= alpha.Length && k <= beta.Length && k <= |rows| &&
    forall i :: 0 <= i < k ==>
      pi[i] == rows[i].pi && mu[i] == rows[i].mu && alpha[i] == rows[i].alpha && beta[i] == rows[i].beta
  }

  /**
   * Step k: stores pi[k] = p and the values mu[k], alpha[k] and beta[k]
   * read off it, which are those of row k.
   */
  method Record(integrate: Poly -> real, pi: array<Poly>, mu: array<real>,
                alpha: array<real>, beta: array<Option<real>>, k: nat, p: Poly, ghost rows: seq<Row>)
    requires pi.Length == mu.Length == alpha.Length == beta.Length == |rows| && k < |rows| && mu != alpha
    requires Filled(pi, mu, alpha, beta, rows, k)
    requires rows[k].pi == p && rows[k].mu == integrate(Square(p)) && rows[k].mu != 0.0
    requires rows[k].alpha == integrate(TimesT(Square(p))) / rows[k].mu
    requires k == 0 ==> rows[k].beta == None
    requires k > 0 ==> rows[k - 1].mu != 0.0 && rows[k].beta == Some(rows[k].mu / rows[k - 1].mu)
    modifies pi, mu, alpha, beta
    ensures Filled(pi, mu, alpha, beta, rows, k + 1)
  {
    pi[k] := p;
    mu[k] := integrate(Square(pi[k]));
    alpha[k] := Ratio(integrate(TimesT(Square(pi[k]))), mu[k]);
    if k == 0 {
      beta[k] := None;
    } else {
      beta[k] := Some(Ratio(mu[k], mu[k - 1]));
    }
  }

  /** One pass of the `for k` loop, k >= 2: pi[k] by the three-term rule, then row k. */
  method NextStep(integrate: Poly -> real, pi: array<Poly>, mu: array<real>,
                  alpha: array<real>, beta: array<Option<real>>, n: nat, k: nat, ghost rows: seq<Row>)
    requires 2 <= k < n && Regular(integrate, n) && rows == Steps(integrate, n).value
    requires pi.Length == mu.Length == alpha.Length == beta.Length == n && mu != alpha
    requires Filled(pi, mu, alpha, beta, rows, k)
    modifies pi, mu, alpha, beta
    ensures Filled(pi, mu, alpha, beta, rows, k + 1)
  {
    StepsEntry(integrate, n, k);
    PiEntry(integrate, n, k);
    Record(integrate, pi, mu, alpha, beta, k, ThreeTerm(alpha[k - 1], beta[k - 1].value, pi[k - 1], pi[k - 2]), rows);
  }

  /**
   * `stieltjes(integrate, n)`: n = 0 fails with an index error at pi[0], and
   * n = 1 fails with one at pi[1], whatever the first step computed, since
   * nothing of it is returned; for n >= 2 the returned alpha and beta are
   * the columns of the table of n steps, in new lists.
   * Every mu[k] that the source divides by must then be nonzero.
   */
  method StieltjesRun(integrate: Poly -> real, n: nat) returns (r: Result<StieltjesRc, Exception>)
    requires n >= 2 ==> Regular(integrate, n)
    ensures n < 2 ==> r == Failure(IndexError)
    ensures n >= 2 ==>
      r.Success? && r.value.alpha.Length == n && r.value.beta.Length == n &&
      forall i :: 0 <= i < n ==>
        r.value.alpha[i] == Steps(integrate, n).value[i].alpha &&
        r.value.beta[i] == Steps(integrate, n).value[i].beta
    ensures r.Success? ==> fresh(r.value.alpha) && fresh(r.value.beta)
  {
    var alpha := new real[n];
    var beta := new Option<real>[n](_ => None);
    var mu := new real[n];
    var pi := new Poly[n];
    if n < 2 {
      return Failure(IndexError);
    }
    ghost var rows := Steps(integrate, n).value;
    StepsEntry(integrate, n, 0);
    PiEntry(integrate, n, 0);
    Record(integrate, pi, mu, alpha, beta, 0, One(), rows);
    StepsEntry(integrate, n, 1);
    PiEntry(integrate, n, 1);
    Record(integrate, pi, mu, alpha, beta, 1, LinearTimes(alpha[0], pi[0]), rows);
    for k := 2 to n
      invariant Filled(pi, mu, alpha, beta, rows, k)
    {
      NextStep(integrate, pi, mu, alpha, beta, n, k, rows);
    }
    return Success(StieltjesRc(alpha, beta));
  }

  /** The moment of t^i for the weight 1 on [-1, 1]: 2 / (i + 1) for even i, 0 for odd i. */
  function LegendreMoment(i: nat): real
  {
    if i % 2 == 1 then 0.0 else 2.0 / (i + 1) as real
  }

  /** The integral of a polynomial over [-1, 1]. */
  function LegendreIntegral(p: Poly): real
    decreases |p|
  {
    if |p| == 0 then 0.0 else LegendreIntegral(p[..|p| - 1]) + p[|p| - 1] * LegendreMoment(|p| - 1)
  }

  /** The four integrals the first two Legendre steps need. */
  lemma LegendreIntegrals()
    ensures LegendreIntegral([1.0]) == 2.0
    ensures LegendreIntegral([0.0, 1.0]) == 0.0
    ensures LegendreIntegral([0.0, 0.0, 1.0]) == 2.0 / 3.0
    ensures LegendreIntegral([0.0, 0.0, 0.0, 1.0]) == 0.0
  {
    assert [0.0, 0.0, 0.0, 1.0][..3] == [0.0, 0.0, 0.0];
    assert [0.0, 0.0, 1.0][..2] == [0.0, 0.0];
    assert [0.0, 0.0, 0.0][..2] == [0.0, 0.0];
    assert [0.0, 1.0][..1] == [0.0];
    assert [0.0, 0.0][..1] == [0.0];
    assert [1.0][..0] == [] && [0.0][..0] == [];
  }

  /** The first step for the Legendre weight: pi[0] = 1, mu[0] = 2, alpha[0] = 0, beta[0] = None. */
  lemma LegendreFirstStep()
    ensures Steps(LegendreIntegral, 1) == Some([Row([1.0], 2.0, 0.0, None)])
  {
    var p := NextPi([]);
    assert p == [1.0];
    assert Mul(p[1..], p) == [];
    assert Scale(1.0, p) == [1.0] + Scale(1.0, []);
    assert Square(p) == Add([1.0], [0.0]);
    assert Add([1.0], [0.0]) == [1.0 + 0.0] + Add([], []);
    assert TimesT(Square(p)) == [0.0, 1.0];
    LegendreIntegrals();
    var row := Row([1.0], 2.0, 0.0, None);
    assert Step(LegendreIntegral, []) == Some(row);
    assert Steps(LegendreIntegral, 0) == Some([]);
    assert [] + [row] == [row];
  }

  /** pi[1] = t for the Legendre weight, with pi[1]^2 = t^2. */
  lemma LegendreSecondPi()
    ensures NextPi([Row([1.0], 2.0, 0.0, None)]) == [0.0, 1.0]
    ensures Square([0.0, 1.0]) == [0.0, 0.0, 1.0]
  {
    var p: Poly := [0.0, 1.0];
    assert Scale(-0.0, [1.0]) == [0.0] + Scale(-0.0, []);
    assert Add(p, [0.0]) == [0.0] + Add([1.0], []);
    assert LinearTimes(0.0, [1.0]) == Add(p, [0.0]);
    assert Mul([1.0], p) == Add(Scale(1.0, p), TimesT(Mul([], p)));
    assert Scale(1.0, p) == [0.0] + Scale(1.0, [1.0]);
    assert Scale(1.0, [1.0]) == [1.0] + Scale(1.0, []);
    assert Mul([1.0], p) == p;
    assert Scale(0.0, p) == [0.0] + Scale(0.0, [1.0]);
    assert Scale(0.0, [1.0]) == [0.0] + Scale(0.0, []);
    assert Scale(0.0, p) == [0.0, 0.0];
    assert p[1..] == [1.0];
    assert TimesT(Mul(p[1..], p)) == [0.0, 0.0, 1.0];
    assert Mul(p, p) == Add(Scale(0.0, p), TimesT(Mul(p[1..], p)));
    assert Add([0.0, 0.0], [0.0, 0.0, 1.0]) == [0.0] + Add([0.0], [0.0, 1.0]);
    assert Add([0.0], [0.0, 1.0]) == [0.0] + Add([], [1.0]);
  }

  /**
   * Two steps for the Legendre weight: pi[1] = t, mu[1] = 2/3, alpha = [0, 0]
   * and beta = [None, 1/3].
   */
  lemma LegendreExample()
    ensures Steps(LegendreIntegral, 2) ==
      Some([Row([1.0], 2.0, 0.0, None), Row([0.0, 1.0], 2.0 / 3.0, 0.0, Some(1.0 / 3.0))])
  {
    var row0 := Row([1.0], 2.0, 0.0, None);
    LegendreFirstStep();
    LegendreSecondPi();
    LegendreIntegrals();
    var p := NextPi([row0]);
    assert Square(p) == [0.0, 0.0, 1.0];
    assert TimesT(Square(p)) == [0.0, 0.0, 0.0, 1.0];
    assert LegendreIntegral(Square(p)) == 2.0 / 3.0;
    assert LegendreIntegral(TimesT(Square(p))) == 0.0;
    var row1 := Row([0.0, 1.0], 2.0 / 3.0, 0.0, Some(1.0 / 3.0));
    assert Step(LegendreIntegral, [row0]) == Some(row1);
    assert Steps(LegendreIntegral, 2) == Some([row0] + [row1]);
    assert [row0] + [row1] == [row0, row1];
  }
}
