/**
 * The modified Chebyshev algorithm of orthopy/tools/generate_rc.py and its
 * classical special case.
 *
 * Given 2n modified moments `nu` relative to a reference recurrence `(a, b)`,
 * the algorithm fills a shrinking triangular buffer `sigma` row by row (row k
 * holds the columns k .. 2n-1-k) and reads off the recurrence coefficients
 * alpha[0..n-1], beta[0..n-1].
 *
 * The specification is split in two.  `Sigma` is the buffer recurrence for
 * given coefficient sequences; it is only defined inside the band of
 * columns that the source writes, so every read the method performs is
 * proved to hit an entry written earlier.  `Coefficients` reads alpha[k] and
 * beta[k] off the rows, which is where all divisions happen; `Regular` says
 * that the divisors are nonzero.
 */
module ModifiedChebyshev {
  import opened Wrappers

  /** The two coefficient sequences alpha and beta. */
  datatype Rc = Rc(alpha: seq<real>, beta: seq<real>)

  /** The two coefficient arrays returned by the method. */
  datatype RcArrays = RcArrays(alpha: array<real>, beta: array<real>)

  /**
   * The shapes for which the source runs without an index error: an even
   * number 2n of moments, a reference `a` with at least 2n-1 entries when
   * n >= 1 (a[0] .. a[2n-2] are read) and a reference `b` with at least 2n-1
   * entries when n >= 2 (b[0] is never read, and b is not read at all for n = 1).
   */
  predicate WellShaped(nu: seq<real>, a: seq<real>, b: seq<real>)
  {
    |nu| % 2 == 0 &&
    (|nu| >= 2 ==> |a| + 1 >= |nu|) &&
    (|nu| >= 4 ==> |b| + 1 >= |nu|)
  }

  /**
   * The entry sigma[k, l] of the buffer, for a column l that row k writes,
   * when the coefficients computed before row k are alpha[0..k-1] and
   * beta[0..k-1].  Row 0 is the moments; row k >= 1 is the three-term update
   * of row k-1, minus beta[k-1] * sigma[k-2, l] only when k > 1.
   */
  function Sigma(nu: seq<real>, a: seq<real>, b: seq<real>,
                 alpha: seq<real>, beta: seq<real>, k: nat, l: nat): real
    requires WellShaped(nu, a, b)
    requires k <= l < |nu| - k && k <= |alpha| && k <= |beta|
    decreases k
  {
    if k == 0 then nu[l]
    else
      var s := Update(Sigma(nu, a, b, alpha, beta, k - 1, l + 1),
                      Sigma(nu, a, b, alpha, beta, k - 1, l),
                      Sigma(nu, a, b, alpha, beta, k - 1, l - 1),
                      alpha[k - 1], a[l], b[l]);
      if k > 1 then Subtract(s, beta[k - 1], Sigma(nu, a, b, alpha, beta, k - 2, l)) else s
  }

  /**
   * The three-term update of one buffer entry from the entries above it:
   * up - (alpha - a) * mid + b * down, with up, mid, down the entries of the
   * previous row in columns l+1, l and l-1.
   */
  function Update(up: real, mid: real, down: real, alpha: real, a: real, b: real): real
  {
    up - (alpha - a) * mid + b * down
  }

  /** The correction s - beta * twoBack by the entry two rows up. */
  function Subtract(s: real, beta: real, twoBack: real): real
  {
    s - beta * twoBack
  }

  /**
   * The coefficients alpha[0..m-1] and beta[0..m-1], each pair read off the
   * buffer rows computed with the coefficients before it, or `None` when a
   * diagonal entry that the read-off divides by is zero.
   */
  function Coefficients(nu: seq<real>, a: seq<real>, b: seq<real>, m: nat): (r: Option<Rc>)
    requires WellShaped(nu, a, b) && m <= |nu| / 2
    ensures r.Some? ==> |r.value.alpha| == m && |r.value.beta| == m
    decreases m
  {
    if m == 0 then Some(Rc([], []))
    else
      match Coefficients(nu, a, b, m - 1)
      case None => None
      case Some(c) =>
        var k := m - 1;
        if Sigma(nu, a, b, c.alpha, c.beta, k, k) == 0.0 then None
        else if k > 0 && Sigma(nu, a, b, c.alpha, c.beta, k - 1, k - 1) == 0.0 then None
        else Some(Extend(nu, a, b, c, k))
  }

  /**
   * Every division of the source is defined: all n = |nu| / 2 diagonal
   * entries sigma[k, k] are nonzero.
   */
  predicate Regular(nu: seq<real>, a: seq<real>, b: seq<real>)
    requires WellShaped(nu, a, b)
  {
    Coefficients(nu, a, b, |nu| / 2).Some?
  }

  /**
   * Appends alpha[k] and beta[k] to the coefficients c of the rows before
   * row k: alpha[0] = a[0] + nu[1] / nu[0], beta[0] = nu[0], and for k >= 1
   * alpha[k] = a[k] + sigma[k, k+1] / sigma[k, k] - sigma[k-1, k] / sigma[k-1, k-1],
   * beta[k] = sigma[k, k] / sigma[k-1, k-1].
   */
  function Extend(nu: seq<real>, a: seq<real>, b: seq<real>, c: Rc, k: nat): (r: Rc)
    requires WellShaped(nu, a, b) && k < |nu| / 2 && |c.alpha| == k && |c.beta| == k
    requires Sigma(nu, a, b, c.alpha, c.beta, k, k) != 0.0
    requires k > 0 ==> Sigma(nu, a, b, c.alpha, c.beta, k - 1, k - 1) != 0.0
    ensures |r.alpha| == k + 1 && |r.beta| == k + 1
    ensures r.alpha[..k] == c.alpha && r.beta[..k] == c.beta
  {
    if k == 0 then Rc([a[0] + nu[1] / nu[0]], [nu[0]])
    else
      var d := Sigma(nu, a, b, c.alpha, c.beta, k, k);
      var e := Sigma(nu, a, b, c.alpha, c.beta, k - 1, k - 1);
      Rc(c.alpha + [ReadAlpha(a[k], Sigma(nu, a, b, c.alpha, c.beta, k, k + 1), d,
                              Sigma(nu, a, b, c.alpha, c.beta, k - 1, k), e)],
         c.beta + [ReadBeta(d, e)])
  }

  /** The entries that `Extend` appends, one read-off formula each. */
  lemma ExtendEntry(nu: seq<real>, a: seq<real>, b: seq<real>, c: Rc, k: nat)
    requires WellShaped(nu, a, b) && k < |nu| / 2 && |c.alpha| == k && |c.beta| == k
    requires Sigma(nu, a, b, c.alpha, c.beta, k, k) != 0.0
    requires k > 0 ==> Sigma(nu, a, b, c.alpha, c.beta, k - 1, k - 1) != 0.0
    ensures var r := Extend(nu, a, b, c, k);
      (k == 0 ==> nu[0] != 0.0 && r.alpha[0] == a[0] + nu[1] / nu[0] && r.beta[0] == nu[0]) &&
      (k > 0 ==>
        r.alpha[k] == ReadAlpha(a[k], Sigma(nu, a, b, c.alpha, c.beta, k, k + 1), Sigma(nu, a, b, c.alpha, c.beta, k, k),
                                Sigma(nu, a, b, c.alpha, c.beta, k - 1, k), Sigma(nu, a, b, c.alpha, c.beta, k - 1, k - 1)) &&
        r.beta[k] == ReadBeta(Sigma(nu, a, b, c.alpha, c.beta, k, k), Sigma(nu, a, b, c.alpha, c.beta, k - 1, k - 1)))
  {
  }

  /** alpha[k] = a[k] + sigma[k, k+1] / sigma[k, k] - sigma[k-1, k] / sigma[k-1, k-1]. */
  function ReadAlpha(ak: real, next: real, diag: real, prevNext: real, prevDiag: real): real
    requires diag != 0.0 && prevDiag != 0.0
  {
    ak + next / diag - prevNext / prevDiag
  }

  /** beta[k] = sigma[k, k] / sigma[k-1, k-1]. */
  function ReadBeta(diag: real, prevDiag: real): real
    requires prevDiag != 0.0
  {
    diag / prevDiag
  }

  /** Row k of the buffer depends only on alpha[0..k-1] and beta[0..k-1]. */
  lemma {:induction false} SigmaPrefix(nu: seq<real>, a: seq<real>, b: seq<real>,
                                       alpha: seq<real>, beta: seq<real>,
                                       alpha': seq<real>, beta': seq<real>, k: nat, l: nat)
    requires WellShaped(nu, a, b) && k <= l < |nu| - k
    requires k <= |alpha| && k <= |beta| && k <= |alpha'| && k <= |beta'|
    requires alpha[..k] == alpha'[..k] && beta[..k] == beta'[..k]
    ensures Sigma(nu, a, b, alpha, beta, k, l) == Sigma(nu, a, b, alpha', beta', k, l)
    decreases k
  {
    if k > 0 {
      assert alpha[k - 1] == alpha[..k][k - 1] == alpha'[k - 1];
      assert beta[k - 1] == beta[..k][k - 1] == beta'[k - 1];
      assert alpha[..k - 1] == alpha[..k][..k - 1] == alpha'[..k - 1];
      assert beta[..k - 1] == beta[..k][..k - 1] == beta'[..k - 1];
      SigmaPrefix(nu, a, b, alpha, beta, alpha', beta', k - 1, l + 1);
      SigmaPrefix(nu, a, b, alpha, beta, alpha', beta', k - 1, l);
      SigmaPrefix(nu, a, b, alpha, beta, alpha', beta', k - 1, l - 1);
      if k > 1 {
        assert alpha[..k - 2] == alpha[..k][..k - 2] == alpha'[..k - 2];
        assert beta[..k - 2] == beta[..k][..k - 2] == beta'[..k - 2];
        SigmaPrefix(nu, a, b, alpha, beta, alpha', beta', k - 2, l);
      }
    }
  }

  /**
   * Reading off more rows only appends coefficients, and a regular buffer
   * has regular leading rows.
   */
  lemma {:induction false} CoefficientsPrefix(nu: seq<real>, a: seq<real>, b: seq<real>, j: nat, m: nat)
    requires WellShaped(nu, a, b) && j <= m <= |nu| / 2 && Coefficients(nu, a, b, m).Some?
    ensures Coefficients(nu, a, b, j).Some?
    ensures Coefficients(nu, a, b, m).value.alpha[..j] == Coefficients(nu, a, b, j).value.alpha
    ensures Coefficients(nu, a, b, m).value.beta[..j] == Coefficients(nu, a, b, j).value.beta
    decreases m
  {
    if j < m {
      CoefficientsPrefix(nu, a, b, j, m - 1);
      var c := Coefficients(nu, a, b, m).value;
      var c1 := Coefficients(nu, a, b, m - 1).value;
      assert c.alpha[..m - 1] == c1.alpha && c.beta[..m - 1] == c1.beta;
      assert c.alpha[..j] == c.alpha[..m - 1][..j];
      assert c.beta[..j] == c.beta[..m - 1][..j];
    }
  }

  /** Row k computed with m defined coefficients equals row k computed with the first k. */
  lemma SigmaFinal(nu: seq<real>, a: seq<real>, b: seq<real>, m: nat, k: nat, l: nat)
    requires WellShaped(nu, a, b) && k <= m <= |nu| / 2 && Coefficients(nu, a, b, m).Some?
    requires k <= l < |nu| - k
    ensures Coefficients(nu, a, b, k).Some?
    ensures var c := Coefficients(nu, a, b, m).value;
      var ck := Coefficients(nu, a, b, k).value;
      Sigma(nu, a, b, c.alpha, c.beta, k, l) == Sigma(nu, a, b, ck.alpha, ck.beta, k, l)
  {
    CoefficientsPrefix(nu, a, b, k, m);
    var c := Coefficients(nu, a, b, m).value;
    var ck := Coefficients(nu, a, b, k).value;
    SigmaPrefix(nu, a, b, c.alpha, c.beta, ck.alpha, ck.beta, k, l);
  }

  /**
   * Entry k of m defined coefficients is the one that `Extend` appends
   * at row k, and the divisors it needs are nonzero.
   */
  lemma CoefficientsEntry(nu: seq<real>, a: seq<real>, b: seq<real>, m: nat, k: nat)
    requires WellShaped(nu, a, b) && k < m <= |nu| / 2 && Coefficients(nu, a, b, m).Some?
    ensures Coefficients(nu, a, b, k).Some?
    ensures var c := Coefficients(nu, a, b, m).value;
      var ck := Coefficients(nu, a, b, k).value;
      Sigma(nu, a, b, ck.alpha, ck.beta, k, k) != 0.0 &&
      (k > 0 ==> Sigma(nu, a, b, ck.alpha, ck.beta, k - 1, k - 1) != 0.0) &&
      c.alpha[k] == Extend(nu, a, b, ck, k).alpha[k] &&
      c.beta[k] == Extend(nu, a, b, ck, k).beta[k]
  {
    CoefficientsPrefix(nu, a, b, k + 1, m);
    CoefficientsPrefix(nu, a, b, k, k + 1);
    var c := Coefficients(nu, a, b, m).value;
    var ck1 := Coefficients(nu, a, b, k + 1).value;
    assert c.alpha[k] == c.alpha[..k + 1][k];
    assert c.beta[k] == c.beta[..k + 1][k];
  }

  /**
   * The read-off at row 0 of m >= 1 defined coefficients: nu[0] != 0,
   * alpha[0] = a[0] + nu[1] / nu[0], beta[0] = nu[0].
   */
  lemma ReadOffFirst(nu: seq<real>, a: seq<real>, b: seq<real>, m: nat)
    requires WellShaped(nu, a, b) && 0 < m <= |nu| / 2 && Coefficients(nu, a, b, m).Some?
    ensures var c := Coefficients(nu, a, b, m).value;
      nu[0] != 0.0 && c.alpha[0] == a[0] + nu[1] / nu[0] && c.beta[0] == nu[0]
  {
    CoefficientsEntry(nu, a, b, m, 0);
  }

  /**
   * The read-off at row k >= 1, in terms of m > k defined coefficients: both
   * diagonal entries are nonzero and alpha[k], beta[k] are the quotients of
   * buffer entries that the source computes.
   */
  lemma ReadOffNext(nu: seq<real>, a: seq<real>, b: seq<real>, m: nat, k: nat)
    requires WellShaped(nu, a, b) && 1 <= k < m <= |nu| / 2 && Coefficients(nu, a, b, m).Some?
    ensures var c := Coefficients(nu, a, b, m).value;
      Sigma(nu, a, b, c.alpha, c.beta, k, k) != 0.0 &&
      Sigma(nu, a, b, c.alpha, c.beta, k - 1, k - 1) != 0.0 &&
      c.alpha[k] == ReadAlpha(a[k], Sigma(nu, a, b, c.alpha, c.beta, k, k + 1), Sigma(nu, a, b, c.alpha, c.beta, k, k),
                              Sigma(nu, a, b, c.alpha, c.beta, k - 1, k), Sigma(nu, a, b, c.alpha, c.beta, k - 1, k - 1)) &&
      c.beta[k] == ReadBeta(Sigma(nu, a, b, c.alpha, c.beta, k, k), Sigma(nu, a, b, c.alpha, c.beta, k - 1, k - 1))
  {
    CoefficientsEntry(nu, a, b, m, k);
    SigmaFinal(nu, a, b, m, k, k);
    SigmaFinal(nu, a, b, m, k, k + 1);
    var ck := Coefficients(nu, a, b, k).value;
    var c := Coefficients(nu, a, b, m).value;
    CoefficientsPrefix(nu, a, b, k, m);
    assert c.alpha[..k - 1] == c.alpha[..k][..k - 1] == ck.alpha[..k - 1];
    assert c.beta[..k - 1] == c.beta[..k][..k - 1] == ck.beta[..k - 1];
    SigmaPrefix(nu, a, b, c.alpha, c.beta, ck.alpha, ck.beta, k - 1, k - 1);
    SigmaPrefix(nu, a, b, c.alpha, c.beta, ck.alpha, ck.beta, k - 1, k);
  }

  /** Rows 0 .. k-1 of the buffer hold the entries that the recurrence defines. */
  ghost predicate RowsAgree(sigma: array2<real>, nu: seq<real>, a: seq<real>, b: seq<real>, c: Rc, k: nat)
    reads sigma
    requires WellShaped(nu, a, b) && k <= |nu| / 2 && |c.alpha| == |c.beta| == |nu| / 2
    requires sigma.Length0 == |nu| / 2 && sigma.Length1 == |nu|
  {
    forall i, l :: 0 <= i < k && i <= l < |nu| - i ==>
      sigma[i, l] == Sigma(nu, a, b, c.alpha, c.beta, i, l)
  }

  /**
   * The three-term part of the update of row k, before the subtraction of
   * the beta[k-1] * sigma[k-2, l] term.
   */
  function Sweep(nu: seq<real>, a: seq<real>, b: seq<real>, c: Rc, k: nat, l: nat): real
    requires WellShaped(nu, a, b) && 1 <= k <= l < |nu| - k
    requires k <= |c.alpha| && k <= |c.beta|
  {
    Update(Sigma(nu, a, b, c.alpha, c.beta, k - 1, l + 1),
           Sigma(nu, a, b, c.alpha, c.beta, k - 1, l),
           Sigma(nu, a, b, c.alpha, c.beta, k - 1, l - 1),
           c.alpha[k - 1], a[l], b[l])
  }

  /** One unfolding of the buffer recurrence, with the final subtraction made explicit. */
  lemma SigmaStep(nu: seq<real>, a: seq<real>, b: seq<real>, c: Rc, k: nat, l: nat)
    requires WellShaped(nu, a, b) && 1 <= k <= l < |nu| - k
    requires k <= |c.alpha| && k <= |c.beta|
    ensures Sigma(nu, a, b, c.alpha, c.beta, k, l) ==
      if k > 1 then Subtract(Sweep(nu, a, b, c, k, l), c.beta[k - 1], Sigma(nu, a, b, c.alpha, c.beta, k - 2, l))
      else Sweep(nu, a, b, c, k, l)
  {
  }

  /**
   * First half of the `for k` loop body: the vectorised three-term update of
   * every column L = k .. 2n-1-k of row k.
   */
  method SweepRow(sigma: array2<real>, nu: seq<real>, a: seq<real>, b: seq<real>,
                  alpha: array<real>, ghost c: Rc, k: nat)
    requires WellShaped(nu, a, b) && |c.alpha| == |c.beta| == |nu| / 2
    requires sigma.Length0 == |nu| / 2 && sigma.Length1 == |nu|
    requires 1 <= k < |nu| / 2 && alpha.Length == |nu| / 2
    requires RowsAgree(sigma, nu, a, b, c, k)
    requires alpha[k - 1] == c.alpha[k - 1]
    modifies sigma
    ensures RowsAgree(sigma, nu, a, b, c, k)
    ensures forall j :: k <= j < |nu| - k ==> sigma[k, j] == Sweep(nu, a, b, c, k, j)
    ensures k == 1 ==> RowsAgree(sigma, nu, a, b, c, 2)
  {
    var n := |nu| / 2;
    for l := k to 2 * n - k
      invariant RowsAgree(sigma, nu, a, b, c, k)
      invariant forall j :: k <= j < l ==> sigma[k, j] == Sweep(nu, a, b, c, k, j)
    {
      sigma[k, l] := Update(sigma[k - 1, l + 1], sigma[k - 1, l], sigma[k - 1, l - 1],
                            alpha[k - 1], a[l], b[l]);
    }
    if k == 1 {
      forall j | 1 <= j < |nu| - 1
        ensures sigma[1, j] == Sigma(nu, a, b, c.alpha, c.beta, 1, j)
      {
        SigmaStep(nu, a, b, c, 1, j);
      }
    }
  }

  /**
   * Second half of the `for k` loop body, run only for k > 1: subtract
   * beta[k-1] * sigma[k-2, L] from every column of row k.
   */
  method SubtractTwoBack(sigma: array2<real>, nu: seq<real>, a: seq<real>, b: seq<real>,
                         beta: array<real>, ghost c: Rc, k: nat)
    requires WellShaped(nu, a, b) && |c.alpha| == |c.beta| == |nu| / 2
    requires sigma.Length0 == |nu| / 2 && sigma.Length1 == |nu|
    requires 2 <= k < |nu| / 2 && beta.Length == |nu| / 2
    requires RowsAgree(sigma, nu, a, b, c, k)
    requires forall j :: k <= j < |nu| - k ==> sigma[k, j] == Sweep(nu, a, b, c, k, j)
    requires beta[k - 1] == c.beta[k - 1]
    modifies sigma
    ensures RowsAgree(sigma, nu, a, b, c, k + 1)
  {
    var n := |nu| / 2;
    for l := k to 2 * n - k
      invariant RowsAgree(sigma, nu, a, b, c, k)
      invariant forall j :: k <= j < l ==> sigma[k, j] == Sigma(nu, a, b, c.alpha, c.beta, k, j)
      invariant forall j :: l <= j < 2 * n - k ==> sigma[k, j] == Sweep(nu, a, b, c, k, j)
    {
      SubtractAt(sigma, nu, a, b, beta, c, k, l);
    }
  }

  /** The subtraction for the single column l of row k. */
  method SubtractAt(sigma: array2<real>, nu: seq<real>, a: seq<real>, b: seq<real>,
                    beta: array<real>, ghost c: Rc, k: nat, l: nat)
    requires WellShaped(nu, a, b) && |c.alpha| == |c.beta| == |nu| / 2
    requires sigma.Length0 == |nu| / 2 && sigma.Length1 == |nu|
    requires 2 <= k <= l < |nu| - k && beta.Length == |nu| / 2
    requires sigma[k - 2, l] == Sigma(nu, a, b, c.alpha, c.beta, k - 2, l)
    requires sigma[k, l] == Sweep(nu, a, b, c, k, l)
    requires beta[k - 1] == c.beta[k - 1]
    modifies sigma
    ensures forall i, j :: 0 <= i < sigma.Length0 && 0 <= j < sigma.Length1 && (i, j) != (k, l) ==>
      sigma[i, j] == old(sigma[i, j])
    ensures sigma[k, l] == Sigma(nu, a, b, c.alpha, c.beta, k, l)
  {
    SigmaStep(nu, a, b, c, k, l);
    sigma[k, l] := Subtract(sigma[k, l], beta[k - 1], sigma[k - 2, l]);
  }

  /** The end of the `for k` loop body: alpha[k] and beta[k] from rows k-1 and k. */
  method ReadOffRow(sigma: array2<real>, nu: seq<real>, a: seq<real>, b: seq<real>,
                    alpha: array<real>, beta: array<real>, ghost c: Rc, k: nat)
    requires WellShaped(nu, a, b) && Regular(nu, a, b) && c == Coefficients(nu, a, b, |nu| / 2).value
    requires sigma.Length0 == |nu| / 2 && sigma.Length1 == |nu|
    requires 1 <= k < |nu| / 2 && alpha.Length == |nu| / 2 && beta.Length == |nu| / 2 && alpha != beta
    requires RowsAgree(sigma, nu, a, b, c, k + 1)
    modifies alpha, beta
    ensures alpha[k] == c.alpha[k] && beta[k] == c.beta[k]
    ensures forall i :: 0 <= i < k ==> alpha[i] == old(alpha[i])
    ensures forall i :: 0 <= i < k ==> beta[i] == old(beta[i])
  {
    ReadOffNext(nu, a, b, |nu| / 2, k);
    alpha[k] := ReadAlpha(a[k], sigma[k, k + 1], sigma[k, k], sigma[k - 1, k], sigma[k - 1, k - 1]);
    beta[k] := ReadBeta(sigma[k, k], sigma[k - 1, k - 1]);
  }

  /** Row 0 of the buffer is the moments; alpha[0] and beta[0] are read off it. */
  method FirstRow(sigma: array2<real>, nu: seq<real>, a: seq<real>, b: seq<real>,
                  alpha: array<real>, beta: array<real>, ghost c: Rc)
    requires WellShaped(nu, a, b) && Regular(nu, a, b) && c == Coefficients(nu, a, b, |nu| / 2).value
    requires sigma.Length0 == |nu| / 2 && sigma.Length1 == |nu|
    requires 0 < |nu| / 2 && alpha.Length == |nu| / 2 && beta.Length == |nu| / 2 && alpha != beta
    modifies sigma, alpha, beta
    ensures RowsAgree(sigma, nu, a, b, c, 1)
    ensures alpha[0] == c.alpha[0] && beta[0] == c.beta[0]
    ensures nu[0] != 0.0 && alpha[0] == a[0] + nu[1] / nu[0] && beta[0] == nu[0]
  {
    ReadOffFirst(nu, a, b, |nu| / 2);
    for l := 0 to |nu|
      invariant forall j :: 0 <= j < l ==> sigma[0, j] == nu[j]
    {
      sigma[0, l] := nu[l];
    }
    alpha[0] := a[0] + nu[1] / nu[0];
    beta[0] := nu[0];
  }

  /** One pass of the `for k` loop: row k of the buffer, then alpha[k] and beta[k]. */
  method NextRow(sigma: array2<real>, nu: seq<real>, a: seq<real>, b: seq<real>,
                 alpha: array<real>, beta: array<real>, ghost c: Rc, k: nat)
    requires WellShaped(nu, a, b) && Regular(nu, a, b) && c == Coefficients(nu, a, b, |nu| / 2).value
    requires sigma.Length0 == |nu| / 2 && sigma.Length1 == |nu|
    requires 1 <= k < |nu| / 2 && alpha.Length == |nu| / 2 && beta.Length == |nu| / 2 && alpha != beta
    requires RowsAgree(sigma, nu, a, b, c, k)
    requires forall i :: 0 <= i < k ==> alpha[i] == c.alpha[i]
    requires forall i :: 0 <= i < k ==> beta[i] == c.beta[i]
    modifies sigma, alpha, beta
    ensures RowsAgree(sigma, nu, a, b, c, k + 1)
    ensures forall i :: 0 <= i < k + 1 ==> alpha[i] == c.alpha[i]
    ensures forall i :: 0 <= i < k + 1 ==> beta[i] == c.beta[i]
  {
    SweepRow(sigma, nu, a, b, alpha, c, k);
    if k > 1 {
      SubtractTwoBack(sigma, nu, a, b, beta, c, k);
    }
    ReadOffRow(sigma, nu, a, b, alpha, beta, c, k);
  }

  /**
   * `chebyshev_modified(nu, a, b)`: an odd number of moments fails the
   * assertion, reference arrays too short for the reads fail with an index
   * error, and otherwise alpha and beta have n = |nu| / 2 entries, the
   * coefficients that the recurrence defines; row 0 gives
   * alpha[0] = a[0] + nu[1] / nu[0] and beta[0] = nu[0].
   */
  method ChebyshevModifiedRun(nu: seq<real>, a: seq<real>, b: seq<real>)
    returns (r: Result<RcArrays, Exception>)
    requires WellShaped(nu, a, b) ==> Regular(nu, a, b)
    ensures |nu| % 2 != 0 ==> r == Failure(AssertionError)
    ensures |nu| % 2 == 0 && !WellShaped(nu, a, b) ==> r == Failure(IndexError)
    ensures WellShaped(nu, a, b) ==> r.Success?
    ensures |nu| == 0 ==> r.Success? && r.value.alpha[..] == [] && r.value.beta[..] == []
    ensures r.Success? ==>
      WellShaped(nu, a, b) &&
      r.value.alpha[..] == Coefficients(nu, a, b, |nu| / 2).value.alpha &&
      r.value.beta[..] == Coefficients(nu, a, b, |nu| / 2).value.beta
    ensures r.Success? && |nu| > 0 ==>
      nu[0] != 0.0 && r.value.alpha[0] == a[0] + nu[1] / nu[0] && r.value.beta[0] == nu[0]
    ensures r.Success? ==> fresh(r.value.alpha) && fresh(r.value.beta)
  {
    var m := |nu|;
    if m % 2 != 0 {
      return Failure(AssertionError);
    }
    var n := m / 2;
    if !WellShaped(nu, a, b) {
      return Failure(IndexError);
    }
    ghost var c := Coefficients(nu, a, b, n).value;
    var alpha := new real[n];
    var beta := new real[n];
    var sigma := new real[n, 2 * n];
    if n > 0 {
      FirstRow(sigma, nu, a, b, alpha, beta, c);
      for k := 1 to n
        invariant RowsAgree(sigma, nu, a, b, c, k)
        invariant forall i :: 0 <= i < k ==> alpha[i] == c.alpha[i]
        invariant forall i :: 0 <= i < k ==> beta[i] == c.beta[i]
      {
        NextRow(sigma, nu, a, b, alpha, beta, c, k);
      }
    }
    return Success(RcArrays(alpha, beta));
  }
}
