/**
 * The classical Chebyshev algorithm of orthopy/tools/generate_rc.py: the
 * modified algorithm run with ordinary moments and a zero reference
 * recurrence, together with the symmetry and Legendre facts about it.
 */
module Chebyshev {
  import opened Wrappers
  import opened ModifiedChebyshev
  import Stieltjes

  /** The zero reference coefficients `numpy.zeros(m)`. */
  function Zeros(m: nat): (z: seq<real>)
    ensures |z| == m && forall i :: 0 <= i < m ==> z[i] == 0.0
  {
    seq(m, _ => 0.0)
  }

  /** Every odd-indexed moment vanishes, as for a weight symmetric about 0. */
  predicate OddMomentsVanish(nu: seq<real>)
  {
    forall i :: 0 <= i < |nu| && i % 2 == 1 ==> nu[i] == 0.0
  }

  /**
   * `chebyshev(moments)`: an odd number of moments fails the assertion, no
   * moments at all fail with an index error (the source inspects
   * moments[0] before delegating), and otherwise the result is that of
   * `chebyshev_modified(moments, zeros, zeros)` with zeros of length m.
   */
  method ChebyshevRun(moments: seq<real>) returns (r: Result<RcArrays, Exception>)
    requires |moments| % 2 == 0 && |moments| > 0 ==>
      Regular(moments, Zeros(|moments|), Zeros(|moments|))
    ensures |moments| % 2 != 0 ==> r == Failure(AssertionError)
    ensures |moments| == 0 ==> r == Failure(IndexError)
    ensures |moments| % 2 == 0 && |moments| > 0 ==>
      r.Success? &&
      WellShaped(moments, Zeros(|moments|), Zeros(|moments|)) &&
      r.value.alpha[..] == Coefficients(moments, Zeros(|moments|), Zeros(|moments|), |moments| / 2).value.alpha &&
      r.value.beta[..] == Coefficients(moments, Zeros(|moments|), Zeros(|moments|), |moments| / 2).value.beta
    ensures r.Success? ==> fresh(r.value.alpha) && fresh(r.value.beta)
  {
    var m := |moments|;
    if m % 2 != 0 {
      return Failure(AssertionError);
    }
    if m == 0 {
      return Failure(IndexError);
    }
    var zeros := Zeros(m);
    r := ChebyshevModifiedRun(moments, zeros, zeros);
  }

  /**
   * With a zero reference recurrence, vanishing odd moments and
   * alpha[0..k-1] all zero, the buffer entry sigma[k, l] vanishes whenever
   * k + l is odd.
   */
  lemma {:induction false} SigmaOddVanishes(nu: seq<real>, alpha: seq<real>, beta: seq<real>, k: nat, l: nat)
    requires WellShaped(nu, Zeros(|nu|), Zeros(|nu|)) && OddMomentsVanish(nu)
    requires k <= l < |nu| - k && k <= |alpha| && k <= |beta|
    requires forall i :: 0 <= i < k ==> alpha[i] == 0.0
    requires (k + l) % 2 == 1
    ensures Sigma(nu, Zeros(|nu|), Zeros(|nu|), alpha, beta, k, l) == 0.0
    decreases k
  {
    var z := Zeros(|nu|);
    if k == 0 {
      assert nu[l] == 0.0;
    } else {
      assert (k - 1 + (l + 1)) % 2 == 1 && (k - 1 + (l - 1)) % 2 == 1;
      SigmaOddVanishes(nu, alpha, beta, k - 1, l + 1);
      SigmaOddVanishes(nu, alpha, beta, k - 1, l - 1);
      var up := Sigma(nu, z, z, alpha, beta, k - 1, l + 1);
      var mid := Sigma(nu, z, z, alpha, beta, k - 1, l);
      var down := Sigma(nu, z, z, alpha, beta, k - 1, l - 1);
      UpdateVanishes(up, mid, down, alpha[k - 1], z[l], z[l]);
      var s := Update(up, mid, down, alpha[k - 1], z[l], z[l]);
      if k > 1 {
        assert (k - 2 + l) % 2 == 1;
        SigmaOddVanishes(nu, alpha, beta, k - 2, l);
        SubtractVanishes(s, beta[k - 1], Sigma(nu, z, z, alpha, beta, k - 2, l));
      }
    }
  }

  /** The update of a zero pair of neighbours with alpha = a and b = 0 is zero. */
  lemma UpdateVanishes(up: real, mid: real, down: real, alpha: real, a: real, b: real)
    requires up == 0.0 && down == 0.0 && alpha == a && b == 0.0
    ensures Update(up, mid, down, alpha, a, b) == 0.0
  {
    assert (alpha - a) * mid == 0.0 * mid;
  }

  /** The correction of a zero entry by a zero entry two rows up is zero. */
  lemma SubtractVanishes(s: real, beta: real, twoBack: real)
    requires s == 0.0 && twoBack == 0.0
    ensures Subtract(s, beta, twoBack) == 0.0
  {
  }

  /** The read-off of a symmetric buffer appends alpha[k] = 0. */
  lemma ExtendAlphaVanishes(nu: seq<real>, c: Rc, k: nat)
    requires WellShaped(nu, Zeros(|nu|), Zeros(|nu|)) && OddMomentsVanish(nu)
    requires k < |nu| / 2 && |c.alpha| == k && |c.beta| == k
    requires forall i :: 0 <= i < k ==> c.alpha[i] == 0.0
    requires Sigma(nu, Zeros(|nu|), Zeros(|nu|), c.alpha, c.beta, k, k) != 0.0
    requires k > 0 ==> Sigma(nu, Zeros(|nu|), Zeros(|nu|), c.alpha, c.beta, k - 1, k - 1) != 0.0
    ensures forall i :: 0 <= i <= k ==> Extend(nu, Zeros(|nu|), Zeros(|nu|), c, k).alpha[i] == 0.0
  {
    var z := Zeros(|nu|);
    var r := Extend(nu, z, z, c, k);
    forall i | 0 <= i < k
      ensures r.alpha[i] == 0.0
    {
      assert r.alpha[i] == r.alpha[..k][i];
    }
    if k == 0 {
      assert nu[1] == 0.0;
    } else {
      ExtendAlphaLast(nu, c, k);
    }
  }

  /** The new entry alpha[k], k >= 1, of a symmetric buffer is zero. */
  lemma ExtendAlphaLast(nu: seq<real>, c: Rc, k: nat)
    requires WellShaped(nu, Zeros(|nu|), Zeros(|nu|)) && OddMomentsVanish(nu)
    requires 0 < k < |nu| / 2 && |c.alpha| == k && |c.beta| == k
    requires forall i :: 0 <= i < k ==> c.alpha[i] == 0.0
    requires Sigma(nu, Zeros(|nu|), Zeros(|nu|), c.alpha, c.beta, k, k) != 0.0
    requires Sigma(nu, Zeros(|nu|), Zeros(|nu|), c.alpha, c.beta, k - 1, k - 1) != 0.0
    ensures Extend(nu, Zeros(|nu|), Zeros(|nu|), c, k).alpha[k] == 0.0
  {
    var z := Zeros(|nu|);
    var next := Sigma(nu, z, z, c.alpha, c.beta, k, k + 1);
    var diag := Sigma(nu, z, z, c.alpha, c.beta, k, k);
    var prevNext := Sigma(nu, z, z, c.alpha, c.beta, k - 1, k);
    var prevDiag := Sigma(nu, z, z, c.alpha, c.beta, k - 1, k - 1);
    SigmaOddVanishes(nu, c.alpha, c.beta, k, k + 1);
    SigmaOddVanishes(nu, c.alpha, c.beta, k - 1, k);
    ExtendEntry(nu, z, z, c, k);
    ReadAlphaZero(z[k], next, diag, prevNext, prevDiag);
  }

  /** The read-off alpha[k] is zero when a[k] and both numerators are zero. */
  lemma ReadAlphaZero(ak: real, next: real, diag: real, prevNext: real, prevDiag: real)
    requires diag != 0.0 && prevDiag != 0.0
    requires ak == 0.0 && next == 0.0 && prevNext == 0.0
    ensures ReadAlpha(ak, next, diag, prevNext, prevDiag) == 0.0
  {
  }

  /**
   * A symmetric moment sequence (vanishing odd moments) with a zero
   * reference recurrence gives alpha[k] = 0 for every k.
   */
  lemma {:induction false} SymmetricAlphaVanishes(nu: seq<real>, m: nat)
    requires WellShaped(nu, Zeros(|nu|), Zeros(|nu|)) && OddMomentsVanish(nu) && m <= |nu| / 2
    requires Coefficients(nu, Zeros(|nu|), Zeros(|nu|), m).Some?
    ensures forall i :: 0 <= i < m ==> Coefficients(nu, Zeros(|nu|), Zeros(|nu|), m).value.alpha[i] == 0.0
    decreases m
  {
    var z := Zeros(|nu|);
    if m > 0 {
      SymmetricAlphaVanishes(nu, m - 1);
      ExtendAlphaVanishes(nu, Coefficients(nu, z, z, m - 1).value, m - 1);
    }
  }

  /** The method form of the symmetry fact: every returned alpha[k] is zero. */
  lemma ChebyshevSymmetric(moments: seq<real>)
    requires |moments| % 2 == 0 && OddMomentsVanish(moments)
    requires Regular(moments, Zeros(|moments|), Zeros(|moments|))
    ensures forall i :: 0 <= i < |moments| / 2 ==>
      Coefficients(moments, Zeros(|moments|), Zeros(|moments|), |moments| / 2).value.alpha[i] == 0.0
  {
    SymmetricAlphaVanishes(moments, |moments| / 2);
  }

  /** The first four moments of the Legendre weight 1 on [-1, 1], the input of `chebyshev`. */
  function LegendreMoments(): seq<real>
  {
    seq(4, i requires 0 <= i => Stieltjes.LegendreMoment(i))
  }

  /** The first four Legendre moments are 2, 0, 2/3 and 0. */
  lemma LegendreMomentValues()
    ensures LegendreMoments() == [2.0, 0.0, 2.0 / 3.0, 0.0]
  {
    assert Stieltjes.LegendreMoment(2) == 2.0 / 3.0;
  }

  /** Row 0 of the Legendre buffer gives alpha[0] = 0 and beta[0] = 2. */
  lemma LegendreFirstRow()
    ensures WellShaped(LegendreMoments(), Zeros(4), Zeros(4))
    ensures Coefficients(LegendreMoments(), Zeros(4), Zeros(4), 1) == Some(Rc([0.0], [2.0]))
  {
    LegendreMomentValues();
    var nu, z := LegendreMoments(), Zeros(4);
    var c0 := Rc([], []);
    assert Coefficients(nu, z, z, 0) == Some(c0);
    assert Sigma(nu, z, z, c0.alpha, c0.beta, 0, 0) == 2.0;
    ExtendEntry(nu, z, z, c0, 0);
    assert Extend(nu, z, z, c0, 0) == Rc([0.0], [2.0]);
  }

  /**
   * The Legendre moments with a zero reference recurrence give
   * alpha = [0, 0] and beta = [2, 1/3].
   */
  lemma LegendreExample()
    ensures WellShaped(LegendreMoments(), Zeros(4), Zeros(4))
    ensures Coefficients(LegendreMoments(), Zeros(4), Zeros(4), 2) == Some(Rc([0.0, 0.0], [2.0, 1.0 / 3.0]))
  {
    LegendreMomentValues();
    var nu, z := LegendreMoments(), Zeros(4);
    var c1 := Rc([0.0], [2.0]);
    LegendreFirstRow();
    var s00 := Sigma(nu, z, z, c1.alpha, c1.beta, 0, 0);
    var s01 := Sigma(nu, z, z, c1.alpha, c1.beta, 0, 1);
    var s11 := Sigma(nu, z, z, c1.alpha, c1.beta, 1, 1);
    var s12 := Sigma(nu, z, z, c1.alpha, c1.beta, 1, 2);
    assert s00 == 2.0 && s01 == 0.0;
    assert s11 == 2.0 / 3.0 by {
      assert Sigma(nu, z, z, c1.alpha, c1.beta, 0, 2) == 2.0 / 3.0;
    }
    assert s12 == 0.0 by {
      assert Sigma(nu, z, z, c1.alpha, c1.beta, 0, 3) == 0.0;
    }
    ExtendEntry(nu, z, z, c1, 1);
    var r := Extend(nu, z, z, c1, 1);
    assert r.alpha[1] == ReadAlpha(0.0, 0.0, 2.0 / 3.0, 0.0, 2.0) == 0.0;
    assert r.beta[1] == ReadBeta(2.0 / 3.0, 2.0) == 1.0 / 3.0;
    assert r.alpha == [0.0, 0.0] && r.beta == [2.0, 1.0 / 3.0];
  }
}
