/**
 * The recurrence coefficients of the Hermite polynomials of
 * orthopy/e1r2/orth.py, in the exact-arithmetic mode.
 *
 * `recurrence_coefficients(n, standardization)` builds the array
 * N = [0, 1, ..., n-1] and, from it, the coefficient arrays a, b, c of
 * P_{k+1}(x) = (a_k x - b_k) P_k(x) - c_k P_{k-1}(x); c[0] is then
 * overwritten with sqrt(pi).  In the probabilist ("monic") case c is the
 * array N itself, so the overwrite also changes N.
 */
module Hermite {
  import opened Wrappers

  /** The accepted standardization names. */
  datatype Standardization = Probabilist | Monic | Physicist | Normal

  /** An entry of the object array N or c: an integer or the symbol sqrt(pi). */
  datatype Scalar = Integer(value: int) | SqrtPi

  /** The returned tuple (p0, a, b, c). */
  datatype Rc = Rc(p0: int, a: array<int>, b: array<int>, c: array<Scalar>)

  /**
   * The standardization test: the three modelled names and "normal" are
   * accepted, any other name fails the assertion.
   */
  function LookupStandardization(name: string): (r: Result<Standardization, Exception>)
    ensures r.Success? <==> name in {"probabilist", "monic", "physicist", "normal"}
    ensures r.Failure? ==> r.error == AssertionError
    ensures name == "probabilist" ==> r == Success(Probabilist)
    ensures name == "monic" ==> r == Success(Monic)
    ensures name == "physicist" ==> r == Success(Physicist)
    ensures name == "normal" ==> r == Success(Normal)
  {
    if name == "probabilist" then Success(Probabilist)
    else if name == "monic" then Success(Monic)
    else if name == "physicist" then Success(Physicist)
    else if name == "normal" then Success(Normal)
    else Failure(AssertionError)
  }

  /** The factor of a standardization: 1 for probabilist and monic, 2 for physicist. */
  function Factor(std: Standardization): int
    requires std != Normal
  {
    if std == Physicist then 2 else 1
  }

  /** The integer multiple f * x of an integer entry. */
  function Times(f: int, x: Scalar): Scalar
    requires x.Integer?
  {
    Integer(f * x.value)
  }

  /** The array N = [0, 1, ..., n-1]. */
  function Indices(n: nat): seq<Scalar>
  {
    seq(n, k => Integer(k))
  }

  /** The array c before its first entry is overwritten: N itself, or 2 * N. */
  function Unpatched(std: Standardization, n: nat): seq<Scalar>
    requires std != Normal
  {
    if std == Physicist then seq(n, k requires 0 <= k < n => Times(2, Indices(n)[k])) else Indices(n)
  }

  /** The returned c: the unpatched array with c[0] = sqrt(pi). */
  function CoefficientsC(std: Standardization, n: nat): seq<Scalar>
    requires std != Normal && n > 0
  {
    Unpatched(std, n)[0 := SqrtPi]
  }

  /**
   * `recurrence_coefficients(n, standardization)` in the exact mode: an
   * unknown standardization fails the assertion; for a modelled one, n = 0
   * fails with an index error at the write to c[0], and otherwise
   * p0 = 1, a is the constant factor, b is zero and c is `CoefficientsC`.
   * The "normal" standardization is not part of this model.
   */
  method RecurrenceCoefficients(n: nat, standardization: string) returns (r: Result<Rc, Exception>)
    requires LookupStandardization(standardization) != Success(Normal)
    ensures LookupStandardization(standardization).Failure? ==> r == Failure(AssertionError)
    ensures LookupStandardization(standardization).Success? && n == 0 ==> r == Failure(IndexError)
    ensures LookupStandardization(standardization).Success? && n > 0 ==>
      var std := LookupStandardization(standardization).value;
      r.Success? && r.value.p0 == 1 &&
      r.value.a[..] == seq(n, _ => Factor(std)) &&
      r.value.b[..] == seq(n, _ => 0) &&
      r.value.c[..] == CoefficientsC(std, n)
    ensures r.Success? ==> fresh(r.value.a) && fresh(r.value.b) && fresh(r.value.c)
  {
    var N := new Scalar[n](k => Integer(k));
    var lookup := LookupStandardization(standardization);
    if lookup.Failure? {
      return Failure(AssertionError);
    }
    var std := lookup.value;
    var a: array<int>, b: array<int>, c: array<Scalar>;
    if std == Physicist {
      a := new int[n](_ => 2);
      b := new int[n](_ => 0);
      c := new Scalar[n](k requires 0 <= k < N.Length && N[k].Integer? reads N => Times(2, N[k]));
    } else {
      a := new int[n](_ => 1);
      b := new int[n](_ => 0);
      c := N;
    }
    assert c[..] == Unpatched(std, n);
    if n == 0 {
      return Failure(IndexError);
    }
    c[0] := SqrtPi;
    assert std != Physicist ==> N[0] == SqrtPi;
    r := Success(Rc(1, a, b, c));
  }

  /**
   * The entries of c: c[0] = sqrt(pi) and c[k] = f * k for 1 <= k < n, with
   * f = 1 for probabilist and monic and f = 2 for physicist.
   */
  lemma CEntries(std: Standardization, n: nat, k: nat)
    requires std != Normal && k < n
    ensures |CoefficientsC(std, n)| == n
    ensures CoefficientsC(std, n)[k] == if k == 0 then SqrtPi else Integer(Factor(std) * k)
  {
  }

  /** "probabilist" and "monic" give identical coefficients. */
  lemma ProbabilistIsMonic(n: nat)
    requires n > 0
    ensures Factor(Probabilist) == Factor(Monic) == 1
    ensures CoefficientsC(Probabilist, n) == CoefficientsC(Monic, n)
    ensures forall k :: 1 <= k < n ==> CoefficientsC(Monic, n)[k] == Integer(k)
  {
  }

  /** The physicist a and c are twice the monic a and c (c from index 1 on). */
  lemma PhysicistIsTwiceMonic(n: nat)
    requires n > 0
    ensures Factor(Physicist) == 2 * Factor(Monic)
    ensures forall k :: 1 <= k < n ==>
      CoefficientsC(Physicist, n)[k] == Times(2, CoefficientsC(Monic, n)[k])
  {
    forall k | 1 <= k < n
      ensures CoefficientsC(Physicist, n)[k] == Times(2, CoefficientsC(Monic, n)[k])
    {
      CEntries(Physicist, n, k);
      CEntries(Monic, n, k);
    }
  }
}
