# Recurrence coefficients of orthopy, in exact arithmetic

This project models the part of orthopy that produces three-term recurrence
coefficients for orthogonal polynomials, and proves properties of the model.
Only the exact mode is modelled: sympy `Rational` values become Dafny `real`,
and the `None` sentinel becomes `Option.None`. A Python exception becomes the
`Failure` case of a `Result`. The cases are `AssertionError`, `IndexError` and
`KeyError`.

- `modified_chebyshev.dfy` (module `ModifiedChebyshev`) models
  `chebyshev_modified`. The method `ChebyshevModifiedRun` fills the triangular
  buffer `sigma` (an `array2<real>`) row by row and writes the arrays `alpha`
  and `beta`, as the source does. Its result is proved equal to the
  specification function `Coefficients`. `Sigma` defines each buffer entry
  only inside the columns `k .. 2n-1-k` that row `k` writes. So every read
  the method makes is proved to hit an entry written earlier. The predicate
  `Regular` states that every diagonal entry the source divides by is nonzero.
- `chebyshev.dfy` (module `Chebyshev`) models `chebyshev`. It runs the modified
  algorithm with zero reference coefficients. The module also proves the
  symmetry result: moments whose odd-indexed entries vanish give
  `alpha[k] = 0` for every `k`. It also computes the Legendre example.
- `polynomials.dfy` and `stieltjes.dfy` (modules `Polynomials`, `Stieltjes`)
  model `stieltjes`. A polynomial in `t` is a coefficient list, and the
  integration oracle is a function parameter `Poly -> real`. The method
  `StieltjesRun` fills the lists `pi`, `mu`, `alpha` and `beta` by index and is
  proved equal to the specification function `Steps`. Every `pi[k]` is proved
  monic of degree `k`.
- `functional.dfy` (module `Functional`) is the integration oracle of a
  weight given by its moments, `moment : nat -> real`: the integral of
  `t^l * p` is `sum_i p_i * moment(l + i)`. It proves how the integral treats
  sums, multiples, `t * p` and products. For a monic `p` of degree `k`
  orthogonal to lower degrees, `p^2` and `t * p^2` integrate to integrals of
  `t^k * p` and `t^(k+1) * p`. It also defines the polynomials `P_k` that
  coefficients `alpha`, `beta` generate by the three-term rule (`Generated`),
  and `RecurrenceMoment`, the integral of `t^l * P_k` computed from the
  moments by the same rule.
- `orthogonality.dfy` (module `Orthogonality`) reads `chebyshev` against
  the weight whose moments it is given. With a zero reference, buffer entry
  `sigma[k, l]` is the integral of `t^l * P_k`. The read-off of `alpha` and
  `beta` makes every `P_k` orthogonal to lower degrees. It also makes
  `alpha[k]` and `beta[k]` exactly the quotients of integrals that
  `stieltjes` forms.
- `agreement.dfy` (module `Agreement`) shows from this that the two procedures
  agree on every weight. When `chebyshev` reads off `m` rows from the moments
  of a weight, `stieltjes` on the integral of the same weight is defined for
  `m` steps. It builds the same polynomials and returns the same `alpha` and
  `beta[1..]`. It also works out the Legendre weight as an example.
- `jacobi.dfy` (module `Jacobi`) models `RCMonic.__getitem__`,
  `RCClassical.__getitem__` and the scaling dispatch of
  `RecurrenceCoefficients`, as functions of (alpha, beta, N).
- `hermite.dfy` (module `Hermite`) models `recurrence_coefficients` for the
  "probabilist", "monic" and "physicist" standardizations. The arrays are
  built and then `c[0]` is overwritten in place. In the monic branch this also
  changes `N`, since `c` and `N` are the same array.
- `wrappers.dfy` (module `Wrappers`) holds the `Option`, `Result` and
  `Exception` types.

Three edge cases of the code, modelled as the code behaves:

- `stieltjes(integrate, n)` with `n = 0` or `n = 1` raises `IndexError`. It
  writes `pi[0]` and `pi[1]` into a list of length `n`. It does not return
  empty lists.
- `chebyshev([])` raises `IndexError`, because it reads `moments[0]` to choose
  a dtype. It does not return the empty result of `chebyshev_modified`.
- `chebyshev_modified` reads `a[0 .. 2n-2]` and `b[1 .. 2n-2]` and never
  `b[0]`, and it reads no entry of `b` when `n = 1`. Reference arrays too short
  for these reads raise `IndexError` (`WellShaped`).

## Model

| member | source | states |
|---|---|---|
| `ModifiedChebyshev.ChebyshevModifiedRun` | orthopy/tools/generate_rc.py:101-140 | odd length fails the assertion; reference arrays too short fail with IndexError; otherwise alpha and beta are new arrays of n = len(nu)/2 entries equal to the specified coefficients; n = 0 gives empty arrays with no division; alpha[0] = a[0] + nu[1]/nu[0], beta[0] = nu[0] |
| `ModifiedChebyshev.WellShaped` | orthopy/tools/generate_rc.py:107-133 | definition of the shapes that raise no AssertionError or IndexError: an even number 2n of moments, a[0 .. 2n-2] and b[1 .. 2n-2] present |
| `ModifiedChebyshev.Sigma` | orthopy/tools/generate_rc.py:120-133 | definition of the buffer entry sigma[k, l] inside the band of columns row k writes |
| `ModifiedChebyshev.Update` | orthopy/tools/generate_rc.py:127-131 | definition of the three-term update of one buffer entry |
| `ModifiedChebyshev.Subtract` | orthopy/tools/generate_rc.py:132-133 | definition of the correction by beta[k-1] * sigma[k-2, l] |
| `ModifiedChebyshev.ReadAlpha` | orthopy/tools/generate_rc.py:135-137 | definition of the read-off of alpha[k] for k >= 1 |
| `ModifiedChebyshev.ReadBeta` | orthopy/tools/generate_rc.py:138 | definition of the read-off of beta[k] for k >= 1 |
| `ModifiedChebyshev.Regular` | orthopy/tools/generate_rc.py:121-138 | definition of the inputs on which every division of the source is defined |
| `ModifiedChebyshev.Coefficients` | orthopy/tools/generate_rc.py:118-138 | the first m coefficient pairs read off the buffer have length m, or are None exactly when a diagonal the read-off divides by is zero |
| `ModifiedChebyshev.Extend` | orthopy/tools/generate_rc.py:135-138 | the read-off of row k appends one alpha and one beta and keeps the earlier entries |
| `ModifiedChebyshev.ExtendEntry` | orthopy/tools/generate_rc.py:121-138 | the appended entries are a[0] + nu[1]/nu[0] and nu[0] at row 0 (with nu[0] nonzero), and the source's quotients of sigma entries at row k >= 1 |
| `ModifiedChebyshev.SigmaPrefix` | orthopy/tools/generate_rc.py:124-133 | row k of the buffer depends only on alpha[0..k-1] and beta[0..k-1] |
| `ModifiedChebyshev.CoefficientsPrefix` | orthopy/tools/generate_rc.py:124-138 | computing more rows only appends coefficients; a regular buffer has regular leading rows |
| `ModifiedChebyshev.SigmaFinal` | orthopy/tools/generate_rc.py:124-133 | row k computed with all n coefficients equals row k computed with the first k |
| `ModifiedChebyshev.CoefficientsEntry` | orthopy/tools/generate_rc.py:135-138 | entry k of the result is the entry appended at row k, and its divisors are nonzero |
| `ModifiedChebyshev.ReadOffFirst` | orthopy/tools/generate_rc.py:118-122 | nu[0] is nonzero, alpha[0] = a[0] + nu[1]/nu[0] and beta[0] = nu[0] |
| `ModifiedChebyshev.ReadOffNext` | orthopy/tools/generate_rc.py:135-138 | for k >= 1 both diagonal entries are nonzero and alpha[k], beta[k] are the source's quotients of the final buffer |
| `ModifiedChebyshev.SigmaStep` | orthopy/tools/generate_rc.py:127-133 | row k is the three-term update of row k-1, minus beta[k-1] times row k-2 exactly when k > 1 |
| `ModifiedChebyshev.FirstRow` | orthopy/tools/generate_rc.py:118-122 | row 0 of the buffer holds nu, and alpha[0], beta[0] are set as specified |
| `ModifiedChebyshev.SweepRow` | orthopy/tools/generate_rc.py:124-131 | every column L = k .. 2n-1-k of row k gets the three-term update; rows before k are unchanged |
| `ModifiedChebyshev.SubtractTwoBack` | orthopy/tools/generate_rc.py:132-133 | for k > 1, subtracting beta[k-1] times row k-2 completes row k |
| `ModifiedChebyshev.SubtractAt` | orthopy/tools/generate_rc.py:133 | the subtraction for one column changes that entry only and makes it the specified one |
| `ModifiedChebyshev.ReadOffRow` | orthopy/tools/generate_rc.py:135-138 | alpha[k], beta[k] are set to the specified entries and earlier entries are kept |
| `ModifiedChebyshev.NextRow` | orthopy/tools/generate_rc.py:124-138 | one pass of the k loop extends the agreement of buffer rows and coefficient prefixes from k to k+1 |
| `Chebyshev.Zeros` | orthopy/tools/generate_rc.py:97 | the reference arrays of chebyshev have m entries, all zero |
| `Chebyshev.ChebyshevRun` | orthopy/tools/generate_rc.py:87-98 | odd length fails the assertion; empty moments fail with IndexError; otherwise the result holds the same entries as chebyshev_modified(moments, zeros, zeros), in new arrays |
| `Chebyshev.SigmaOddVanishes` | orthopy/tools/generate_rc.py:127-133 | with a = b = 0, vanishing odd moments and zero alphas, sigma[k, l] = 0 whenever k + l is odd |
| `Chebyshev.ExtendAlphaVanishes` | orthopy/tools/generate_rc.py:121-137 | the read-off of a symmetric buffer keeps every alpha zero |
| `Chebyshev.ExtendAlphaLast` | orthopy/tools/generate_rc.py:135-137 | the new alpha[k], k >= 1, of a symmetric buffer is zero |
| `Chebyshev.SymmetricAlphaVanishes` | orthopy/tools/generate_rc.py:118-138 | with a = b = 0 and vanishing odd moments, every alpha[k] is zero |
| `Chebyshev.ChebyshevSymmetric` | orthopy/tools/generate_rc.py:93-98 | chebyshev of moments with vanishing odd entries returns alpha = 0 everywhere |
| `Chebyshev.LegendreMomentValues` | orthopy/tools/generate_rc.py:87-98 | the first four moments of the Legendre weight, taken from the same moment function the Stieltjes oracle integrates with, are 2, 0, 2/3, 0 |
| `Chebyshev.LegendreFirstRow` | orthopy/tools/generate_rc.py:118-122 | the Legendre moments give alpha[0] = 0 and beta[0] = 2 |
| `Chebyshev.LegendreExample` | orthopy/tools/generate_rc.py:118-138 | moments [2, 0, 2/3, 0] give alpha = [0, 0] and beta = [2, 1/3] |
| `Polynomials.LinearTimesCoef` | orthopy/tools/generate_rc.py:73 | coefficient i of (t - a) p is p[i-1] - a p[i], and the product has one more coefficient than p |
| `Polynomials.LinearTimesMonic` | orthopy/tools/generate_rc.py:73 | (t - a) times a monic polynomial of degree k is monic of degree k+1 |
| `Polynomials.ThreeTermMonic` | orthopy/tools/generate_rc.py:79 | the three-term rule on a monic pi[k-1] and a lower-degree pi[k-2] gives a monic polynomial of degree k |
| `Polynomials.MulMonic` | orthopy/tools/generate_rc.py:68-81 | the product of monic polynomials of degrees k and j is monic of degree k + j |
| `Polynomials.SquareMonic` | orthopy/tools/generate_rc.py:80 | pi[k]^2, handed to the oracle, is monic of degree 2k |
| `Stieltjes.NextPi` | orthopy/tools/generate_rc.py:67-79 | definition of pi[k]: 1, then (t - alpha[0]) * pi[0], then the three-term rule |
| `Stieltjes.Regular` | orthopy/tools/generate_rc.py:66-82 | definition of the oracles for which mu[0], ..., mu[n-1] are all nonzero |
| `Stieltjes.Step` | orthopy/tools/generate_rc.py:78-82 | one step is defined exactly when the integral of pi[k]^2 is nonzero, and then leaves a table that can be extended again (nonzero last mu, beta present from row 1 on) |
| `Stieltjes.Steps` | orthopy/tools/generate_rc.py:61-84 | a defined run of m steps has exactly m rows and can be extended by another step |
| `Stieltjes.StepsLast` | orthopy/tools/generate_rc.py:78-82 | a run of m steps is one step after a run of m-1 steps, which it extends |
| `Stieltjes.StepsPrefix` | orthopy/tools/generate_rc.py:78-82 | a defined run starts with every shorter defined run: later steps never change earlier entries |
| `Stieltjes.StepsRow` | orthopy/tools/generate_rc.py:78-82 | row k of a defined run is exactly what step k computes from rows 0 .. k-1 |
| `Stieltjes.StepFields` | orthopy/tools/generate_rc.py:79-82 | the row a step produces holds the next pi, mu = integrate(pi^2) != 0, alpha = integrate(t pi^2)/mu, and beta = None at k = 0, mu[k]/mu[k-1] after |
| `Stieltjes.StepsEntry` | orthopy/tools/generate_rc.py:66-82 | in a defined run mu[k] = integrate(pi[k]^2) is nonzero, alpha[k] = integrate(t pi[k]^2)/mu[k], beta[0] = None and beta[k] = mu[k]/mu[k-1] |
| `Stieltjes.PiEntry` | orthopy/tools/generate_rc.py:67-79 | in a defined run pi[0] = 1, pi[1] = (t - alpha[0]) pi[0] and pi[k] = (t - alpha[k-1]) pi[k-1] - beta[k-1] pi[k-2] with beta[k-1] present |
| `Stieltjes.NextPiPrefix` | orthopy/tools/generate_rc.py:67-79 | the next polynomial after rows 0 .. k-1 of a longer table is given by the three-term rule on that table's entries |
| `Stieltjes.RowsShape` | orthopy/tools/generate_rc.py:66-82 | every mu[k] of a defined run is nonzero and beta[k] is None exactly at k = 0 |
| `Stieltjes.NextPiMonic` | orthopy/tools/generate_rc.py:67-79 | the next polynomial after k monic ones of degrees 0 .. k-1 is monic of degree k |
| `Stieltjes.PiMonic` | orthopy/tools/generate_rc.py:66-82 | every pi[k] of a defined run is monic of degree k |
| `Stieltjes.Record` | orthopy/tools/generate_rc.py:79-82 | storing pi[k] and the values read off it fills entry k of all four lists with row k and keeps entries 0 .. k-1 |
| `Stieltjes.NextStep` | orthopy/tools/generate_rc.py:78-82 | one pass of the loop, with pi[k] computed from the stored pi[k-1], pi[k-2], alpha[k-1] and beta[k-1], fills entry k with row k of the run |
| `Stieltjes.StieltjesRun` | orthopy/tools/generate_rc.py:58-84 | n < 2 fails with IndexError whatever the oracle returns; for n >= 2 the returned alpha and beta are new arrays holding those of n steps of the procedure |
| `Stieltjes.LegendreFirstStep` | orthopy/tools/generate_rc.py:66-70 | for the Legendre weight pi[0] = 1, mu[0] = 2, alpha[0] = 0 and beta[0] = None |
| `Stieltjes.LegendreSecondPi` | orthopy/tools/generate_rc.py:73 | for the Legendre weight pi[1] = t |
| `Stieltjes.LegendreExample` | orthopy/tools/generate_rc.py:66-76 | for the Legendre weight alpha = [0, 0] and beta = [None, 1/3] |
| `Stieltjes.StepsExtend` | orthopy/tools/generate_rc.py:78-82 | a successful step after a defined table of m-1 rows gives the table of m rows, that table followed by the new row |
| `Functional.IntegralOne` | orthopy/tools/generate_rc.py:68 | the integral of t^l * 1 is the moment of order l |
| `Functional.IntegralAdd` | orthopy/tools/generate_rc.py:79 | the integral of a sum is the sum of the integrals |
| `Functional.IntegralScale` | orthopy/tools/generate_rc.py:79 | the integral of c * p is c times the integral of p |
| `Functional.IntegralTimesT` | orthopy/tools/generate_rc.py:81 | the integral of t^l * (t * p) is the integral of t^(l+1) * p |
| `Functional.IntegralThreeTerm` | orthopy/tools/generate_rc.py:79 | the integral of t^l times (t - a) p1 - b p2 is that of t^(l+1) p1, minus a times that of t^l p1, minus b times that of t^l p2 |
| `Functional.IntegralMulSkip` | orthopy/tools/generate_rc.py:80 | coefficients of p below degree j add nothing to the integral of t^l * p * q when q integrates to zero against t^l .. t^(l+j-1) |
| `Functional.OrthogonalSquare` | orthopy/tools/generate_rc.py:80 | for a monic p of degree k orthogonal to lower degrees, mu = integrate(p^2) is the integral of t^k * p |
| `Functional.OrthogonalTimesSquare` | orthopy/tools/generate_rc.py:81 | for such a p, integrate(t p^2) is the integral of t^(k+1) * p plus, for k >= 1, p_(k-1) times the integral of t^k * p |
| `Functional.GeneratedPolys` | orthopy/tools/generate_rc.py:66-79 | the polynomials pi[0], ..., pi[m] built step by step by the three-term rule; there are m + 1 of them |
| `Functional.GeneratedPolysGenerated` | orthopy/tools/generate_rc.py:66-79 | the list built step by step satisfies the three-term rule at every index |
| `Functional.GeneratedUnique` | orthopy/tools/generate_rc.py:66-79 | alpha and beta determine the polynomials: two lists that both follow the rule agree wherever both are defined |
| `Functional.GeneratedMonic` | orthopy/tools/generate_rc.py:66-79 | every P_k the rule generates is monic of degree k |
| `Functional.GeneratedSubleading` | orthopy/tools/generate_rc.py:73-79 | the coefficient of t^(k-1) in P_k is -(alpha[0] + ... + alpha[k-1]) |
| `Functional.RecurrenceMomentIsIntegral` | orthopy/tools/generate_rc.py:127-133 | the three-term rule applied to the moments computes the integral of t^l * P_k for every row k and column l |
| `Functional.GeneratedOrthogonal` | orthopy/tools/generate_rc.py:127-133 | P_k is orthogonal to every lower degree if and only if the moment recurrence of row k vanishes in every column below k |
| `Orthogonality.Moments` | orthopy/tools/generate_rc.py:87-93 | the 2n moments handed to chebyshev are moment(0), ..., moment(2n-1) |
| `Orthogonality.ZeroReferenceStep` | orthopy/tools/generate_rc.py:127-133 | with zero reference arrays a and b, sigma[k, l] = sigma[k-1, l+1] - alpha[k-1] sigma[k-1, l], minus beta[k-1] sigma[k-2, l] from row 2 on |
| `Orthogonality.SigmaIsMoment` | orthopy/tools/generate_rc.py:124-133 | with a zero reference, sigma[k, l] is the moment recurrence of row k in column l, hence the integral of t^l * P_k |
| `Orthogonality.FirstEntries` | orthopy/tools/generate_rc.py:118-122 | with a zero reference, nu[0] != 0, alpha[0] = nu[1]/nu[0] and beta[0] = nu[0] |
| `Orthogonality.NextEntries` | orthopy/tools/generate_rc.py:135-138 | with a zero reference, the read-off of row k >= 1 divides by nonzero diagonal entries and gives alpha[k] = sigma[k, k+1]/sigma[k, k] - sigma[k-1, k]/sigma[k-1, k-1] and beta[k] = sigma[k, k]/sigma[k-1, k-1] |
| `Orthogonality.RowEntries` | orthopy/tools/generate_rc.py:135-138 | the same read-off with every sigma entry replaced by the moment recurrence it equals |
| `Orthogonality.ReadOffRows` | orthopy/tools/generate_rc.py:118-138 | the coefficients read off m rows satisfy the read-off of row 0 and of every row 1 .. m-1 |
| `Orthogonality.RowCancelsNext` | orthopy/tools/generate_rc.py:135-138 | the read-off alpha[k] and beta[k] cancel the next row's recurrence one column below the diagonal |
| `Orthogonality.RowCancelsDiagonal` | orthopy/tools/generate_rc.py:138 | the read-off beta[k] cancels the next row's recurrence two columns below the diagonal |
| `Orthogonality.VanishFirst` | orthopy/tools/generate_rc.py:121 | alpha[0] = nu[1]/nu[0] makes the recurrence of row 1 vanish in column 0 |
| `Orthogonality.VanishBelow` | orthopy/tools/generate_rc.py:127-133 | more than two columns below the diagonal, every term of the recurrence of row k vanishes |
| `Orthogonality.MomentsVanishUpTo` | orthopy/tools/generate_rc.py:118-138 | for every row k <= m the moment recurrence vanishes in every column below k |
| `Orthogonality.SubleadingIsQuotient` | orthopy/tools/generate_rc.py:135-137 | -(alpha[0] + ... + alpha[k-1]) is the correction -sigma[k-1, k]/sigma[k-1, k-1] that the read-off of alpha[k] subtracts, and that divisor is nonzero |
| `Orthogonality.QuotientReadOff` | orthopy/tools/generate_rc.py:135-137 | with s = -(y/e), the quotient (x + s d)/d is the read-off x/d - y/e |
| `Orthogonality.AlphaFromMoments` | orthopy/tools/generate_rc.py:135-137 | alpha[k] is (RM[k, k+1] + s_k RM[k, k])/RM[k, k] with s_k the sub-leading coefficient of P_k and RM[k, k] != 0; alpha[0] = nu[1]/nu[0] |
| `Orthogonality.BetaFromMoments` | orthopy/tools/generate_rc.py:138 | beta[0] = nu[0], and beta[k] = RM[k, k]/RM[k-1, k-1] with a nonzero divisor for k >= 1 |
| `Orthogonality.RecurrenceOrthogonal` | orthopy/tools/generate_rc.py:118-138 | every P_k, k <= m, generated by the read-off coefficients is orthogonal to lower degrees for the weight |
| `Orthogonality.AlphaFromIntegrals` | orthopy/tools/generate_rc.py:135-137 | AlphaFromMoments with RM replaced by the integrals of t^l * P_k and s_k by the coefficient of t^(k-1) in P_k |
| `Orthogonality.BetaFromIntegrals` | orthopy/tools/generate_rc.py:138 | BetaFromMoments with RM replaced by the integrals of t^k * P_k |
| `Orthogonality.AlphaIsQuotient` | orthopy/tools/generate_rc.py:135-137 | integrate(P_k^2) != 0 and alpha[k] = integrate(t P_k^2)/integrate(P_k^2), the Stieltjes quotient |
| `Orthogonality.BetaIsQuotient` | orthopy/tools/generate_rc.py:138 | beta[0] = integrate(P_0^2), and beta[k] = integrate(P_k^2)/integrate(P_(k-1)^2) with a nonzero divisor for k >= 1 |
| `Orthogonality.StieltjesQuotients` | orthopy/tools/generate_rc.py:87-140 | when chebyshev reads off m rows, alpha and beta have m entries, P_0 .. P_m are orthogonal, and every alpha[k], beta[k] is the quotient of integrals that stieltjes forms |
| `Agreement.PredictedStep` | orthopy/tools/generate_rc.py:78-82 | fed the rows that the Chebyshev coefficients predict, one step of stieltjes is defined and produces the next predicted row |
| `Agreement.PredictedAppend` | orthopy/tools/generate_rc.py:78-82 | appending predicted row k to predicted rows 0 .. k-1 gives predicted rows 0 .. k |
| `Agreement.PredictedSteps` | orthopy/tools/generate_rc.py:58-84 | the first j <= m steps of stieltjes on the weight's integral are defined and are the predicted rows |
| `Agreement.ChebyshevAgreesWithStieltjes` | orthopy/tools/generate_rc.py:58-140 | for every weight, when chebyshev reads off m rows, stieltjes is defined for m steps with the same alpha, the same beta[1..], beta[0] = None and mu[0] equal to the Chebyshev beta[0] |
| `Agreement.LegendreAgreement` | orthopy/tools/generate_rc.py:58-140 | on the Legendre weight both procedures give the same alpha and beta[1]; Chebyshev's beta[0] is the total mass mu[0] where Stieltjes has None |
| `Jacobi.LookupScaling` | orthopy/c1/jacobi.py:65 | "monic", "classical" and "normal" are accepted; any other key raises KeyError |
| `Jacobi.P0` | orthopy/c1/jacobi.py:92 | both modelled scalings start from p0 = 1 |
| `Jacobi.MonicBDen` | orthopy/c1/jacobi.py:104-107 | definition of the denominator of the general monic b_N |
| `Jacobi.MonicBFormula` | orthopy/c1/jacobi.py:104-107 | definition of the general monic b_N |
| `Jacobi.MonicC1Den` | orthopy/c1/jacobi.py:120-124 | definition of the denominator of the monic N = 1 branch for c |
| `Jacobi.MonicCDen` | orthopy/c1/jacobi.py:125-131 | definition of the denominator of the general monic c_N |
| `Jacobi.MonicCFormula` | orthopy/c1/jacobi.py:125-131 | definition of the general monic c_N |
| `Jacobi.MonicBDefined` | orthopy/c1/jacobi.py:101-107 | definition of the N for which the monic b_N divides by nonzero |
| `Jacobi.MonicCDefined` | orthopy/c1/jacobi.py:111-131 | definition of the N for which the monic c_N divides by nonzero |
| `Jacobi.MonicDefined` | orthopy/c1/jacobi.py:101-131 | definition of the N for which every monic division is defined |
| `Jacobi.MonicB` | orthopy/c1/jacobi.py:101-107 | definition of monic b_N: the N = 0 branch or the general formula |
| `Jacobi.MonicC` | orthopy/c1/jacobi.py:120-131 | definition of monic c_N for N >= 1: the N = 1 branch or the general formula |
| `Jacobi.ClassicalADen` | orthopy/c1/jacobi.py:163-166 | definition of the denominator of the general classical a_N |
| `Jacobi.ClassicalAFormula` | orthopy/c1/jacobi.py:163-166 | definition of the general classical a_N |
| `Jacobi.ClassicalBDen` | orthopy/c1/jacobi.py:167-170 | definition of the denominator of the general classical b_N |
| `Jacobi.ClassicalBFormula` | orthopy/c1/jacobi.py:167-170 | definition of the general classical b_N |
| `Jacobi.ClassicalCDen` | orthopy/c1/jacobi.py:171-174 | definition of the denominator of the general classical c_N |
| `Jacobi.ClassicalCFormula` | orthopy/c1/jacobi.py:171-174 | definition of the general classical c_N |
| `Jacobi.ClassicalADefined` | orthopy/c1/jacobi.py:158-166 | definition of the N for which the classical a_N divides by nonzero |
| `Jacobi.ClassicalBDefined` | orthopy/c1/jacobi.py:158-170 | definition of the N for which the classical b_N divides by nonzero |
| `Jacobi.ClassicalDefined` | orthopy/c1/jacobi.py:158-174 | definition of the N for which every classical division is defined |
| `Jacobi.ClassicalA` | orthopy/c1/jacobi.py:158-166 | definition of classical a_N: the N = 0 branch or the general formula |
| `Jacobi.ClassicalB` | orthopy/c1/jacobi.py:158-170 | definition of classical b_N: the N = 0 branch or the general formula |
| `Jacobi.MonicRc` | orthopy/c1/jacobi.py:94-132 | the monic scaling has a_N = 1 for every N, and c_N is the sentinel exactly when N = 0 |
| `Jacobi.ClassicalRc` | orthopy/c1/jacobi.py:152-176 | the classical c_N is the sentinel exactly when N = 0 and the general formula for N >= 1 |
| `Jacobi.RecurrenceCoefficients` | orthopy/c1/jacobi.py:63-70 | an unknown scaling raises KeyError; "monic" and "classical" give the triple of their class |
| `Jacobi.MonicSymmetricB` | orthopy/c1/jacobi.py:101-107 | alpha = beta gives monic b_N = 0 for every N at which b_N is defined |
| `Jacobi.ClassicalSymmetricB` | orthopy/c1/jacobi.py:158-170 | alpha = beta gives classical b_N = 0 for every N at which b_N is defined |
| `Jacobi.MonicBAtZero` | orthopy/c1/jacobi.py:101-107 | the monic N = 0 branch for b equals the general formula at N = 0 when alpha + beta != 0 |
| `Jacobi.ClassicalAAtZero` | orthopy/c1/jacobi.py:157-166 | the classical N = 0 branch for a equals the general formula at N = 0 when alpha + beta + 1 != 0 |
| `Jacobi.ClassicalBAtZero` | orthopy/c1/jacobi.py:157-170 | the classical N = 0 branch for b equals the general formula at N = 0 when alpha + beta != 0 and alpha + beta + 1 != 0 |
| `Jacobi.MonicCAtOne` | orthopy/c1/jacobi.py:109-131 | whenever the N = 1 branch for c is defined and alpha + beta != -1, the general formula at N = 1 is defined too and equals that branch |
| `Jacobi.MonicCOneBranchNeeded` | orthopy/c1/jacobi.py:109-124 | whenever the N = 1 branch for c is defined, the general formula at N = 1 divides by zero exactly when alpha + beta = -1, which includes alpha = beta = -1/2 |
| `Jacobi.ScalingsAgreeBGeneral` | orthopy/c1/jacobi.py:104-170 | the general monic b_N is the general classical b_N divided by the classical a_N |
| `Jacobi.ScalingsAgreeB` | orthopy/c1/jacobi.py:101-170 | for every N at which monic b_N, classical a_N and classical b_N are defined and a_N != 0, monic b_N = classical b_N / classical a_N |
| `Jacobi.LegendreMonicC` | orthopy/c1/jacobi.py:120-131 | for alpha = beta = 0 and N >= 1, monic c_N = N^2/(4N^2 - 1) |
| `Jacobi.LegendreClassicalA` | orthopy/c1/jacobi.py:163-166 | for alpha = beta = 0 and N >= 1, classical a_N = (2N+1)/(N+1) |
| `Jacobi.LegendreClassicalC` | orthopy/c1/jacobi.py:171-174 | for alpha = beta = 0 and N >= 1, classical c_N = N/(N+1) |
| `Jacobi.LegendreClassical` | orthopy/c1/jacobi.py:158-174 | for alpha = beta = 0 and N >= 1 every classical denominator is nonzero, a_N = (2N+1)/(N+1) and c_N = N/(N+1) |
| `Jacobi.AdmissibleMonic` | orthopy/c1/jacobi.py:101-131 | for alpha, beta > -1 every monic denominator is nonzero and c_N > 0 for N >= 1 |
| `Jacobi.AdmissibleMonicCOne` | orthopy/c1/jacobi.py:120-124 | for alpha, beta > -1 the monic c_1 branch is defined and positive |
| `Jacobi.AdmissibleMonicC` | orthopy/c1/jacobi.py:125-131 | for alpha, beta > -1 and N >= 2 the general monic c_N is defined and positive |
| `Jacobi.AdmissibleClassical` | orthopy/c1/jacobi.py:158-174 | for alpha, beta > -1 every classical denominator is nonzero, a_N > 0 and c_N > 0 for N >= 1 |
| `Jacobi.AdmissibleScalingsAgreeB` | orthopy/c1/jacobi.py:101-170 | for alpha, beta > -1, monic b_N = classical b_N / classical a_N with no further side condition |
| `Hermite.LookupStandardization` | orthopy/e1r2/orth.py:18-33 | "probabilist", "monic", "physicist" and "normal" are accepted; any other name fails the assertion |
| `Hermite.RecurrenceCoefficients` | orthopy/e1r2/orth.py:7-40 | an unknown name fails the assertion; n = 0 fails with IndexError; otherwise p0 = 1, and a, b, c are new arrays of length n with a constant 1 or 2, b zero and c the patched array of `CoefficientsC` |
| `Hermite.Indices` | orthopy/e1r2/orth.py:17 | definition of the array N = [0, 1, ..., n-1] |
| `Hermite.Unpatched` | orthopy/e1r2/orth.py:22-28 | definition of c before the overwrite: N itself, or 2 * N |
| `Hermite.CoefficientsC` | orthopy/e1r2/orth.py:22-29 | definition of the returned c: the unpatched array with c[0] = sqrt(pi) |
| `Hermite.CEntries` | orthopy/e1r2/orth.py:22-29 | c[0] = sqrt(pi) and c[k] = k (probabilist, monic) or 2k (physicist) for 1 <= k < n |
| `Hermite.ProbabilistIsMonic` | orthopy/e1r2/orth.py:18-23 | "probabilist" and "monic" give identical coefficients, with c[k] = k for 1 <= k < n |
| `Hermite.PhysicistIsTwiceMonic` | orthopy/e1r2/orth.py:24-29 | the physicist a and c[1..] are twice the monic ones |

## Left out

- The floating-point mode everywhere (`frac` as float division, `math.nan`).
  In that mode `orthopy/e1r2/orth.py` also stores `sqrt(pi)` into an integer
  array, which truncates it to 1. Only the exact mode is modelled.
- Division by zero. sympy's `Rational` yields `zoo` or `nan` instead of
  raising. The model requires nonzero divisors instead:
  `ModifiedChebyshev.Regular` for the diagonal of `sigma`, `Stieltjes.Regular`
  for every `mu[k]`, and `Jacobi.MonicDefined` and `Jacobi.ClassicalDefined`
  for the formula denominators.
- `golub_welsch`: it calls `numpy.linalg.cholesky` and takes square roots,
  which the exact reals of the model do not have.
- `gautschi_test_3`: it takes `numpy.linalg.det` of float arrays and returns
  float error vectors.
- `RCNormal` and the "normal" scaling and standardization: they need `sqrt`,
  `gamma` and `pi`, which are not rational. Only the acceptance of the name
  "normal" is modelled (`Jacobi.LookupScaling`, `Hermite.LookupStandardization`).
- Jacobi.RecurrenceCoefficients: requires that the key is not "normal", because the normal scaling is not modelled.
- Hermite.RecurrenceCoefficients: requires that the name is not "normal", because the normal standardization is not modelled.
- sqrt(pi) in `c[0]` of the Hermite coefficients is an opaque constant
  (`Hermite.SqrtPi`). Nothing is computed with it.
- The link between the two procedures (`Orthogonality`, `Agreement`) is proved
  for `chebyshev`, where the reference coefficients are zero. It is not proved
  for `chebyshev_modified` with nonzero reference coefficients. There, the
  modified moments of a second polynomial family would have to be modelled.
  The weight is given by its moments as a function `nat -> real`, and the
  oracle of `stieltjes` is the integral against those moments. Positivity of
  the weight is not modelled, so the results require nonzero divisors, as the
  read-off does.
- The sympy expressions in `t` handed to the oracle of `stieltjes` are replaced
  by coefficient lists. The oracle is any function `Poly -> real`, so its own
  failures are not modelled. The dtype sniffing of `chebyshev` is replaced by
  `real` entries.
- Plotting and evaluation (`plot`, `show`, `savefig`, `tree`, `Eval` in
  `orthopy/c1/jacobi.py`). They use matplotlib and `Eval1D`, which is not part
  of this model. The same holds for the line tree that `orthopy/e1r2/orth.py`
  hands its coefficients to.
- `orthopy/c1/chebyshev1.py` wraps Gegenbauer iterators, which are not part of
  this model. The tests in `test/` are float quadrature checks and are also
  left out.
