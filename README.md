# Shamir secret sharing over GF(2^8) and GF(p), in Dafny

This project models the arithmetic core of two Python files that implement
Shamir secret sharing as KMIP v2.0 describes it:

- `shamirshare.py`:
  - the AES field GF(2^8), with elements as bytes (class `GF8elt`);
  - prime fields GF(p) (class `GFpelt`);
  - a polynomial object over either field (class `PolyFieldUnivElt`);
  - Lagrange interpolation built from polynomial products (`PolyFieldUniv.fit`).
- `shamirshare2.py`, a simplified rewrite:
  - the same `GFpelt`;
  - a `fit` that keeps one buffer of n coefficients per polynomial and
    multiplies each factor (x - x_j) into it in place;
  - an `eval` that runs Horner's rule on a plain list.

To split a secret, you pick a polynomial whose constant term is the secret
and hand out its values at x = 1, 2, .... To recover the secret, you fit a
polynomial through enough shares and evaluate it at 0.

## Layout

| file | module | contents |
|---|---|---|
| `errors.dfy` | `Errors` | the Python exceptions the core raises (`ZeroDivisionError`, `IndexError`), plus `Result` and `Option` |
| `bits.dfy` | `Bits` | bit tables for bytes and 16-bit words; xor-additive maps over bytes |
| `gf8.dfy` | `GF8` | `GF8elt`: xor addition, the shift-and-xor product loop, the reduction loop, the inverse table, inv, div |
| `gf8_laws.dfy` | `GF8Laws` | field laws of the byte product, proved through the xtime formulation of section 4.2 of FIPS-197 |
| `gf8_inverse.dfy` | `GF8Inverse` | every entry of the inverse table is checked; inverse and division are correct |
| `gfp.dfy` | `GFp` | `GFpelt`: normalisation, the operations modulo p, the extended Euclid loop, inv, div |
| `fields.dfy` | `Fields` | the coefficient field, `AesField` or `PrimeField(p)`, with elements as integers and operations that dispatch to `GF8` or `GFp` |
| `poly_lists.dfy` | `PolyLists` | coefficient lists: trimming, padded addition, convolution, Horner value, power sum |
| `lagrange.dfy` | `Lagrange` | Lagrange basis products, weights and the interpolation sum |
| `poly.dfy` | `Poly` | `PolyFieldUnivElt` as class `PolyElt`, and `PolyFieldUniv.fit` as `Fit` |
| `shamir2.dfy` | `Shamir2` | the in-place `fit` and the list `eval` of `shamirshare2.py`, and agreement with `Poly.Fit` |
| `recovery.dfy` | `Recovery` | root counting by synthetic division, and uniqueness of the fitted polynomial: fit gives back the polynomial the shares came from |
| `worked_examples.dfy` | `WorkedExamples` | the key splits worked out in the two files' documentation: the documented polynomials take the documented shares |
| `worked_fits.dfy` | `WorkedFits` | the documented fits and refits, exactly, by uniqueness |

Field elements are plain integers: bytes in `[0, 256)` for GF(2^8), and
`[0, p)` for GF(p). An exception the source raises becomes an `Err` result.

`shamirshare2.py` repeats the `GFpelt` of `shamirshare.py`. Its add, neg,
sub, mul, inv, `__xgcd` and div (`shamirshare2.py`:99-190) compute the same
values, so `GFp` models both. The rows below cite either file.

## Model

| member | source | states |
|---|---|---|
| GF8Laws.AddGroup | shamirshare.py:182-206 | Addition is xor. It is commutative and associative, with 0 as identity. Each element is its own negative (`__neg__` returns self). Subtraction equals addition, and (a + b) - b == a. |
| GF8Laws.AddZeroIff | shamirshare.py:205-206 | a - b is zero exactly when a == b |
| GF8Laws.AddExample | shamirshare.py:123 | the documented sum 0x7b + 0xf5 = 0x8e |
| GF8.Mul | shamirshare.py:214-222 | The 8-step shift-and-xor loop, followed by the reduction, returns Product(a, b): the carry-less product of the two bytes, reduced modulo x^8 + x^4 + x^3 + x + 1. The result is a byte. |
| GF8.ReduceGF8 | shamirshare.py:241-245 | The feedback loop over bits 8..15 returns Reduce(v), the low byte xor the table entries of the set high bits. |
| GF8Laws.ReduceUnit | shamirshare.py:241-245 | the reduction of x^p, for every p < 15, is x^p in the field; hence each `reductable[i]` is x^(8+i) mod 0x11b |
| GF8Laws.ReduceXor | shamirshare.py:241-245 | reduction is linear over xor |
| GF8Laws.ReduceOfByte | shamirshare.py:241-245 | a value below 256 is left unchanged by the reduction |
| GF8Laws.ReduceShift | shamirshare.py:241-245 | reducing b shifted left by i gives b times x^i in the field, so the reduced product is congruent to the carry-less product modulo the driving polynomial |
| GF8Laws.ProductIsShiftAdd | shamirshare.py:214-222 | the product equals the xtime formulation (a sum of b * x^i over the set bits of a) |
| GF8Laws.MulCommutative | shamirshare.py:233-234 | a * b == b * a, which makes `__rmul__` correct |
| GF8Laws.MulAssociative | shamirshare.py:214-222 | (a * b) * c == a * (b * c) |
| GF8Laws.MulDistributive | shamirshare.py:214-222 | a * (b + c) == a * b + a * c |
| GF8Laws.MulIdentity | shamirshare.py:214-222 | 1 is the multiplicative identity; 0 annihilates |
| GF8Laws.MulExample | shamirshare.py:214-222 | {57} * {83} = {c1}, the worked product of section 4.2 of FIPS-197 |
| GF8Inverse.InvTableCorrect | shamirshare.py:249-283 | for every nonzero byte a, a times its table entry is 1 |
| GF8.Inv | shamirshare.py:285-289 | ZeroDivisionError exactly when a is 0, so the 00 -> 00 entry is never read |
| GF8Inverse.InvCorrect | shamirshare.py:285-289 | inv succeeds exactly for nonzero a, and a * inv(a) == inv(a) * a == 1 |
| GF8Inverse.InvUnique | shamirshare.py:285-289 | any x with a * x == 1 is what inv(a) returns |
| GF8.Div | shamirshare.py:291-293 | ZeroDivisionError exactly when the divisor is 0 |
| GF8Inverse.DivCorrect | shamirshare.py:291-293 | div succeeds exactly for a nonzero divisor, and then quotient * divisor == dividend |
| GF8Inverse.MulDivCancel | shamirshare.py:291-293 | (a * b) / b == a for b != 0 |
| GFp.Normalize | shamirshare.py:404-406 | the result lies in [0, p), is congruent to v modulo p, and is v itself when v already lies in [0, p) |
| GFp.NormalizeExample | shamirshare.py:387-393 | over the first prime above 2^50: gf(-1) = p - 1 and 2 * gf(-1) = p - 2 |
| GFp.Add | shamirshare.py:447-455 | in [0, p) and congruent to a + b |
| GFp.Neg | shamirshare.py:467-468 | in [0, p), and a + neg(a) == 0 |
| GFp.SubLaws | shamirshare2.py:139-140 | (a - b) + b == a, and a - b == 0 exactly when a == b |
| GFp.Mul | shamirshare.py:479-489 | in [0, p) and congruent to a * b |
| GFp.AddCommutative | shamirshare.py:447-455 | a + b == b + a |
| GFp.AddAssociative | shamirshare.py:447-455 | (a + b) + c == a + (b + c) |
| GFp.AddZero | shamirshare.py:447-455 | 0 is the additive identity |
| GFp.MulCommutative | shamirshare.py:479-489 | a * b == b * a |
| GFp.MulAssociative | shamirshare.py:479-489 | (a * b) * c == a * (b * c) |
| GFp.MulOneZero | shamirshare.py:479-489 | 1 is the identity and 0 annihilates (p > 1) |
| GFp.MulDistributive | shamirshare.py:479-489 | a * (b + c) == a * b + a * c |
| GFp.NoZeroDivisors | shamirshare.py:479-489 | for prime p, a * b == 0 exactly when a or b is 0 |
| GFp.Xgcd | shamirshare.py:509-527 | the recursive reading of the loop: ZeroDivisionError exactly when b is 0 (the first `a // b`) |
| GFp.XgcdCorrect | shamirshare.py:509-527 | For b != 0 it returns (g, x, y) with g > 0 and g == a * x + b * y, and g divides both a and b. |
| GFp.XgcdGreatest | shamirshare2.py:164-182 | every common divisor of a and b divides g, so g = gcd(\|a\|, \|b\|), in `__xgcd` of either file |
| GFp.ExtendedGcd | shamirshare.py:509-527 | takes the signs off a and b, raises ZeroDivisionError when b is 0, and puts the signs back on x and y; the result equals Xgcd(a, b) and satisfies Bézout's identity g == a * x + b * y |
| GFp.GcdLoop | shamirshare.py:517-527 | the `while` loop on a >= 0, b > 0 returns what the recursive reading XgcdFrom gives from the start state (1, 0, 0, 1); its invariant is that the rest of the run does not change that result |
| GFp.Inv | shamirshare.py:503-506 | ZeroDivisionError exactly when a is 0; otherwise a value in [0, p) |
| GFp.InvCorrect | shamirshare2.py:158-161 | in `inv` of either file, for prime p and a != 0: a * inv(a) == inv(a) * a == 1 |
| GFp.InvUnique | shamirshare.py:503-506 | for prime p, any x with a * x == 1 is what inv(a) returns |
| GFp.Div | shamirshare.py:529-535 | ZeroDivisionError exactly when the divisor is 0 |
| GFp.DivCorrect | shamirshare2.py:184-190 | in `div` of either file, for prime p, div succeeds exactly for a nonzero divisor, and then quotient * divisor == dividend |
| Fields.Coerce | shamirshare.py:370-371 | The coefficient ring's call. Over GF(p) it is the normalisation: in range, and congruent to v. A value already in the field is left unchanged. |
| Fields.CoerceAll | shamirshare.py:662 | coercing a list keeps its length, leaves lists of field elements unchanged, and gives field elements |
| Fields.Inv | shamirshare.py:285-289 | in either field, ZeroDivisionError exactly for 0 |
| Fields.Div | shamirshare.py:291-293 | in either field, ZeroDivisionError exactly for a zero divisor |
| Fields.AddNeg | shamirshare.py:470-471 | in either field, a + neg(a) == 0 and sub(a, b) == add(a, neg(b)) |
| Fields.SubZero | shamirshare.py:470-471 | in either field, a - b == 0 exactly when a == b |
| Fields.NegUnique | shamirshare.py:467-468 | in either field, the additive inverse is unique |
| Fields.AddCommutative | shamirshare.py:447-455 | in either field, a + b == b + a |
| Fields.AddAssociative | shamirshare.py:447-455 | in either field, addition is associative |
| Fields.AddZero | shamirshare.py:447-455 | in either field, 0 is the additive identity |
| Fields.MulCommutative | shamirshare.py:479-489 | in either field, a * b == b * a |
| Fields.MulAssociative | shamirshare.py:479-489 | in either field, multiplication is associative |
| Fields.MulOneZero | shamirshare.py:479-489 | in either field, 1 is the identity and 0 annihilates |
| Fields.MulDistributive | shamirshare.py:479-489 | in either field, multiplication distributes over addition |
| Fields.MulNeg | shamirshare.py:479-489 | in either field, -(a * c) == a * (-c) |
| Fields.InvCorrect | shamirshare.py:503-506 | in GF(2^8), and in GF(p) for prime p: a * inv(a) == 1 for a != 0 |
| Fields.DivIsMulInv | shamirshare.py:529-535 | in either field, div(a, b) == a * inv(b) for b != 0 |
| Fields.DivCorrect | shamirshare.py:529-535 | in a field, quotient * divisor == dividend |
| Fields.MulDivCancel | shamirshare.py:291-293 | in a field, (a * b) / b == a |
| Fields.MulDivAssociative | shamirshare.py:291-293 | in either field, (a * b) / c == a * (b / c) |
| Fields.NoZeroDivisors | shamirshare.py:479-489 | in a field, a * b == 0 exactly when a or b is 0 |
| Poly.TrimList | shamirshare.py:667-673 | the loop that deletes trailing zeros returns Trim(thelist) |
| PolyLists.TrimCorrect | shamirshare.py:667-673 | Trim(c) is a prefix of c. Everything dropped is zero. The result is empty or ends in a nonzero coefficient. |
| PolyLists.TrimPad | shamirshare.py:667-673 | trimming changes no coefficient value and is idempotent |
| PolyLists.AddLists | shamirshare.py:707-709 | the length is max(len1, len2) |
| PolyLists.AddListsPad | shamirshare.py:707-709 | coefficient i is the sum of both lists' coefficient i, with the shorter list padded by zeros |
| PolyLists.MulLists | shamirshare.py:762-765 | the length is max(0, len1 + len2 - 1), so the product is empty when one list is empty and the other has at most one entry |
| PolyLists.MulListsPad | shamirshare.py:762-765 | coefficient d is the convolution sum of a[d - i] * b[i] over the valid i |
| PolyLists.HornerIsPowerSum | shamirshare.py:828-833 | Horner's rule equals the sum of c_k * x^k |
| PolyLists.HornerAtZero | shamirshare.py:828-833 | the value at 0 of a nonempty list is c_0 |
| PolyLists.HornerTrim | shamirshare.py:667-673 | trimming does not change a polynomial's value |
| PolyLists.HornerAddLists | shamirshare.py:707-709 | the value of the padded sum is the sum of the values |
| PolyLists.HornerMulLists | shamirshare.py:762-765 | the value of the convolution is the product of the values |
| Poly.HornerTrimAdd | shamirshare.py:711-724 | the value of the sum that add returns is the sum of the values |
| Poly.HornerTrimMul | shamirshare.py:751-766 | the value of the product that mul returns is the product of the values |
| Poly.HornerDivList | shamirshare.py:783-793 | dividing every coefficient by d divides the value by d |
| Poly.PolyElt.constructor | shamirshare.py:654-664 | a list argument is trimmed and coerced; a list that is already trimmed and coerced is kept as is |
| Poly.PolyElt.Constant | shamirshare.py:663-664 | a single field element becomes the constant polynomial [c] |
| Poly.PolyElt.Add | shamirshare.py:711-724 | a fresh polynomial whose coefficients are Trim(AddLists(self, summand)) |
| Poly.PolyElt.Mul | shamirshare.py:751-766 | a fresh polynomial whose coefficients are Trim(MulLists(self, multand)) |
| Poly.PolyElt.Div | shamirshare.py:783-815 | This models div and idiv, which have the same body. A zero divisor raises ZeroDivisionError and leaves the coefficients unchanged. Otherwise each coefficient is divided in place and the same object is returned. |
| Poly.PolyElt.Eval | shamirshare.py:828-833 | An empty coefficient list raises IndexError (the read of `coeffs[-1]`). Otherwise the downward Horner loop returns the sum of c_k * x^k, with x coerced into the field. |
| Poly.PolyElt.EvalTotal | shamirshare.py:828-833 | the corrected evaluation, in which the empty list is the zero polynomial with value 0 |
| Lagrange.BasisZero | shamirshare.py:613-614 | in a field, the product of (x - x_i) over i != j is zero exactly when x is some other node |
| Lagrange.WeightZero | shamirshare.py:622-624 | theprod, the product of (x_j - x_i) over i != j, is zero exactly when another node repeats x_j |
| Lagrange.DistinctWeights | shamirshare.py:622-624 | all weights are nonzero exactly when the nodes are distinct |
| Lagrange.LagrangeSumAtNode | shamirshare.py:613-614 | the partial Lagrange sum over the first k terms takes the value y_m at node m < k, and 0 at the other nodes |
| Lagrange.LagrangeInterpolates | shamirshare.py:613-614 | the full Lagrange sum passes through every point |
| Poly.HornerFactor | shamirshare.py:623 | the list [-c, 1] evaluates to x - c |
| Poly.TermValue | shamirshare.py:620-623 | after the factors for nodes 0..m-1 except j, theterm evaluates to the product of (x - x_i) |
| Poly.TermLength | shamirshare.py:620-623 | theterm has at most m + 1 coefficients |
| Poly.Summand | shamirshare.py:625 | y_j * theterm / theprod raises ZeroDivisionError exactly when the weight of node j is 0 |
| Poly.SummandValue | shamirshare.py:625 | the summand for node j evaluates to the j-th Lagrange term y_j * basis_j(x) / weight_j |
| Poly.AccumulateErr | shamirshare.py:619-625 | the running sum fails exactly when some summand so far failed, and with that summand's error |
| Poly.AccumulateValue | shamirshare.py:625 | when every summand succeeds, the running sum evaluates to the sum of the summands' values |
| Poly.SummandsValue | shamirshare.py:619-625 | for distinct nodes, the summands add up to the Lagrange sum at every x |
| Poly.BuildTerm | shamirshare.py:620-624 | the inner loop leaves theterm as the product of the factors for every i != j, and theprod as the weight of node j |
| Poly.SummandPoly | shamirshare.py:625 | y_j * theterm / theprod as a fresh polynomial, or ZeroDivisionError exactly when the summand fails |
| Poly.AddSummand | shamirshare.py:625 | `thepoly +=` adds summand j to the running sum, or passes on its error |
| Poly.Fit | shamirshare.py:609-626 | Fit fails exactly when FitSpec does, and then with ZeroDivisionError. Otherwise it returns a fresh polynomial whose coefficients are FitSpec's value. |
| Poly.FitErrIffDuplicate | shamirshare.py:609-626 | in a field, fit raises ZeroDivisionError exactly when two x values coincide after coercion |
| Poly.FitInterpolates | shamirshare.py:609-626 | for distinct x values, fit succeeds and its result takes the value y_m at x_m, for every point m |
| Poly.FitShape | shamirshare.py:609-626 | the fitted polynomial has at most n coefficients and is trimmed |
| Poly.ZeroShareFit | shamirshare.py:609-626 | Over GF(13), fitting the single share 1 -> 0 gives the empty coefficient list. See Findings. |
| Shamir2.PartialStep | shamirshare2.py:229-231 | one turn k of the synthetic-multiplication sweep: the rewrites of theterm[k] and theterm[k-1] advance the partial product from k to k - 1 |
| Shamir2.PartialEnd | shamirshare2.py:229-231 | after the sweep down to k = 0, the buffer holds the first n coefficients of theterm * (x - c) |
| Shamir2.MulFactor | shamirshare2.py:229-231 | In place, a buffer whose top entry is 0 becomes the first n coefficients of buffer * (x - c). |
| Shamir2.TermBufferIsTerm | shamirshare2.py:226-232 | After the factors for j < m, theterm holds exactly the term polynomial of `shamirshare.py`, padded to n coefficients. |
| Shamir2.TermBufferRoom | shamirshare2.py:228-231 | before each multiplication the top entry of theterm is 0, so nothing is lost off the top of the buffer |
| Shamir2.NewTerm | shamirshare2.py:226 | theterm starts as [1, 0, ..., 0] of length n |
| Shamir2.TermStep | shamirshare2.py:228-232 | one turn j of the middle loop: theterm is multiplied by (x - x_j), and theprod by (x_i - x_j) when j != i |
| Shamir2.BuildTerm | shamirshare2.py:226-232 | after all j, theterm is the buffer for node i, and theprod is the weight of node i |
| Shamir2.PolyBufferIsAccumulate | shamirshare2.py:222-235 | after m turns of the outer loop, thepoly fails exactly when the running sum of `shamirshare.py` fails; otherwise it is that sum padded to n coefficients |
| Shamir2.PolyBufferErrStays | shamirshare2.py:233 | once a division by zero has happened, later turns keep that error |
| Shamir2.SummandCoefficient | shamirshare2.py:233-235 | coefficient k of summand i is theterm[k] times yvals[i] / theprod |
| Shamir2.NewPoly | shamirshare2.py:222 | thepoly starts as n zeros |
| Shamir2.AddScaled | shamirshare2.py:234-235 | in place, thepoly[k] becomes thepoly[k] + theterm[k] * theprod for every k |
| Shamir2.AddPoint | shamirshare2.py:226-235 | one turn i of the outer loop advances thepoly from the state after i points to the state after i + 1, or raises ZeroDivisionError when theprod is 0 |
| Shamir2.Interpolate | shamirshare2.py:225-236 | the outer loop leaves thepoly as the state after all n points, or raises the first ZeroDivisionError |
| Shamir2.Fit | shamirshare2.py:213-236 | Without an explicit field, the field of the first y value is used; with no points that read raises IndexError. Otherwise the result is Fit2Spec: exactly n coefficients in the field, or ZeroDivisionError. |
| Shamir2.FitsAgree | shamirshare2.py:213-236 | The two fits fail together. When they succeed, the rewrite's list is `shamirshare.py`'s polynomial padded to n coefficients, and trimming it gives that polynomial back. |
| Shamir2.Fit2ErrIffDuplicate | shamirshare2.py:232-233 | in a field, the rewrite raises ZeroDivisionError exactly when two x values coincide |
| Shamir2.Fit2Interpolates | shamirshare2.py:215-218 | for distinct x values, eval(fit(points), x_i) == y_i for every i |
| Shamir2.Eval | shamirshare2.py:238-243 | An empty list raises IndexError. Otherwise the Horner loop returns the sum of poly[k] * x^k. |
| Recovery.QuotientValue | shamirshare.py:609-611 | Synthetic division: c(x) == q(x) * (x - r) + c(r), where q is the quotient of c by (x - r), one coefficient shorter. |
| Recovery.RootCount | shamirshare.py:609-611 | Over a field, a coefficient list that vanishes at more distinct points than it has entries is all zeros. |
| Recovery.Agreement | shamirshare.py:609-611 | Two lists of at most n coefficients that agree at n distinct points have the same coefficients. |
| Recovery.FitRecovers | shamirshare.py:609-611 | The fitted polynomial is the unique one of degree below n: when q, trimmed, has at most n coefficients and takes the n shares at their distinct x values, fit returns exactly trimmed q. |
| Recovery.SharesRecover | shamirshare.py:609-626 | Any n shares of q at distinct x values, with q of degree below n, fit back to q. So every such set of shares gives the same secret q(0). |
| Recovery.Fit2Recovers | shamirshare2.py:213-236 | The list fit of `shamirshare2.py` is unique too: on such shares it returns q's first n coefficients, padded with zeros. |
| WorkedExamples.AesSplitExample | shamirshare.py:22-31 | Over GF(2^8), 0xc7 + 0x34 x + 0xb6 x^2 takes the whole documented split table: the secret 0xc7 at 0, the chosen shares 0x45, 0x41, 0xc3 at 1 to 3, and the new shares 0x82, 0x00, 0x04, 0x86 at 4 to 7. |
| WorkedExamples.AesResplitExample | shamirshare.py:37-42 | 0xab + 0x6e x + 0x80 x^2 keeps the secret 0xab and the shares 0x45, 0x41 of users 1 and 2. It gives users 3 to 7 the documented shares 0xaf, 0xd0, 0x3e, 0x3a, 0xd4. |
| WorkedExamples.TimesSmall | shamirshare.py:214-222 | for x < 8, the byte product a * x needs only the three low bits of x: it is the xtime sum over them |
| WorkedExamples.PrimeFitExample | shamirshare.py:43-51 | over GF(13), [7, 6, 6, 10] takes the documented shares 1 -> 3, 2 -> 6, 3 -> -2, 4 -> 0, and the secret 7 at 0 |
| WorkedExamples.PrimeNewShareExample | shamirshare.py:48-49 | the extra share for user 5 is 7 |
| WorkedExamples.Gf101FitExample | shamirshare2.py:22-25 | over GF(101), [42, 62, 32] takes the shares 1 -> 35, 2 -> 92, 3 -> 11 and the secret 42 at 0 |
| WorkedExamples.Gf101NewSharesExample | shamirshare2.py:26-29 | the new shares for users 4 and 5 are 95 and 41 |
| WorkedFits.AesFit | shamirshare.py:23-27 | fit of (1, '45'), (2, '41'), (3, 'c3') is exactly [c7, 34, b6], and its value at 0 is the secret c7 |
| WorkedFits.AesRefit | shamirshare.py:32-36 | users 2, 4 and 7 recover exactly [c7, 34, b6] from their shares, and so the secret c7 |
| WorkedFits.AesResplitFit | shamirshare.py:37-39 | fit of (0, 'ab'), (1, '45'), (2, '41') is exactly [ab, 6e, 80] |
| WorkedFits.PrimeFit | shamirshare.py:43-47 | over GF(13), fit of (1, 3), (2, 6), (3, -2), (4, 0) is exactly [7, 6, 6, 10] |
| WorkedFits.Gf101Fit | shamirshare2.py:21-25 | over GF(101), fit of 1 -> 35, 2 -> 92, 3 -> 11 is exactly [42, 62, 32] |
| WorkedFits.Gf101Refit | shamirshare2.py:30-34 | users 1, 4 and 5 recover exactly [42, 62, 32], and eval at 0 gives the secret 42 |
## Left out

- GF(2^16) has no code in either file.
- Display code is not modelled: `__format__`, `__str__`, `__int__`, `__index__`, `__hex__` and `__oct__`.
- The Python 2/3 type predicates are not modelled.
- Operator forwarders such as `__add__`, `__radd__`, `__iadd__`, `__mul__` and `__truediv__` are not modelled separately. Each forwards to the modelled add, mul or div.
- Hex-string parsing of GF(2^8) values is not modelled.
- Duck-typed coercion of integers, strings and lists in the element and polynomial methods is not modelled. The NotImplementedError raised for other types is not modelled either.
- Fields.Coerce: a GF(2^8) value is taken to be a byte. `GF8elt.__init__` stores any integer it is given without a range check.
- The field containers are not modelled: `GF8`, `GFp` and the `PolyFieldUniv` constructor. A field is the `Field` datatype instead.
- `PolyFieldUniv.__call__` with an int or string stores the coefficients on the ring and returns None. This is a defect, and the model does not assert it as behaviour.
- `PolyFieldUnivElt.__eq__`, `__ne__`, `__neg__` and `__sub__` are not modelled. `fit` does not use them, and `__ne__` returns the same value as `__eq__`.
- The code never checks that p is prime, and never checks whether two elements come from the same field.
  - A single `Field` parameter is shared by every operand.
  - The laws that need a field (inverses, no zero divisors, interpolation) take `IsPrime(p)` as a precondition.
- The module-level `__trimlist__` and `__addlists__` of `shamirshare2.py` are unused and not modelled. Their `shamirshare.py` twins are modelled.
- Shamir2.Fit: `fit` of `shamirshare2.py` reads the field of the first y value. The model passes that field in as `yfield`, because integers carry no field.
- Shamir2.Fit: the rewrite is written for GF(p) only. The model states it over either field.
- Poly.TrimList: `__trimlist__` deletes the trailing zeros from the caller's own list and returns that list, so `PolyFieldUnivElt(ring, l)` also truncates the caller's `l`. The model trims a copy. Inside the modelled core every call passes a freshly built list, so fit, add and mul compute the same coefficients; only the aliasing of an outside caller's list is not captured.
- Poly.PolyElt.Div: the divisor is taken as a field element. The coercion of an integer or string divisor is left out.
- The GF(2^8) worked examples are written with the bytes as integers (0x45). The hex strings of the documentation ('45') go through the hex-string parsing, which is not modelled.

## Findings

| source | as written | input that shows it | evidently intended | confidence | as-written member | corrected member |
|---|---|---|---|---|---|---|
| shamirshare.py:828-833 | `eval` reads `coeffs[-1]` first, so the zero polynomial, whose trimmed list is empty, raises IndexError. `fit` returns that polynomial whenever every share is 0. | over GF(13), fit the single share (1, 0): Poly.ZeroShareFit proves the result has coefficients `[]`, and evaluating it at 0 raises IndexError | the zero polynomial evaluates to 0 everywhere | medium, not executed | Poly.PolyElt.Eval | Poly.PolyElt.EvalTotal |
