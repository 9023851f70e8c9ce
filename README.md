# Poly: a dense univariate polynomial class, in two variants

The repository implements one C++ class, `Poly`. It stores a polynomial as a degree `grau` and a
heap buffer `a` of `double` coefficients, where `a[i]` is the coefficient of x^i. Degree -1 with no
buffer is the empty polynomial. Degree 0 with `a[0] == 0` is the zero polynomial.

The class exists twice, and the two copies behave differently:

- `Poly/Poly.h` defines every member inline. It keeps polynomials canonical:
  - `Poly(n)` builds x^n, and `Poly(0)` the zero polynomial.
  - Reduction keeps the zero polynomial at degree 0 and reallocates the buffer to `grau + 1` slots.
  - `*` special-cases empty and zero operands and does not reduce its result.
  - `ler` refuses a zero leading coefficient.
  - `operator<<` writes `3*x^2+1`.
- `Poly/Poly.cpp` defines the same members out of line, more loosely:
  - `Poly(n)` for n > 0 is all zeros, and `Poly(0)` is the constant 1.
  - Reduction turns the zero polynomial into the empty one and never shrinks the buffer.
  - `*` accumulates onto the coefficients of `Poly(grau + outro.grau)`.
  - `ler` takes coefficients verbatim but refuses a negative degree.
  - `operator<<` writes `3x^2+1`.

The project has four modules:

- `PolyMath` (`poly_math.dfy`) holds the mathematics shared by both variants:
  - evaluation (Horner's form, proved equal to the power sum Σ c[i]·x^i);
  - the coefficient-wise sum, difference and negation;
  - convolution;
  - the two normal forms the reductions produce: `TrimH` for Poly.h and `StripZeros` for Poly.cpp.
- `PolyText` (`poly_text.dfy`) holds the tokens of a saved file, the result of loading one, and the rendering of numbers.
- `PolyH` (`poly_h.dfy`) is the Poly.h variant.
- `PolyCpp` (`poly_cpp.dfy`) is the Poly.cpp variant.

Each variant is a `class Poly` with the fields `grau: int` and `a: array?<real>`:

- `null` stands for the absent buffer.
- A ghost function `Coeffs()` gives the coefficient sequence the object denotes.
- The class invariant differs between the variants:
  - Poly.h: `Wellformed()` is the buffer shape, and `Valid()` is `Wellformed()` plus a non-zero leading coefficient at degree > 0.
  - Poly.cpp: `Valid()` says degree -1 exactly when there is no buffer, with at least `grau + 1` slots.
- The constructors, `ler`, `setCoef`, the assignments and `reduzirGrau` update the fields in place.
- The arithmetic operators fill the fresh result's array in loops.
- `+`, `-`, unary `-` and `getValor` are specified against the `PolyMath` functions, whose
  properties are proved as lemmas.
- The other methods are specified against functions of their own module:
  - `*` against `MulSpec` in Poly.h and `MulAsWritten` in Poly.cpp, both built on `PolyMath.Conv`;
  - `operator<<` (`Format`, `AppendTerm`, `WriteTerm`) against `Text`, `TermsFrom` and `TermText`;
  - `salvar` against `Saved`, and `ler` against `Load`;
  - `Poly(n)` and `recriar` against `Monomial` in Poly.h and `Initial` in Poly.cpp.

Saving and loading work on a sequence of tokens: the word `POLY`, the degree, then numbers. Text
output is a `string`.

Where the two files disagree, each module follows its own file. Three behaviours are modelled as
written:

- `Poly(n)` in Poly.cpp (Poly/Poly.cpp:10-24).
- The unreduced result of Poly.h's `*`: Poly/Poly.h:425-453 never calls `reduzirGrau`.
- Poly.cpp's collapse of the zero polynomial to the empty one (Poly/Poly.cpp:283-287).

## Model

| member | source | states |
|---|---|---|
| PolyMath.EvalIsPowerSum | Poly/Poly.h:159-166 | the value of a coefficient sequence is the power sum of c[i]·x^i, the running sum getValor adds up term by term |
| PolyMath.EvalAdd | Poly/Poly.h:378-380 | the coefficient-wise sum of zero-padded operands evaluates to the sum of their values, for every x |
| PolyMath.EvalNeg | Poly/Poly.h:360-362 | negating every coefficient negates the value |
| PolyMath.EvalSub | Poly/Poly.h:399-401 | the coefficient-wise difference evaluates to the difference of the values |
| PolyMath.SubIsAddNeg | Poly/Poly.cpp:259-261 | a coefficient-wise difference equals the sum with the negation, so `a - b` and `a + (-b)` agree |
| PolyMath.AddCommutes | Poly/Poly.h:378-380 | the coefficient-wise sum is commutative |
| PolyMath.AddEmpty | Poly/Poly.h:374-380 | the empty polynomial is an identity of the coefficient-wise sum on either side |
| PolyMath.AddLength | Poly/Poly.h:374-375 | the sum buffer has max(grau, outro.grau) + 1 slots |
| PolyMath.NegInvolutive | Poly/Poly.h:360-362 | negating twice gives back the original coefficients |
| PolyMath.AddNegIsZero | Poly/Poly.cpp:251-253 | p + (-p) has p's length and only zero coefficients |
| PolyMath.CoefConv | Poly/Poly.h:446-450 | every coefficient of the product, inside or outside its range, is the full sum of p[i]·q[k-i] over the rows of the product table |
| PolyMath.PartialConvStep | Poly/Poly.h:448 | one `+=` adds p[i]·q[j] to coefficient i + j and leaves every other coefficient unchanged |
| PolyMath.ConvLeading | Poly/Poly.h:437-450 | the product of non-empty operands has degree grau + outro.grau, and its leading coefficient is the product of the leading coefficients |
| PolyMath.EvalConv | Poly/Poly.h:446-450 | the convolution of the coefficients evaluates to the product of the values, for every x |
| PolyMath.TrimH | Poly/Poly.h:410-412 | Poly.h's reduction keeps a prefix, never empties a non-empty polynomial, yields a canonical polynomial, and drops only zero coefficients |
| PolyMath.TrimHCanonical | Poly/Poly.h:410-412 | reducing an already canonical polynomial changes nothing |
| PolyMath.EvalTrimH | Poly/Poly.h:409-422 | Poly.h's reduction does not change the value |
| PolyMath.StripZeros | Poly/Poly.cpp:280-287 | Poly.cpp's reduction keeps a prefix whose top coefficient, if any, is non-zero, and drops only zero coefficients |
| PolyMath.EvalStripZeros | Poly/Poly.cpp:279-288 | Poly.cpp's reduction does not change the value |
| PolyMath.StripZerosEmpty | Poly/Poly.cpp:283-287 | Poly.cpp's reduction yields the empty polynomial exactly when every coefficient is zero |
| PolyText.ReadInt | Poly/Poly.h:297 | reading an `int` succeeds exactly on a number token with an integral value, and yields that value |
| PolyText.Coefficients | Poly/Poly.h:319-324 | the n numbers after the header are read into a sequence of n values, which written back are those tokens |
| PolyText.CoefficientsOfNums | Poly/Poly.h:270-275 | the coefficients written as number tokens after a two-token header are read back as the same coefficients |
| PolyText.NumStr | Poly/Poly.h:200 | the text of a non-negative magnitude is non-empty and starts with a digit |
| PolyH.Poly.constructor | Poly/Poly.h:12 | `Poly()` is the empty polynomial, without a buffer |
| PolyH.Poly.OfDegree | Poly/Poly.h:15-31 | `Poly(n)` is empty for n < 0, the zero polynomial for n == 0, and x^n (a[n] == 1, all lower coefficients 0) for n > 0; the result is canonical |
| PolyH.Poly.Copy | Poly/Poly.h:34-41 | the copy has the same degree and coefficients, in a buffer of its own |
| PolyH.Poly.Move | Poly/Poly.h:44-47 | the new object takes over degree and buffer, and the source becomes empty |
| PolyH.Poly.Assign | Poly/Poly.h:55-70 | after `=` the object has p's degree and coefficients in a fresh buffer; self-assignment changes nothing |
| PolyH.Poly.MoveAssign | Poly/Poly.h:73-84 | after move `=` the object holds p's degree and buffer and p is empty; self-assignment changes nothing |
| PolyH.Poly.Recriar | Poly/Poly.h:121-124 | `recriar(n)` gives the object the value of `Poly(n)` |
| PolyH.Poly.GetGrau | Poly/Poly.h:87-92 | the degree is the number of coefficients minus one; the special case for the constant 1 returns the same |
| PolyH.Poly.GetCoef | Poly/Poly.h:95-100 | `getCoef(i)` is a[i] for 0 <= i <= grau and 0 otherwise |
| PolyH.Poly.SetCoef | Poly/Poly.h:103-113 | `setCoef` is refused for i outside [0, grau] and for zeroing the leading coefficient at degree > 0; otherwise only a[i] changes; the invariant is kept |
| PolyH.Poly.Equals | Poly/Poly.h:127-137 | `==` holds exactly when degrees and all coefficients are equal |
| PolyH.Poly.NotEquals | Poly/Poly.h:140-142 | `!=` is the negation of `==` |
| PolyH.Poly.Empty | Poly/Poly.h:145-147 | `empty()` holds exactly for the empty polynomial |
| PolyH.Poly.IsZero | Poly/Poly.h:150-152 | `isZero()` holds exactly when the coefficients are [0] |
| PolyH.Poly.GetValor | Poly/Poly.h:155-167 | `getValor(x)` is the value at x, 0 for the empty polynomial; the loop keeps resultado == Σ_{k<i} a[k]·x^k and potX == x^i |
| PolyH.Poly.Format | Poly/Poly.h:175-218 | `operator<<` writes the terms from the highest power down, nothing for the empty polynomial |
| PolyH.Poly.AppendTerm | Poly/Poly.h:180-214 | one pass of the loop: the term of power i, appended after the text of the higher powers, gives the text from power i up |
| PolyH.WriteTerm | Poly/Poly.h:181-214 | one term: nothing for a zero coefficient unless it is the whole zero polynomial; the sign, the magnitude unless it is ±1 above power 0, `*` only after a magnitude, `x`, `^i` above power 1 |
| PolyH.Poly.Salvar | Poly/Poly.h:253-281 | `salvar` writes POLY, the degree, then the coefficients from power 0 up, or the single number 0 for an empty or all-zero polynomial |
| PolyH.Poly.Ler | Poly/Poly.h:293-350 | `ler` succeeds exactly when the tokens load; on success the object holds the loaded coefficients, and on failure it is unchanged |
| PolyH.Poly.Neg | Poly/Poly.h:354-364 | unary `-` has the same degree with every coefficient negated, the empty polynomial staying empty; canonical stays canonical |
| PolyH.Poly.Add | Poly/Poly.h:367-385 | `+` is empty for two empty operands and otherwise the reduced coefficient-wise sum over [0, max degree]; the result is canonical |
| PolyH.Poly.Sub | Poly/Poly.h:388-406 | binary `-` is empty for two empty operands and otherwise the reduced coefficient-wise difference; the result is canonical |
| PolyH.Poly.SumBuffer | Poly/Poly.h:374-380 | the loop of `+` and `-` leaves getCoef(i) ± outro.getCoef(i) at every i up to the larger degree |
| PolyH.Poly.FillSum | Poly/Poly.h:378-380 | the for loop writes getCoef(i) ± outro.getCoef(i) into every slot of the new buffer, which then holds the coefficient-wise sum or difference |
| PolyH.Poly.ReduzirGrau | Poly/Poly.h:409-422 | `reduzirGrau` leaves the trimmed coefficients, canonical, in a fresh buffer of exactly grau + 1 slots |
| PolyH.Poly.LowerDegree | Poly/Poly.h:410-412 | the while loop stops at degree 0 or at a non-zero coefficient, keeps the buffer, and does not change what trimming yields |
| PolyH.CopyPrefix | Poly/Poly.h:415-418 | the new buffer has n slots holding the first n old coefficients |
| PolyH.Poly.Mul | Poly/Poly.h:425-453 | `*` is empty with an empty operand, the zero polynomial with a zero operand, and otherwise the convolution at degree grau + outro.grau; canonical operands give a canonical result |
| PolyH.Poly.Product | Poly/Poly.h:437-450 | the general case of `*` yields exactly the convolution of the coefficients |
| PolyH.Poly.AccumulateProducts | Poly/Poly.h:446-450 | the nested loop turns a cleared buffer into the convolution |
| PolyH.Poly.AccumulateRow | Poly/Poly.h:447-449 | one pass of the outer loop adds row i of the product table to the buffer |
| PolyH.MulCanonical | Poly/Poly.h:437-450 | with canonical operands the product is canonical without a reduction, and in the general case its degree is the sum of the degrees |
| PolyH.MonomialEval | Poly/Poly.h:25-29 | `Poly(n)` for n > 0 evaluates to x^n |
| PolyH.EvalAddH | Poly/Poly.h:367-385 | the value of `p + q` is the sum of the values |
| PolyH.EvalSubH | Poly/Poly.h:388-406 | the value of `p - q` is the difference of the values |
| PolyH.AddAlgebraH | Poly/Poly.h:367-385 | `+` is commutative, never raises the degree above the larger operand's, and has the empty polynomial as identity on canonical operands |
| PolyH.SubSelfH | Poly/Poly.h:388-406 | `p - p` is the zero polynomial for every non-empty p |
| PolyH.NegH | Poly/Poly.h:354-364 | unary `-` keeps the degree and canonical form, and undoes itself |
| PolyH.EvalMulH | Poly/Poly.h:425-453 | in every branch of `*`, the value of the product is the product of the values |
| PolyH.MulExample | Poly/Poly.h:425-453 | (x - 1)·(x + 1) has the coefficients -1, 0, 1 |
| PolyH.TextOfConstants | Poly/Poly.h:176-189 | the empty polynomial prints nothing and the zero polynomial prints `0` |
| PolyH.TextOfSquare | Poly/Poly.h:180-215 | [1, 0, 3] prints `3*x^2+1` |
| PolyH.TextOfCube | Poly/Poly.h:198-213 | [-1, 0, 0, -1] prints `-x^3-1`, leaving out magnitudes of 1 above power 0 |
| PolyH.TermsFromStartsWithLeading | Poly/Poly.h:180-181 | the text starts with the term of the highest power |
| PolyH.TermsFromKeepsPrefix | Poly/Poly.h:180-214 | the loop writes the lower powers after the higher ones, so whatever the text from power k begins with, the text from any lower power begins with too |
| PolyH.LeadTermShape | Poly/Poly.h:191-201 | a non-zero leading term is non-empty, carries no `+`, and starts with `-` exactly for a negative coefficient |
| PolyH.TextLeading | Poly/Poly.h:191-196 | a non-zero canonical polynomial prints non-empty text with no leading `+` that starts with `-` exactly when the leading coefficient is negative |
| PolyH.TermTextZero | Poly/Poly.h:184-188 | a zero coefficient prints nothing unless it is the whole zero polynomial |
| PolyH.SaveLoad | Poly/Poly.h:247-351 | saving then loading restores the empty polynomial and every polynomial with a non-zero leading coefficient |
| PolyH.SaveLoadZeroRejected | Poly/Poly.h:267-268 | the zero polynomial is saved as POLY 0 / 0, and loading that refuses it for its zero leading coefficient |
| PolyH.LoadLeadingZeroExample | Poly/Poly.h:326-330 | a file `POLY 2` with coefficients 0 0 0 is refused for its zero leading coefficient |
| PolyH.LoadResultShape | Poly/Poly.h:326-343 | what loads is canonical and never the zero polynomial; the all-zero refusal is never the reason for a failure |
| PolyH.SaveLoadIntended | Poly/Poly.h:332-343 | with the leading-zero and the all-zero check both applied only at degree > 0, every canonical polynomial, zero included, survives saving and loading |
| PolyH.LoadIntendedCanonical | Poly/Poly.h:326-343 | with the corrected checks, what loads is still canonical, and the all-zero refusal is still never reached |
| PolyCpp.Poly.constructor | Poly/Poly.cpp:7 | `Poly()` is the empty polynomial, without a buffer |
| PolyCpp.Poly.OfDegree | Poly/Poly.cpp:10-24 | `Poly(n)` is empty for n < 0, the constant 1 for n == 0, and n + 1 zeros for n > 0, in a buffer of grau + 1 slots |
| PolyCpp.Poly.Copy | Poly/Poly.cpp:27-34 | the copy has the same degree and a[0..grau], in a buffer of exactly grau + 1 slots |
| PolyCpp.Poly.Move | Poly/Poly.cpp:37-40 | the new object takes over degree and buffer, and the source becomes empty |
| PolyCpp.Poly.Assign | Poly/Poly.cpp:48-62 | after `=` the object has p's degree and coefficients in a fresh buffer; self-assignment changes nothing |
| PolyCpp.Poly.MoveAssign | Poly/Poly.cpp:65-74 | after move `=` the object holds p's degree and buffer and p is empty; self-assignment changes nothing |
| PolyCpp.Poly.Recriar | Poly/Poly.cpp:108-110 | `recriar(n)` gives the object the value of `Poly(n)` |
| PolyCpp.Poly.GetGrau | Poly/Poly.cpp:77-79 | the degree is the number of coefficients minus one |
| PolyCpp.Poly.GetCoef | Poly/Poly.cpp:82-87 | `getCoef(i)` is a[i] for 0 <= i <= grau and 0 otherwise |
| PolyCpp.Poly.SetCoef | Poly/Poly.cpp:90-100 | `setCoef` is refused for i outside [0, grau] and for zeroing the leading coefficient at degree > 0; otherwise only a[i] changes; a canonical polynomial stays canonical |
| PolyCpp.Poly.Equals | Poly/Poly.cpp:113-123 | `==` holds exactly when degrees and a[0..grau] are equal |
| PolyCpp.Poly.NotEquals | Poly/Poly.cpp:126-128 | `!=` is the negation of `==` |
| PolyCpp.Poly.Empty | Poly/Poly.cpp:131-133 | `empty()` holds exactly for the empty polynomial |
| PolyCpp.Poly.IsZero | Poly/Poly.cpp:136-138 | `isZero()` holds exactly when the coefficients are [0] |
| PolyCpp.Poly.GetValor | Poly/Poly.cpp:141-152 | `getValor(x)` is the value at x, 0 for the empty polynomial; the loop keeps resultado == Σ_{k<i} a[k]·x^k and potX == x^i |
| PolyCpp.Poly.Format | Poly/Poly.cpp:160-185 | `operator<<` writes the terms from the highest power down, nothing for the empty polynomial |
| PolyCpp.Poly.AppendTerm | Poly/Poly.cpp:164-183 | one pass of the loop: the term of power i, appended after the text of the higher powers, gives the text from power i up |
| PolyCpp.WriteTerm | Poly/Poly.cpp:165-182 | one term: nothing for a zero coefficient; otherwise the sign, the magnitude unless it is ±1 above power 0, `x`, `^i` above power 1, with no `*` |
| PolyCpp.Poly.Salvar | Poly/Poly.cpp:197-211 | `salvar` writes POLY, grau, then a[0..grau] |
| PolyCpp.Poly.Ler | Poly/Poly.cpp:214-236 | `ler` succeeds exactly when the tokens load; on success the object holds the coefficients verbatim in a fresh buffer, and on failure it is unchanged |
| PolyCpp.Poly.Neg | Poly/Poly.cpp:239-245 | unary `-` is a copy with a[0..grau] negated, the empty polynomial staying empty |
| PolyCpp.Poly.Add | Poly/Poly.cpp:248-256 | `+` is the coefficient-wise sum over [0, max degree], reduced |
| PolyCpp.Poly.SumBuffer | Poly/Poly.cpp:249-253 | the loop of `+` leaves getCoef(i) + outro.getCoef(i) at every i up to the larger degree |
| PolyCpp.Poly.FillSum | Poly/Poly.cpp:251-253 | the for loop writes getCoef(i) + outro.getCoef(i) into every slot of the new buffer, which then holds the coefficient-wise sum |
| PolyCpp.Poly.Sub | Poly/Poly.cpp:259-261 | binary `-` is `this + (-outro)`: the reduced sum with the negation |
| PolyCpp.Poly.AddNegated | Poly/Poly.cpp:259-261 | the sum with an operand already holding the negated coefficients is the reduced sum with the negation |
| PolyCpp.Poly.Mul | Poly/Poly.cpp:264-276 | `*` is empty with an empty operand and otherwise the reduction of Poly(grau + outro.grau)'s coefficients plus the convolution |
| PolyCpp.Poly.MulNonEmpty | Poly/Poly.cpp:268-275 | for non-empty operands, the convolution is accumulated onto Poly(grau + outro.grau) and then reduced |
| PolyCpp.Poly.Accumulated | Poly/Poly.cpp:268-273 | before the reduction, the buffer reduces to the as-written product |
| PolyCpp.Poly.AccumulateProducts | Poly/Poly.cpp:269-273 | the nested loop adds the convolution onto the initial coefficients of Poly(grau + outro.grau) |
| PolyCpp.Poly.AccumulateRow | Poly/Poly.cpp:270-272 | one pass of the outer loop adds row i of the product table to the buffer |
| PolyCpp.Poly.ReduzirGrau | Poly/Poly.cpp:279-288 | `reduzirGrau` leaves the coefficients with every zero leading coefficient stripped, so a zero constant becomes empty; the buffer is kept or dropped, never shrunk |
| PolyCpp.Poly.LowerDegree | Poly/Poly.cpp:280-282 | the while loop stops at degree 0 or at a non-zero coefficient, keeps the buffer, and does not change what the reduction yields |
| PolyCpp.Poly.LoweredDegree | Poly/Poly.cpp:280-282 | the while loop stops at degree 0 or at a non-zero coefficient, every coefficient it stepped past is zero, and it reaches -1 only from the empty polynomial |
| PolyCpp.AccumulatedProduct | Poly/Poly.cpp:268-273 | a buffer holding the initial value plus every row of the product table is the initial coefficients plus the convolution |
| PolyCpp.StripZeroTail | Poly/Poly.cpp:280-287 | dropping zero coefficients from the top does not change what the reduction yields |
| PolyCpp.InitialShape | Poly/Poly.cpp:10-24 | `Poly(n)` for n > 0 is all zeros, so not canonical; `Poly(0)` has the single coefficient 1, and so the value 1 |
| PolyCpp.InitialIsConstant | Poly/Poly.cpp:17-22 | every coefficient of Poly(n) has one value: 1 when n == 0, otherwise 0 |
| PolyCpp.StripZerosShape | Poly/Poly.cpp:279-288 | reduction yields the empty polynomial (exactly when all coefficients are zero) or a canonical one, and a second reduction changes nothing |
| PolyCpp.EvalAddCpp | Poly/Poly.cpp:248-256 | the value of `p + q` is the sum of the values |
| PolyCpp.AddAlgebraCpp | Poly/Poly.cpp:248-256 | `+` is commutative, p + (-p) is empty, and empty + empty is empty |
| PolyCpp.SubCpp | Poly/Poly.cpp:259-261 | `p + (-q)` is the reduced coefficient-wise difference, and its value is the difference of the values |
| PolyCpp.MulAsWrittenAgrees | Poly/Poly.cpp:264-276 | when the degrees add up to more than 0, `*` computes the reduced convolution |
| PolyCpp.MulConstantsAsWritten | Poly/Poly.cpp:20-22 | for two constants a0 and b0, `*` yields the reduction of 1 + a0·b0 |
| PolyCpp.MulConstantsExamples | Poly/Poly.cpp:264-276 | 2 · 3 gives 7 where the product is 6, 0 · 0 gives the constant 1, and 1 · -1 gives the empty polynomial |
| PolyCpp.EvalMulIntended | Poly/Poly.cpp:264-276 | the corrected product evaluates to the product of the values |
| PolyCpp.TextOfConstants | Poly/Poly.cpp:161-168 | the empty and the zero polynomial both print nothing |
| PolyCpp.TextOfSquare | Poly/Poly.cpp:164-183 | [1, 0, 3] prints `3x^2+1` |
| PolyCpp.TextOfUntrimmed | Poly/Poly.cpp:169-173 | [1, 0, 0] prints `+1` and [-1, 0, 0] prints `-1`: with zero top coefficients a positive first written term keeps its `+` |
| PolyCpp.TextUntrimmedPlus | Poly/Poly.cpp:164-173 | whenever every coefficient above power k is zero, k is below grau and a[k] is positive, the text starts with `+` |
| PolyCpp.TermsFromKeepsPrefix | Poly/Poly.cpp:164-183 | the loop writes the lower powers after the higher ones, so whatever the text from power k begins with, the text from any lower power begins with too |
| PolyCpp.TextEmptyIffAllZero | Poly/Poly.cpp:164-168 | the text is empty exactly when every coefficient is zero |
| PolyCpp.TermBodyNonEmpty | Poly/Poly.cpp:174-182 | a non-zero term always writes a magnitude or an `x` |
| PolyCpp.SaveLoad | Poly/Poly.cpp:197-236 | saving then loading restores every non-empty polynomial verbatim, leading zeros included |
| PolyCpp.SaveLoadEmptyRejected | Poly/Poly.cpp:222-224 | the empty polynomial is saved as POLY -1, and loading that refuses it for its negative degree |
| PolyCpp.LoadNonEmpty | Poly/Poly.cpp:222-235 | what loads is never the empty polynomial |

## Left out

- Floating point: coefficients are `real`. Rounding in `getValor` and in the convolution is not modelled, nor are overflow, underflow, NaN and `-0.0`. The source compares with `==`/`!=`, which the model reads as exact equality.
- `int` width: degrees and indices are unbounded integers. The source overflows `grau + outro.grau` and `grau + 1` only near `INT_MAX`.
- Decimal text: `operator<<` and `salvar` write numbers with the stream's default precision, and `ler` parses them back. The model treats a saved file as tokens (a word, or a number with the value it denotes), so the round trips hold at token level.
- PolyText.NumStr: integral magnitudes are rendered exactly. Other magnitudes get the integral part, a point and up to six truncated fraction digits, which is not the stream's six significant digits with rounding.
- PolyText.ReadInt: a degree token with a fractional part fails the read. The stream would read its integral part and leave the rest for the next extraction.
- Opening the file, and the failure when it cannot be opened, are I/O and not modelled (Poly/Poly.h:248-251 and 288-291, Poly/Poly.cpp:198-201 and 215-218). `Salvar` returns the tokens, and `Ler` takes them.
- `operator>>` (Poly/Poly.h:221-244, Poly/Poly.cpp:188-194) is not modelled. It is interactive console input with prompts.
- Console messages from `setCoef` are not modelled. The model returns `false` where the source prints an error and changes nothing.
- Manual memory management is not modelled: `delete[]`, the destructor (Poly/Poly.h:50-52, Poly/Poly.cpp:43-45), and the `!coefTemp` check that cannot fail (Poly/Poly.h:314-316). Fresh Dafny arrays and "the source becomes empty" stand in for ownership.
- `operator[]` and `operator()` forward to `getCoef` and `getValor`, and are covered by those rows.
- The two files cannot be built together, because Poly.cpp redefines members that Poly.h defines inline. They are modelled as two separate variants.

## Findings

| source | as written | input that shows it | evidently intended | confidence | as-written member | corrected member |
|---|---|---|---|---|---|---|
| Poly/Poly.cpp:264-276 | `*` accumulates onto `Poly(grau + outro.grau)`, whose only coefficient is 1 when both operands are constants (Poly/Poly.cpp:20-22), so the product of two constants is 1 + a0·b0 | `Poly` 2 times `Poly` 3 gives 7; 0 times 0 gives 1; 1 times -1 gives 1 + (-1) = 0, which `reduzirGrau` (Poly/Poly.cpp:283-287) collapses to the empty polynomial | the reduced convolution, 6 for 2 · 3 | not executed | PolyCpp.MulConstantsAsWritten | PolyCpp.EvalMulIntended |
| Poly/Poly.h:327-330 | `salvar` writes the zero polynomial as `POLY 0` / `0` (Poly/Poly.h:267-268), but `ler` refuses a zero leading coefficient even at degree 0 | the zero polynomial: saved, then loaded, fails | both zero checks apply only at degree > 0, so the zero polynomial survives the round trip: the all-zero check's comments (Poly/Poly.h:332, 342) limit it to degree > 0, and `salvar`'s comment (Poly/Poly.h:266) says the zero polynomial is saved as degree 0 with coefficient 0. The correction leaves the all-zero check unreachable, as it is as written; it is kept to mirror the source | not executed | PolyH.SaveLoadZeroRejected | PolyH.SaveLoadIntended |
