/** The mathematics behind both variants of the polynomial class.
    A coefficient sequence `c` stands for the polynomial c[0] + c[1]*x + ... + c[|c|-1]*x^(|c|-1),
    the way the class's buffer `a` holds a[i], the coefficient of x^i. The empty sequence is the
    empty polynomial (degree -1). */
module PolyMath {

  function Max(m: int, n: int): int { if m < n then n else m }

  /** x^n, by repeated multiplication. */
  function Pow(x: real, n: nat): real
  {
    if n == 0 then 1.0 else Pow(x, n - 1) * x
  }

  lemma PowNext(x: real, n: nat)
    ensures Pow(x, n + 1) == Pow(x, n) * x
  {
  }

  /** The coefficient of x^i, zero outside the stored range: the meaning of `getCoef`. */
  function Coef(c: seq<real>, i: int): real
  {
    if 0 <= i < |c| then c[i] else 0.0
  }

  /** The terms from power i up, in Horner's form and divided by x^i:
      c[i] + x * (c[i+1] + x * (c[i+2] + ...)). */
  function HornerFrom(c: seq<real>, i: nat, x: real): real
    decreases |c| - i
  {
    if i >= |c| then 0.0 else c[i] + x * HornerFrom(c, i + 1, x)
  }

  /** The value of the polynomial at x: the sum of c[i] * x^i, in Horner's form. */
  function Eval(c: seq<real>, x: real): real
  {
    HornerFrom(c, 0, x)
  }

  lemma HornerNext(c: seq<real>, i: nat, x: real)
    ensures HornerFrom(c, i, x) == Coef(c, i) + x * HornerFrom(c, i + 1, x)
  {
  }

  lemma HornerPastEnd(c: seq<real>, i: nat, x: real)
    requires i >= |c|
    ensures HornerFrom(c, i, x) == 0.0
  {
  }

  // ---------------------------------------------------------------------------------------------
  // Evaluation depends only on the zero-padded coefficients, and linearly on them.

  /** Coefficient-wise summing sequences have summing values. */
  lemma {:induction false} HornerSplit(s: seq<real>, u: seq<real>, v: seq<real>, i: nat, x: real)
    requires forall k :: i <= k ==> Coef(s, k) == Coef(u, k) + Coef(v, k)
    ensures HornerFrom(s, i, x) == HornerFrom(u, i, x) + HornerFrom(v, i, x)
    decreases |s| + |u| + |v| - i
  {
    if i >= |s| && i >= |u| && i >= |v| {
      HornerPastEnd(s, i, x);
      HornerPastEnd(u, i, x);
      HornerPastEnd(v, i, x);
      ZeroSum(HornerFrom(s, i, x), HornerFrom(u, i, x), HornerFrom(v, i, x));
    } else {
      HornerSplit(s, u, v, i + 1, x);
      HornerNext(s, i, x);
      HornerNext(u, i, x);
      HornerNext(v, i, x);
      SplitAlgebra(Coef(s, i), Coef(u, i), Coef(v, i), x,
        HornerFrom(s, i + 1, x), HornerFrom(u, i + 1, x), HornerFrom(v, i + 1, x));
    }
  }

  lemma ZeroSum(a: real, b: real, c: real)
    requires a == 0.0 && b == 0.0 && c == 0.0
    ensures a == b + c
  {
  }

  lemma SplitAlgebra(s0: real, u0: real, v0: real, x: real, hs: real, hu: real, hv: real)
    requires s0 == u0 + v0 && hs == hu + hv
    ensures s0 + x * hs == (u0 + x * hu) + (v0 + x * hv)
  {
  }

  /** Scaling every coefficient by t scales the value by t. */
  lemma {:induction false} HornerScale(s: seq<real>, u: seq<real>, t: real, i: nat, x: real)
    requires forall k :: i <= k ==> Coef(s, k) == t * Coef(u, k)
    ensures HornerFrom(s, i, x) == t * HornerFrom(u, i, x)
    decreases |s| + |u| - i
  {
    if i >= |s| && i >= |u| {
      HornerPastEnd(s, i, x);
      HornerPastEnd(u, i, x);
    } else {
      HornerScale(s, u, t, i + 1, x);
      HornerNext(s, i, x);
      HornerNext(u, i, x);
      ScaleAlgebra(Coef(s, i), Coef(u, i), t, x, HornerFrom(s, i + 1, x), HornerFrom(u, i + 1, x));
    }
  }

  lemma ScaleAlgebra(s0: real, u0: real, t: real, x: real, hs: real, hu: real)
    requires s0 == t * u0 && hs == t * hu
    ensures s0 + x * hs == t * (u0 + x * hu)
  {
  }

  /** Coefficients moved up one power, read one power higher, give the same value. */
  lemma {:induction false} HornerShift(s: seq<real>, u: seq<real>, i: nat, x: real)
    requires forall k :: i <= k ==> Coef(s, k + 1) == Coef(u, k)
    ensures HornerFrom(s, i + 1, x) == HornerFrom(u, i, x)
    decreases |s| + |u| - i
  {
    if i + 1 >= |s| && i >= |u| {
      HornerPastEnd(s, i + 1, x);
      HornerPastEnd(u, i, x);
    } else {
      HornerShift(s, u, i + 1, x);
      HornerNext(s, i + 1, x);
      HornerNext(u, i, x);
    }
  }

  /** Dropping trailing zero coefficients does not change the value. */
  lemma EvalDropZeros(c: seq<real>, r: seq<real>, x: real)
    requires |r| <= |c| && r == c[..|r|]
    requires forall k :: |r| <= k < |c| ==> c[k] == 0.0
    ensures Eval(r, x) == Eval(c, x)
  {
    HornerSplit(c, r, [], 0, x);
    HornerPastEnd([], 0, x);
  }

  // ---------------------------------------------------------------------------------------------
  // Horner's form against the power sum, the way getValor adds the terms up.

  /** The power sum c[0] * x^0 + ... + c[n-1] * x^(n-1) of the first n terms. */
  function PowerSum(c: seq<real>, n: nat, x: real): real
    requires n <= |c|
  {
    if n == 0 then 0.0 else PowerSum(c, n - 1, x) + c[n - 1] * Pow(x, n - 1)
  }

  /** The first i terms as a power sum plus x^i times the Horner form of the rest make up the
      value. */
  lemma {:induction false} PowerSumRunning(c: seq<real>, i: nat, x: real)
    requires i <= |c|
    ensures PowerSum(c, i, x) + Pow(x, i) * HornerFrom(c, i, x) == Eval(c, x)
    decreases i
  {
    if i == 0 {
      OneTimes(HornerFrom(c, 0, x));
    } else {
      PowerSumRunning(c, i - 1, x);
      PowerSumRunningStep(c, i, x);
    }
  }

  lemma PowerSumRunningStep(c: seq<real>, i: nat, x: real)
    requires 0 < i <= |c|
    requires PowerSum(c, i - 1, x) + Pow(x, i - 1) * HornerFrom(c, i - 1, x) == Eval(c, x)
    ensures PowerSum(c, i, x) + Pow(x, i) * HornerFrom(c, i, x) == Eval(c, x)
  {
    RunningUnfold(c, i, x);
    RunningStep(PowerSum(c, i - 1, x), Pow(x, i - 1), c[i - 1], x, HornerFrom(c, i, x), Eval(c, x),
      PowerSum(c, i, x), Pow(x, i));
  }

  /** The definitions of the power sum, the power and Horner's form, one step back from i. */
  lemma RunningUnfold(c: seq<real>, i: nat, x: real)
    requires 0 < i <= |c|
    ensures PowerSum(c, i, x) == PowerSum(c, i - 1, x) + c[i - 1] * Pow(x, i - 1)
    ensures Pow(x, i) == Pow(x, i - 1) * x
    ensures HornerFrom(c, i - 1, x) == c[i - 1] + x * HornerFrom(c, i, x)
  {
  }

  lemma OneTimes(h: real)
    ensures 0.0 + 1.0 * h == h
  {
  }

  /** Moving the term cn * w of the rest, c[i] + x * (...), over to the running sum. */
  lemma RunningStep(sum: real, w: real, cn: real, x: real, h: real, e: real, sum': real, w': real)
    requires sum + w * (cn + x * h) == e
    requires sum' == sum + cn * w && w' == w * x
    ensures sum' + w' * h == e
  {
  }

  /** Horner's form and the power sum agree: the value is the sum of c[i] * x^i. */
  lemma EvalIsPowerSum(c: seq<real>, x: real)
    ensures Eval(c, x) == PowerSum(c, |c|, x)
  {
    PowerSumRunning(c, |c|, x);
    HornerPastEnd(c, |c|, x);
  }

  // ---------------------------------------------------------------------------------------------
  // Coefficient-wise operations.

  /** Coefficient-wise sum over [0, max degree], operands padded with zeros. */
  function AddSpec(p: seq<real>, q: seq<real>): seq<real>
  {
    seq(Max(|p|, |q|), i => Coef(p, i) + Coef(q, i))
  }

  /** Coefficient-wise difference over [0, max degree], operands padded with zeros. */
  function SubSpec(p: seq<real>, q: seq<real>): seq<real>
  {
    seq(Max(|p|, |q|), i => Coef(p, i) - Coef(q, i))
  }

  /** Every coefficient negated, length kept. */
  function NegSpec(c: seq<real>): seq<real>
  {
    seq(|c|, i requires 0 <= i < |c| => -c[i])
  }

  lemma AddCommutes(p: seq<real>, q: seq<real>)
    ensures AddSpec(p, q) == AddSpec(q, p)
  {
  }

  /** The empty polynomial is an identity of the coefficient-wise sum, on either side. */
  lemma AddEmpty(c: seq<real>)
    ensures AddSpec(c, []) == c && AddSpec([], c) == c
  {
  }

  lemma AddLength(p: seq<real>, q: seq<real>)
    ensures |AddSpec(p, q)| == Max(|p|, |q|)
  {
  }

  /** Subtracting coefficient-wise is adding the negation. */
  lemma SubIsAddNeg(p: seq<real>, q: seq<real>)
    ensures SubSpec(p, q) == AddSpec(p, NegSpec(q))
  {
  }

  lemma NegInvolutive(c: seq<real>)
    ensures NegSpec(NegSpec(c)) == c
  {
  }

  /** p + (-p) has only zero coefficients. */
  lemma AddNegIsZero(c: seq<real>)
    ensures |AddSpec(c, NegSpec(c))| == |c|
    ensures forall i :: 0 <= i < |c| ==> AddSpec(c, NegSpec(c))[i] == 0.0
  {
  }

  lemma EvalAdd(p: seq<real>, q: seq<real>, x: real)
    ensures Eval(AddSpec(p, q), x) == Eval(p, x) + Eval(q, x)
  {
    HornerSplit(AddSpec(p, q), p, q, 0, x);
  }

  lemma EvalNeg(c: seq<real>, x: real)
    ensures Eval(NegSpec(c), x) == -Eval(c, x)
  {
    HornerScale(NegSpec(c), c, -1.0, 0, x);
  }

  lemma EvalSub(p: seq<real>, q: seq<real>, x: real)
    ensures Eval(SubSpec(p, q), x) == Eval(p, x) - Eval(q, x)
  {
    SubIsAddNeg(p, q);
    EvalAdd(p, NegSpec(q), x);
    EvalNeg(q, x);
  }

  // ---------------------------------------------------------------------------------------------
  // Convolution: the coefficients of a product.

  /** The contribution of the rows i < n of the product table to coefficient k:
      the sum over i < n of p[i] * q[k-i], with q padded by zeros. */
  function ConvAt(p: seq<real>, q: seq<real>, n: nat, k: int): real
    requires n <= |p|
  {
    if n == 0 then 0.0 else ConvAt(p, q, n - 1, k) + p[n - 1] * Coef(q, k - (n - 1))
  }

  /** The coefficients of the product: for each k, the sum of p[i] * q[j] over i + j == k.
      The product with an empty operand is empty. */
  function Conv(p: seq<real>, q: seq<real>): seq<real>
  {
    if |p| == 0 || |q| == 0 then [] else seq(|p| + |q| - 1, k => ConvAt(p, q, |p|, k))
  }

  /** Rows below n cannot reach a power at or above (n - 1) + |q|, nor a negative one. */
  lemma {:induction false} ConvAtOutside(p: seq<real>, q: seq<real>, n: nat, k: int)
    requires n <= |p|
    requires k < 0 || k >= n - 1 + |q|
    ensures ConvAt(p, q, n, k) == 0.0
  {
    if n > 0 {
      ConvAtOutside(p, q, n - 1, k);
    }
  }

  lemma {:induction false} ConvAtNoRight(p: seq<real>, n: nat, k: int)
    requires n <= |p|
    ensures ConvAt(p, [], n, k) == 0.0
  {
    if n > 0 {
      ConvAtNoRight(p, n - 1, k);
    }
  }

  /** Every coefficient of Conv, in range or not, is the full row sum. */
  lemma CoefConv(p: seq<real>, q: seq<real>, k: int)
    ensures Coef(Conv(p, q), k) == ConvAt(p, q, |p|, k)
  {
    if |q| == 0 {
      ConvAtNoRight(p, |p|, k);
    } else if |p| > 0 && !(0 <= k < |p| + |q| - 1) {
      ConvAtOutside(p, q, |p|, k);
    }
  }

  /** The leading coefficient of a product is the product of the leading coefficients. */
  lemma ConvLeading(p: seq<real>, q: seq<real>)
    requires |p| > 0 && |q| > 0
    ensures |Conv(p, q)| == |p| + |q| - 1
    ensures Conv(p, q)[|p| + |q| - 2] == p[|p| - 1] * q[|q| - 1]
  {
    var top := |p| + |q| - 2;
    ConvAtOutside(p, q, |p| - 1, top);
    assert ConvAt(p, q, |p|, top) == ConvAt(p, q, |p| - 1, top) + p[|p| - 1] * Coef(q, top - (|p| - 1));
  }

  lemma SumTimes(u: real, v: real, w: real)
    ensures u * w + v * w == (u + v) * w
  {
  }

  /** Coefficient k after rows 0 .. i-1 of the product table and the first j entries of row i. */
  function PartialConv(p: seq<real>, q: seq<real>, i: nat, j: nat, k: int): real
    requires i < |p| && j <= |q|
  {
    ConvAt(p, q, i, k) + p[i] * Coef(q[..j], k - i)
  }

  lemma PartialConvStart(p: seq<real>, q: seq<real>, i: nat)
    requires i < |p|
    ensures forall k :: PartialConv(p, q, i, 0, k) == ConvAt(p, q, i, k)
  {
  }

  /** Entry j of row i adds p[i] * q[j] to coefficient i + j and nothing elsewhere. */
  lemma PartialConvStep(p: seq<real>, q: seq<real>, i: nat, j: nat)
    requires i < |p| && j < |q|
    ensures PartialConv(p, q, i, j + 1, i + j) == PartialConv(p, q, i, j, i + j) + p[i] * q[j]
    ensures forall k :: k != i + j ==> PartialConv(p, q, i, j + 1, k) == PartialConv(p, q, i, j, k)
  {
    assert Coef(q[..j + 1], j) == q[j];
    assert Coef(q[..j], j) == 0.0;
    SumTimes(0.0, q[j], p[i]);
    assert forall d :: d != j ==> Coef(q[..j + 1], d) == Coef(q[..j], d);
  }

  /** A complete row i is row sum i + 1. */
  lemma PartialConvEnd(p: seq<real>, q: seq<real>, i: nat)
    requires i < |p|
    ensures forall k :: PartialConv(p, q, i, |q|, k) == ConvAt(p, q, i + 1, k)
  {
    assert q[..|q|] == q;
  }

  /** Every coefficient scaled by t. */
  function Scaled(t: real, q: seq<real>): (r: seq<real>)
    ensures forall k :: Coef(r, k) == t * Coef(q, k)
  {
    seq(|q|, i requires 0 <= i < |q| => t * q[i])
  }

  /** Row 0 of the product table, and the other rows moved down one power. */
  lemma {:induction false} ConvAtHead(p: seq<real>, q: seq<real>, n: nat, k: int)
    requires 0 < n <= |p|
    ensures ConvAt(p, q, n, k) == p[0] * Coef(q, k) + ConvAt(p[1..], q, n - 1, k - 1)
  {
    if n > 1 {
      ConvAtHead(p, q, n - 1, k);
      assert p[1..][n - 2] == p[n - 1];
    }
  }

  /** The coefficients of s are those of a * q plus those of r moved up one power. */
  ghost predicate ScaledPlusShifted(s: seq<real>, a: real, q: seq<real>, r: seq<real>)
  {
    forall k :: 0 <= k ==> Coef(s, k) == a * Coef(q, k) + Coef(r, k - 1)
  }

  /** The coefficients of p * q are those of p[0] * q plus those of p[1..] * q moved up a power. */
  lemma ConvSplitHead(p: seq<real>, q: seq<real>)
    requires |p| > 0
    ensures ScaledPlusShifted(Conv(p, q), p[0], q, Conv(p[1..], q))
  {
    forall k | 0 <= k
      ensures Coef(Conv(p, q), k) == p[0] * Coef(q, k) + Coef(Conv(p[1..], q), k - 1)
    {
      CoefConv(p, q, k);
      ConvAtHead(p, q, |p|, k);
      CoefConv(p[1..], q, k - 1);
    }
  }

  /** Coefficients a * q plus r moved up a power have the value a * q(x) + x * r(x). */
  lemma EvalScaledShifted(s: seq<real>, a: real, q: seq<real>, r: seq<real>, x: real)
    requires ScaledPlusShifted(s, a, q, r)
    ensures Eval(s, x) == a * Eval(q, x) + x * Eval(r, x)
  {
    var u, v := Scaled(a, q), [0.0] + r;
    forall k | 0 <= k
      ensures Coef(s, k) == Coef(u, k) + Coef(v, k)
    {
      assert Coef(v, k) == Coef(r, k - 1);
    }
    HornerSplit(s, u, v, 0, x);
    EvalScaled(a, q, x);
    EvalShiftUp(r, x);
  }

  /** Evaluation turns the convolution of coefficients into the product of values. */
  lemma {:induction false} EvalConv(p: seq<real>, q: seq<real>, x: real)
    ensures Eval(Conv(p, q), x) == Eval(p, x) * Eval(q, x)
    decreases |p|
  {
    if |p| == 0 {
      HornerPastEnd(p, 0, x);
      HornerPastEnd(Conv(p, q), 0, x);
    } else if |q| == 0 {
      HornerPastEnd(q, 0, x);
      HornerPastEnd(Conv(p, q), 0, x);
    } else {
      EvalConv(p[1..], q, x);
      EvalConvStep(p, q, x);
    }
  }

  /** With p = p[0] + x * p', the product p * q is p[0] * q + x * (p' * q). */
  lemma EvalConvStep(p: seq<real>, q: seq<real>, x: real)
    requires |p| > 0 && |q| > 0
    requires Eval(Conv(p[1..], q), x) == Eval(p[1..], x) * Eval(q, x)
    ensures Eval(Conv(p, q), x) == Eval(p, x) * Eval(q, x)
  {
    EvalConvHead(p, q, x);
    EvalHead(p, x);
    ProductStep(Eval(Conv(p, q), x), Eval(p, x), Eval(q, x), Eval(Conv(p[1..], q), x), Eval(p[1..], x),
      p[0], x);
  }

  lemma ProductStep(e: real, ep: real, eq: real, er: real, ep1: real, a: real, x: real)
    requires e == a * eq + x * er && ep == a + x * ep1 && er == ep1 * eq
    ensures e == ep * eq
  {
    assert a * eq + x * (ep1 * eq) == (a + x * ep1) * eq;
  }

  lemma EvalConvHead(p: seq<real>, q: seq<real>, x: real)
    requires |p| > 0
    ensures Eval(Conv(p, q), x) == p[0] * Eval(q, x) + x * Eval(Conv(p[1..], q), x)
  {
    ConvSplitHead(p, q);
    EvalScaledShifted(Conv(p, q), p[0], q, Conv(p[1..], q), x);
  }

  lemma EvalScaled(t: real, q: seq<real>, x: real)
    ensures Eval(Scaled(t, q), x) == t * Eval(q, x)
  {
    HornerScale(Scaled(t, q), q, t, 0, x);
  }

  /** A constant term followed by the rest, moved down a power. */
  lemma EvalHead(p: seq<real>, x: real)
    requires |p| > 0
    ensures Eval(p, x) == p[0] + x * Eval(p[1..], x)
  {
    HornerNext(p, 0, x);
    HornerShift(p, p[1..], 0, x);
  }

  /** Multiplying by x moves every coefficient up one power. */
  lemma EvalShiftUp(r: seq<real>, x: real)
    ensures Eval([0.0] + r, x) == x * Eval(r, x)
  {
    HornerNext([0.0] + r, 0, x);
    HornerShift([0.0] + r, r, 0, x);
  }

  // ---------------------------------------------------------------------------------------------
  // Normal forms.

  /** A leading coefficient of a polynomial of degree > 0 is non-zero. */
  predicate Canonical(c: seq<real>)
  {
    |c| > 1 ==> c[|c| - 1] != 0.0
  }

  /** Strip zero leading coefficients while the degree is > 0: the zero polynomial stays at degree 0. */
  function TrimH(c: seq<real>): (r: seq<real>)
    ensures |r| <= |c| && r == c[..|r|]
    ensures |c| > 0 ==> |r| > 0
    ensures Canonical(r)
    ensures forall k :: |r| <= k < |c| ==> c[k] == 0.0
  {
    if |c| > 1 && c[|c| - 1] == 0.0 then TrimH(c[..|c| - 1]) else c
  }

  /** Strip every zero leading coefficient: the zero polynomial becomes empty. */
  function StripZeros(c: seq<real>): (r: seq<real>)
    ensures |r| <= |c| && r == c[..|r|]
    ensures |r| > 0 ==> r[|r| - 1] != 0.0
    ensures forall k :: |r| <= k < |c| ==> c[k] == 0.0
  {
    if |c| > 0 && c[|c| - 1] == 0.0 then StripZeros(c[..|c| - 1]) else c
  }

  lemma TrimHCanonical(c: seq<real>)
    requires Canonical(c)
    ensures TrimH(c) == c
  {
  }

  lemma EvalTrimH(c: seq<real>, x: real)
    ensures Eval(TrimH(c), x) == Eval(c, x)
  {
    EvalDropZeros(c, TrimH(c), x);
  }

  lemma EvalStripZeros(c: seq<real>, x: real)
    ensures Eval(StripZeros(c), x) == Eval(c, x)
  {
    EvalDropZeros(c, StripZeros(c), x);
  }

  /** Every coefficient is zero. */
  predicate AllZero(c: seq<real>)
  {
    forall i :: 0 <= i < |c| ==> c[i] == 0.0
  }

  /** StripZeros empties exactly the all-zero polynomials. */
  lemma StripZerosEmpty(c: seq<real>)
    ensures StripZeros(c) == [] <==> AllZero(c)
  {
  }
}
