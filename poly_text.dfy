/** The textual side shared by both variants: the tokens of a saved file, the outcome of loading
    one, and the rendering of numbers and of the pieces of a formatted term. */
module PolyText {

  datatype Option<T> = None | Some(value: T)

  /** One whitespace-separated token of a saved file, as the stream extraction operators see it:
      a word, or a numeric literal together with the value it denotes. */
  datatype Token = Word(text: string) | Num(value: real)

  /** Why reading a saved polynomial failed. */
  datatype LoadError =
    | BadHeader           // the first word is not POLY
    | BadDegree           // no integer after the header
    | NegativeDegree      // a degree below 0 where one is not accepted
    | MissingCoefficient  // fewer than degree + 1 numbers follow
    | LeadingZero         // the coefficient of the highest power is 0
    | AllZeros            // every coefficient is 0

  datatype LoadResult = Loaded(coeffs: seq<real>) | Failed(error: LoadError)

  /** `stream >> int` on one token: a numeric literal with an integral value. */
  function ReadInt(t: Token): (r: Option<int>)
    ensures r.Some? <==> t.Num? && t.value == t.value.Floor as real
    ensures r.Some? ==> t == Num(r.value as real)
  {
    if t.Num? && t.value == t.value.Floor as real then Some(t.value.Floor) else None
  }

  lemma ReadIntOfInt(n: int)
    ensures ReadInt(Num(n as real)) == Some(n)
  {
  }

  /** The tokens a saved coefficient list is written as, one number each. */
  function Nums(c: seq<real>): (r: seq<Token>)
    ensures |r| == |c| && forall i :: 0 <= i < |c| ==> r[i] == Num(c[i])
  {
    seq(|c|, i requires 0 <= i < |c| => Num(c[i]))
  }

  /** The n tokens after the two header tokens are all numbers. */
  predicate CoefficientsAvailable(toks: seq<Token>, n: nat)
  {
    |toks| >= 2 + n && forall i :: 2 <= i < 2 + n ==> toks[i].Num?
  }

  /** The values of the n numbers after the two header tokens. */
  function Coefficients(toks: seq<Token>, n: nat): (c: seq<real>)
    requires CoefficientsAvailable(toks, n)
    ensures |c| == n && Nums(c) == toks[2..2 + n]
  {
    seq(n, i requires 0 <= i < n => toks[2 + i].value)
  }

  lemma CoefficientsOfNums(prefix: seq<Token>, c: seq<real>, suffix: seq<Token>)
    requires |prefix| == 2
    ensures CoefficientsAvailable(prefix + Nums(c) + suffix, |c|)
    ensures Coefficients(prefix + Nums(c) + suffix, |c|) == c
  {
    var toks := prefix + Nums(c) + suffix;
    assert forall i :: 2 <= i < 2 + |c| ==> toks[i] == Num(c[i - 2]);
  }

  // ---------------------------------------------------------------------------------------------
  // Rendering numbers.

  predicate IsDigit(ch: char) { '0' <= ch <= '9' }

  function DigitChar(d: int): (ch: char)
    requires 0 <= d < 10
    ensures IsDigit(ch)
  {
    (48 + d) as char
  }

  /** The decimal digits of n. */
  function NatStr(n: nat): (s: string)
    ensures |s| > 0 && forall i :: 0 <= i < |s| ==> IsDigit(s[i])
  {
    if n < 10 then [DigitChar(n)] else NatStr(n / 10) + [DigitChar(n % 10)]
  }

  /** Up to k digits of a fraction in [0, 1), truncated, ending where the fraction is exhausted. */
  function FracStr(f: real, k: nat): (s: string)
    requires 0.0 <= f < 1.0
    ensures forall i :: 0 <= i < |s| ==> IsDigit(s[i])
    decreases k
  {
    if k == 0 || f == 0.0 then ""
    else
      var d := (f * 10.0).Floor;
      [DigitChar(d)] + FracStr(f * 10.0 - d as real, k - 1)
  }

  /** What `stream << r` writes for a non-negative r: the exact digits when r is integral, and
      otherwise the integral part, a point and up to six fraction digits. */
  function NumStr(r: real): (s: string)
    requires r >= 0.0
    ensures |s| > 0 && IsDigit(s[0])
  {
    var n := r.Floor;
    if n as real == r then NatStr(n) else NatStr(n) + "." + FracStr(r - n as real, 6)
  }

  /** A prefix of s stays a prefix when more text is written after s. */
  lemma PrefixOfConcat(s: string, t: string, prefix: string)
    requires |prefix| <= |s| && s[..|prefix|] == prefix
    ensures |prefix| <= |s + t| && (s + t)[..|prefix|] == prefix
  {
    assert (s + t)[..|prefix|] == s[..|prefix|];
  }

  lemma PrefixOfEmptyConcat(t: string)
    ensures ("" + t)[..|t|] == t
  {
    assert "" + t == t;
  }

  // ---------------------------------------------------------------------------------------------
  // The pieces of one formatted term, common to both variants of `operator<<`.

  function Abs(r: real): real { if r < 0.0 then -r else r }

  /** The sign before the term of power i of a polynomial of degree top: `-` for a negative
      coefficient, `+` for a positive one that is not the leading term, nothing otherwise. */
  function SignText(coef: real, i: int, top: int): string
  {
    if coef < 0.0 then "-" else if i != top then "+" else ""
  }

  /** The magnitude, left out for 1 and -1 except on the constant term. */
  function MagnitudeText(coef: real, i: int): string
  {
    if (coef != 1.0 && coef != -1.0) || i == 0 then NumStr(Abs(coef)) else ""
  }

  /** The exponent, written only for powers above 1. */
  function ExponentText(i: nat): string
  {
    if i > 1 then "^" + NatStr(i) else ""
  }
}
