/** The polynomial class as Poly/Poly.cpp defines it, out of line. Here Poly(n) for n > 0 is all
    zeros and Poly(0) is the constant 1, reduction turns the zero polynomial into the empty one and
    keeps the buffer it had, loading takes the coefficients verbatim but refuses a negative degree,
    and formatting writes no `*`. */
module PolyCpp {
  import opened PolyMath
  import opened PolyText

  /** The coefficients of Poly(n): empty for n < 0, the constant 1 for n == 0, and n + 1 zeros
      for n > 0. */
  function Initial(n: int): seq<real>
  {
    if n < 0 then [] else seq(n + 1, k => if n == 0 then 1.0 else 0.0)
  }

  /** The coefficients operator* computes: the accumulation of the convolution onto the
      coefficients of Poly(grau + outro.grau), then reduced; empty with an empty operand. */
  function MulAsWritten(p: seq<real>, q: seq<real>): seq<real>
  {
    if p == [] || q == [] then [] else StripZeros(AddSpec(Initial(|p| + |q| - 2), Conv(p, q)))
  }

  /** The product operator* is evidently meant to compute: the convolution, reduced. */
  function MulIntended(p: seq<real>, q: seq<real>): seq<real>
  {
    StripZeros(Conv(p, q))
  }

  class Poly {
    var grau: int
    var a: array?<real>

    /** The class invariant: degree -1 exactly when there is no buffer, and a buffer of at least
        grau + 1 coefficients (reduction lowers grau without shrinking it). */
    ghost predicate Valid()
      reads this
    {
      grau >= -1 && (grau == -1 <==> a == null) && (a != null ==> a.Length >= grau + 1)
    }

    /** The coefficients a[0..grau], a[i] being the coefficient of x^i. */
    ghost function Coeffs(): (c: seq<real>)
      reads this, a
      requires Valid()
      ensures |c| == grau + 1
    {
      if a == null then [] else a[..grau + 1]
    }

    /** Poly(): the empty polynomial. */
    constructor ()
      ensures Valid() && grau == -1 && a == null
    {
      grau := -1;
      a := null;
    }

    /** Poly(n). */
    constructor OfDegree(n: int)
      ensures Valid() && Coeffs() == Initial(n)
      ensures a == null || (fresh(a) && a.Length == grau + 1)
    {
      if n < 0 {
        grau := -1;
        a := null;
      } else {
        var buf := new real[n + 1];
        for i := 0 to n + 1
          invariant forall k :: 0 <= k < i ==> buf[k] == 0.0
        {
          buf[i] := 0.0;
        }
        if n == 0 {
          buf[0] := 1.0;
        }
        grau := n;
        a := buf;
        assert buf[..n + 1] == buf[..];
      }
    }

    /** The copy constructor: grau + 1 coefficients copied into a buffer of their own. */
    constructor Copy(p: Poly)
      requires p.Valid()
      ensures Valid() && grau == p.grau && Coeffs() == p.Coeffs()
      ensures a == null || (fresh(a) && a.Length == grau + 1)
    {
      grau := p.grau;
      if p.grau >= 0 {
        var buf := new real[p.grau + 1];
        for i := 0 to p.grau + 1
          invariant forall k :: 0 <= k < i ==> buf[k] == p.a[k]
        {
          buf[i] := p.a[i];
        }
        a := buf;
      } else {
        a := null;
      }
    }

    /** The move constructor: takes over the buffer and leaves the source empty. */
    constructor Move(p: Poly)
      requires p.Valid()
      modifies p
      ensures Valid() && grau == old(p.grau) && a == old(p.a)
      ensures p.grau == -1 && p.a == null
    {
      grau, a := p.grau, p.a;
      new;
      p.grau, p.a := -1, null;
    }

    /** Copy assignment: a copy of p, nothing happening on self-assignment. */
    method Assign(p: Poly)
      requires Valid() && p.Valid()
      modifies this
      ensures Valid() && grau == old(p.grau) && Coeffs() == old(p.Coeffs())
      ensures p != this ==> a == null || fresh(a)
      ensures p == this ==> a == old(a)
    {
      if p != this {
        grau := p.grau;
        if grau >= 0 {
          var buf := new real[grau + 1];
          for i := 0 to grau + 1
            invariant grau == p.grau && a == old(a) && p.a == old(p.a)
            invariant forall k :: 0 <= k < i ==> buf[k] == p.a[k]
          {
            buf[i] := p.a[i];
          }
          a := buf;
        } else {
          a := null;
        }
      }
    }

    /** Move assignment: takes over p's buffer and leaves p empty, nothing happening on
        self-assignment. */
    method MoveAssign(p: Poly)
      requires Valid() && p.Valid()
      modifies this, p
      ensures Valid() && grau == old(p.grau) && a == old(p.a)
      ensures p != this ==> p.grau == -1 && p.a == null
    {
      if p != this {
        grau, a := p.grau, p.a;
        p.grau, p.a := -1, null;
      }
    }

    /** recriar(n): the value of Poly(n), moved into this object. */
    method Recriar(n: int)
      requires Valid()
      modifies this
      ensures Valid() && Coeffs() == Initial(n)
      ensures a == null || fresh(a)
    {
      var q := new Poly.OfDegree(n);
      MoveAssign(q);
    }

    function GetGrau(): (g: int)
      reads this, a
      requires Valid()
      ensures g == |Coeffs()| - 1
    {
      grau
    }

    /** getCoef(i), also operator[]: 0 outside [0, grau]. */
    function GetCoef(i: int): (v: real)
      reads this, a
      requires Valid()
      ensures 0 <= i <= grau ==> v == Coeffs()[i]
      ensures i < 0 || i > grau ==> v == 0.0
    {
      if i < 0 || i > grau then 0.0 else a[i]
    }

    /** setCoef(i, valor): refused (reported by a false result) for an index outside [0, grau]
        and for zeroing the leading coefficient at degree > 0; a non-zero leading coefficient
        therefore stays non-zero. */
    method SetCoef(i: int, valor: real) returns (ok: bool)
      requires Valid()
      modifies a
      ensures Valid()
      ensures ok <==> 0 <= i <= grau && !(i == grau && valor == 0.0 && grau > 0)
      ensures Coeffs() == if ok then old(Coeffs())[i := valor] else old(Coeffs())
      ensures Canonical(old(Coeffs())) ==> Canonical(Coeffs())
    {
      if i < 0 || i > grau {
        return false;
      }
      if i == grau && valor == 0.0 && grau > 0 {
        return false;
      }
      a[i] := valor;
      return true;
    }

    /** operator==: same degree and the same coefficients a[0..grau], compared exactly. */
    method Equals(p: Poly) returns (eq: bool)
      requires Valid() && p.Valid()
      ensures eq <==> Coeffs() == p.Coeffs()
    {
      if grau != p.grau {
        return false;
      }
      for i := 0 to grau + 1
        invariant forall k :: 0 <= k < i ==> a[k] == p.a[k]
      {
        if a[i] != p.a[i] {
          assert Coeffs()[i] != p.Coeffs()[i];
          return false;
        }
      }
      if grau >= 0 {
        assert Coeffs() == p.Coeffs();
      }
      return true;
    }

    /** operator!=. */
    method NotEquals(p: Poly) returns (ne: bool)
      requires Valid() && p.Valid()
      ensures ne <==> Coeffs() != p.Coeffs()
    {
      var eq := Equals(p);
      ne := !eq;
    }

    /** empty(). */
    predicate Empty()
      reads this
      requires Valid()
      ensures Empty() <==> Coeffs() == []
    {
      grau < 0
    }

    /** isZero(): degree 0 with coefficient 0. */
    predicate IsZero()
      reads this, a
      requires Valid()
      ensures IsZero() <==> Coeffs() == [0.0]
    {
      grau == 0 && a[0] == 0.0
    }

    /** getValor(x), also operator(): the sum of a[i] * x^i with a running power of x. */
    method GetValor(x: real) returns (v: real)
      requires Valid()
      ensures v == Eval(Coeffs(), x)
    {
      if Empty() {
        return 0.0;
      }
      ghost var c := Coeffs();
      var resultado, potX := 0.0, 1.0;
      for i := 0 to grau + 1
        invariant resultado == PowerSum(c, i, x) && potX == Pow(x, i)
      {
        resultado := resultado + a[i] * potX;
        potX := potX * x;
      }
      EvalIsPowerSum(c, x);
      return resultado;
    }

    /** operator<<: the text of the polynomial, highest power first. */
    method Format() returns (s: string)
      requires Valid()
      ensures s == Text(Coeffs())
    {
      s := "";
      if Empty() {
        return;
      }
      ghost var c := Coeffs();
      var i := grau;
      while i >= 0
        invariant -1 <= i <= grau
        invariant s == TermsFrom(c, i + 1)
      {
        s := AppendTerm(c, s, i);
        i := i - 1;
      }
    }

    /** One pass of the loop of operator<<: the term of power i written after the higher ones. */
    method AppendTerm(ghost c: seq<real>, s: string, i: nat) returns (s': string)
      requires Valid() && c == Coeffs() && i <= grau
      requires s == TermsFrom(c, i + 1)
      ensures s' == TermsFrom(c, i)
    {
      var term := WriteTerm(a[i], i, grau);
      s' := s + term;
    }

    /** salvar: the tokens of the saved file. */
    method Salvar() returns (toks: seq<Token>)
      requires Valid()
      ensures toks == Saved(Coeffs())
    {
      toks := [Word("POLY"), Num(grau as real)];
      ghost var header := toks;
      for i := 0 to grau + 1
        invariant toks == header + Nums(Coeffs()[..i])
      {
        toks := toks + [Num(a[i])];
        assert Coeffs()[..i + 1] == Coeffs()[..i] + [a[i]];
      }
      assert Coeffs()[..grau + 1] == Coeffs();
    }

    /** ler: replaces the value with the one read, only when the tokens form a valid file. */
    method Ler(toks: seq<Token>) returns (ok: bool)
      requires Valid()
      modifies this
      ensures Valid()
      ensures ok <==> Load(toks).Loaded?
      ensures ok ==> Coeffs() == Load(toks).coeffs && fresh(a)
      ensures !ok ==> grau == old(grau) && a == old(a)
    {
      if |toks| == 0 || toks[0] != Word("POLY") {
        return false;
      }
      if |toks| < 2 || ReadInt(toks[1]).None? {
        return false;
      }
      var novoGrau := ReadInt(toks[1]).value;
      if novoGrau < 0 {
        return false;
      }
      var coefTemp := new real[novoGrau + 1];
      for i := 0 to novoGrau + 1
        invariant grau == old(grau) && a == old(a)
        invariant 2 + i <= |toks|
        invariant forall k :: 2 <= k < 2 + i ==> toks[k].Num?
        invariant forall k :: 0 <= k < i ==> coefTemp[k] == toks[2 + k].value
      {
        if 2 + i >= |toks| || !toks[2 + i].Num? {
          return false;
        }
        coefTemp[i] := toks[2 + i].value;
      }
      assert coefTemp[..novoGrau + 1] == Coefficients(toks, novoGrau + 1);
      a := coefTemp;
      grau := novoGrau;
      return true;
    }

    /** Unary operator-: a copy with a[0..grau] negated. */
    method Neg() returns (r: Poly)
      requires Valid()
      ensures fresh(r) && (r.a == null || fresh(r.a))
      ensures r.Valid() && r.Coeffs() == NegSpec(Coeffs())
    {
      r := new Poly.Copy(this);
      var buf := r.a;
      for i := 0 to grau + 1
        invariant r.a == buf && r.grau == grau
        invariant forall k :: 0 <= k < i ==> buf[k] == -a[k]
      {
        buf[i] := -a[i];
      }
    }

    /** operator+: the coefficient-wise sum over [0, max degree], then reduced. */
    method Add(p: Poly) returns (r: Poly)
      requires Valid() && p.Valid()
      ensures fresh(r) && (r.a == null || fresh(r.a))
      ensures r.Valid() && r.Coeffs() == StripZeros(AddSpec(Coeffs(), p.Coeffs()))
    {
      ghost var A, B := Coeffs(), p.Coeffs();
      r := SumBuffer(p, A, B);
      r.ReduzirGrau();
      assert Coeffs() == A && p.Coeffs() == B;
    }

    /** The loop of operator+: Poly(max degree) with coefficient i set to getCoef(i) + p.getCoef(i). */
    method SumBuffer(p: Poly, ghost A: seq<real>, ghost B: seq<real>) returns (r: Poly)
      requires Valid() && p.Valid()
      requires A == Coeffs() && B == p.Coeffs()
      ensures fresh(r) && (r.a == null || fresh(r.a))
      ensures r.Valid() && r.Coeffs() == AddSpec(A, B)
    {
      var maxGrau := Max(grau, p.grau);
      r := new Poly.OfDegree(maxGrau);
      FillSum(p, r, A, B);
    }

    /** The for loop of operator+, writing getCoef(i) + p.getCoef(i) into the new buffer of r. */
    method FillSum(p: Poly, r: Poly, ghost A: seq<real>, ghost B: seq<real>)
      requires Valid() && p.Valid() && r.Valid()
      requires A == Coeffs() && B == p.Coeffs()
      requires r.grau == Max(grau, p.grau)
      requires r.a == null || (r.a.Length == r.grau + 1 && r.a != a && r.a != p.a)
      modifies r.a
      ensures r.Valid() && r.Coeffs() == AddSpec(A, B)
    {
      var buf := r.a;
      for i := 0 to r.grau + 1
        invariant forall k :: 0 <= k < i ==> buf[k] == Coef(A, k) + Coef(B, k)
      {
        buf[i] := GetCoef(i) + p.GetCoef(i);
      }
      assert r.Coeffs() == AddSpec(A, B);
    }

    /** Binary operator-: exactly this + (-p). */
    method Sub(p: Poly) returns (r: Poly)
      requires Valid() && p.Valid()
      ensures fresh(r) && (r.a == null || fresh(r.a))
      ensures r.Valid() && r.Coeffs() == StripZeros(AddSpec(Coeffs(), NegSpec(p.Coeffs())))
    {
      var minus := p.Neg();
      r := AddNegated(p, minus);
    }

    /** The second half of operator-: the sum with the already negated operand. */
    method AddNegated(p: Poly, minus: Poly) returns (r: Poly)
      requires Valid() && p.Valid() && minus.Valid() && minus.Coeffs() == NegSpec(p.Coeffs())
      ensures fresh(r) && (r.a == null || fresh(r.a))
      ensures r.Valid() && r.Coeffs() == StripZeros(AddSpec(Coeffs(), NegSpec(p.Coeffs())))
    {
      r := Add(minus);
    }

    /** operator*: empty with an empty operand; otherwise the products accumulated onto the
        coefficients of Poly(grau + p.grau), then reduced. */
    method Mul(p: Poly) returns (r: Poly)
      requires Valid() && p.Valid()
      ensures fresh(r) && (r.a == null || fresh(r.a))
      ensures r.Valid() && r.Coeffs() == MulAsWritten(Coeffs(), p.Coeffs())
    {
      if Empty() || p.Empty() {
        r := new Poly();
        assert r.Coeffs() == [] == MulAsWritten(Coeffs(), p.Coeffs());
        return;
      }
      r := MulNonEmpty(p);
    }

    /** operator* on two non-empty operands: Poly(grau + p.grau), every product added on, reduced. */
    method MulNonEmpty(p: Poly) returns (r: Poly)
      requires Valid() && p.Valid() && grau >= 0 && p.grau >= 0
      ensures fresh(r) && (r.a == null || fresh(r.a))
      ensures r.Valid() && r.Coeffs() == MulAsWritten(Coeffs(), p.Coeffs())
    {
      ghost var A, B := Coeffs(), p.Coeffs();
      r := Accumulated(p, A, B);
      r.ReduzirGrau();
      assert Coeffs() == A && p.Coeffs() == B;
    }

    /** Poly(grau + p.grau) with every product a[i] * p.a[j] added onto coefficient i + j. */
    method Accumulated(p: Poly, ghost A: seq<real>, ghost B: seq<real>) returns (r: Poly)
      requires Valid() && p.Valid() && grau >= 0 && p.grau >= 0
      requires A == Coeffs() && B == p.Coeffs()
      ensures fresh(r) && r.a != null && fresh(r.a)
      ensures r.Valid() && StripZeros(r.Coeffs()) == MulAsWritten(A, B)
    {
      r := new Poly.OfDegree(grau + p.grau);
      var buf := r.a;
      assert buf[..] == r.Coeffs();
      AccumulateProducts(p, buf, A, B);
      assert r.a == buf && r.grau + 1 == buf.Length;
      assert r.Coeffs() == buf[..r.grau + 1];
      assert buf[..r.grau + 1] == buf[..];
      MulAsWrittenOf(A, B, r.Coeffs());
    }

    /** The nested loop of operator*: adds a[i] * p.a[j] onto buf[i + j] for every i and j. */
    method AccumulateProducts(p: Poly, buf: array<real>, ghost A: seq<real>, ghost B: seq<real>)
      requires Valid() && p.Valid() && grau >= 0 && p.grau >= 0
      requires A == Coeffs() && B == p.Coeffs()
      requires buf.Length == grau + p.grau + 1 && buf != a && buf != p.a
      requires buf[..] == Initial(grau + p.grau)
      modifies buf
      ensures buf[..] == AddSpec(Initial(grau + p.grau), Conv(A, B))
    {
      // Every coefficient of Poly(grau + p.grau) is this one value.
      ghost var base := if grau + p.grau == 0 then 1.0 else 0.0;
      InitialIsConstant(grau + p.grau);
      for i := 0 to grau + 1
        invariant forall k :: 0 <= k < buf.Length ==> buf[k] == base + ConvAt(A, B, i, k)
      {
        AccumulateRow(p, buf, i, A, B, base);
      }
      AccumulatedProduct(A, B, buf[..]);
    }

    /** One pass of the outer loop of operator*: adds a[i] * p.a[j] onto buf[i + j] for every j. */
    method AccumulateRow(p: Poly, buf: array<real>, i: nat, ghost A: seq<real>, ghost B: seq<real>, ghost base: real)
      requires Valid() && p.Valid() && i <= grau && p.grau >= 0
      requires A == Coeffs() && B == p.Coeffs()
      requires buf.Length == grau + p.grau + 1 && buf != a && buf != p.a
      requires forall k :: 0 <= k < buf.Length ==> buf[k] == base + ConvAt(A, B, i, k)
      modifies buf
      ensures forall k :: 0 <= k < buf.Length ==> buf[k] == base + ConvAt(A, B, i + 1, k)
    {
      PartialConvStart(A, B, i);
      for j := 0 to p.grau + 1
        invariant forall k :: 0 <= k < buf.Length ==> buf[k] == base + PartialConv(A, B, i, j, k)
      {
        PartialConvStep(A, B, i, j);
        buf[i + j] := buf[i + j] + a[i] * p.a[j];
      }
      PartialConvEnd(A, B, i);
    }

    /** reduzirGrau: lowers the degree past zero leading coefficients down to 0, and then turns a
        zero constant into the empty polynomial; the buffer is kept or dropped, never shrunk. */
    method ReduzirGrau()
      requires Valid()
      modifies this
      ensures Valid() && Coeffs() == StripZeros(old(Coeffs()))
      ensures a == old(a) || a == null
    {
      ghost var c := Coeffs();
      LowerDegree(c);
      if grau == 0 && a[0] == 0.0 {
        assert Coeffs() == [0.0];
        grau := -1;
        a := null;
      }
    }

    /** The loop of reduzirGrau: grau lowered while the coefficient at grau > 0 is zero. */
    method LowerDegree(ghost c: seq<real>)
      requires Valid() && c == Coeffs()
      modifies this
      ensures Valid() && a == old(a) && grau <= old(grau)
      ensures StripZeros(Coeffs()) == StripZeros(c)
      ensures grau <= 0 || a[grau] != 0.0
    {
      var g := LoweredDegree(c);
      StripZeroTail(c, g + 1);
      assert a != null ==> a[..g + 1] == c[..g + 1];
      grau := g;
    }

    /** The degree the while loop of reduzirGrau stops at: it steps below every zero coefficient
        at the top, never below 0. */
    method LoweredDegree(ghost c: seq<real>) returns (g: int)
      requires Valid() && c == Coeffs()
      ensures -1 <= g <= grau && (g == -1 <==> grau == -1)
      ensures g <= 0 || c[g] != 0.0
      ensures forall j :: g < j <= grau ==> c[j] == 0.0
    {
      g := grau;
      while g > 0 && a[g] == 0.0
        invariant -1 <= g <= grau && (g == -1 <==> grau == -1)
        invariant forall j :: g < j <= grau ==> c[j] == 0.0
        decreases g
      {
        assert a[g] == c[g];
        g := g - 1;
      }
      assert g > 0 ==> a[g] == c[g];
    }
  }

  /** Dropping zero entries at the top does not change what StripZeros keeps. */
  lemma {:induction false} StripZeroTail(c: seq<real>, n: nat)
    requires n <= |c| && forall j :: n <= j < |c| ==> c[j] == 0.0
    ensures StripZeros(c[..n]) == StripZeros(c)
    decreases |c| - n
  {
    if n < |c| {
      StripZeroTail(c, n + 1);
      StripTopZero(c, n);
    } else {
      assert c[..n] == c;
    }
  }

  /** Dropping a zero top entry of a prefix does not change what StripZeros keeps. */
  lemma StripTopZero(c: seq<real>, n: nat)
    requires n < |c| && c[n] == 0.0
    ensures StripZeros(c[..n + 1]) == StripZeros(c[..n])
  {
    assert c[..n + 1][..n] == c[..n];
  }

  lemma MulAsWrittenOf(p: seq<real>, q: seq<real>, s: seq<real>)
    requires |p| > 0 && |q| > 0 && s == AddSpec(Initial(|p| + |q| - 2), Conv(p, q))
    ensures StripZeros(s) == MulAsWritten(p, q)
  {
  }

  /** A buffer holding the coefficients of Poly(|p| + |q| - 2) plus every row of the product table
      is their coefficient-wise sum with the convolution. */
  lemma AccumulatedProduct(p: seq<real>, q: seq<real>, s: seq<real>)
    requires |p| > 0 && |q| > 0 && |s| == |p| + |q| - 1
    requires forall k :: 0 <= k < |s| ==> s[k] == (if |p| + |q| == 2 then 1.0 else 0.0) + ConvAt(p, q, |p|, k)
    ensures s == AddSpec(Initial(|p| + |q| - 2), Conv(p, q))
  {
  }

  // -----------------------------------------------------------------------------------------------
  // The text written by operator<<.

  /** The text of the term of power i in a polynomial of degree top: nothing for a zero
      coefficient, and otherwise sign, magnitude and `x^i` with no `*` between them. */
  function TermText(coef: real, i: nat, top: nat): string
  {
    if coef == 0.0 then "" else SignText(coef, i, top) + TermBody(coef, i)
  }

  /** A term after its sign. */
  function TermBody(coef: real, i: nat): string
  {
    MagnitudeText(coef, i) + (if i != 0 then "x" + ExponentText(i) else "")
  }

  /** One term of operator<<, written piece by piece; TermText is the same rendering as a
      function, and TermBodyNonEmpty and TextEmptyIffAllZero are proved about it. */
  method WriteTerm(coef: real, i: nat, grau: nat) returns (term: string)
    ensures term == TermText(coef, i, grau)
  {
    term := "";
    if coef == 0.0 {
      return;
    }
    var sign, magnitude, power := "", "", "";
    if coef < 0.0 {
      sign := "-";
    } else if i != grau {
      sign := "+";
    }
    if (coef != 1.0 && coef != -1.0) || i == 0 {
      var absolute := if coef < 0.0 then -coef else coef;
      assert absolute == Abs(coef);
      magnitude := NumStr(absolute);
    }
    if i != 0 {
      power := "x";
      if i > 1 {
        power := power + ("^" + NatStr(i));
      }
    }
    assert sign == SignText(coef, i, grau);
    assert magnitude == MagnitudeText(coef, i);
    term := sign + (magnitude + power);
  }

  /** The terms of powers top down to lo. */
  function TermsFrom(c: seq<real>, lo: nat): string
    requires lo <= |c|
    decreases |c| - lo
  {
    if lo == |c| then "" else TermsFrom(c, lo + 1) + TermText(c[lo], lo, |c| - 1)
  }

  function Text(c: seq<real>): string
  {
    TermsFrom(c, 0)
  }

  // -----------------------------------------------------------------------------------------------
  // The saved file.

  /** What salvar writes: POLY, the degree, then a[0..grau]. */
  function Saved(c: seq<real>): seq<Token>
  {
    [Word("POLY"), Num((|c| - 1) as real)] + Nums(c)
  }

  /** What ler accepts: POLY, a non-negative integer degree, then degree + 1 numbers. */
  function Load(toks: seq<Token>): LoadResult
  {
    if |toks| == 0 || toks[0] != Word("POLY") then Failed(BadHeader)
    else if |toks| < 2 || ReadInt(toks[1]).None? then Failed(BadDegree)
    else
      var g := ReadInt(toks[1]).value;
      if g < 0 then Failed(NegativeDegree)
      else if !CoefficientsAvailable(toks, g + 1) then Failed(MissingCoefficient)
      else Loaded(Coefficients(toks, g + 1))
  }

  // -----------------------------------------------------------------------------------------------
  // Properties.

  /** Poly(n) for n > 0 has a zero leading coefficient, so it is not canonical. */
  lemma InitialShape(n: int)
    ensures n > 0 ==> !Canonical(Initial(n)) && AllZero(Initial(n))
    ensures Initial(0) == [1.0]
    ensures Eval(Initial(0), 0.0) == 1.0
  {
    if n > 0 {
      assert Initial(n)[n] == 0.0;
    }
    HornerNext(Initial(0), 0, 0.0);
  }

  /** Reduction leaves the empty polynomial or a non-zero leading coefficient, and a second
      reduction changes nothing. */
  lemma StripZerosShape(c: seq<real>)
    ensures StripZeros(c) == [] || Canonical(StripZeros(c))
    ensures StripZeros(StripZeros(c)) == StripZeros(c)
    ensures StripZeros(c) == [] <==> AllZero(c)
  {
    StripZerosEmpty(c);
  }

  /** The sum denotes the sum of the values. */
  lemma EvalAddCpp(p: seq<real>, q: seq<real>, x: real)
    ensures Eval(StripZeros(AddSpec(p, q)), x) == Eval(p, x) + Eval(q, x)
  {
    EvalStripZeros(AddSpec(p, q), x);
    EvalAdd(p, q, x);
  }

  /** operator+ is commutative, and p + (-p) is the empty polynomial. */
  lemma AddAlgebraCpp(p: seq<real>, q: seq<real>)
    ensures StripZeros(AddSpec(p, q)) == StripZeros(AddSpec(q, p))
    ensures StripZeros(AddSpec(p, NegSpec(p))) == []
    ensures StripZeros(AddSpec([], [])) == []
  {
    AddCommutes(p, q);
    AddNegIsZero(p);
    StripZerosEmpty(AddSpec(p, NegSpec(p)));
  }

  /** The difference, written as a sum with the negation, is the coefficient-wise difference and
      denotes the difference of the values. */
  lemma SubCpp(p: seq<real>, q: seq<real>, x: real)
    ensures StripZeros(AddSpec(p, NegSpec(q))) == StripZeros(SubSpec(p, q))
    ensures Eval(StripZeros(AddSpec(p, NegSpec(q))), x) == Eval(p, x) - Eval(q, x)
  {
    SubIsAddNeg(p, q);
    EvalStripZeros(SubSpec(p, q), x);
    EvalSub(p, q, x);
  }

  /** Once the degrees add up to more than 0, the initial buffer is all zeros and operator*
      computes the reduced convolution. */
  lemma MulAsWrittenAgrees(p: seq<real>, q: seq<real>)
    requires |p| + |q| > 2
    ensures MulAsWritten(p, q) == MulIntended(p, q)
  {
    if p != [] && q != [] {
      var init := Initial(|p| + |q| - 2);
      var cv := Conv(p, q);
      assert |init| == |cv|;
      assert AddSpec(init, cv) == cv;
    }
  }

  /** For two constants operator* adds 1: it yields the reduction of 1 + a0 * b0. */
  lemma MulConstantsAsWritten(a0: real, b0: real)
    ensures MulAsWritten([a0], [b0]) == StripZeros([1.0 + a0 * b0])
  {
    var cv := Conv([a0], [b0]);
    assert ConvAt([a0], [b0], 1, 0) == 0.0 + a0 * Coef([b0], 0);
    assert |cv| == 1 && cv[0] == a0 * b0;
    var sum := AddSpec(Initial(0), cv);
    assert |sum| == 1 && sum[0] == 1.0 + a0 * b0;
    assert sum == [1.0 + a0 * b0];
  }

  /** So 2 * 3 gives 7, where the product is 6, 0 * 0 gives the constant 1, and 1 * -1 gives
      the empty polynomial. */
  lemma MulConstantsExamples()
    ensures MulAsWritten([2.0], [3.0]) == [7.0]
    ensures MulIntended([2.0], [3.0]) == [6.0]
    ensures MulAsWritten([0.0], [0.0]) == [1.0]
    ensures MulAsWritten([1.0], [-1.0]) == []
  {
    MulConstantsAsWritten(2.0, 3.0);
    MulConstantsAsWritten(0.0, 0.0);
    MulConstantsAsWritten(1.0, -1.0);
    assert StripZeros([0.0]) == StripZeros([0.0][..0]);
    var cv := Conv([2.0], [3.0]);
    assert ConvAt([2.0], [3.0], 1, 0) == 0.0 + 2.0 * Coef([3.0], 0);
    assert |cv| == 1 && cv[0] == 6.0;
    assert cv == [6.0];
  }

  /** The intended product denotes the product of the values. */
  lemma EvalMulIntended(p: seq<real>, q: seq<real>, x: real)
    ensures Eval(MulIntended(p, q), x) == Eval(p, x) * Eval(q, x)
  {
    EvalStripZeros(Conv(p, q), x);
    EvalConv(p, q, x);
  }

  /** The empty polynomial and the zero polynomial both print as nothing. */
  lemma TextOfConstants()
    ensures Text([]) == ""
    ensures Text([0.0]) == ""
  {
  }

  /** 3x^2 + 1 prints with no `*` and a `+` before the constant. */
  lemma TextOfSquare()
    ensures Text([1.0, 0.0, 3.0]) == "3x^2+1"
  {
    var c := [1.0, 0.0, 3.0];
    assert NumStr(3.0) == "3" && NatStr(2) == "2" && NumStr(1.0) == "1";
    assert TermText(3.0, 2, 2) == "3x^2";
    assert TermText(0.0, 1, 2) == "";
    assert TermText(1.0, 0, 2) == "+1";
    assert TermsFrom(c, 2) == "3x^2";
    assert TermsFrom(c, 1) == "3x^2";
  }

  /** A buffer whose top entries are zero writes no leading term, so the sign of the next one shows. */
  lemma TextOfUntrimmed()
    ensures Text([1.0, 0.0, 0.0]) == "+1"
    ensures Text([-1.0, 0.0, 0.0]) == "-1"
  {
    assert NumStr(1.0) == "1";
    assert TermText(1.0, 0, 2) == "+1";
    assert TermText(-1.0, 0, 2) == "-1";
  }

  /** When every coefficient above power k is zero, the text from any power at or below k up
      starts with the term of power k. */
  /** A prefix of the text from power k up is a prefix of the text from any lower power up,
      the lower terms being written after it. */
  lemma {:induction false} TermsFromKeepsPrefix(c: seq<real>, lo: nat, k: nat, t: string)
    requires lo <= k <= |c| && |t| <= |TermsFrom(c, k)| && TermsFrom(c, k)[..|t|] == t
    ensures |t| <= |TermsFrom(c, lo)| && TermsFrom(c, lo)[..|t|] == t
    decreases k - lo
  {
    if lo < k {
      TermsFromKeepsPrefix(c, lo + 1, k, t);
      TermsFromPrefixStep(c, lo, t);
    }
  }

  lemma TermsFromPrefixStep(c: seq<real>, lo: nat, t: string)
    requires lo < |c| && |t| <= |TermsFrom(c, lo + 1)| && TermsFrom(c, lo + 1)[..|t|] == t
    ensures |t| <= |TermsFrom(c, lo)| && TermsFrom(c, lo)[..|t|] == t
  {
    PrefixOfConcat(TermsFrom(c, lo + 1), TermText(c[lo], lo, |c| - 1), t);
  }


  /** A buffer whose top coefficients are zero and whose first written term is positive prints
      a `+` first: the sign test compares with grau, not with the first written power. */
  lemma TextUntrimmedPlus(c: seq<real>, k: nat)
    requires k < |c| - 1 && c[k] > 0.0
    requires forall j :: k < j < |c| ==> c[j] == 0.0
    ensures |Text(c)| > 0 && Text(c)[0] == '+'
  {
    TextEmptyIffAllZero(c, k + 1);
    var t := TermText(c[k], k, |c| - 1);
    PrefixOfEmptyConcat(t);
    TermsFromKeepsPrefix(c, 0, k, t);
    assert t == "+" + TermBody(c[k], k);
    assert Text(c)[..|t|][0] == t[0];
  }

  /** The text is empty exactly for a polynomial whose coefficients are all zero. */
  lemma {:induction false} TextEmptyIffAllZero(c: seq<real>, lo: nat)
    requires lo <= |c|
    ensures TermsFrom(c, lo) == "" <==> forall k :: lo <= k < |c| ==> c[k] == 0.0
    decreases |c| - lo
  {
    if lo < |c| {
      TextEmptyIffAllZero(c, lo + 1);
      if c[lo] != 0.0 {
        TermBodyNonEmpty(c[lo], lo);
      }
    }
  }

  lemma TermBodyNonEmpty(coef: real, i: nat)
    ensures |TermBody(coef, i)| > 0
  {
    if (coef != 1.0 && coef != -1.0) || i == 0 {
      assert |MagnitudeText(coef, i)| > 0;
    }
  }

  /** Saving then loading restores every non-empty polynomial, verbatim. */
  lemma SaveLoad(c: seq<real>)
    requires c != []
    ensures Load(Saved(c)) == Loaded(c)
  {
    ReadIntOfInt(|c| - 1);
    CoefficientsOfNums([Word("POLY"), Num((|c| - 1) as real)], c, []);
    assert Saved(c) == [Word("POLY"), Num((|c| - 1) as real)] + Nums(c) + [];
  }

  /** The empty polynomial is written as POLY -1 and then refused. */
  lemma SaveLoadEmptyRejected()
    ensures Saved([]) == [Word("POLY"), Num(-1.0)]
    ensures Load(Saved([])) == Failed(NegativeDegree)
  {
    ReadIntOfInt(-1);
  }

  /** Every coefficient of Poly(n) is the same value. */
  lemma InitialIsConstant(n: int)
    ensures forall k :: 0 <= k < |Initial(n)| ==> Initial(n)[k] == if n == 0 then 1.0 else 0.0
  {
  }

  /** What loads is never empty. */
  lemma LoadNonEmpty(toks: seq<Token>)
    ensures Load(toks).Loaded? ==> |Load(toks).coeffs| > 0
  {
  }
}
