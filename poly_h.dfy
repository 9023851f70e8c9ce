/** The polynomial class as Poly/Poly.h defines it, every member inline. Here Poly(n) is the
    monomial x^n, Poly(0) is the zero polynomial, reduction keeps the zero polynomial at degree 0
    and reallocates the buffer to exactly grau + 1 slots, and loading rejects a zero leading
    coefficient. */
module PolyH {
  import opened PolyMath
  import opened PolyText

  /** The coefficients of Poly(n): empty for n < 0, the zero polynomial for n == 0, and x^n
      for n > 0. */
  function Monomial(n: int): seq<real>
  {
    if n < 0 then [] else if n == 0 then [0.0] else seq(n + 1, k => if k == n then 1.0 else 0.0)
  }

  /** The coefficients of a product: empty when an operand is empty, the zero polynomial when an
      operand is the zero polynomial, and the convolution otherwise. */
  function MulSpec(p: seq<real>, q: seq<real>): seq<real>
  {
    if p == [] || q == [] then []
    else if p == [0.0] || q == [0.0] then [0.0]
    else Conv(p, q)
  }

  class Poly {
    var grau: int
    var a: array?<real>

    /** The shape of the representation: a buffer of exactly grau + 1 coefficients, missing only
        at degree -1. (Reducing an empty polynomial leaves a zero-length buffer behind.) */
    ghost predicate Wellformed()
      reads this
    {
      grau >= -1 && (a == null ==> grau == -1) && (a != null ==> a.Length == grau + 1)
    }

    /** The coefficients, a[i] being the coefficient of x^i. */
    ghost function Coeffs(): (c: seq<real>)
      reads this, a
      requires Wellformed()
      ensures |c| == grau + 1
    {
      if a == null then [] else a[..]
    }

    /** The class invariant: well formed, and a non-zero leading coefficient at degree > 0. */
    ghost predicate Valid()
      reads this, a
    {
      Wellformed() && Canonical(Coeffs())
    }

    /** Poly(): the empty polynomial. */
    constructor ()
      ensures Valid() && grau == -1 && a == null
    {
      grau := -1;
      a := null;
    }

    /** Poly(n). */
    constructor OfDegree(n: int)
      ensures Valid() && Coeffs() == Monomial(n)
      ensures a == null || fresh(a)
    {
      if n < 0 {
        grau := -1;
        a := null;
      } else {
        var buf := new real[n + 1];
        for i := 0 to n
          invariant forall k :: 0 <= k < i ==> buf[k] == 0.0
        {
          buf[i] := 0.0;
        }
        if n == 0 {
          buf[0] := 0.0;
        } else {
          buf[n] := 1.0;
        }
        grau := n;
        a := buf;
      }
    }

    /** The copy constructor: a deep copy into a buffer of its own. */
    constructor Copy(p: Poly)
      requires p.Wellformed()
      ensures Wellformed() && grau == p.grau && Coeffs() == p.Coeffs()
      ensures a == null || fresh(a)
    {
      grau := p.grau;
      if p.grau >= 0 {
        var buf := new real[p.grau + 1];
        for i := 0 to p.grau + 1
          invariant forall k :: 0 <= k < i ==> buf[k] == p.a[k]
        {
          buf[i] := p.a[i];
        }
        a := buf;
      } else {
        a := null;
      }
    }

    /** The move constructor: takes over the buffer and leaves the source empty. */
    constructor Move(p: Poly)
      requires p.Wellformed()
      modifies p
      ensures Wellformed() && grau == old(p.grau) && a == old(p.a)
      ensures p.grau == -1 && p.a == null
    {
      grau, a := p.grau, p.a;
      new;
      p.grau, p.a := -1, null;
    }

    /** Copy assignment: a deep copy of p, nothing happening on self-assignment. */
    method Assign(p: Poly)
      requires Wellformed() && p.Wellformed()
      modifies this
      ensures Wellformed() && grau == old(p.grau) && Coeffs() == old(p.Coeffs())
      ensures p != this ==> a == null || fresh(a)
      ensures p == this ==> a == old(a)
    {
      if p != this {
        grau := p.grau;
        if grau >= 0 {
          var buf := new real[grau + 1];
          for i := 0 to grau + 1
            invariant grau == p.grau && a == old(a) && p.a == old(p.a)
            invariant forall k :: 0 <= k < i ==> buf[k] == p.a[k]
          {
            buf[i] := p.a[i];
          }
          a := buf;
        } else {
          a := null;
        }
      }
    }

    /** Move assignment: takes over p's buffer and leaves p empty, nothing happening on
        self-assignment. */
    method MoveAssign(p: Poly)
      requires Wellformed() && p.Wellformed()
      modifies this, p
      ensures Wellformed() && grau == old(p.grau) && a == old(p.a)
      ensures p != this ==> p.grau == -1 && p.a == null
    {
      if p != this {
        grau, a := p.grau, p.a;
        p.grau, p.a := -1, null;
      }
    }

    /** recriar(n): the value of Poly(n), moved into this object. */
    method Recriar(n: int)
      requires Wellformed()
      modifies this
      ensures Valid() && Coeffs() == Monomial(n)
      ensures a == null || fresh(a)
    {
      var q := new Poly.OfDegree(n);
      MoveAssign(q);
    }

    /** getGrau(): the degree; its special case for the constant 1 answers the same. */
    function GetGrau(): (g: int)
      reads this, a
      requires Wellformed()
      ensures g == |Coeffs()| - 1
    {
      if grau == 0 && a[0] == 1.0 then 0 else grau
    }

    /** getCoef(i), also operator[]: 0 outside [0, grau]. */
    function GetCoef(i: int): (v: real)
      reads this, a
      requires Wellformed()
      ensures 0 <= i <= grau ==> v == Coeffs()[i]
      ensures i < 0 || i > grau ==> v == 0.0
    {
      if i < 0 || i > grau then 0.0 else a[i]
    }

    /** setCoef(i, valor): refused (reported by a false result) for an index outside
        [0, grau] and for zeroing the leading coefficient at degree > 0. */
    method SetCoef(i: int, valor: real) returns (ok: bool)
      requires Valid()
      modifies a
      ensures Valid()
      ensures ok <==> 0 <= i <= grau && !(i == grau && grau > 0 && valor == 0.0)
      ensures Coeffs() == if ok then old(Coeffs())[i := valor] else old(Coeffs())
    {
      if i < 0 || i > grau {
        return false;
      }
      if i == grau && grau > 0 && valor == 0.0 {
        return false;
      }
      a[i] := valor;
      return true;
    }

    /** operator==: same degree and the same coefficients, compared exactly. */
    method Equals(p: Poly) returns (eq: bool)
      requires Wellformed() && p.Wellformed()
      ensures eq <==> Coeffs() == p.Coeffs()
    {
      if grau != p.grau {
        return false;
      }
      for i := 0 to grau + 1
        invariant forall k :: 0 <= k < i ==> a[k] == p.a[k]
      {
        if a[i] != p.a[i] {
          assert Coeffs()[i] != p.Coeffs()[i];
          return false;
        }
      }
      if grau >= 0 {
        assert Coeffs() == p.Coeffs();
      }
      return true;
    }

    /** operator!=. */
    method NotEquals(p: Poly) returns (ne: bool)
      requires Wellformed() && p.Wellformed()
      ensures ne <==> Coeffs() != p.Coeffs()
    {
      var eq := Equals(p);
      ne := !eq;
    }

    /** empty(). */
    predicate Empty()
      reads this
      requires Wellformed()
      ensures Empty() <==> Coeffs() == []
    {
      grau < 0
    }

    /** isZero(): the zero polynomial, degree 0 with coefficient 0. */
    predicate IsZero()
      reads this, a
      requires Wellformed()
      ensures IsZero() <==> Coeffs() == [0.0]
    {
      grau == 0 && a[0] == 0.0
    }

    /** getValor(x), also operator(): the sum of a[i] * x^i with a running power of x. */
    method GetValor(x: real) returns (v: real)
      requires Wellformed()
      ensures v == Eval(Coeffs(), x)
    {
      if Empty() {
        return 0.0;
      }
      ghost var c := Coeffs();
      var resultado, potX := 0.0, 1.0;
      for i := 0 to grau + 1
        invariant resultado == PowerSum(c, i, x) && potX == Pow(x, i)
      {
        resultado := resultado + a[i] * potX;
        potX := potX * x;
      }
      EvalIsPowerSum(c, x);
      return resultado;
    }

    /** operator<<: the text of the polynomial, highest power first. */
    method Format() returns (s: string)
      requires Wellformed()
      ensures s == Text(Coeffs())
    {
      s := "";
      if Empty() {
        return;
      }
      ghost var c := Coeffs();
      var i := grau;
      while i >= 0
        invariant -1 <= i <= grau
        invariant s == TermsFrom(c, i + 1)
      {
        s := AppendTerm(c, s, i);
        i := i - 1;
      }
    }

    /** One pass of the loop of operator<<: the term of power i written after the higher ones. */
    method AppendTerm(ghost c: seq<real>, s: string, i: nat) returns (s': string)
      requires Wellformed() && c == Coeffs() && i <= grau
      requires s == TermsFrom(c, i + 1)
      ensures s' == TermsFrom(c, i)
    {
      var term := WriteTerm(a[i], i, grau);
      s' := s + term;
    }

    /** salvar: the tokens of the saved file. */
    method Salvar() returns (toks: seq<Token>)
      requires Wellformed()
      ensures toks == Saved(Coeffs())
    {
      toks := [Word("POLY"), Num(grau as real)];
      if grau >= 0 {
        var todosZeros := true;
        for i := 0 to grau + 1
          invariant todosZeros
          invariant forall k :: 0 <= k < i ==> a[k] == 0.0
        {
          if a[i] != 0.0 {
            todosZeros := false;
            break;
          }
        }
        if todosZeros {
          toks := toks + [Num(0.0)];
        } else {
          ghost var header := toks;
          for i := 0 to grau + 1
            invariant toks == header + Nums(Coeffs()[..i])
          {
            toks := toks + [Num(a[i])];
            assert Coeffs()[..i + 1] == Coeffs()[..i] + [a[i]];
          }
          assert Coeffs()[..grau + 1] == Coeffs();
        }
      } else {
        toks := toks + [Num(0.0)];
      }
    }

    /** ler: replaces the value with the one read, only when the tokens form a valid file. */
    method Ler(toks: seq<Token>) returns (ok: bool)
      requires Valid()
      modifies this
      ensures Valid()
      ensures ok <==> Load(toks).Loaded?
      ensures ok ==> Coeffs() == Load(toks).coeffs && (a == null || fresh(a))
      ensures !ok ==> grau == old(grau) && a == old(a)
    {
      if |toks| == 0 || toks[0] != Word("POLY") {
        return false;
      }
      if |toks| < 2 || ReadInt(toks[1]).None? {
        return false;
      }
      var novoGrau := ReadInt(toks[1]).value;
      if novoGrau < 0 {
        grau := -1;
        a := null;
        return true;
      }
      var coefTemp := new real[novoGrau + 1];
      for i := 0 to novoGrau + 1
        invariant grau == old(grau) && a == old(a)
        invariant 2 + i <= |toks|
        invariant forall k :: 2 <= k < 2 + i ==> toks[k].Num?
        invariant forall k :: 0 <= k < i ==> coefTemp[k] == toks[2 + k].value
      {
        if 2 + i >= |toks| || !toks[2 + i].Num? {
          return false;
        }
        coefTemp[i] := toks[2 + i].value;
      }
      assert coefTemp[..] == Coefficients(toks, novoGrau + 1);
      if coefTemp[novoGrau] == 0.0 {
        return false;
      }
      var todosZeros := true;
      for i := 0 to novoGrau + 1
        invariant grau == old(grau) && a == old(a)
        invariant todosZeros
        invariant forall k :: 0 <= k < i ==> coefTemp[k] == 0.0
      {
        if coefTemp[i] != 0.0 {
          todosZeros := false;
          break;
        }
      }
      if todosZeros {
        return false;
      }
      grau := novoGrau;
      a := coefTemp;
      return true;
    }

    /** Unary operator-: the same degree with every coefficient negated. */
    method Neg() returns (r: Poly)
      requires Wellformed()
      ensures fresh(r) && (r.a == null || fresh(r.a))
      ensures r.Wellformed() && r.Coeffs() == NegSpec(Coeffs())
      ensures Valid() ==> r.Valid()
    {
      if Empty() {
        r := new Poly.Copy(this);
        return;
      }
      r := new Poly.Copy(this);
      var buf := r.a;
      for i := 0 to grau + 1
        invariant r.a == buf && r.grau == grau
        invariant forall k :: 0 <= k < i ==> buf[k] == -a[k]
      {
        buf[i] := -a[i];
      }
    }

    /** operator+: the coefficient-wise sum over [0, max degree], then reduced. */
    method Add(p: Poly) returns (r: Poly)
      requires Wellformed() && p.Wellformed()
      ensures fresh(r) && (r.a == null || fresh(r.a))
      ensures r.Valid() && r.Coeffs() == TrimH(AddSpec(Coeffs(), p.Coeffs()))
    {
      if Empty() && p.Empty() {
        r := new Poly();
        return;
      }
      ghost var A, B := Coeffs(), p.Coeffs();
      r := SumBuffer(p, A, B, false);
      r.ReduzirGrau();
      assert Coeffs() == A && p.Coeffs() == B;
    }

    /** Binary operator-: the coefficient-wise difference over [0, max degree], then reduced. */
    method Sub(p: Poly) returns (r: Poly)
      requires Wellformed() && p.Wellformed()
      ensures fresh(r) && (r.a == null || fresh(r.a))
      ensures r.Valid() && r.Coeffs() == TrimH(SubSpec(Coeffs(), p.Coeffs()))
    {
      if Empty() && p.Empty() {
        r := new Poly();
        return;
      }
      ghost var A, B := Coeffs(), p.Coeffs();
      r := SumBuffer(p, A, B, true);
      r.ReduzirGrau();
      assert Coeffs() == A && p.Coeffs() == B;
    }

    /** The loop shared by operator+ and operator-: Poly(max degree) with coefficient i set to
        getCoef(i) + p.getCoef(i), or to getCoef(i) - p.getCoef(i) when minus holds. */
    method SumBuffer(p: Poly, ghost A: seq<real>, ghost B: seq<real>, minus: bool) returns (r: Poly)
      requires Wellformed() && p.Wellformed() && !(Empty() && p.Empty())
      requires A == Coeffs() && B == p.Coeffs()
      ensures fresh(r) && r.a != null && fresh(r.a) && r.Wellformed()
      ensures r.Coeffs() == if minus then SubSpec(A, B) else AddSpec(A, B)
    {
      var grauMax := Max(grau, p.grau);
      r := new Poly.OfDegree(grauMax);
      var buf := r.a;
      FillSum(p, buf, A, B, minus);
      assert r.Coeffs() == buf[..];
    }

    /** The for loop of operator+ and operator-, writing into the new buffer buf. */
    method FillSum(p: Poly, buf: array<real>, ghost A: seq<real>, ghost B: seq<real>, minus: bool)
      requires Wellformed() && p.Wellformed() && A == Coeffs() && B == p.Coeffs()
      requires buf != a && buf != p.a && buf.Length == Max(|A|, |B|)
      modifies buf
      ensures buf[..] == if minus then SubSpec(A, B) else AddSpec(A, B)
    {
      for i := 0 to buf.Length
        invariant forall k :: 0 <= k < i ==>
          buf[k] == if minus then Coef(A, k) - Coef(B, k) else Coef(A, k) + Coef(B, k)
      {
        if minus {
          buf[i] := GetCoef(i) - p.GetCoef(i);
        } else {
          buf[i] := GetCoef(i) + p.GetCoef(i);
        }
      }
    }

    /** reduzirGrau: lowers the degree past zero leading coefficients, never below 0, and moves
        the coefficients into a buffer of exactly grau + 1 slots. */
    method ReduzirGrau()
      requires Wellformed()
      modifies this
      ensures Valid() && a != null && fresh(a)
      ensures Coeffs() == TrimH(old(Coeffs()))
    {
      ghost var c := Coeffs();
      LowerDegree(c);
      var novoArray := CopyPrefix(a, grau + 1);
      a := novoArray;
      assert grau >= 0 ==> Coeffs() == c[..grau + 1];
    }

    /** The while loop of reduzirGrau: the degree drops past zero leading coefficients, down to
        0 at the lowest, the buffer staying as it is. */
    method LowerDegree(ghost c: seq<real>)
      requires Wellformed() && c == Coeffs()
      modifies this
      ensures a == old(a) && -1 <= grau <= old(grau) && (a == null ==> grau == -1)
      ensures a != null ==> grau < a.Length && a[..grau + 1] == c[..grau + 1]
      ensures TrimH(c) == TrimH(c[..grau + 1])
      ensures grau <= 0 || a[grau] != 0.0
    {
      while grau > 0 && a[grau] == 0.0
        invariant -1 <= grau <= old(grau)
        invariant a == old(a) && (a == null ==> grau == -1)
        invariant a != null ==> grau < a.Length && a[..grau + 1] == c[..grau + 1]
        invariant TrimH(c) == TrimH(c[..grau + 1])
        decreases grau
      {
        assert c[..grau + 1][..grau] == c[..grau];
        grau := grau - 1;
      }
    }

    /** operator*: empty with an empty operand, the zero polynomial with a zero operand, and
        otherwise the convolution of the coefficients at degree grau + p.grau, unreduced. */
    method Mul(p: Poly) returns (r: Poly)
      requires Wellformed() && p.Wellformed()
      ensures fresh(r) && (r.a == null || fresh(r.a))
      ensures r.Wellformed() && r.Coeffs() == MulSpec(Coeffs(), p.Coeffs())
      ensures Valid() && p.Valid() ==> r.Valid()
    {
      if Empty() || p.Empty() {
        r := new Poly();
        return;
      }
      if IsZero() || p.IsZero() {
        r := new Poly.OfDegree(0);
        return;
      }
      ghost var A, B := Coeffs(), p.Coeffs();
      r := Product(p, A, B);
      if Valid() && p.Valid() {
        MulCanonical(A, B);
      }
    }

    /** The general case of operator*: Poly(grau + p.grau), cleared, then a[i] * p.a[j] added onto
        coefficient i + j for every i and j. */
    method Product(p: Poly, ghost A: seq<real>, ghost B: seq<real>) returns (r: Poly)
      requires Wellformed() && p.Wellformed() && grau >= 0 && p.grau >= 0
      requires A == Coeffs() && B == p.Coeffs()
      ensures fresh(r) && r.a != null && fresh(r.a) && r.Wellformed()
      ensures r.Coeffs() == Conv(A, B)
    {
      var grauResultado := grau + p.grau;
      r := new Poly.OfDegree(grauResultado);
      var buf := r.a;
      for k := 0 to grauResultado + 1
        invariant r.a == buf && r.grau == grauResultado
        invariant forall j :: 0 <= j < k ==> buf[j] == 0.0
      {
        buf[k] := 0.0;
      }
      AccumulateProducts(p, buf, A, B);
      assert r.Coeffs() == buf[..];
    }

    /** The nested loop of operator*: adds a[i] * p.a[j] onto buf[i + j] for every i and j. */
    method AccumulateProducts(p: Poly, buf: array<real>, ghost A: seq<real>, ghost B: seq<real>)
      requires Wellformed() && p.Wellformed() && grau >= 0 && p.grau >= 0
      requires A == Coeffs() && B == p.Coeffs()
      requires buf.Length == grau + p.grau + 1 && buf != a && buf != p.a
      requires forall k :: 0 <= k < buf.Length ==> buf[k] == 0.0
      modifies buf
      ensures buf[..] == Conv(A, B)
    {
      for i := 0 to grau + 1
        invariant forall k :: 0 <= k < buf.Length ==> buf[k] == ConvAt(A, B, i, k)
      {
        AccumulateRow(p, buf, i, A, B);
      }
      assert buf[..] == Conv(A, B);
    }

    /** One pass of the outer loop of operator*: adds a[i] * p.a[j] onto buf[i + j] for every j. */
    method AccumulateRow(p: Poly, buf: array<real>, i: nat, ghost A: seq<real>, ghost B: seq<real>)
      requires Wellformed() && p.Wellformed() && i <= grau && p.grau >= 0
      requires A == Coeffs() && B == p.Coeffs()
      requires buf.Length == grau + p.grau + 1 && buf != a && buf != p.a
      requires forall k :: 0 <= k < buf.Length ==> buf[k] == ConvAt(A, B, i, k)
      modifies buf
      ensures forall k :: 0 <= k < buf.Length ==> buf[k] == ConvAt(A, B, i + 1, k)
    {
      PartialConvStart(A, B, i);
      for j := 0 to p.grau + 1
        invariant forall k :: 0 <= k < buf.Length ==> buf[k] == PartialConv(A, B, i, j, k)
      {
        PartialConvStep(A, B, i, j);
        buf[i + j] := buf[i + j] + a[i] * p.a[j];
      }
      PartialConvEnd(A, B, i);
    }
  }

  /** A new buffer of n slots holding the first n values of src (none when src is null). */
  method CopyPrefix(src: array?<real>, n: nat) returns (dst: array<real>)
    requires src == null ==> n == 0
    requires src != null ==> n <= src.Length
    ensures fresh(dst) && dst.Length == n
    ensures src != null ==> dst[..] == src[..n]
  {
    dst := new real[n];
    for i := 0 to n
      invariant forall k :: 0 <= k < i ==> dst[k] == src[k]
    {
      dst[i] := src[i];
    }
  }

  // -----------------------------------------------------------------------------------------------
  // The text written by operator<<.

  /** The text of the term of power i in a polynomial of degree top: nothing for a zero
      coefficient unless it is the whole (zero) polynomial; `*` only where a magnitude is shown. */
  function TermText(coef: real, i: nat, top: nat): string
  {
    if coef == 0.0 then
      (if i == 0 && top == 0 then NumStr(0.0) else "")
    else
      SignText(coef, i, top) + TermBody(coef, i)
  }

  /** A term after its sign: the magnitude, then `*x^i` with the star only after a magnitude. */
  function TermBody(coef: real, i: nat): string
  {
    MagnitudeText(coef, i)
    + (if i != 0 then (if coef != 1.0 && coef != -1.0 then "*" else "") + "x" + ExponentText(i) else "")
  }

  /** One term of operator<<, written piece by piece; TermText is the same rendering as a
      function, and LeadTermShape and TermTextZero are proved about it. */
  method WriteTerm(coef: real, i: nat, grau: nat) returns (term: string)
    ensures term == TermText(coef, i, grau)
  {
    term := "";
    if coef == 0.0 {
      if i == 0 && grau == 0 {
        term := NumStr(coef);
      }
    } else {
      var sign, magnitude, power := "", "", "";
      if coef < 0.0 {
        sign := "-";
      } else if i != grau {
        sign := "+";
      }
      if (coef != 1.0 && coef != -1.0) || i == 0 {
        var absolute := if coef < 0.0 then -coef else coef;
        assert absolute == Abs(coef);
        magnitude := NumStr(absolute);
      }
      if i != 0 {
        if coef != 1.0 && coef != -1.0 {
          power := "*";
        }
        power := power + "x";
        if i > 1 {
          power := power + ("^" + NatStr(i));
        }
      }
      assert sign == SignText(coef, i, grau);
      assert magnitude == MagnitudeText(coef, i);
      assert power == if i != 0 then (if coef != 1.0 && coef != -1.0 then "*" else "") + "x" + ExponentText(i) else "";
      term := sign + (magnitude + power);
    }
  }

  /** The terms of powers top down to lo. */
  function TermsFrom(c: seq<real>, lo: nat): string
    requires lo <= |c|
    decreases |c| - lo
  {
    if lo == |c| then "" else TermsFrom(c, lo + 1) + TermText(c[lo], lo, |c| - 1)
  }

  function Text(c: seq<real>): string
  {
    TermsFrom(c, 0)
  }

  // -----------------------------------------------------------------------------------------------
  // The saved file.

  /** What salvar writes: POLY, the degree, then the coefficients from power 0 up; an all-zero
      or empty polynomial is written with the single number 0 instead. */
  function Saved(c: seq<real>): seq<Token>
  {
    [Word("POLY"), Num((|c| - 1) as real)] + (if |c| == 0 || AllZero(c) then [Num(0.0)] else Nums(c))
  }

  /** What ler accepts: POLY, an integer degree (negative meaning empty), then degree + 1
      numbers whose last is non-zero and which are not all zero. */
  function Load(toks: seq<Token>): LoadResult
  {
    if |toks| == 0 || toks[0] != Word("POLY") then Failed(BadHeader)
    else if |toks| < 2 || ReadInt(toks[1]).None? then Failed(BadDegree)
    else
      var g := ReadInt(toks[1]).value;
      if g < 0 then Loaded([])
      else if !CoefficientsAvailable(toks, g + 1) then Failed(MissingCoefficient)
      else
        var c := Coefficients(toks, g + 1);
        if c[g] == 0.0 then Failed(LeadingZero)
        else if AllZero(c) then Failed(AllZeros)
        else Loaded(c)
  }

  // -----------------------------------------------------------------------------------------------
  // Properties.

  lemma MulCanonical(p: seq<real>, q: seq<real>)
    requires Canonical(p) && Canonical(q)
    ensures Canonical(MulSpec(p, q))
    ensures p != [] && q != [] && p != [0.0] && q != [0.0] ==> |MulSpec(p, q)| == |p| + |q| - 1
  {
    if p != [] && q != [] && p != [0.0] && q != [0.0] {
      ConvLeading(p, q);
      assert p[|p| - 1] != 0.0 && q[|q| - 1] != 0.0;
    }
  }

  /** Poly(n) for n > 0 denotes x^n. */
  lemma MonomialEval(n: int, x: real)
    requires n > 0
    ensures Eval(Monomial(n), x) == Pow(x, n)
  {
    MonomialFrom(n, 0, x);
  }

  /** Read from power i up, x^n is x^(n - i). */
  lemma {:induction false} MonomialFrom(n: int, i: nat, x: real)
    requires 0 < n && i <= n
    ensures HornerFrom(Monomial(n), i, x) == Pow(x, n - i)
    decreases n - i
  {
    var m := Monomial(n);
    HornerNext(m, i, x);
    if i == n {
      HornerPastEnd(m, n + 1, x);
      assert Coef(m, n) == 1.0;
    } else {
      MonomialFrom(n, i + 1, x);
      assert Coef(m, i) == 0.0;
      PowNext(x, n - i - 1);
    }
  }

  /** The sum denotes the sum of the values, whatever the operands. */
  lemma EvalAddH(p: seq<real>, q: seq<real>, x: real)
    ensures Eval(TrimH(AddSpec(p, q)), x) == Eval(p, x) + Eval(q, x)
  {
    EvalTrimH(AddSpec(p, q), x);
    EvalAdd(p, q, x);
  }

  /** The difference denotes the difference of the values. */
  lemma EvalSubH(p: seq<real>, q: seq<real>, x: real)
    ensures Eval(TrimH(SubSpec(p, q)), x) == Eval(p, x) - Eval(q, x)
  {
    EvalTrimH(SubSpec(p, q), x);
    EvalSub(p, q, x);
  }

  /** operator+ is commutative, has the empty polynomial as identity on canonical operands, and
      never raises the degree above the larger operand's. */
  lemma AddAlgebraH(p: seq<real>, q: seq<real>)
    ensures TrimH(AddSpec(p, q)) == TrimH(AddSpec(q, p))
    ensures |TrimH(AddSpec(p, q))| <= Max(|p|, |q|)
    ensures Canonical(p) ==> TrimH(AddSpec(p, [])) == p && TrimH(AddSpec([], p)) == p
  {
    AddCommutes(p, q);
    AddLength(p, q);
    AddEmpty(p);
    if Canonical(p) {
      TrimHCanonical(p);
    }
  }

  /** p - p is the zero polynomial, for a non-empty p. */
  lemma SubSelfH(c: seq<real>)
    requires |c| > 0
    ensures TrimH(SubSpec(c, c)) == [0.0]
  {
    SubIsAddNeg(c, c);
    AddNegIsZero(c);
    var d := SubSpec(c, c);
    var r := TrimH(d);
    assert forall k :: 0 <= k < |r| ==> r[k] == 0.0;
  }

  /** Unary minus keeps the degree and the canonical form, and undoes itself. */
  lemma NegH(c: seq<real>)
    ensures |NegSpec(c)| == |c|
    ensures Canonical(c) ==> Canonical(NegSpec(c))
    ensures NegSpec(NegSpec(c)) == c
  {
    NegInvolutive(c);
  }

  /** The product denotes the product of the values, in every branch of operator*. */
  lemma EvalMulH(p: seq<real>, q: seq<real>, x: real)
    ensures Eval(MulSpec(p, q), x) == Eval(p, x) * Eval(q, x)
  {
    if p == [] || q == [] {
    } else if p == [0.0] || q == [0.0] {
      HornerNext([0.0], 0, x);
      HornerPastEnd([0.0], 1, x);
    } else {
      EvalConv(p, q, x);
    }
  }

  /** (x - 1)(x + 1) is x^2 - 1. */
  lemma MulExample()
    ensures MulSpec([-1.0, 1.0], [1.0, 1.0]) == [-1.0, 0.0, 1.0]
  {
    var p, q := [-1.0, 1.0], [1.0, 1.0];
    assert ConvAt(p, q, 2, 0) == -1.0;
    assert ConvAt(p, q, 2, 1) == 0.0;
    assert ConvAt(p, q, 2, 2) == 1.0;
  }

  // -----------------------------------------------------------------------------------------------
  // The text.

  /** The zero polynomial prints as 0 and the empty one as nothing. */
  lemma TextOfConstants()
    ensures Text([]) == ""
    ensures Text([0.0]) == "0"
  {
    assert NumStr(0.0) == "0";
  }

  /** 3x^2 + 1 prints with a `*` after the magnitude and a `+` before the constant. */
  lemma TextOfSquare()
    ensures Text([1.0, 0.0, 3.0]) == "3*x^2+1"
  {
    var c := [1.0, 0.0, 3.0];
    assert NumStr(3.0) == "3" && NatStr(2) == "2" && NumStr(1.0) == "1";
    assert TermText(3.0, 2, 2) == "3*x^2";
    assert TermText(0.0, 1, 2) == "";
    assert TermText(1.0, 0, 2) == "+1";
    assert TermsFrom(c, 2) == "3*x^2";
    assert TermsFrom(c, 1) == "3*x^2";
  }

  /** Magnitudes of 1 are left out except on the constant term. */
  lemma TextOfCube()
    ensures Text([-1.0, 0.0, 0.0, -1.0]) == "-x^3-1"
  {
    var c := [-1.0, 0.0, 0.0, -1.0];
    assert NatStr(3) == "3" && NumStr(1.0) == "1";
    assert TermText(-1.0, 3, 3) == "-x^3";
    assert TermText(0.0, 2, 3) == "" && TermText(0.0, 1, 3) == "";
    assert TermText(-1.0, 0, 3) == "-1";
    assert TermsFrom(c, 3) == "-x^3";
    assert TermsFrom(c, 1) == "-x^3";
  }

  /** The term of the highest power, written first. */
  function LeadText(c: seq<real>): string
    requires |c| > 0
  {
    TermText(c[|c| - 1], |c| - 1, |c| - 1)
  }

  /** The terms of the powers from lo up start with the leading term. */
  lemma TermsFromStartsWithLeading(c: seq<real>, lo: nat)
    requires lo < |c|
    ensures |LeadText(c)| <= |TermsFrom(c, lo)| && TermsFrom(c, lo)[..|LeadText(c)|] == LeadText(c)
  {
    TermsFromTop(c);
    TermsFromKeepsPrefix(c, lo, |c| - 1, LeadText(c));
  }

  /** The text of the highest power alone is the leading term. */
  lemma TermsFromTop(c: seq<real>)
    requires |c| > 0
    ensures |LeadText(c)| <= |TermsFrom(c, |c| - 1)| && TermsFrom(c, |c| - 1)[..|LeadText(c)|] == LeadText(c)
  {
    var top := |c| - 1;
    assert TermsFrom(c, top + 1) == "";
    PrefixOfEmptyConcat(LeadText(c));
  }

  /** A prefix of the text from power k up is a prefix of the text from any lower power up,
      the lower terms being written after it. */
  lemma {:induction false} TermsFromKeepsPrefix(c: seq<real>, lo: nat, k: nat, t: string)
    requires lo <= k <= |c| && |t| <= |TermsFrom(c, k)| && TermsFrom(c, k)[..|t|] == t
    ensures |t| <= |TermsFrom(c, lo)| && TermsFrom(c, lo)[..|t|] == t
    decreases k - lo
  {
    if lo < k {
      TermsFromKeepsPrefix(c, lo + 1, k, t);
      TermsFromPrefixStep(c, lo, t);
    }
  }

  lemma TermsFromPrefixStep(c: seq<real>, lo: nat, t: string)
    requires lo < |c| && |t| <= |TermsFrom(c, lo + 1)| && TermsFrom(c, lo + 1)[..|t|] == t
    ensures |t| <= |TermsFrom(c, lo)| && TermsFrom(c, lo)[..|t|] == t
  {
    PrefixOfConcat(TermsFrom(c, lo + 1), TermText(c[lo], lo, |c| - 1), t);
  }

  /** The leading term of a non-zero polynomial is not empty, has no `+`, and starts with `-`
      exactly for a negative coefficient. */
  lemma LeadTermShape(coef: real, top: nat)
    requires coef != 0.0
    ensures var t := TermText(coef, top, top); |t| > 0 && t[0] != '+' && (t[0] == '-' <==> coef < 0.0)
  {
    var sign, body := SignText(coef, top, top), TermBody(coef, top);
    assert sign == if coef < 0.0 then "-" else "";
    TermBodyStart(coef, top);
    assert TermText(coef, top, top) == sign + body;
  }

  /** A term body starts with a digit of the magnitude or with x. */
  lemma TermBodyStart(coef: real, i: nat)
    ensures |TermBody(coef, i)| > 0
    ensures TermBody(coef, i)[0] == 'x' || IsDigit(TermBody(coef, i)[0])
  {
    if (coef != 1.0 && coef != -1.0) || i == 0 {
      var m := NumStr(Abs(coef));
      assert MagnitudeText(coef, i) == m;
      assert TermBody(coef, i)[0] == m[0];
    }
  }

  /** A non-zero polynomial's text is not empty, never starts with `+`, and starts with `-`
      exactly when the leading coefficient is negative. */
  lemma TextLeading(c: seq<real>)
    requires Canonical(c) && |c| > 0 && c != [0.0]
    ensures |Text(c)| > 0 && Text(c)[0] != '+'
    ensures Text(c)[0] == '-' <==> c[|c| - 1] < 0.0
  {
    if |c| == 1 {
      assert c == [c[0]];
    }
    assert c[|c| - 1] != 0.0;
    LeadTermShape(c[|c| - 1], |c| - 1);
    TermsFromStartsWithLeading(c, 0);
    var lead := LeadText(c);
    assert lead[0] == Text(c)[..|lead|][0];
  }

  /** A zero coefficient below the top contributes nothing. */
  lemma TermTextZero(i: nat, top: nat)
    requires i > 0 || top > 0
    ensures TermText(0.0, i, top) == ""
  {
  }

  // -----------------------------------------------------------------------------------------------
  // Saving and loading.

  /** Saving then loading restores the empty polynomial and every polynomial whose leading
      coefficient is non-zero. */
  lemma SaveLoad(c: seq<real>)
    requires c == [] || c[|c| - 1] != 0.0
    ensures Load(Saved(c)) == Loaded(c)
  {
    ReadIntOfInt(|c| - 1);
    var header := [Word("POLY"), Num((|c| - 1) as real)];
    if c == [] {
      assert Saved(c) == header + [Num(0.0)];
    } else {
      assert !AllZero(c);
      var toks := header + Nums(c) + [];
      assert Saved(c) == toks;
      CoefficientsOfNums(header, c, []);
      assert toks[0] == Word("POLY") && toks[1] == Num((|c| - 1) as real);
    }
  }

  /** The zero polynomial is written as POLY 0 / 0 and then refused for its zero leading
      coefficient. */
  lemma SaveLoadZeroRejected()
    ensures Saved([0.0]) == [Word("POLY"), Num(0.0), Num(0.0)]
    ensures Load(Saved([0.0])) == Failed(LeadingZero)
  {
    ReadIntOfInt(0);
    assert AllZero([0.0]);
    assert Coefficients(Saved([0.0]), 1) == [0.0];
  }

  /** A degree-2 file whose coefficients are all zero is refused for its zero leading
      coefficient. */
  lemma LoadLeadingZeroExample()
    ensures Load([Word("POLY"), Num(2.0), Num(0.0), Num(0.0), Num(0.0)]) == Failed(LeadingZero)
  {
    var toks := [Word("POLY"), Num(2.0), Num(0.0), Num(0.0), Num(0.0)];
    ReadIntOfInt(2);
    assert Coefficients(toks, 3)[2] == 0.0;
  }

  /** What loads is canonical and not the zero polynomial; the all-zero refusal is never
      reached, the leading-zero refusal coming first. */
  lemma LoadResultShape(toks: seq<Token>)
    ensures Load(toks).Loaded? ==> Canonical(Load(toks).coeffs) && Load(toks).coeffs != [0.0]
    ensures Load(toks) != Failed(AllZeros)
  {
  }

  /** ler with both zero refusals applied only at degree > 0. The comments of the all-zero
      check (Poly/Poly.h:332, 342) limit it to degree > 0, and salvar's comment (Poly/Poly.h:266)
      says the zero polynomial is saved as degree 0 with coefficient 0, so that file is meant to
      load; the leading-zero check is given the same degree bound. The correction leaves the
      all-zero check as unreachable as it is in ler (LoadIntendedCanonical); it is kept to
      mirror the source. */
  function LoadIntended(toks: seq<Token>): LoadResult
  {
    if |toks| == 0 || toks[0] != Word("POLY") then Failed(BadHeader)
    else if |toks| < 2 || ReadInt(toks[1]).None? then Failed(BadDegree)
    else
      var g := ReadInt(toks[1]).value;
      if g < 0 then Loaded([])
      else if !CoefficientsAvailable(toks, g + 1) then Failed(MissingCoefficient)
      else
        var c := Coefficients(toks, g + 1);
        if g > 0 && c[g] == 0.0 then Failed(LeadingZero)
        else if g > 0 && AllZero(c) then Failed(AllZeros)
        else Loaded(c)
  }

  /** With the intended checks every canonical polynomial, the zero polynomial included,
      survives saving and loading, and what loads is canonical. */
  lemma SaveLoadIntended(c: seq<real>)
    requires Canonical(c)
    ensures LoadIntended(Saved(c)) == Loaded(c)
  {
    ReadIntOfInt(|c| - 1);
    if c == [0.0] {
      assert AllZero(c);
      assert Coefficients(Saved(c), 1) == [0.0];
    } else if c != [] {
      if |c| == 1 {
        assert c == [c[0]];
      }
      assert c[|c| - 1] != 0.0;
      assert !AllZero(c);
      CoefficientsOfNums([Word("POLY"), Num((|c| - 1) as real)], c, []);
      assert Saved(c) == [Word("POLY"), Num((|c| - 1) as real)] + Nums(c) + [];
    }
  }

  /** What the corrected loader yields is canonical, and its all-zero refusal is never reached. */
  lemma LoadIntendedCanonical(toks: seq<Token>)
    ensures LoadIntended(toks).Loaded? ==> Canonical(LoadIntended(toks).coeffs)
    ensures LoadIntended(toks) != Failed(AllZeros)
  {
  }
}
