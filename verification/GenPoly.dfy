/** The polynomial generator: from n facts about derivatives to the coefficients. */
module GenPoly {
  import opened LinearAlgebra
  import opened GaussJordan
  import opened Polynomial

  /** n! / d! by repeated multiplication. */
  method FacFrac(n: nat, d: nat) returns (res: real)
    requires d <= n
    ensures res == FallingFactorial(n, d) && res * Factorial(d) == Factorial(n)
  {
    res := 1.0;
    var i := d + 1;
    while i <= n
      invariant d + 1 <= i <= n + 1 && res == FallingFactorial(i - 1, d)
    {
      res := res * i as real;
      i := i + 1;
    }
    FallingIsQuotient(n, d);
  }

  /** x to the power k, as the library's pow() for whole exponents. */
  method Pow(x: real, k: nat) returns (r: real)
    ensures r == Power(x, k)
  {
    r := 1.0;
    var i := 0;
    while i < k
      invariant i <= k && r == Power(x, i)
    {
      r := x * r;
      i := i + 1;
    }
  }

  /** c satisfies the first p facts. */
  ghost predicate SatisfiesAll(c: seq<real>, infos: seq<Info>, p: nat)
    requires p <= |infos|
  {
    forall j :: 0 <= j < p ==> Satisfies(c, infos[j])
  }

  /** The first p facts alone, made homogeneous, admit no nonzero polynomial of degree below p. */
  ghost predicate Determined(infos: seq<Info>, n: nat, p: nat)
    requires p <= |infos| && p <= n
  {
    forall c: seq<real> ::
      |c| == n && Short(c, p) && (forall j :: 0 <= j < p ==> Satisfies(c, infos[j].(py := 0.0))) ==> AllZero(c)
  }

  ghost function System(infos: seq<Info>, n: nat): (M: seq<seq<real>>)
    requires |infos| == n
    ensures Square(M, n) && forall j {:trigger M[j]} :: 0 <= j < n ==> M[j] == InfoRow(n, infos[j].px, infos[j].a)
  {
    seq(n, j requires 0 <= j < n => InfoRow(n, infos[j].px, infos[j].a))
  }

  ghost function Values(infos: seq<Info>): (b: seq<real>)
    ensures |b| == |infos| && forall j {:trigger b[j]} :: 0 <= j < |b| ==> b[j] == infos[j].py
  {
    seq(|infos|, j requires 0 <= j < |infos| => infos[j].py)
  }

  lemma SolvesIsSatisfies(infos: seq<Info>, n: nat, c: seq<real>)
    requires |infos| == n == |c|
    ensures Solves(System(infos, n), c, Values(infos), n) <==> SatisfiesAll(c, infos, n)
  {
    hide Dot, Eval, Derivative;
    forall j | 0 <= j < n ensures Dot(System(infos, n)[j], c) == Values(infos)[j] <==> Satisfies(c, infos[j]) {
      RowIsDerivative(c, infos[j].px, infos[j].a);
    }
  }

  lemma RegularIsDetermined(infos: seq<Info>, n: nat, p: nat)
    requires |infos| == n && p <= n
    ensures LeadingRegular(System(infos, n), n, p) <==> Determined(infos, n, p)
  {
    hide Dot, Eval, Derivative;
    forall c: seq<real> | |c| == n
      ensures Solves(System(infos, n), c, Zeros(n), p) <==> forall j :: 0 <= j < p ==>
                Satisfies(c, infos[j].(py := 0.0))
    {
      forall j | 0 <= j < p ensures Dot(System(infos, n)[j], c) == 0.0 <==> Satisfies(c, infos[j].(py := 0.0)) {
        RowIsDerivative(c, infos[j].px, infos[j].a);
      }
    }
  }

  lemma EntryIs(i: nat, px: real, a: nat)
    ensures Entry(i, px, a) == if i < a then 0.0 else FallingFactorial(i, i - a) * Power(px, i - a)
  {
  }

  lemma AllDetermined(infos: seq<Info>, n: nat)
    requires |infos| == n && forall j :: 0 <= j < n ==> infos[j].a < n
    ensures (forall p :: 1 <= p <= n ==> LeadingRegular(System(infos, n), n, p)) <==>
            forall p :: 1 <= p <= n ==> Determined(infos, n, p)
  {
    hide LeadingRegular, Determined, System;
    forall p | 1 <= p <= n ensures LeadingRegular(System(infos, n), n, p) <==> Determined(infos, n, p) {
      RegularIsDetermined(infos, n, p);
    }
  }

  /** The one solution of the system is the one list of coefficients that satisfies the facts. */
  lemma OnlyOne(infos: seq<Info>, n: nat, x: seq<real>)
    requires |infos| == n == |x| && (forall j :: 0 <= j < n ==> infos[j].a < n)
    requires Solves(System(infos, n), x, Values(infos), n)
    requires forall c: seq<real> :: |c| == n && Solves(System(infos, n), c, Values(infos), n) ==> c == x
    ensures SatisfiesAll(x, infos, n) && forall c: seq<real> :: |c| == n && SatisfiesAll(c, infos, n) ==> c == x
  {
    hide Solves, SatisfiesAll, System, Values;
    SolvesIsSatisfies(infos, n, x);
    forall c: seq<real> | |c| == n && SatisfiesAll(c, infos, n) ensures c == x { SolvesIsSatisfies(infos, n, c); }
  }

  class GenPoly {
    var n: nat
    var iidx: nat
    /** Coefficients of the equations: f[j, i] belongs to equation j; r are the right sides. */
    var f: array2<real>
    var r: array<real>
    ghost var infos: seq<Info>

    ghost predicate Valid()
      reads this, f, r
    {
      && f.Length0 == n && f.Length1 == n && r.Length == n
      && iidx == |infos| <= n
      && (forall j :: 0 <= j < iidx ==> infos[j].a < n && r[j] == infos[j].py)
      && (forall j, i {:trigger f[j, i]} :: 0 <= j < iidx && 0 <= i < n ==>
            f[j, i] == Entry(i, infos[j].px, infos[j].a))
    }

    constructor (polyN: int)
      requires polyN >= -1
      ensures Valid() && fresh(f) && fresh(r) && n == polyN + 1 && infos == []
    {
      n := polyN + 1;
      iidx := 0;
      f := new real[polyN + 1, polyN + 1];
      r := new real[polyN + 1];
      infos := [];
    }

    /** Write the coefficients of the next equation. */
    method PutEquation(px: real, a: nat)
      requires f.Length0 == n && f.Length1 == n && iidx < n && a < n
      modifies f
      ensures forall j, k {:trigger f[j, k]} :: 0 <= j < n && 0 <= k < n ==>
                f[j, k] == if j == iidx then Entry(k, px, a) else old(f[j, k])
    {
      hide Entry, FallingFactorial, Power, Factorial;
      var i := 0;
      while i < a
        invariant i <= a
        invariant forall j, k {:trigger f[j, k]} :: 0 <= j < n && 0 <= k < n ==>
                  f[j, k] == if j == iidx && k < i then Entry(k, px, a) else old(f[j, k])
      {
        EntryIs(i, px, a);
        f[iidx, i] := 0.0;
        i := i + 1;
      }
      while i < n
        invariant a <= i <= n
        invariant forall j, k {:trigger f[j, k]} :: 0 <= j < n && 0 <= k < n ==>
                  f[j, k] == if j == iidx && k < i then Entry(k, px, a) else old(f[j, k])
      {
        var q := FacFrac(i, i - a);
        var p := Pow(px, i - a);
        EntryIs(i, px, a);
        f[iidx, i] := q * p;
        i := i + 1;
      }
    }

    /** Record "the a-th derivative at px is py". */
    method AddInfo(px: real, py: real, a: int) returns (rv: int)
      requires Valid()
      modifies this`iidx, this`infos, f, r
      ensures Valid()
      ensures rv == if old(iidx) >= n then -1 else if a < 0 || a >= n then -2 else 0
      ensures infos == if rv == 0 then old(infos) + [Info(px, py, a)] else old(infos)
    {
      hide Entry, FallingFactorial, Power, Factorial;
      if iidx >= n { return -1; }
      if a < 0 || a >= n { return -2; }
      PutEquation(px, a);
      r[iidx] := py;
      iidx := iidx + 1;
      infos := infos + [Info(px, py, a)];
      return 0;
    }

    /** Solve for the coefficients. -1: too few facts; 1: elimination met a zero pivot; 0: done. */
    method Generate(coeff: array<real>) returns (rv: int)
      requires Valid() && coeff.Length == n && coeff != r
      modifies coeff
      ensures Valid()
      ensures rv == -1 <==> |infos| < n
      ensures rv == -1 ==> coeff[..] == old(coeff[..])
      ensures rv == 1 ==> AllZero(coeff[..])
      ensures rv == 0 ==> SatisfiesAll(coeff[..], infos, n)
      ensures rv == 0 ==> forall c: seq<real> :: |c| == n && SatisfiesAll(c, infos, n) ==> c == coeff[..]
      ensures rv == 0 || rv == 1 || rv == -1
      ensures rv == 0 <==> |infos| == n && forall p :: 1 <= p <= n ==> Determined(infos, n, p)
    {
      hide Dot, Solves, LeadingRegular, SatisfiesAll, Determined, Entry;
      if iidx < n { return -1; }
      var mat, invMat := new real[n, n], new real[n, n];
      var res := new real[n];
      Setup(mat, invMat, res, coeff);
      ghost var M, b := System(infos, n), Values(infos);
      assert res[..] == b;
      RowsAre(mat, n, M);
      UnitRows(invMat, n);
      var ok := InvertMatrix(invMat, mat, n);
      AllDetermined(infos, n);
      if !ok { return 1; }
      MatrixMulVect(coeff, invMat, res, n);
      assert res[..] == b;
      assert Solves(M, coeff[..], b, n);
      OnlyOne(infos, n, coeff[..]);
      return 0;
    }

    /** Copy the equations into a matrix, prepare the identity and the right side. */
    method Setup(mat: array2<real>, invMat: array2<real>, res: array<real>, coeff: array<real>)
      requires Valid() && iidx == n && Sized(mat, n) && Sized(invMat, n) && mat != invMat
      requires res.Length == n == coeff.Length
      requires mat != f && invMat != f && res != r && coeff != r && coeff != res
      modifies mat, invMat, res, coeff
      ensures Valid()
      ensures forall i, j {:trigger mat[i, j]} :: 0 <= i < n && 0 <= j < n ==>
                mat[i, j] == Entry(i, infos[j].px, infos[j].a)
      ensures forall i, j {:trigger invMat[i, j]} :: 0 <= i < n && 0 <= j < n ==>
                invMat[i, j] == if i == j then 1.0 else 0.0
      ensures forall i :: 0 <= i < n ==> res[i] == infos[i].py && coeff[i] == 0.0
    {
      hide Entry;
      var i := 0;
      while i < n
        invariant i <= n && Valid()
        invariant forall c, j {:trigger mat[c, j]} :: 0 <= c < i && 0 <= j < n ==> mat[c, j] == f[j, c]
        invariant forall c, j {:trigger invMat[c, j]} :: 0 <= c < i && 0 <= j < n ==>
                  invMat[c, j] == if c == j then 1.0 else 0.0
        invariant forall c :: 0 <= c < i ==> res[c] == infos[c].py && coeff[c] == 0.0
      {
        SetupColumn(mat, invMat, i);
        res[i] := r[i];
        coeff[i] := 0.0;
        i := i + 1;
      }
    }

    method SetupColumn(mat: array2<real>, invMat: array2<real>, i: nat)
      requires Valid() && Sized(mat, n) && Sized(invMat, n) && mat != invMat && mat != f && invMat != f && i < n
      modifies mat, invMat
      ensures forall c, q {:trigger mat[c, q]} :: 0 <= c < n && 0 <= q < n ==>
                mat[c, q] == if c == i then f[q, c] else old(mat[c, q])
      ensures forall c, q {:trigger invMat[c, q]} :: 0 <= c < n && 0 <= q < n ==>
                invMat[c, q] == if c == i then (if c == q then 1.0 else 0.0) else old(invMat[c, q])
    {
      var j := 0;
      while j < n
        invariant j <= n
        invariant forall c, q {:trigger mat[c, q]} :: 0 <= c < n && 0 <= q < n ==>
                  mat[c, q] == if c == i && q < j then f[q, c] else old(mat[c, q])
        invariant forall c, q {:trigger invMat[c, q]} :: 0 <= c < n && 0 <= q < n ==>
                  invMat[c, q] == if c == i && q < j then (if c == q then 1.0 else 0.0) else old(invMat[c, q])
      {
        mat[i, j] := f[j, i];
        invMat[i, j] := if i == j then 1.0 else 0.0;
        j := j + 1;
      }
    }
  }

  lemma UnitRows(a: array2<real>, n: nat)
    requires Sized(a, n)
    requires forall i, j {:trigger a[i, j]} :: 0 <= i < n && 0 <= j < n ==> a[i, j] == if i == j then 1.0 else 0.0
    ensures Identity(Rows(a, n), n)
  {
    forall r, c | 0 <= r < n && 0 <= c < n ensures Rows(a, n)[r][c] == if r == c then 1.0 else 0.0 {
      assert Rows(a, n)[r][c] == a[c, r];
    }
  }

  // ----- the order of the facts matters

  const SLOPE := Info(0.0, 1.0, 1)
  const POINT := Info(0.0, 0.0, 0)

  lemma TwoCoefficients(c: seq<real>)
    requires |c| == 2
    ensures Eval(Derivative(c, 0), 0.0) == c[0] && Eval(Derivative(c, 1), 0.0) == c[1]
  {
    assert Derive(c) == [c[1]];
    assert Eval(c, 0.0) == c[0] + 0.0 * Eval(c[1..], 0.0);
    assert Derivative(c, 1) == Derivative(Derive(c), 0) == [c[1]];
    assert Eval([c[1]], 0.0) == c[1] + 0.0 * Eval([], 0.0);
  }

  /** "p'(0) = 1, p(0) = 0" has exactly one solution of degree 1, yet elimination fails on it: the first fact alone
      says nothing about constants. In the other order it succeeds. */
  lemma OrderMatters()
    ensures forall c: seq<real> :: |c| == 2 ==> (SatisfiesAll(c, [SLOPE, POINT], 2) <==> c == [0.0, 1.0])
    ensures !Determined([SLOPE, POINT], 2, 1)
    ensures forall p :: 1 <= p <= 2 ==> Determined([POINT, SLOPE], 2, p)
  {
    hide Eval, Derivative;
    forall c: seq<real> | |c| == 2
      ensures Satisfies(c, SLOPE) <==> c[1] == 1.0
      ensures Satisfies(c, SLOPE.(py := 0.0)) <==> c[1] == 0.0
      ensures Satisfies(c, POINT) <==> c[0] == 0.0
      ensures Satisfies(c, POINT.(py := 0.0)) <==> c[0] == 0.0
    {
      TwoCoefficients(c);
    }
    var i, k := [SLOPE, POINT], [POINT, SLOPE];
    assert i[0] == SLOPE && i[1] == POINT && k[0] == POINT && k[1] == SLOPE;
    var one := [1.0, 0.0];
    assert Short(one, 1) && !AllZero(one) by { assert one[0] == 1.0; }
    assert Satisfies(one, i[0].(py := 0.0));
  }
}
