/** Polynomials as coefficient sequences, their formal derivatives, and the equation that a derivative fact puts on
    the coefficients. */
module Polynomial {
  import opened LinearAlgebra

  /** The a-th derivative of the polynomial at px is py. */
  datatype Info = Info(px: real, py: real, a: nat)

  ghost function Power(x: real, k: nat): real {
    if k == 0 then 1.0 else x * Power(x, k - 1)
  }

  /** c0 + c1 x + c2 x^2 + ... */
  ghost function Eval(c: seq<real>, x: real): real {
    if c == [] then 0.0 else c[0] + x * Eval(c[1..], x)
  }

  ghost function Derive(c: seq<real>): (d: seq<real>)
    ensures |d| == if c == [] then 0 else |c| - 1
    ensures forall i :: 0 <= i < |d| ==> d[i] == Times((i + 1) as real, c[i + 1])
  {
    if c == [] then [] else seq(|c| - 1, i requires 0 <= i < |c| - 1 => Times((i + 1) as real, c[i + 1]))
  }

  /** The a-th formal derivative. */
  ghost function Derivative(c: seq<real>, a: nat): seq<real>
    decreases a
  {
    if a == 0 then c else Derivative(Derive(c), a - 1)
  }

  /** n! / d! */
  ghost function FallingFactorial(n: nat, d: nat): real
    requires d <= n
    decreases n - d
  {
    if n == d then 1.0 else n as real * FallingFactorial(n - 1, d)
  }

  ghost function Factorial(n: nat): real {
    if n == 0 then 1.0 else n as real * Factorial(n - 1)
  }

  lemma {:induction false} FallingIsQuotient(n: nat, d: nat)
    requires d <= n
    ensures FallingFactorial(n, d) * Factorial(d) == Factorial(n)
    decreases n - d
  {
    if n <= d {
    } else {
      FallingIsQuotient(n - 1, d);
      assert n as real * FallingFactorial(n - 1, d) * Factorial(d) ==
             n as real * (FallingFactorial(n - 1, d) * Factorial(d));
    }
  }

  /** Coefficient i of the equation: (d/dx)^a x^i at px. */
  ghost function Entry(i: nat, px: real, a: nat): real {
    if i < a then 0.0 else FallingFactorial(i, i - a) * Power(px, i - a)
  }

  ghost function InfoRow(n: nat, px: real, a: nat): (row: seq<real>)
    ensures |row| == n && forall i {:trigger row[i]} :: 0 <= i < n ==> row[i] == Entry(i, px, a)
  {
    seq(n, i requires 0 <= i < n => Entry(i, px, a))
  }

  ghost predicate Satisfies(c: seq<real>, f: Info) {
    Eval(Derivative(c, f.a), f.px) == f.py
  }

  lemma EntryStep(i: nat, px: real, a: nat)
    requires a >= 1
    ensures Entry(i + 1, px, a) == (i + 1) as real * Entry(i, px, a - 1)
    ensures Entry(0, px, a) == 0.0
  {
    if i + 1 >= a {
      FallingStep(i + 1, i + 1 - a);
      assert (i + 1) as real * FallingFactorial(i, i + 1 - a) * Power(px, i + 1 - a)
          == (i + 1) as real * (FallingFactorial(i, i + 1 - a) * Power(px, i + 1 - a));
    }
  }

  lemma FallingStep(n: nat, d: nat)
    requires d < n
    ensures FallingFactorial(n, d) == n as real * FallingFactorial(n - 1, d)
  {
  }

  lemma RowZero(c: seq<real>, px: real)
    ensures InfoRow(|c|, px, 0) == Powers(|c|, px, 0)
  {
    forall i | 0 <= i < |c| ensures Entry(i, px, 0) == Power(px, i) { assert FallingFactorial(i, i) == 1.0; }
  }

  lemma RowStep(c: seq<real>, px: real, a: nat, i: nat)
    requires a >= 1 && i + 1 < |c|
    ensures Times(InfoRow(|c|, px, a)[i + 1], c[i + 1]) == Times(InfoRow(|c| - 1, px, a - 1)[i], Derive(c)[i])
  {
    hide Entry;
    EntryStep(i, px, a);
    Regroup((i + 1) as real, Entry(i, px, a - 1), c[i + 1]);
  }

  lemma DotCons(a: seq<real>, x: seq<real>)
    requires |a| == |x| && a != []
    ensures Dot(a, x) == Times(a[0], x[0]) + Dot(a[1..], x[1..])
  {
  }

  /** One derivative less on the row is one derivative more on the coefficients. */
  lemma RowDown(c: seq<real>, px: real, a: nat)
    requires a >= 1 && c != []
    ensures Dot(InfoRow(|c|, px, a), c) == Dot(InfoRow(|c| - 1, px, a - 1), Derive(c))
  {
    hide Entry, Dot, Times;
    var row, low, d := InfoRow(|c|, px, a), InfoRow(|c| - 1, px, a - 1), Derive(c);
    var r, x := row[1..], c[1..];
    forall i | 0 <= i < |r| ensures Times(r[i], x[i]) == Times(low[i], d[i]) {
      RowStep(c, px, a, i);
      assert r[i] == row[i + 1] && x[i] == c[i + 1];
    }
    DotTerms(r, x, low, d);
    EntryStep(0, px, a);
    DotCons(row, c);
    TimesZero(c[0]);
  }

  /** The row of a derivative fact, applied to coefficients, is that derivative's value. */
  lemma {:induction false} RowIsDerivative(c: seq<real>, px: real, a: nat)
    ensures Dot(InfoRow(|c|, px, a), c) == Eval(Derivative(c, a), px)
    decreases a
  {
    hide Entry, Eval;
    if a == 0 {
      RowZero(c, px);
      PowerRow(c, px, 0);
      assert Power(px, 0) == 1.0;
    } else {
      RowIsDerivative(Derive(c), px, a - 1);
      if c != [] { RowDown(c, px, a); }
    }
  }

  lemma Regroup(q: real, u: real, v: real)
    ensures (q * u) * v == u * (q * v)
  {
  }

  ghost function Powers(n: nat, x: real, k: nat): (p: seq<real>)
    ensures |p| == n && forall i {:trigger p[i]} :: 0 <= i < n ==> p[i] == Power(x, k + i)
  {
    seq(n, i requires 0 <= i < n => Power(x, k + i))
  }

  lemma {:induction false} PowerRow(c: seq<real>, x: real, k: nat)
    ensures Dot(Powers(|c|, x, k), c) == Power(x, k) * Eval(c, x)
    decreases |c|
  {
    if c == [] {
    } else {
      PowerRow(c[1..], x, k + 1);
      PowerRowStep(c, x, k);
      hide Dot, Eval, Power, Powers;
      Horner(Power(x, k), c[0], x, Eval(c[1..], x));
    }
  }

  lemma PowerRowStep(c: seq<real>, x: real, k: nat)
    requires c != []
    ensures Dot(Powers(|c|, x, k), c) == Power(x, k) * c[0] + Dot(Powers(|c| - 1, x, k + 1), c[1..])
    ensures Power(x, k + 1) == x * Power(x, k) && Eval(c, x) == c[0] + x * Eval(c[1..], x)
  {
    assert Powers(|c|, x, k)[1..] == Powers(|c| - 1, x, k + 1);
  }

  lemma Horner(p: real, c: real, x: real, e: real)
    ensures p * c + (x * p) * e == p * (c + x * e)
  {
  }
}
