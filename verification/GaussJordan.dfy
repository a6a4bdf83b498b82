/** In-place Gauss-Jordan inversion and the matrix-vector product. Entry [c, r] of a matrix is in column c, row r. */
module GaussJordan {
  import opened LinearAlgebra

  ghost predicate Sized(a: array2<real>, n: nat) {
    a.Length0 == n && a.Length1 == n
  }

  ghost function RowOf(a: array2<real>, n: nat, r: nat): (row: seq<real>)
    requires Sized(a, n) && r < n
    reads a
    ensures |row| == n && forall c {:trigger row[c]} :: 0 <= c < n ==> row[c] == a[c, r]
  {
    seq(n, c requires 0 <= c < n reads a => a[c, r])
  }

  ghost function Rows(a: array2<real>, n: nat): (rows: seq<seq<real>>)
    requires Sized(a, n)
    reads a
    ensures Square(rows, n) && forall r {:trigger rows[r]} :: 0 <= r < n ==> rows[r] == RowOf(a, n, r)
  {
    seq(n, r requires 0 <= r < n reads a => RowOf(a, n, r))
  }

  /** A matrix known entry by entry. */
  lemma RowsAre(m: array2<real>, n: nat, A: seq<seq<real>>)
    requires Sized(m, n) && Square(A, n)
    requires forall c, r {:trigger m[c, r]} :: 0 <= c < n && 0 <= r < n ==> m[c, r] == A[r][c]
    ensures Rows(m, n) == A
  {
    forall r | 0 <= r < n ensures Rows(m, n)[r] == A[r] {
      forall c | 0 <= c < n ensures RowOf(m, n, r)[c] == A[r][c] { assert RowOf(m, n, r)[c] == m[c, r]; }
    }
  }

  /** Divide row k of both matrices by the pivot. */
  method ScaleRow(rm: array2<real>, m: array2<real>, n: nat, k: nat)
    requires Sized(rm, n) && Sized(m, n) && rm != m && k < n && m[k, k] != 0.0
    modifies rm, m
    ensures Rows(m, n) == old(Rows(m, n))[k := DivRow(old(RowOf(m, n, k)), old(m[k, k]))]
    ensures Rows(rm, n) == old(Rows(rm, n))[k := DivRow(old(RowOf(rm, n, k)), old(m[k, k]))]
  {
    var tmp := m[k, k];
    ghost var a, b := DivRow(RowOf(m, n, k), tmp), DivRow(RowOf(rm, n, k), tmp);
    ghost var A, B := Rows(m, n)[k := a], Rows(rm, n)[k := b];
    var j := 0;
    while j < n
      invariant j <= n
      invariant forall c, r {:trigger m[c, r]} :: 0 <= c < n && 0 <= r < n ==>
                m[c, r] == if r == k && c < j then a[c] else old(m[c, r])
      invariant forall c, r {:trigger rm[c, r]} :: 0 <= c < n && 0 <= r < n ==>
                rm[c, r] == if r == k && c < j then b[c] else old(rm[c, r])
    {
      m[j, k] := m[j, k] / tmp;
      rm[j, k] := rm[j, k] / tmp;
      j := j + 1;
    }
    RowsAre(m, n, A);
    RowsAre(rm, n, B);
  }

  /** Subtract the multiple of row k from row i that clears entry [k, i]. */
  method SubtractRow(rm: array2<real>, m: array2<real>, n: nat, k: nat, i: nat)
    requires Sized(rm, n) && Sized(m, n) && rm != m && k < n && i < n && i != k
    modifies rm, m
    ensures Rows(m, n) == old(Rows(m, n))[i := SubRow(old(RowOf(m, n, i)), old(m[k, i]), old(RowOf(m, n, k)))]
    ensures Rows(rm, n) == old(Rows(rm, n))[i := SubRow(old(RowOf(rm, n, i)), old(m[k, i]), old(RowOf(rm, n, k)))]
  {
    var tmp := m[k, i];
    ghost var a, b := SubRow(RowOf(m, n, i), tmp, RowOf(m, n, k)), SubRow(RowOf(rm, n, i), tmp, RowOf(rm, n, k));
    ghost var A, B := Rows(m, n)[i := a], Rows(rm, n)[i := b];
    var j := 0;
    while j < n
      invariant j <= n
      invariant forall c, r {:trigger m[c, r]} :: 0 <= c < n && 0 <= r < n ==>
                m[c, r] == if r == i && c < j then a[c] else old(m[c, r])
      invariant forall c, r {:trigger rm[c, r]} :: 0 <= c < n && 0 <= r < n ==>
                rm[c, r] == if r == i && c < j then b[c] else old(rm[c, r])
    {
      m[j, i] := m[j, i] - tmp * m[j, k];
      rm[j, i] := rm[j, i] - tmp * rm[j, k];
      j := j + 1;
    }
    RowsAre(m, n, A);
    RowsAre(rm, n, B);
  }

  /** Clear column k with pivot row k. */
  method Pivot(rm: array2<real>, m: array2<real>, n: nat, k: nat)
    requires Sized(rm, n) && Sized(m, n) && rm != m && k < n && m[k, k] != 0.0
    modifies rm, m
    ensures Pivoted(old(Rows(m, n)), Rows(m, n), old(Rows(rm, n)), Rows(rm, n), n, k)
  {
    ghost var A, B := Rows(m, n), Rows(rm, n);
    ScaleRow(rm, m, n, k);
    ghost var C, D := Rows(m, n), Rows(rm, n);
    var i := 0;
    while i < n
      invariant i <= n && C == Rows(m, n) && D == Rows(rm, n) && C[k] == DivRow(A[k], A[k][k])
      invariant D[k] == DivRow(B[k], A[k][k])
      invariant forall r {:trigger C[r]} {:trigger D[r]} :: 0 <= r < i && r != k ==>
                  C[r] == SubRow(A[r], A[r][k], C[k]) && D[r] == SubRow(B[r], A[r][k], D[k])
      invariant forall r {:trigger C[r]} {:trigger D[r]} :: i <= r < n && r != k ==> C[r] == A[r] && D[r] == B[r]
    {
      if i != k {
        assert C[i][k] == m[k, i];
        SubtractRow(rm, m, n, k, i);
        C, D := Rows(m, n), Rows(rm, n);
      }
      i := i + 1;
    }
  }

  /** Gauss-Jordan without row exchanges. A zero pivot, by which floating point arithmetic would divide and fill the
      result with non-finite values, ends it with `false`. */
  method InvertMatrix(rm: array2<real>, m: array2<real>, n: nat) returns (ok: bool)
    requires Sized(rm, n) && Sized(m, n) && rm != m && Identity(Rows(rm, n), n)
    modifies rm, m
    ensures ok <==> forall p :: 1 <= p <= n ==> LeadingRegular(old(Rows(m, n)), n, p)
    ensures ok ==> forall x: seq<real>, b: seq<real> :: |x| == n && |b| == n ==>
                     (Solves(old(Rows(m, n)), x, b, n) <==> forall r :: 0 <= r < n ==> x[r] == Dot(RowOf(rm, n, r), b))
  {
    hide Dot, Equivalent, Pivoted, Solves, LeadingRegular;
    ghost var M := Rows(m, n);
    forall p | 0 <= p <= n ensures Equivalent(M, M, Rows(rm, n), n, p) { EquivalentAtStart(M, Rows(rm, n), n, p); }
    var k := 0;
    while k < n
      invariant k <= n && Cleared(Rows(m, n), n, k)
      invariant forall p :: k <= p <= n ==> Equivalent(M, Rows(m, n), Rows(rm, n), n, p)
      invariant forall p :: 1 <= p <= k ==> LeadingRegular(M, n, p)
    {
      ghost var A, B := Rows(m, n), Rows(rm, n);
      PivotIffRegular(M, A, B, n, k);
      assert A[k][k] == m[k, k];
      if m[k, k] == 0.0 { return false; }
      Pivot(rm, m, n, k);
      PivotClears(A, Rows(m, n), B, Rows(rm, n), n, k);
      forall p | k + 1 <= p <= n ensures Equivalent(M, Rows(m, n), Rows(rm, n), n, p) {
        PivotKeeps(M, A, Rows(m, n), B, Rows(rm, n), n, k, p);
      }
      k := k + 1;
    }
    SolutionFromIdentity(M, Rows(m, n), Rows(rm, n), n);
    return true;
  }

  /** Once A is the identity, M x == b is solved by x == B b and by nothing else. */
  lemma SolutionFromIdentity(M: seq<seq<real>>, A: seq<seq<real>>, B: seq<seq<real>>, n: nat)
    requires Square(M, n) && Square(A, n) && Square(B, n) && Equivalent(M, A, B, n, n) && Cleared(A, n, n)
    ensures forall x: seq<real>, b: seq<real> :: |x| == n && |b| == n ==>
              (Solves(M, x, b, n) <==> forall r :: 0 <= r < n ==> x[r] == Dot(B[r], b))
  {
    hide Dot;
    forall x: seq<real>, b: seq<real> | |x| == n && |b| == n
      ensures Solves(M, x, b, n) <==> forall r :: 0 <= r < n ==> x[r] == Dot(B[r], b)
    {
      assert Solves(M, x, b, n) <==> Balanced(A, x, B, b, n);
      forall r | 0 <= r < n ensures Dot(A[r], x) == x[r] { IdentityDot(A, n, r, x); }
    }
  }

  lemma {:induction false} DotLast(a: seq<real>, x: seq<real>)
    requires |a| == |x| && a != []
    ensures Dot(a, x) == Dot(a[..|a| - 1], x[..|a| - 1]) + a[|a| - 1] * x[|a| - 1]
  {
    if |a| > 1 {
      DotLast(a[1..], x[1..]);
      assert a[1..][..|a| - 2] == a[..|a| - 1][1..] && x[1..][..|a| - 2] == x[..|a| - 1][1..];
    } else {
      assert Dot(a[1..], x[1..]) == 0.0;
    }
  }

  method MatrixMulVect(rv: array<real>, m: array2<real>, v: array<real>, n: nat)
    requires Sized(m, n) && rv.Length == n && v.Length == n && rv != v
    modifies rv
    ensures forall r :: 0 <= r < n ==> rv[r] == Dot(RowOf(m, n, r), v[..])
  {
    hide Dot;
    ghost var R, V := Rows(m, n), v[..];
    var r := 0;
    while r < n
      invariant r <= n && R == Rows(m, n) && V == v[..] && forall q :: 0 <= q < r ==> rv[q] == Dot(R[q], V)
    {
      var s := 0.0;
      var c := 0;
      ghost var row := R[r];
      EmptyDot();
      while c < n
        invariant c <= n && s == Dot(row[..c], V[..c])
        modifies {}
      {
        DotLast(row[..c + 1], V[..c + 1]);
        assert row[..c + 1][..c] == row[..c] && V[..c + 1][..c] == V[..c];
        s := s + m[c, r] * v[c];
        c := c + 1;
      }
      assert row[..c] == row && V[..c] == V;
      assert s == Dot(R[r], V);
      rv[r] := s;
      r := r + 1;
    }
  }

  lemma EmptyDot()
    ensures Dot([], []) == 0.0
  {
  }
}
