/** Linear systems over exact reals: what row operations keep, and when elimination without row exchanges goes
    through. */
module LinearAlgebra {

  /** The product, as a name that proofs about sums need not look into. */
  ghost function Times(a: real, b: real): real {
    a * b
  }

  lemma TimesZero(t: real)
    ensures Times(t, 0.0) == 0.0 == Times(0.0, t)
  {
  }

  ghost function Dot(a: seq<real>, x: seq<real>): real
    requires |a| == |x|
  {
    if a == [] then 0.0 else Times(a[0], x[0]) + Dot(a[1..], x[1..])
  }

  ghost predicate Square(A: seq<seq<real>>, n: nat) {
    |A| == n && forall r :: 0 <= r < n ==> |A[r]| == n
  }

  ghost function Zeros(n: nat): (z: seq<real>)
    ensures |z| == n && forall i :: 0 <= i < n ==> z[i] == 0.0
  {
    seq(n, i => 0.0)
  }

  lemma {:induction false} DotZero(a: seq<real>, x: seq<real>)
    requires |a| == |x| && forall i :: 0 <= i < |a| ==> a[i] == 0.0 || x[i] == 0.0
    ensures Dot(a, x) == 0.0
  {
    if a == [] {
    } else {
      DotZero(a[1..], x[1..]);
    }
  }

  /** Products that agree term by term have the same sum. */
  lemma {:induction false} DotTerms(a: seq<real>, x: seq<real>, b: seq<real>, y: seq<real>)
    requires |a| == |x| == |b| == |y| && forall i :: 0 <= i < |a| ==> Times(a[i], x[i]) == Times(b[i], y[i])
    ensures Dot(a, x) == Dot(b, y)
  {
    hide Times;
    if a == [] {
    } else {
      forall i | 0 <= i < |a| - 1 ensures Times(a[1..][i], x[1..][i]) == Times(b[1..][i], y[1..][i]) {
        assert Times(a[i + 1], x[i + 1]) == Times(b[i + 1], y[i + 1]);
      }
      DotTerms(a[1..], x[1..], b[1..], y[1..]);
    }
  }

  ghost function DivRow(a: seq<real>, t: real): (r: seq<real>)
    requires t != 0.0
    ensures |r| == |a| && forall i :: 0 <= i < |a| ==> r[i] == a[i] / t
  {
    seq(|a|, i requires 0 <= i < |a| => a[i] / t)
  }

  /** a - t*p */
  ghost function SubRow(a: seq<real>, t: real, p: seq<real>): (r: seq<real>)
    requires |a| == |p|
    ensures |r| == |a| && forall i :: 0 <= i < |a| ==> r[i] == a[i] - Times(t, p[i])
  {
    seq(|a|, i requires 0 <= i < |a| => a[i] - Times(t, p[i]))
  }

  lemma {:induction false} DotDiv(a: seq<real>, t: real, x: seq<real>)
    requires |a| == |x| && t != 0.0
    ensures Dot(DivRow(a, t), x) == Dot(a, x) / t
  {
    hide Times;
    if a == [] {
    } else {
      assert DivRow(a, t)[1..] == DivRow(a[1..], t);
      DotDiv(a[1..], t, x[1..]);
      DivSum(a[0], x[0], Dot(a[1..], x[1..]), t);
    }
  }

  lemma DivSum(a: real, x: real, u: real, t: real)
    requires t != 0.0
    ensures Times(a / t, x) + u / t == (Times(a, x) + u) / t
  {
  }

  lemma {:induction false} DotSub(a: seq<real>, t: real, p: seq<real>, x: seq<real>)
    requires |a| == |p| == |x|
    ensures Dot(SubRow(a, t, p), x) == Dot(a, x) - Times(t, Dot(p, x))
  {
    hide Times;
    TimesZero(t);
    if a == [] {
    } else {
      var c, d := SubRow(a, t, p)[1..], SubRow(a[1..], t, p[1..]);
      forall i | 0 <= i < |c| ensures c[i] == d[i] { assert p[1..][i] == p[i + 1] && a[1..][i] == a[i + 1]; }
      assert c == d;
      DotSub(a[1..], t, p[1..], x[1..]);
      var e := SubRow(a, t, p);
      assert Dot(e, x) == Times(e[0], x[0]) + Dot(e[1..], x[1..]);
      assert Dot(e[1..], x[1..]) == Dot(a[1..], x[1..]) - Times(t, Dot(p[1..], x[1..]));
      SubSum(e[0], a[0], t, p[0], x[0], Dot(a[1..], x[1..]), Dot(p[1..], x[1..]));
    }
  }

  lemma SubSum(c: real, a: real, t: real, p: real, x: real, u: real, v: real)
    requires c == a - Times(t, p)
    ensures Times(c, x) + (u - Times(t, v)) == (Times(a, x) + u) - Times(t, Times(p, x) + v)
  {
  }

  lemma SameQuotient(u: real, v: real, t: real)
    requires t != 0.0
    ensures u / t == v / t <==> u == v
  {
    assert (u / t) * t == u && (v / t) * t == v;
  }

  lemma {:induction false} DotUnit(a: seq<real>, x: seq<real>, k: nat)
    requires |a| == |x| && k < |a| && forall i :: 0 <= i < |a| && i != k ==> a[i] == 0.0 || x[i] == 0.0
    ensures Dot(a, x) == a[k] * x[k]
  {
    if k == 0 {
      DotZero(a[1..], x[1..]);
    } else {
      assert a[0] * x[0] == 0.0;
      DotUnit(a[1..], x[1..], k - 1);
    }
  }

  /** Only entries r and k count. */
  lemma {:induction false} DotTwo(a: seq<real>, x: seq<real>, r: nat, k: nat)
    requires |a| == |x| && r < k < |a| && forall i :: 0 <= i < |a| && i != r && i != k ==> a[i] == 0.0 || x[i] == 0.0
    ensures Dot(a, x) == a[r] * x[r] + a[k] * x[k]
  {
    if r == 0 {
      DotUnit(a[1..], x[1..], k - 1);
    } else {
      assert a[0] * x[0] == 0.0;
      DotTwo(a[1..], x[1..], r - 1, k - 1);
    }
  }

  // ----- systems of equations

  /** x satisfies the first p equations A x == b. */
  ghost predicate Solves(A: seq<seq<real>>, x: seq<real>, b: seq<real>, p: nat)
    requires p <= |A| && p <= |b| && forall r :: 0 <= r < |A| ==> |A[r]| == |x|
  {
    forall r :: 0 <= r < p ==> Dot(A[r], x) == b[r]
  }

  /** The first p rows of A x == B b hold. */
  ghost predicate Balanced(A: seq<seq<real>>, x: seq<real>, B: seq<seq<real>>, b: seq<real>, p: nat)
    requires p <= |A| && p <= |B| && (forall r :: 0 <= r < |A| ==> |A[r]| == |x|)
    requires forall r :: 0 <= r < |B| ==> |B[r]| == |b|
  {
    forall r :: 0 <= r < p ==> Dot(A[r], x) == Dot(B[r], b)
  }

  /** The first p equations of M x == b say the same as the first p rows of A x == B b, whatever x and b are. */
  ghost predicate Equivalent(M: seq<seq<real>>, A: seq<seq<real>>, B: seq<seq<real>>, n: nat, p: nat)
    requires Square(M, n) && Square(A, n) && Square(B, n) && p <= n
  {
    forall x: seq<real>, b: seq<real> :: |x| == n && |b| == n ==> (Solves(M, x, b, p) <==> Balanced(A, x, B, b, p))
  }

  ghost predicate Identity(A: seq<seq<real>>, n: nat)
    requires Square(A, n)
  {
    forall r, c :: 0 <= r < n && 0 <= c < n ==> A[r][c] == if r == c then 1.0 else 0.0
  }

  lemma IdentityDot(A: seq<seq<real>>, n: nat, r: nat, x: seq<real>)
    requires Square(A, n) && Identity(A, n) && r < n && |x| == n
    ensures Dot(A[r], x) == x[r]
  {
    DotUnit(A[r], x, r);
  }

  lemma EquivalentAtStart(M: seq<seq<real>>, B: seq<seq<real>>, n: nat, p: nat)
    requires Square(M, n) && Square(B, n) && Identity(B, n) && p <= n
    ensures Equivalent(M, M, B, n, p)
  {
    forall x: seq<real>, b: seq<real> | |x| == n && |b| == n ensures Solves(M, x, b, p) <==> Balanced(M, x, B, b, p) {
      forall r | 0 <= r < p ensures Dot(B[r], b) == b[r] { IdentityDot(B, n, r, b); }
    }
  }

  // ----- one Gauss-Jordan step

  /** A' is A after clearing column k with pivot row k; B' is B after the same row operations. */
  ghost predicate Pivoted(A: seq<seq<real>>, A': seq<seq<real>>, B: seq<seq<real>>, B': seq<seq<real>>, n: nat, k: nat)
    requires Square(A, n) && Square(A', n) && Square(B, n) && Square(B', n) && k < n
  {
    && A[k][k] != 0.0 && A'[k] == DivRow(A[k], A[k][k]) && B'[k] == DivRow(B[k], A[k][k])
    && (forall r :: 0 <= r < n && r != k ==>
          A'[r] == SubRow(A[r], A[r][k], A'[k]) && B'[r] == SubRow(B[r], A[r][k], B'[k]))
  }

  /** Columns before k are those of the identity. */
  ghost predicate Cleared(A: seq<seq<real>>, n: nat, k: nat)
    requires Square(A, n) && k <= n
  {
    forall r, c :: 0 <= r < n && 0 <= c < k ==> A[r][c] == if r == c then 1.0 else 0.0
  }

  lemma PivotClears(A: seq<seq<real>>, A': seq<seq<real>>, B: seq<seq<real>>, B': seq<seq<real>>, n: nat, k: nat)
    requires Square(A, n) && Square(A', n) && Square(B, n) && Square(B', n) && k < n
    requires Pivoted(A, A', B, B', n, k) && Cleared(A, n, k)
    ensures Cleared(A', n, k + 1)
  {
    hide Dot;
    forall r, c | 0 <= r < n && 0 <= c < k + 1 ensures A'[r][c] == if r == c then 1.0 else 0.0 {
      ClearedEntry(A[k][c], A[k][k], A[r][c], A[r][k]);
      assert A'[k][c] == A[k][c] / A[k][k];
      if r != k { assert A'[r] == SubRow(A[r], A[r][k], A'[k]); }
    }
  }

  lemma ClearedEntry(p: real, t: real, a: real, b: real)
    requires t != 0.0
    ensures p == 0.0 ==> p / t == 0.0 && a - b * (p / t) == a
    ensures p == t ==> p / t == 1.0 && a - b * (p / t) == a - b
  {
  }

  /** The pivot row of the new system holds iff that of the old one does ... */
  lemma PivotRow(A: seq<seq<real>>, A': seq<seq<real>>, B: seq<seq<real>>, B': seq<seq<real>>, n: nat, k: nat,
          x: seq<real>, b: seq<real>)
    requires Square(A, n) && Square(A', n) && Square(B, n) && Square(B', n) && k < n && |x| == n && |b| == n
    requires Pivoted(A, A', B, B', n, k)
    ensures Dot(A'[k], x) == Dot(B'[k], b) <==> Dot(A[k], x) == Dot(B[k], b)
  {
    var t := A[k][k];
    DotDiv(A[k], t, x);
    DotDiv(B[k], t, b);
    SameQuotient(Dot(A[k], x), Dot(B[k], b), t);
  }

  /** ... and, given the pivot row, every other row does. */
  lemma OtherRow(A: seq<seq<real>>, A': seq<seq<real>>, B: seq<seq<real>>, B': seq<seq<real>>, n: nat, k: nat, r: nat,
          x: seq<real>, b: seq<real>)
    requires Square(A, n) && Square(A', n) && Square(B, n) && Square(B', n) && k < n && r < n && r != k && |x| == n
    requires |b| == n
    requires Pivoted(A, A', B, B', n, k) && Dot(A'[k], x) == Dot(B'[k], b)
    ensures Dot(A'[r], x) == Dot(B'[r], b) <==> Dot(A[r], x) == Dot(B[r], b)
  {
    hide Dot, Times;
    var t := A[r][k];
    assert A'[r] == SubRow(A[r], t, A'[k]) && B'[r] == SubRow(B[r], t, B'[k]);
    DotSub(A[r], t, A'[k], x);
    DotSub(B[r], t, B'[k], b);
    var w := Dot(A'[k], x);
    assert Dot(A'[r], x) == Dot(A[r], x) - Times(t, w) && Dot(B'[r], b) == Dot(B[r], b) - Times(t, w);
  }

  /** A pivot step keeps the meaning of every prefix of the system that includes the pivot row. */
  lemma PivotKeeps(M: seq<seq<real>>, A: seq<seq<real>>, A': seq<seq<real>>, B: seq<seq<real>>, B': seq<seq<real>>,
          n: nat, k: nat, p: nat)
    requires Square(M, n) && Square(A, n) && Square(A', n) && Square(B, n) && Square(B', n) && k < p <= n
    requires Pivoted(A, A', B, B', n, k) && Equivalent(M, A, B, n, p)
    ensures Equivalent(M, A', B', n, p)
  {
    hide Pivoted;
    forall x: seq<real>, b: seq<real> | |x| == n && |b| == n ensures Solves(M, x, b, p) <==> Balanced(A', x, B', b, p) {
      assert Solves(M, x, b, p) <==> Balanced(A, x, B, b, p);
      PivotRow(A, A', B, B', n, k, x, b);
      if Dot(A'[k], x) == Dot(B'[k], b) {
        forall r | 0 <= r < n && r != k ensures Dot(A'[r], x) == Dot(B'[r], b) <==> Dot(A[r], x) == Dot(B[r], b) {
          OtherRow(A, A', B, B', n, k, r, x, b);
        }
      }
    }
  }

  // ----- when the pivot is not zero

  /** x has only zeros from position p on. */
  ghost predicate Short(x: seq<real>, p: nat) {
    forall i :: p <= i < |x| ==> x[i] == 0.0
  }

  ghost predicate AllZero(x: seq<real>) {
    forall i :: 0 <= i < |x| ==> x[i] == 0.0
  }

  /** The leading p by p block is nonsingular: only zero solves the homogeneous system. */
  ghost predicate LeadingRegular(M: seq<seq<real>>, n: nat, p: nat)
    requires Square(M, n) && p <= n
  {
    forall x: seq<real> :: |x| == n && Short(x, p) && Solves(M, x, Zeros(n), p) ==> AllZero(x)
  }

  /** With the first k columns cleared, row r of A x for a short x. */
  lemma ShortRow(A: seq<seq<real>>, n: nat, k: nat, r: nat, x: seq<real>)
    requires Square(A, n) && k < n && Cleared(A, n, k) && r <= k && |x| == n && Short(x, k + 1)
    ensures Dot(A[r], x) == if r < k then x[r] + A[r][k] * x[k] else A[k][k] * x[k]
  {
    hide Dot;
    if r < k {
      DotTwo(A[r], x, r, k);
      assert A[r][r] == 1.0;
      assert A[r][r] * x[r] == x[r];
    } else {
      DotUnit(A[k], x, k);
    }
  }

  lemma HomogeneousSame(M: seq<seq<real>>, A: seq<seq<real>>, B: seq<seq<real>>, n: nat, p: nat, x: seq<real>)
    requires Square(M, n) && Square(A, n) && Square(B, n) && p <= n && Equivalent(M, A, B, n, p) && |x| == n
    ensures Solves(M, x, Zeros(n), p) <==> forall r :: 0 <= r < p ==> Dot(A[r], x) == 0.0
  {
    assert Solves(M, x, Zeros(n), p) <==> Balanced(A, x, B, Zeros(n), p);
    forall r | 0 <= r < p ensures Dot(B[r], Zeros(n)) == 0.0 { DotZero(B[r], Zeros(n)); }
  }

  /** The k-th pivot is nonzero exactly when the leading (k+1)-block is nonsingular. */
  lemma PivotIffRegular(M: seq<seq<real>>, A: seq<seq<real>>, B: seq<seq<real>>, n: nat, k: nat)
    requires Square(M, n) && Square(A, n) && Square(B, n) && k < n && Cleared(A, n, k) && Equivalent(M, A, B, n, k + 1)
    ensures A[k][k] != 0.0 <==> LeadingRegular(M, n, k + 1)
  {
    hide Dot;
    if A[k][k] != 0.0 {
      forall x: seq<real> | |x| == n && Short(x, k + 1) && Solves(M, x, Zeros(n), k + 1) ensures AllZero(x) {
        RegularKernel(M, A, B, n, k, x);
      }
    } else {
      var x := seq(n, i requires 0 <= i < n => if i < k then -A[i][k] else if i == k then 1.0 else 0.0);
      SingularKernel(M, A, B, n, k, x);
    }
  }

  lemma RegularKernel(M: seq<seq<real>>, A: seq<seq<real>>, B: seq<seq<real>>, n: nat, k: nat, x: seq<real>)
    requires Square(M, n) && Square(A, n) && Square(B, n) && k < n && Cleared(A, n, k) && Equivalent(M, A, B, n, k + 1)
    requires A[k][k] != 0.0 && |x| == n && Short(x, k + 1) && Solves(M, x, Zeros(n), k + 1)
    ensures AllZero(x)
  {
    hide Dot, Equivalent, Solves;
    HomogeneousSame(M, A, B, n, k + 1, x);
    ShortRow(A, n, k, k, x);
    NoZeroDivisor(A[k][k], x[k]);
    forall r | 0 <= r < k ensures x[r] == 0.0 {
      ShortRow(A, n, k, r, x);
      assert Dot(A[r], x) == 0.0 && A[r][k] * x[k] == 0.0;
    }
  }

  lemma NoZeroDivisor(a: real, x: real)
    requires a != 0.0 && a * x == 0.0
    ensures x == 0.0
  {
  }

  lemma SingularKernel(M: seq<seq<real>>, A: seq<seq<real>>, B: seq<seq<real>>, n: nat, k: nat, x: seq<real>)
    requires Square(M, n) && Square(A, n) && Square(B, n) && k < n && Cleared(A, n, k) && Equivalent(M, A, B, n, k + 1)
    requires A[k][k] == 0.0 && |x| == n
    requires forall i :: 0 <= i < n ==> x[i] == if i < k then -A[i][k] else if i == k then 1.0 else 0.0
    ensures !LeadingRegular(M, n, k + 1)
  {
    hide Dot, Equivalent, Solves;
    forall r | 0 <= r < k + 1 ensures Dot(A[r], x) == 0.0 {
      ShortRow(A, n, k, r, x);
      assert x[k] == 1.0 && A[r][k] * x[k] == A[r][k];
    }
    HomogeneousSame(M, A, B, n, k + 1, x);
    assert x[k] == 1.0 && Short(x, k + 1);
  }
}
