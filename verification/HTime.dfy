/** Times as seconds and microseconds. */
module HTime {

  const MILLION := 1_000_000
  const INVALID_USEC := -2_000_000

  /** The stored pair. The value is sec + usec/1000000. */
  datatype TimeVal = TimeVal(sec: int, usec: int)

  /** The marker for "no time". */
  predicate Invalid(t: TimeVal) {
    t.usec == INVALID_USEC
  }

  ghost predicate Normal(t: TimeVal) {
    0 <= t.usec < MILLION
  }

  /** Microseconds in all. */
  function LLConv(t: TimeVal): int {
    t.sec * MILLION + t.usec
  }

  /** Division and remainder that truncate toward zero. */
  function Quot(a: int, b: int): int
    requires b != 0
  {
    if (a >= 0) == (b > 0) then (if a >= 0 then a / b else (-a) / (-b)) else if a >= 0 then -(a / (-b)) else -((-a) / b)
  }

  function Rem(a: int, b: int): int
    requires b != 0
  {
    a - Quot(a, b) * b
  }

  function Normalize(t: TimeVal): TimeVal {
    var q := Quot(t.usec, MILLION);
    var m := if t.usec < 0 then q - 1 else q;
    TimeVal(t.sec + m, t.usec - MILLION * m)
  }

  lemma NormalizeSmall(t: TimeVal)
    requires -MILLION < t.usec < 2 * MILLION
    ensures Normal(Normalize(t)) && LLConv(Normalize(t)) == LLConv(t)
  {
  }

  /** Where normalisation fails: a negative whole number of seconds in the usec part. */
  lemma NormalizeExactly(t: TimeVal)
    ensures LLConv(Normalize(t)) == LLConv(t)
    ensures Normal(Normalize(t)) <==> t.usec >= 0 || t.usec % MILLION != 0
  {
    var q := Quot(t.usec, MILLION);
    if t.usec < 0 {
      var a := -t.usec;
      assert q == -(a / MILLION);
      assert a == MILLION * (a / MILLION) + a % MILLION;
      assert t.usec % MILLION == 0 <==> a % MILLION == 0;
    } else {
      assert t.usec == MILLION * (t.usec / MILLION) + t.usec % MILLION;
    }
  }

  // ----- comparison

  function Lt(a: TimeVal, b: TimeVal): bool {
    a.sec < b.sec || (a.sec == b.sec && a.usec < b.usec)
  }

  function Le(a: TimeVal, b: TimeVal): bool {
    a.sec < b.sec || (a.sec == b.sec && a.usec <= b.usec)
  }

  function Gt(a: TimeVal, b: TimeVal): bool {
    a.sec > b.sec || (a.sec == b.sec && a.usec > b.usec)
  }

  function Ge(a: TimeVal, b: TimeVal): bool {
    a.sec > b.sec || (a.sec == b.sec && a.usec >= b.usec)
  }

  function Eq(a: TimeVal, b: TimeVal): bool {
    !Invalid(a) && !Invalid(b) && a.sec == b.sec && a.usec == b.usec
  }

  /** On normalised times the comparisons are those of the totals. */
  lemma OrderIsTotal(a: TimeVal, b: TimeVal)
    requires Normal(a) && Normal(b)
    ensures (Lt(a, b) <==> LLConv(a) < LLConv(b)) && (Le(a, b) <==> LLConv(a) <= LLConv(b))
    ensures (Gt(a, b) <==> LLConv(a) > LLConv(b)) && (Ge(a, b) <==> LLConv(a) >= LLConv(b))
    ensures Eq(a, b) <==> LLConv(a) == LLConv(b)
  {
  }

  // ----- arithmetic on values

  function Minus(t: TimeVal, start: TimeVal): (r: TimeVal)
    ensures Invalid(t) || Invalid(start) ==> Invalid(r)
    ensures Normal(t) && Normal(start) ==> Normal(r) && LLConv(r) == LLConv(t) - LLConv(start)
  {
    if !Invalid(t) && !Invalid(start) then Normalize(TimeVal(t.sec - start.sec, t.usec - start.usec))
    else TimeVal(0, INVALID_USEC)
  }

  function Plus(t: TimeVal, start: TimeVal): (r: TimeVal)
    ensures Invalid(t) || Invalid(start) ==> Invalid(r)
    ensures Normal(t) && Normal(start) ==> Normal(r) && LLConv(r) == LLConv(t) + LLConv(start)
  {
    if !Invalid(t) && !Invalid(start) then Normalize(TimeVal(t.sec + start.sec, t.usec + start.usec))
    else TimeVal(0, INVALID_USEC)
  }

  // ----- truncated division of seconds and microseconds

  lemma QuotRem(a: int, b: int)
    requires b > 0
    ensures a == Quot(a, b) * b + Rem(a, b) && -b < Rem(a, b) < b
    ensures (a >= 0 ==> Rem(a, b) >= 0) && (a <= 0 ==> Rem(a, b) <= 0)
  {
    if a >= 0 {
      assert a == b * (a / b) + a % b;
    } else {
      assert -a == b * ((-a) / b) + (-a) % b;
      assert Quot(a, b) * b == -(b * ((-a) / b));
    }
  }

  /** A quotient is bounded by its bounds. */
  lemma QuotBound(a: int, b: int, lo: int, hi: int)
    requires b > 0 && lo * b < a < hi * b && lo < 0 < hi
    ensures lo < Quot(a, b) < hi
  {
    hide Quot, Rem;
    QuotRem(a, b);
    var q := Quot(a, b);
    if q >= hi {
      MulLe(hi, q, b);
      MulLe(1, q, b);
    }
    if q <= lo {
      MulLe(q, lo, b);
      MulLe(q, -1, b);
    }
  }

  lemma MulLe(x: int, y: int, b: int)
    requires x <= y && b > 0
    ensures x * b <= y * b
  {
  }

  class HTime {
    var tv: TimeVal

    constructor (t: TimeVal)
      ensures tv == t
    {
      tv := t;
    }

    method SubAssign(start: TimeVal)
      modifies this
      ensures Invalid(old(tv)) || Invalid(start) ==> Invalid(tv)
      ensures Normal(old(tv)) && Normal(start) ==> Normal(tv) && LLConv(tv) == old(LLConv(tv)) - LLConv(start)
    {
      if !Invalid(tv) {
        if Invalid(start) {
          tv := tv.(usec := INVALID_USEC);
        } else {
          tv := TimeVal(tv.sec - start.sec, tv.usec - start.usec);
          tv := Normalize(tv);
        }
      }
    }

    method AddAssign(start: TimeVal)
      modifies this
      ensures Invalid(old(tv)) || Invalid(start) ==> Invalid(tv)
      ensures Normal(old(tv)) && Normal(start) ==> Normal(tv) && LLConv(tv) == old(LLConv(tv)) + LLConv(start)
    {
      if !Invalid(tv) {
        if Invalid(start) {
          tv := tv.(usec := INVALID_USEC);
        } else {
          tv := TimeVal(tv.sec + start.sec, tv.usec + start.usec);
          tv := Normalize(tv);
        }
      }
    }

    method Negate()
      modifies this
      ensures Invalid(old(tv)) ==> Invalid(tv)
      ensures Normal(old(tv)) ==> Normal(tv) && LLConv(tv) == -old(LLConv(tv))
    {
      if !Invalid(tv) {
        tv := TimeVal(-tv.sec, -tv.usec);
        tv := Normalize(tv);
      }
    }

    /** Divide by a factor. A negative factor divides the negated time. */
    method Div(f: int)
      modifies this
      ensures Invalid(old(tv)) || f == 0 ==> Invalid(tv)
      ensures Normal(old(tv)) && f != 0 ==> Normal(tv)
      ensures Normal(old(tv)) && f > 0 ==> LLConv(tv) == Divided(old(LLConv(tv)), f)
      ensures Normal(old(tv)) && f < 0 ==> LLConv(tv) == Divided(-old(LLConv(tv)), -f)
    {
      hide Quot, Rem, Normalize;
      if !Invalid(tv) {
        if f == 0 {
          tv := tv.(usec := INVALID_USEC);
        } else {
          var fact := f;
          if fact < 0 {
            tv := TimeVal(-tv.sec, -tv.usec);
            if Normal(old(tv)) { NormalizeSmall(tv); }
            tv := Normalize(tv);
            fact := -fact;
          }
          ghost var t := tv;
          if Normal(t) { DivExact(t, fact); }
          tv := tv.(usec := Quot(Rem(tv.sec, fact) * MILLION + tv.usec, fact));
          tv := tv.(sec := Quot(tv.sec, fact));
          tv := Normalize(tv);
        }
      }
    }
  }

  /** The microseconds of a total divided by a factor: rounded down, unless the time is negative and its seconds leave
      a remainder; then rounded up. */
  function Divided(total: int, f: int): int
    requires f > 0
  {
    if total >= 0 || total / MILLION % f == 0 then total / f else -((-total) / f)
  }

  /** Either way the error is below one microsecond. The result is the quotient truncated toward zero exactly unless the
      time is negative, the factor divides its seconds, rounded down, and does not divide the time: minus 6.999999
      seconds divided by 7 gives minus one second. */
  lemma DividedExactly(total: int, f: int)
    requires f > 0
    ensures -f < Divided(total, f) * f - total < f
    ensures Divided(total, f) == Quot(total, f) <==> total >= 0 || total / MILLION % f != 0 || total % f == 0
    ensures Divided(-6_999_999, 7) == -1_000_000
  {
    FloorIs(total, f, total / f);
    FloorIs(-total, f, (-total) / f);
    if total < 0 && total / MILLION % f == 0 {
      RoundsAlike(total, f);
    }
  }

  lemma FloorIs(a: int, f: int, q: int)
    requires f > 0 && q == a / f
    ensures 0 <= a - q * f < f && (-q) * f == -(q * f) && (a % f == 0 <==> a == q * f)
  {
    assert a == f * (a / f) + a % f;
  }

  /** Rounding down is rounding up only where nothing is left. */
  lemma RoundsAlike(a: int, f: int)
    requires f > 0
    ensures a / f == -((-a) / f) <==> a % f == 0
  {
    var q, p := a / f, (-a) / f;
    FloorIs(a, f, q);
    FloorIs(-a, f, p);
    if q == -p {
      assert q * f == -(p * f);
    } else if a == q * f {
      Between(-q, p, -a, f);
    }
  }

  /** A quotient is the only one with a remainder in range. */
  lemma Between(q: int, p: int, a: int, f: int)
    requires f > 0 && 0 <= a - q * f < f && 0 <= a - p * f < f
    ensures p == q
  {
    if p > q { MulLe(q + 1, p, f); }
    if q > p { MulLe(p + 1, q, f); }
  }

  /** The division of seconds and remainder is that of the total. */
  lemma DivExact(t: TimeVal, f: int)
    requires Normal(t) && f > 0
    ensures var u := Quot(Rem(t.sec, f) * MILLION + t.usec, f); var r := Normalize(TimeVal(Quot(t.sec, f), u));
            Normal(r) && LLConv(r) == Divided(LLConv(t), f)
  {
    hide Quot, Rem, Normalize, Divided;
    var q, s := Quot(t.sec, f), Rem(t.sec, f);
    QuotRem(t.sec, f);
    var a := s * MILLION + t.usec;
    Scaled(s, t.usec, f);
    QuotBound(a, f, -MILLION, MILLION);
    var u := Quot(a, f);
    QuotRem(a, f);
    NormalizeSmall(TimeVal(q, u));
    Gathered(q, u, f);
    SecondsOf(t);
    RemIs(t.sec, f, q, s);
    var total, r := LLConv(t), q * MILLION + u;
    assert total - r * f == Rem(a, f);
    Signs(s, t.usec);
    DividedIs(total, f, r);
  }

  lemma SecondsOf(t: TimeVal)
    requires Normal(t)
    ensures LLConv(t) / MILLION == t.sec && (LLConv(t) >= 0 <==> t.sec >= 0)
  {
  }

  lemma RemIs(a: int, f: int, q: int, s: int)
    requires f > 0 && a == q * f + s && -f < s < f
    ensures s == 0 <==> a % f == 0
  {
    var p := a / f;
    FloorIs(a, f, p);
    if s == 0 { Between(q, p, a, f); }
    if a % f == 0 {
      assert s == (p - q) * f;
      if p > q { MulLe(1, p - q, f); }
      if p < q { MulLe(p - q, -1, f); }
    }
  }

  lemma Signs(s: int, u: int)
    requires 0 <= u < MILLION
    ensures s >= 0 <==> s * MILLION + u >= 0
  {
  }

  /** What is left over says which way the result was rounded. */
  lemma DividedIs(total: int, f: int, r: int)
    requires f > 0
    requires if total >= 0 || total / MILLION % f == 0 then 0 <= total - r * f < f else -f < total - r * f <= 0
    ensures r == Divided(total, f)
  {
    if total >= 0 || total / MILLION % f == 0 {
      FloorIs(total, f, total / f);
      Between(r, total / f, total, f);
    } else {
      FloorIs(-total, f, (-total) / f);
      assert (-r) * f == -(r * f);
      Between(-r, (-total) / f, -total, f);
    }
  }

  lemma Scaled(s: int, u: int, f: int)
    requires f > 0 && -f < s < f && 0 <= u < MILLION
    ensures -MILLION * f < s * MILLION + u < MILLION * f
  {
  }

  lemma Gathered(q: int, u: int, f: int)
    ensures (q * MILLION + u) * f == (q * f) * MILLION + u * f
  {
  }
}
