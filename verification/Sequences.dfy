/** Lists: dropping an element, moving one to the front, joining several. */
module Sequences {

  ghost predicate NoDup<T>(s: seq<T>) {
    forall i, j :: 0 <= i < j < |s| ==> s[i] != s[j]
  }

  function Without<T(==)>(s: seq<T>, x: T): seq<T> {
    if s == [] then [] else if s[0] == x then s[1..] else [s[0]] + Without(s[1..], x)
  }

  lemma {:induction false} WithoutAt<T>(s: seq<T>, i: nat)
    requires i < |s| && NoDup(s)
    ensures Without(s, s[i]) == s[..i] + s[i + 1..]
  {
    if i == 0 {
    } else {
      WithoutAt(s[1..], i - 1);
      assert s[1..][..i - 1] == s[..i][1..] && s[1..][i..] == s[i + 1..];
      assert s[..i] == [s[0]] + s[..i][1..];
    }
  }

  /** Dequeuing keeps the other elements and their order. */
  lemma WithoutKeeps<T>(s: seq<T>, x: T)
    requires x in s && NoDup(s)
    ensures NoDup(Without(s, x)) && forall y :: y in Without(s, x) <==> y in s && y != x
  {
    var i :| 0 <= i < |s| && s[i] == x;
    WithoutAt(s, i);
    var r := s[..i] + s[i + 1..];
    assert forall j {:trigger r[j]} :: 0 <= j < |r| ==> r[j] == if j < i then s[j] else s[j + 1];
    forall y | y in s && y != x ensures y in r {
      var k :| 0 <= k < |s| && s[k] == y;
      assert r[if k < i then k else k - 1] == y;
    }
  }

  lemma {:induction false} WithoutAbsent<T>(s: seq<T>, x: T)
    requires x !in s
    ensures Without(s, x) == s
  {
    if s == [] {
    } else {
      WithoutAbsent(s[1..], x);
    }
  }

  lemma {:induction false} WithoutSum<T>(s: seq<T>, t: seq<T>, x: T)
    ensures Without(s + t, x) == if x in s then Without(s, x) + t else s + Without(t, x)
  {
    if s == [] {
      assert s + t == t;
    } else {
      WithoutSum(s[1..], t, x);
      assert (s + t)[1..] == s[1..] + t && (s[0] == x || (x in s <==> x in s[1..]));
    }
  }

  lemma HeadKept<T>(s: seq<T>, x: T)
    requires s != [] && s[0] != x
    ensures Without(s, x) != [] && Without(s, x)[0] == s[0]
  {
  }

  /** x was brought to the front; the order of the others is kept. */
  ghost predicate MovedToFront<T>(was: seq<T>, now: seq<T>, x: T) {
    x in was && now == [x] + Without(was, x)
  }

  ghost predicate OneMoved<T>(was: seq<T>, now: seq<T>) {
    now == was || (now != [] && MovedToFront(was, now, now[0]))
  }

  lemma MovedKeeps<T>(s: seq<T>, x: T)
    requires x in s && NoDup(s)
    ensures var r := [x] + Without(s, x); |r| == |s| && NoDup(r) && forall y :: y in r <==> y in s
  {
    var i :| 0 <= i < |s| && s[i] == x;
    WithoutAt(s, i);
    WithoutKeeps(s, x);
  }

  function Flattened<T>(parts: seq<seq<T>>): seq<T> {
    if parts == [] then [] else Flattened(parts[..|parts| - 1]) + parts[|parts| - 1]
  }

  lemma FlattenedPush<T>(parts: seq<seq<T>>, i: nat)
    requires i < |parts|
    ensures Flattened(parts[..i + 1]) == Flattened(parts[..i]) + parts[i]
  {
    assert parts[..i + 1][..i] == parts[..i];
  }
}
