/** Strictly sorted sequences of keyed elements: the meaning of the B-tree. */
module SortedSeq {

  datatype Option<+T> = None | Some(value: T)

  /** An element: `lt` and `eq` look at the key only, the payload rides along. */
  datatype Elem = Elem(key: int, payload: int)

  ghost predicate Sorted(s: seq<Elem>) {
    forall i, j :: 0 <= i < j < |s| ==> s[i].key < s[j].key
  }

  ghost predicate Below(s: seq<Elem>, k: int) {
    forall i :: 0 <= i < |s| ==> s[i].key < k
  }

  ghost predicate Above(k: int, s: seq<Elem>) {
    forall i :: 0 <= i < |s| ==> k < s[i].key
  }

  ghost predicate Has(s: seq<Elem>, k: int) {
    exists i :: 0 <= i < |s| && s[i].key == k
  }

  lemma SortedParts(l: seq<Elem>, c: seq<Elem>, r: seq<Elem>)
    requires Sorted(l + c + r)
    ensures Sorted(l) && Sorted(c) && Sorted(r)
    ensures forall i, j :: 0 <= i < |l| && 0 <= j < |c| ==> l[i].key < c[j].key
    ensures forall i, j :: 0 <= i < |c| && 0 <= j < |r| ==> c[i].key < r[j].key
  {
    var f := l + c + r;
    assert forall i {:trigger l[i]} :: 0 <= i < |l| ==> f[i] == l[i];
    assert forall i {:trigger c[i]} :: 0 <= i < |c| ==> f[|l| + i] == c[i];
    assert forall i {:trigger r[i]} :: 0 <= i < |r| ==> f[|l| + |c| + i] == r[i];
  }

  /** A sorted sequence lies below k when its last element does. */
  lemma BelowLast(s: seq<Elem>, k: int)
    requires Sorted(s) && s != [] && s[|s| - 1].key < k
    ensures Below(s, k)
  {
  }

  lemma AboveFirst(s: seq<Elem>, k: int)
    requires Sorted(s) && s != [] && k < s[0].key
    ensures Above(k, s)
  {
  }

  function Ins<T>(s: seq<T>, i: nat, x: T): (r: seq<T>)
    requires i <= |s|
    ensures |r| == |s| + 1
    ensures r[i] == x
    ensures forall j {:trigger r[j]} :: 0 <= j < i ==> r[j] == s[j]
    ensures forall j {:trigger r[j]} :: i < j < |r| ==> r[j] == s[j - 1]
  {
    s[..i] + [x] + s[i..]
  }

  function Del<T>(s: seq<T>, i: nat): (r: seq<T>)
    requires i < |s|
    ensures |r| == |s| - 1
    ensures forall j {:trigger r[j]} :: 0 <= j < i ==> r[j] == s[j]
    ensures forall j {:trigger r[j]} :: i <= j < |r| ==> r[j] == s[j + 1]
  {
    s[..i] + s[i + 1..]
  }

  /** Store `e`: replace the element with an equal key, or add `e` in order. */
  function Put(s: seq<Elem>, e: Elem): seq<Elem> {
    if s == [] || e.key < s[0].key then [e] + s
    else if e.key == s[0].key then [e] + s[1..]
    else [s[0]] + Put(s[1..], e)
  }

  /** Drop the element whose key is `k`, if there is one. */
  function Drop(s: seq<Elem>, k: int): seq<Elem> {
    if s == [] then []
    else if s[0].key == k then s[1..]
    else [s[0]] + Drop(s[1..], k)
  }

  function Lookup(s: seq<Elem>, k: int): Option<Elem> {
    if s == [] then None
    else if s[0].key == k then Some(s[0])
    else Lookup(s[1..], k)
  }

  // ----- the finite map a sorted sequence stands for

  ghost function ToMap(s: seq<Elem>): map<int, Elem> {
    if s == [] then map[] else ToMap(s[1..])[s[0].key := s[0]]
  }

  lemma HasTail(s: seq<Elem>, k: int)
    requires s != []
    ensures Has(s, k) <==> s[0].key == k || Has(s[1..], k)
  {
    assert forall i :: 0 < i < |s| ==> s[i] == s[1..][i - 1];
  }

  lemma {:induction false} ToMapKeys(s: seq<Elem>)
    requires Sorted(s)
    ensures forall k :: k in ToMap(s) <==> Has(s, k)
    ensures forall i :: 0 <= i < |s| ==> s[i].key in ToMap(s) && ToMap(s)[s[i].key] == s[i]
    ensures |ToMap(s)| == |s|
  {
    if s == [] {
    } else {
      var t := s[1..];
      ToMapKeys(t);
      assert forall i :: 0 < i < |s| ==> s[i] == t[i - 1];
      assert !Has(t, s[0].key);
      forall k ensures Has(s, k) <==> s[0].key == k || Has(t, k) { HasTail(s, k); }
    }
  }

  lemma {:induction false} MapAbove(s: seq<Elem>, b: int)
    requires Above(b, s)
    ensures forall k :: k in ToMap(s) ==> b < k
  {
    if s == [] {
    } else {
      MapAbove(s[1..], b);
    }
  }

  lemma TailMap(s: seq<Elem>)
    requires Sorted(s) && s != []
    ensures ToMap(s[1..]) == ToMap(s) - {s[0].key} && s[0].key !in ToMap(s[1..])
    ensures s[0].key in ToMap(s) && ToMap(s)[s[0].key] == s[0]
    ensures forall k :: k in ToMap(s) ==> s[0].key <= k
  {
    MapAbove(s[1..], s[0].key);
  }

  /** A sorted sequence is determined by its map: nothing is lost by speaking of maps. */
  lemma {:induction false} SortedUnique(a: seq<Elem>, b: seq<Elem>)
    requires Sorted(a) && Sorted(b) && ToMap(a) == ToMap(b)
    ensures a == b
  {
    if a == [] {
    } else {
      TailMap(a);
    }
    if b != [] { TailMap(b); }
    if a != [] && b != [] {
      SortedUnique(a[1..], b[1..]);
      assert a == [a[0]] + a[1..] && b == [b[0]] + b[1..];
    }
  }

  lemma ConsSorted(x: Elem, s: seq<Elem>)
    requires Sorted(s) && Above(x.key, s)
    ensures Sorted([x] + s)
  {
  }

  lemma {:induction false} PutSorted(s: seq<Elem>, e: Elem)
    requires Sorted(s)
    ensures Sorted(Put(s, e))
    ensures forall x :: x in Put(s, e) ==> x in s || x == e
  {
    if s == [] || e.key < s[0].key {
      ConsSorted(e, s);
    } else if e.key == s[0].key {
      ConsSorted(e, s[1..]);
    } else {
      var d := Put(s[1..], e);
      PutSorted(s[1..], e);
      forall i | 0 <= i < |d| ensures s[0].key < d[i].key { assert d[i] in s[1..] || d[i] == e; }
      ConsSorted(s[0], d);
    }
  }

  lemma {:induction false} PutIsMapUpdate(s: seq<Elem>, e: Elem)
    requires Sorted(s)
    ensures ToMap(Put(s, e)) == ToMap(s)[e.key := e]
    ensures |Put(s, e)| == if Has(s, e.key) then |s| else |s| + 1
  {
    if s != [] { HasTail(s, e.key); MapAbove(s[1..], s[0].key); }
    if s == [] || e.key < s[0].key {
      assert ([e] + s)[1..] == s;
    } else if e.key == s[0].key {
      assert ([e] + s[1..])[1..] == s[1..];
    } else {
      PutIsMapUpdate(s[1..], e);
      assert ([s[0]] + Put(s[1..], e))[1..] == Put(s[1..], e);
    }
  }

  lemma {:induction false} DropSorted(s: seq<Elem>, k: int)
    requires Sorted(s)
    ensures Sorted(Drop(s, k))
    ensures forall x :: x in Drop(s, k) ==> x in s
  {
    if s == [] || s[0].key == k {
    } else {
      var d := Drop(s[1..], k);
      DropSorted(s[1..], k);
      forall i | 0 <= i < |d| ensures s[0].key < d[i].key { assert d[i] in s[1..]; }
      ConsSorted(s[0], d);
    }
  }

  lemma {:induction false} DropIsMapRemove(s: seq<Elem>, k: int)
    requires Sorted(s)
    ensures ToMap(Drop(s, k)) == ToMap(s) - {k}
    ensures |Drop(s, k)| == if Has(s, k) then |s| - 1 else |s|
  {
    if s == [] {
    } else {
      HasTail(s, k);
      if s[0].key == k {
        TailMap(s);
      } else {
        DropIsMapRemove(s[1..], k);
        assert ([s[0]] + Drop(s[1..], k))[1..] == Drop(s[1..], k);
      }
    }
  }

  lemma {:induction false} LookupIsMapGet(s: seq<Elem>, k: int)
    requires Sorted(s)
    ensures Lookup(s, k) == if k in ToMap(s) then Some(ToMap(s)[k]) else None
    ensures Lookup(s, k).Some? <==> Has(s, k)
    ensures Lookup(s, k).Some? ==> Lookup(s, k).value.key == k && Lookup(s, k).value in s
  {
    if s == [] {
    } else {
      assert forall i :: 0 < i < |s| ==> s[i] == s[1..][i - 1];
      if s[0].key != k { LookupIsMapGet(s[1..], k); assert Has(s, k) <==> Has(s[1..], k); }
    }
  }

  // ----- the three operations act on the part of a sequence that can hold the key

  lemma {:induction false} PutAfter(l: seq<Elem>, s: seq<Elem>, e: Elem)
    requires Below(l, e.key)
    ensures Put(l + s, e) == l + Put(s, e)
  {
    if l == [] {
      assert l + s == s;
    } else {
      PutAfter(l[1..], s, e);
      assert (l + s)[0] == l[0] && (l + s)[1..] == l[1..] + s;
    }
  }

  lemma {:induction false} PutBefore(c: seq<Elem>, r: seq<Elem>, e: Elem)
    requires Above(e.key, r)
    ensures Put(c + r, e) == Put(c, e) + r
  {
    if c == [] {
      assert c + r == r;
    } else {
      assert (c + r)[0] == c[0] && (c + r)[1..] == c[1..] + r;
      if c[0].key < e.key { PutBefore(c[1..], r, e); }
    }
  }

  lemma PutMid(l: seq<Elem>, c: seq<Elem>, r: seq<Elem>, e: Elem)
    requires Below(l, e.key) && Above(e.key, r)
    ensures Put(l + c + r, e) == l + Put(c, e) + r
  {
    hide Put, Below, Above;
    PutAfter(l, c + r, e);
    PutBefore(c, r, e);
    assert l + c + r == l + (c + r) && l + (Put(c, e) + r) == l + Put(c, e) + r;
  }

  lemma {:induction false} DropAfter(l: seq<Elem>, s: seq<Elem>, k: int)
    requires Below(l, k)
    ensures Drop(l + s, k) == l + Drop(s, k)
  {
    if l == [] {
      assert l + s == s;
    } else {
      DropAfter(l[1..], s, k);
      assert (l + s)[0] == l[0] && (l + s)[1..] == l[1..] + s;
    }
  }

  lemma {:induction false} DropBefore(c: seq<Elem>, r: seq<Elem>, k: int)
    requires Above(k, r)
    ensures Drop(c + r, k) == Drop(c, k) + r
    decreases |c| + |r|
  {
    if c != [] {
      assert (c + r)[0] == c[0] && (c + r)[1..] == c[1..] + r;
      if c[0].key != k { DropBefore(c[1..], r, k); }
    } else if r != [] {
      DropBefore([], r[1..], k);
      assert c + r == r && [] + r[1..] == r[1..];
    }
  }

  lemma DropMid(l: seq<Elem>, c: seq<Elem>, r: seq<Elem>, k: int)
    requires Below(l, k) && Above(k, r)
    ensures Drop(l + c + r, k) == l + Drop(c, k) + r
  {
    hide Drop, Below, Above;
    DropAfter(l, c + r, k);
    DropBefore(c, r, k);
    assert l + c + r == l + (c + r) && l + (Drop(c, k) + r) == l + Drop(c, k) + r;
  }

  lemma {:induction false} LookupMid(l: seq<Elem>, c: seq<Elem>, r: seq<Elem>, k: int)
    requires Below(l, k) && Above(k, r)
    ensures Lookup(l + c + r, k) == Lookup(c, k)
    decreases |l| + |c| + |r|
  {
    var s := l + c + r;
    if l != [] {
      assert s[1..] == l[1..] + c + r;
      LookupMid(l[1..], c, r, k);
    } else if c != [] {
      assert s[1..] == l + c[1..] + r;
      if c[0].key != k { LookupMid(l, c[1..], r, k); }
    } else if r != [] {
      assert s[1..] == l + c + r[1..];
      LookupMid(l, c, r[1..], k);
    }
  }

  /** A key equal to a separator: the three operations act on the separator itself. */
  lemma AtSeparator(l: seq<Elem>, x: Elem, r: seq<Elem>, e: Elem)
    requires Below(l, x.key) && Above(x.key, r) && e.key == x.key
    ensures Put(l + [x] + r, e) == l + [e] + r
    ensures Drop(l + [x] + r, e.key) == l + r
    ensures Lookup(l + [x] + r, e.key) == Some(x)
  {
    PutMid(l, [x], r, e);
    DropMid(l, [x], r, e.key);
    LookupMid(l, [x], r, e.key);
    assert [x][1..] == [];
    assert Put([x], e) == [e] && Drop([x], e.key) == [];
    assert l + [] + r == l + r;
  }

  // ----- keys and child contents interleaved

  /** c0 k0 c1 k1 ... */
  ghost function Pre(ks: seq<Elem>, cs: seq<seq<Elem>>): seq<Elem>
    requires |ks| == |cs|
  {
    if ks == [] then [] else Pre(ks[..|ks| - 1], cs[..|ks| - 1]) + cs[|ks| - 1] + [ks[|ks| - 1]]
  }

  /** k0 c0 k1 c1 ... */
  ghost function Suf(ks: seq<Elem>, cs: seq<seq<Elem>>): seq<Elem>
    requires |ks| == |cs|
  {
    if ks == [] then [] else [ks[0]] + cs[0] + Suf(ks[1..], cs[1..])
  }

  /** The in-order reading of a node: c0 k0 c1 ... k(n-1) cn. */
  ghost function Flat(ks: seq<Elem>, cs: seq<seq<Elem>>): seq<Elem>
    requires |cs| == |ks| + 1
  {
    Pre(ks, cs[..|ks|]) + cs[|ks|]
  }

  lemma {:induction false} FlatAt(ks: seq<Elem>, cs: seq<seq<Elem>>, i: nat)
    requires |cs| == |ks| + 1 && i <= |ks|
    ensures Flat(ks, cs) == Pre(ks[..i], cs[..i]) + cs[i] + Suf(ks[i..], cs[i + 1..])
    decreases |ks| - i
  {
    if i == |ks| {
      assert ks[..i] == ks;
      assert Suf(ks[i..], cs[i + 1..]) == [];
    } else {
      FlatAt(ks, cs, i + 1);
      assert ks[..i + 1][..i] == ks[..i] && cs[..i + 1][..i] == cs[..i];
      assert Pre(ks[..i + 1], cs[..i + 1]) == Pre(ks[..i], cs[..i]) + cs[i] + [ks[i]];
      assert ks[i..][1..] == ks[i + 1..] && cs[i + 1..][1..] == cs[i + 2..];
      assert Suf(ks[i..], cs[i + 1..]) == [ks[i]] + cs[i + 1] + Suf(ks[i + 1..], cs[i + 2..]);
    }
  }

  /** Cutting a node at separator i. */
  lemma FlatSplit(ks: seq<Elem>, cs: seq<seq<Elem>>, i: nat)
    requires |cs| == |ks| + 1 && i < |ks|
    ensures Flat(ks, cs) == Flat(ks[..i], cs[..i + 1]) + [ks[i]] + Flat(ks[i + 1..], cs[i + 1..])
  {
    FlatAt(ks, cs, i);
    assert cs[..i + 1][..i] == cs[..i];
    assert Flat(ks[..i], cs[..i + 1]) == Pre(ks[..i], cs[..i]) + cs[i];
    var ks', cs' := ks[i + 1..], cs[i + 1..];
    FlatAt(ks', cs', 0);
    assert ks'[0..] == ks' && cs'[1..] == cs[i + 2..] && Pre(ks'[..0], cs'[..0]) == [];
    assert ks[i..][1..] == ks' && cs[i + 1..][1..] == cs[i + 2..];
    assert Suf(ks[i..], cs[i + 1..]) == [ks[i]] + cs[i + 1] + Suf(ks', cs[i + 2..]);
    assert Flat(ks', cs') == cs[i + 1] + Suf(ks', cs[i + 2..]);
  }

  /** Putting an element into a sorted sequence, seen as a map. */
  lemma PutModel(s: seq<Elem>, e: Elem)
    requires Sorted(s)
    ensures Sorted(Put(s, e)) && ToMap(Put(s, e)) == ToMap(s)[e.key := e] && (Has(s, e.key) <==> e.key in ToMap(s))
    ensures |Put(s, e)| == if Has(s, e.key) then |s| else |s| + 1
  {
    PutSorted(s, e);
    PutIsMapUpdate(s, e);
    ToMapKeys(s);
  }
}
