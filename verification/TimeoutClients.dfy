/** The clients of the timeout manager: each keeps a sorted list of its own timeouts. */
module TimeoutClients {
  import opened HTime
  import opened Sequences

  /** One timeout. It belongs to the client that installed it. */
  class TNode {
    var timeout: TimeVal
    const dptr: int
    const owner: TimeoutBase

    constructor (owner: TimeoutBase, timeout: TimeVal, dptr: int)
      ensures this.owner == owner && this.timeout == timeout && this.dptr == dptr
    {
      this.owner, this.timeout, this.dptr := owner, timeout, dptr;
    }
  }

  /** A client: its enabled timeouts, earliest first, and its disabled ones. */
  class TimeoutBase {
    var toList: seq<TNode>
    var disList: seq<TNode>

    constructor ()
      ensures toList == [] && disList == []
    {
      toList, disList := [], [];
    }
  }

  /** What a client is told about one of its timeouts. */
  datatype Notice = Notice(tid: TNode, dptr: int, timeout: TimeVal)

  /** The timeouts of a client. */
  ghost function NodesOf(tb: TimeoutBase): set<TNode>
    reads tb`toList, tb`disList
  {
    (set n | n in tb.toList) + set n | n in tb.disList
  }

  ghost predicate Sorted(s: seq<TNode>)
    reads s`timeout
  {
    forall i, j :: 0 <= i < j < |s| ==> Le(s[i].timeout, s[j].timeout)
  }

  /** Enabled timeouts are in order and have a time; disabled ones have none; each timeout of the client is in exactly
      one of the two lists, once. */
  ghost predicate ClientOk(tb: TimeoutBase)
    reads tb`toList, tb`disList, NodesOf(tb)`timeout
  {
    && NoDup(tb.toList) && NoDup(tb.disList) && Sorted(tb.toList)
    && (forall n :: n in tb.toList ==> n.owner == tb && !Invalid(n.timeout))
    && (forall n :: n in tb.disList ==> n.owner == tb && Invalid(n.timeout))
  }

  // ----- lists

  lemma WithoutSorted(s: seq<TNode>, x: TNode)
    requires x in s && NoDup(s) && Sorted(s)
    ensures Sorted(Without(s, x))
  {
    var i :| 0 <= i < |s| && s[i] == x;
    WithoutAt(s, i);
    hide Without, NoDup;
    var r := s[..i] + s[i + 1..];
    forall a, b | 0 <= a < b < |r| ensures Le(r[a].timeout, r[b].timeout) {
      var a', b' := if a < i then a else a + 1, if b < i then b else b + 1;
      assert r[a] == s[a'] && r[b] == s[b'];
    }
  }

  ghost predicate InsertedAt(was: seq<TNode>, now: seq<TNode>, x: TNode, k: nat)
    reads was`timeout, x`timeout
  {
    k <= |was| && now == was[..k] + [x] + was[k..]
    && (forall j :: 0 <= j < k ==> Le(was[j].timeout, x.timeout))
    && (forall j :: k <= j < |was| ==> Lt(x.timeout, was[j].timeout))
  }

  /** `now` is `was` with x put in front of the first later timeout: behind those of equal time. */
  ghost predicate InsertedInOrder(was: seq<TNode>, now: seq<TNode>, x: TNode)
    reads was`timeout, x`timeout
  {
    exists k :: InsertedAt(was, now, x, k)
  }

  lemma InsertedIndices(was: seq<TNode>, now: seq<TNode>, x: TNode, k: nat)
    requires InsertedAt(was, now, x, k)
    ensures |now| == |was| + 1 && now[k] == x
    ensures forall j {:trigger now[j]} :: 0 <= j < k ==> now[j] == was[j]
    ensures forall j {:trigger now[j]} :: k < j < |now| ==> now[j] == was[j - 1]
  {
  }

  lemma InsertedKeeps(was: seq<TNode>, now: seq<TNode>, x: TNode)
    requires InsertedInOrder(was, now, x) && NoDup(was) && x !in was && Sorted(was)
    ensures NoDup(now) && Sorted(now) && forall y :: y in now <==> y in was || y == x
  {
    var k :| InsertedAt(was, now, x, k);
    InsertedIndices(was, now, x, k);
    InsertedSorted(was, now, x, k);
    forall y | y in was ensures y in now {
      var i :| 0 <= i < |was| && was[i] == y;
      assert now[if i < k then i else i + 1] == y;
    }
  }

  lemma InsertedSorted(was: seq<TNode>, now: seq<TNode>, x: TNode, k: nat)
    requires InsertedAt(was, now, x, k) && Sorted(was)
    ensures Sorted(now)
  {
    InsertedIndices(was, now, x, k);
    forall i, j | 0 <= i < j < |now| ensures Le(now[i].timeout, now[j].timeout) {
      var a, b := if i <= k then i else i - 1, if j <= k then j else j - 1;
      if i != k && j != k { assert Le(was[a].timeout, was[b].timeout); }
    }
  }

  // ----- sets of clients

  ghost function NodesIn(tbs: set<TimeoutBase>): set<TNode>
    reads tbs`toList, tbs`disList
  {
    set tb, n | tb in tbs && n in NodesOf(tb) :: n
  }

  ghost predicate ClientsOk(tbs: set<TimeoutBase>)
    reads tbs`toList, tbs`disList, NodesIn(tbs)`timeout
  {
    forall tb :: tb in tbs ==> ClientOk(tb)
  }

  ghost predicate AllDisabled(tbs: set<TimeoutBase>)
    reads tbs`toList
  {
    forall tb :: tb in tbs ==> tb.toList == []
  }

  /** The time of the earliest enabled timeout, if there is one. */
  datatype First = Nothing | At(time: TimeVal)

  /** No enabled timeout of the client is earlier; for Nothing, there is none at all. */
  ghost predicate EarliestOf(f: First, tb: TimeoutBase)
    reads tb`toList, tb`disList, NodesOf(tb)`timeout
  {
    forall x :: x in tb.toList ==> x in NodesOf(tb) && f.At? && Le(f.time, x.timeout)
  }

  ghost predicate Earliest(f: First, tbs: set<TimeoutBase>)
    reads tbs`toList, tbs`disList, NodesIn(tbs)`timeout
  {
    forall tb :: tb in tbs ==> NodesOf(tb) <= NodesIn(tbs) && EarliestOf(f, tb)
  }

  /** Not later than the first of a client is not later than any. */
  lemma FirstIsEarliest(t: TimeVal, tb: TimeoutBase)
    requires ClientOk(tb) && (tb.toList != [] ==> Le(t, tb.toList[0].timeout))
    ensures EarliestOf(At(t), tb)
  {
    forall x | x in tb.toList ensures Le(t, x.timeout) {
      var i :| 0 <= i < |tb.toList| && tb.toList[i] == x;
      if i > 0 { assert Le(tb.toList[0].timeout, tb.toList[i].timeout); }
    }
  }

  lemma FirstsAreEarliest(t: TimeVal, tbs: set<TimeoutBase>)
    requires ClientsOk(tbs)
    requires forall tb :: tb in tbs && tb.toList != [] ==> Le(t, tb.toList[0].timeout)
    ensures Earliest(At(t), tbs)
  {
    hide ClientOk, EarliestOf;
    forall tb | tb in tbs ensures EarliestOf(At(t), tb) {
      assert ClientOk(tb);
      FirstIsEarliest(t, tb);
    }
  }

  lemma NoEarliest(tbs: set<TimeoutBase>)
    requires AllDisabled(tbs)
    ensures Earliest(Nothing, tbs)
  {
  }

  lemma NoneEnabled(tbs: set<TimeoutBase>)
    requires Earliest(Nothing, tbs)
    ensures AllDisabled(tbs)
  {
    forall tb | tb in tbs ensures tb.toList == [] {
      assert EarliestOf(Nothing, tb);
      if tb.toList != [] { FirstBound(Nothing, tb); }
    }
  }

  lemma Earlier(t: TimeVal, f: First, tbs: set<TimeoutBase>)
    requires Earliest(f, tbs) && (f.At? ==> Le(t, f.time))
    ensures Earliest(At(t), tbs)
  {
  }

  /** Look at one client and the others apart. */
  lemma Split(f: First, tbs: set<TimeoutBase>, tb: TimeoutBase)
    requires tb in tbs
    ensures ClientsOk(tbs) <==> ClientsOk(tbs - {tb}) && ClientOk(tb)
    ensures AllDisabled(tbs) <==> AllDisabled(tbs - {tb}) && tb.toList == []
    ensures Earliest(f, tbs) <==> Earliest(f, tbs - {tb}) && EarliestOf(f, tb)
  {
    hide ClientOk, EarliestOf;
    assert forall c :: c in tbs <==> c in tbs - {tb} || c == tb;
  }

  /** The timeouts of a client are its own. */
  lemma Foreign(tbs: set<TimeoutBase>, tb: TimeoutBase, n: TNode)
    requires ClientsOk(tbs) && tb !in tbs && n.owner == tb
    ensures n !in NodesIn(tbs)
  {
  }

  // ----- changing one client

  lemma FirstBound(f: First, tb: TimeoutBase)
    requires EarliestOf(f, tb) && tb.toList != []
    ensures f.At? && Le(f.time, tb.toList[0].timeout)
  {
    assert tb.toList[0] in NodesOf(tb);
  }

  lemma Bound(f: First, tb: TimeoutBase, n: TNode)
    requires EarliestOf(f, tb) && n in tb.toList
    ensures f.At? && Le(f.time, n.timeout)
  {
  }

  lemma Enabled(tb: TimeoutBase, was: seq<TNode>, n: TNode)
    requires NoDup(was) && Sorted(was) && NoDup(tb.disList) && n !in was && n.owner == tb && !Invalid(n.timeout)
    requires forall x :: x in was ==> x.owner == tb && !Invalid(x.timeout)
    requires forall x :: x in tb.disList ==> x.owner == tb && Invalid(x.timeout)
    requires InsertedInOrder(was, tb.toList, n)
    ensures ClientOk(tb)
    ensures forall x :: x in tb.toList <==> x in was || x == n
  {
    hide InsertedInOrder;
    InsertedKeeps(was, tb.toList, n);
  }

  lemma FirstStays(was: seq<TNode>, now: seq<TNode>, x: TNode)
    requires InsertedInOrder(was, now, x) && was != [] && Le(was[0].timeout, x.timeout)
    ensures now != [] && now[0] == was[0]
  {
    var k :| InsertedAt(was, now, x, k);
  }

  lemma HeadBelow(tb: TimeoutBase, n: TNode)
    requires ClientOk(tb) && n in tb.toList
    ensures Le(tb.toList[0].timeout, n.timeout)
  {
    var i :| 0 <= i < |tb.toList| && tb.toList[i] == n;
    if i > 0 { assert Le(tb.toList[0].timeout, tb.toList[i].timeout); }
  }

  lemma StillBounded(t: TimeVal, was: seq<TNode>, now: seq<TNode>, x: TNode)
    requires InsertedInOrder(was, now, x) && Le(t, x.timeout) && (was != [] ==> Le(t, was[0].timeout))
    ensures now != [] && Le(t, now[0].timeout)
  {
    var k :| InsertedAt(was, now, x, k);
  }

  lemma NewFirst(was: seq<TNode>, now: seq<TNode>, x: TNode)
    requires InsertedInOrder(was, now, x) && (was != [] ==> Lt(x.timeout, was[0].timeout))
    ensures now != [] && now[0] == x
  {
    var k :| InsertedAt(was, now, x, k);
  }

  lemma ForeignAll(tbs: set<TimeoutBase>, tb: TimeoutBase)
    requires ClientsOk(tbs) && tb in tbs
    ensures forall n :: n in tb.toList ==> n !in NodesIn(tbs - {tb})
  {
    hide ClientOk;
    forall n | n in tb.toList ensures n !in NodesIn(tbs - {tb}) {
      assert ClientOk(tb);
      Owned(tb, n);
      Foreign(tbs - {tb}, tb, n);
    }
  }

  lemma FirstApart(tb: TimeoutBase)
    requires ClientOk(tb) && tb.toList != []
    ensures var n := tb.toList[0];
            n.owner == tb && n !in tb.toList[1..] && n !in tb.disList && Without(tb.toList, n) == tb.toList[1..]
  {
  }

  lemma NoEarliestOf(f: First, tb: TimeoutBase)
    requires tb.toList == []
    ensures EarliestOf(f, tb)
  {
  }

  lemma Owned(tb: TimeoutBase, n: TNode)
    requires ClientOk(tb) && n in NodesOf(tb)
    ensures n.owner == tb && (n in tb.toList <==> !Invalid(n.timeout)) && (n in tb.disList <==> Invalid(n.timeout))
  {
  }
}
