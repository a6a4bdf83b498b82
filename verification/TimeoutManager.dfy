/** The timeout manager: it only keeps the client with the earliest timeout in front. */
module TimeoutManager {
  import opened HTime
  import opened Sequences
  import opened TimeoutClients
  import opened TimeoutRound

  // ----- what a round sees of the clients

  ghost predicate ShowsOf(tb: TimeoutBase, r: Round)
    reads tb`toList, tb`disList, NodesOf(tb)`timeout
  {
    && On(r, tb) == tb.toList && Off(r, tb) == tb.disList
    && forall n :: n in tb.toList ==> n in NodesOf(tb) && Time(r, n) == n.timeout
  }

  ghost predicate ShowsAll(tbs: set<TimeoutBase>, r: Round)
    reads tbs`toList, tbs`disList, NodesIn(tbs)`timeout
  {
    forall tb :: tb in tbs ==> NodesOf(tb) <= NodesIn(tbs) && ShowsOf(tb, r)
  }

  lemma ShowsParts(tbs: set<TimeoutBase>, tb: TimeoutBase, r: Round)
    requires ShowsAll(tbs, r) && tb in tbs
    ensures ShowsAll(tbs - {tb}, r) && ShowsOf(tb, r)
  {
    hide ShowsOf;
  }

  lemma NodesSplit(tbs: set<TimeoutBase>, tb: TimeoutBase)
    requires tb in tbs
    ensures NodesIn(tbs) == NodesIn(tbs - {tb}) + NodesOf(tb)
  {
    hide NodesOf;
    forall n | n in NodesIn(tbs) ensures n in NodesIn(tbs - {tb}) + NodesOf(tb) {
      var c :| c in tbs && n in NodesOf(c);
      if c != tb { assert c in tbs - {tb}; }
    }
  }

  lemma TailAndHead<T>(s: seq<T>)
    requires s != []
    ensures forall x :: x in s <==> x == s[0] || x in s[1..]
  {
    assert s == [s[0]] + s[1..];
  }

  ghost predicate SameFor(tbs: set<TimeoutBase>, r: Round, s: Round)
    reads tbs`toList, tbs`disList
  {
    && (forall tb :: tb in tbs ==> On(s, tb) == On(r, tb) && Off(s, tb) == Off(r, tb))
    && (s.time == r.time || forall n :: n in NodesIn(tbs) ==> Time(s, n) == Time(r, n))
  }

  lemma ShowsSame(tbs: set<TimeoutBase>, r: Round, s: Round)
    requires ShowsAll(tbs, r) && SameFor(tbs, r, s)
    ensures ShowsAll(tbs, s)
  {
    hide On, Off, NodesIn;
  }

  lemma ShowsWhole(tbs: set<TimeoutBase>, tb: TimeoutBase, r: Round, s: Round)
    requires tb in tbs && ShowsAll(tbs - {tb}, r) && SameFor(tbs - {tb}, r, s) && ShowsOf(tb, s)
    ensures ShowsAll(tbs, s)
  {
    ShowsSame(tbs - {tb}, r, s);
    hide ShowsOf;
    forall c | c in tbs ensures NodesOf(c) <= NodesIn(tbs) && ShowsOf(c, s) {
      if c != tb { assert c in tbs - {tb}; }
    }
  }

  // ----- the delay until a timeout

  const CONV_MSEC := 1000
  const CONV_DAYS := 86_400_000_000
  const MAX_DELAY := 864_000_000

  /** Whole milliseconds from the current time to t, none if t has passed and ten days at most. */
  function Delay(t: TimeVal, current: TimeVal): nat {
    var left := LLConv(t) - LLConv(current);
    if left <= 0 then 0 else if left / 1000 > MAX_DELAY then MAX_DELAY else left / 1000
  }

  /** A running timer within a millisecond of a long delay is left alone. */
  predicate Armed(armed: int, delay: int) {
    if delay < 20 then armed == delay else delay - 1 <= armed <= delay + 1
  }

  lemma DelayIs(left: int)
    requires left > 0
    ensures Quot(left, CONV_MSEC) == left / 1000 && (Quot(left, CONV_DAYS) >= 10 <==> left / 1000 >= MAX_DELAY)
  {
    assert left == CONV_DAYS * (left / CONV_DAYS) + left % CONV_DAYS;
    assert left == 1000 * (left / 1000) + left % 1000;
  }

  lemma DelayGrows(a: TimeVal, b: TimeVal, current: TimeVal)
    requires Normal(a) && Normal(b) && Le(a, b)
    ensures Delay(a, current) <= Delay(b, current)
  {
    OrderIsTotal(a, b);
  }

  function Following(s: seq<TimeoutBase>, tb: TimeoutBase): TimeoutBase? {
    if |s| < 2 then null else if s[0] == tb then s[1] else Following(s[1..], tb)
  }

  lemma {:induction false} FollowingAt(done: seq<TimeoutBase>, todo: seq<TimeoutBase>)
    requires NoDup(done + todo) && todo != []
    ensures Following(done + todo, todo[0]) == if |todo| > 1 then todo[1] else null
  {
    if done == [] {
      assert done + todo == todo;
    } else {
      assert (done + todo)[0] != (done + todo)[|done|];
      assert (done + todo)[1..] == done[1..] + todo;
      FollowingAt(done[1..], todo);
    }
  }

  class Manager {
    var tbList: seq<TimeoutBase>
    var shTimeoutChange: nat
    var lockReorder: int
    var currTbIter: TimeoutBase?

    constructor ()
      ensures Valid() && tbList == [] && lockReorder < 0 && currTbIter == null
    {
      tbList, shTimeoutChange, lockReorder, currTbIter := [], 0, -1, null;
    }

    ghost function Clients(): set<TimeoutBase>
      reads this`tbList
    {
      set tb | tb in tbList
    }

    /** Lists in order, whether or not the front client is the right one. */
    ghost predicate ListsOk()
      reads this`tbList, Clients()`toList, Clients()`disList, NodesIn(Clients())`timeout
    {
      NoDup(tbList) && ClientsOk(Clients())
    }

    /** There has been a change of the shortest timeout if there is one or if the order is locked. */
    ghost predicate Counted()
      reads this`tbList, this`shTimeoutChange, this`lockReorder, Clients()`toList
    {
      shTimeoutChange == 0 ==> AllDisabled(Clients()) && lockReorder < 0
    }

    /** Unless the order is locked, the timeout in front is the earliest of all clients. */
    ghost predicate Valid()
      reads this`tbList, this`shTimeoutChange, this`lockReorder, Clients()`toList, Clients()`disList,
            NodesIn(Clients())`timeout
    {
      ListsOk() && Counted() && (lockReorder < 0 ==> Earliest(FirstTime(), Clients()))
    }

    ghost function FirstTime(): First
      reads this`tbList, Clients()`toList, Clients()`disList, NodesIn(Clients())`timeout
    {
      var n := GetShortest();
      if n == null then Nothing else At(n.timeout)
    }

    /** The first timeout of the first client. */
    function GetShortest(): (n: TNode?)
      reads this`tbList, Clients()`toList, Clients()`disList
      ensures n != null ==> tbList != [] && n in NodesOf(tbList[0]) && n in NodesIn(Clients())
    {
      if tbList == [] then null else if tbList[0].toList == [] then null else tbList[0].toList[0]
    }

    ghost predicate HeadIsEarliest(tb: TimeoutBase)
      reads this`tbList, Clients()`toList, Clients()`disList, NodesIn(Clients())`timeout, tb`toList, tb`disList,
            NodesOf(tb)`timeout
    {
      tb.toList != [] && tb.toList[0] in NodesOf(tb) && Earliest(At(tb.toList[0].timeout), Clients())
    }

    /** Put a client in front, unless the order is locked. */
    method TBListToFront(shortest: TimeoutBase)
      requires shortest in tbList && ListsOk() && (lockReorder >= 0 ==> shTimeoutChange > 0)
      modifies this`tbList, this`shTimeoutChange, this`lockReorder
      ensures lockReorder == if old(lockReorder) >= 0 then old(lockReorder) + 1 else old(lockReorder)
      ensures old(lockReorder) >= 0 ==> tbList == old(tbList) && shTimeoutChange == old(shTimeoutChange) && Valid()
      ensures old(lockReorder) < 0 ==>
                MovedToFront(old(tbList), tbList, shortest) && shTimeoutChange == old(shTimeoutChange) + 1
      ensures Clients() == old(Clients()) && (old(lockReorder) < 0 ==> tbList != [] && tbList[0] == shortest)
      ensures old(HeadIsEarliest(shortest)) ==> Valid()
      ensures OneMoved(old(tbList), tbList)
    {
      hide ClientsOk, Earliest;
      if lockReorder >= 0 {
        lockReorder := lockReorder + 1;
        return;
      }
      MovedKeeps(tbList, shortest);
      tbList := [shortest] + Without(tbList, shortest);
      shTimeoutChange := shTimeoutChange + 1;
    }

    /** The clients before this one have nothing enabled or a later first timeout. */
    ghost predicate OthersLater(was: seq<TimeoutBase>, tb: TimeoutBase)
      reads was`toList, tb`toList, (set x, n | x in was && n in x.toList :: n)`timeout, tb.toList`timeout
    {
      forall j :: 0 <= j < |was| && (forall i :: 0 <= i <= j ==> was[i] != tb) && was[j].toList != [] ==>
        assert was[j] in was && was[j].toList[0] in was[j].toList;
        tb.toList != [] && Lt(tb.toList[0].timeout, was[j].toList[0].timeout)
    }

    /** Find the client with the earliest timeout, the first of several, and bring it to the front. */
    method ReOrderTBList()
      requires ListsOk() && Counted()
      modifies this`tbList, this`shTimeoutChange, this`lockReorder
      ensures lockReorder == if old(lockReorder) >= 0 then old(lockReorder) + 1 else old(lockReorder)
      ensures Valid() && shTimeoutChange >= old(shTimeoutChange)
      ensures Clients() == old(Clients())
      ensures OneMoved(old(tbList), tbList)
      ensures old(lockReorder) >= 0 ==> tbList == old(tbList)
      ensures old(lockReorder) < 0 && tbList != [] ==> OthersLater(old(tbList), tbList[0])
    {
      hide ClientsOk, MovedToFront, Earliest;
      if lockReorder >= 0 {
        lockReorder := lockReorder + 1;
        return;
      }
      var shortest := FindEarliest();
      if shortest == null {
        shTimeoutChange := shTimeoutChange + 1;
        NoEarliest(Clients());
        return;
      }
      if shortest != tbList[0] { TBListToFront(shortest); }
    }

    /** The first of the clients with the earliest timeout, if any is enabled. */
    method FindEarliest() returns (shortest: TimeoutBase?)
      requires ListsOk()
      ensures ListsOk()
      ensures if shortest == null then forall tb :: tb in tbList ==> tb.toList == []
              else shortest in tbList && HeadIsEarliest(shortest) && OthersLater(tbList, shortest)
    {
      hide ClientsOk, Earliest;
      var i := 0;
      while i < |tbList| && tbList[i].toList == []
        invariant i <= |tbList| && forall j :: 0 <= j < i ==> tbList[j].toList == []
      {
        i := i + 1;
      }
      if i == |tbList| { return null; }
      shortest := tbList[i];
      var f := shortest.toList[0];
      ghost var k := i;
      while i < |tbList|
        invariant k <= i <= |tbList| && k < |tbList| && shortest == tbList[k]
        invariant shortest.toList != [] && f == shortest.toList[0]
        invariant forall j :: 0 <= j < i && tbList[j].toList != [] ==> Le(f.timeout, tbList[j].toList[0].timeout)
        invariant forall j :: 0 <= j < k && tbList[j].toList != [] ==> Lt(f.timeout, tbList[j].toList[0].timeout)
      {
        if tbList[i].toList != [] && Lt(tbList[i].toList[0].timeout, f.timeout) {
          shortest := tbList[i];
          f := shortest.toList[0];
          k := i;
        }
        i := i + 1;
      }
      FirstsAreEarliest(f.timeout, Clients());
    }

    /** Queue an enabled timeout of a client at its place. */
    method InsertActiveTimer(tb: TimeoutBase, ti: TNode)
      requires Sorted(tb.toList)
      modifies tb`toList
      ensures InsertedInOrder(old(tb.toList), tb.toList, ti)
    {
      ghost var was := tb.toList;
      var i := 0;
      while i < |tb.toList|
        invariant i <= |was| && tb.toList == was && forall j :: 0 <= j < i ==> Le(was[j].timeout, ti.timeout)
      {
        if Gt(tb.toList[i].timeout, ti.timeout) {
          tb.toList := tb.toList[..i] + [ti] + tb.toList[i..];
          assert forall j :: i <= j < |was| ==> Le(was[i].timeout, was[j].timeout);
          assert InsertedAt(was, tb.toList, ti, i);
          return;
        }
        i := i + 1;
      }
      tb.toList := tb.toList + [ti];
      assert InsertedAt(was, tb.toList, ti, |was|);
    }

    /** The manager except one client; f is a lower bound of the others. */
    ghost predicate Rest(tb: TimeoutBase, f: First)
      reads this`tbList, this`shTimeoutChange, this`lockReorder, (Clients() - {tb})`toList, (Clients() - {tb})`disList,
            NodesIn(Clients() - {tb})`timeout
    {
      && tb in tbList && NoDup(tbList) && ClientsOk(Clients() - {tb})
      && (lockReorder < 0 ==> Earliest(f, Clients() - {tb}))
      && (shTimeoutChange == 0 ==> AllDisabled(Clients() - {tb}) && lockReorder < 0)
    }

    lemma Apart(tb: TimeoutBase)
      requires Valid() && tb in tbList
      ensures Rest(tb, FirstTime()) && ClientOk(tb) && (lockReorder < 0 ==> EarliestOf(FirstTime(), tb))
      ensures tb.toList != [] ==> shTimeoutChange > 0
    {
      hide ClientsOk, Earliest;
      Split(FirstTime(), Clients(), tb);
    }

    lemma Together(tb: TimeoutBase, f: First)
      requires Rest(tb, f) && ClientOk(tb)
      ensures ListsOk() && (tb.toList == [] || shTimeoutChange > 0 ==> Counted())
      ensures lockReorder >= 0 ==> shTimeoutChange > 0
      ensures lockReorder < 0 && EarliestOf(f, tb) ==> Earliest(f, Clients())
    {
      hide ClientsOk, Earliest;
      Split(f, Clients(), tb);
    }

    lemma Shorter(tb: TimeoutBase, f: First, t: TimeVal)
      requires Rest(tb, f) && (f.At? ==> Le(t, f.time))
      ensures Rest(tb, At(t))
    {
      hide ClientsOk, Earliest;
      if lockReorder < 0 { Earlier(t, f, Clients() - {tb}); }
    }

    /** Insert a timeout that has just got a time. */
    method Enqueue(tb: TimeoutBase, n: TNode, ghost f: First)
      requires Rest(tb, f) && ClientOk(tb) && n.owner == tb && !Invalid(n.timeout) && n !in NodesOf(tb)
      modifies tb`toList
      ensures Rest(tb, f) && ClientOk(tb) && InsertedInOrder(old(tb.toList), tb.toList, n) && n in tb.toList
    {
      hide Rest, InsertedInOrder;
      ghost var was := tb.toList;
      assert allocated(Clients() - {tb}) && allocated(NodesIn(Clients() - {tb}));
      InsertActiveTimer(tb, n);
      Enabled(tb, was, n);
    }

    /** Queue a timeout that has just got a time, and see whether it is the new shortest. */
    method Activate(tb: TimeoutBase, n: TNode)
      requires Valid() && tb in tbList && n.owner == tb && !Invalid(n.timeout) && n !in NodesOf(tb)
      modifies this`tbList, this`shTimeoutChange, this`lockReorder, tb`toList
      ensures Valid() && Clients() == old(Clients())
      ensures lockReorder < 0 <==> old(lockReorder) < 0
      ensures InsertedInOrder(old(tb.toList), tb.toList, n)
      ensures old(GetShortest()) == null || Lt(n.timeout, old(GetShortest()).timeout) ==>
                (GetShortest() == n <==> old(lockReorder) < 0 || tb == old(tbList[0]))
      ensures OneMoved(old(tbList), tbList)
      ensures old(lockReorder) >= 0 ==> tbList == old(tbList) && lockReorder >= old(lockReorder)
    {
      hide Rest, ClientOk, ClientsOk, MovedToFront, NoDup, InsertedInOrder, Earliest, EarliestOf;
      var sh0 := GetShortest();
      ghost var was, f := tb.toList, FirstTime();
      Apart(tb);
      if lockReorder < 0 && was != [] { FirstBound(f, tb); }
      if sh0 != null { assert !AllDisabled(Clients()); }
      Enqueue(tb, n, f);
      if sh0 == null || Lt(n.timeout, sh0.timeout) {
        if lockReorder < 0 {
          NewFirst(was, tb.toList, n);
          FirstIsEarliest(n.timeout, tb);
          Shorter(tb, f, n.timeout);
          Together(tb, At(n.timeout));
        } else {
          Together(tb, f);
          if tbList[0] == tb { NewFirst(was, tb.toList, n); }
        }
        TBListToFront(tb);
      } else if lockReorder < 0 {
        if tbList[0] == tb { FirstStays(was, tb.toList, n); }
        StillBounded(f.time, was, tb.toList, n);
        FirstIsEarliest(f.time, tb);
        Together(tb, f);
      } else {
        Together(tb, f);
      }
    }

    /** Take an enabled timeout out of its list. */
    method DequeueEnabled(tb: TimeoutBase, n: TNode, ghost f: First)
      requires Rest(tb, f) && ClientOk(tb) && n in tb.toList
      modifies tb`toList
      ensures Rest(tb, f) && ClientOk(tb) && tb.toList == Without(old(tb.toList), n) && n !in NodesOf(tb)
      ensures old(EarliestOf(f, tb)) ==> EarliestOf(f, tb)
    {
      hide Rest;
      WithoutKeeps(tb.toList, n);
      WithoutSorted(tb.toList, n);
      assert allocated(Clients() - {tb}) && allocated(NodesIn(Clients() - {tb}));
      tb.toList := Without(tb.toList, n);
    }

    /** Take a disabled timeout out of its list. */
    method DequeueDisabled(tb: TimeoutBase, n: TNode, ghost f: First)
      requires Rest(tb, f) && ClientOk(tb) && n in tb.disList
      modifies tb`disList
      ensures Rest(tb, f) && ClientOk(tb) && tb.disList == Without(old(tb.disList), n) && n !in NodesOf(tb)
      ensures old(EarliestOf(f, tb)) ==> EarliestOf(f, tb)
    {
      hide Rest;
      WithoutKeeps(tb.disList, n);
      assert allocated(Clients() - {tb}) && allocated(NodesIn(Clients() - {tb}));
      tb.disList := Without(tb.disList, n);
    }

    /** Append a timeout that has lost its time, or has none yet, to the disabled ones. */
    method Disable(tb: TimeoutBase, n: TNode, ghost f: First)
      requires Rest(tb, f) && ClientOk(tb) && n !in NodesOf(tb) && n.owner == tb
      modifies tb`disList, n`timeout
      ensures Rest(tb, f) && ClientOk(tb) && tb.disList == old(tb.disList) + [n] && Invalid(n.timeout)
      ensures old(EarliestOf(f, tb)) ==> EarliestOf(f, tb)
    {
      SetTime(tb, n, n.timeout.(usec := INVALID_USEC), f);
      hide Rest;
      assert allocated(Clients() - {tb}) && allocated(NodesIn(Clients() - {tb}));
      tb.disList := tb.disList + [n];
    }

    /** Set the time of a timeout that is in no list. */
    method SetTime(tb: TimeoutBase, n: TNode, t: TimeVal, ghost f: First)
      requires Rest(tb, f) && ClientOk(tb) && n !in NodesOf(tb) && n.owner == tb
      modifies n`timeout
      ensures Rest(tb, f) && ClientOk(tb) && n.timeout == t
      ensures old(EarliestOf(f, tb)) ==> EarliestOf(f, tb)
    {
      hide ClientsOk, Earliest;
      Foreign(Clients() - {tb}, tb, n);
      assert allocated(Clients() - {tb}) && allocated(NodesIn(Clients() - {tb}));
      n.timeout := t;
    }

    /** Set up a timeout, disabled if it has no time. */
    method InstallTimeout(tb: TimeoutBase?, timeout: TimeVal, dptr: int) returns (n: TNode?)
      requires Valid() && (tb != null ==> tb in tbList)
      modifies this`tbList, this`shTimeoutChange, this`lockReorder, tb
      ensures Valid() && Clients() == old(Clients()) && (lockReorder < 0 <==> old(lockReorder) < 0)
      ensures tb == null ==> n == null && tbList == old(tbList)
      ensures tb != null ==> n != null && fresh(n) && n.owner == tb && n.dptr == dptr
      ensures tb != null && Invalid(timeout) ==>
                Invalid(n.timeout) && tb.disList == old(tb.disList) + [n] && tb.toList == old(tb.toList)
      ensures tb != null && !Invalid(timeout) ==>
                n.timeout == timeout && InsertedInOrder(old(tb.toList), tb.toList, n) && tb.disList == old(tb.disList)
      ensures tb != null && !Invalid(timeout) ==>
                (old(GetShortest()) == null || Lt(timeout, old(GetShortest().timeout))) ==>
                (GetShortest() == n <==> old(lockReorder) < 0 || tb == old(tbList[0]))
      ensures OneMoved(old(tbList), tbList)
      ensures old(lockReorder) >= 0 ==> tbList == old(tbList) && lockReorder >= old(lockReorder)
    {
      hide Rest, ClientOk, ClientsOk, NoDup, Earliest, EarliestOf, InsertedInOrder;
      if tb == null { return null; }
      ghost var f := FirstTime();
      assert allocated(Clients()) && allocated(NodesIn(Clients()));
      n := new TNode(tb, timeout, dptr);
      if Invalid(timeout) {
        Apart(tb);
        Disable(tb, n, f);
        Together(tb, f);
      } else {
        Activate(tb, n);
      }
    }

    /** Disable an enabled timeout. */
    method DisableEnabled(tb: TimeoutBase, n: TNode)
      requires Valid() && tb in tbList && n in tb.toList
      modifies this`tbList, this`shTimeoutChange, this`lockReorder, tb, n
      ensures Valid() && Clients() == old(Clients()) && (lockReorder < 0 <==> old(lockReorder) < 0)
      ensures Invalid(n.timeout) && tb.toList == Without(old(tb.toList), n) && tb.disList == old(tb.disList) + [n]
      ensures OneMoved(old(tbList), tbList)
      ensures old(lockReorder) >= 0 ==> tbList == old(tbList) && lockReorder >= old(lockReorder)
    {
      hide Rest, ClientOk, ClientsOk, NoDup, Earliest, EarliestOf, Without;
      var sh0 := GetShortest();
      ghost var f := FirstTime();
      Apart(tb);
      Owned(tb, n);
      DequeueEnabled(tb, n, f);
      Disable(tb, n, f);
      Together(tb, f);
      if n == sh0 {
        ReOrderTBList();
      } else if tbList[0] == tb {
        HeadKept<TNode>(old(tb.toList), n);
      }
    }

    /** Give a disabled timeout a time. */
    method EnableDisabled(tb: TimeoutBase, n: TNode, timeout: TimeVal)
      requires Valid() && tb in tbList && n in tb.disList && !Invalid(timeout)
      modifies this`tbList, this`shTimeoutChange, this`lockReorder, tb, n
      ensures Valid() && Clients() == old(Clients()) && (lockReorder < 0 <==> old(lockReorder) < 0)
      ensures n.timeout == timeout && tb.disList == Without(old(tb.disList), n)
      ensures InsertedInOrder(old(tb.toList), tb.toList, n)
      ensures OneMoved(old(tbList), tbList)
      ensures old(lockReorder) >= 0 ==> tbList == old(tbList) && lockReorder >= old(lockReorder)
    {
      hide Rest, ClientOk, ClientsOk, NoDup, Earliest, EarliestOf, Without, InsertedInOrder;
      ghost var f := FirstTime();
      Apart(tb);
      Owned(tb, n);
      if GetShortest() != null { FrontOwner(); }
      DequeueDisabled(tb, n, f);
      SetTime(tb, n, timeout, f);
      Together(tb, f);
      Activate(tb, n);
    }

    /** The shortest timeout belongs to the front client. */
    lemma FrontOwner()
      requires Valid() && GetShortest() != null
      ensures GetShortest().owner == tbList[0] && !Invalid(GetShortest().timeout)
    {
      assert ClientOk(tbList[0]);
    }

    method CountChange(ghost tb: TimeoutBase, ghost f: First)
      requires Rest(tb, f) && ClientOk(tb)
      modifies this`shTimeoutChange
      ensures Rest(tb, f) && ClientOk(tb) && shTimeoutChange == old(shTimeoutChange) + 1
    {
      hide ClientOk, ClientsOk, Earliest;
      assert allocated(Clients() - {tb}) && allocated(NodesIn(Clients() - {tb}));
      shTimeoutChange := shTimeoutChange + 1;
    }

    /** Give an enabled timeout another time and place it anew. */
    method Requeue(tb: TimeoutBase, n: TNode, timeout: TimeVal, ghost f: First)
      requires Rest(tb, f) && ClientOk(tb) && n in tb.toList && n.owner == tb && !Invalid(timeout)
      modifies tb`toList, n`timeout
      ensures Rest(tb, f) && ClientOk(tb) && n.timeout == timeout && n in tb.toList
      ensures InsertedInOrder(Without(old(tb.toList), n), tb.toList, n)
      ensures old(EarliestOf(f, tb)) && Without(old(tb.toList), n) != [] ==>
                f.At? && Le(f.time, Without(old(tb.toList), n)[0].timeout)
    {
      hide Rest, ClientOk, EarliestOf, Without, InsertedInOrder;
      ghost var early := EarliestOf(f, tb);
      DequeueEnabled(tb, n, f);
      ghost var was := tb.toList;
      SetTime(tb, n, timeout, f);
      if early && was != [] { FirstBound(f, tb); }
      Enqueue(tb, n, f);
    }

    /** An earlier first timeout and a later other one leave the front client where it is. */
    lemma FrontKept(tb: TimeoutBase, n: TNode, list: seq<TNode>, f: First)
      requires lockReorder < 0 && shTimeoutChange > 0 && Rest(tb, f) && ClientOk(tb) && f.At?
      requires n in tb.toList && list != []
      requires InsertedInOrder(Without(list, n), tb.toList, n)
      requires Without(list, n) != [] ==> Le(f.time, Without(list, n)[0].timeout)
      requires tbList != [] && (tbList[0] == tb && list[0] != n ==> f == At(list[0].timeout))
      requires tbList[0] != tb ==> FirstTime() == f && Le(f.time, n.timeout)
      requires tbList[0] == tb ==> if list[0] == n then Le(n.timeout, f.time) else Le(f.time, n.timeout)
      ensures Valid()
    {
      hide Rest, ClientOk, ClientsOk, NoDup, Earliest, EarliestOf, Without, InsertedInOrder;
      if tbList[0] == tb && list[0] == n {
        HeadBelow(tb, n);
        Shorter(tb, f, tb.toList[0].timeout);
        FirstIsEarliest(tb.toList[0].timeout, tb);
        Together(tb, At(tb.toList[0].timeout));
      } else {
        if tbList[0] == tb {
          HeadKept(list, n);
          FirstStays(Without(list, n), tb.toList, n);
        }
        StillBounded(f.time, Without(list, n), tb.toList, n);
        FirstIsEarliest(f.time, tb);
        Together(tb, f);
      }
    }

    /** Give an enabled timeout another time. */
    method ChangeEnabled(tb: TimeoutBase, n: TNode, timeout: TimeVal)
      requires Valid() && tb in tbList && n in tb.toList && !Invalid(timeout)
      modifies this`tbList, this`shTimeoutChange, this`lockReorder, tb, n
      ensures Valid() && Clients() == old(Clients()) && (lockReorder < 0 <==> old(lockReorder) < 0)
      ensures n.timeout == timeout && tb.disList == old(tb.disList)
      ensures InsertedInOrder(Without(old(tb.toList), n), tb.toList, n)
      ensures OneMoved(old(tbList), tbList)
      ensures old(lockReorder) >= 0 ==> tbList == old(tbList) && lockReorder >= old(lockReorder)
    {
      hide Rest, ClientOk, ClientsOk, NoDup, Earliest, EarliestOf, Without, InsertedInOrder;
      var sh0 := GetShortest();
      ghost var f, list := FirstTime(), tb.toList;
      Apart(tb);
      Owned(tb, n);
      var dontReorder := (n == sh0 && Le(timeout, n.timeout)) || (n != sh0 && Ge(timeout, n.timeout));
      if lockReorder < 0 { Bound(f, tb, n); }
      if n == sh0 {
        FrontOwner();
        CountChange(tb, f);
      }
      Requeue(tb, n, timeout, f);
      if !dontReorder {
        Together(tb, f);
        assert allocated(Without(list, n));
        ReOrderTBList();
      } else if lockReorder < 0 {
        FrontKept(tb, n, list, f);
      } else {
        Together(tb, f);
      }
    }

    /** Change the time of a timeout; an invalid one disables it. */
    method UpdateTimeout(tb: TimeoutBase?, n: TNode?, timeout: TimeVal) returns (rv: int)
      requires Valid() && (tb != null ==> tb in tbList)
      modifies this`tbList, this`shTimeoutChange, this`lockReorder, tb, n
      ensures Valid() && Clients() == old(Clients()) && (lockReorder < 0 <==> old(lockReorder) < 0)
      ensures rv == if tb == null then 0 else if n == null || n !in old(NodesOf(tb)) then -3
                    else if Invalid(timeout) && Invalid(old(n.timeout)) then 1 else 0
      ensures tb == null || rv != 0 ==>
                unchanged(this) && (tb != null ==> unchanged(tb)) && (n != null ==> unchanged(n))
      ensures tb != null && rv == 0 && Invalid(timeout) ==>
                Invalid(n.timeout) && tb.toList == Without<TNode>(old(tb.toList), n)
                && tb.disList == old(tb.disList) + [n]
      ensures tb != null && rv == 0 && !Invalid(timeout) ==>
                n.timeout == timeout && tb.disList == Without<TNode>(old(tb.disList), n)
                && InsertedInOrder(Without<TNode>(old(tb.toList), n), tb.toList, n)
      ensures OneMoved(old(tbList), tbList)
      ensures old(lockReorder) >= 0 ==> tbList == old(tbList) && lockReorder >= old(lockReorder)
    {
      hide Valid, Without, InsertedInOrder;
      if tb == null { return 0; }
      if n == null { return -3; }
      if n !in tb.toList && n !in tb.disList { return -3; }
      ClientIsOk(tb);
      Owned(tb, n);
      if Invalid(timeout) {
        if Invalid(n.timeout) { return 1; }
        DisableEnabled(tb, n);
        return 0;
      }
      if Invalid(n.timeout) {
        WithoutAbsent<TNode>(tb.toList, n);
        EnableDisabled(tb, n, timeout);
        return 0;
      }
      WithoutAbsent<TNode>(tb.disList, n);
      ChangeEnabled(tb, n, timeout);
      return 0;
    }

    lemma ClientIsOk(tb: TimeoutBase)
      requires Valid() && tb in tbList
      ensures ClientOk(tb)
    {
    }

    /** Drop a timeout. */
    method KillTimeout(tb: TimeoutBase?, n: TNode?) returns (rv: int)
      requires Valid() && (tb != null ==> tb in tbList)
      modifies this`tbList, this`shTimeoutChange, this`lockReorder, tb
      ensures Valid() && Clients() == old(Clients()) && (lockReorder < 0 <==> old(lockReorder) < 0)
      ensures rv == if tb != null && (n == null || n !in old(NodesOf(tb))) then -3 else 0
      ensures tb == null || rv != 0 ==> unchanged(this) && (tb != null ==> unchanged(tb))
      ensures tb != null && rv == 0 ==>
                n !in NodesOf(tb) && tb.toList == Without<TNode>(old(tb.toList), n)
                && tb.disList == Without<TNode>(old(tb.disList), n)
      ensures OneMoved(old(tbList), tbList)
      ensures old(lockReorder) >= 0 ==> tbList == old(tbList) && lockReorder >= old(lockReorder)
    {
      hide Rest, ClientOk, ClientsOk, NoDup, Earliest, EarliestOf, Without;
      if tb == null { return 0; }
      if n == null { return -3; }
      if n !in tb.toList && n !in tb.disList { return -3; }
      ghost var f := FirstTime();
      Apart(tb);
      Owned(tb, n);
      if Invalid(n.timeout) {
        WithoutAbsent<TNode>(tb.toList, n);
        DequeueDisabled(tb, n, f);
        Together(tb, f);
      } else {
        WithoutAbsent<TNode>(tb.disList, n);
        var mustReorder := GetShortest() == n;
        DequeueEnabled(tb, n, f);
        Together(tb, f);
        if mustReorder {
          ReOrderTBList();
        } else if tbList[0] == tb {
          HeadKept<TNode>(old(tb.toList), n);
        }
        assert !mustReorder || shTimeoutChange > 0;
      }
      return 0;
    }

    /** Append a new client. */
    method Register(tb: TimeoutBase?)
      requires Valid() && (tb != null && tb !in tbList ==> tb.toList == [] && tb.disList == [])
      modifies this`tbList, this`shTimeoutChange, this`lockReorder
      ensures Valid() && lockReorder == old(lockReorder)
      ensures tbList == if tb == null || tb in old(tbList) then old(tbList) else old(tbList) + [tb]
    {
      hide ClientsOk, Earliest, EarliestOf;
      if tb == null || tb in tbList { return; }
      ghost var cs, f := Clients(), FirstTime();
      assert allocated(cs) && allocated(NodesIn(cs));
      tbList := tbList + [tb];
      assert Clients() == cs + {tb} && Clients() - {tb} == cs;
      Split(f, Clients(), tb);
      NoEarliestOf(f, tb);
    }

    method DropDisabled(tb: TimeoutBase, ghost f: First)
      requires Rest(tb, f)
      modifies tb`disList
      ensures Rest(tb, f) && tb.disList == []
    {
      hide Rest;
      ghost var others := Clients() - {tb};
      while tb.disList != []
        invariant Rest(tb, f)
        decreases |tb.disList|
      {
        assert allocated(others) && allocated(NodesIn(others));
        tb.disList := tb.disList[1..];
      }
    }

    method DropEnabled(tb: TimeoutBase, ghost f: First)
      requires Rest(tb, f)
      modifies tb`toList
      ensures Rest(tb, f) && tb.toList == []
    {
      hide Rest;
      ghost var others := Clients() - {tb};
      while tb.toList != []
        invariant Rest(tb, f)
        decreases |tb.toList|
      {
        assert allocated(others) && allocated(NodesIn(others));
        tb.toList := tb.toList[1..];
      }
    }

    /** Drop a client and all its timeouts. */
    method Unregister(tb: TimeoutBase?)
      requires Valid() && (tb != null ==> tb in tbList)
      modifies this, tb
      ensures Valid() && Clients() == old(Clients()) - {tb} && (lockReorder < 0 <==> old(lockReorder) < 0)
      ensures tb == null ==> unchanged(this)
      ensures currTbIter == if tb != null && old(currTbIter) == tb then null else old(currTbIter)
      ensures tb != null && old(lockReorder) >= 0 ==>
                tbList == Without<TimeoutBase>(old(tbList), tb) && lockReorder >= old(lockReorder)
      ensures tb != null ==> tb.toList == [] && tb.disList == []
      ensures tb != null && (old(tbList)[0] != tb || old(tb.toList) == []) ==>
                tbList == Without<TimeoutBase>(old(tbList), tb)
      ensures tb != null ==> OneMoved(Without<TimeoutBase>(old(tbList), tb), tbList)
    {
      hide Rest, ClientsOk, Earliest, EarliestOf, Without;
      if tb == null { return; }
      ghost var f, others := FirstTime(), Clients() - {tb};
      Apart(tb);
      assert allocated(others) && allocated(NodesIn(others));
      DropDisabled(tb, f);
      var mustReorder := false;
      if tb.toList != [] {
        mustReorder := tbList[0] == tb;
        DropEnabled(tb, f);
      }
      RemoveClient(tb, f);
      if currTbIter == tb {
        // Dequeuing has cleared the link to the next client.
        currTbIter := null;
      }
      if mustReorder {
        ReOrderTBList();
        assert shTimeoutChange > 0;
      } else if old(tbList)[0] != tb {
        HeadKept<TimeoutBase>(old(tbList), tb);
      } else if lockReorder < 0 {
        NoneEnabled(others);
      }
    }

    method RemoveClient(tb: TimeoutBase, ghost f: First)
      requires Rest(tb, f)
      modifies this`tbList
      ensures ListsOk() && Counted() && Clients() == old(Clients()) - {tb} && tbList == Without(old(tbList), tb)
      ensures lockReorder < 0 ==> Earliest(f, Clients())
    {
      hide ClientsOk, Earliest;
      ghost var others := Clients() - {tb};
      WithoutKeeps(tbList, tb);
      assert allocated(others) && allocated(NodesIn(others));
      tbList := Without(tbList, tb);
      assert Clients() == others;
    }

    method LockMore(ghost tb: TimeoutBase)
      requires Rest(tb, Nothing) && ClientOk(tb) && lockReorder >= 0
      modifies this`lockReorder
      ensures Rest(tb, Nothing) && ClientOk(tb) && lockReorder == old(lockReorder) + 1
    {
      hide ClientOk, ClientsOk;
      assert allocated(Clients() - {tb}) && allocated(NodesIn(Clients() - {tb}));
      lockReorder := lockReorder + 1;
    }

    /** Move the first enabled timeout of a client to the disabled ones, without a time. */
    method Expire(tb: TimeoutBase) returns (notice: Notice)
      requires Rest(tb, Nothing) && ClientOk(tb) && lockReorder >= 0 && tb.toList != []
      modifies this`lockReorder, tb, {tb.toList[0]}`timeout
      ensures Rest(tb, Nothing) && ClientOk(tb) && lockReorder == old(lockReorder) + 1
      ensures var n := old(tb.toList[0]);
              notice == Notice(n, n.dptr, old(n.timeout)) && tb.disList == old(tb.disList) + [n]
      ensures tb.toList == old(tb.toList)[1..] && old(tb.toList[0]) !in tb.toList
      ensures old(tb.toList[0]) !in old(tb.disList)
    {
      hide Rest, ClientOk;
      var n := tb.toList[0];
      notice := Notice(n, n.dptr, n.timeout);
      FirstApart(tb);
      DequeueEnabled(tb, n, Nothing);
      Disable(tb, n, Nothing);
      LockMore(tb);
    }

    // ----- a round of notifications

    /** The manager is in this state of a round. */
    ghost predicate Shows(r: Round)
      reads this`tbList, this`currTbIter, Clients()`toList, Clients()`disList, NodesIn(Clients())`timeout
    {
      tbList == r.done + r.todo && currTbIter == Serving(r) && ShowsAll(Clients(), r)
    }

    /** Disable the first timeout of the client being served and note what it is told. */
    method Tell(tb: TimeoutBase, current: TimeVal, ghost r: Round) returns (notice: Notice)
      requires Valid() && lockReorder >= 0 && Shows(r) && r.calls == [] && currTbIter == tb
      requires tb.toList != [] && !Gt(tb.toList[0].timeout, current)
      modifies this`lockReorder, tb, {tb.toList[0]}`timeout
      ensures Valid() && lockReorder == old(lockReorder) + 1
      ensures notice == Notice(old(tb.toList[0]), old(tb.toList[0].dptr), old(tb.toList[0].timeout))
      ensures tb.toList == old(tb.toList)[1..]
      ensures Can(r, Told(notice.tid, notice.timeout), current) && Shows(Then(r, Told(notice.tid, notice.timeout)))
      ensures NodesIn(Clients()) == old(NodesIn(Clients()))
    {
      hide Rest, ClientsOk, Earliest, EarliestOf, ClientOk, ShowsAll, NodesIn, NodesOf, Can, Then, On, Off, Without;
      ghost var others, n := Clients() - {tb}, tb.toList[0];
      Locked(tb);
      FirstApart(tb);
      ShowsParts(Clients(), tb, r);
      ShowsLists(tb, r);
      ForeignAll(Clients(), tb);
      NodesSplit(Clients(), tb);
      TellStep(r, n, current);
      assert allocated(others) && allocated(NodesIn(others));
      notice := Expire(tb);
      ghost var s := Then(r, Told(notice.tid, notice.timeout));
      Together(tb, Nothing);
      NodesSplit(Clients(), tb);
      FirstDisabled(tb, n, old(tb.toList), old(tb.disList), old(NodesOf(tb)), r, s);
      ShowsWhole(Clients(), tb, r, s);
    }

    /** A callback is being run. */
    ghost predicate Calling(r: Round, call: Call)
      reads this, Clients()`toList, Clients()`disList, NodesIn(Clients())`timeout
    {
      Valid() && lockReorder > 0 && Shows(r) && (r.over || r.todo != []) && r.calls != [] && r.calls[0] == call
    }

    /** A call has been served: what has happened is a step of the round, and the manager is in the state after it. */
    ghost predicate Served(r: Round, e: Event, current: TimeVal)
      reads this, Clients()`toList, Clients()`disList, NodesIn(Clients())`timeout
    {
      Can(r, e, current) && var s := Then(r, e); Valid() && lockReorder > 0 && Shows(s) && (s.over || s.todo != [])
    }

    lemma NotThere(r: Round, call: Call, current: TimeVal)
      requires Calling(r, call) && Performs(r, call, Ignored)
      ensures Served(r, Ignored, current)
    {
      hide Valid, ShowsAll, Performs, Then;
      IgnoreStep(r);
      ShowsSame(Clients(), r, Then(r, Ignored));
    }

    /** After a timeout has been given a time, or has lost it. */
    lemma Retimes(tb: TimeoutBase, n: TNode, t: TimeVal, was: seq<TNode>, off: seq<TNode>, r: Round, current: TimeVal)
      requires Valid() && lockReorder > 0 && tbList == r.done + r.todo && currTbIter == Serving(r)
      requires r.over || r.todo != []
      requires tb in tbList && ShowsAll(Clients() - {tb}, r) && On(r, tb) == was && Off(r, tb) == off
      requires n.owner == tb && n !in NodesIn(Clients() - {tb})
      requires forall x :: x in was && x != n ==> Time(r, x) == x.timeout
      requires Invalid(t) ==> tb.toList == Without(was, n) && tb.disList == off + [n]
      requires !Invalid(t) ==>
                n.timeout == t && InsertedInOrder(Without(was, n), tb.toList, n) && tb.disList == Without(off, n)
      requires n !in Without(was, n) && Can(r, Timed(n, t), current)
      ensures Served(r, Timed(n, t), current)
      ensures NodesOf(tb) <= (set x | x in was) + (set x | x in off) + {n}
    {
      hide Valid, ShowsAll, Can, Then, On, Off, Time, Without, NodesIn, NodesOf, InsertedInOrder, Queued;
      var s := Then(r, Timed(n, t));
      RetimeStep(r, n, t);
      RetimedLists(tb, n, t, was, off, s);
      SameOthers(Clients() - {tb}, tb, n, r, s);
      ShowsWhole(Clients(), tb, r, s);
    }

    lemma SameOthers(others: set<TimeoutBase>, tb: TimeoutBase, n: TNode, r: Round, s: Round)
      requires OnlyAt(tb, r, s) && n !in NodesIn(others) && (forall x :: x != n ==> Time(s, x) == Time(r, x))
      requires forall c :: c in others ==> c in r.done + r.todo && c != tb
      ensures SameFor(others, r, s)
    {
      hide On, Off, Time;
      forall c | c in others ensures On(s, c) == On(r, c) && Off(s, c) == Off(r, c) {
        assert c in r.done || c in r.todo;
      }
      forall x | x in NodesIn(others) ensures Time(s, x) == Time(r, x) { assert x != n; }
    }

    lemma RetimedLists(tb: TimeoutBase, n: TNode, t: TimeVal, was: seq<TNode>, off: seq<TNode>, s: Round)
      requires Invalid(t) ==> tb.toList == Without(was, n) && tb.disList == off + [n]
      requires !Invalid(t) ==>
                n.timeout == t && InsertedInOrder(Without(was, n), tb.toList, n) && tb.disList == Without(off, n)
      requires n !in Without(was, n) && (forall x :: x in was && x != n ==> Time(s, x) == x.timeout)
      requires !Invalid(t) ==> Time(s, n) == t
      requires On(s, tb) == (if Invalid(t) then Without(was, n) else Queued(Without(was, n), n, s))
      requires Off(s, tb) == (if Invalid(t) then off + [n] else Without(off, n))
      ensures ShowsOf(tb, s) && NodesOf(tb) <= (set x | x in was) + (set x | x in off) + {n}
    {
      hide On, Off, Time, Without, InsertedInOrder, Queued;
      WithoutWithin(was, n);
      WithoutWithin(off, n);
      if !Invalid(t) {
        QueuedInOrder(Without(was, n), tb.toList, n, s);
        QueuedAdds(Without(was, n), n, s);
      }
    }

    /** A callback changes this client. */
    ghost predicate Changing(tb: TimeoutBase, r: Round)
      reads this, Clients()`toList, Clients()`disList, NodesIn(Clients())`timeout
    {
      Valid() && lockReorder > 0 && Shows(r) && (r.over || r.todo != []) && tb in tbList
    }

    lemma Before(tb: TimeoutBase, r: Round)
      requires Changing(tb, r)
      ensures ShowsAll(Clients() - {tb}, r) && On(r, tb) == tb.toList && Off(r, tb) == tb.disList
      ensures forall n :: n in tb.toList ==> Time(r, n) == n.timeout
      ensures ClientOk(tb) && NodesIn(Clients()) == NodesIn(Clients() - {tb}) + NodesOf(tb)
      ensures forall n :: n in NodesOf(tb) ==> n !in NodesIn(Clients() - {tb})
    {
      hide ClientOk, On, Off, Time;
      ShowsParts(Clients(), tb, r);
      ClientIsOk(tb);
      NodesSplit(Clients(), tb);
      forall n | n in NodesOf(tb) ensures n !in NodesIn(Clients() - {tb}) {
        Owned(tb, n);
        Foreign(Clients() - {tb}, tb, n);
      }
    }

    method PerformInstall(c: nat, timeout: TimeVal, dptr: int, ghost r: Round, current: TimeVal)
        returns (ghost e: Event)
      requires Calling(r, Install(c, timeout, dptr))
      modifies this, Clients(), NodesIn(Clients())
      ensures Served(r, e, current) && Clients() == old(Clients())
      ensures fresh(NodesIn(Clients()) - old(NodesIn(Clients())))
    {
      hide Valid, ShowsAll, ShowsOf, On, Off, Time, NodesIn, Served, Then, InsertedInOrder, Without;
      if c >= |tbList| {
        NotThere(r, Install(c, timeout, dptr), current);
        return Ignored;
      }
      var tb := tbList[c];
      ghost var others, was, off := Clients() - {tb}, tb.toList, tb.disList;
      Before(tb, r);
      hide ClientOk;
      assert allocated(others) && allocated(NodesIn(others));
      var n := InstallTimeout(tb, timeout, dptr);
      WithoutAbsent<TNode>(was, n);
      WithoutAbsent<TNode>(off, n);
      Retimes(tb, n, timeout, was, off, r, current);
      NodesSplit(Clients(), tb);
      e := Timed(n, timeout);
    }

    /** The timeout a callback names. */
    function Pick(tb: TimeoutBase, k: nat): (n: TNode?)
      reads tb`toList, tb`disList
      ensures n == null <==> k >= |tb.toList + tb.disList|
      ensures n != null ==> n in NodesOf(tb)
    {
      var all := tb.toList + tb.disList;
      if k < |all| then all[k] else null
    }

    method UpdateAt(tb: TimeoutBase, n: TNode, timeout: TimeVal, ghost r: Round, current: TimeVal)
      requires Changing(tb, r) && n in NodesOf(tb) && Can(r, Timed(n, timeout), current)
      requires !(Invalid(timeout) && Invalid(n.timeout))
      modifies this, tb, n
      ensures Served(r, Timed(n, timeout), current) && Clients() == old(Clients())
      ensures NodesIn(Clients()) <= old(NodesIn(Clients()))
    {
      hide Valid, ShowsAll, ShowsOf, On, Off, Time, Without, NodesIn, InsertedInOrder, Served, Can, Then;
      ghost var others, was, off := Clients() - {tb}, tb.toList, tb.disList;
      Before(tb, r);
      Owned(tb, n);
      WithoutGone(tb, n);
      hide ClientOk;
      assert allocated(others) && allocated(NodesIn(others));
      var _ := UpdateTimeout(tb, n, timeout);
      Retimes(tb, n, timeout, was, off, r, current);
      NodesSplit(Clients(), tb);
    }

    /** A disabled timeout that is to be disabled is left as it is. */
    method UpdateRefused(tb: TimeoutBase, n: TNode, timeout: TimeVal, ghost r: Round)
      requires Changing(tb, r) && n in tb.disList && Invalid(timeout)
      modifies this, tb, n
      ensures Changing(tb, r) && unchanged(this) && Clients() == old(Clients())
      ensures NodesIn(Clients()) == old(NodesIn(Clients()))
    {
      hide Valid, ShowsAll, On, Off, Time, Without, NodesIn, InsertedInOrder;
      ghost var others := Clients() - {tb};
      Before(tb, r);
      Owned(tb, n);
      hide ClientOk;
      assert allocated(others) && allocated(NodesIn(others));
      var _ := UpdateTimeout(tb, n, timeout);
      ShowsWhole(Clients(), tb, r, r);
      NodesSplit(Clients(), tb);
    }

    lemma WithoutGone(tb: TimeoutBase, n: TNode)
      requires ClientOk(tb)
      ensures n !in Without(tb.toList, n)
    {
      if n in tb.toList { WithoutKeeps(tb.toList, n); } else { WithoutAbsent(tb.toList, n); }
    }

    method PerformUpdate(c: nat, k: nat, timeout: TimeVal, ghost r: Round, current: TimeVal) returns (ghost e: Event)
      requires Calling(r, Update(c, k, timeout))
      modifies this, Clients(), NodesIn(Clients())
      ensures Served(r, e, current) && Clients() == old(Clients()) && NodesIn(Clients()) <= old(NodesIn(Clients()))
    {
      hide Valid, ShowsAll, ShowsOf, On, Off, Time, NodesIn, Served, Then;
      e := Ignored;
      if c < |tbList| {
        var tb := tbList[c];
        Before(tb, r);
        var n := Pick(tb, k);
        if n != null {
          Owned(tb, n);
          hide ClientOk, NodesOf;
          if !(Invalid(timeout) && Invalid(n.timeout)) {
            UpdateAt(tb, n, timeout, r, current);
            return Timed(n, timeout);
          }
          UpdateRefused(tb, n, timeout, r);
        }
      }
      NotThere(r, Update(c, k, timeout), current);
    }

    method KillAt(tb: TimeoutBase, n: TNode, ghost r: Round, current: TimeVal)
      requires Changing(tb, r) && n in NodesOf(tb) && Can(r, Dropped(n), current)
      modifies this, tb
      ensures Served(r, Dropped(n), current) && Clients() == old(Clients())
      ensures NodesIn(Clients()) <= old(NodesIn(Clients()))
    {
      hide Valid, ShowsAll, ShowsOf, On, Off, Time, Without, NodesIn, Served, Can, Then;
      ghost var others, was, off := Clients() - {tb}, tb.toList, tb.disList;
      Before(tb, r);
      Owned(tb, n);
      WithoutGone(tb, n);
      hide ClientOk;
      assert allocated(others) && allocated(NodesIn(others));
      var _ := KillTimeout(tb, n);
      Drops(tb, n, was, off, r, current);
      NodesSplit(Clients(), tb);
    }

    method PerformKill(c: nat, k: nat, ghost r: Round, current: TimeVal) returns (ghost e: Event)
      requires Calling(r, Kill(c, k))
      modifies this, Clients(), NodesIn(Clients())
      ensures Served(r, e, current) && Clients() == old(Clients()) && NodesIn(Clients()) <= old(NodesIn(Clients()))
    {
      hide Valid, ShowsAll, ShowsOf, On, Off, Time, NodesIn, Served, Then;
      e := Ignored;
      if c < |tbList| {
        var tb := tbList[c];
        Before(tb, r);
        var n := Pick(tb, k);
        if n != null {
          Owned(tb, n);
          hide ClientOk, NodesOf;
          KillAt(tb, n, r, current);
          return Dropped(n);
        }
      }
      NotThere(r, Kill(c, k), current);
    }

    /** After a timeout has been dropped. */
    lemma Drops(tb: TimeoutBase, n: TNode, was: seq<TNode>, off: seq<TNode>, r: Round, current: TimeVal)
      requires Valid() && lockReorder > 0 && tbList == r.done + r.todo && currTbIter == Serving(r)
      requires r.over || r.todo != []
      requires tb in tbList && ShowsAll(Clients() - {tb}, r) && On(r, tb) == was && Off(r, tb) == off
      requires n.owner == tb && forall x :: x in was && x != n ==> Time(r, x) == x.timeout
      requires tb.toList == Without(was, n) && tb.disList == Without(off, n) && n !in Without(was, n)
      requires Can(r, Dropped(n), current)
      ensures Served(r, Dropped(n), current)
      ensures NodesOf(tb) <= (set x | x in was) + (set x | x in off)
    {
      hide Valid, ShowsAll, Can, Then, On, Off, Without, NodesIn;
      var s := Then(r, Dropped(n));
      DropStep(r, n);
      WithoutWithin(was, n);
      WithoutWithin(off, n);
      SameOthersTimes(Clients() - {tb}, tb, r, s);
      ShowsWhole(Clients(), tb, r, s);
    }

    lemma SameOthersTimes(others: set<TimeoutBase>, tb: TimeoutBase, r: Round, s: Round)
      requires OnlyAt(tb, r, s) && s.time == r.time
      requires forall c :: c in others ==> c in r.done + r.todo && c != tb
      ensures SameFor(others, r, s)
    {
      hide On, Off;
      forall c | c in others ensures On(s, c) == On(r, c) && Off(s, c) == Off(r, c) {
        assert c in r.done || c in r.todo;
      }
    }

    method PerformRegister(ghost r: Round, current: TimeVal) returns (ghost e: Event)
      requires Calling(r, Join)
      modifies this
      ensures Served(r, e, current) && fresh(Clients() - old(Clients()))
      ensures NodesIn(Clients()) == old(NodesIn(Clients()))
    {
      hide Valid, ShowsAll, ShowsOf, On, Off, Time, NodesIn, NodesOf;
      ghost var others := Clients();
      assert allocated(others) && allocated(NodesIn(others));
      var tb := new TimeoutBase();
      Register(tb);
      e := Registered(tb);
      ghost var s := Then(r, e);
      JoinStep(r, tb);
      assert Clients() - {tb} == others && tb in Clients();
      NodesSplit(Clients(), tb);
      NewcomerShown(tb, s);
      ShowsWhole(Clients(), tb, r, s);
    }

    lemma NewcomerShown(tb: TimeoutBase, s: Round)
      requires On(s, tb) == Off(s, tb) == [] == tb.toList == tb.disList
      ensures ShowsOf(tb, s) && NodesOf(tb) == {}
    {
    }

    method PerformUnregister(c: nat, ghost r: Round, current: TimeVal) returns (ghost e: Event)
      requires Calling(r, Leave(c))
      modifies this, Clients(), NodesIn(Clients())
      ensures Served(r, e, current) && Clients() <= old(Clients()) && NodesIn(Clients()) <= old(NodesIn(Clients()))
    {
      if c >= |tbList| {
        NotThere(r, Leave(c), current);
        return Ignored;
      }
      hide Valid, ShowsAll, ShowsOf, On, Off, Time, NodesIn, NodesOf, Without;
      var tb := tbList[c];
      ghost var others := Clients() - {tb};
      ShowsParts(Clients(), tb, r);
      NodesSplit(Clients(), tb);
      NoDupClients();
      assert allocated(others) && allocated(NodesIn(others));
      Unregister(tb);
      e := Unregistered(tb);
      LeaveStep(r, tb);
      LeaveServed(r, tb);
      ShowsSame(others, r, Then(r, e));
    }

    lemma NoDupClients()
      requires Valid()
      ensures NoDup(tbList)
    {
    }

    /** Serve one call of a callback. */
    method Perform(call: Call, ghost r: Round, current: TimeVal) returns (ghost e: Event)
      requires Calling(r, call)
      modifies this, Clients(), NodesIn(Clients())
      ensures Served(r, e, current)
      ensures fresh(Clients() - old(Clients())) && fresh(NodesIn(Clients()) - old(NodesIn(Clients())))
    {
      hide Calling, Served, NodesIn;
      match call
      case Install(c, timeout, dptr) => e := PerformInstall(c, timeout, dptr, r, current);
      case Update(c, k, timeout) => e := PerformUpdate(c, k, timeout, r, current);
      case Kill(c, k) => e := PerformKill(c, k, r, current);
      case Join => e := PerformRegister(r, current);
      case Leave(c) => e := PerformUnregister(c, r, current);
    }

    /** What has happened is a run of the round, and the manager is in the state after it. */
    ghost predicate InRound(log: seq<Event>, r: Round, current: TimeVal)
      reads this, Clients()`toList, Clients()`disList, NodesIn(Clients())`timeout
    {
      Valid() && lockReorder >= 0 && Lawful(log, r, current) && Shows(End(log, r))
    }

    /** Run a callback. */
    method Callback(calls: seq<Call>, current: TimeVal, ghost r: Round, ghost log0: seq<Event>)
        returns (ghost log: seq<Event>)
      requires InRound(log0, r, current) && lockReorder > 0 && End(log0, r).calls == calls && currTbIter != null
      modifies this, Clients(), NodesIn(Clients())
      ensures InRound(log, r, current) && lockReorder > 0 && End(log, r).calls == []
      ensures End(log, r).script == End(log0, r).script
      ensures Notices(log) == Notices(log0) && (currTbIter == old(currTbIter) ==> End(log, r).todo != [])
      ensures fresh(Clients() - old(Clients())) && fresh(NodesIn(Clients()) - old(NodesIn(Clients())))
    {
      hide Valid, ShowsAll, Lawful, Can, Then, End, Notices;
      log := log0;
      var i := 0;
      while i < |calls|
        invariant i <= |calls| && InRound(log, r, current) && lockReorder > 0
        invariant End(log, r).calls == calls[i..] && End(log, r).script == End(log0, r).script
        invariant (End(log, r).over || End(log, r).todo != []) && Notices(log) == Notices(log0)
        invariant fresh(Clients() - old(Clients())) && fresh(NodesIn(Clients()) - old(NodesIn(Clients())))
      {
        ghost var s, nodes := End(log, r), NodesIn(Clients());
        ghost var e := Perform(calls[i], s, current);
        assert fresh(NodesIn(Clients()) - nodes);
        Extended(log, e, r, current);
        CallStep(s, e, current);
        Told1(log, e);
        log := log + [e];
        i := i + 1;
      }
    }

    lemma InNodes(tb: TimeoutBase)
      requires tb in tbList
      ensures forall n :: n in tb.toList ==> n in NodesIn(Clients())
    {
      assert forall n :: n in tb.toList ==> n in NodesOf(tb);
    }

    /** Tell the client being served about its first timeout. */
    method TellNext(tb: TimeoutBase, current: TimeVal, ghost r: Round, ghost log0: seq<Event>)
        returns (notice: Notice, ghost log: seq<Event>)
      requires InRound(log0, r, current) && End(log0, r).calls == [] && currTbIter == tb
      requires tb.toList != [] && !Gt(tb.toList[0].timeout, current)
      modifies this`lockReorder, tb, {tb.toList[0]}`timeout
      ensures InRound(log, r, current) && lockReorder == old(lockReorder) + 1
      ensures Notices(log) == Notices(log0) + [notice]
      ensures tb.toList == old(tb.toList)[1..] && NodesIn(Clients()) == old(NodesIn(Clients()))
      ensures var s, t := End(log0, r), End(log, r);
              t.todo == s.todo && t.calls == (if s.script == [] then [] else s.script[0]) && t.script == Tail(s.script)
    {
      hide Valid, ShowsAll, Lawful, Can, Then, End, Notices, NodesIn;
      ghost var s := End(log0, r);
      notice := Tell(tb, current, s);
      ghost var e := Told(notice.tid, notice.timeout);
      Extended(log0, e, r, current);
      Told1(log0, e);
      ToldStep(s, e, current);
      log := log0 + [e];
    }

    /** None of a sorted list is due if its first one is not. */
    lemma NoneDue(tb: TimeoutBase, r: Round, current: TimeVal)
      requires ClientOk(tb) && ShowsOf(tb, r) && (tb.toList == [] || Gt(tb.toList[0].timeout, current))
      ensures forall n :: n in On(r, tb) ==> !Due(r, n, current)
    {
      forall n | n in On(r, tb) ensures !Due(r, n, current) { HeadBelow(tb, n); }
    }

    /** Go on to the next client. */
    method PassOn(tb: TimeoutBase, current: TimeVal, ghost r: Round, ghost log: seq<Event>)
      requires InRound(log, r, current) && currTbIter == tb && End(log, r).calls == []
      requires tb.toList == [] || Gt(tb.toList[0].timeout, current)
      modifies this`currTbIter
      ensures InRound(log + [Passed], r, current) && Notices(log + [Passed]) == Notices(log)
      ensures var s, t := End(log, r), End(log + [Passed], r);
              t.calls == [] && t.script == s.script && |t.todo| < |s.todo|
    {
      hide Valid, ShowsAll, Lawful, Then, End, Notices, ClientOk, On, Off, Time, ShowsOf, NodesIn, NodesOf;
      ghost var s := End(log, r);
      ClientIsOk(tb);
      ShowsParts(Clients(), tb, s);
      NoneDue(tb, s, current);
      NoDupClients();
      FollowingAt(s.done, s.todo);
      Extended(log, Passed, r, current);
      PassedStep(s, current);
      Told1(log, Passed);
      currTbIter := Following(tbList, tb);
      ShowsSame(Clients(), s, Then(s, Passed));
    }

    /** Tell the client being served about its first timeout and run its callback. */
    method NotifyNext(tb: TimeoutBase, current: TimeVal, script: seq<seq<Call>>, ghost r: Round, ghost log0: seq<Event>)
        returns (notice: Notice, rest: seq<seq<Call>>, ghost log: seq<Event>)
      requires InRound(log0, r, current) && currTbIter == tb && End(log0, r).calls == []
      requires End(log0, r).script == script
      requires tb.toList != [] && !Gt(tb.toList[0].timeout, current)
      modifies this, Clients(), NodesIn(Clients())
      ensures InRound(log, r, current) && lockReorder > 0 && End(log, r).calls == []
      ensures End(log, r).script == rest == Tail(script)
      ensures Notices(log) == Notices(log0) + [notice]
      ensures script == [] ==>
                currTbIter == tb && tb.toList == old(tb.toList)[1..] && End(log, r).todo == End(log0, r).todo
      ensures fresh(Clients() - old(Clients())) && fresh(NodesIn(Clients()) - old(NodesIn(Clients())))
    {
      hide Valid, ShowsAll, Lawful, End, Notices;
      InNodes(tb);
      notice, log := TellNext(tb, current, r, log0);
      rest := script;
      if rest != [] {
        rest := script[1..];
        log := Callback(script[0], current, r, log);
      }
    }

    /** Tell the due timeouts of a client, each disabled before its callback is run, as long as the client stays. */
    method TellDue(tb: TimeoutBase, current: TimeVal, script: seq<seq<Call>>, told0: seq<Notice>, ghost r: Round,
            ghost log0: seq<Event>)
        returns (rest: seq<seq<Call>>, told: seq<Notice>, ghost log: seq<Event>)
      requires InRound(log0, r, current) && currTbIter == tb && End(log0, r).calls == []
      requires End(log0, r).script == script
      requires told0 == Notices(log0) && (lockReorder == 0 ==> Earliest(FirstTime(), Clients()))
      modifies this, Clients(), NodesIn(Clients())
      ensures InRound(log, r, current) && End(log, r).calls == [] && End(log, r).script == rest
      ensures told == Notices(log) && (lockReorder == 0 ==> Earliest(FirstTime(), Clients()))
      ensures currTbIter == tb ==> tb.toList == [] || Gt(tb.toList[0].timeout, current)
      ensures |rest| < |script| || (rest == script && currTbIter == tb && End(log, r).todo == End(log0, r).todo)
      ensures fresh(Clients() - old(Clients())) && fresh(NodesIn(Clients()) - old(NodesIn(Clients())))
    {
      hide Valid, InRound, Shows, Lawful, End, Notices, Earliest, FirstTime;
      rest, told, log := script, told0, log0;
      while tb.toList != [] && !Gt(tb.toList[0].timeout, current)
        invariant InRound(log, r, current) && currTbIter == tb && End(log, r).calls == [] && End(log, r).script == rest
        invariant told == Notices(log) && (lockReorder == 0 ==> Earliest(FirstTime(), Clients()))
        invariant |rest| < |script| || (rest == script && End(log, r).todo == End(log0, r).todo)
        invariant fresh(Clients() - old(Clients())) && fresh(NodesIn(Clients()) - old(NodesIn(Clients())))
        decreases |rest|, |tb.toList|
      {
        ghost var tbs, nodes := Clients(), NodesIn(Clients());
        var notice;
        notice, rest, log := NotifyNext(tb, current, rest, r, log);
        assert fresh(Clients() - tbs) && fresh(NodesIn(Clients()) - nodes);
        told := told + [notice];
        if currTbIter != tb { return; }
      }
    }

    /** One client's part of a round; the walk goes on to the next client unless this one has left. */
    method Serve(tb: TimeoutBase, current: TimeVal, script: seq<seq<Call>>, told0: seq<Notice>, ghost r: Round,
            ghost log0: seq<Event>)
        returns (rest: seq<seq<Call>>, told: seq<Notice>, ghost log: seq<Event>)
      requires InRound(log0, r, current) && currTbIter == tb && End(log0, r).calls == []
      requires End(log0, r).script == script
      requires told0 == Notices(log0) && (lockReorder == 0 ==> Earliest(FirstTime(), Clients()))
      modifies this, Clients(), NodesIn(Clients())
      ensures InRound(log, r, current) && End(log, r).calls == [] && End(log, r).script == rest
      ensures told == Notices(log) && (lockReorder == 0 ==> Earliest(FirstTime(), Clients()))
      ensures |rest| < |script| || (rest == script && |End(log, r).todo| < |End(log0, r).todo|)
      ensures fresh(Clients() - old(Clients())) && fresh(NodesIn(Clients()) - old(NodesIn(Clients())))
    {
      hide Valid, InRound, Shows, Lawful, End, Notices, Earliest, FirstTime;
      rest, told, log := TellDue(tb, current, script, told0, r, log0);
      if currTbIter == tb {
        PassOn(tb, current, r, log);
        log := log + [Passed];
      }
    }

    /** The beginning of a round. */
    ghost function Start(script: seq<seq<Call>>): Round
      reads this`tbList, Clients()`toList, Clients()`disList, NodesIn(Clients())`timeout
    {
      Round([], tbList, false, map tb | tb in Clients() :: tb.toList, map tb | tb in Clients() :: tb.disList,
            map n | n in NodesIn(Clients()) :: n.timeout, [], script)
    }

    lemma StartShows(script: seq<seq<Call>>)
      ensures ShowsAll(Clients(), Start(script))
      ensures var r := Start(script); r.done == [] && r.todo == tbList && !r.over && r.calls == [] && r.script == script
    {
      forall tb | tb in Clients() ensures NodesOf(tb) <= NodesIn(Clients()) && ShowsOf(tb, Start(script)) {
        assert forall n :: n in NodesOf(tb) ==> n in NodesIn(Clients());
        assert forall n :: n in tb.toList ==> n in NodesOf(tb);
      }
    }

    /** Begin the walk over the clients with the order locked. */
    method Lock(ghost r: Round, current: TimeVal)
      requires Valid() && lockReorder < 0 && GetShortest() != null
      requires ShowsAll(Clients(), r) && r.done == [] && r.todo == tbList && !r.over && r.calls == []
      modifies this`lockReorder, this`currTbIter
      ensures InRound([], r, current) && lockReorder == 0 && Earliest(FirstTime(), Clients()) && currTbIter == tbList[0]
    {
      hide ClientsOk, Earliest, ShowsAll, FirstTime, GetShortest, Lawful, End, NoDup;
      NoEvents(r, current);
      Unlocked();
      lockReorder := 0;
      currTbIter := if tbList == [] then null else tbList[0];
    }

    /** End the walk: unlock the order and bring the client with the earliest timeout to the front. */
    method Unlock(ghost r: Round, current: TimeVal, ghost log: seq<Event>)
      requires InRound(log, r, current) && currTbIter == null && (lockReorder == 0 ==> Earliest(FirstTime(), Clients()))
      modifies this`tbList, this`lockReorder, this`shTimeoutChange
      ensures Valid() && lockReorder < 0 && Clients() == old(Clients()) && ShowsAll(Clients(), End(log, r))
      ensures var s := End(log, r);
              Serving(s) == null && OneMoved(s.done + s.todo, tbList) && forall tb :: tb in tbList ==>
                tb in s.done + s.todo
    {
      hide ClientsOk, Earliest, ShowsAll, FirstTime, End, Lawful, NoDup;
      assert allocated(Clients()) && allocated(NodesIn(Clients()));
      if lockReorder > 0 {
        lockReorder := -1;
        ReOrderTBList();
        assert shTimeoutChange > 0;
        forall tb | tb in tbList ensures tb in old(tbList) { assert tb in old(Clients()); }
      } else {
        lockReorder := -1;
      }
    }

    /** Serve the clients one after the other. */
    method Walk(current: TimeVal, script: seq<seq<Call>>, ghost r: Round)
        returns (told: seq<Notice>, ghost log: seq<Event>)
      requires InRound([], r, current) && r.calls == [] && r.script == script
      requires lockReorder == 0 && Earliest(FirstTime(), Clients())
      modifies this, Clients(), NodesIn(Clients())
      ensures InRound(log, r, current) && Finished(End(log, r)) && told == Notices(log)
      ensures currTbIter == null && (lockReorder == 0 ==> Earliest(FirstTime(), Clients()))
    {
      hide Valid, Shows, Lawful, End, Notices, Earliest, FirstTime;
      NoEvents(r, current);
      var rest := script;
      told, log := [], [];
      while currTbIter != null
        invariant InRound(log, r, current) && End(log, r).calls == [] && End(log, r).script == rest
        invariant told == Notices(log)
        invariant lockReorder == 0 ==> Earliest(FirstTime(), Clients())
        invariant fresh(Clients() - old(Clients())) && fresh(NodesIn(Clients()) - old(NodesIn(Clients())))
        decreases |rest|, |End(log, r).todo|
      {
        ghost var nodes := NodesIn(Clients());
        rest, told, log := Serve(currTbIter, current, rest, told, r, log);
        assert fresh(NodesIn(Clients()) - nodes);
      }
      AtEnd(r, current, log);
    }

    lemma AtEnd(r: Round, current: TimeVal, log: seq<Event>)
      requires InRound(log, r, current) && currTbIter == null && End(log, r).calls == []
      ensures Finished(End(log, r))
    {
    }

    /** The timer has expired: tell the clients what is due. What happens is a complete run of a round that starts
        with the manager's clients and timeouts and in which the callbacks do what the script says; at the end the
        client with the earliest timeout is in front again. */
    method TimerNotify(current: TimeVal, script: seq<seq<Call>>) returns (told: seq<Notice>, ghost log: seq<Event>)
      requires Valid() && lockReorder < 0 && currTbIter == null
      modifies this, Clients(), NodesIn(Clients())
      ensures Valid() && lockReorder < 0 && currTbIter == null
      ensures Complete(log, old(Start(script)), current) && told == Notices(log)
      ensures var s := End(log, old(Start(script))); ShowsAll(Clients(), s) && OneMoved(s.done + s.todo, tbList)
      ensures forall tb, n :: tb in old(tbList) && n in old(tb.toList) && !Touched(n, log) ==>
                (Notice(n, n.dptr, old(n.timeout)) in told <==>
                 !Gt(old(n.timeout), current) && !exists i :: LeftBehind(n, log, i, old(Start(script))))
      ensures forall tb, n :: tb in tbList && n in tb.toList && !Gt(n.timeout, current) ==>
                Changed(n, log) || tb in End(log, old(Start(script))).todo
      ensures !End(log, old(Start(script))).over ==> End(log, old(Start(script))).todo == []
      ensures (forall calls :: calls in script ==> Stays(calls)) ==> !End(log, old(Start(script))).over
      ensures |told| <= |DueSet(old(Start(script)), current)| + DueTimings(log, current)
      ensures script == [] ==> told == Flattened(DueParts(old(tbList), old(Start(script)), current))
    {
      hide Valid, ShowsAll, Complete, End, Notices, Start, Changed, Touched, LeftBehind, DueParts, Flattened, NoDup,
            OneMoved, Stays, On, Time, DueSet, DueTimings, Unique;
      ghost var r := Start(script);
      StartShows(script);
      StartLists(r);
      NoDupClients();
      told, log := PlayRound(current, script, r);
      Outcome(r, log, current);
      forall tb, n | tb in old(tbList) && n in old(tb.toList) && !Touched(n, log)
        ensures Notice(n, n.dptr, old(n.timeout)) in told <==>
                !Gt(old(n.timeout), current) && !exists i :: LeftBehind(n, log, i, r)
      {
        assert n in On(r, tb) && Time(r, n) == old(n.timeout);
      }
    }

    /** A complete round, as what it was started with says. */
    method PlayRound(current: TimeVal, script: seq<seq<Call>>, ghost r: Round)
        returns (told: seq<Notice>, ghost log: seq<Event>)
      requires Valid() && lockReorder < 0 && currTbIter == null && r == Start(script)
      modifies this, Clients(), NodesIn(Clients())
      ensures Valid() && lockReorder < 0 && currTbIter == null && Complete(log, r, current) && told == Notices(log)
      ensures var s := End(log, r); ShowsAll(Clients(), s) && OneMoved(s.done + s.todo, tbList)
      ensures forall tb :: tb in tbList ==> tb in End(log, r).done + End(log, r).todo
    {
      hide Valid, Shows, ShowsAll, Lawful, End, Notices, Earliest, FirstTime, Start, NoDup, OneMoved;
      StartShows(script);
      if GetShortest() == null {
        log := NothingEnabled(r, current);
        return [], log;
      }
      NoEvents(r, current);
      Lock(r, current);
      told, log := Walk(current, script, r);
      Unlock(r, current, log);
    }

    /** What the round starts with. */
    lemma StartLists(r: Round)
      requires Valid() && ShowsAll(Clients(), r) && r.done == [] && r.todo == tbList
      ensures Unique(r) && forall tb :: tb in tbList ==> On(r, tb) == tb.toList
      ensures forall tb, n :: tb in tbList && n in tb.toList ==> n.owner == tb && Time(r, n) == n.timeout
    {
      hide On, Off, Time;
      forall tb | tb in tbList ensures ClientOk(tb) && ShowsOf(tb, r) { ClientIsOk(tb); }
    }

    lemma Outcome(r: Round, log: seq<Event>, current: TimeVal)
      requires Complete(log, r, current) && AtStart(r) && NoDup(r.todo) && Unique(r) && ShowsAll(Clients(), End(log, r))
      requires forall tb :: tb in tbList ==> tb in End(log, r).done + End(log, r).todo
      requires forall tb, n :: tb in r.todo && n in On(r, tb) ==> n.owner == tb
      ensures forall tb, n :: tb in r.todo && n in On(r, tb) && !Touched(n, log) ==>
                (Notice(n, n.dptr, Time(r, n)) in Notices(log) <==>
                 Due(r, n, current) && !exists i :: LeftBehind(n, log, i, r))
      ensures forall tb, n :: tb in tbList && n in tb.toList && !Gt(n.timeout, current) ==>
                Changed(n, log) || tb in End(log, r).todo
      ensures !End(log, r).over ==> End(log, r).todo == []
      ensures (forall calls :: calls in r.script ==> Stays(calls)) ==> !End(log, r).over
      ensures |Notices(log)| <= |DueSet(r, current)| + DueTimings(log, current)
      ensures r.script == [] ==> Notices(log) == Flattened(DueParts(r.todo, r, current))
    {
      hide Lawful, End, Changed, Touched, LeftBehind, On, Off, Time, DueParts, Flattened, NoDup, Notices, Unique,
            DueSet, DueTimings;
      ToldAtMost(log, r, current);
      var s := End(log, r);
      ToldOf(log, r, current);
      NothingLeft(log, r, current);
      forall tb, n | tb in tbList && n in tb.toList && !Gt(n.timeout, current) && tb !in s.todo
        ensures Changed(n, log)
      {
        assert tb in s.done + s.todo;
        assert ShowsOf(tb, s);
      }
      if forall calls :: calls in r.script ==> Stays(calls) { NobodyLeaves(log, r, current); }
      if r.script == [] { QuietRound(log, r, current); }
    }

    lemma NothingEnabled(r: Round, current: TimeVal) returns (log: seq<Event>)
      requires Valid() && lockReorder < 0 && GetShortest() == null && r == Start(r.script)
      ensures Complete(log, r, current) && Notices(log) == []
      ensures ShowsAll(Clients(), End(log, r)) && End(log, r).done + End(log, r).todo == tbList
      ensures OneMoved(End(log, r).done + End(log, r).todo, tbList)
    {
      hide ClientsOk, Earliest, ShowsAll, Lawful, End, Notices;
      NoneEnabled(Clients());
      StartShows(r.script);
      log := Skips(r, current, |tbList|);
      ShowsSame(Clients(), r, End(log, r));
    }

    lemma FirstDisabled(tb: TimeoutBase, n: TNode, on: seq<TNode>, off: seq<TNode>, nodes: set<TNode>, r: Round,
            s: Round)
      requires on != [] && n == on[0] && tb.toList == on[1..] && tb.disList == off + [n]
      requires nodes == (set x | x in on) + set x | x in off
      requires On(s, tb) == tb.toList && Off(s, tb) == tb.disList && s.time == r.time
      requires forall x :: x in tb.toList ==> Time(r, x) == x.timeout
      ensures ShowsOf(tb, s) && NodesOf(tb) == nodes
    {
      hide On, Off;
      TailAndHead(on);
    }

    lemma ShowsLists(tb: TimeoutBase, r: Round)
      requires ShowsOf(tb, r)
      ensures On(r, tb) == tb.toList && Off(r, tb) == tb.disList
      ensures forall n :: n in tb.toList ==> Time(r, n) == n.timeout
      ensures NodesOf(tb) == (set x | x in tb.toList) + set x | x in tb.disList
    {
    }

    /** Unless the order is locked, no enabled timeout of any client is earlier. */
    lemma ShortestIsEarliest()
      requires Valid() && lockReorder < 0
      ensures GetShortest() == null ==> AllDisabled(Clients())
      ensures GetShortest() != null ==>
                forall tb, n :: tb in tbList && n in tb.toList ==> Le(GetShortest().timeout, n.timeout)
    {
      if GetShortest() == null {
        NoneEnabled(Clients());
      } else {
        forall tb, n | tb in tbList && n in tb.toList ensures Le(GetShortest().timeout, n.timeout) {
          assert EarliestOf(FirstTime(), tb);
        }
      }
    }

    lemma Unlocked()
      requires Valid() && lockReorder < 0
      ensures NoDup(tbList) && Earliest(FirstTime(), Clients())
      ensures GetShortest() != null ==> shTimeoutChange > 0
    {
    }

    lemma Locked(tb: TimeoutBase)
      requires Valid() && lockReorder >= 0 && tb in tbList
      ensures Rest(tb, Nothing) && ClientOk(tb)
    {
      hide ClientsOk;
      Apart(tb);
    }

    /** Arm the one timer the manager has, whose present time left is tleft (-1 if off). */
    method SetFDBaseTimer(current: TimeVal, tleft: int) returns (armed: int)
      requires Valid() && lockReorder < 0 && Normal(current)
      requires GetShortest() != null ==> Normal(GetShortest().timeout)
      ensures AllDisabled(Clients()) ==> armed == -1
      ensures !AllDisabled(Clients()) ==>
                GetShortest() != null && armed >= 0 && Armed(armed, Delay(GetShortest().timeout, current))
      ensures var delay := if GetShortest() == null then -1 else Delay(GetShortest().timeout, current);
              armed == if delay >= 20 && tleft >= 0 && -1 <= tleft - delay <= 1 then tleft else delay
      ensures forall tb, n :: tb in tbList && n in tb.toList && Normal(n.timeout) ==>
                armed <= Delay(n.timeout, current) + 1
    {
      hide Earliest, EarliestOf, ClientsOk, Minus, Quot;
      var n := GetShortest();
      var toVal := -1;
      if n != null {
        if Le(n.timeout, current) {
          toVal := 0;
        } else {
          var diff := Minus(n.timeout, current);
          assert LLConv(diff) > 0;
          var days := Quot(LLConv(diff), CONV_DAYS);
          if days >= 10 {
            toVal := 864_000_000;
          } else {
            toVal := Quot(LLConv(diff), CONV_MSEC);
          }
          DelayIs(LLConv(diff));
        }
        AllAfter(current);
      } else {
        NoneEnabled(Clients());
      }
      armed := tleft;
      if tleft != toVal {
        if tleft - toVal > 1 || toVal - tleft > 1 || toVal < 20 || tleft < 0 { armed := toVal; }
      }
    }

    lemma AllAfter(current: TimeVal)
      requires Valid() && lockReorder < 0 && GetShortest() != null && Normal(GetShortest().timeout)
      ensures !AllDisabled(Clients())
      ensures forall tb, n :: tb in tbList && n in tb.toList && Normal(n.timeout) ==>
                Delay(GetShortest().timeout, current) <= Delay(n.timeout, current)
    {
      assert tbList[0] in Clients();
      forall tb, n | tb in tbList && n in tb.toList && Normal(n.timeout)
        ensures Delay(GetShortest().timeout, current) <= Delay(n.timeout, current)
      {
        assert EarliestOf(FirstTime(), tb);
        DelayGrows(GetShortest().timeout, n.timeout, current);
      }
    }
  }
}
