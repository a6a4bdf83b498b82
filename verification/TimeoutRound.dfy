/** One round of notifications with callbacks that call back into the manager, as a state machine. */
module TimeoutRound {
  import opened HTime
  import opened Sequences
  import opened TimeoutClients

  /** What a client may do while it is told about a timeout. A client is named by its place in the manager's list, a
      timeout by its place among the timeouts of its client, the enabled ones first. */
  datatype Call =
    | Install(client: nat, timeout: TimeVal, dptr: int)
    | Update(client: nat, which: nat, timeout: TimeVal)
    | Kill(client: nat, which: nat)
    | Join
    | Leave(client: nat)

  /** What happens in a round. A call on a client or a timeout that is not there is ignored. */
  datatype Event =
    | Told(n: TNode, time: TimeVal)
    | Passed
    | Timed(n: TNode, timeout: TimeVal)
    | Dropped(n: TNode)
    | Registered(tb: TimeoutBase)
    | Unregistered(tb: TimeoutBase)
    | Ignored

  /** The clients already served and those still to serve, the one being served first; whether the walk over them was
      ended; the timeouts of each client; and what the callback being run and the later ones still do. */
  datatype Round = Round(
    done: seq<TimeoutBase>,
    todo: seq<TimeoutBase>,
    over: bool,
    on: map<TimeoutBase, seq<TNode>>,
    off: map<TimeoutBase, seq<TNode>>,
    time: map<TNode, TimeVal>,
    calls: seq<Call>,
    script: seq<seq<Call>>)

  ghost function On(r: Round, tb: TimeoutBase): seq<TNode> {
    if tb in r.on then r.on[tb] else []
  }

  ghost function Off(r: Round, tb: TimeoutBase): seq<TNode> {
    if tb in r.off then r.off[tb] else []
  }

  ghost function Time(r: Round, n: TNode): TimeVal {
    if n in r.time then r.time[n] else TimeVal(0, INVALID_USEC)
  }

  ghost predicate Due(r: Round, n: TNode, current: TimeVal) {
    !Gt(Time(r, n), current)
  }

  /** The client being served. */
  ghost function Serving(r: Round): TimeoutBase? {
    if r.over || r.todo == [] then null else r.todo[0]
  }

  ghost predicate Finished(r: Round) {
    r.calls == [] && Serving(r) == null
  }

  /** The place of n before the first later one. */
  ghost function Queued(s: seq<TNode>, n: TNode, r: Round): seq<TNode> {
    if s == [] || Gt(Time(r, s[0]), Time(r, n)) then [n] + s else [s[0]] + Queued(s[1..], n, r)
  }

  lemma {:induction false} QueuedInOrder(was: seq<TNode>, now: seq<TNode>, n: TNode, r: Round)
    requires InsertedInOrder(was, now, n) && Time(r, n) == n.timeout && forall x :: x in was ==> Time(r, x) == x.timeout
    ensures now == Queued(was, n, r)
  {
    hide InsertedAt, Time;
    var k: nat :| InsertedAt(was, now, n, k);
    InsertedFirst(was, now, n, k);
    if k == 0 {
    } else {
      assert was[0] in was;
      QueuedInOrder(was[1..], now[1..], n, r);
    }
  }

  lemma InsertedFirst(was: seq<TNode>, now: seq<TNode>, n: TNode, k: nat)
    requires InsertedAt(was, now, n, k)
    ensures k == 0 ==> now == [n] + was && (was == [] || Gt(was[0].timeout, n.timeout))
    ensures k > 0 ==> was != [] && now != [] && now[0] == was[0] && now == [was[0]] + now[1..]
    ensures k > 0 ==> !Gt(was[0].timeout, n.timeout) && InsertedInOrder(was[1..], now[1..], n)
  {
    if k == 0 {
      assert was[..0] + [n] + was[0..] == [n] + was;
    } else {
      assert now[1..] == was[1..][..k - 1] + [n] + was[1..][k - 1..];
      assert InsertedAt(was[1..], now[1..], n, k - 1);
    }
  }

  // ----- steps

  ghost predicate Can(r: Round, e: Event, current: TimeVal) {
    if r.calls != [] then
      (r.over || r.todo != []) && Performs(r, r.calls[0], e)
    else
      !r.over && r.todo != [] &&
      match e
      case Told(n, t) =>
        && On(r, r.todo[0]) != [] && n == On(r, r.todo[0])[0] && n.owner == r.todo[0]
        && t == Time(r, n) && Due(r, n, current)
      case Passed => forall n :: n in On(r, r.todo[0]) ==> !Due(r, n, current)
      case _ => false
  }

  ghost predicate Performs(r: Round, call: Call, e: Event) {
    var tbs := r.done + r.todo;
    match call
    case Install(c, t, d) =>
      if c >= |tbs| then e == Ignored
      else e.Timed? && e.timeout == t && e.n.owner == tbs[c] && e.n.dptr == d && e.n !in On(r, tbs[c]) + Off(r, tbs[c])
    case Update(c, k, t) =>
      if c >= |tbs| || k >= |On(r, tbs[c]) + Off(r, tbs[c])| then e == Ignored
      else
        var n := (On(r, tbs[c]) + Off(r, tbs[c]))[k];
        if Invalid(t) && n in Off(r, tbs[c]) then e == Ignored else e == Timed(n, t) && n.owner == tbs[c]
    case Kill(c, k) =>
      if c >= |tbs| || k >= |On(r, tbs[c]) + Off(r, tbs[c])| then e == Ignored
      else e == Dropped((On(r, tbs[c]) + Off(r, tbs[c]))[k]) && e.n.owner == tbs[c]
    case Join => e.Registered? && e.tb !in tbs
    case Leave(c) => e == if c >= |tbs| then Ignored else Unregistered(tbs[c])
  }

  /** The lists of a client after one of its timeouts has changed. */
  ghost function Relisted(r: Round, tb: TimeoutBase, on: seq<TNode>, off: seq<TNode>): Round {
    r.(on := r.on[tb := on], off := r.off[tb := off])
  }

  ghost function Tail<T>(s: seq<T>): seq<T> {
    if s == [] then [] else s[1..]
  }

  ghost function Retimed(r: Round, n: TNode, t: TimeVal): Round {
    var tb := n.owner;
    if Invalid(t) then
      Relisted(r, tb, Without(On(r, tb), n), Off(r, tb) + [n])
    else
      var s := r.(time := r.time[n := t]);
      Relisted(s, tb, Queued(Without(On(r, tb), n), n, s), Without(Off(r, tb), n))
  }

  /** When the client being served leaves, the walk is ended: it is taken out of the list before the next one is
      looked up. */
  ghost function Unlisted(r: Round, tb: TimeoutBase): Round {
    var s := Relisted(r, tb, [], []);
    if tb in r.done then s.(done := Without(r.done, tb))
    else s.(todo := Without(r.todo, tb), over := r.over || (r.todo != [] && r.todo[0] == tb))
  }

  ghost function Then(r: Round, e: Event): Round {
    match e
    case Told(n, _) =>
      Relisted(r, n.owner, Without(On(r, n.owner), n), Off(r, n.owner) + [n])
        .(calls := if r.script == [] then [] else r.script[0], script := Tail(r.script))
    case Passed => r.(done := r.done + r.todo[..if r.todo == [] then 0 else 1], todo := Tail(r.todo))
    case Timed(n, t) => Retimed(r, n, t).(calls := Tail(r.calls))
    case Dropped(n) =>
      Relisted(r, n.owner, Without(On(r, n.owner), n), Without(Off(r, n.owner), n)).(calls := Tail(r.calls))
    case Registered(tb) => Relisted(r, tb, [], []).(todo := r.todo + [tb], calls := Tail(r.calls))
    case Unregistered(tb) => Unlisted(r, tb).(calls := Tail(r.calls))
    case Ignored => r.(calls := Tail(r.calls))
  }

  /** Two states list the same clients and serve the same one, and only one client's timeouts may differ. */
  ghost predicate OnlyAt(tb: TimeoutBase, r: Round, s: Round) {
    && s.done == r.done && s.todo == r.todo && s.over == r.over
    && (forall c :: c in r.done && c != tb ==> On(s, c) == On(r, c) && Off(s, c) == Off(r, c))
    && (forall c :: c in r.todo && c != tb ==> On(s, c) == On(r, c) && Off(s, c) == Off(r, c))
  }

  lemma TellStep(r: Round, n: TNode, current: TimeVal)
    requires r.calls == [] && Serving(r) == n.owner && On(r, n.owner) != [] && On(r, n.owner)[0] == n
    requires Due(r, n, current)
    ensures Can(r, Told(n, Time(r, n)), current)
    ensures var s := Then(r, Told(n, Time(r, n)));
            && OnlyAt(n.owner, r, s) && s.time == r.time
            && On(s, n.owner) == On(r, n.owner)[1..] && Off(s, n.owner) == Off(r, n.owner) + [n]
            && s.calls == (if r.script == [] then [] else r.script[0]) && s.script == Tail(r.script)
  {
  }

  lemma RetimeStep(r: Round, n: TNode, t: TimeVal)
    ensures var s, tb := Then(r, Timed(n, t)), n.owner;
            && OnlyAt(tb, r, s) && s.calls == Tail(r.calls) && s.script == r.script
            && On(s, tb) == (if Invalid(t) then Without(On(r, tb), n) else Queued(Without(On(r, tb), n), n, s))
            && Off(s, tb) == (if Invalid(t) then Off(r, tb) + [n] else Without(Off(r, tb), n))
            && (forall x :: x != n ==> Time(s, x) == Time(r, x)) && (!Invalid(t) ==> Time(s, n) == t)
  {
    if !Invalid(t) { SameQueue(Without(On(r, n.owner), n), n, r.(time := r.time[n := t]), Then(r, Timed(n, t))); }
  }

  lemma {:induction false} SameQueue(q: seq<TNode>, n: TNode, r: Round, s: Round)
    requires r.time == s.time
    ensures Queued(q, n, r) == Queued(q, n, s)
  {
    if q == [] || Gt(Time(r, q[0]), Time(r, n)) {
    } else {
      SameQueue(q[1..], n, r, s);
    }
  }

  lemma DropStep(r: Round, n: TNode)
    ensures var s, tb := Then(r, Dropped(n)), n.owner;
            && OnlyAt(tb, r, s) && s.calls == Tail(r.calls) && s.script == r.script && s.time == r.time
            && On(s, tb) == Without(On(r, tb), n) && Off(s, tb) == Without(Off(r, tb), n)
  {
  }

  lemma JoinStep(r: Round, tb: TimeoutBase)
    ensures var s := Then(r, Registered(tb));
            && s.done == r.done && s.todo == r.todo + [tb] && s.over == r.over && s.time == r.time
            && s.calls == Tail(r.calls) && s.script == r.script && On(s, tb) == Off(s, tb) == []
            && (forall c :: c != tb ==> On(s, c) == On(r, c) && Off(s, c) == Off(r, c))
  {
  }

  lemma LeaveStep(r: Round, tb: TimeoutBase)
    requires tb in r.done || tb in r.todo
    ensures var s := Then(r, Unregistered(tb));
            && s.done + s.todo == Without(r.done + r.todo, tb) && s.time == r.time && s.calls == Tail(r.calls)
            && s.script == r.script
            && (forall c :: c != tb ==> On(s, c) == On(r, c) && Off(s, c) == Off(r, c))
  {
    hide Without;
    WithoutSum(r.done, r.todo, tb);
  }

  lemma LeaveServed(r: Round, tb: TimeoutBase)
    requires NoDup(r.done + r.todo) && (r.over || r.todo != [])
    ensures Serving(Then(r, Unregistered(tb))) == if Serving(r) == tb then null else Serving(r)
    ensures Then(r, Unregistered(tb)).over || Then(r, Unregistered(tb)).todo != []
  {
    forall j | 0 <= j < |r.done| ensures r.todo != [] ==> r.done[j] != r.todo[0] {
      assert r.todo != [] ==> (r.done + r.todo)[j] != (r.done + r.todo)[|r.done|];
    }
  }

  lemma CallStep(r: Round, e: Event, current: TimeVal)
    requires Can(r, e, current) && r.calls != []
    ensures !e.Told? && Then(r, e).calls == r.calls[1..] && Then(r, e).script == r.script
  {
  }

  lemma IgnoreStep(r: Round)
    ensures Then(r, Ignored) == r.(calls := Tail(r.calls))
  {
  }

  ghost function End(log: seq<Event>, r: Round): Round {
    if log == [] then r else Then(End(log[..|log| - 1], r), log[|log| - 1])
  }

  ghost predicate Lawful(log: seq<Event>, r: Round, current: TimeVal) {
    log == [] || (Lawful(log[..|log| - 1], r, current) && Can(End(log[..|log| - 1], r), log[|log| - 1], current))
  }

  ghost predicate Complete(log: seq<Event>, r: Round, current: TimeVal) {
    Lawful(log, r, current) && Finished(End(log, r))
  }

  ghost predicate AtStart(r: Round) {
    r.done == [] && r.calls == [] && !r.over
  }

  lemma Extended(log: seq<Event>, e: Event, r: Round, current: TimeVal)
    requires Lawful(log, r, current) && Can(End(log, r), e, current)
    ensures Lawful(log + [e], r, current) && End(log + [e], r) == Then(End(log, r), e)
  {
    assert (log + [e])[..|log|] == log;
  }

  lemma {:induction false} PartLawful(log: seq<Event>, i: nat, r: Round, current: TimeVal)
    requires Lawful(log, r, current) && i < |log|
    ensures Lawful(log[..i], r, current) && Can(End(log[..i], r), log[i], current)
    ensures End(log[..i + 1], r) == Then(End(log[..i], r), log[i])
  {
    hide Can, Then;
    assert log[..i + 1][..i] == log[..i];
    if i + 1 == |log| {
      assert log[..i + 1] == log;
    } else {
      var before := log[..|log| - 1];
      assert before[..i] == log[..i] && before[..i + 1] == log[..i + 1];
      PartLawful(before, i, r, current);
    }
  }

  lemma NoEvents(r: Round, current: TimeVal)
    ensures Lawful([], r, current) && End([], r) == r && Notices([]) == []
  {
  }

  lemma PassIdle(r: Round, current: TimeVal)
    requires r.calls == [] && !r.over && r.todo != [] && On(r, r.todo[0]) == []
    ensures Can(r, Passed, current) && Then(r, Passed) == r.(done := r.done + [r.todo[0]], todo := r.todo[1..])
  {
    assert r.todo[..1] == [r.todo[0]];
  }

  /** With nothing enabled the walk passes every client. */
  lemma {:induction false} Skips(r: Round, current: TimeVal, k: nat) returns (log: seq<Event>)
    requires r.calls == [] && !r.over && k <= |r.todo| && forall tb :: tb in r.todo ==> On(r, tb) == []
    ensures Lawful(log, r, current) && Notices(log) == []
    ensures End(log, r) == r.(done := r.done + r.todo[..k], todo := r.todo[k..])
  {
    hide Can, Then, Lawful, End, Notices;
    log := [];
    NoEvents(r, current);
    assert r.done + r.todo[..0] == r.done;
    if k == 0 {
    } else {
      log := Skips(r, current, k - 1);
      var s := End(log, r);
      assert s.todo[0] == r.todo[k - 1] && On(r, r.todo[k - 1]) == [];
      PassIdle(s, current);
      Extended(log, Passed, r, current);
      Told1(log, Passed);
      assert s.done + [r.todo[k - 1]] == r.done + r.todo[..k];
      log := log + [Passed];
    }
  }

  // ----- nothing due is missed

  ghost predicate Changed(n: TNode, log: seq<Event>) {
    exists t :: Timed(n, t) in log
  }

  /** Some callback changed the timeout, dropped it or took its client out of the list. */
  ghost predicate Touched(n: TNode, log: seq<Event>) {
    Changed(n, log) || Dropped(n) in log || Unregistered(n.owner) in log
  }

  lemma StaysChanged(n: TNode, log: seq<Event>, e: Event)
    requires Changed(n, log) || (e.Timed? && e.n == n)
    ensures Changed(n, log + [e])
  {
    if Changed(n, log) {
      var t :| Timed(n, t) in log;
      assert Timed(n, t) in log + [e];
    } else {
      assert e in log + [e] && e == Timed(n, e.timeout);
    }
  }

  lemma {:induction false} QueuedAdds(s: seq<TNode>, n: TNode, r: Round)
    ensures forall x :: x in Queued(s, n, r) <==> x in s || x == n
  {
    if s == [] || Gt(Time(r, s[0]), Time(r, n)) {
    } else {
      QueuedAdds(s[1..], n, r);
      assert s == [s[0]] + s[1..];
    }
  }

  lemma {:induction false} WithoutWithin<T>(s: seq<T>, x: T)
    ensures forall y :: y in Without(s, x) ==> y in s
  {
    if s == [] || s[0] == x {
    } else {
      WithoutWithin(s[1..], x);
      assert s == [s[0]] + s[1..];
    }
  }

  lemma {:induction false} WithoutOthers<T>(s: seq<T>, x: T)
    ensures forall y :: y in s && y != x ==> y in Without(s, x)
  {
    if s == [] {
    } else {
      WithoutOthers(s[1..], x);
      assert s == [s[0]] + s[1..];
    }
  }

  /** A client already served has a due timeout only if a callback gave it its time. */
  ghost predicate Caught(log: seq<Event>, r: Round, current: TimeVal) {
    forall tb, n :: tb in r.done && n in On(r, tb) && Due(r, n, current) ==> Changed(n, log)
  }

  /** A step enables no other timeout than the one it gives a time. */
  lemma OnAfter(r: Round, e: Event, tb: TimeoutBase, n: TNode)
    requires n in On(Then(r, e), tb)
    ensures (e.Timed? && n == e.n) || (n in On(r, tb) && Time(Then(r, e), n) == Time(r, n))
  {
    hide Without, Queued;
    if e.Timed? || e.Told? || e.Dropped? { WithoutWithin(On(r, e.n.owner), e.n); }
    if e.Timed? && !Invalid(e.timeout) {
      QueuedAdds(Without(On(r, e.n.owner), e.n), e.n, r.(time := r.time[e.n := e.timeout]));
    }
  }

  lemma DoneAfter(r: Round, e: Event, tb: TimeoutBase)
    requires tb in Then(r, e).done
    ensures tb in r.done || (e.Passed? && r.todo != [] && tb == r.todo[0])
  {
    if e.Unregistered? { WithoutWithin(r.done, e.tb); }
  }

  lemma CaughtAfter(log: seq<Event>, r: Round, e: Event, current: TimeVal)
    requires Caught(log, r, current) && Can(r, e, current)
    ensures Caught(log + [e], Then(r, e), current)
  {
    hide Changed, On, Time, Off;
    var s := Then(r, e);
    forall tb, n | tb in s.done && n in On(s, tb) && Due(s, n, current) ensures Changed(n, log + [e]) {
      hide Then;
      OnAfter(r, e, tb, n);
      DoneAfter(r, e, tb);
      StaysChanged(n, log, e);
    }
  }

  lemma {:induction false} CaughtAlways(log: seq<Event>, r: Round, current: TimeVal)
    requires Lawful(log, r, current) && r.done == []
    ensures Caught(log, End(log, r), current)
  {
    hide Can, Then;
    if log == [] {
    } else {
      var before := log[..|log| - 1];
      CaughtAlways(before, r, current);
      CaughtAfter(before, End(before, r), log[|log| - 1], current);
      assert before + [log[|log| - 1]] == log;
    }
  }

  /** At the end of a round the clients that were served have no due timeout, except those that got their time from a
      callback; and unless the walk was ended early, all were served. */
  lemma NothingLeft(log: seq<Event>, r: Round, current: TimeVal)
    requires Complete(log, r, current) && AtStart(r)
    ensures var s := End(log, r);
            forall tb, n :: tb in s.done && n in On(s, tb) && Due(s, n, current) ==> Changed(n, log)
    ensures !End(log, r).over ==> End(log, r).todo == []
  {
    CaughtAlways(log, r, current);
  }

  // ----- what the callbacks leave alone

  /** A timeout that was enabled at the start still is, with its time, or it was due, was told and is disabled. */
  ghost predicate Served(n: TNode, log: seq<Event>, r: Round, s: Round, current: TimeVal) {
    var tb := n.owner;
    && (tb in s.done || tb in s.todo) && Time(s, n) == Time(r, n)
    && (n in On(s, tb) || (n in Off(s, tb) && Told(n, Time(r, n)) in log))
    && (forall t :: Told(n, t) in log ==> t == Time(r, n) && Due(r, n, current))
  }

  /** The timeout a step is about. */
  ghost predicate About(e: Event, n: TNode) {
    (e.Timed? || e.Told? || e.Dropped?) && e.n == n
  }

  lemma ListedAfter(r: Round, e: Event, tb: TimeoutBase)
    requires (tb in r.done || tb in r.todo) && e != Unregistered(tb)
    ensures tb in Then(r, e).done || tb in Then(r, e).todo
  {
    if e.Unregistered? {
      WithoutOthers(r.done, e.tb);
      WithoutOthers(r.todo, e.tb);
    }
  }

  lemma OthersAfter(r: Round, e: Event, n: TNode)
    requires !About(e, n) && e != Unregistered(n.owner) && e != Registered(n.owner)
    ensures n in On(r, n.owner) ==> n in On(Then(r, e), n.owner)
    ensures n in Off(r, n.owner) ==> n in Off(Then(r, e), n.owner)
    ensures Time(Then(r, e), n) == Time(r, n)
  {
    hide Then, On, Off, Time;
    if e.Timed? {
      OthersTimed(r, e, n);
    } else if e.Told? || e.Dropped? {
      OthersMoved(r, e, n);
    } else {
      OthersKept(r, e, n);
    }
  }

  lemma OthersTimed(r: Round, e: Event, n: TNode)
    requires e.Timed? && e.n != n
    ensures n in On(r, n.owner) ==> n in On(Then(r, e), n.owner)
    ensures n in Off(r, n.owner) ==> n in Off(Then(r, e), n.owner)
    ensures Time(Then(r, e), n) == Time(r, n)
  {
    hide Retimed;
    RetimedOthers(r, e.n, e.timeout, n);
  }

  lemma OthersMoved(r: Round, e: Event, n: TNode)
    requires (e.Told? || e.Dropped?) && e.n != n
    ensures n in On(r, n.owner) ==> n in On(Then(r, e), n.owner)
    ensures n in Off(r, n.owner) ==> n in Off(Then(r, e), n.owner)
    ensures Time(Then(r, e), n) == Time(r, n)
  {
    hide Without;
    WithoutElse(r, e.n, n);
  }

  lemma OthersKept(r: Round, e: Event, n: TNode)
    requires e.Passed? || e.Ignored? || (e.Registered? && e.tb != n.owner) || (e.Unregistered? && e.tb != n.owner)
    ensures n in On(r, n.owner) ==> n in On(Then(r, e), n.owner)
    ensures n in Off(r, n.owner) ==> n in Off(Then(r, e), n.owner)
    ensures Time(Then(r, e), n) == Time(r, n)
  {
    hide Without;
  }

  lemma WithoutElse(r: Round, m: TNode, n: TNode)
    requires n != m
    ensures n in On(r, n.owner) && n.owner == m.owner ==> n in Without(On(r, m.owner), m)
    ensures n in Off(r, n.owner) && n.owner == m.owner ==> n in Without(Off(r, m.owner), m)
    ensures n in Off(r, n.owner) && n.owner == m.owner ==> n in Off(r, m.owner) + [m]
  {
    WithoutOthers(On(r, m.owner), m);
    WithoutOthers(Off(r, m.owner), m);
  }

  lemma RetimedOthers(r: Round, m: TNode, t: TimeVal, n: TNode)
    requires n != m
    ensures n in On(r, n.owner) ==> n in On(Retimed(r, m, t), n.owner)
    ensures n in Off(r, n.owner) ==> n in Off(Retimed(r, m, t), n.owner)
    ensures Time(Retimed(r, m, t), n) == Time(r, n)
  {
    hide Without, Queued;
    WithoutOthers(On(r, m.owner), m);
    WithoutOthers(Off(r, m.owner), m);
    if !Invalid(t) { QueuedAdds(Without(On(r, m.owner), m), m, r.(time := r.time[m := t])); }
  }

  lemma ServedAfter(n: TNode, log: seq<Event>, r: Round, s: Round, e: Event, current: TimeVal)
    requires Served(n, log, r, s, current) && Can(s, e, current) && !Touched(n, log + [e])
    ensures Served(n, log + [e], r, Then(s, e), current)
  {
    hide On, Off, Time;
    assert e in log + [e] && forall x :: x in log ==> x in log + [e];
    NewcomerOnly(s, e, n.owner, current);
    if About(e, n) {
      if e.Timed? { StaysChanged(n, log, e); }
      TellingDisables(s, e);
    } else {
      OthersAfter(s, e, n);
    }
    ListedAfter(s, e, n.owner);
    hide Then;
  }

  lemma NewcomerOnly(r: Round, e: Event, tb: TimeoutBase, current: TimeVal)
    requires Can(r, e, current) && (tb in r.done || tb in r.todo)
    ensures e != Registered(tb)
  {
  }

  lemma TellingDisables(r: Round, e: Event)
    requires e.Told?
    ensures e.n in Off(Then(r, e), e.n.owner) && Time(Then(r, e), e.n) == Time(r, e.n)
  {
  }

  lemma {:induction false} ServedAlways(n: TNode, log: seq<Event>, r: Round, current: TimeVal)
    requires Lawful(log, r, current) && !Touched(n, log)
    requires (n.owner in r.done || n.owner in r.todo) && n in On(r, n.owner)
    ensures Served(n, log, r, End(log, r), current)
  {
    hide Can, Then;
    if log == [] {
    } else {
      hide Served;
      var before, e := log[..|log| - 1], log[|log| - 1];
      assert before + [e] == log;
      LessTouched(n, before, e);
      ServedAlways(n, before, r, current);
      ServedAfter(n, before, r, End(before, r), e, current);
    }
  }

  lemma LessTouched(n: TNode, log: seq<Event>, e: Event)
    requires !Touched(n, log + [e])
    ensures !Touched(n, log)
  {
    assert forall x :: x in log ==> x in log + [e];
  }

  /** A client that was told of a timeout that is left alone is still being served, or has been. */
  ghost predicate Reached(n: TNode, log: seq<Event>, s: Round) {
    (exists t :: Told(n, t) in log) ==> n.owner in s.done || Serving(s) == n.owner
  }

  lemma ReachedAfter(n: TNode, log: seq<Event>, s: Round, e: Event, current: TimeVal)
    requires Reached(n, log, s) && Can(s, e, current) && e != Unregistered(n.owner)
    ensures Reached(n, log + [e], Then(s, e))
  {
    var tb, u := n.owner, Then(s, e);
    if exists t :: Told(n, t) in log + [e] {
      var t :| Told(n, t) in log + [e];
      assert Told(n, t) in log || e == Told(n, t);
      assert tb in s.done || Serving(s) == tb;
      if e.Unregistered? { WithoutOthers(s.done, e.tb); }
    }
  }

  lemma {:induction false} ReachedAlways(n: TNode, log: seq<Event>, r: Round, current: TimeVal)
    requires Lawful(log, r, current) && Unregistered(n.owner) !in log
    ensures Reached(n, log, End(log, r))
  {
    hide Can, Then;
    if log == [] {
    } else {
      var before, e := log[..|log| - 1], log[|log| - 1];
      assert before + [e] == log && forall x :: x in before ==> x in log;
      ReachedAlways(n, before, r, current);
      ReachedAfter(n, before, End(before, r), e, current);
    }
  }

  /** In every round, of the timeouts the callbacks leave alone exactly the due ones of the clients that were served are
      told, each with its time, and are disabled; all others stay enabled with their time. */
  lemma ToldExactly(n: TNode, log: seq<Event>, r: Round, current: TimeVal)
    requires Complete(log, r, current) && AtStart(r)
    requires n.owner in r.todo && n in On(r, n.owner) && !Touched(n, log)
    ensures var s := End(log, r);
            if Due(r, n, current) && n.owner in s.done
            then Told(n, Time(r, n)) in log && n in Off(s, n.owner) && n !in On(s, n.owner)
            else n in On(s, n.owner) && Time(s, n) == Time(r, n) && forall t :: Told(n, t) !in log
  {
    hide Lawful, On, Off, Time;
    ServedAlways(n, log, r, current);
    ReachedAlways(n, log, r, current);
    NothingLeft(log, r, current);
  }

  // ----- when a client was not served

  /** At event i the client being served leaves, and the owner of the timeout is behind it. */
  ghost predicate LeftBehind(n: TNode, log: seq<Event>, i: nat, r: Round) {
    i < |log| && var s := End(log[..i], r);
    Serving(s) != null && log[i] == Unregistered(Serving(s)) && n.owner in s.todo[1..]
  }

  lemma DoneStays(r: Round, e: Event, tb: TimeoutBase)
    requires tb in r.done && e != Unregistered(tb)
    ensures tb in Then(r, e).done
  {
    if e.Unregistered? { WithoutOthers(r.done, e.tb); }
  }

  lemma {:induction false} DoneAtEnd(log: seq<Event>, i: nat, r: Round, tb: TimeoutBase)
    requires i <= |log| && tb in End(log[..i], r).done && Unregistered(tb) !in log
    ensures tb in End(log, r).done
  {
    hide Then;
    if i == |log| {
      assert log[..i] == log;
    } else {
      var before := log[..|log| - 1];
      assert before[..i] == log[..i] && forall x :: x in before ==> x in log;
      DoneAtEnd(before, i, r, tb);
      DoneStays(End(before, r), log[|log| - 1], tb);
    }
  }

  /** After the client being served has left, no client is served any more. */
  lemma {:induction false} NotServedAfter(log: seq<Event>, i: nat, r: Round, current: TimeVal, tb: TimeoutBase)
    requires Lawful(log, r, current) && i <= |log| && End(log[..i], r).over && tb !in End(log[..i], r).done
    ensures End(log, r).over && tb !in End(log, r).done
  {
    hide Can, Then;
    if i == |log| {
      assert log[..i] == log;
    } else {
      var before, e := log[..|log| - 1], log[|log| - 1];
      assert before[..i] == log[..i];
      NotServedAfter(before, i, r, current, tb);
      OverStep(End(before, r), e, current);
      if tb in Then(End(before, r), e).done { DoneAfter(End(before, r), e, tb); }
    }
  }

  lemma KeepsApart(r: Round, e: Event, current: TimeVal)
    requires NoDup(r.done + r.todo) && Can(r, e, current)
    ensures NoDup(Then(r, e).done + Then(r, e).todo)
  {
    var s := Then(r, e);
    match e
    case Unregistered(tb) =>
      LeaveStep(r, tb);
      WithoutKeeps(r.done + r.todo, tb);
    case Passed => assert s.done + s.todo == r.done + r.todo;
    case Registered(tb) => assert s.done + s.todo == r.done + r.todo + [tb];
    case _ =>
  }

  lemma {:induction false} AlwaysApart(log: seq<Event>, r: Round, current: TimeVal)
    requires Lawful(log, r, current) && NoDup(r.done + r.todo)
    ensures NoDup(End(log, r).done + End(log, r).todo)
  {
    hide Can, Then, NoDup;
    if log == [] {
    } else {
      var before := log[..|log| - 1];
      AlwaysApart(before, r, current);
      KeepsApart(End(before, r), log[|log| - 1], current);
    }
  }

  lemma EndsWalk(r: Round, e: Event, current: TimeVal)
    requires !r.over && Can(r, e, current) && Then(r, e).over
    ensures Serving(r) != null && e == Unregistered(Serving(r)) && r.todo != [] && r.todo[0] == Serving(r)
  {
  }

  /** The walk is over only if some client left while it was being served. */
  lemma {:induction false} EndedSomewhere(log: seq<Event>, r: Round, current: TimeVal) returns (i: nat)
    requires Lawful(log, r, current) && !r.over && End(log, r).over
    ensures i < |log| && !End(log[..i], r).over && End(log[..i + 1], r).over
  {
    hide Can, Then;
    var before := log[..|log| - 1];
    if End(before, r).over {
      i := EndedSomewhere(before, r, current);
      assert before[..i] == log[..i] && before[..i + 1] == log[..i + 1];
    } else {
      i := |log| - 1;
      assert log[..i] == before && log[..i + 1] == log;
    }
  }

  /** The client of a timeout left alone was not served exactly if it was behind a client that left while it was
      served. */
  lemma BehindExactly(n: TNode, log: seq<Event>, r: Round, current: TimeVal)
    requires Complete(log, r, current) && AtStart(r) && NoDup(r.todo)
    requires n.owner in r.todo && n in On(r, n.owner) && !Touched(n, log)
    ensures n.owner !in End(log, r).done <==> exists i :: LeftBehind(n, log, i, r)
  {
    hide Lawful, Can, Then, On, Off, Time, Touched;
    if n.owner !in End(log, r).done {
      var i := BehindAt(n, log, r, current);
    }
    if i :| LeftBehind(n, log, i, r) {
      NotServedBehind(n, log, i, r, current);
    }
  }

  lemma BehindAt(n: TNode, log: seq<Event>, r: Round, current: TimeVal) returns (i: nat)
    requires Complete(log, r, current) && AtStart(r)
    requires n.owner in r.todo && n in On(r, n.owner) && !Touched(n, log) && n.owner !in End(log, r).done
    ensures LeftBehind(n, log, i, r)
  {
    hide Lawful, Can, Then, On, Off, Time, Changed;
    ServedAlways(n, log, r, current);
    i := EndedSomewhere(log, r, current);
    var s := End(log[..i], r);
    PartLawful(log, i, r, current);
    EndsWalk(s, log[i], current);
    FirstTouched(n, log, i);
    ServedAlways(n, log[..i], r, current);
    if n.owner in s.done { DoneAtEnd(log, i, r, n.owner); }
    assert s.todo == [s.todo[0]] + s.todo[1..];
  }

  lemma FirstTouched(n: TNode, log: seq<Event>, i: nat)
    requires !Touched(n, log) && i <= |log|
    ensures !Touched(n, log[..i])
  {
    assert forall x :: x in log[..i] ==> x in log;
  }

  lemma NotServedBehind(n: TNode, log: seq<Event>, i: nat, r: Round, current: TimeVal)
    requires Lawful(log, r, current) && r.done == [] && NoDup(r.todo) && LeftBehind(n, log, i, r)
    ensures n.owner !in End(log, r).done
  {
    hide Lawful, Can, Then, End, NoDup;
    var s := End(log[..i], r);
    PartLawful(log, i, r, current);
    assert r.done + r.todo == r.todo;
    AlwaysApart(log[..i], r, current);
    assert s.todo == [s.todo[0]] + s.todo[1..];
    PartsApart(s.done, s.todo, n.owner);
    PartsApart(s.done, s.todo, s.todo[0]);
    NotDoneBy(s, log[i], n.owner);
    NotServedAfter(log, i + 1, r, current, n.owner);
  }

  lemma PartsApart<T>(s: seq<T>, t: seq<T>, x: T)
    requires NoDup(s + t) && x in t
    ensures x !in s
  {
    var j :| 0 <= j < |t| && t[j] == x;
    forall k | 0 <= k < |s| ensures s[k] != x { assert (s + t)[k] != (s + t)[|s| + j]; }
  }

  lemma NotDoneBy(s: Round, e: Event, tb: TimeoutBase)
    requires Serving(s) != null && e == Unregistered(Serving(s)) && tb !in s.done && Serving(s) !in s.done
    ensures Then(s, e).over && tb !in Then(s, e).done
  {
  }

  /** A due timeout the callbacks leave alone is missed exactly if its client is behind one that leaves while it is
      being served. */
  lemma MissedExactly(n: TNode, log: seq<Event>, r: Round, current: TimeVal)
    requires Complete(log, r, current) && AtStart(r) && NoDup(r.todo)
    requires n.owner in r.todo && n in On(r, n.owner) && !Touched(n, log)
    ensures Told(n, Time(r, n)) in log <==> Due(r, n, current) && !exists i :: LeftBehind(n, log, i, r)
  {
    hide Complete, AtStart, On, Off, Time, Touched, LeftBehind, NoDup;
    ToldExactly(n, log, r, current);
    BehindExactly(n, log, r, current);
  }

  lemma {:induction false} InNotices(n: TNode, time: TimeVal, log: seq<Event>)
    ensures Notice(n, n.dptr, time) in Notices(log) <==> Told(n, time) in log
  {
    if log == [] {
    } else {
      var before, e := log[..|log| - 1], log[|log| - 1];
      InNotices(n, time, before);
      Told1(before, e);
      assert before + [e] == log;
    }
  }

  /** The same of all timeouts and of what is told. */
  lemma ToldOf(log: seq<Event>, r: Round, current: TimeVal)
    requires Complete(log, r, current) && AtStart(r) && NoDup(r.todo)
    requires forall tb, n :: tb in r.todo && n in On(r, tb) ==> n.owner == tb
    ensures forall tb, n :: tb in r.todo && n in On(r, tb) && !Touched(n, log) ==>
              (Notice(n, n.dptr, Time(r, n)) in Notices(log) <==>
               Due(r, n, current) && !exists i :: LeftBehind(n, log, i, r))
  {
    hide Complete, AtStart, On, Off, Time, Due, Touched, LeftBehind, NoDup, Notices;
    forall tb, n | tb in r.todo && n in On(r, tb) && !Touched(n, log)
      ensures Notice(n, n.dptr, Time(r, n)) in Notices(log) <==>
              Due(r, n, current) && !exists i :: LeftBehind(n, log, i, r)
    {
      MissedExactly(n, log, r, current);
      InNotices(n, Time(r, n), log);
    }
  }

  // ----- how often the clients are told

  /** The enabled timeouts that are due. */
  ghost function DueSet(r: Round, current: TimeVal): set<TNode> {
    set tb, n | tb in r.done + r.todo && n in On(r, tb) && n.owner == tb && Due(r, n, current) :: n
  }

  /** How many times a callback gave a timeout a time that is due already. */
  ghost function DueTimings(log: seq<Event>, current: TimeVal): nat {
    if log == [] then 0
    else
      var e := log[|log| - 1];
      DueTimings(log[..|log| - 1], current)
      + if e.Timed? && !Invalid(e.timeout) && !Gt(e.timeout, current) then 1 else 0
  }

  ghost predicate Unique(r: Round) {
    forall tb :: tb in r.done + r.todo ==> NoDup(On(r, tb))
  }

  lemma QueuedUnique(s: seq<TNode>, n: TNode, r: Round)
    requires NoDup(s) && n !in s
    ensures NoDup(Queued(s, n, r))
  {
    if s == [] || Gt(Time(r, s[0]), Time(r, n)) {
    } else {
      assert s == [s[0]] + s[1..];
      QueuedUnique(s[1..], n, r);
      QueuedAdds(s[1..], n, r);
      assert s[0] !in Queued(s[1..], n, r);
    }
  }

  lemma WithoutUnique(s: seq<TNode>, n: TNode)
    requires NoDup(s)
    ensures NoDup(Without(s, n)) && n !in Without(s, n)
  {
    if n in s { WithoutKeeps(s, n); } else { WithoutAbsent(s, n); }
  }

  /** The clients listed after a step were listed before, or are new and have no timeouts. */
  lemma ListedBefore(r: Round, e: Event, tb: TimeoutBase)
    requires tb in Then(r, e).done + Then(r, e).todo
    ensures tb in r.done + r.todo || (e == Registered(tb) && On(Then(r, e), tb) == [])
  {
    if e.Unregistered? {
      WithoutWithin(r.done, e.tb);
      WithoutWithin(r.todo, e.tb);
    }
  }

  lemma UniqueOn(r: Round, e: Event, tb: TimeoutBase)
    requires NoDup(On(r, tb))
    ensures NoDup(On(Then(r, e), tb))
    ensures (e.Told? || (e.Timed? && Invalid(e.timeout))) && e.n.owner == tb ==> e.n !in On(Then(r, e), tb)
  {
    hide Without, Queued;
    if (e.Told? || e.Timed? || e.Dropped?) && tb == e.n.owner {
      WithoutUnique(On(r, tb), e.n);
      if e.Timed? && !Invalid(e.timeout) {
        QueuedUnique(Without(On(r, tb), e.n), e.n, r.(time := r.time[e.n := e.timeout]));
      }
    }
  }

  lemma UniqueAfter(r: Round, e: Event)
    requires Unique(r)
    ensures Unique(Then(r, e))
  {
    hide Then, On, NoDup;
    forall tb | tb in Then(r, e).done + Then(r, e).todo ensures NoDup(On(Then(r, e), tb)) {
      ListedBefore(r, e, tb);
      if tb in r.done + r.todo { UniqueOn(r, e, tb); } else { NoneTwice<TNode>(); }
    }
  }

  lemma NoneTwice<T>()
    ensures NoDup<T>([])
  {
  }

  lemma SubsetSize<T>(a: set<T>, b: set<T>)
    requires a <= b
    ensures |a| <= |b|
  {
    assert b == a + (b - a);
  }

  /** A step makes no other timeout due than the one it gives a due time, and what is told is not due any more. */
  lemma DueAfter(r: Round, e: Event, current: TimeVal)
    requires Unique(r) && Can(r, e, current)
    ensures var d, d' := DueSet(r, current), DueSet(Then(r, e), current);
            && (e.Told? ==> e.n in d && d' <= d - {e.n})
            && (!e.Told? ==> d' <= d + if e.Timed? && !Invalid(e.timeout) && !Gt(e.timeout, current) then {e.n} else {})
  {
    hide On, Time, NoDup;
    var s := Then(r, e);
    forall n | n in DueSet(s, current)
      ensures (e.Timed? && n == e.n && !Invalid(e.timeout) && !Gt(e.timeout, current)) || n in DueSet(r, current)
      ensures e.Told? ==> n != e.n
    {
      var tb := n.owner;
      assert tb in s.done + s.todo && n in On(s, tb) && Due(s, n, current);
      hide Then;
      ListedBefore(r, e, tb);
      OnAfter(r, e, tb, n);
      if tb in r.done + r.todo { UniqueOn(r, e, tb); }
      if e.Timed? && n == e.n { RetimeStep(r, n, e.timeout); }
    }
    if e.Told? { ToldDue(r, e, current); }
  }

  /** A round tells the clients at most once for each timeout due at its start and for each time a callback gives one a
      time that is due already. */
  lemma {:induction false} ToldAtMost(log: seq<Event>, r: Round, current: TimeVal)
    requires Lawful(log, r, current) && Unique(r)
    ensures Unique(End(log, r))
    ensures |Notices(log)| + |DueSet(End(log, r), current)| <= |DueSet(r, current)| + DueTimings(log, current)
  {
    hide Can, Then, Unique, DueSet;
    if log == [] {
    } else {
      var before, e := log[..|log| - 1], log[|log| - 1];
      var s := End(before, r);
      ToldAtMost(before, r, current);
      UniqueAfter(s, e);
      DueAfter(s, e, current);
      if e.Told? {
        SubsetSize(DueSet(Then(s, e), current), DueSet(s, current) - {e.n});
      } else if e.Timed? && !Invalid(e.timeout) && !Gt(e.timeout, current) {
        SubsetSize(DueSet(Then(s, e), current), DueSet(s, current) + {e.n});
      } else {
        SubsetSize(DueSet(Then(s, e), current), DueSet(s, current));
      }
    }
  }

  /** One client with one timeout, which is due. */
  ghost predicate OneDue(r: Round, n: TNode, current: TimeVal) {
    && AtStart(r) && r.todo == [n.owner] && On(r, n.owner) == [n] && Off(r, n.owner) == [] && Due(r, n, current)
  }

  lemma AgainStep(r: Round, n: TNode, t: TimeVal, current: TimeVal)
    requires OneDue(r, n, current) && r.script != [] && r.script[0] == [Update(0, 0, t)]
    requires !Invalid(t) && !Gt(t, current)
    ensures var told, timed := Told(n, Time(r, n)), Timed(n, t); var s := Then(r, told);
            && Can(r, told, current) && Can(s, timed, current)
            && OneDue(Then(s, timed), n, current) && Then(s, timed).script == r.script[1..]
  {
  }

  /** A callback that always gives its timeout a time that is due already is run as often as the script lets it: the
      round goes on for any number of tellings. */
  lemma {:induction false} AgainAndAgain(r: Round, n: TNode, t: TimeVal, current: TimeVal, k: nat)
      returns (log: seq<Event>)
    requires OneDue(r, n, current) && k <= |r.script| && (forall j :: 0 <= j < k ==> r.script[j] == [Update(0, 0, t)])
    requires !Invalid(t) && !Gt(t, current)
    ensures Lawful(log, r, current) && |Notices(log)| == k
    ensures OneDue(End(log, r), n, current) && End(log, r).script == r.script[k..]
  {
    hide Can, Then, OneDue, Lawful, End, Notices;
    NoEvents(r, current);
    log := [];
    if k == 0 {
    } else {
      log := AgainAndAgain(r, n, t, current, k - 1);
      var s := End(log, r);
      AgainStep(s, n, t, current);
      var told, timed := Told(n, Time(s, n)), Timed(n, t);
      Extended(log, told, r, current);
      Extended(log + [told], timed, r, current);
      Told1(log, told);
      Told1(log + [told], timed);
      log := log + [told] + [timed];
    }
  }

  lemma ToldDue(r: Round, e: Event, current: TimeVal)
    requires Can(r, e, current) && e.Told?
    ensures e.n in DueSet(r, current)
  {
  }

  // ----- no client leaves

  ghost predicate Stays(calls: seq<Call>) {
    forall c :: c in calls ==> !c.Leave?
  }

  ghost predicate AllStay(r: Round) {
    !r.over && Stays(r.calls) && forall calls :: calls in r.script ==> Stays(calls)
  }

  lemma StayAfter(r: Round, e: Event, current: TimeVal)
    requires AllStay(r) && Can(r, e, current)
    ensures AllStay(Then(r, e)) && !e.Unregistered?
  {
  }

  lemma {:induction false} NobodyLeaves(log: seq<Event>, r: Round, current: TimeVal)
    requires Lawful(log, r, current) && AllStay(r)
    ensures AllStay(End(log, r)) && forall tb :: Unregistered(tb) !in log
  {
    hide Can, Then, AllStay;
    if log == [] {
    } else {
      var before, e := log[..|log| - 1], log[|log| - 1];
      NobodyLeaves(before, r, current);
      StayAfter(End(before, r), e, current);
      assert log == before + [e];
    }
  }

  /** If no callback takes a client out of the list, every client is served, and a timeout left alone is told exactly if
      it is due. */
  lemma EverybodyServed(n: TNode, log: seq<Event>, r: Round, current: TimeVal)
    requires Complete(log, r, current) && AtStart(r) && AllStay(r)
    requires n.owner in r.todo && n in On(r, n.owner) && !Touched(n, log)
    ensures !End(log, r).over && End(log, r).todo == []
    ensures Told(n, Time(r, n)) in log <==> Due(r, n, current)
  {
    hide Lawful, On, Off, Time, Touched, Due;
    NobodyLeaves(log, r, current);
    NothingLeft(log, r, current);
    ToldExactly(n, log, r, current);
    ServedAlways(n, log, r, current);
  }

  // ----- a client that leaves while it is being served

  /** The first timeout of the first client is due, and its callback only takes the client out of the list. */
  ghost predicate LeavesFirst(r: Round, current: TimeVal) {
    && AtStart(r) && r.todo != [] && On(r, r.todo[0]) != [] && r.script != [] && r.script[0] == [Leave(0)]
    && var n := On(r, r.todo[0])[0]; n.owner == r.todo[0] && Due(r, n, current)
  }

  ghost function LeaverLog(r: Round): seq<Event>
    requires r.todo != [] && On(r, r.todo[0]) != []
  {
    var n := On(r, r.todo[0])[0];
    [Told(n, Time(r, n)), Unregistered(r.todo[0])]
  }

  lemma LeaverSteps(r: Round, current: TimeVal)
    requires LeavesFirst(r, current)
    ensures var told, left := LeaverLog(r)[0], LeaverLog(r)[1]; var s := Then(r, told); var t := Then(s, left);
            && (forall e :: Can(r, e, current) <==> e == told) && (forall e :: Can(s, e, current) <==> e == left)
            && (forall e :: !Can(t, e, current)) && !Finished(r) && !Finished(s) && Finished(t)
            && (forall tb :: tb != r.todo[0] ==> On(t, tb) == On(r, tb)) && (forall n :: Time(t, n) == Time(r, n))
  {
  }

  /** If the first callback does nothing but take its client out of the list, it is the only one: the round has this one
      run, and the other clients keep all their timeouts, the due ones included. */
  lemma LeaverEndsRound(log: seq<Event>, r: Round, current: TimeVal)
    requires LeavesFirst(r, current)
    ensures Complete(log, r, current) <==> log == LeaverLog(r)
    ensures Complete(log, r, current) ==>
              forall tb, n :: tb != r.todo[0] && n in On(r, tb) ==>
                n in On(End(log, r), tb) && Time(End(log, r), n) == Time(r, n)
  {
    LeaverSteps(r, current);
    var told, left := LeaverLog(r)[0], LeaverLog(r)[1];
    hide Can, Then, On, Time, Due, Finished, LeaverLog;
    NoEvents(r, current);
    Extended([], told, r, current);
    Extended([told], left, r, current);
    assert [] + [told] == [told] && [told] + [left] == [told, left];
    if Complete(log, r, current) {
      OnlyLog(log, r, told, left, current);
    }
  }

  lemma OnlyLog(log: seq<Event>, r: Round, a: Event, b: Event, current: TimeVal)
    requires Complete(log, r, current) && !Finished(r) && !Finished(Then(r, a))
    requires (forall e :: Can(r, e, current) ==> e == a) && (forall e :: Can(Then(r, a), e, current) ==> e == b)
    requires forall e :: !Can(Then(Then(r, a), b), e, current)
    ensures log == [a, b]
  {
    hide Can, Then, Finished;
    assert log != [];
    PartLawful(log, 0, r, current);
    assert log[..0] == [] && log[..1] == [log[0]];
    assert log[..1] != log;
    PartLawful(log, 1, r, current);
    if |log| > 2 { PartLawful(log, 2, r, current); }
    assert log[..2] == [log[0], log[1]] == log;
  }

  // ----- callbacks that do nothing

  /** What is told about a list of enabled timeouts. */
  ghost function DueOf(s: seq<TNode>, r: Round, current: TimeVal): (d: seq<Notice>)
    ensures |d| <= |s|
  {
    if s == [] || !Due(r, s[0], current) then []
    else [Notice(s[0], s[0].dptr, Time(r, s[0]))] + DueOf(s[1..], r, current)
  }

  /** A list is told up to its first timeout that is not due. */
  lemma {:induction false} DueUpTo(s: seq<TNode>, r: Round, current: TimeVal)
    ensures var d := DueOf(s, r, current);
            && (forall j :: 0 <= j < |d| ==> d[j] == Notice(s[j], s[j].dptr, Time(r, s[j])) && Due(r, s[j], current))
            && (|d| < |s| ==> !Due(r, s[|d|], current))
  {
    if s == [] || !Due(r, s[0], current) {
    } else {
      DueUpTo(s[1..], r, current);
      var d, e := DueOf(s, r, current), DueOf(s[1..], r, current);
      forall j | 0 <= j < |d| ensures d[j] == Notice(s[j], s[j].dptr, Time(r, s[j])) && Due(r, s[j], current) {
        if j > 0 { assert d[j] == e[j - 1] && s[j] == s[1..][j - 1]; }
      }
    }
  }

  ghost function Notices(log: seq<Event>): seq<Notice> {
    if log == [] then []
    else
      var e := log[|log| - 1];
      Notices(log[..|log| - 1]) + if e.Told? then [Notice(e.n, e.n.dptr, e.time)] else []
  }

  ghost function DueParts(tbs: seq<TimeoutBase>, r: Round, current: TimeVal): (parts: seq<seq<Notice>>)
    ensures |parts| == |tbs| && forall j :: 0 <= j < |parts| ==> parts[j] == DueOf(On(r, tbs[j]), r, current)
  {
    seq(|tbs|, j requires 0 <= j < |tbs| => DueOf(On(r, tbs[j]), r, current))
  }

  /** Since r, the first k enabled timeouts of the client have been moved to its disabled ones. */
  ghost predicate Advanced(r: Round, s: Round, tb: TimeoutBase, k: nat) {
    k <= |On(r, tb)| && On(s, tb) == On(r, tb)[k..] && Off(s, tb) == Off(r, tb) + On(r, tb)[..k]
  }

  /** How many timeouts of the client being served have been told. */
  ghost function Part(r: Round, s: Round): int {
    if s.todo == [] then 0 else |On(r, s.todo[0])| - |On(s, s.todo[0])|
  }

  ghost predicate Quiet(log: seq<Event>, r: Round, s: Round, current: TimeVal) {
    && s.calls == [] && s.script == [] && !s.over && s.time == r.time && s.done + s.todo == r.todo
    && (forall j :: 0 <= j < |s.done| ==> Advanced(r, s, s.done[j], |DueOf(On(r, s.done[j]), r, current)|))
    && (forall j :: 1 <= j < |s.todo| ==> Advanced(r, s, s.todo[j], 0))
    && 0 <= Part(r, s)
    && (s.todo != [] ==> Advanced(r, s, s.todo[0], Part(r, s)) && Part(r, s) <= |DueOf(On(r, s.todo[0]), r, current)|)
    && Notices(log) == Flattened(DueParts(s.done, r, current)) + if s.todo == [] then []
    else DueOf(On(r, s.todo[0]), r, current)[..Part(r, s)]
  }

  lemma PartsPush(tbs: seq<TimeoutBase>, tb: TimeoutBase, r: Round, current: TimeVal)
    ensures Flattened(DueParts(tbs + [tb], r, current)) ==
            Flattened(DueParts(tbs, r, current)) + DueOf(On(r, tb), r, current)
  {
    var p := DueParts(tbs + [tb], r, current);
    assert p[..|tbs|] == DueParts(tbs, r, current);
  }

  lemma ToldStep(s: Round, e: Event, current: TimeVal)
    requires Can(s, e, current) && e.Told? && s.calls == []
    ensures s.todo != []
    ensures var t, tb := Then(s, e), s.todo[0];
            && On(s, tb) != [] && e.n == On(s, tb)[0] && e.time == Time(s, e.n) && Due(s, e.n, current)
            && On(t, tb) == On(s, tb)[1..] && Off(t, tb) == Off(s, tb) + [e.n]
            && (forall c :: c != tb ==> On(t, c) == On(s, c) && Off(t, c) == Off(s, c))
            && t.done == s.done && t.todo == s.todo && t.time == s.time && t.over == s.over
            && t.calls == (if s.script == [] then [] else s.script[0]) && t.script == Tail(s.script)
  {
  }

  lemma AdvancedMore(r: Round, s: Round, t: Round, tb: TimeoutBase, k: nat)
    requires Advanced(r, s, tb, k) && On(s, tb) != []
    requires On(t, tb) == On(s, tb)[1..] && Off(t, tb) == Off(s, tb) + [On(s, tb)[0]]
    ensures Advanced(r, t, tb, k + 1) && k < |On(r, tb)| && On(s, tb)[0] == On(r, tb)[k]
  {
    hide On, Off;
    assert On(r, tb)[..k + 1] == On(r, tb)[..k] + [On(r, tb)[k]];
  }

  lemma QuietTold(log: seq<Event>, r: Round, s: Round, e: Event, current: TimeVal)
    requires Quiet(log, r, s, current) && NoDup(r.todo) && Can(s, e, current) && e.Told?
    ensures Quiet(log + [e], r, Then(s, e), current)
  {
    hide DueOf, Notices, DueParts, Can, Then, On, Off, Advanced, Flattened;
    ToldStep(s, e, current);
    var t, tb, k := Then(s, e), s.todo[0], Part(r, s);
    var d := DueOf(On(r, tb), r, current);
    AdvancedMore(r, s, t, tb, k);
    DueUpTo(On(r, tb), r, current);
    assert k < |d| && d[k] == Notice(e.n, e.n.dptr, e.time);
    Told1(log, e);
    assert d[..k + 1] == d[..k] + [d[k]];
    OthersAdvanced(r, s, t, current);
  }

  lemma OthersAdvanced(r: Round, s: Round, t: Round, current: TimeVal)
    requires NoDup(r.todo) && r.todo == s.done + s.todo && s.todo != []
    requires forall c :: c != s.todo[0] ==> On(t, c) == On(s, c) && Off(t, c) == Off(s, c)
    requires forall j :: 0 <= j < |s.done| ==> Advanced(r, s, s.done[j], |DueOf(On(r, s.done[j]), r, current)|)
    requires forall j :: 1 <= j < |s.todo| ==> Advanced(r, s, s.todo[j], 0)
    ensures forall j :: 0 <= j < |s.done| ==> Advanced(r, t, s.done[j], |DueOf(On(r, s.done[j]), r, current)|)
    ensures forall j :: 1 <= j < |s.todo| ==> Advanced(r, t, s.todo[j], 0)
  {
    hide On, Off, DueOf;
    forall j | 0 <= j < |s.done| ensures Advanced(r, t, s.done[j], |DueOf(On(r, s.done[j]), r, current)|) {
      assert r.todo[j] != r.todo[|s.done|];
    }
    forall j | 1 <= j < |s.todo| ensures Advanced(r, t, s.todo[j], 0) {
      assert r.todo[|s.done| + j] != r.todo[|s.done|];
    }
  }

  lemma Told1(log: seq<Event>, e: Event)
    ensures Notices(log + [e]) == Notices(log) + if e.Told? then [Notice(e.n, e.n.dptr, e.time)] else []
  {
    assert (log + [e])[..|log|] == log;
  }

  lemma PassedStep(s: Round, current: TimeVal)
    requires Can(s, Passed, current) && s.calls == []
    ensures var t := Then(s, Passed);
            && s.todo != [] && t.done == s.done + [s.todo[0]] && t.todo == s.todo[1..] && t.over == s.over
            && t.calls == [] && t.script == s.script && t.time == s.time
            && (forall n :: n in On(s, s.todo[0]) ==> !Due(s, n, current))
            && (forall c :: On(t, c) == On(s, c) && Off(t, c) == Off(s, c))
  {
  }

  lemma NextDue(r: Round, s: Round, tb: TimeoutBase, k: nat, current: TimeVal)
    requires Advanced(r, s, tb, k) && s.time == r.time
    ensures k < |DueOf(On(r, tb), r, current)| ==> On(r, tb)[k] in On(s, tb) && Due(s, On(r, tb)[k], current)
  {
    hide DueOf, On, Off;
    DueUpTo(On(r, tb), r, current);
    if k < |DueOf(On(r, tb), r, current)| { assert On(s, tb)[0] == On(r, tb)[k]; }
  }

  lemma QuietPassed(log: seq<Event>, r: Round, s: Round, current: TimeVal)
    requires Quiet(log, r, s, current) && Can(s, Passed, current)
    ensures Quiet(log + [Passed], r, Then(s, Passed), current)
  {
    hide DueOf, Notices, DueParts, Can, Then, On, Off, Flattened;
    PassedStep(s, current);
    var t, tb, k := Then(s, Passed), s.todo[0], Part(r, s);
    var d := DueOf(On(r, tb), r, current);
    NextDue(r, s, tb, k, current);
    assert d[..k] == d;
    PartsPush(s.done, tb, r, current);
    Told1(log, Passed);
    assert t.done + t.todo == r.todo;
    forall j | 0 <= j < |t.todo| ensures Advanced(r, t, t.todo[j], 0) { assert t.todo[j] == s.todo[j + 1]; }
  }

  lemma QuietStart(r: Round, current: TimeVal)
    requires AtStart(r) && r.script == []
    ensures Quiet([], r, r, current)
  {
    hide DueOf, DueParts;
    assert forall tb :: Advanced(r, r, tb, 0);
    assert DueParts([], r, current) == [];
  }

  lemma QuietStep(log: seq<Event>, r: Round, s: Round, e: Event, current: TimeVal)
    requires Quiet(log, r, s, current) && NoDup(r.todo) && Can(s, e, current)
    ensures Quiet(log + [e], r, Then(s, e), current)
  {
    hide Then, Advanced, DueParts, DueOf, Notices;
    if e.Told? { QuietTold(log, r, s, e, current); } else { QuietPassed(log, r, s, current); }
  }

  lemma {:induction false} QuietAlways(log: seq<Event>, r: Round, current: TimeVal)
    requires Lawful(log, r, current) && NoDup(r.todo)
    requires AtStart(r) && r.script == []
    ensures Quiet(log, r, End(log, r), current)
  {
    hide Can, Then, Quiet;
    if log == [] {
      QuietStart(r, current);
    } else {
      var before, e := log[..|log| - 1], log[|log| - 1];
      QuietAlways(before, r, current);
      QuietStep(before, r, End(before, r), e, current);
      assert before + [e] == log;
    }
  }

  /** If the callbacks do nothing, every client is told exactly what is due in its list, in the order of the list, the
      clients in the order of the manager's list, and what was told is disabled. */
  lemma QuietRound(log: seq<Event>, r: Round, current: TimeVal)
    requires Complete(log, r, current) && AtStart(r) && r.script == [] && NoDup(r.todo)
    ensures Notices(log) == Flattened(DueParts(r.todo, r, current))
    ensures End(log, r).done == r.todo && End(log, r).time == r.time
    ensures forall tb :: tb in r.todo ==> Advanced(r, End(log, r), tb, |DueOf(On(r, tb), r, current)|)
  {
    hide DueOf, Notices, DueParts, Lawful, Advanced, Flattened;
    QuietAlways(log, r, current);
    var s := End(log, r);
    assert s.done == r.todo;
    forall tb | tb in r.todo ensures Advanced(r, s, tb, |DueOf(On(r, tb), r, current)|) {
      var j :| 0 <= j < |r.todo| && r.todo[j] == tb;
    }
  }

  // ----- a walk that was ended

  lemma OverStep(r: Round, e: Event, current: TimeVal)
    requires r.over && Can(r, e, current)
    ensures Then(r, e).over && !e.Told? && !e.Passed?
  {
  }

  /** Once a client has left while it was being served, nobody is told any more. */
  lemma {:induction false} NobodyToldAfter(log: seq<Event>, i: nat, r: Round, current: TimeVal)
    requires Lawful(log, r, current) && i <= |log| && End(log[..i], r).over
    ensures End(log, r).over && forall j :: i <= j < |log| ==> !log[j].Told? && !log[j].Passed?
  {
    hide Can, Then;
    if i == |log| {
      assert log[..i] == log;
    } else {
      var before := log[..|log| - 1];
      assert before[..i] == log[..i];
      NobodyToldAfter(before, i, r, current);
      OverStep(End(before, r), log[|log| - 1], current);
      assert forall j :: i <= j < |before| ==> log[j] == before[j];
    }
  }
}
