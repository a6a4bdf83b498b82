/** Whole jobs of the pump. */
module CopyRuns {
  import opened Bytes
  import opened Fifo
  import opened PumpPolicy
  import opened CopyPump

  const GRANTED := Answers(true, true, true, true)

  /** A pump that has not been started yet and can be. */
  ghost predicate Ready(p: Pump)
    reads p, p.src, p.dest, p.fifo, p.fifo.base
  {
    p.Valid() && !p.active && !p.isDead && CanStart(p.limit, p.ioBufsize, p.th)
  }

  /** What matters of a job about to be started for the way it will run. */
  function Planned(p: Pump, total: nat): Setup
    requires p.limit >= 0
    reads p
  {
    var size := BufferSize(p.limit, p.ioBufsize);
    Setup(Chosen(p.th, size), size, p.limit, total, p.src.maxIolen, p.dest.maxIolen)
  }

  /** A started job that copies this source: it has read a first part of it, and when it is over it has written all it
      read. */
  ghost predicate Copying(p: Pump, source: seq<Byte>, s: Setup)
    reads p, p.src, p.dest, p.fifo, p.fifo.base
  {
    && p.Valid() && Fine(s) && s.limit == p.limit && s.total == |source|
    && |p.got| <= |source| && p.got == source[..|p.got|]
    && if p.active then
      && s == Setup(p.th, p.fifo.base.Length, p.limit, |source|, p.src.maxIolen, p.dest.maxIolen)
      && !p.stoppedIn && !p.stoppedOut && p.persistentSc == if p.flushing then {InputEnd(s)} else {}
    else
      p.isDead && p.put == p.got && ToldEnd(p, InputEnd(s))
  }

  /** How the input of a job ends: at the limit, or before it with the source. */
  function InputEnd(s: Setup): Code {
    if s.total < s.limit then Read0 else Limit
  }

  /** The client is told last that the job is over, how its input ended, and no failure. */
  ghost predicate ToldEnd(p: Pump, c: Code)
    reads p
  {
    p.notified != [] && {c, Final} <= p.notified[|p.notified| - 1] <= {c, Limit, Final}
  }

  /** The job as the polling policy sees it. */
  ghost function View(p: Pump): Job
    reads p, p.fifo
  {
    if p.active then Going(p.fifo.use, |p.got|, p.currReading, p.currWriting, p.flushing) else Over(|p.got|)
  }

  method Begin(p: Pump, ghost source: seq<Byte>) returns (ghost s: Setup)
    requires Ready(p)
    modifies p, p.fifo
    ensures s == old(Planned(p, |source|)) && Copying(p, source, s) && View(p) == PumpPolicy.START
    ensures p.limit == old(p.limit) && (p.fifo.base == old(p.fifo.base) || fresh(p.fifo.base))
  {
    hide Pump.Core, Sane, CanStart, Chosen, BufferSize;
    StartedSane(p.limit, p.ioBufsize, p.th);
    s := Planned(p, |source|);
    var _ := p.StartJob(GRANTED);
  }

  /** The source delivers k bytes. */
  method PerformRead(p: Pump, source: seq<Byte>, k: nat, ghost s: Setup)
    requires Copying(p, source, s) && Possible(View(p), Read(k), s)
    modifies p, p.src, p.dest, p.fifo, p.fifo.base
    ensures Copying(p, source, s) && View(p) == After(old(View(p)), Read(k), s)
    ensures p.fifo.base == old(p.fifo.base) && p.limit == old(p.limit)
  {
    hide Pump.Core, Sane, ReadsOn, WritesOn, Pump.Valid;
    p.Facts();
    p.WantedBounds();
    var pos := p.src.transferred;
    var bytes := source[pos..pos + k];
    assert source[..pos] + bytes == source[..pos + k] && (k == 0 ==> bytes == []);
    var _ := p.HandleFDNotify(Input, true, false, false, Data(bytes), Took(0));
    if p.active {
      p.Facts();
    } else {
      p.Emptied();
      assert p.notified == old(p.notified) + [{Pump.ReadCode(Data(bytes)), Final} + old(p.persistentSc)];
    }
  }

  /** The destination takes k bytes. */
  method PerformWrite(p: Pump, source: seq<Byte>, k: nat, ghost s: Setup)
    requires Copying(p, source, s) && Possible(View(p), Write(k), s)
    modifies p, p.src, p.dest, p.fifo, p.fifo.base
    ensures Copying(p, source, s) && View(p) == After(old(View(p)), Write(k), s)
    ensures p.fifo.base == old(p.fifo.base) && p.limit == old(p.limit)
  {
    hide Pump.Core, Sane, ReadsOn, WritesOn, Pump.Valid;
    p.Facts();
    var _ := p.HandleFDNotify(Output, true, false, false, Data([]), Took(k));
    if p.active {
      p.Facts();
    } else {
      assert p.notified == old(p.notified) + [{Limit, Final} + old(p.persistentSc)];
    }
  }

  /** Serve one move: the pump goes on as the policy says. */
  method Perform(p: Pump, source: seq<Byte>, m: Move, ghost s: Setup)
    requires Copying(p, source, s) && Possible(View(p), m, s)
    modifies p, p.src, p.dest, p.fifo, p.fifo.base
    ensures Copying(p, source, s) && View(p) == After(old(View(p)), m, s)
    ensures p.fifo.base == old(p.fifo.base) && p.limit == old(p.limit)
  {
    hide Copying, View, Possible, After;
    match m
    case Read(k) => PerformRead(p, source, k, s);
    case Write(k) => PerformWrite(p, source, k, s);
  }

  /** Every run the policy allows is a run of the pump. */
  method Play(p: Pump, source: seq<Byte>, moves: seq<Move>)
    requires Ready(p) && Runs(moves, Planned(p, |source|))
    modifies p, p.src, p.dest, p.fifo, p.fifo.base
    ensures Copying(p, source, old(Planned(p, |source|))) && View(p) == End(moves, old(Planned(p, |source|)))
  {
    hide Copying, View, Possible, After, Planned;
    var i := 0;
    ghost var s := Begin(p, source);
    assert moves[..0] == [];
    while i < |moves|
      invariant i <= |moves| && Copying(p, source, s) && Runs(moves[..i], s) && View(p) == End(moves[..i], s)
      invariant p.fifo.base == old(p.fifo.base) || fresh(p.fifo.base)
    {
      PartRuns(moves, i, s);
      Perform(p, source, moves[i], s);
      i := i + 1;
    }
    assert moves[..i] == moves;
  }

  lemma {:induction false} PartRuns(moves: seq<Move>, i: nat, s: Setup)
    requires Runs(moves, s) && i < |moves|
    ensures Runs(moves[..i], s) && Possible(End(moves[..i], s), moves[i], s) && Runs(moves[..i + 1], s)
    ensures End(moves[..i + 1], s) == After(End(moves[..i], s), moves[i], s)
    decreases |moves|
  {
    hide Possible, After;
    assert moves[..i + 1][..i] == moves[..i];
    if i + 1 == |moves| {
      assert moves[..i + 1] == moves;
    } else {
      var before := moves[..|moves| - 1];
      assert before[..i] == moves[..i] && before[..i + 1] == moves[..i + 1];
      PartRuns(before, i, s);
    }
  }

  /** A started pump can get stuck: it is not flushing, its source has not ended, and neither end is polled. */
  method Stall(p: Pump, source: seq<Byte>)
    requires Ready(p) && CanStall(Planned(p, |source|))
    modifies p, p.src, p.dest, p.fifo, p.fifo.base
    ensures p.Valid() && p.active && !p.flushing && !p.currReading && !p.currWriting && !p.stoppedIn && !p.stoppedOut
    ensures |p.got| < p.limit && |p.got| <= |source| && p.got == source[..|p.got|]
  {
    hide Possible, After, Planned, CanStall, StallingMoves, Runs, End, Pump.Core;
    PlannedFine(p, |source|);
    var s := Planned(p, |source|);
    Stalls(s);
    Play(p, source, StallingMoves(s));
  }

  lemma PlannedFine(p: Pump, total: nat)
    requires CanStart(p.limit, p.ioBufsize, p.th)
    ensures Fine(Planned(p, total))
  {
    hide CanStart, Chosen, BufferSize;
    StartedSane(p.limit, p.ioBufsize, p.th);
  }

  lemma WantedIsAsked(p: Pump, source: seq<Byte>, s: Setup)
    requires Copying(p, source, s) && p.active && !p.flushing
    ensures p.fifo.use <= s.size && |p.got| < s.limit && p.Wanted() == Asked(View(p), s)
  {
    hide Sane, Pump.Reported;
  }

  /** A polled direction has something to do. */
  lemma Usable(p: Pump, source: seq<Byte>, s: Setup)
    requires Copying(p, source, s) && p.active && Steady(View(p), s)
    ensures p.currReading ==> p.fifo.Free() > 0
    ensures p.currWriting ==> p.Offered() > 0
  {
    p.Facts();
  }

  /** The move a schedule selects. */
  method Next(p: Pump, readFirst: bool, amount: nat, ghost source: seq<Byte>, total: nat, ghost s: Setup)
      returns (m: Move)
    requires Copying(p, source, s) && p.active && Steady(View(p), s) && total == |source|
    ensures m == Selected(View(p), s, readFirst, amount)
  {
    hide Pump.Core, Pump.Valid, Sane, Pump.Wanted, Asked, Possible;
    p.Facts();
    Usable(p, source, s);
    if p.currReading && (readFirst || !p.currWriting) {
      WantedIsAsked(p, source, s);
      p.WantedBounds();
      var rest := total - p.src.transferred;
      var wanted := p.Wanted();
      var most := if rest < wanted then rest else wanted;
      m := Read(if rest == 0 then 0 else 1 + amount % most);
    } else {
      m := Write(1 + amount % p.Offered());
    }
  }

  lemma CopyingFine(p: Pump, source: seq<Byte>, s: Setup)
    requires Copying(p, source, s)
    ensures Fine(s) && s.total == |source| && s.limit == p.limit && (View(p).Going? <==> p.active)
  {
  }

  /** Where a job that cannot stall ends. */
  lemma Completed(p: Pump, source: seq<Byte>, s: Setup)
    requires Copying(p, source, s) && Steady(View(p), s) && !p.active
    ensures p.isDead && p.put == p.got == source[..Min(s.limit, |source|)]
    ensures ToldEnd(p, InputEnd(s))
  {
    hide Pump.Valid;
  }

  /** Whatever the order of the events and whatever parts of the requests the two descriptors satisfy, a job that
      cannot stall ends after a bounded number of events, and then the destination has exactly the first bytes of the
      source. */
  method CopyAll(p: Pump, source: seq<Byte>, readFirst: nat -> bool, amount: nat -> nat) returns (steps: nat)
    requires Ready(p) && !CanStall(Planned(p, |source|))
    modifies p, p.src, p.dest, p.fifo, p.fifo.base
    ensures p.Valid() && p.isDead && p.limit == old(p.limit) > 0
    ensures p.put == p.got == source[..Min(old(p.limit), |source|)]
    ensures steps <= 2 * Min(old(p.limit), |source|) + 1
    ensures ToldEnd(p, if |source| < old(p.limit) then Read0 else Limit)
  {
    hide View, Possible, After, Planned, CanStall, Copying, Steady, Left, Selected, Sane;
    ghost var s := Begin(p, source);
    CopyingFine(p, source, s);
    SteadyStart(s);
    steps := 0;
    while p.active
      invariant Copying(p, source, s) && Steady(View(p), s) && p.limit == old(p.limit)
      invariant p.fifo.base == old(p.fifo.base) || fresh(p.fifo.base)
      invariant 0 <= Left(View(p), s) && steps + Left(View(p), s) <= 2 * Goal(s) + 1
      decreases Left(View(p), s)
    {
      CopyingFine(p, source, s);
      var m := Next(p, readFirst(steps), amount(steps), source, |source|, s);
      SteadyAfter(View(p), m, s);
      SteadyKept(View(p), s);
      LeftShrinks(View(p), m, s);
      Perform(p, source, m, s);
      steps := steps + 1;
    }
    Completed(p, source, s);
    StillValid(p, source, s);
  }

  lemma StillValid(p: Pump, source: seq<Byte>, s: Setup)
    requires Copying(p, source, s)
    ensures p.Valid()
  {
  }

  lemma BufferIsRest(p: Pump)
    requires p.Valid()
    ensures p.active ==> p.fifo.use == |p.got| - |p.put| && (p.flushing ==> p.fifo.use > 0)
    ensures p.isDead && p.fifo.use == 0 ==> p.put == p.got
  {
    if p.active { p.Facts(); }
    if p.isDead && p.fifo.use == 0 { p.Emptied(); }
  }

  /** The hangup itself. */
  method EndInput(p: Pump)
    requires p.Valid() && p.active && !p.flushing && !p.stoppedIn && !p.stoppedOut
    modifies p, p.src, p.dest, p.fifo, p.fifo.base
    ensures p.Valid() && p.fifo.base == old(p.fifo.base) && p.got == old(p.got) && p.put == old(p.put)
    ensures p.active <==> old(p.fifo.use) > 0
    ensures p.active ==>
              p.flushing && !p.currReading && p.currWriting == old(p.currWriting) && !p.stoppedIn && !p.stoppedOut
    ensures !p.active ==> p.isDead && p.put == p.got
  {
    hide Pump.Valid, Pump.Core, Sane, ReadsOn, WritesOn;
    BufferIsRest(p);
    var _ := p.HandleFDNotify(Input, false, true, false, Data([]), Took(0));
    BufferIsRest(p);
  }

  /** While it is polled, the output takes what is left. */
  method Drain(p: Pump, amount: nat -> nat)
    requires p.Valid() && p.active && p.flushing && !p.currReading && p.currWriting && !p.stoppedIn && !p.stoppedOut
    modifies p, p.src, p.dest, p.fifo, p.fifo.base
    ensures p.Valid() && p.isDead && p.got == old(p.got) && p.put == p.got
  {
    hide Pump.Valid, Pump.Core, Sane, ReadsOn;
    var i := 0;
    BufferIsRest(p);
    while p.active
      invariant p.Valid() && p.got == old(p.got) && p.fifo.base == old(p.fifo.base)
      invariant p.active ==> p.flushing && p.currWriting && !p.stoppedIn && !p.stoppedOut
      invariant p.active ==> p.fifo.use == |p.got| - |p.put| && p.fifo.use > 0
      invariant !p.active ==> p.isDead && p.put == p.got
      decreases p.active, |p.got| - |p.put|
    {
      var k := 1 + amount(i) % p.Offered();
      var _ := p.HandleFDNotify(Output, true, false, false, Data([]), Took(k));
      BufferIsRest(p);
      i := i + 1;
    }
  }

  /** The input hangs up: what is in the buffer is still written exactly if the output is polled at that moment, or
      there is nothing in it. Otherwise the job stays as it is, with neither end polled. */
  method HangUp(p: Pump, amount: nat -> nat)
    requires p.Valid() && p.active && !p.flushing && !p.stoppedIn && !p.stoppedOut
    modifies p, p.src, p.dest, p.fifo, p.fifo.base
    ensures p.got == old(p.got)
    ensures if old(p.fifo.use) == 0 || old(p.currWriting) then p.isDead && p.put == p.got
            else p.active && p.flushing && !p.currReading && !p.currWriting && p.put == old(p.put) != p.got
  {
    hide Pump.Valid, Pump.Core, Sane, ReadsOn, WritesOn;
    BufferIsRest(p);
    EndInput(p);
    if p.active && p.currWriting { Drain(p, amount); }
  }

  /** A source that hangs up before writing goes on leaves a job, whatever its thresholds, that has what it read in the
      buffer and polls neither end. */
  method HangUpEarly(p: Pump, source: seq<Byte>, k: nat)
    requires Ready(p)
    requires var s := Planned(p, |source|);
            0 < k < s.t.highWrite && k < s.limit && Possible(PumpPolicy.START, Read(k), s)
    modifies p, p.src, p.dest, p.fifo, p.fifo.base
    ensures p.active && p.flushing && !p.currReading && !p.currWriting
    ensures p.got == source[..k] && p.put == []
  {
    ghost var s := Begin(p, source);
    PerformRead(p, source, k, s);
    HangUp(p, i => 0);
  }

  // ----- stopping and continuing

  /** An event at one end, and what a call on that end would do. */
  datatype Knock = Knock(side: Side, ready: bool, hup: bool, err: bool, rio: ReadResult, wio: WriteResult)

  /** An event at an end of those named, as the surroundings can deliver it. */
  predicate CanKnock(p: Pump, k: Knock, input: bool, output: bool)
    reads p, p.src, p.dest, p.fifo, p.fifo.base
    requires p.Valid() && p.active
  {
    && (if k.side.Input? then input && !p.flushing else output)
    && (k.side.Input? && k.rio.Data? ==> |k.rio.bytes| <= p.Wanted())
    && (k.side.Output? && k.wio.Took? ==> k.wio.count <= p.Offered())
  }

  /** A running job is stopped at one end or both, events of any kind arrive there, and the job is continued: it goes
      on as it was, and nothing was moved or told. Only the polling is decided anew, for a stopped end as if it had not
      been polled. */
  method PauseAndResume(p: Pump, input: bool, output: bool, knocks: seq<Knock>)
    requires p.Valid() && p.active && (input || output)
    requires !(input && p.stoppedIn) && !(output && p.stoppedOut)
    requires forall i :: 0 <= i < |knocks| ==> CanKnock(p, knocks[i], input, output)
    modifies p, p.src, p.dest, p.fifo, p.fifo.base
    ensures p.Valid() && p.active && !p.isDead && p.flushing == old(p.flushing)
    ensures p.stoppedIn == old(p.stoppedIn) && p.stoppedOut == old(p.stoppedOut)
    ensures p.got == old(p.got) && p.put == old(p.put) && unchanged(p.fifo) && unchanged(p.fifo.base)
    ensures p.persistentSc == old(p.persistentSc) && p.notified == old(p.notified)
    ensures p.limit == old(p.limit) && p.th == old(p.th) && p.ioBufsize == old(p.ioBufsize)
    ensures p.currReading ==
            ReadsOn(p.th, p.fifo.use, p.flushing, p.stoppedIn, if input then false else old(p.currReading))
    ensures p.currWriting ==
            WritesOn(p.th, p.fifo.use, p.flushing, p.stoppedOut, if output then false else old(p.currWriting))
  {
    hide Pump.Valid, Pump.Core, Sane;
    p.SaneNow();
    var _ := p.Control(Stop(input, output), GRANTED);
    Ignore(p, input, output, knocks);
    var _ := p.Control(Cont(input, output), GRANTED);
  }

  /** A stopped end is deaf. */
  method Ignore(p: Pump, ghost input: bool, ghost output: bool, knocks: seq<Knock>)
    requires p.Valid() && p.active && (input ==> p.stoppedIn) && (output ==> p.stoppedOut)
    requires forall i :: 0 <= i < |knocks| ==> CanKnock(p, knocks[i], input, output)
    modifies p, p.src, p.dest, p.fifo, p.fifo.base
    ensures p.Valid() && unchanged(p) && unchanged(p.fifo) && unchanged(p.fifo.base)
    ensures unchanged(p.src) && unchanged(p.dest)
  {
    hide Pump.Valid;
    var i := 0;
    while i < |knocks|
      invariant p.Valid() && unchanged(p) && unchanged(p.fifo) && unchanged(p.fifo.base)
      invariant unchanged(p.src) && unchanged(p.dest)
    {
      var k := knocks[i];
      assert CanKnock(p, k, input, output);
      var _ := p.HandleFDNotify(k.side, k.ready, k.hup, k.err, k.rio, k.wio);
      i := i + 1;
    }
  }
}
