/** The pump that copies from one file descriptor to another through a ring buffer. */
module CopyPump {
  import opened Bytes
  import opened Fifo
  import opened PumpPolicy

  const EINTR := 4
  const EWOULDBLOCK := 11
  const EPIPE := 32

  /** Status bits passed to the client. */
  datatype Code = Final | Limit | Killed | Term | InHup | OutHup | InPipe | OutPipe | Read0 | Write0
    | ErrPollI | ErrPollO | ErrRead | ErrWrite

  predicate IsError(c: Code) {
    c.ErrPollI? || c.ErrPollO? || c.ErrRead? || c.ErrWrite?
  }

  /** Endings in which bytes that were read may be left unwritten. */
  predicate IsOutputFailure(c: Code) {
    c.OutHup? || c.OutPipe? || c.Write0? || c.ErrPollO? || c.ErrWrite? || c.Killed?
  }

  datatype Side = Input | Output

  datatype Command = Start | TermIt | KillIt | Stop(input: bool, output: bool) | Cont(input: bool, output: bool)

  // ----- the pump

  /** What the surroundings answer at the start: poll ids given, memory available, no other pump there, events set. */
  datatype Answers = Answers(ids: bool, room: bool, granted: bool, controlled: bool)


  /** One end: a descriptor, the most bytes a call may move (0 is no limit), and the bytes moved so far. */
  class CopyIO {
    const maxIolen: nat
    var transferred: nat

    constructor (maxIolen: nat)
      ensures this.maxIolen == maxIolen && transferred == 0
    {
      this.maxIolen, transferred := maxIolen, 0;
    }
  }

  class Pump {
    const src: CopyIO
    const dest: CopyIO
    const fifo: FifoBuffer
    var limit: int
    var ioBufsize: nat
    var th: Thresholds
    var active: bool
    var stoppedIn: bool
    var stoppedOut: bool
    var isDead: bool
    var flushing: bool
    var currReading: bool
    var currWriting: bool
    var persistentSc: set<Code>
    /** What the client was told. */
    var notified: seq<set<Code>>
    /** All bytes read from the source and all bytes written to the destination. */
    ghost var got: seq<Byte>
    ghost var put: seq<Byte>
    /** What the last read asked for. */
    ghost var asked: nat

    constructor (src: CopyIO, dest: CopyIO, limit: int, ioBufsize: nat, th: Thresholds)
      requires src != dest && src.transferred == 0 && dest.transferred == 0
      ensures Valid() && !active && !isDead && fresh(fifo) && fresh(fifo.base)
      ensures this.src == src && this.dest == dest && this.limit == limit && this.ioBufsize == ioBufsize
      ensures this.th == th
    {
      this.src, this.dest, this.limit, this.ioBufsize, this.th := src, dest, limit, ioBufsize, th;
      fifo := new FifoBuffer(0);
      active, isDead, flushing := false, false, false;
      stoppedIn, stoppedOut, currReading, currWriting := false, false, false, false;
      persistentSc, notified, got, put := {}, [], [], [];
    }

    /** Nothing is lost, repeated or reordered: what was read is what was written and then what is in the buffer. */
    ghost predicate Conserved()
      reads `active, `isDead, `got, `put, src, dest, fifo, fifo.base
    {
      fifo.Valid() && src.transferred == |got| && dest.transferred == |put|
      && (if active || isDead then got == put + fifo.Contents() else got == [] && put == [])
    }

    /** A positive limit is never exceeded. */
    ghost predicate Limited()
      reads `active, `isDead, `limit, `got
    {
      limit > 0 && (active || isDead) ==> |got| <= limit
    }

    /** The client hears the final status exactly once, at the end; unless that names an output failure, all bytes
        read have been written. */
    ghost predicate Reported()
      reads `active, `isDead, `persistentSc, `notified, `got, `put
    {
      && !(active && isDead) && Final !in persistentSc
      && (forall i :: 0 <= i < |notified| && Final in notified[i] ==> isDead && i == |notified| - 1)
      && (isDead ==> notified != [] && Final in notified[|notified| - 1])
      && (isDead && (forall c :: c in notified[|notified| - 1] ==> !IsOutputFailure(c)) ==> put == got)
      && (forall c :: c in persistentSc ==> !IsOutputFailure(c))
    }

    /** What holds even inside a step. */
    ghost predicate Core()
      reads this, src, dest, fifo, fifo.base
    {
      src != dest && Conserved() && Limited() && Reported()
      && (!active ==> !currReading && !currWriting && !stoppedIn && !stoppedOut)
      && (currReading ==> !flushing && !stoppedIn) && (currWriting ==> !stoppedOut)
      && (active ==> limit >= 0 && fifo.base.Length > 0 && fifo.use <= fifo.base.Length && Sane(th, fifo.base.Length))
    }

    /** Between steps, an active job that is not yet flushing has not reached its limit, and one that is flushing
        still has bytes. */
    ghost predicate Valid()
      reads this, src, dest, fifo, fifo.base
    {
      Core() && (active ==> if flushing then fifo.use > 0 else limit == 0 || |got| < limit)
    }

    /** One end has finished with a status: the job goes on flushing, or it is over; what the client is told, and the
        return value. */
    ghost predicate Finished(side: Side, code: Code, was: seq<set<Code>>, sc: set<Code>, rv: int)
      reads `active, `isDead, `flushing, `notified, `persistentSc, fifo
    {
      if side.Input? && fifo.use > 0
      then rv == 0 && active && flushing && persistentSc == sc + {code} && notified == was + [persistentSc]
      else rv == (if IsError(code) then -1 else 1) && !active && isDead && notified == was + [{code, Final} + sc]
    }

    /** Some direction is polled; a polled read has room and a polled write has bytes. */
    ghost predicate Lively()
      reads this, fifo, fifo.base
    {
      (currReading || currWriting) && (currReading ==> fifo.use < fifo.base.Length) && (currWriting ==> fifo.use > 0)
    }

    /** Fix the buffer size and the thresholds of the next job. */
    method PickThresholds()
      requires limit >= 0
      modifies this`ioBufsize, this`th
      ensures ioBufsize == BufferSize(limit, old(ioBufsize)) && th == Chosen(old(th), ioBufsize)
    {
      if ioBufsize < 32 { ioBufsize := 32; }
      if limit < ioBufsize { ioBufsize := limit; }
      var iobs := ioBufsize;
      if iobs < 32 {
        th := Thresholds(iobs / 8, iobs, 0, iobs - iobs / 8);
      } else if th.lowRead < 0 && th.lowWrite < 0 && th.highRead < 0 && th.highWrite < 0 {
        th := Thresholds(iobs / 4, iobs - iobs / 8, iobs / 8, iobs - iobs / 4);
      }
    }

    method CheckSetup() returns (rv: int)
      modifies this`ioBufsize, this`th
      ensures rv == if CanStart(limit, old(ioBufsize), old(th)) then 0 else -5
      ensures rv == 0 ==> ioBufsize == BufferSize(limit, old(ioBufsize)) && th == Chosen(old(th), ioBufsize)
    {
      hide BufferSize, Chosen;
      if limit < 0 { return -5; }
      PickThresholds();
      if ioBufsize >= 32 && th.lowRead + 4 >= th.highWrite { return -5; }
      if th.lowRead >= th.highRead || th.lowWrite >= th.highWrite || th.lowRead < 0 || th.lowWrite < 0
        || th.highRead > ioBufsize || th.highWrite > ioBufsize
      {
        return -5;
      }
      return 0;
    }

    /** Choose the thresholds and get the buffer; -5 and -4 if that fails. */
    method StartSetup(room: bool) returns (rv: int)
      requires fifo.Valid()
      modifies `ioBufsize, `th, fifo
      ensures rv == if !CanStart(limit, old(ioBufsize), old(th)) then -5 else if !room then -4 else 0
      ensures fifo.Valid() && (rv == -5 ==> unchanged(fifo)) && (rv != -5 ==> fifo.Contents() == [] && fresh(fifo.base))
      ensures rv == 0 ==>
                fifo.base.Length == BufferSize(limit, old(ioBufsize)) && th == Chosen(old(th), fifo.base.Length)
      ensures rv == 0 ==> Sane(th, fifo.base.Length) && 0 < fifo.base.Length <= limit && fifo.use == 0
    {
      hide CanStart, Chosen, BufferSize, Window;
      if CanStart(limit, ioBufsize, th) { StartedSane(limit, ioBufsize, th); }
      rv := CheckSetup();
      if rv != 0 { return; }
      fifo.Clear();
      if !room {
        fifo.ResizeBuf(0);
        return -4;
      }
      fifo.ResizeBuf(ioBufsize);
    }

    /** Start the job: 0; 1 if it is running, -1 without poll ids or events, -3 if another pump uses them, or a return
        value of the setup. */
    method StartJob(a: Answers) returns (rv: int)
      requires Valid() && !isDead
      modifies this, fifo
      ensures Valid() && !isDead && limit == old(limit) && got == old(got) && put == old(put)
      ensures notified == old(notified)
      ensures fifo.base == old(fifo.base) || fresh(fifo.base)
      ensures rv == if old(active) then 1 else if !a.ids then -1
                    else if !CanStart(limit, old(ioBufsize), old(th)) then -5
                    else if !a.room then -4 else if !a.granted then -3 else if !a.controlled then -1 else 0
      ensures (active <==> rv >= 0) && (rv == 1 ==> unchanged(this) && unchanged(fifo))
      ensures rv == 0 ==>
                fifo.base.Length == BufferSize(limit, old(ioBufsize)) <= limit
                && th == Chosen(old(th), fifo.base.Length)
      ensures rv == 0 ==> currReading && !currWriting && !flushing && fifo.use == 0 && got == [] && persistentSc == {}
      ensures rv == 0 ==> !stoppedIn && !stoppedOut && Lively()
    {
      hide Chosen, CanStart, Sane, Window, FifoBuffer.Valid, BufferSize, Reported, Limited;
      if active { return 1; }
      if !a.ids { return -1; }
      Idle();
      rv := StartSetup(a.room);
      if rv != 0 { return; }
      if !a.granted { return -3; }
      if !a.controlled { return -1; }
      Begin();
    }

    /** An idle pump may have any buffer that is in order. */
    lemma Idle()
      requires Core() && !active && !isDead
      ensures fifo.Valid() && got == [] && put == [] && src.transferred == 0 && dest.transferred == 0
    {
    }

    /** Poll the input and mark the job active. */
    method Begin()
      requires src != dest && fifo.Valid() && fifo.use == 0 && src.transferred == 0 && dest.transferred == 0
      requires got == [] && put == []
      requires !active && !isDead && !stoppedIn && !stoppedOut && Reported()
      requires Sane(th, fifo.base.Length) && 0 < fifo.base.Length <= limit
      modifies `currReading, `currWriting, `active, `flushing, `persistentSc
      ensures Valid() && active && currReading && !currWriting && !flushing && persistentSc == {}
    {
      hide Sane;
      assert fifo.Contents() == [];
      currReading, currWriting := true, false;
      active, flushing, persistentSc := true, false, {};
    }

    method DecideInput()
      modifies `currReading
      ensures currReading == ReadsOn(th, fifo.use, flushing, stoppedIn, old(currReading))
    {
      if currReading {
        if fifo.use >= th.highRead || flushing || stoppedIn { currReading := false; }
      } else if !flushing && fifo.use <= th.lowRead && !stoppedIn {
        currReading := true;
      }
    }

    method DecideOutput()
      modifies `currWriting
      ensures currWriting == WritesOn(th, fifo.use, flushing, stoppedOut, old(currWriting))
    {
      if !currWriting {
        if (fifo.use >= th.highWrite || flushing) && !stoppedOut { currWriting := true; }
      } else if (fifo.use <= th.lowWrite && !flushing) || stoppedOut {
        currWriting := false;
      }
    }

    /** Poll or stop polling each end as the thresholds say. */
    method ReDecidePollEvents()
      requires Valid() && active
      modifies `currReading, `currWriting
      ensures Valid()
      ensures currReading == ReadsOn(th, fifo.use, flushing, stoppedIn, old(currReading))
      ensures currWriting == WritesOn(th, fifo.use, flushing, stoppedOut, old(currWriting))
      ensures Ordered(th) && !stoppedIn && !stoppedOut && (old(currReading) || old(currWriting) || flushing) ==>
                Lively()
    {
      hide Conserved, Limited, Reported, Sane, Ordered, FifoBuffer.Valid;
      if Ordered(th) && (currReading || currWriting || flushing) {
        StaysLively(th, fifo.base.Length, fifo.use, flushing, currReading, currWriting);
      }
      DecideInput();
      DecideOutput();
    }

    method Cleanup()
      modifies this`currReading, this`currWriting, this`active, this`stoppedIn, this`stoppedOut, this`isDead
      ensures !currReading && !currWriting && !active && !stoppedIn && !stoppedOut && isDead
    {
      currReading, currWriting := false, false;
      active, stoppedIn, stoppedOut := false, false, false;
      isDead := true;
    }

    /** The input or the whole job is over: with bytes left, only stop the input and go on writing. */
    method FinishJob(side: Side, code: Code) returns (rv: int)
      requires Core() && active && code != Final
      requires if side.Input? then !IsOutputFailure(code) else IsOutputFailure(code) || fifo.use == 0
      modifies this
      ensures Valid() && fifo.base == old(fifo.base) && limit == old(limit) && th == old(th) && got == old(got)
      ensures put == old(put) && asked == old(asked)
      ensures Finished(side, code, old(notified), old(persistentSc), rv)
      ensures active ==>
                !currReading && currWriting == old(currWriting) && stoppedOut == old(stoppedOut)
                && stoppedIn == old(stoppedIn)
    {
      hide Sane, FifoBuffer.Valid, Conserved, Limited, Reported, IsError, IsOutputFailure;
      if side.Input? && fifo.use > 0 {
        StartFlushing(code);
        return 0;
      }
      EndJob(code);
      rv := if IsError(code) then -1 else 1;
    }

    /** Stop the input, go on writing, and tell the client. */
    method StartFlushing(code: Code)
      requires Core() && active && code != Final && !IsOutputFailure(code) && fifo.use > 0
      modifies `flushing, `currReading, `persistentSc, `notified
      ensures Valid() && flushing && !currReading && persistentSc == old(persistentSc) + {code}
      ensures notified == old(notified) + [persistentSc]
    {
      hide Sane, FifoBuffer.Valid, Conserved, Limited, IsOutputFailure;
      flushing := true;
      if currReading { currReading := false; }
      persistentSc := persistentSc + {code};
      notified := notified + [persistentSc];
    }

    /** End the job completely and tell the client. */
    method EndJob(code: Code)
      requires Core() && active && code != Final && (IsOutputFailure(code) || fifo.use == 0)
      modifies this
      ensures Valid() && !active && isDead && limit == old(limit) && th == old(th) && got == old(got) && put == old(put)
      ensures notified == old(notified) + [{code, Final} + old(persistentSc)] && asked == old(asked)
    {
      hide Sane, FifoBuffer.Valid, IsOutputFailure;
      Drained();
      Cleanup();
      var last := {code, Final} + persistentSc;
      assert code in last;
      notified := notified + [last];
    }

    lemma Drained()
      requires Core() && active
      ensures put == got <==> fifo.use == 0
    {
      assert |got| == |put| + fifo.use;
      if fifo.use == 0 { assert fifo.Contents() == []; }
    }

    /** What the next read asks for. */
    function Wanted(): nat
      reads this, src, dest, fifo, fifo.base
      requires Valid() && active && !flushing
    {
      var w := fifo.Free();
      var m := if src.maxIolen > 0 && w > src.maxIolen then src.maxIolen else w;
      if limit > 0 && src.transferred + m >= limit then limit - src.transferred else m
    }

    /** Whether a read with this outcome is the last one. */
    static predicate LastRead(io: ReadResult, limitReached: bool) {
      if io.Data? then io.bytes == [] || limitReached else io.errno != EINTR && io.errno != EWOULDBLOCK
    }

    static function ReadCode(io: ReadResult): Code {
      if io.Data? then (if io.bytes == [] then Read0 else Limit) else if io.errno == EPIPE then InPipe else ErrRead
    }

    /** Whether a write with this outcome ends the job. */
    static predicate LastWrite(io: WriteResult, drained: bool) {
      if io.Took? then io.count == 0 || drained else io.errno != EINTR && io.errno != EWOULDBLOCK
    }

    static function WriteCode(io: WriteResult): Code {
      if io.Took? then (if io.count == 0 then Write0 else Limit) else if io.errno == EPIPE then OutPipe else ErrWrite
    }

    static function PollCode(side: Side, hup: bool): Code {
      if hup then (if side.Input? then InHup else OutHup) else if side.Input? then ErrPollI else ErrPollO
    }

    /** Each status names one cause. */
    static lemma CodesNameCauses(rio: ReadResult, wio: WriteResult, side: Side, hup: bool)
      ensures ReadCode(rio) == Read0 <==> rio == Data([])
      ensures ReadCode(rio) == Limit <==> rio.Data? && rio.bytes != []
      ensures ReadCode(rio) == InPipe <==> !rio.Data? && rio.errno == EPIPE
      ensures ReadCode(rio) == ErrRead <==> !rio.Data? && rio.errno != EPIPE
      ensures WriteCode(wio) == Write0 <==> wio == Took(0)
      ensures WriteCode(wio) == Limit <==> wio.Took? && wio.count > 0
      ensures WriteCode(wio) == OutPipe <==> !wio.Took? && wio.errno == EPIPE
      ensures WriteCode(wio) == ErrWrite <==> !wio.Took? && wio.errno != EPIPE
      ensures PollCode(side, hup) == InHup <==> side.Input? && hup
      ensures PollCode(side, hup) == OutHup <==> side.Output? && hup
      ensures PollCode(side, hup) == ErrPollI <==> side.Input? && !hup
      ensures PollCode(side, hup) == ErrPollO <==> side.Output? && !hup
    {
    }

    /** The read itself and its bookkeeping. */
    method Take(wantMax: nat, io: ReadResult) returns (rd: int)
      requires Valid() && active && !flushing && 0 < wantMax <= fifo.Free() && (limit > 0 ==> |got| + wantMax <= limit)
      requires io.Data? ==> |io.bytes| <= wantMax
      modifies `got, `asked, src, fifo, fifo.base
      ensures asked == wantMax
      ensures Core() && fifo.base == old(fifo.base) && (limit > 0 ==> |got| <= limit)
      ensures rd == if io.Data? then |io.bytes| else -1
      ensures got == old(got) + (if io.Data? then io.bytes else [])
      ensures fifo.use == old(fifo.use) + if rd > 0 then rd else 0
    {
      hide Sane, Window;
      asked := wantMax;
      rd := fifo.ReadFD(wantMax, io);
      if rd > 0 {
        src.transferred := src.transferred + rd;
        got := got + io.bytes;
      }
    }

    /** A read; after the last one only what is in the buffer is left to write, if anything. */
    method ReadInData(io: ReadResult) returns (rv: int)
      requires Valid() && active && !flushing && (io.Data? ==> |io.bytes| <= Wanted())
      modifies this, src, fifo, fifo.base
      ensures Valid() && fifo.base == old(fifo.base) && limit == old(limit) && th == old(th) && put == old(put)
      ensures got == old(got) + if io.Data? then io.bytes else []
      ensures old(fifo.Free()) > 0 ==> asked == old(Wanted())
      ensures (rv == 0 <==> active) && (active || isDead)
      ensures active ==> stoppedIn == old(stoppedIn) && stoppedOut == old(stoppedOut)
      ensures active ==> (currReading == old(currReading) || flushing) && currWriting == old(currWriting)
      ensures if old(fifo.Free()) > 0 && LastRead(io, limit > 0 && |got| == limit)
              then Finished(Input, ReadCode(io), old(notified), old(persistentSc), rv)
              else active && !flushing && notified == old(notified) && persistentSc == old(persistentSc)
    {
      hide Sane, Conserved, Limited, Reported;
      Counted();
      var wantMax := fifo.Free();
      if wantMax == 0 { return 0; }
      if src.maxIolen > 0 && wantMax > src.maxIolen { wantMax := src.maxIolen; }
      var reachedLimit := false;
      if limit > 0 && src.transferred + wantMax >= limit {
        wantMax := limit - src.transferred;
        reachedLimit := true;
      }
      var rd := Take(wantMax, io);
      if rd < 0 {
        if io.errno == EINTR || io.errno == EWOULDBLOCK { return 0; }
        rv := FinishJob(Input, if io.errno == EPIPE then InPipe else ErrRead);
        return;
      }
      if rd > 0 && (!reachedLimit || rd < wantMax) { return 0; }
      rv := FinishJob(Input, if rd > 0 then Limit else Read0);
    }

    lemma Counted()
      requires Core()
      ensures src.transferred == |got| && dest.transferred == |put| && fifo.Valid()
    {
    }

    /** The most a write may take. */
    function Offered(): nat
      reads dest, fifo
    {
      if dest.maxIolen > 0 && fifo.use > dest.maxIolen then dest.maxIolen else fifo.use
    }

    /** The write itself and its bookkeeping. */
    method Give(io: WriteResult) returns (wr: int)
      requires Valid() && active && (io.Took? ==> io.count <= Offered())
      modifies `put, dest, fifo
      ensures Core() && fifo.base == old(fifo.base)
      ensures wr == if io.Took? then io.count else -1
      ensures put == old(put) + (if io.Took? then old(fifo.Contents())[..io.count] else [])
      ensures fifo.use == old(fifo.use) - if wr > 0 then wr else 0
    {
      hide Sane, Window, FifoBuffer.Valid;
      ghost var c := fifo.Contents();
      var out;
      wr, out := fifo.WriteFD(dest.maxIolen, io);
      if wr >= 0 { Moved(put, c, wr); }
      if wr > 0 {
        dest.transferred := dest.transferred + wr;
        put := put + out;
      }
    }

    static lemma Moved(a: seq<Byte>, c: seq<Byte>, k: nat)
      requires k <= |c|
      ensures a + c == a + c[..k] + c[k..] && (k == 0 ==> c[..k] == [] && c[k..] == c && a + c[..k] == a)
    {
    }

    /** A write; the one that empties the buffer of a job that is flushing ends the job, and then all bytes read are
        written. */
    method WriteOutData(io: WriteResult) returns (rv: int)
      requires Valid() && active && (io.Took? ==> io.count <= Offered())
      modifies this, dest, fifo
      ensures Valid() && fifo.base == old(fifo.base) && limit == old(limit) && th == old(th) && got == old(got)
      ensures put == old(put) + if io.Took? then old(fifo.Contents())[..io.count] else []
      ensures (rv == 0 <==> active) && (active || isDead)
      ensures active ==> stoppedIn == old(stoppedIn) && stoppedOut == old(stoppedOut) && flushing == old(flushing)
      ensures active ==> currReading == old(currReading) && currWriting == old(currWriting)
      ensures if old(fifo.use) > 0 && LastWrite(io, old(flushing) && put == got)
              then Finished(Output, WriteCode(io), old(notified), old(persistentSc), rv)
              else active && notified == old(notified) && persistentSc == old(persistentSc)
    {
      hide Sane, Conserved, Limited, Reported;
      if fifo.use == 0 { return 0; }
      var wr := Give(io);
      Drained();
      if wr < 0 {
        if io.errno == EINTR || io.errno == EWOULDBLOCK { return 0; }
        rv := FinishJob(Output, if io.errno == EPIPE then OutPipe else ErrWrite);
        return;
      }
      if wr > 0 && (!flushing || fifo.use > 0) { return 0; }
      rv := FinishJob(Output, if wr > 0 then Limit else Write0);
    }

    /** The input has ended twice over: by its last read and by a hangup or a poll error. */
    ghost predicate FinishedTwice(code: Code, poll: Code, was: seq<set<Code>>, sc: set<Code>)
      reads `active, `flushing, `notified, `persistentSc
    {
      active && flushing && persistentSc == sc + {code, poll} && notified == was + [sc + {code}, persistentSc]
    }

    /** One end is ready: read or write, and poll anew as the thresholds say. */
    method ServeReady(side: Side, rio: ReadResult, wio: WriteResult) returns (rv: int)
      requires Valid() && active && (side.Input? ==> !flushing)
      requires side.Input? && rio.Data? ==> |rio.bytes| <= Wanted()
      requires side.Output? && wio.Took? ==> wio.count <= Offered()
      modifies this, src, dest, fifo, fifo.base
      ensures Valid() && fifo.base == old(fifo.base) && limit == old(limit) && th == old(th)
      ensures (rv == 0 <==> active) && (active || isDead)
      ensures side.Input? ==> put == old(put) && got == old(got) + if rio.Data? then rio.bytes else []
      ensures side.Input? && old(fifo.Free()) > 0 ==> asked == old(Wanted())
      ensures side.Output? ==>
                got == old(got) && put == old(put) + if wio.Took? then old(fifo.Contents())[..wio.count] else []
      ensures active ==> stoppedIn == old(stoppedIn) && stoppedOut == old(stoppedOut)
      ensures active ==>
                currReading == ReadsOn(th, fifo.use, flushing, stoppedIn, old(currReading))
                && currWriting == WritesOn(th, fifo.use, flushing, stoppedOut, old(currWriting))
      ensures old(Lively()) && Ordered(th) && !old(stoppedIn) && !old(stoppedOut) && active ==> Lively()
      ensures side.Input? ==>
                if old(fifo.Free()) > 0 && LastRead(rio, limit > 0 && |got| == limit)
                then Finished(Input, ReadCode(rio), old(notified), old(persistentSc), rv)
                else active && !flushing && notified == old(notified) && persistentSc == old(persistentSc)
      ensures side.Output? ==>
                if old(fifo.use) > 0 && LastWrite(wio, old(flushing) && put == got)
                then Finished(Output, WriteCode(wio), old(notified), old(persistentSc), rv)
                else
                  active && flushing == old(flushing) && notified == old(notified) && persistentSc == old(persistentSc)
    {
      hide Core, Sane, Conserved, Limited, Reported, WritesOn;
      if side.Input? { rv := ReadInData(rio); } else { rv := WriteOutData(wio); }
      if rv == 0 { ReDecidePollEvents(); }
    }

    /** Hand an event to the pump: readiness of one end with what the call then does, a hangup or a poll error. */
    method HandleFDNotify(side: Side, ready: bool, hup: bool, err: bool, rio: ReadResult, wio: WriteResult)
        returns (rv: int)
      requires Valid() && active && (side.Input? ==> !flushing)
      requires side.Input? && rio.Data? ==> |rio.bytes| <= Wanted()
      requires side.Output? && wio.Took? ==> wio.count <= Offered()
      modifies this, src, dest, fifo, fifo.base
      ensures Valid() && fifo.base == old(fifo.base) && limit == old(limit) && th == old(th)
      ensures (rv == 0 <==> active) && (active || isDead)
      ensures side.Input? && ready && !old(stoppedIn) ==>
                put == old(put) && got == old(got) + if rio.Data? then rio.bytes else []
      ensures side.Input? && ready && !old(stoppedIn) && old(fifo.Free()) > 0 ==> asked == old(Wanted())
      ensures side.Output? && ready && !old(stoppedOut) ==>
                got == old(got) && put == old(put) + if wio.Took? then old(fifo.Contents())[..wio.count] else []
      ensures !(ready && !if side.Input? then old(stoppedIn) else old(stoppedOut)) ==>
                got == old(got) && put == old(put)
      ensures active ==> stoppedIn == old(stoppedIn) && stoppedOut == old(stoppedOut)
      ensures (if side.Input? then old(stoppedIn) else old(stoppedOut)) || !(ready || hup || err) ==>
                rv == 0 && unchanged(this) && unchanged(src) && unchanged(dest)
                && unchanged(fifo) && unchanged(fifo.base)
      ensures active && ready && !(if side.Input? then old(stoppedIn) else old(stoppedOut)) && !hup && !err ==>
                currReading == ReadsOn(th, fifo.use, flushing, stoppedIn, old(currReading))
                && currWriting == WritesOn(th, fifo.use, flushing, stoppedOut, old(currWriting))
      ensures old(Lively()) && Ordered(th) && !old(stoppedIn) && !old(stoppedOut) && !hup && !err && active ==> Lively()
      ensures side.Input? && ready && !old(stoppedIn) && !hup && !err ==>
                if old(fifo.Free()) > 0 && LastRead(rio, limit > 0 && |got| == limit)
                then Finished(Input, ReadCode(rio), old(notified), old(persistentSc), rv)
                else active && !flushing && notified == old(notified) && persistentSc == old(persistentSc)
      ensures side.Output? && ready && !old(stoppedOut) && !hup && !err ==>
                if old(fifo.use) > 0 && LastWrite(wio, old(flushing) && put == got)
                then Finished(Output, WriteCode(wio), old(notified), old(persistentSc), rv)
                else
                  active && flushing == old(flushing) && notified == old(notified) && persistentSc == old(persistentSc)
      ensures !ready && (hup || err) && !(if side.Input? then old(stoppedIn) else old(stoppedOut)) ==>
                Finished(side, PollCode(side, hup), old(notified), old(persistentSc), rv)
      ensures side.Output? && ready && !old(stoppedOut) && (hup || err) ==>
                if old(fifo.use) > 0 && LastWrite(wio, old(flushing) && put == got)
                then Finished(Output, WriteCode(wio), old(notified), old(persistentSc), rv)
                else Finished(Output, PollCode(Output, hup), old(notified), old(persistentSc), rv)
      ensures side.Input? && ready && !old(stoppedIn) && (hup || err) ==>
                if !(old(fifo.Free()) > 0 && LastRead(rio, limit > 0 && |got| == limit))
                then Finished(Input, PollCode(Input, hup), old(notified), old(persistentSc), rv)
                else if fifo.use == 0 then Finished(Input, ReadCode(rio), old(notified), old(persistentSc), rv)
                else FinishedTwice(ReadCode(rio), PollCode(Input, hup), old(notified), old(persistentSc))
      ensures side.Input? && !old(stoppedIn) && (hup || err) && active ==>
                flushing && fifo.use > 0 && !currReading
                && (!ready ==> currWriting == old(currWriting))
                && (ready ==>
                  var last := old(fifo.Free()) > 0 && LastRead(rio, limit > 0 && |got| == limit);
                  currWriting == WritesOn(th, fifo.use, last, stoppedOut, old(currWriting)))
    {
      hide Core, Sane, Conserved, Limited, Reported, WritesOn, ReadsOn, Ordered, LastRead, LastWrite, ReadCode,
            WriteCode, FifoBuffer.Valid, Window;
      if (if side.Input? then stoppedIn else stoppedOut) {
        if ready { Unpoll(side); }
        return 0;
      }
      if ready {
        rv := ServeReady(side, rio, wio);
        if rv != 0 { return; }
      }
      if hup || err {
        rv := FinishJob(side, PollCode(side, hup));
        return;
      }
      return 0;
    }

    /** Make sure that a stopped end is not polled; it is not. */
    method Unpoll(side: Side)
      requires Valid() && if side.Input? then stoppedIn else stoppedOut
      modifies `currReading, `currWriting
      ensures Valid() && unchanged(this)
    {
      hide Sane, Conserved, Limited, Reported;
      if side.Input? { currReading := false; } else { currWriting := false; }
    }

    /** Stop or continue one direction or both. */
    method StopContJob(input: bool, output: bool, doStop: bool) returns (rv: int)
      requires Valid() && active && (input || output)
      modifies `stoppedIn, `stoppedOut, `currReading, `currWriting
      ensures Valid() && active
      ensures var already := (input ==> old(stoppedIn)) && (output ==> old(stoppedOut));
              rv == if already == doStop then 1 else 0
      ensures rv == 1 ==> unchanged(this)
      ensures rv == 0 ==>
                (stoppedIn == if input then doStop else old(stoppedIn))
                && (stoppedOut == if output then doStop else old(stoppedOut))
      ensures (stoppedIn ==> !currReading) && (stoppedOut ==> !currWriting)
      ensures rv == 0 ==> currReading == ReadsOn(th, fifo.use, flushing, stoppedIn, old(currReading))
      ensures rv == 0 ==> currWriting == WritesOn(th, fifo.use, flushing, stoppedOut, old(currWriting))
    {
      hide Sane, Conserved, Limited, Reported, FifoBuffer.Valid;
      var already := (input ==> stoppedIn) && (output ==> stoppedOut);
      if already == doStop { return 1; }
      if input { stoppedIn := doStop; }
      if output { stoppedOut := doStop; }
      DecideInput();
      DecideOutput();
      return 0;
    }

    /** The commands of the client. Two of them can leave a running job with nothing polled: continuing both
        directions with a fill between the low threshold of reading and the high one of writing, and ending the input
        while nothing is written. */
    method Control(cc: Command, a: Answers) returns (rv: int)
      requires Valid() && (cc.Stop? || cc.Cont? ==> cc.input || cc.output)
      modifies this, fifo
      ensures Valid() && limit == old(limit) && got == old(got) && put == old(put)
      ensures old(isDead) || (!old(active) && !cc.Start?) ==> rv == -2 && unchanged(this) && unchanged(fifo)
      ensures cc.KillIt? && old(active) ==>
                rv == 0 && isDead && notified == old(notified) + [{Killed, Final} + old(persistentSc)]
      ensures cc.TermIt? && old(active) ==>
                rv == 0
                && if old(fifo.use) > 0 then
                     active && flushing && stoppedIn == old(stoppedIn) && stoppedOut == old(stoppedOut)
                     && !currReading && currWriting == old(currWriting)
                     && persistentSc == old(persistentSc) + {Term} && notified == old(notified) + [persistentSc]
                   else
                     isDead && notified == old(notified) + [{Term, Final} + old(persistentSc)]
      ensures cc.Stop? && old(active) ==>
                rv == (if (cc.input ==> old(stoppedIn)) && (cc.output ==> old(stoppedOut)) then 1 else 0)
                && stoppedIn == (old(stoppedIn) || cc.input) && stoppedOut == (old(stoppedOut) || cc.output)
      ensures cc.Cont? && old(active) ==>
                rv == (if (cc.input ==> old(stoppedIn)) && (cc.output ==> old(stoppedOut)) then 0 else 1)
                && stoppedIn == (old(stoppedIn) && !(rv == 0 && cc.input))
                && stoppedOut == (old(stoppedOut) && !(rv == 0 && cc.output))
      ensures (cc.Stop? || cc.Cont?) && old(active) ==>
                active && !isDead && flushing == old(flushing) && persistentSc == old(persistentSc)
                && notified == old(notified) && th == old(th) && ioBufsize == old(ioBufsize)
      ensures (cc.Stop? || cc.Cont?) && old(active) ==>
                if rv != 0 then unchanged(this)
                else
                  currReading == ReadsOn(th, fifo.use, flushing, stoppedIn, old(currReading))
                  && currWriting == WritesOn(th, fifo.use, flushing, stoppedOut, old(currWriting))
      ensures cc == Cont(true, true) && old(active) && old(stoppedIn) && old(stoppedOut) ==>
                rv == 0 && active
                && (!currReading && !currWriting <==> !flushing && th.lowRead < fifo.use < th.highWrite)
      ensures !cc.Start? ==> unchanged(fifo)
      ensures cc.Start? && !old(isDead) && old(active) ==> rv == 1 && unchanged(this) && unchanged(fifo)
      ensures cc.Start? && !old(isDead) && !old(active) ==>
                rv == if !a.ids then -1 else if !CanStart(limit, old(ioBufsize), old(th)) then -5
                      else if !a.room then -4 else if !a.granted then -3 else if !a.controlled then -1 else 0
      ensures cc.Start? && !old(isDead) && !old(active) ==>
                notified == old(notified) && !isDead && (active <==> rv == 0)
                && (active ==> currReading && !currWriting && !flushing && fifo.use == 0 && !stoppedIn && !stoppedOut)
    {
      hide Sane, Conserved, Limited, Reported, CanStart;
      Settled();
      if isDead || (!active && !cc.Start?) { return -2; }
      match cc
      case Start => rv := StartJob(a);
      case TermIt => var _ := FinishJob(Input, Term); rv := 0;
      case KillIt => var _ := FinishJob(Output, Killed); rv := 0;
      case Stop(input, output) => rv := StopContJob(input, output, true);
      case Cont(input, output) => rv := StopContJob(input, output, false);
    }

    lemma Settled()
      requires Core()
      ensures !(active && isDead)
    {
    }

    lemma SaneNow()
      requires Valid() && active
      ensures th.lowRead < th.highRead && th.lowWrite < th.highWrite
    {
    }

    lemma WantedBounds()
      requires Valid() && active && !flushing && fifo.Free() > 0
      ensures 0 < Wanted() <= fifo.Free() && (limit > 0 ==> |got| + Wanted() <= limit)
    {
    }

    lemma Facts()
      requires Valid() && active
      ensures src.transferred == |got| && fifo.Valid() && (currReading ==> !flushing)
      ensures !flushing ==> limit == 0 || |got| < limit
      ensures |got| == |put| + fifo.use && (flushing ==> fifo.use > 0)
    {
    }

    lemma Emptied()
      requires Valid() && isDead && fifo.use == 0
      ensures put == got
    {
      assert fifo.Contents() == [];
    }
  }
}
