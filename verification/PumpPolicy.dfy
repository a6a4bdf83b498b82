/** When the pump polls its two ends: the thresholds, and what they make of a whole job. */
module PumpPolicy {

  // ----- thresholds

  datatype Thresholds = Thresholds(lowRead: int, highRead: int, lowWrite: int, highWrite: int)

  function BufferSize(limit: nat, size: nat): nat {
    var s := if size < 32 then 32 else size;
    if limit < s then limit else s
  }

  /** The thresholds a job with a buffer of this size uses. */
  function Chosen(t: Thresholds, size: nat): Thresholds {
    if size < 32 then Thresholds(size / 8, size, 0, size - size / 8)
    else if t.lowRead < 0 && t.lowWrite < 0 && t.highRead < 0 && t.highWrite < 0
    then Thresholds(size / 4, size - size / 8, size / 8, size - size / 4)
    else t
  }

  predicate Sane(t: Thresholds, size: nat) {
    && 0 <= t.lowRead < t.highRead <= size && 0 <= t.lowWrite < t.highWrite <= size
    && (size >= 32 ==> t.lowRead + 4 < t.highWrite)
  }

  predicate CanStart(limit: int, size: nat, t: Thresholds) {
    limit >= 0 && var s := BufferSize(limit, size); Sane(Chosen(t, s), s)
  }

  /** A limit of 0 is documented as "unlimited", but such a job is refused; so is a negative one. With a positive
      limit below 32 or with the default thresholds every job can start. */
  lemma StartsExactly(limit: int, size: nat, t: Thresholds)
    ensures limit <= 0 ==> !CanStart(limit, size, t)
    ensures 0 < limit < 32 ==> CanStart(limit, size, t)
    ensures t == Thresholds(-1, -1, -1, -1) ==> (CanStart(limit, size, t) <==> limit > 0)
    ensures limit >= 32 && t.lowRead >= 0 ==>
              (CanStart(limit, size, t) <==>
               var most := BufferSize(limit, size);
               && t.lowRead < t.highRead <= most && 0 <= t.lowWrite < t.highWrite <= most
               && t.highWrite - t.lowRead > 4)
  {
  }

  /** The buffer has the size asked for, but at least 32 bytes, and no more than the limit. */
  lemma SizeIs(limit: nat, size: nat)
    ensures 32 <= size <= limit ==> BufferSize(limit, size) == size
    ensures size < 32 <= limit ==> BufferSize(limit, size) == 32
    ensures limit <= size || limit < 32 ==> BufferSize(limit, size) == limit
  {
  }

  lemma StartedSane(limit: int, size: nat, t: Thresholds)
    requires CanStart(limit, size, t)
    ensures limit > 0 && var s := BufferSize(limit, size); 0 < s <= limit && Sane(Chosen(t, s), s)
  {
  }

  // ----- polling

  predicate ReadsOn(t: Thresholds, use: nat, flushing: bool, stopped: bool, was: bool) {
    if was then !(use >= t.highRead || flushing || stopped) else !flushing && use <= t.lowRead && !stopped
  }

  predicate WritesOn(t: Thresholds, use: nat, flushing: bool, stopped: bool, was: bool) {
    if !was then (use >= t.highWrite || flushing) && !stopped else !((use <= t.lowWrite && !flushing) || stopped)
  }

  predicate Ordered(t: Thresholds) {
    t.lowWrite <= t.lowRead && t.highWrite <= t.highRead
  }

  lemma StaysLively(t: Thresholds, size: nat, use: nat, flushing: bool, reading: bool, writing: bool)
    requires Sane(t, size) && Ordered(t) && use <= size && (flushing ==> use > 0) && (reading || writing || flushing)
    ensures ReadsOn(t, use, flushing, false, reading) || WritesOn(t, use, flushing, false, writing)
    ensures ReadsOn(t, use, flushing, false, reading) ==> use < size
    ensures WritesOn(t, use, flushing, false, writing) ==> use > 0
  {
  }

  /** The defaults: reading goes on at a quarter and off at seven eighths of the buffer, writing goes off at one eighth
      and on at three quarters; what the divisions cut off is in favour of moving bytes in larger parts. In a buffer
      below 32 bytes, reading goes off when it is full and writing when it is empty. */
  lemma ChosenFractions(t: Thresholds, size: nat)
    requires size < 32 || t == Thresholds(-1, -1, -1, -1)
    ensures var c := Chosen(t, size);
            if size >= 32 then
              && 4 * c.lowRead <= size < 4 * (c.lowRead + 1) && 8 * (c.highRead - 1) < 7 * size <= 8 * c.highRead
              && 8 * c.lowWrite <= size < 8 * (c.lowWrite + 1) && 4 * (c.highWrite - 1) < 3 * size <= 4 * c.highWrite
            else
              && 8 * c.lowRead <= size < 8 * (c.lowRead + 1) && c.highRead == size
              && c.lowWrite == 0 && 8 * (c.highWrite - 1) < 7 * size <= 8 * c.highWrite
  {
  }

  lemma ChosenOrdered(t: Thresholds, size: nat)
    requires size > 0 && (size < 32 || t == Thresholds(-1, -1, -1, -1))
    ensures Sane(Chosen(t, size), size) && Ordered(Chosen(t, size))
  {
  }

  // ----- jobs, seen from the thresholds
  //
  // A job is described by its fill, the bytes read so far, what is polled, and whether it is
  // flushing. Its moves are the reads and writes the two descriptors may serve.

  datatype Setup = Setup(t: Thresholds, size: nat, limit: nat, total: nat, readMax: nat, writeMax: nat)

  datatype Job = Over(got: nat) | Going(use: nat, got: nat, reading: bool, writing: bool, flushing: bool)

  /** A read of no bytes is the end of the input. */
  datatype Move = Read(count: nat) | Write(count: nat)

  const START := Going(0, 0, true, false, false)

  predicate Fine(s: Setup) {
    Sane(s.t, s.size) && 0 < s.size <= s.limit
  }

  /** How many bytes the job will copy. */
  function Goal(s: Setup): nat {
    if s.limit < s.total then s.limit else s.total
  }

  /** A maximum of 0 is none. */
  function Capped(a: nat, max: nat): nat {
    if max > 0 && a > max then max else a
  }

  function Asked(j: Job, s: Setup): nat
    requires j.Going? && j.use <= s.size && j.got <= s.limit
  {
    var m := Capped(s.size - j.use, s.readMax);
    if j.got + m >= s.limit then s.limit - j.got else m
  }

  predicate Possible(j: Job, m: Move, s: Setup) {
    j.Going? &&
    match m
    case Read(k) =>
      && j.reading && j.use < s.size && j.got <= s.limit && k <= Asked(j, s)
      && j.got + k <= s.total && (k == 0 ==> j.got == s.total)
    case Write(k) => j.writing && 1 <= k <= Capped(j.use, s.writeMax)
  }

  function Decided(j: Job, use: nat, got: nat, flushing: bool, t: Thresholds): Job
    requires j.Going?
  {
    Going(use, got, ReadsOn(t, use, flushing, false, j.reading), WritesOn(t, use, flushing, false, j.writing), flushing)
  }

  function After(j: Job, m: Move, s: Setup): Job
    requires Possible(j, m, s)
  {
    match m
    case Read(k) =>
      var ends := k == 0 || j.got + k == s.limit;
      if ends && j.use + k == 0 then Over(j.got + k) else Decided(j, j.use + k, j.got + k, j.flushing || ends, s.t)
    case Write(k) =>
      if j.flushing && k == j.use then Over(j.got) else Decided(j, j.use - k, j.got, j.flushing, s.t)
  }

  ghost predicate Runs(moves: seq<Move>, s: Setup)
    decreases |moves|, 0
  {
    moves == [] || (Runs(moves[..|moves| - 1], s) && Possible(End(moves[..|moves| - 1], s), moves[|moves| - 1], s))
  }

  ghost function End(moves: seq<Move>, s: Setup): Job
    requires Runs(moves, s)
    decreases |moves|, 1
  {
    if moves == [] then START else After(End(moves[..|moves| - 1], s), moves[|moves| - 1], s)
  }

  lemma NoMoves(s: Setup)
    ensures Runs([], s) && End([], s) == START
  {
  }

  lemma RunsOn(moves: seq<Move>, m: Move, s: Setup)
    requires Runs(moves, s) && Possible(End(moves, s), m, s)
    ensures Runs(moves + [m], s) && End(moves + [m], s) == After(End(moves, s), m, s)
  {
    assert (moves + [m])[..|moves|] == moves;
  }

  predicate Stuck(j: Job) {
    j.Going? && !j.reading && !j.writing
  }

  /** When a job may get stuck: reading can go off before the limit, and then writing is not on yet, or goes off
      before reading goes on. */
  predicate CanStall(s: Setup) {
    s.total >= s.t.highRead && (s.t.highWrite > s.t.highRead || (s.t.lowWrite > s.t.lowRead && s.t.highRead < s.limit))
  }

  /** What every job keeps: a flushing one only writes; before that reading stops at the high threshold and writing at
      the low one. */
  ghost predicate Kept(j: Job, s: Setup) {
    match j
    case Over(got) => got == Goal(s)
    case Going(use, got, reading, writing, flushing) =>
      && use <= s.size && use <= got <= Goal(s)
      && (flushing ==> got == Goal(s) && use > 0 && !reading && writing)
      && (!flushing ==> got < s.limit && (reading ==> use < s.t.highRead) && (writing ==> use > s.t.lowWrite))
  }

  /** What a job keeps that cannot stall. */
  ghost predicate Steady(j: Job, s: Setup) {
    && Kept(j, s)
    && (j.Going? && !j.flushing ==> j.reading || j.writing)
    && (j.Going? && !j.flushing && (s.total < s.t.highRead || s.t.highRead >= s.limit) ==> j.reading)
  }

  lemma KeptAfter(j: Job, m: Move, s: Setup)
    requires Fine(s) && Kept(j, s) && Possible(j, m, s)
    ensures Kept(After(j, m, s), s)
  {
  }

  lemma SteadyAfter(j: Job, m: Move, s: Setup)
    requires Fine(s) && !CanStall(s) && Steady(j, s) && Possible(j, m, s)
    ensures Steady(After(j, m, s), s)
  {
    KeptAfter(j, m, s);
  }

  /** Twice what is still to read, and what is still to write. */
  function Left(j: Job, s: Setup): int {
    if j.Over? then 0 else 2 * (Goal(s) - j.got) + j.use + if j.flushing then 0 else 1
  }

  /** Every move brings the job closer to its end. */
  lemma LeftShrinks(j: Job, m: Move, s: Setup)
    requires Fine(s) && Kept(j, s) && Possible(j, m, s)
    ensures 0 <= Left(After(j, m, s), s) < Left(j, s)
  {
    KeptAfter(j, m, s);
  }

  lemma SteadyKept(j: Job, s: Setup)
    requires Steady(j, s)
    ensures Kept(j, s)
  {
  }

  lemma SteadyStart(s: Setup)
    requires Fine(s) && !CanStall(s)
    ensures Steady(START, s) && Left(START, s) == 2 * Goal(s) + 1
  {
  }

  lemma {:induction false} NeverStuck(moves: seq<Move>, s: Setup)
    requires Fine(s) && !CanStall(s) && Runs(moves, s)
    ensures Steady(End(moves, s), s) && !Stuck(End(moves, s))
  {
    hide After, Possible;
    if moves == [] {
    } else {
      var before := moves[..|moves| - 1];
      NeverStuck(before, s);
      SteadyAfter(End(before, s), moves[|moves| - 1], s);
    }
  }

  /** Read byte by byte. */
  function Up(n: nat): seq<Move> {
    if n == 0 then [] else Up(n - 1) + [Read(1)]
  }

  /** Then write byte by byte. */
  function UpDown(h: nat, n: nat): seq<Move> {
    if n == 0 then Up(h) else UpDown(h, n - 1) + [Write(1)]
  }

  /** A run that gets stuck. */
  function StallingMoves(s: Setup): seq<Move>
    requires Fine(s)
  {
    UpDown(s.t.highRead, if s.t.highWrite > s.t.highRead then 0 else Difference(s.t.highRead, s.t.lowWrite))
  }

  function Difference(a: int, b: int): nat {
    if a >= b then a - b else 0
  }

  lemma ReadOne(n: nat, s: Setup)
    requires Fine(s) && n < s.t.highRead < s.limit && s.total >= s.t.highRead
    ensures var j := Going(n, n, true, n >= s.t.highWrite, false);
            Possible(j, Read(1), s)
            && After(j, Read(1), s) == Going(n + 1, n + 1, n + 1 < s.t.highRead, n + 1 >= s.t.highWrite, false)
  {
  }

  lemma WriteOne(u: nat, s: Setup)
    requires Fine(s) && s.t.lowWrite < u <= s.t.highRead && s.t.lowWrite > s.t.lowRead
    ensures var j := Going(u, s.t.highRead, false, true, false);
            Possible(j, Write(1), s)
            && After(j, Write(1), s) == Going(u - 1, s.t.highRead, false, u - 1 > s.t.lowWrite, false)
  {
  }

  lemma {:induction false} GoesUp(n: nat, s: Setup)
    requires Fine(s) && n <= s.t.highRead < s.limit && s.total >= s.t.highRead
    ensures Runs(Up(n), s) && End(Up(n), s) == Going(n, n, n < s.t.highRead, n >= s.t.highWrite, false)
  {
    hide Possible, After, Runs, End;
    if n == 0 {
      NoMoves(s);
    } else {
      GoesUp(n - 1, s);
      ReadOne(n - 1, s);
      RunsOn(Up(n - 1), Read(1), s);
    }
  }

  lemma {:induction false} GoesDown(n: nat, s: Setup)
    requires Fine(s) && s.t.highRead < s.limit && s.total >= s.t.highRead
    requires s.t.highWrite <= s.t.highRead && s.t.lowWrite > s.t.lowRead && n <= s.t.highRead - s.t.lowWrite
    ensures var h := s.t.highRead;
            Runs(UpDown(h, n), s) && End(UpDown(h, n), s) == Going(h - n, h, false, h - n > s.t.lowWrite, false)
  {
    hide Possible, After, Runs, End;
    var h := s.t.highRead;
    if n == 0 {
      GoesUp(h, s);
    } else {
      GoesDown(n - 1, s);
      WriteOne(h - (n - 1), s);
      RunsOn(UpDown(h, n - 1), Write(1), s);
    }
  }

  lemma Stalls(s: Setup)
    requires Fine(s) && CanStall(s)
    ensures Runs(StallingMoves(s), s) && Stuck(End(StallingMoves(s), s)) && !End(StallingMoves(s), s).flushing
  {
    if s.t.highWrite > s.t.highRead {
      GoesUp(s.t.highRead, s);
    } else {
      GoesDown(s.t.highRead - s.t.lowWrite, s);
    }
  }

  /** The checks made at the start let through thresholds with which a job can get stuck. Some run of a job does
      exactly if the source has the bytes to switch reading off, and then writing is not on yet, or it goes off before
      reading goes on again while the limit has not been reached. */
  lemma StallsExactly(s: Setup)
    requires Fine(s)
    ensures (exists moves :: Runs(moves, s) && Stuck(End(moves, s))) <==> CanStall(s)
  {
    hide Runs, End, CanStall, Stuck, StallingMoves;
    if CanStall(s) {
      Stalls(s);
      var moves := StallingMoves(s);
      assert Runs(moves, s) && Stuck(End(moves, s));
    } else {
      forall moves | Runs(moves, s) ensures !Stuck(End(moves, s)) { NeverStuck(moves, s); }
    }
  }

  /** With default or small-buffer thresholds no job gets stuck. */
  lemma ChosenNeverStall(t: Thresholds, s: Setup)
    requires s.size > 0 && (s.size < 32 || t == Thresholds(-1, -1, -1, -1)) && s.t == Chosen(t, s.size)
    ensures !CanStall(s)
  {
    ChosenOrdered(t, s.size);
  }

  /** Of the moves possible, one the event order and the amounts served select. */
  function Selected(j: Job, s: Setup, readFirst: bool, amount: nat): (m: Move)
    requires Fine(s) && Steady(j, s) && j.Going?
    ensures Possible(j, m, s)
  {
    if j.reading && (readFirst || !j.writing) then
      var rest := s.total - j.got;
      var most := if rest < Asked(j, s) then rest else Asked(j, s);
      Read(if rest == 0 then 0 else 1 + amount % most)
    else Write(1 + amount % Capped(j.use, s.writeMax))
  }
}
