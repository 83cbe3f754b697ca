/**
  Readers and writers of one pipe (Lab/code/pipe.c:59-121) over all interleavings. A step is one
  stretch of code under the pipe's lock, from acquiring it to releasing it or calling sleep, on the
  ring and its wrapping counters. sleep keeps the pipe's lock until it has ptable.lock, so a kill,
  which takes only that one, can come between the test of `killed` and the sleep.
 */
module PipeRuns {
  import opened Options
  import opened Pipe

  datatype Pc =
    | Idle
    | Write(rest: seq<Byte>)         // in pipewrite, wants the lock
    | WriteDozing(rest: seq<Byte>)   // in sleep on nwrite, holds the lock, wants ptable.lock
    | WriteAsleep(rest: seq<Byte>)   // asleep on nwrite
    | Read(n: nat)                   // in piperead, wants the lock
    | ReadDozing(n: nat)             // in sleep on nread, holds the lock, wants ptable.lock
    | ReadAsleep(n: nat)             // asleep on nread

  /** `written` and `delivered` record all bytes ever put in and taken out. */
  datatype State = State(
    ring: Ring,
    readopen: bool,
    writeopen: bool,
    pc: seq<Pc>,
    killed: seq<bool>,
    written: seq<Byte>,
    delivered: seq<Byte>)

  datatype Action =
    | CallWrite(proc: nat, data: seq<Byte>)
    | CallRead(proc: nat, n: nat)
    | Enter(proc: nat)
    | FallAsleep(proc: nat)
    | CloseWrite
    | CloseRead
    | Kill(proc: nat)

  function WakeReader(pc: Pc): Pc {
    if pc.ReadAsleep? then Read(pc.n) else pc
  }

  function WakeWriter(pc: Pc): Pc {
    if pc.WriteAsleep? then Write(pc.rest) else pc
  }

  /** wakeup(&p->nread) */
  function WakeReaders(pcs: seq<Pc>): (r: seq<Pc>)
    ensures |r| == |pcs| && forall i :: 0 <= i < |pcs| ==> r[i] == WakeReader(pcs[i])
  {
    seq(|pcs|, i requires 0 <= i < |pcs| => WakeReader(pcs[i]))
  }

  /** wakeup(&p->nwrite) */
  function WakeWriters(pcs: seq<Pc>): (r: seq<Pc>)
    ensures |r| == |pcs| && forall i :: 0 <= i < |pcs| ==> r[i] == WakeWriter(pcs[i])
  {
    seq(|pcs|, i requires 0 <= i < |pcs| => WakeWriter(pcs[i]))
  }

  /** Nobody holds the pipe's lock. */
  predicate LockFree(s: State) {
    forall p :: 0 <= p < |s.pc| ==> !s.pc[p].WriteDozing? && !s.pc[p].ReadDozing?
  }

  predicate Enabled(s: State, a: Action) {
    match a
    case CallWrite(p, _) => p < |s.pc| && s.pc[p].Idle? && s.writeopen
    case CallRead(p, _) => p < |s.pc| && s.pc[p].Idle? && s.readopen
    case Enter(p) =>
      && p < |s.pc| && p < |s.killed| && (s.pc[p].Write? || s.pc[p].Read?)
      && LockFree(s) && |s.ring.data| == PIPESIZE
    case FallAsleep(p) => p < |s.pc| && (s.pc[p].WriteDozing? || s.pc[p].ReadDozing?)
    case Kill(p) => p < |s.pc| && p < |s.killed|
    case CloseWrite => LockFree(s)
    case CloseRead => LockFree(s)
  }

  /** The writer fills the pipe and gives up: no reader left, or killed. */
  predicate GivesUp(s: State, p: nat)
    requires p < |s.pc| && p < |s.killed| && s.pc[p].Write? && |s.ring.data| == PIPESIZE
  {
    Fill(s.ring, s.pc[p].rest).1 < |s.pc[p].rest| && (!s.readopen || s.killed[p])
  }

  function EnterWrite(s: State, p: nat): State
    requires p < |s.pc| && p < |s.killed| && s.pc[p].Write? && |s.ring.data| == PIPESIZE
  {
    var rest := s.pc[p].rest;
    var (q, k) := Fill(s.ring, rest);
    var t := s.(ring := q, written := s.written + rest[..Min(k, |rest|)]);
    if k >= |rest| then t.(pc := WakeReaders(s.pc)[p := Idle])
    else if GivesUp(s, p) then t.(pc := s.pc[p := Idle])
    else t.(pc := WakeReaders(s.pc)[p := WriteDozing(rest[k..])])
  }

  function EnterRead(s: State, p: nat): State
    requires p < |s.pc| && p < |s.killed| && s.pc[p].Read? && |s.ring.data| == PIPESIZE
  {
    if Empty(s.ring) && s.writeopen then
      if s.killed[p] then s.(pc := s.pc[p := Idle])
      else s.(pc := s.pc[p := ReadDozing(s.pc[p].n)])
    else
      var (q, bytes) := Drain(s.ring, s.pc[p].n);
      s.(ring := q, delivered := s.delivered + bytes, pc := WakeWriters(s.pc)[p := Idle])
  }

  function Next(s: State, a: Action): State
    requires Enabled(s, a)
  {
    match a
    case CallWrite(p, data) => s.(pc := s.pc[p := Write(data)])
    case CallRead(p, n) => s.(pc := s.pc[p := Read(n)])
    case Enter(p) => if s.pc[p].Write? then EnterWrite(s, p) else EnterRead(s, p)
    case FallAsleep(p) =>
      s.(pc := s.pc[p := if s.pc[p].WriteDozing? then WriteAsleep(s.pc[p].rest) else ReadAsleep(s.pc[p].n)])
    case CloseWrite => s.(writeopen := false, pc := WakeReaders(s.pc))
    case CloseRead => s.(readopen := false, pc := WakeWriters(s.pc))
    case Kill(p) => s.(killed := s.killed[p := true], pc := s.pc[p := WakeReader(WakeWriter(s.pc[p]))])
  }

  // ---- the queue ----

  /** The bytes in the ring are those written and not yet delivered, in order, and each counter is
      the number of bytes that went past it, as a 32-bit number. */
  ghost predicate Fifo(s: State) {
    && RingOK(s.ring) && s.written == s.delivered + Contents(s.ring)
    && s.ring.nread == Inc(0, |s.delivered|) && s.ring.nwrite == Inc(0, |s.written|)
  }

  /** Which bytes a write moves. */
  lemma {:induction false} WriteMoves(s: State, p: nat)
    requires p < |s.pc| && p < |s.killed| && s.pc[p].Write? && |s.ring.data| == PIPESIZE
    requires Fill(s.ring, s.pc[p].rest).1 <= |s.pc[p].rest|
    ensures var t, (q, k) := EnterWrite(s, p), Fill(s.ring, s.pc[p].rest);
            t.ring == q && t.written == s.written + s.pc[p].rest[..k] && t.delivered == s.delivered
  {
    hide Fill, WakeReaders;
  }

  lemma {:induction false} WriteIsFifo(s: State, p: nat)
    requires Fifo(s) && p < |s.pc| && p < |s.killed| && s.pc[p].Write?
    ensures Fifo(EnterWrite(s, p))
  {
    assert |s.ring.data| == PIPESIZE && s.ring.nwrite < UINT;
    hide EnterWrite, Contents, Fill, RingOK, Inc;
    var (q, k) := Fill(s.ring, s.pc[p].rest);
    FillAppends(s.ring, s.pc[p].rest);
    FillCounts(s.ring, s.pc[p].rest);
    WriteMoves(s, p);
    IncTwice(|s.written|, k);
    Regroup(s.delivered, Contents(s.ring), s.pc[p].rest[..k]);
  }

  lemma {:induction false} Regroup(a: seq<Byte>, b: seq<Byte>, c: seq<Byte>)
    ensures a + b + c == a + (b + c)
  {
  }

  /** Which bytes a read moves. */
  lemma {:induction false} ReadMoves(s: State, p: nat)
    requires p < |s.pc| && p < |s.killed| && s.pc[p].Read? && |s.ring.data| == PIPESIZE
    ensures var t, (q, bytes) := EnterRead(s, p), Drain(s.ring, s.pc[p].n);
            t.written == s.written && (t.ring, t.delivered) == if Empty(s.ring) && s.writeopen
              then (s.ring, s.delivered) else (q, s.delivered + bytes)
  {
    hide Drain, WakeWriters;
  }

  lemma {:induction false} ReadIsFifo(s: State, p: nat)
    requires Fifo(s) && p < |s.pc| && p < |s.killed| && s.pc[p].Read?
    ensures Fifo(EnterRead(s, p))
  {
    assert |s.ring.data| == PIPESIZE && s.ring.nread < UINT;
    hide EnterRead, Contents, Drain, RingOK, Inc, Empty;
    var (q, bytes) := Drain(s.ring, s.pc[p].n);
    DrainRemoves(s.ring, s.pc[p].n);
    DrainCounts(s.ring, s.pc[p].n);
    ReadMoves(s, p);
    IncTwice(|s.delivered|, |bytes|);
    Regroup(s.delivered, bytes, Contents(q));
  }

  lemma {:induction false} IncTwice(n: nat, k: nat)
    ensures Inc(Inc(0, n), k) == Inc(0, n + k)
  {
    var q := n / UINT;
    assert n == q * UINT + n % UINT;
    ModPlus(q, n % UINT + k);
  }

  lemma {:induction false} FifoKept(s: State, a: Action)
    requires Fifo(s) && Enabled(s, a)
    ensures Fifo(Next(s, a))
  {
    if a.Enter? {
      if s.pc[a.proc].Write? {
        WriteIsFifo(s, a.proc);
      } else {
        ReadIsFifo(s, a.proc);
      }
    }
  }

  // ---- who may sleep ----

  predicate Reading(pc: Pc) {
    pc.ReadDozing? || pc.ReadAsleep?
  }

  predicate Writing(pc: Pc) {
    pc.WriteDozing? || pc.WriteAsleep?
  }

  /** A sleeping reader has nothing to read, a sleeping writer no room. */
  predicate SleepOK(s: State, p: nat)
    requires p < |s.pc|
  {
    && (Reading(s.pc[p]) ==> Empty(s.ring) && s.writeopen)
    && (Writing(s.pc[p]) ==> Full(s.ring) && s.readopen && s.pc[p].rest != [])
  }

  ghost predicate Inv(s: State) {
    && Fifo(s) && |s.killed| == |s.pc|
    && forall p :: 0 <= p < |s.pc| ==> SleepOK(s, p)
  }

  /** A writer that gives up returns without waking readers: nobody may be asleep reading then. */
  ghost predicate Polite(s: State, a: Action)
    requires Enabled(s, a)
  {
    a.Enter? && s.pc[a.proc].Write? && GivesUp(s, a.proc) ==> forall q :: 0 <= q < |s.pc| ==> !s.pc[q].ReadAsleep?
  }

  /** What the write loop leaves: a full ring, or all bytes written; the ring as it was if it was full. */
  lemma {:induction false} FillLeaves(r: Ring, bytes: seq<Byte>)
    requires RingOK(r)
    ensures var (q, k) := Fill(r, bytes);
            k <= |bytes| && (k < |bytes| ==> Full(q)) && (Full(r) ==> q == r) && (Empty(r) && Empty(q) ==> bytes == [])
  {
    var (q, k) := Fill(r, bytes);
    FillAppends(r, bytes);
    FullAndEmpty(r);
    FullAndEmpty(q);
    hide Contents, RingOK;
  }

  lemma {:induction false} WriteKeepsSleepers(s: State, p: nat, q: nat)
    requires Inv(s) && Enabled(s, Enter(p)) && s.pc[p].Write? && Polite(s, Enter(p)) && q < |s.pc|
    ensures var t := EnterWrite(s, p); |t.pc| == |t.killed| == |s.pc| && SleepOK(t, q)
  {
    assert SleepOK(s, q) && SleepOK(s, p);
    FillLeaves(s.ring, s.pc[p].rest);
    hide Fill, Fifo, Full, Empty;
  }

  lemma {:induction false} ReadKeepsSleepers(s: State, p: nat, q: nat)
    requires Inv(s) && Enabled(s, Enter(p)) && s.pc[p].Read? && q < |s.pc|
    ensures var t := EnterRead(s, p); |t.pc| == |t.killed| == |s.pc| && SleepOK(t, q)
  {
    assert SleepOK(s, q) && SleepOK(s, p);
    hide Drain, Fifo, Full, Empty;
  }

  lemma {:induction false} SleepersKept(s: State, a: Action, q: nat)
    requires Inv(s) && Enabled(s, a) && Polite(s, a) && q < |s.pc|
    ensures var t := Next(s, a); |t.pc| == |t.killed| == |s.pc| && SleepOK(t, q)
  {
    if a.Enter? {
      if s.pc[a.proc].Write? {
        WriteKeepsSleepers(s, a.proc, q);
      } else {
        ReadKeepsSleepers(s, a.proc, q);
      }
    } else {
      hide Fifo, Full, Empty;
      assert SleepOK(s, q);
    }
  }

  lemma {:induction false} StepKeeps(s: State, a: Action)
    requires Inv(s) && Enabled(s, a) && Polite(s, a)
    ensures Inv(Next(s, a))
  {
    FifoKept(s, a);
    var t := Next(s, a);
    hide Fifo, Next, SleepOK, Polite;
    if |s.pc| == 0 {
      NobodyThere(s, a);
    } else {
      SleepersKept(s, a, 0);
    }
    forall q | 0 <= q < |s.pc|
      ensures SleepOK(t, q)
    {
      SleepersKept(s, a, q);
    }
  }

  lemma {:induction false} NobodyThere(s: State, a: Action)
    requires |s.pc| == |s.killed| == 0 && Enabled(s, a)
    ensures |Next(s, a).pc| == |Next(s, a).killed| == 0
  {
  }

  /** From a good state, a step leads to a good state if and only if it is polite. */
  lemma {:induction false} PoliteIsExact(s: State, a: Action)
    requires Inv(s) && Enabled(s, a)
    ensures Inv(Next(s, a)) <==> Polite(s, a)
  {
    if Polite(s, a) {
      StepKeeps(s, a);
    } else {
      var q :| 0 <= q < |s.pc| && s.pc[q].ReadAsleep?;
      GivingUpStrands(s, a.proc, q);
    }
  }

  lemma {:induction false} GivingUpStrands(s: State, p: nat, q: nat)
    requires Inv(s) && Enabled(s, Enter(p)) && s.pc[p].Write? && GivesUp(s, p)
    requires q < |s.pc| && s.pc[q].ReadAsleep?
    ensures !Inv(EnterWrite(s, p))
  {
    assert SleepOK(s, q);
    FillLeaves(s.ring, s.pc[p].rest);
    hide Fill, Fifo, Full, Empty;
    var t := EnterWrite(s, p);
    assert t.pc[q] == s.pc[q] && !Empty(t.ring);
    assert !SleepOK(t, q);
  }

  // ---- who may sleep marked killed ----

  /** No process is asleep and marked killed. */
  ghost predicate NoKilledSleeper(s: State) {
    && |s.killed| == |s.pc|
    && forall p :: 0 <= p < |s.pc| && (s.pc[p].ReadAsleep? || s.pc[p].WriteAsleep?) ==> !s.killed[p]
  }

  /** A step keeps killed processes awake if and only if it is not one of them falling asleep, which
      a kill after the last test of `killed` makes possible. */
  lemma {:induction false} KilledSleeperExact(s: State, a: Action)
    requires NoKilledSleeper(s) && Enabled(s, a)
    ensures NoKilledSleeper(Next(s, a)) <==> !(a.FallAsleep? && s.killed[a.proc])
  {
    hide Fill, Drain, Full, Empty;
    var t := Next(s, a);
    if a.FallAsleep? {
      assert t.pc[a.proc].ReadAsleep? || t.pc[a.proc].WriteAsleep?;
    }
  }

  // ---- runs ----

  function Boot(nproc: nat): State {
    State(Ring(seq(PIPESIZE, _ => 0), 0, 0), true, true, seq(nproc, _ => Idle), seq(nproc, _ => false), [], [])
  }

  ghost function Play(s: State, run: seq<Action>): Option<State> {
    if run == [] then Some(s)
    else match Play(s, run[..|run| - 1])
      case None => None
      case Some(t) => if Enabled(t, run[|run| - 1]) then Some(Next(t, run[|run| - 1])) else None
  }

  ghost predicate PoliteRun(s: State, run: seq<Action>) {
    run != [] ==>
      && PoliteRun(s, run[..|run| - 1])
      && match Play(s, run[..|run| - 1])
         case None => true
         case Some(t) => Enabled(t, run[|run| - 1]) ==> Polite(t, run[|run| - 1])
  }

  /** Over every run, polite or not, and however often the counters wrap: the bytes delivered are a
      prefix of the bytes written, the rest are in the ring in order, at most PIPESIZE of them, and
      the counters are the numbers of bytes modulo 2^32. */
  lemma {:induction false} PipeIsFifo(nproc: nat, run: seq<Action>, t: State)
    requires Play(Boot(nproc), run) == Some(t)
    ensures RingOK(t.ring) && InFlight(t.ring.nread, t.ring.nwrite) <= PIPESIZE
    ensures t.delivered <= t.written && t.written == t.delivered + Contents(t.ring)
    ensures t.ring.nread == |t.delivered| % UINT && t.ring.nwrite == |t.written| % UINT
  {
    AlwaysFifo(nproc, run, t);
    hide Contents, Play;
  }

  lemma {:induction false} AlwaysFifo(nproc: nat, run: seq<Action>, t: State)
    requires Play(Boot(nproc), run) == Some(t)
    ensures Fifo(t)
    decreases |run|
  {
    BootIsGood(nproc);
    hide Fifo, Next, Boot, Inv;
    if run != [] {
      var u := Play(Boot(nproc), run[..|run| - 1]).value;
      AlwaysFifo(nproc, run[..|run| - 1], u);
      FifoKept(u, run[|run| - 1]);
    }
  }

  lemma {:induction false} BootIsGood(nproc: nat)
    ensures Fifo(Boot(nproc)) && Inv(Boot(nproc))
  {
    FullAndEmpty(Boot(nproc).ring);
    hide Contents;
  }

  /** Over every polite run: with the lock free, a sleeping reader means the pipe is empty and a
      sleeping writer means it is full. */
  lemma {:induction false} SleepersHaveReason(nproc: nat, run: seq<Action>, t: State)
    requires Play(Boot(nproc), run) == Some(t) && PoliteRun(Boot(nproc), run)
    ensures Inv(t)
    decreases |run|
  {
    BootIsGood(nproc);
    hide Fifo, Next, Boot, Inv, Polite;
    if run != [] {
      var u := Play(Boot(nproc), run[..|run| - 1]).value;
      SleepersHaveReason(nproc, run[..|run| - 1], u);
      StepKeeps(u, run[|run| - 1]);
    }
  }

  // ---- the exception is real ----

  lemma {:induction false} PlayOne(b: State, run: seq<Action>, t: State, a: Action)
    requires Play(b, run) == Some(t) && Enabled(t, a)
    ensures Play(b, run + [a]) == Some(Next(t, a))
  {
    assert (run + [a])[..|run + [a]| - 1] == run;
  }

  /** Process 0 of two finds the pipe empty. */
  lemma {:induction false} GoesToSleep() returns (run: seq<Action>, t: State)
    ensures Play(Boot(2), run) == Some(t) && t == Boot(2).(pc := [ReadDozing(1), Idle])
  {
    var b := Boot(2);
    run, t := [], b;
    assert Play(b, run) == Some(t);
    hide Play, Fill;
    PlayOne(b, run, t, CallRead(0, 1));
    run, t := run + [CallRead(0, 1)], Next(t, CallRead(0, 1));
    PlayOne(b, run, t, Enter(0));
    run, t := run + [Enter(0)], Next(t, Enter(0));
    assert t.pc == [ReadDozing(1), Idle];
  }

  /** A reader is killed between its test of `killed` and its sleep: it sleeps on, marked killed, and
      nothing will wake it but a writer. */
  lemma {:induction false} KilledReaderSleeps() returns (run: seq<Action>, t: State)
    ensures Play(Boot(2), run) == Some(t)
    ensures t.pc == [ReadAsleep(1), Idle] && t.killed == [true, false] && !NoKilledSleeper(t)
  {
    var b := Boot(2);
    run, t := GoesToSleep();
    hide Play, Fill;
    PlayOne(b, run, t, Kill(0));
    run, t := run + [Kill(0)], Next(t, Kill(0));
    assert t.pc == [ReadDozing(1), Idle] && t.killed == [true, false];
    PlayOne(b, run, t, FallAsleep(0));
    run, t := run + [FallAsleep(0)], Next(t, FallAsleep(0));
    assert t.pc[0].ReadAsleep? && t.killed[0];
  }

  /** A reader sleeps on the empty pipe; a writer is killed while writing more than fits, fills
      the pipe and returns; the reader sleeps on in front of a full pipe. */
  lemma {:induction false} KilledWriterStrandsReader(data: seq<Byte>) returns (run: seq<Action>, t: State)
    requires |data| > PIPESIZE
    ensures Play(Boot(2), run) == Some(t)
    ensures |t.pc| == 2 && t.pc[0] == ReadAsleep(1) && t.pc[1] == Idle
    ensures RingOK(t.ring) && Contents(t.ring) == data[..PIPESIZE]
  {
    var b := Boot(2);
    run, t := GoesToSleep();
    hide Play, Fill;
    PlayOne(b, run, t, FallAsleep(0));
    run, t := run + [FallAsleep(0)], Next(t, FallAsleep(0));
    assert t.pc == [ReadAsleep(1), Idle];
    PlayOne(b, run, t, CallWrite(1, data));
    run, t := run + [CallWrite(1, data)], Next(t, CallWrite(1, data));
    PlayOne(b, run, t, Kill(1));
    run, t := run + [Kill(1)], Next(t, Kill(1));
    assert t.pc == [ReadAsleep(1), Write(data)] && t.killed == [false, true] && t.ring == b.ring;
    FillsUp(t.ring, data);
    PlayOne(b, run, t, Enter(1));
    run, t := run + [Enter(1)], Next(t, Enter(1));
  }

  lemma {:induction false} FillsUp(r: Ring, data: seq<Byte>)
    requires RingOK(r) && Empty(r) && |data| > PIPESIZE
    ensures var (q, k) := Fill(r, data); k == PIPESIZE && RingOK(q) && Contents(q) == data[..PIPESIZE]
  {
    FillAppends(r, data);
    FullAndEmpty(r);
    hide Contents, RingOK;
    assert [] + data[..PIPESIZE] == data[..PIPESIZE];
  }
}
