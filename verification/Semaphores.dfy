/**
  sem_wait, sem_signal, sem_init and sem_destroy over sleep, wakeup and the two spin locks
  (Lab/code/proc.c:530-610 and :701-770), as an interleaving of the individual lock
  operations and updates of every process. A step belongs to one process; which process moves
  next is arbitrary.
 */
module Semaphores {
  import opened Options

  datatype RunState = Running | Runnable | Sleeping

  const INT_MAX := 0x7FFF_FFFF
  const WORD := 0x1_0000_0000

  predicate IsInt(x: int) {
    -INT_MAX - 1 <= x <= INT_MAX
  }

  /** What an int holds when the sum x is stored in it. */
  function Wrap(x: int): (r: int)
    ensures IsInt(r) && (IsInt(x) ==> r == x)
  {
    (x + INT_MAX + 1) % WORD - INT_MAX - 1
  }

  /** Equal as 32-bit values. */
  predicate Same32(x: int, y: int) {
    (x - y) % WORD == 0
  }

  lemma {:induction false} WrapIsSame(x: int, y: int, d: int)
    requires Same32(x, y)
    ensures Same32(Wrap(x + d), y + d)
  {
    var a := x + d + INT_MAX + 1;
    assert a == a / WORD * WORD + a % WORD;
    assert Wrap(x + d) - (y + d) == (x - y) - a / WORD * WORD;
    assert x - y == (x - y) / WORD * WORD;
    ModOf((x - y) / WORD - a / WORD);
  }

  lemma {:induction false} ModOf(k: int)
    ensures k * WORD % WORD == 0
  {
  }

  /** What a process does next. */
  datatype Pc =
    | Idle
    // sem_wait
    | WaitAcquire(sem: nat, count: int)
    | WaitCheck(sem: nat, count: int)        // holds the semaphore's lock
    | SleepAcquire(sem: nat, count: int)     // in sleep(), wants ptable.lock
    | SleepRelease(sem: nat, count: int)     // holds both
    | SleepMark(sem: nat, count: int)        // holds ptable.lock
    | SleepSched(sem: nat, count: int)       // SLEEPING, about to leave the CPU
    | Asleep(sem: nat, count: int)           // off the CPU
    | Woken(sem: nat, count: int)            // on the CPU again, holds ptable.lock
    // sem_signal
    | SignalAcquire(sem: nat, count: int)
    | SignalAdd(sem: nat, count: int)
    | WakeAcquire(sem: nat)                  // in wakeup(), wants ptable.lock
    | WakeScan(sem: nat, next: nat)          // in wakeup1(), at slot `next`
    // sem_init, sem_destroy
    | InitAcquire(sem: nat, initial: int)
    | InitSet(sem: nat, initial: int)
    | DestroyAcquire(sem: nat)
    | DestroySet(sem: nat)
    | Release(sem: nat)                      // about to release the semaphore's lock
    // kill
    | KillAcquire(target: nat)
    | KillWake(target: nat)                  // holds ptable.lock

  /** `initial`, `signalled` and `granted` only record what happened since the last sem_init. */
  datatype Semaphore = Semaphore(value: int, active: bool, holder: Option<nat>,
                                 initial: int, signalled: int, granted: int)

  datatype State = State(
    pc: seq<Pc>,
    run: seq<RunState>,
    chan: seq<Option<nat>>,       // the semaphore a process sleeps on
    ptLock: Option<nat>,          // holder of ptable.lock
    sems: seq<Semaphore>)

  datatype Action =
    | Call(proc: nat, entry: Pc)  // enter a system call
    | Step(proc: nat)
    | Schedule(proc: nat)

  // ---- locks ----

  predicate HoldsSem(pc: Pc, m: nat) {
    match pc
    case WaitCheck(k, _) => k == m
    case SleepAcquire(k, _) => k == m
    case SleepRelease(k, _) => k == m
    case SignalAdd(k, _) => k == m
    case WakeAcquire(k) => k == m
    case WakeScan(k, _) => k == m
    case InitSet(k, _) => k == m
    case DestroySet(k) => k == m
    case Release(k) => k == m
    case _ => false
  }

  predicate HoldsTable(pc: Pc) {
    pc.SleepRelease? || pc.SleepMark? || pc.SleepSched? || pc.Woken? || pc.WakeScan? || pc.KillWake?
  }

  predicate IsEntry(pc: Pc) {
    pc.WaitAcquire? || pc.SignalAcquire? || pc.InitAcquire? || pc.DestroyAcquire? || pc.KillAcquire?
  }

  predicate PcOK(s: State, pc: Pc) {
    match pc
    case Idle => true
    case KillAcquire(t) => t < |s.pc|
    case KillWake(t) => t < |s.pc|
    case WakeScan(m, i) => m < |s.sems| && i <= |s.pc|
    case WakeAcquire(m) => m < |s.sems|
    case DestroyAcquire(m) => m < |s.sems|
    case DestroySet(m) => m < |s.sems|
    case Release(m) => m < |s.sems|
    case InitAcquire(m, v) => m < |s.sems| && IsInt(v)
    case InitSet(m, v) => m < |s.sems| && IsInt(v)
    case _ => pc.sem < |s.sems| && IsInt(pc.count)
  }

  // ---- the machine ----

  ghost predicate Shaped(s: State) {
    && |s.run| == |s.chan| == |s.pc|
    && forall p :: 0 <= p < |s.pc| ==> PcOK(s, s.pc[p])
  }

  predicate Enabled(s: State, a: Action)
    requires |s.run| == |s.pc|
  {
    a.proc < |s.pc| &&
    var pc := s.pc[a.proc];
    match a
    case Call(_, entry) => pc.Idle? && IsEntry(entry) && PcOK(s, entry)
    case Schedule(p) => pc.Asleep? && s.run[p].Runnable? && s.ptLock.None?
    case Step(_) =>
      match pc
      case Idle => false
      case Asleep(_, _) => false
      case WaitAcquire(m, _) => m < |s.sems| && s.sems[m].holder.None?
      case SignalAcquire(m, _) => m < |s.sems| && s.sems[m].holder.None?
      case InitAcquire(m, _) => m < |s.sems| && s.sems[m].holder.None?
      case DestroyAcquire(m) => m < |s.sems| && s.sems[m].holder.None?
      case SleepAcquire(_, _) => s.ptLock.None?
      case WakeAcquire(_) => s.ptLock.None?
      case KillAcquire(_) => s.ptLock.None?
      case _ => true
  }

  function At(s: State, p: nat, pc: Pc): State
    requires p < |s.pc|
  {
    s.(pc := s.pc[p := pc])
  }

  function WithSem(s: State, m: nat, x: Semaphore): State
    requires m < |s.sems|
  {
    s.(sems := s.sems[m := x])
  }

  function Next(s: State, a: Action): State
    requires |s.run| == |s.chan| == |s.pc| && Enabled(s, a) && PcOK(s, s.pc[a.proc])
  {
    match a
    case Call(p, entry) => At(s, p, entry)
    case Schedule(p) =>
      var pc := s.pc[p];
      At(s, p, Woken(pc.sem, pc.count)).(ptLock := Some(p), run := s.run[p := Running])
    case Step(p) => MicroStep(s, p)
  }

  function MicroStep(s: State, p: nat): State
    requires |s.run| == |s.chan| == |s.pc| && p < |s.pc| && PcOK(s, s.pc[p])
  {
    match s.pc[p]
    case Idle => s
    case Asleep(_, _) => s
    case WaitAcquire(m, c) => At(WithSem(s, m, s.sems[m].(holder := Some(p))), p, WaitCheck(m, c))
    case WaitCheck(m, c) =>
      var x := s.sems[m];
      if x.value >= c
      then At(WithSem(s, m, x.(value := Wrap(x.value - c), granted := x.granted + c)), p, Release(m))
      else At(s, p, SleepAcquire(m, c))
    case SleepAcquire(m, c) => At(s, p, SleepRelease(m, c)).(ptLock := Some(p))
    case SleepRelease(m, c) => At(WithSem(s, m, s.sems[m].(holder := None)), p, SleepMark(m, c))
    case SleepMark(m, c) => At(s, p, SleepSched(m, c)).(chan := s.chan[p := Some(m)], run := s.run[p := Sleeping])
    case SleepSched(m, c) => At(s, p, Asleep(m, c)).(ptLock := None)
    case Woken(m, c) => At(s, p, WaitAcquire(m, c)).(chan := s.chan[p := None], ptLock := None)
    case SignalAcquire(m, c) => At(WithSem(s, m, s.sems[m].(holder := Some(p))), p, SignalAdd(m, c))
    case SignalAdd(m, c) =>
      var x := s.sems[m];
      At(WithSem(s, m, x.(value := Wrap(x.value + c), signalled := x.signalled + c)), p, WakeAcquire(m))
    case WakeAcquire(m) => At(s, p, WakeScan(m, 0)).(ptLock := Some(p))
    case WakeScan(m, i) =>
      if i < |s.pc| then
        var run := if s.run[i].Sleeping? && s.chan[i] == Some(m) then s.run[i := Runnable] else s.run;
        At(s, p, WakeScan(m, i + 1)).(run := run)
      else At(s, p, Release(m)).(ptLock := None)
    case InitAcquire(m, v) => At(WithSem(s, m, s.sems[m].(holder := Some(p))), p, InitSet(m, v))
    case InitSet(m, v) =>
      var x := s.sems[m];
      if x.active then At(s, p, Release(m))
      else At(WithSem(s, m, x.(active := true, value := v, initial := v, signalled := 0, granted := 0)), p, Release(m))
    case DestroyAcquire(m) => At(WithSem(s, m, s.sems[m].(holder := Some(p))), p, DestroySet(m))
    case DestroySet(m) => At(WithSem(s, m, s.sems[m].(active := false)), p, Release(m))
    case Release(m) => At(WithSem(s, m, s.sems[m].(holder := None)), p, Idle)
    case KillAcquire(t) => At(s, p, KillWake(t)).(ptLock := Some(p))
    case KillWake(t) =>
      At(s, p, Idle).(run := if s.run[t].Sleeping? then s.run[t := Runnable] else s.run, ptLock := None)
  }

  // ---- the invariant ----

  /** Committed to sleeping on m for `count`, or asleep, and not yet woken. */
  predicate Waits(s: State, p: nat, m: nat)
    requires |s.run| == |s.pc| && p < |s.pc|
  {
    (s.pc[p].SleepMark? || s.pc[p].SleepSched? || (s.pc[p].Asleep? && s.run[p].Sleeping?)) && s.pc[p].sem == m
  }

  /** The holder of m's lock has still to wake p. */
  predicate Due(s: State, m: nat, p: nat)
    requires m < |s.sems|
  {
    s.sems[m].holder.Some? && s.sems[m].holder.value < |s.pc| &&
    var pc := s.pc[s.sems[m].holder.value];
    pc == WakeAcquire(m) || (pc.WakeScan? && pc.sem == m && pc.next <= p)
  }

  ghost predicate LocksOK(s: State) {
    && (forall p, m :: 0 <= p < |s.pc| && 0 <= m < |s.sems| ==> (s.sems[m].holder == Some(p) <==> HoldsSem(s.pc[p], m)))
    && (forall p :: 0 <= p < |s.pc| ==> (s.ptLock == Some(p) <==> HoldsTable(s.pc[p])))
    && (forall m :: 0 <= m < |s.sems| && s.sems[m].holder.Some? ==> s.sems[m].holder.value < |s.pc|)
    && (s.ptLock.Some? ==> s.ptLock.value < |s.pc|)
  }

  /** Scheduling state and channel agree with where the process is. */
  predicate ProcOK(s: State, p: nat)
    requires |s.run| == |s.chan| == |s.pc| && p < |s.pc|
  {
    match s.pc[p]
    case SleepSched(m, _) => s.run[p].Sleeping? && s.chan[p] == Some(m)
    case Asleep(m, _) => !s.run[p].Running? && s.chan[p] == Some(m)
    case Woken(m, _) => s.run[p].Running?
    case _ => s.run[p].Running? && s.chan[p].None?
  }

  ghost predicate NoLostWakeup(s: State)
    requires Shaped(s)
  {
    && (forall p, m :: 0 <= p < |s.pc| && 0 <= m < |s.sems| && Waits(s, p, m) ==>
          s.sems[m].value < s.pc[p].count || Due(s, m, p))
    && (forall p :: 0 <= p < |s.pc| && (s.pc[p].SleepAcquire? || s.pc[p].SleepRelease?) ==>
          s.sems[s.pc[p].sem].value < s.pc[p].count)
  }

  /** What was put in less what was granted. */
  function Sum(x: Semaphore): int {
    x.initial + x.signalled - x.granted
  }

  /** The value is an int, and that sum up to a multiple of 2^32. */
  ghost predicate Conserved(s: State) {
    forall m :: 0 <= m < |s.sems| ==> IsInt(s.sems[m].value) && Same32(s.sems[m].value, Sum(s.sems[m]))
  }

  ghost predicate Inv(s: State) {
    && Shaped(s) && LocksOK(s) && NoLostWakeup(s) && Conserved(s)
    && forall p :: 0 <= p < |s.pc| ==> ProcOK(s, p)
  }

  // ---- which steps keep it ----

  /** The steps that raise a value without waking anyone must not reach a waiting request:
      a grant of a negative count, and sem_init of an inactive semaphore with sleepers. */
  ghost predicate Polite(s: State, p: nat)
    requires Shaped(s) && p < |s.pc|
  {
    match s.pc[p]
    case WaitCheck(m, c) =>
      s.sems[m].value >= c ==> forall q :: 0 <= q < |s.pc| && Waits(s, q, m) ==>
          Wrap(s.sems[m].value - c) < s.pc[q].count
    case InitSet(m, v) =>
      !s.sems[m].active ==> forall q :: 0 <= q < |s.pc| && Waits(s, q, m) ==> v < s.pc[q].count
    case _ => true
  }

  lemma {:induction false} NonNegativeWaitsArePolite(s: State, p: nat)
    requires Inv(s) && p < |s.pc| && s.pc[p].WaitCheck? && s.pc[p].count >= 0
    ensures Polite(s, p)
  {
    var m := s.pc[p].sem;
    assert HoldsSem(s.pc[p], m);
    forall q | 0 <= q < |s.pc| && Waits(s, q, m)
      ensures s.sems[m].value < s.pc[q].count
    {
      assert !Due(s, m, q);
    }
  }

  lemma {:induction false} ShapeKept(s: State, a: Action)
    requires Shaped(s) && Enabled(s, a)
    ensures Shaped(Next(s, a)) && |Next(s, a).pc| == |s.pc| && |Next(s, a).sems| == |s.sems|
    ensures forall q :: 0 <= q < |s.pc| && q != a.proc ==> Next(s, a).pc[q] == s.pc[q]
  {
  }

  lemma {:induction false} SemLockKept(s: State, a: Action, q: nat, m: nat)
    requires Shaped(s) && Enabled(s, a) && q < |s.pc| && m < |s.sems|
    requires forall p :: 0 <= p < |s.pc| ==> (s.sems[m].holder == Some(p) <==> HoldsSem(s.pc[p], m))
    ensures |Next(s, a).pc| == |s.pc| && |Next(s, a).sems| == |s.sems|
    ensures Next(s, a).sems[m].holder == Some(q) <==> HoldsSem(Next(s, a).pc[q], m)
    ensures Next(s, a).sems[m].holder.Some? ==>
      Next(s, a).sems[m].holder == s.sems[m].holder || Next(s, a).sems[m].holder.value == a.proc
  {
    assert s.sems[m].holder == Some(q) <==> HoldsSem(s.pc[q], m);
    assert s.sems[m].holder == Some(a.proc) <==> HoldsSem(s.pc[a.proc], m);
  }

  lemma {:induction false} TableLockKept(s: State, a: Action, q: nat)
    requires Shaped(s) && Enabled(s, a) && q < |s.pc|
    requires forall p :: 0 <= p < |s.pc| ==> (s.ptLock == Some(p) <==> HoldsTable(s.pc[p]))
    ensures |Next(s, a).pc| == |s.pc|
    ensures Next(s, a).ptLock == Some(q) <==> HoldsTable(Next(s, a).pc[q])
    ensures Next(s, a).ptLock.Some? ==> Next(s, a).ptLock == s.ptLock || Next(s, a).ptLock.value == a.proc
  {
    assert s.ptLock == Some(q) <==> HoldsTable(s.pc[q]);
    assert s.ptLock == Some(a.proc) <==> HoldsTable(s.pc[a.proc]);
  }

  lemma {:induction false} LocksKept(s: State, a: Action)
    requires Shaped(s) && LocksOK(s) && Enabled(s, a)
    ensures LocksOK(Next(s, a))
  {
    ShapeKept(s, a);
    var t := Next(s, a);
    assert a.proc < |s.pc|;
    hide Next, Enabled, HoldsSem, HoldsTable, Shaped;
    forall q, m | 0 <= q < |t.pc| && 0 <= m < |t.sems|
      ensures t.sems[m].holder == Some(q) <==> HoldsSem(t.pc[q], m)
      ensures t.sems[m].holder.Some? ==> t.sems[m].holder.value < |t.pc|
    {
      SemLockKept(s, a, q, m);
    }
    forall m | 0 <= m < |t.sems| && t.sems[m].holder.Some?
      ensures t.sems[m].holder.value < |t.pc|
    {
      SemLockKept(s, a, a.proc, m);
    }
    TableLockKept(s, a, a.proc);
    forall q | 0 <= q < |t.pc|
      ensures t.ptLock == Some(q) <==> HoldsTable(t.pc[q])
    {
      TableLockKept(s, a, q);
    }
  }

  lemma {:induction false} ProcsKept(s: State, a: Action, q: nat)
    requires Shaped(s) && LocksOK(s) && Enabled(s, a) && q < |s.pc|
    requires forall p :: 0 <= p < |s.pc| ==> ProcOK(s, p)
    ensures Shaped(Next(s, a)) && q < |Next(s, a).pc| && ProcOK(Next(s, a), q)
  {
    ShapeKept(s, a);
    assert ProcOK(s, q) && ProcOK(s, a.proc);
    assert s.ptLock == Some(q) <==> HoldsTable(s.pc[q]);
    assert s.ptLock == Some(a.proc) <==> HoldsTable(s.pc[a.proc]);
  }

  lemma {:induction false} ConservedKept(s: State, a: Action)
    requires Shaped(s) && Conserved(s) && Enabled(s, a)
    ensures Conserved(Next(s, a))
  {
    var p := a.proc;
    if a.Step? && (s.pc[p].WaitCheck? || s.pc[p].SignalAdd?) {
      var m, c := s.pc[p].sem, s.pc[p].count;
      WrapIsSame(s.sems[m].value, Sum(s.sems[m]), c);
      WrapIsSame(s.sems[m].value, Sum(s.sems[m]), -c);
      assert Sum(s.sems[m].(signalled := s.sems[m].signalled + c)) == Sum(s.sems[m]) + c;
    }
    hide Same32, Wrap;
    assert forall v :: Same32(v, v) by { SameSelf(); }
  }

  lemma {:induction false} SameSelf()
    ensures forall v :: Same32(v, v)
  {
  }

  /** A process that another one's step leaves waiting was waiting before. */
  lemma {:induction false} WaitedBefore(s: State, a: Action, q: nat, m: nat)
    requires Shaped(s) && Enabled(s, a) && q < |s.pc| && q != a.proc
    requires Shaped(Next(s, a)) && |s.pc| == |Next(s, a).pc| && Waits(Next(s, a), q, m)
    ensures Waits(s, q, m)
  {
  }

  /** A step by a process that does not hold m's lock. */
  lemma {:induction false} OutsideKeepsDue(s: State, a: Action, q: nat, m: nat)
    requires Shaped(s) && LocksOK(s) && Enabled(s, a) && q < |s.pc| && q != a.proc && m < |s.sems|
    requires |s.run| == |s.pc| && Waits(s, q, m)
    requires !HoldsSem(s.pc[a.proc], m) && (s.sems[m].value < s.pc[q].count || Due(s, m, q))
    requires |Next(s, a).pc| == |s.pc| && |Next(s, a).sems| == |s.sems|
    ensures Next(s, a).sems[m].value < s.pc[q].count || Due(Next(s, a), m, q)
  {
    assert s.sems[m].holder == Some(a.proc) <==> HoldsSem(s.pc[a.proc], m);
  }

  /** A step by the process that holds m's lock. */
  lemma {:induction false} HolderKeepsDue(s: State, p: nat, q: nat, m: nat)
    requires Inv(s) && Enabled(s, Step(p)) && Polite(s, p) && q < |s.pc| && q != p && m < |s.sems|
    requires HoldsSem(s.pc[p], m) && Waits(s, q, m)
    requires Shaped(Next(s, Step(p))) && |Next(s, Step(p)).pc| == |s.pc| && |Next(s, Step(p)).sems| == |s.sems|
    requires Waits(Next(s, Step(p)), q, m)
    ensures Next(s, Step(p)).sems[m].value < s.pc[q].count || Due(Next(s, Step(p)), m, q)
  {
    assert s.sems[m].holder == Some(p) <==> HoldsSem(s.pc[p], m);
    assert s.sems[m].value < s.pc[q].count || Due(s, m, q);
    assert ProcOK(s, q);
    assert s.ptLock == Some(q) <==> HoldsTable(s.pc[q]);
    assert s.ptLock == Some(p) <==> HoldsTable(s.pc[p]);
  }

  /** A waiting request stays above the value, or its wakeup stays due. */
  lemma {:induction false} WaiterKept(s: State, a: Action, q: nat, m: nat)
    requires Inv(s) && Enabled(s, a) && (a.Step? ==> Polite(s, a.proc))
    requires Shaped(Next(s, a)) && q < |s.pc| == |Next(s, a).pc| && m < |s.sems| == |Next(s, a).sems|
    requires Waits(Next(s, a), q, m)
    ensures Next(s, a).sems[m].value < Next(s, a).pc[q].count || Due(Next(s, a), m, q)
  {
    var p := a.proc;
    if q == p {
      OwnWait(s, a, m);
    } else {
      WaitedBefore(s, a, q, m);
      ShapeKept(s, a);
      assert s.sems[m].value < s.pc[q].count || Due(s, m, q);
      if HoldsSem(s.pc[p], m) {
        HolderKeepsDue(s, p, q, m);
      } else {
        OutsideKeepsDue(s, a, q, m);
      }
    }
  }

  lemma {:induction false} OwnWait(s: State, a: Action, m: nat)
    requires Inv(s) && Enabled(s, a)
    requires Shaped(Next(s, a)) && |s.pc| == |Next(s, a).pc| && m < |s.sems| == |Next(s, a).sems|
    requires Waits(Next(s, a), a.proc, m)
    ensures Next(s, a).sems[m].value < Next(s, a).pc[a.proc].count || Due(Next(s, a), m, a.proc)
  {
    var p := a.proc;
    assert ProcOK(s, p);
    if s.pc[p].SleepRelease? {
      assert s.sems[m].value < s.pc[p].count;
    } else {
      assert Waits(s, p, m);
      assert s.sems[m].value < s.pc[p].count || Due(s, m, p);
    }
  }

  lemma {:induction false} SleeperKept(s: State, a: Action, q: nat)
    requires Inv(s) && Enabled(s, a)
    requires Shaped(Next(s, a)) && q < |s.pc| == |Next(s, a).pc| && |s.sems| == |Next(s, a).sems|
    requires Next(s, a).pc[q].SleepAcquire? || Next(s, a).pc[q].SleepRelease?
    ensures Next(s, a).sems[Next(s, a).pc[q].sem].value < Next(s, a).pc[q].count
  {
    var t, p := Next(s, a), a.proc;
    if q != p {
      assert s.pc[q] == t.pc[q];
      var m := s.pc[q].sem;
      assert s.sems[m].holder == Some(p) <==> HoldsSem(s.pc[p], m);
      assert s.sems[m].holder == Some(q) <==> HoldsSem(s.pc[q], m);
    }
  }

  lemma {:induction false} StepKeeps(s: State, a: Action)
    requires Inv(s) && Enabled(s, a) && (a.Step? ==> Polite(s, a.proc))
    ensures Inv(Next(s, a))
  {
    var t := Next(s, a);
    hide Next, Enabled, LocksOK, HoldsSem, HoldsTable;
    ShapeKept(s, a);
    LocksKept(s, a);
    ConservedKept(s, a);
    forall q | 0 <= q < |t.pc|
      ensures ProcOK(t, q)
    {
      ProcsKept(s, a, q);
    }
    forall q, m | 0 <= q < |t.pc| && 0 <= m < |t.sems| && Waits(t, q, m)
      ensures t.sems[m].value < t.pc[q].count || Due(t, m, q)
    {
      WaiterKept(s, a, q, m);
    }
    forall q | 0 <= q < |t.pc| && (t.pc[q].SleepAcquire? || t.pc[q].SleepRelease?)
      ensures t.sems[t.pc[q].sem].value < t.pc[q].count
    {
      SleeperKept(s, a, q);
    }
  }

  // ---- runs ----

  /** All processes idle and on the CPU, every semaphore inactive with value 0. */
  function Boot(nproc: nat, nsem: nat): State {
    State(seq(nproc, _ => Idle), seq(nproc, _ => Running), seq(nproc, _ => None), None,
          seq(nsem, _ => Semaphore(0, false, None, 0, 0, 0)))
  }

  /** The run is possible and ends in the returned state. */
  ghost function Play(s: State, run: seq<Action>): Option<State> {
    if run == [] then Some(s)
    else match Play(s, run[..|run| - 1])
      case None => None
      case Some(t) =>
        if Shaped(t) && Enabled(t, run[|run| - 1]) then Some(Next(t, run[|run| - 1])) else None
  }

  ghost predicate PoliteRun(s: State, run: seq<Action>) {
    run != [] ==>
      && PoliteRun(s, run[..|run| - 1])
      && match Play(s, run[..|run| - 1])
         case None => true
         case Some(t) => Shaped(t) && Enabled(t, run[|run| - 1]) && run[|run| - 1].Step? ==>
             Polite(t, run[|run| - 1].proc)
  }

  lemma {:induction false} RunKeeps(s: State, run: seq<Action>, t: State)
    requires Inv(s) && Play(s, run) == Some(t) && PoliteRun(s, run)
    ensures Inv(t)
    decreases |run|
  {
    if run != [] {
      var u := Play(s, run[..|run| - 1]).value;
      RunKeeps(s, run[..|run| - 1], u);
      StepKeeps(u, run[|run| - 1]);
    }
  }

  lemma {:induction false} BootOK(nproc: nat, nsem: nat)
    ensures Inv(Boot(nproc, nsem))
  {
  }

  /** With m's lock free, a process asleep on m could have been granted its request. */
  ghost predicate Stranded(s: State, p: nat, m: nat) {
    && p < |s.pc| && p < |s.run| && m < |s.sems| && s.sems[m].holder.None?
    && s.pc[p].Asleep? && s.run[p].Sleeping? && s.pc[p].sem == m && s.sems[m].value >= s.pc[p].count
  }

  /** Over every polite run: whenever a semaphore's lock is free, every process asleep on it asks
      for more than its value. */
  lemma {:induction false} NobodyIsStranded(nproc: nat, nsem: nat, run: seq<Action>, t: State)
    requires Play(Boot(nproc, nsem), run) == Some(t) && PoliteRun(Boot(nproc, nsem), run)
    ensures forall p, m :: !Stranded(t, p, m)
  {
    hide Play, PoliteRun, Boot;
    BootOK(nproc, nsem);
    RunKeeps(Boot(nproc, nsem), run, t);
    forall p, m
      ensures !Stranded(t, p, m)
    {
      NotStranded(t, p, m);
    }
  }

  lemma {:induction false} NotStranded(t: State, p: nat, m: nat)
    requires Inv(t)
    ensures !Stranded(t, p, m)
  {
    if p < |t.pc| && m < |t.sems| && Waits(t, p, m) {
      assert t.sems[m].value < t.pc[p].count || Due(t, m, p);
    }
  }

  /** Over every run, polite or not: the value is what was put in less what was granted, as 32-bit
      numbers. */
  lemma {:induction false} ValueIsConserved(nproc: nat, nsem: nat, run: seq<Action>, t: State)
    requires Play(Boot(nproc, nsem), run) == Some(t)
    ensures Shaped(t) && Conserved(t)
    decreases |run|
  {
    if run == [] {
      SameSelf();
    } else {
      var u := Play(Boot(nproc, nsem), run[..|run| - 1]).value;
      ValueIsConserved(nproc, nsem, run[..|run| - 1], u);
      ShapeKept(u, run[|run| - 1]);
      ConservedKept(u, run[|run| - 1]);
    }
  }

  // ---- the condition is exact ----

  /** From a good state, a step leads to a good state if and only if it is polite. */
  lemma {:induction false} PoliteIsExact(s: State, p: nat)
    requires Inv(s) && Enabled(s, Step(p))
    ensures Inv(Next(s, Step(p))) <==> Polite(s, p)
  {
    if Polite(s, p) {
      StepKeeps(s, Step(p));
    } else {
      var m := s.pc[p].sem;
      var t := Next(s, Step(p));
      var v := t.sems[m].value;
      var q :| 0 <= q < |s.pc| && Waits(s, q, m) && v >= s.pc[q].count;
      assert HoldsSem(s.pc[p], m) && s.sems[m].holder == Some(p);
      assert Waits(t, q, m) && !Due(t, m, q);
    }
  }

  /** Process p is about to be granted c units of m. */
  ghost predicate Grants(s: State, p: nat, m: nat, c: int) {
    Shaped(s) && p < |s.pc| && s.pc[p] == WaitCheck(m, c) && s.sems[m].value >= c
  }

  /** Granting c is safe in every good state. */
  ghost predicate GrantIsSafe(c: int) {
    forall s: State, p: nat, m: nat :: Inv(s) && Grants(s, p, m, c) ==> Inv(Next(s, Step(p)))
  }

  /** A semaphore with value v, process 0 asleep for one unit more, process 1 about to be granted c. */
  function Ready(v: int, c: int): State {
    State([Asleep(0, v + 1), WaitCheck(0, c)], [Sleeping, Running], [Some(0), None], None,
          [Semaphore(v, true, Some(1), v, 0, 0)])
  }

  lemma {:induction false} ReadyIsGood(v: int, c: int)
    requires IsInt(v) && IsInt(v + 1) && IsInt(c)
    ensures Inv(Ready(v, c))
  {
    var s := Ready(v, c);
    assert forall p :: 0 <= p < |s.pc| ==> PcOK(s, s.pc[p]) && ProcOK(s, p);
    SameSelf();
  }

  lemma {:induction false} ReadyStrands(v: int, c: int)
    requires IsInt(v) && IsInt(v + 1) && IsInt(c) && v >= c && Wrap(v - c) > v
    ensures Grants(Ready(v, c), 1, 0, c) && !Inv(Next(Ready(v, c), Step(1)))
  {
    ReadyIsGood(v, c);
    var s := Ready(v, c);
    assert Waits(s, 0, 0);
    PoliteIsExact(s, 1);
  }

  /** A wait for c that is granted keeps every good state if and only if c is not negative. */
  lemma {:induction false} GrantExact(c: int)
    requires IsInt(c)
    ensures GrantIsSafe(c) <==> c >= 0
  {
    if c >= 0 {
      forall s: State, p: nat, m: nat | Inv(s) && Grants(s, p, m, c)
        ensures Inv(Next(s, Step(p)))
      {
        NonNegativeWaitsArePolite(s, p);
        StepKeeps(s, Step(p));
      }
    } else {
      var v := if c == -INT_MAX - 1 then -1 else 0;
      assert Wrap(v - c) > v;
      ReadyStrands(v, c);
      ReadyIsGood(v, c);
      hide Inv, Next, Ready;
      assert Grants(Ready(v, c), 1, 0, c);
    }
  }

  /** The smallest request that waits for m among the first k processes. */
  function Smallest(s: State, m: nat, k: nat): (r: Option<int>)
    requires |s.run| == |s.pc| && k <= |s.pc|
    requires forall q :: 0 <= q < |s.pc| && Waits(s, q, m) ==> !s.pc[q].Idle?
    ensures r.None? <==> forall q :: 0 <= q < k ==> !Waits(s, q, m)
    ensures r.Some? ==> forall q :: 0 <= q < k && Waits(s, q, m) ==> r.value <= s.pc[q].count
    ensures r.Some? ==> exists q :: 0 <= q < k && Waits(s, q, m) && s.pc[q].count == r.value
  {
    if k == 0 then None
    else
      var r := Smallest(s, m, k - 1);
      if !Waits(s, k - 1, m) then r
      else if r.Some? && r.value <= s.pc[k - 1].count then r
      else Some(s.pc[k - 1].count)
  }

  /** Initialising a semaphore to v keeps a good state if and only if it is active already, nobody
      waits for it, or v is below the smallest request. */
  lemma {:induction false} InitExact(s: State, p: nat, m: nat, v: int)
    requires Inv(s) && p < |s.pc| && s.pc[p] == InitSet(m, v)
    ensures var least := Smallest(s, m, |s.pc|);
            Inv(Next(s, Step(p))) <==> s.sems[m].active || least.None? || v < least.value
  {
    PoliteIsExact(s, p);
    hide Inv, Next;
  }

  // ---- what callers can do to stay polite ----

  /** Waits for a nonnegative number of units, and sem_init only below what is waited for. */
  ghost predicate Careful(s: State, a: Action)
    requires Shaped(s) && Enabled(s, a)
  {
    match a
    case Call(_, WaitAcquire(_, c)) => c >= 0
    case Step(p) =>
      s.pc[p].InitSet? && !s.sems[s.pc[p].sem].active ==>
        forall q :: 0 <= q < |s.pc| && Waits(s, q, s.pc[p].sem) ==> s.pc[p].initial < s.pc[q].count
    case _ => true
  }

  ghost predicate CarefulRun(s: State, run: seq<Action>) {
    run != [] ==>
      && CarefulRun(s, run[..|run| - 1])
      && match Play(s, run[..|run| - 1])
         case None => true
         case Some(t) => Shaped(t) && Enabled(t, run[|run| - 1]) ==> Careful(t, run[|run| - 1])
  }

  /** A wait in progress is for a nonnegative number of units. */
  predicate WaitsUp(pc: Pc) {
    match pc
    case WaitAcquire(_, c) => c >= 0
    case WaitCheck(_, c) => c >= 0
    case SleepAcquire(_, c) => c >= 0
    case SleepRelease(_, c) => c >= 0
    case SleepMark(_, c) => c >= 0
    case SleepSched(_, c) => c >= 0
    case Asleep(_, c) => c >= 0
    case Woken(_, c) => c >= 0
    case _ => true
  }

  ghost predicate AllWaitUp(s: State) {
    forall p :: 0 <= p < |s.pc| ==> WaitsUp(s.pc[p])
  }

  lemma {:induction false} CarefulStep(s: State, a: Action)
    requires Inv(s) && AllWaitUp(s) && Enabled(s, a) && Careful(s, a)
    ensures AllWaitUp(Next(s, a)) && (a.Step? ==> Polite(s, a.proc))
  {
    if a.Step? && s.pc[a.proc].WaitCheck? {
      assert WaitsUp(s.pc[a.proc]);
      NonNegativeWaitsArePolite(s, a.proc);
    }
    assert a.Step? ==> Polite(s, a.proc);
    hide Polite;
    ShapeKept(s, a);
    ActorWaitsUp(s, a);
    hide Next, Enabled, Inv, Careful, WaitsUp;
    assert WaitsUp(s.pc[a.proc]);
  }

  lemma {:induction false} ActorWaitsUp(s: State, a: Action)
    requires Shaped(s) && Enabled(s, a) && Careful(s, a) && a.proc < |s.pc| && WaitsUp(s.pc[a.proc])
    ensures a.proc < |Next(s, a).pc| ==> WaitsUp(Next(s, a).pc[a.proc])
  {
  }

  /** Over every careful run, whatever is signalled, nobody is stranded. */
  lemma {:induction false} CarefulRunsAreSafe(nproc: nat, nsem: nat, run: seq<Action>, t: State)
    requires Play(Boot(nproc, nsem), run) == Some(t) && CarefulRun(Boot(nproc, nsem), run)
    ensures PoliteRun(Boot(nproc, nsem), run) && Inv(t) && AllWaitUp(t)
    ensures forall p, m :: !Stranded(t, p, m)
    decreases |run|
  {
    var b := Boot(nproc, nsem);
    if run == [] {
      BootOK(nproc, nsem);
    } else {
      var u := Play(b, run[..|run| - 1]).value;
      CarefulRunsAreSafe(nproc, nsem, run[..|run| - 1], u);
      CarefulStep(u, run[|run| - 1]);
      StepKeeps(u, run[|run| - 1]);
      hide Inv, Polite, Careful;
    }
    NobodyIsStranded(nproc, nsem, run, t);
  }

  // ---- the value as a number ----

  /** All arguments that were passed are nonnegative. */
  predicate NonNegative(pc: Pc) {
    match pc
    case InitAcquire(_, v) => v >= 0
    case InitSet(_, v) => v >= 0
    case SignalAcquire(_, c) => c >= 0
    case SignalAdd(_, c) => c >= 0
    case _ => WaitsUp(pc)
  }

  ghost predicate ArgsNonNegative(s: State) {
    forall p :: 0 <= p < |s.pc| ==> NonNegative(s.pc[p])
  }

  /** Every value is nonnegative and is what was put in less what was granted. */
  ghost predicate Plain(s: State) {
    forall m :: 0 <= m < |s.sems| ==> s.sems[m].value >= 0 && s.sems[m].value == Sum(s.sems[m])
  }

  /** If the action adds to a value, the sum is an int. */
  predicate Fits(s: State, a: Action)
    requires |s.run| == |s.pc|
  {
    a.Step? && a.proc < |s.pc| && s.pc[a.proc].SignalAdd? && s.pc[a.proc].sem < |s.sems| ==>
      s.sems[s.pc[a.proc].sem].value + s.pc[a.proc].count <= INT_MAX
  }

  ghost predicate NonNegativeCalls(run: seq<Action>) {
    forall k :: 0 <= k < |run| && run[k].Call? ==> NonNegative(run[k].entry)
  }

  /** In every state of the run the values are plain numbers. */
  ghost predicate PlainRun(s: State, run: seq<Action>) {
    && (Play(s, run).Some? ==> Plain(Play(s, run).value))
    && (run != [] ==> PlainRun(s, run[..|run| - 1]))
  }

  /** Every signal of the run fits. */
  ghost predicate FittingRun(s: State, run: seq<Action>) {
    run != [] ==>
      && FittingRun(s, run[..|run| - 1])
      && var u := Play(s, run[..|run| - 1]);
         u.Some? && Shaped(u.value) && Enabled(u.value, run[|run| - 1]) ==> Fits(u.value, run[|run| - 1])
  }

  lemma {:induction false} ArgsKept(s: State, a: Action)
    requires Shaped(s) && ArgsNonNegative(s) && Enabled(s, a) && (a.Call? ==> NonNegative(a.entry))
    ensures ArgsNonNegative(Next(s, a))
  {
    ShapeKept(s, a);
    assert NonNegative(s.pc[a.proc]);
    assert NonNegative(Next(s, a).pc[a.proc]);
  }

  /** With nonnegative arguments, a step keeps the values plain if and only if it fits. */
  lemma {:induction false} PlainIffFits(s: State, a: Action)
    requires Shaped(s) && Conserved(s) && ArgsNonNegative(s) && Enabled(s, a) && Plain(s)
    ensures Plain(Next(s, a)) <==> Fits(s, a)
  {
    var p, t := a.proc, Next(s, a);
    assert NonNegative(s.pc[p]);
    if a.Step? && s.pc[p].SignalAdd? {
      var m := s.pc[p].sem;
      assert t.sems[m].value == Wrap(s.sems[m].value + s.pc[p].count);
      assert Sum(t.sems[m]) == Sum(s.sems[m]) + s.pc[p].count;
    } else if a.Step? && s.pc[p].WaitCheck? {
      var m := s.pc[p].sem;
      assert s.sems[m].value >= s.pc[p].count ==> t.sems[m].value == s.sems[m].value - s.pc[p].count;
    }
  }

  /** Over runs with nonnegative arguments: every value is, in every state, nonnegative and what was
      put in less what was granted, if and only if no signal takes a value past 0x7FFFFFFF. */
  lemma {:induction false} ValuesPlainIffFitting(nproc: nat, nsem: nat, run: seq<Action>)
    requires Play(Boot(nproc, nsem), run).Some? && NonNegativeCalls(run)
    ensures PlainRun(Boot(nproc, nsem), run) <==> FittingRun(Boot(nproc, nsem), run)
    ensures ArgsNonNegative(Play(Boot(nproc, nsem), run).value)
    decreases |run|
  {
    var b := Boot(nproc, nsem);
    if run != [] {
      var pre, a := run[..|run| - 1], run[|run| - 1];
      var u := Play(b, pre).value;
      ValuesPlainIffFitting(nproc, nsem, pre);
      ValueIsConserved(nproc, nsem, pre, u);
      ArgsKept(u, a);
      hide Next, Conserved, Enabled, ArgsNonNegative, Boot;
      if PlainRun(b, pre) {
        PlainIsNow(b, pre);
        PlainIffFits(u, a);
      }
    }
  }

  lemma {:induction false} PlainIsNow(s: State, run: seq<Action>)
    requires Play(s, run).Some? && PlainRun(s, run)
    ensures Plain(Play(s, run).value)
  {
  }

  // ---- both exclusions are needed ----

  /** Two processes and one semaphore; process 1 never sleeps. */
  function Pair(pc0: Pc, pc1: Pc, run0: RunState, chan0: Option<nat>, pt: Option<nat>, x: Semaphore): State {
    State([pc0, pc1], [run0, Running], [chan0, None], pt, [x])
  }

  lemma {:induction false} PlayOne(run: seq<Action>, t: State, a: Action, u: State)
    requires Play(Boot(2, 1), run) == Some(t) && Shaped(t) && Enabled(t, a) && u == Next(t, a)
    ensures Play(Boot(2, 1), run + [a]) == Some(u)
  {
    assert (run + [a])[..|run + [a]| - 1] == run;
  }

  lemma {:induction false} Play1(run0: seq<Action>, t0: State, a: Action, u: State) returns (run: seq<Action>, t: State)
    requires Play(Boot(2, 1), run0) == Some(t0) && Shaped(t0) && Enabled(t0, a) && u == Next(t0, a)
    ensures Play(Boot(2, 1), run) == Some(t) && t == u && run == run0 + [a]
  {
    PlayOne(run0, t0, a, u);
    run, t := run0 + [a], u;
  }

  /** Process 0 asks for one unit of an empty semaphore and falls asleep: first half. */
  lemma {:induction false} GoToSleep() returns (run: seq<Action>, t: State)
    ensures Play(Boot(2, 1), run) == Some(t)
    ensures t == Pair(SleepAcquire(0, 1), Idle, Running, None, None, Semaphore(0, false, Some(0), 0, 0, 0))
  {
    var free, held := Semaphore(0, false, None, 0, 0, 0), Semaphore(0, false, Some(0), 0, 0, 0);
    run, t := [], Pair(Idle, Idle, Running, None, None, free);
    assert t == Boot(2, 1);
    assert Play(Boot(2, 1), []) == Some(t);
    hide Play, Boot;
    run, t := Play1(run, t, Call(0, WaitAcquire(0, 1)), Pair(WaitAcquire(0, 1), Idle, Running, None, None, free));
    run, t := Play1(run, t, Step(0), Pair(WaitCheck(0, 1), Idle, Running, None, None, held));
    run, t := Play1(run, t, Step(0), Pair(SleepAcquire(0, 1), Idle, Running, None, None, held));
  }

  lemma {:induction false} LetGo() returns (run: seq<Action>, t: State)
    ensures Play(Boot(2, 1), run) == Some(t)
    ensures t == Pair(SleepMark(0, 1), Idle, Running, None, Some(0), Semaphore(0, false, None, 0, 0, 0))
  {
    hide Play, Boot;
    run, t := GoToSleep();
    var held, free := Semaphore(0, false, Some(0), 0, 0, 0), Semaphore(0, false, None, 0, 0, 0);
    run, t := Play1(run, t, Step(0), Pair(SleepRelease(0, 1), Idle, Running, None, Some(0), held));
    run, t := Play1(run, t, Step(0), Pair(SleepMark(0, 1), Idle, Running, None, Some(0), free));
  }

  lemma {:induction false} FallAsleep() returns (run: seq<Action>, t: State)
    ensures Play(Boot(2, 1), run) == Some(t)
    ensures t == Pair(Asleep(0, 1), Idle, Sleeping, Some(0), None, Semaphore(0, false, None, 0, 0, 0))
  {
    hide Play, Boot;
    var free := Semaphore(0, false, None, 0, 0, 0);
    run, t := LetGo();
    run, t := Play1(run, t, Step(0), Pair(SleepSched(0, 1), Idle, Sleeping, Some(0), Some(0), free));
    run, t := Play1(run, t, Step(0), Pair(Asleep(0, 1), Idle, Sleeping, Some(0), None, free));
  }

  /** The sleeping process 0 next to whatever process 1 does. */
  function Beside(pc1: Pc, x: Semaphore): State {
    Pair(Asleep(0, 1), pc1, Sleeping, Some(0), None, x)
  }

  /** Process 1 calls `entry` and takes the semaphore's lock. */
  lemma {:induction false} TakeLock(entry: Pc, holding: Pc) returns (run: seq<Action>, t: State)
    requires IsEntry(entry) && !entry.KillAcquire? && entry.sem == 0
    requires PcOK(Beside(entry, Semaphore(0, false, None, 0, 0, 0)), entry)
    requires Next(Beside(entry, Semaphore(0, false, None, 0, 0, 0)), Step(1)) ==
      Beside(holding, Semaphore(0, false, Some(1), 0, 0, 0))
    ensures Play(Boot(2, 1), run) == Some(t) && t == Beside(holding, Semaphore(0, false, Some(1), 0, 0, 0))
  {
    hide Play, Boot;
    run, t := FallAsleep();
    run, t := Play1(run, t, Call(1, entry), Beside(entry, Semaphore(0, false, None, 0, 0, 0)));
    run, t := Play1(run, t, Step(1), Beside(holding, Semaphore(0, false, Some(1), 0, 0, 0)));
  }

  lemma {:induction false} BesideShaped(pc1: Pc, x: Semaphore)
    requires PcOK(Beside(pc1, x), pc1)
    ensures Shaped(Beside(pc1, x))
  {
  }

  lemma {:induction false} LetsGo(x: Semaphore)
    requires x.holder == Some(1)
    ensures Shaped(Beside(Release(0), x))
    ensures Enabled(Beside(Release(0), x), Step(1))
    ensures Next(Beside(Release(0), x), Step(1)) == Beside(Idle, x.(holder := None))
  {
  }

  /** Process 1 calls `entry`, takes the lock, updates the semaphore to `x` and releases it. */
  lemma {:induction false} OneCall(entry: Pc, holding: Pc, x: Semaphore) returns (run: seq<Action>, t: State)
    requires IsEntry(entry) && !entry.KillAcquire? && entry.sem == 0 && x.holder == Some(1)
    requires PcOK(Beside(entry, Semaphore(0, false, None, 0, 0, 0)), entry)
    requires Next(Beside(entry, Semaphore(0, false, None, 0, 0, 0)), Step(1)) ==
      Beside(holding, Semaphore(0, false, Some(1), 0, 0, 0))
    requires var held := Beside(holding, Semaphore(0, false, Some(1), 0, 0, 0));
             PcOK(held, holding) && Enabled(held, Step(1)) && Next(held, Step(1)) == Beside(Release(0), x)
    ensures Play(Boot(2, 1), run) == Some(t) && t == Beside(Idle, x.(holder := None))
  {
    hide Play, Boot, Next, Enabled, PcOK, Beside, Shaped;
    LetsGo(x);
    BesideShaped(holding, Semaphore(0, false, Some(1), 0, 0, 0));
    run, t := TakeLock(entry, holding);
    run, t := Play1(run, t, Step(1), Beside(Release(0), x));
    run, t := Play1(run, t, Step(1), Beside(Idle, x.(holder := None)));
  }

  /** Waiting for -1 units raises the value without waking the sleeper. */
  lemma {:induction false} NegativeWaitStrands() returns (run: seq<Action>, t: State)
    ensures Play(Boot(2, 1), run) == Some(t) && Stranded(t, 0, 0)
  {
    hide Play, Boot;
    run, t := OneCall(WaitAcquire(0, -1), WaitCheck(0, -1), Semaphore(1, false, Some(1), 0, 0, -1));
  }

  /** sem_wait does not look at `active`: initialising a semaphore someone already sleeps on
      raises the value without waking the sleeper. */
  lemma {:induction false} LateInitStrands() returns (run: seq<Action>, t: State)
    ensures Play(Boot(2, 1), run) == Some(t) && Stranded(t, 0, 0)
  {
    hide Play, Boot;
    run, t := OneCall(InitAcquire(0, 1), InitSet(0, 1), Semaphore(1, true, Some(1), 1, 0, 0));
  }

  // ---- a value can become negative ----

  /** Process 1 works alone on the semaphore. */
  function Alone(pc1: Pc, x: Semaphore): State {
    Pair(Idle, pc1, Running, None, None, x)
  }

  lemma {:induction false} InitStarts() returns (run: seq<Action>, t: State)
    ensures Play(Boot(2, 1), run) == Some(t) && NonNegativeCalls(run)
    ensures t == Alone(InitSet(0, INT_MAX), Semaphore(0, false, Some(1), 0, 0, 0))
  {
    run, t := [], Alone(Idle, Semaphore(0, false, None, 0, 0, 0));
    assert t == Boot(2, 1);
    assert Play(Boot(2, 1), []) == Some(t);
    hide Play, Boot;
    var acquire := InitAcquire(0, INT_MAX);
    run, t := Play1(run, t, Call(1, acquire), Alone(acquire, Semaphore(0, false, None, 0, 0, 0)));
    run, t := Play1(run, t, Step(1), Alone(InitSet(0, INT_MAX), Semaphore(0, false, Some(1), 0, 0, 0)));
  }

  lemma {:induction false} InitToMax() returns (run: seq<Action>, t: State)
    ensures Play(Boot(2, 1), run) == Some(t) && NonNegativeCalls(run)
    ensures t == Alone(Idle, Semaphore(INT_MAX, true, None, INT_MAX, 0, 0))
  {
    hide Play, Boot;
    run, t := InitStarts();
    run, t := Play1(run, t, Step(1), Alone(Release(0), Semaphore(INT_MAX, true, Some(1), INT_MAX, 0, 0)));
    run, t := Play1(run, t, Step(1), Alone(Idle, Semaphore(INT_MAX, true, None, INT_MAX, 0, 0)));
  }

  /** sem_init(0, 0x7FFFFFFF) and sem_signal(0, 1): the value is -2^31. */
  lemma {:induction false} SignalOverflows() returns (run: seq<Action>, t: State)
    ensures Play(Boot(2, 1), run) == Some(t) && NonNegativeCalls(run)
    ensures |t.sems| == 1 && t.sems[0].value == -0x8000_0000
  {
    hide Play, Boot;
    var max := Semaphore(INT_MAX, true, None, INT_MAX, 0, 0);
    run, t := InitToMax();
    run, t := Play1(run, t, Call(1, SignalAcquire(0, 1)), Alone(SignalAcquire(0, 1), max));
    run, t := Play1(run, t, Step(1), Alone(SignalAdd(0, 1), max.(holder := Some(1))));
    assert Wrap(INT_MAX + 1) == -0x8000_0000;
    run, t := Play1(run, t, Step(1), Alone(WakeAcquire(0), Semaphore(-0x8000_0000, true, Some(1), INT_MAX, 1, 0)));
  }
}
