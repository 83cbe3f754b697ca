/**
  Runs of the process table: fork, exit, wait, kill, sleep and wakeup steps of any number of
  processes in any order. A step is what happens while ptable.lock is held, or one of fork's
  assignments made without it (Lab/code/proc.c:202-379, 531-610).
 */
module ProcRuns {
  import opened Options
  import opened ProcTable

  /** Process `maker` is inside fork; `linked` once it has set the child's parent. */
  datatype Fork = Fork(maker: nat, linked: bool)

  /** `nextpid` counts on past 32 bits. `forks` is keyed by the child's slot. The processes that
      exited and those that wait returned are kept in order, and the pids that kill found. */
  datatype Sys = Sys(
    slots: seq<Proc>,
    init: nat,
    nextpid: nat,
    forks: map<nat, Fork>,
    exited: seq<nat>,
    reaped: seq<nat>,
    kills: set<int>)

  datatype Step =
    | Begin(cur: nat)             // fork: allocproc
    | Abandon(np: nat)            // fork: no stack or no memory
    | Link(np: nat)               // fork: set the parent
    | Publish(np: nat)            // fork: make it runnable
    | Exit(cur: nat)
    | Wait(cur: nat)              // one scan of wait or wait2, and what follows it
    | Kill(pid: int)
    | Sleep(cur: nat, n: nat)     // on something other than a process
    | Wakeup(n: nat)
    | Run(cur: nat)
    | Yield(cur: nat)

  predicate Busy(s: Sys, cur: nat) {
    exists np :: np in s.forks && s.forks[np].maker == cur
  }

  /** Process cur is running and not inside fork. */
  predicate Acts(s: Sys, cur: nat) {
    cur < |s.slots| && s.slots[cur].state == Running && !Busy(s, cur)
  }

  /** Process np is a child being made by a running process. */
  predicate Making(s: Sys, np: nat, linked: bool) {
    && np in s.forks && np < |s.slots| && s.forks[np].linked == linked
    && s.forks[np].maker < |s.slots| && s.slots[s.forks[np].maker].state == Running
  }

  function SetState(s: Sys, i: nat, st: PState): Sys
    requires i < |s.slots|
  {
    s.(slots := s.slots[i := s.slots[i].(state := st)])
  }

  ghost function ExitAll(s: seq<Proc>, cur: nat, init: nat): (r: seq<Proc>)
    requires cur < |s|
    ensures |r| == |s| && forall i :: 0 <= i < |s| ==> r[i] == ExitSlot(s, cur, init, i)
  {
    seq(|s|, i requires 0 <= i < |s| => ExitSlot(s, cur, init, i))
  }

  ghost function WaitNext(s: Sys, cur: nat): Sys
    requires cur < |s.slots|
  {
    var z := FirstZombie(s.slots, cur, 0);
    if z < |s.slots| then
      s.(slots := Reaped(s.slots, cur), reaped := s.reaped + [s.slots[z].serial])
    else if !HasChild(s.slots, cur) || s.slots[cur].killed then s
    else s.(slots := s.slots[cur := s.slots[cur].(chan := Some(OnProc(cur)), state := Sleeping)])
  }

  /** The state after a step; None when the step cannot be taken. */
  ghost function Next(s: Sys, a: Step): Option<Sys> {
    match a
    case Begin(cur) =>
      var np := FirstUnused(s.slots, 0);
      if !Acts(s, cur) || np == |s.slots| then None
      else Some(s.(slots := s.slots[np := s.slots[np].(state := Embryo, serial := s.nextpid)],
                   nextpid := s.nextpid + 1, forks := s.forks[np := Fork(cur, false)]))
    case Abandon(np) =>
      if !Making(s, np, false) then None
      else Some(SetState(s, np, Unused).(forks := s.forks - {np}))
    case Link(np) =>
      if !Making(s, np, false) then None
      else Some(s.(slots := s.slots[np := s.slots[np].(parent := Some(s.forks[np].maker))],
                   forks := s.forks[np := s.forks[np].(linked := true)]))
    case Publish(np) =>
      if !Making(s, np, true) then None
      else Some(SetState(s, np, Runnable).(forks := s.forks - {np}))
    case Exit(cur) =>
      if !Acts(s, cur) || cur == s.init then None
      else Some(s.(slots := ExitAll(s.slots, cur, s.init), exited := s.exited + [s.slots[cur].serial]))
    case Wait(cur) => if !Acts(s, cur) then None else Some(WaitNext(s, cur))
    case Kill(pid) =>
      if FirstPid(s.slots, pid, 0) == |s.slots| then Some(s)
      else Some(s.(slots := Killed(s.slots, pid), kills := s.kills + {pid}))
    case Sleep(cur, n) =>
      if !Acts(s, cur) then None
      else Some(s.(slots := s.slots[cur := s.slots[cur].(chan := Some(Other(n)), state := Sleeping)]))
    case Wakeup(n) => Some(s.(slots := WakeAll(s.slots, Some(Other(n)))))
    case Run(cur) =>
      if cur >= |s.slots| || s.slots[cur].state != Runnable then None
      else Some(s.(slots := s.slots[cur := s.slots[cur].(state := Running, chan := None)]))
    case Yield(cur) =>
      if cur >= |s.slots| || s.slots[cur].state != Running then None else Some(SetState(s, cur, Runnable))
  }

  ghost function Play(s: Sys, run: seq<Step>): Option<Sys> {
    if run == [] then Some(s)
    else
      var t := Play(s, run[..|run| - 1]);
      if t.None? then None else Next(t.value, run[|run| - 1])
  }

  /** After userinit: slot 0 is the first process, the others are unused. */
  function Start(n: nat): Sys
    requires n > 0
  {
    Sys([Proc(Runnable, 1, None, None, false)] + seq(n - 1, _ => EMPTY_SLOT), 0, 2, map[], [], [], {})
  }

  // ---- what every step keeps ----

  predicate Live(p: Proc) {
    p.state == Sleeping || p.state == Runnable || p.state == Running
  }

  /** Process i has a parent that can still wait for it. */
  predicate Cared(s: Sys, i: nat)
    requires i < |s.slots|
  {
    && s.slots[i].parent.Some? && s.slots[i].parent.value < |s.slots| && s.slots[i].parent.value != i
    && Live(s.slots[s.slots[i].parent.value])
  }

  ghost predicate Parents(s: Sys) {
    && s.init < |s.slots| && Live(s.slots[s.init]) && s.slots[s.init].parent.None?
    && (forall i :: 0 <= i < |s.slots| && i != s.init && (Live(s.slots[i]) || s.slots[i].state == Zombie) ==>
        Cared(s, i))
    && (forall i :: 0 <= i < |s.slots| && s.slots[i].state == Unused ==> s.slots[i].parent.None?)
  }

  ghost predicate Serials(s: Sys) {
    && (forall i :: 0 <= i < |s.slots| ==> s.slots[i].serial < s.nextpid)
    && (forall i :: 0 <= i < |s.slots| && s.slots[i].state != Unused ==> s.slots[i].serial > 0)
    && (forall i, j :: 0 <= i < j < |s.slots| && s.slots[i].serial > 0 ==> s.slots[i].serial != s.slots[j].serial)
    && s.nextpid > 0
  }

  /** Slot np is an embryo being made by a process that is not asleep. */
  predicate ForkOK(s: Sys, np: nat)
    requires np in s.forks
  {
    var f := s.forks[np];
    && np < |s.slots| && s.slots[np].state == Embryo
    && f.maker < |s.slots| && (s.slots[f.maker].state == Running || s.slots[f.maker].state == Runnable)
    && s.slots[np].parent == if f.linked then Some(f.maker) else None
  }

  /** The embryos are the children being made, each by a process of its own. */
  ghost predicate Forks(s: Sys) {
    && (forall i :: 0 <= i < |s.slots| && s.slots[i].state == Embryo ==> i in s.forks)
    && (forall np :: np in s.forks ==> ForkOK(s, np))
    && (forall a, b :: a in s.forks && b in s.forks && s.forks[a].maker == s.forks[b].maker ==> a == b)
  }

  /** A process asleep in wait has a child, and no zombie child. */
  ghost predicate Waits(s: Sys) {
    && (forall i :: 0 <= i < |s.slots| && s.slots[i].state == Sleeping ==> s.slots[i].chan.Some?)
    && (forall i :: 0 <= i < |s.slots| && s.slots[i].state == Sleeping && s.slots[i].chan.value.OnProc? ==>
          s.slots[i].chan.value.p == i && HasChild(s.slots, i) && !ZombieBefore(s.slots, i, |s.slots|))
  }

  ghost predicate Distinct(q: seq<nat>) {
    forall i, j :: 0 <= i < j < |q| ==> q[i] != q[j]
  }

  predicate ZombieSerial(s: Sys, n: nat) {
    exists i :: 0 <= i < |s.slots| && s.slots[i].state == Zombie && s.slots[i].serial == n
  }

  /** Every process that exited is a zombie or was reaped, not both, and was reaped once. */
  ghost predicate History(s: Sys) {
    && Distinct(s.exited) && Distinct(s.reaped)
    && (forall p :: p in s.exited ==> 0 < p < s.nextpid && (p in s.reaped <==> !ZombieSerial(s, p)))
    && (forall p :: p in s.reaped ==> p in s.exited)
    && (forall i :: 0 <= i < |s.slots| && s.slots[i].state != Unused ==>
        (s.slots[i].state == Zombie <==> s.slots[i].serial in s.exited))
  }

  ghost predicate Inv(s: Sys) {
    Parents(s) && Serials(s) && Forks(s) && Waits(s) && History(s)
  }

  // ---- steps that only make live processes sleep, wake or run ----

  predicate QuietSlot(s: Sys, t: Sys, i: nat)
    requires i < |s.slots| == |t.slots|
  {
    var p, q := s.slots[i], t.slots[i];
    && q.serial == p.serial && q.parent == p.parent
    && (if Live(p) then Live(q) else q.state == p.state)
    && (q.state == Sleeping ==>
          || (p.state == Sleeping && q.chan == p.chan)
          || (!Busy(s, i) && q.chan.Some? && q.chan.value.Other?)
          || (!Busy(s, i) && q.chan == Some(OnProc(i)) && HasChild(s.slots, i) && !ZombieBefore(s.slots, i, |s.slots|)))
  }

  ghost predicate Quiet(s: Sys, t: Sys) {
    && |t.slots| == |s.slots| && t.init == s.init && t.nextpid == s.nextpid && t.forks == s.forks
    && t.exited == s.exited && t.reaped == s.reaped
    && forall i :: 0 <= i < |s.slots| ==> QuietSlot(s, t, i)
  }

  lemma {:induction false} SameChildren(s: Sys, t: Sys, i: nat)
    requires Quiet(s, t)
    ensures HasChild(t.slots, i) <==> HasChild(s.slots, i)
    ensures ZombieBefore(t.slots, i, |t.slots|) <==> ZombieBefore(s.slots, i, |s.slots|)
  {
    forall j: nat ensures ZombieChild(t.slots, i, j) <==> ZombieChild(s.slots, i, j)
    {
      if j < |s.slots| {
        assert QuietSlot(s, t, j);
      }
    }
    if HasChild(s.slots, i) {
      var j :| 0 <= j < |s.slots| && s.slots[j].parent == Some(i);
      assert QuietSlot(s, t, j);
      assert t.slots[j].parent == Some(i);
    }
    if HasChild(t.slots, i) {
      var j :| 0 <= j < |t.slots| && t.slots[j].parent == Some(i);
      assert QuietSlot(s, t, j);
      assert s.slots[j].parent == Some(i);
    }
  }

  /** What a quiet step leaves alone, slot by slot. */
  lemma {:induction false} QuietSlots(s: Sys, t: Sys)
    requires Quiet(s, t)
    ensures forall i :: 0 <= i < |t.slots| ==>
      t.slots[i].serial == s.slots[i].serial && t.slots[i].parent == s.slots[i].parent
    ensures forall i :: 0 <= i < |t.slots| ==> (Live(t.slots[i]) <==> Live(s.slots[i]))
    ensures forall i :: 0 <= i < |t.slots| && !Live(s.slots[i]) ==> t.slots[i].state == s.slots[i].state
    ensures forall i :: 0 <= i < |t.slots| && Busy(s, i) && t.slots[i].state == Sleeping ==>
      s.slots[i].state == Sleeping
  {
    hide Busy, HasChild, ZombieBefore;
    forall i | 0 <= i < |t.slots|
      ensures t.slots[i].serial == s.slots[i].serial && t.slots[i].parent == s.slots[i].parent
      ensures (Live(t.slots[i]) <==> Live(s.slots[i])) && (!Live(s.slots[i]) ==> t.slots[i].state == s.slots[i].state)
      ensures Busy(s, i) && t.slots[i].state == Sleeping ==> s.slots[i].state == Sleeping
    {
      assert QuietSlot(s, t, i);
    }
  }

  lemma {:induction false} QuietKeepsTable(s: Sys, t: Sys)
    requires Parents(s) && Serials(s) && Quiet(s, t)
    ensures Parents(t) && Serials(t)
  {
    QuietSlots(s, t);
    hide Busy, QuietSlot;
    forall i | 0 <= i < |t.slots| && i != t.init && (Live(t.slots[i]) || t.slots[i].state == Zombie)
      ensures Cared(t, i)
    {
      assert Cared(s, i);
    }
  }

  lemma {:induction false} QuietKeepsForks(s: Sys, t: Sys)
    requires Forks(s) && Quiet(s, t)
    ensures Forks(t)
  {
    QuietSlots(s, t);
    hide QuietSlot;
    forall np | np in t.forks
      ensures t.slots[t.forks[np].maker].state == Running || t.slots[t.forks[np].maker].state == Runnable
    {
      assert Busy(s, s.forks[np].maker);
    }
  }

  lemma {:induction false} QuietKeepsWaits(s: Sys, t: Sys)
    requires Waits(s) && Quiet(s, t)
    ensures Waits(t)
  {
    forall i | 0 <= i < |t.slots| && t.slots[i].state == Sleeping
      ensures t.slots[i].chan.Some?
      ensures t.slots[i].chan.value.OnProc? ==>
        t.slots[i].chan.value.p == i && HasChild(t.slots, i) && !ZombieBefore(t.slots, i, |t.slots|)
    {
      assert QuietSlot(s, t, i);
      SameChildren(s, t, i);
    }
  }

  lemma {:induction false} QuietKeepsHistory(s: Sys, t: Sys)
    requires History(s) && Quiet(s, t)
    ensures History(t)
  {
    QuietSlots(s, t);
    hide Busy, QuietSlot, Quiet;
    forall p: nat ensures ZombieSerial(t, p) <==> ZombieSerial(s, p)
    {
      if ZombieSerial(s, p) {
        var i :| 0 <= i < |s.slots| && s.slots[i].state == Zombie && s.slots[i].serial == p;
        assert t.slots[i].state == Zombie;
      }
      if ZombieSerial(t, p) {
        var i :| 0 <= i < |t.slots| && t.slots[i].state == Zombie && t.slots[i].serial == p;
        assert s.slots[i].state == Zombie;
      }
    }
    hide ZombieSerial;
  }

  lemma {:induction false} QuietKeeps(s: Sys, t: Sys)
    requires Inv(s) && Quiet(s, t)
    ensures Inv(t)
  {
    QuietKeepsTable(s, t);
    QuietKeepsForks(s, t);
    QuietKeepsWaits(s, t);
    QuietKeepsHistory(s, t);
  }

  lemma {:induction false} OneSlotQuiet(s: Sys, t: Sys, i: nat)
    requires i < |s.slots| == |t.slots| && t.slots == s.slots[i := t.slots[i]] && QuietSlot(s, t, i)
    requires t.init == s.init && t.nextpid == s.nextpid && t.forks == s.forks && t.exited == s.exited
    requires t.reaped == s.reaped
    ensures Quiet(s, t)
  {
    hide Busy, HasChild, ZombieBefore;
    forall k | 0 <= k < |s.slots| ensures QuietSlot(s, t, k)
    {
    }
  }

  lemma {:induction false} WakeQuiet(s: Sys, t: Sys, c: Option<Chan>)
    requires t == s.(slots := WakeAll(s.slots, c))
    ensures Quiet(s, t)
  {
    hide Busy, HasChild, ZombieBefore;
    forall k | 0 <= k < |s.slots| ensures QuietSlot(s, t, k)
    {
    }
  }

  lemma {:induction false} WaitQuiet(s: Sys, cur: nat, t: Sys)
    requires Acts(s, cur) && t == WaitNext(s, cur) && t.reaped == s.reaped
    ensures Quiet(s, t)
  {
    assert FirstZombie(s.slots, cur, 0) == |s.slots|;
    assert !ZombieBefore(s.slots, cur, |s.slots|);
    OneSlotQuiet(s, t, cur);
  }

  lemma {:induction false} QuietStep(s: Sys, a: Step, t: Sys)
    requires Next(s, a) == Some(t)
    requires a.Kill? || a.Sleep? || a.Wakeup? || a.Run? || a.Yield?
    ensures Quiet(s, t)
  {
    hide Busy, HasChild, ZombieBefore, WaitNext, ExitAll;
    match a
    case Kill(pid) =>
      var i := FirstPid(s.slots, pid, 0);
      if i < |s.slots| {
        OneSlotQuiet(s, t, i);
      } else if |s.slots| > 0 {
        OneSlotQuiet(s, t, 0);
      }
    case Wakeup(n) => WakeQuiet(s, t, Some(Other(n)));
    case Sleep(cur, n) => OneSlotQuiet(s, t, cur);
    case Run(cur) => OneSlotQuiet(s, t, cur);
    case Yield(cur) => OneSlotQuiet(s, t, cur);
  }

  // ---- steps that make, pass on or remove processes ----

  /** Slot k is the only one that changed; it did not and does not hold a zombie. */
  ghost predicate OneSlot(s: Sys, t: Sys, k: nat) {
    && k < |s.slots| == |t.slots| && t.slots == s.slots[k := t.slots[k]]
    && s.slots[k].state != Zombie && t.slots[k].state != Zombie
    && t.init == s.init && t.exited == s.exited && t.reaped == s.reaped
  }

  lemma {:induction false} SameZombies(s: Sys, t: Sys, k: nat)
    requires OneSlot(s, t, k)
    ensures forall p: nat :: ZombieSerial(t, p) <==> ZombieSerial(s, p)
    ensures forall i: nat :: ZombieBefore(t.slots, i, |t.slots|) <==> ZombieBefore(s.slots, i, |s.slots|)
  {
    forall p: nat ensures ZombieSerial(t, p) <==> ZombieSerial(s, p)
    {
      if ZombieSerial(s, p) {
        var i :| 0 <= i < |s.slots| && s.slots[i].state == Zombie && s.slots[i].serial == p;
        assert t.slots[i].state == Zombie;
      }
      if ZombieSerial(t, p) {
        var i :| 0 <= i < |t.slots| && t.slots[i].state == Zombie && t.slots[i].serial == p;
        assert s.slots[i].state == Zombie;
      }
    }
    assert forall i: nat, j: nat :: ZombieChild(t.slots, i, j) <==> ZombieChild(s.slots, i, j);
  }

  lemma {:induction false} MoreChildren(s: Sys, t: Sys, k: nat, i: nat)
    requires OneSlot(s, t, k) && HasChild(s.slots, i)
    requires s.slots[k].parent.None? || t.slots[k].parent == s.slots[k].parent
    ensures HasChild(t.slots, i)
  {
    var j :| 0 <= j < |s.slots| && s.slots[j].parent == Some(i);
    assert t.slots[j].parent == Some(i);
  }

  /** Waits and the history only look at zombies, children and sleepers. */
  lemma {:induction false} OneSlotKeeps(s: Sys, t: Sys, k: nat)
    requires OneSlot(s, t, k) && Waits(s) && History(s)
    requires t.slots[k].state != Sleeping && t.nextpid >= s.nextpid
    requires s.slots[k].parent.None? || t.slots[k].parent == s.slots[k].parent
    requires t.slots[k].state != Unused ==> t.slots[k].serial !in t.exited
    ensures Waits(t) && History(t)
  {
    SameZombies(s, t, k);
    hide ZombieSerial, ZombieBefore;
    forall i | 0 <= i < |t.slots| && t.slots[i].state == Sleeping &&
               t.slots[i].chan.Some? && t.slots[i].chan.value.OnProc?
      ensures HasChild(t.slots, i)
    {
      MoreChildren(s, t, k, i);
    }
    hide HasChild;
  }

  lemma {:induction false} OneSlotParents(s: Sys, t: Sys, k: nat)
    requires Parents(s) && OneSlot(s, t, k) && !Live(s.slots[k])
    requires Live(t.slots[k]) ==>
      t.slots[k].parent.Some? && t.slots[k].parent.value < |s.slots| && Live(s.slots[t.slots[k].parent.value])
    requires t.slots[k].state == Unused ==> t.slots[k].parent.None?
    ensures Parents(t)
  {
    forall i | 0 <= i < |t.slots| && i != t.init && (Live(t.slots[i]) || t.slots[i].state == Zombie)
      ensures Cared(t, i)
    {
      if i != k {
        assert Cared(s, i);
      }
    }
  }

  lemma {:induction false} OneSlotSerials(s: Sys, t: Sys, k: nat)
    requires Serials(s) && OneSlot(s, t, k)
    requires if t.nextpid == s.nextpid then t.slots[k].serial == s.slots[k].serial
             else t.slots[k].serial == s.nextpid && t.nextpid == s.nextpid + 1
    requires s.slots[k].state == Unused && t.slots[k].state != Unused ==> t.slots[k].serial > 0
    ensures Serials(t)
  {
  }

  lemma {:induction false} BeginForks(s: Sys, cur: nat, t: Sys, np: nat)
    requires Forks(s) && Acts(s, cur) && OneSlot(s, t, np)
    requires s.slots[np].state == Unused && t.slots[np].state == Embryo && t.slots[np].parent.None?
    requires t.forks == s.forks[np := Fork(cur, false)]
    ensures Forks(t)
  {
  }

  lemma {:induction false} LinkForks(s: Sys, np: nat, t: Sys)
    requires Forks(s) && OneSlot(s, t, np) && np in s.forks
    requires t.slots[np].state == Embryo && t.slots[np].parent == Some(s.forks[np].maker)
    requires t.forks == s.forks[np := s.forks[np].(linked := true)]
    ensures Forks(t)
  {
  }

  lemma {:induction false} EndForks(s: Sys, np: nat, t: Sys)
    requires Forks(s) && OneSlot(s, t, np) && s.slots[np].state == Embryo
    requires t.slots[np].state == Unused || t.slots[np].state == Runnable
    requires t.forks == s.forks - {np}
    ensures Forks(t)
  {
  }

  lemma {:induction false} BeginKeeps(s: Sys, cur: nat, t: Sys)
    requires Inv(s) && Next(s, Begin(cur)) == Some(t)
    ensures Inv(t)
  {
    var np := FirstUnused(s.slots, 0);
    assert s.nextpid !in s.exited && s.nextpid > 0 && s.slots[np].parent.None?;
    hide History, Waits, Forks, Serials, Parents, Acts;
    OneSlotKeeps(s, t, np);
    OneSlotParents(s, t, np);
    OneSlotSerials(s, t, np);
    BeginForks(s, cur, t, np);
  }

  lemma {:induction false} AbandonKeeps(s: Sys, np: nat, t: Sys)
    requires Inv(s) && Next(s, Abandon(np)) == Some(t)
    ensures Inv(t)
  {
    assert s.slots[np].state == Embryo && s.slots[np].parent.None?;
    hide History, Waits, Forks, Serials, Parents;
    OneSlotKeeps(s, t, np);
    OneSlotParents(s, t, np);
    OneSlotSerials(s, t, np);
    EndForks(s, np, t);
  }

  lemma {:induction false} LinkKeeps(s: Sys, np: nat, t: Sys)
    requires Inv(s) && Next(s, Link(np)) == Some(t)
    ensures Inv(t)
  {
    assert s.slots[np].state == Embryo && s.slots[np].parent.None? && s.slots[np].serial !in s.exited;
    hide History, Waits, Forks, Serials, Parents;
    OneSlotKeeps(s, t, np);
    OneSlotParents(s, t, np);
    OneSlotSerials(s, t, np);
    LinkForks(s, np, t);
  }

  lemma {:induction false} PublishKeeps(s: Sys, np: nat, t: Sys)
    requires Inv(s) && Next(s, Publish(np)) == Some(t)
    ensures Inv(t)
  {
    assert s.slots[np].state == Embryo && s.slots[np].serial !in s.exited;
    assert s.slots[np].parent == Some(s.forks[np].maker);
    hide History, Waits, Forks, Serials, Parents;
    OneSlotKeeps(s, t, np);
    OneSlotParents(s, t, np);
    OneSlotSerials(s, t, np);
    EndForks(s, np, t);
  }

  // ---- exit ----

  lemma {:induction false} ExitParents(s: Sys, cur: nat, t: Sys)
    requires Parents(s) && cur < |s.slots| && s.slots[cur].state == Running && cur != s.init
    requires t.init == s.init && t.slots == ExitAll(s.slots, cur, s.init)
    ensures Parents(t)
  {
    hide ZombieBefore;
    forall i | 0 <= i < |t.slots| && i != t.init && (Live(t.slots[i]) || t.slots[i].state == Zombie)
      ensures Cared(t, i)
    {
      assert Cared(s, i) && Cared(s, cur);
    }
  }

  lemma {:induction false} ExitSerials(s: Sys, cur: nat, t: Sys)
    requires Serials(s) && cur < |s.slots| && s.slots[cur].state == Running
    requires t.nextpid == s.nextpid && t.slots == ExitAll(s.slots, cur, s.init)
    ensures Serials(t)
  {
    hide ZombieBefore;
  }

  lemma {:induction false} ExitForks(s: Sys, cur: nat, t: Sys)
    requires Forks(s) && Acts(s, cur)
    requires t.forks == s.forks && t.slots == ExitAll(s.slots, cur, s.init)
    ensures Forks(t)
  {
    hide ZombieBefore;
    forall np | np in t.forks ensures t.forks[np].maker != cur
    {
    }
  }

  lemma {:induction false} ExitWaits(s: Sys, cur: nat, t: Sys)
    requires Parents(s) && Waits(s) && cur < |s.slots| && s.slots[cur].state == Running && cur != s.init
    requires t.slots == ExitAll(s.slots, cur, s.init)
    ensures Waits(t)
  {
    assert Cared(s, cur);
    forall i | 0 <= i < |t.slots| && t.slots[i].state == Sleeping
      ensures t.slots[i].chan.Some?
      ensures t.slots[i].chan.value.OnProc? ==>
        t.slots[i].chan.value.p == i && HasChild(t.slots, i) && !ZombieBefore(t.slots, i, |t.slots|)
    {
      if s.slots[i].chan.value.OnProc? {
        ExitSleeper(s, cur, t, i);
      }
    }
  }

  lemma {:induction false} ExitSleeper(s: Sys, cur: nat, t: Sys, i: nat)
    requires cur < |s.slots| && Cared(s, cur) && Waits(s) && s.slots[cur].state == Running
    requires t.slots == ExitAll(s.slots, cur, s.init)
    requires i < |s.slots| && t.slots[i].state == Sleeping && s.slots[i].chan.Some? && s.slots[i].chan.value.OnProc?
    ensures HasChild(t.slots, i) && !ZombieBefore(t.slots, i, |t.slots|)
  {
    var j :| 0 <= j < |s.slots| && s.slots[j].parent == Some(i);
    assert t.slots[j].parent == Some(i);
    forall k: nat ensures !ZombieChild(t.slots, i, k)
    {
      if k < |s.slots| && s.slots[k].parent == Some(cur) && s.slots[k].state == Zombie {
        assert ZombieChild(s.slots, cur, k);
      }
      assert !ZombieChild(s.slots, i, k);
    }
  }

  lemma {:induction false} ExitHistory(s: Sys, cur: nat, t: Sys)
    requires History(s) && Serials(s) && cur < |s.slots| && s.slots[cur].state == Running
    requires t.nextpid == s.nextpid && t.slots == ExitAll(s.slots, cur, s.init)
    requires t.exited == s.exited + [s.slots[cur].serial] && t.reaped == s.reaped
    ensures History(t)
  {
    hide ZombieBefore;
    var number := s.slots[cur].serial;
    assert number !in s.exited;
    forall p: nat ensures ZombieSerial(t, p) <==> ZombieSerial(s, p) || p == number
    {
      assert t.slots[cur].state == Zombie && t.slots[cur].serial == number;
      if ZombieSerial(s, p) {
        var i :| 0 <= i < |s.slots| && s.slots[i].state == Zombie && s.slots[i].serial == p;
        assert t.slots[i].state == Zombie;
      }
    }
    hide ZombieSerial;
  }

  lemma {:induction false} ExitKeeps(s: Sys, cur: nat, t: Sys)
    requires Inv(s) && Next(s, Exit(cur)) == Some(t)
    ensures Inv(t)
  {
    hide History, Waits, Forks, Serials, Parents, ExitAll;
    ExitParents(s, cur, t);
    ExitSerials(s, cur, t);
    ExitForks(s, cur, t);
    ExitWaits(s, cur, t);
    ExitHistory(s, cur, t);
  }

  // ---- reaping ----

  lemma {:induction false} ReapParents(s: Sys, z: nat, t: Sys)
    requires Parents(s) && z < |s.slots| && s.slots[z].state == Zombie
    requires t.init == s.init
    requires t.slots == s.slots[z := s.slots[z].(serial := 0, parent := None, killed := false, state := Unused)]
    ensures Parents(t)
  {
    forall i | 0 <= i < |t.slots| && i != t.init && (Live(t.slots[i]) || t.slots[i].state == Zombie)
      ensures Cared(t, i)
    {
      assert Cared(s, i);
    }
  }

  lemma {:induction false} ReapForks(s: Sys, z: nat, t: Sys)
    requires Serials(s) && Forks(s) && z < |s.slots| && s.slots[z].state == Zombie
    requires t.slots == s.slots[z := s.slots[z].(serial := 0, parent := None, killed := false, state := Unused)]
    requires t.nextpid == s.nextpid && t.forks == s.forks
    ensures Serials(t) && Forks(t)
  {
    assert Serials(t) by { hide Forks; }
    assert Forks(t) by { hide Serials; }
  }

  lemma {:induction false} ReapWaits(s: Sys, cur: nat, z: nat, t: Sys)
    requires Waits(s) && z < |s.slots| && ZombieChild(s.slots, cur, z) && cur < |s.slots|
    requires s.slots[cur].state == Running
    requires t.slots == s.slots[z := s.slots[z].(serial := 0, parent := None, killed := false, state := Unused)]
    ensures Waits(t)
  {
    forall i: nat, j: nat ensures ZombieChild(t.slots, i, j) ==> ZombieChild(s.slots, i, j)
    {
    }
    forall i | 0 <= i < |t.slots| && t.slots[i].state == Sleeping && HasChild(s.slots, i)
      ensures HasChild(t.slots, i)
    {
      var j :| 0 <= j < |s.slots| && s.slots[j].parent == Some(i);
      assert t.slots[j].parent == Some(i);
    }
    hide HasChild;
  }

  lemma {:induction false} ReapHistory(s: Sys, z: nat, t: Sys)
    requires History(s) && Serials(s) && z < |s.slots| && s.slots[z].state == Zombie
    requires t.slots == s.slots[z := s.slots[z].(serial := 0, parent := None, killed := false, state := Unused)]
    requires t.nextpid == s.nextpid && t.exited == s.exited && t.reaped == s.reaped + [s.slots[z].serial]
    ensures History(t)
  {
    var number := s.slots[z].serial;
    assert ZombieSerial(s, number);
    forall p: nat ensures ZombieSerial(t, p) <==> ZombieSerial(s, p) && p != number
    {
      if ZombieSerial(s, p) && p != number {
        var i :| 0 <= i < |s.slots| && s.slots[i].state == Zombie && s.slots[i].serial == p;
        assert t.slots[i].state == Zombie;
      }
    }
    hide ZombieSerial;
  }

  lemma {:induction false} ReapKeeps(s: Sys, cur: nat, t: Sys)
    requires Inv(s) && Acts(s, cur) && t == WaitNext(s, cur) && t.reaped != s.reaped
    ensures Inv(t)
  {
    var z := FirstZombie(s.slots, cur, 0);
    hide History, Waits, Forks, Serials, Parents, Busy;
    ReapParents(s, z, t);
    ReapForks(s, z, t);
    ReapWaits(s, cur, z, t);
    ReapHistory(s, z, t);
  }

  /** Every step of every process keeps the table safe. */
  lemma {:induction false} StepKeeps(s: Sys, a: Step, t: Sys)
    requires Inv(s) && Next(s, a) == Some(t)
    ensures Inv(t)
  {
    hide Inv;
    match a
    case Begin(cur) => BeginKeeps(s, cur, t);
    case Abandon(np) => AbandonKeeps(s, np, t);
    case Link(np) => LinkKeeps(s, np, t);
    case Publish(np) => PublishKeeps(s, np, t);
    case Exit(cur) => ExitKeeps(s, cur, t);
    case Wait(cur) =>
      if t.reaped != s.reaped {
        ReapKeeps(s, cur, t);
      } else {
        WaitQuiet(s, cur, t);
        QuietKeeps(s, t);
      }
    case _ =>
      QuietStep(s, a, t);
      QuietKeeps(s, t);
  }

  lemma {:induction false} StartIsSafe(n: nat)
    requires n > 0
    ensures Inv(Start(n))
  {
    var s := Start(n);
    assert forall i :: 1 <= i < n ==> s.slots[i] == EMPTY_SLOT;
  }

  lemma {:induction false} RunKeeps(n: nat, run: seq<Step>)
    requires n > 0 && Play(Start(n), run).Some?
    ensures Inv(Play(Start(n), run).value)
  {
    if run == [] {
      StartIsSafe(n);
    } else {
      hide Inv, Next, Start;
      RunKeeps(n, run[..|run| - 1]);
      StepKeeps(Play(Start(n), run[..|run| - 1]).value, run[|run| - 1], Play(Start(n), run).value);
    }
  }

  /** In every reachable state: a process past EMBRYO other than init has a parent that can still
      wait for it; a process asleep in wait has a child to wait for and none that has exited; no
      process is reaped twice; and as long as fewer than 2^31 pids have been handed out, pids are
      positive and distinct. */
  lemma {:induction false} TableSafety(n: nat, run: seq<Step>, s: Sys)
    requires n > 0 && Play(Start(n), run) == Some(s)
    ensures forall i :: 0 <= i < |s.slots| && i != s.init && InUse(s, i) && s.slots[i].state != Embryo ==> Cared(s, i)
    ensures forall i, j :: 0 <= i < j < |s.slots| && InUse(s, i) && InUse(s, j) ==>
      s.slots[i].serial != s.slots[j].serial
    ensures forall i :: 0 <= i < |s.slots| && Wakes(s.slots[i], Some(OnProc(i))) ==>
      HasChild(s.slots, i) && forall j :: 0 <= j < |s.slots| && s.slots[j].parent == Some(i) ==>
          s.slots[j].state != Zombie
    ensures forall i, j :: 0 <= i < j < |s.reaped| ==> s.reaped[i] != s.reaped[j]
    ensures s.nextpid <= 0x8000_0000 ==> PidsGood(s)
  {
    hide Play, Start;
    RunKeeps(n, run);
    EarlyPids(s);
    hide Forks;
    forall i | 0 <= i < |s.slots| && Wakes(s.slots[i], Some(OnProc(i)))
      ensures HasChild(s.slots, i)
      ensures forall j :: 0 <= j < |s.slots| && s.slots[j].parent == Some(i) ==> s.slots[j].state != Zombie
    {
      WaitsMeans(s, i);
    }
    hide HasChild, Waits;
  }

  lemma {:induction false} WaitsMeans(s: Sys, i: nat)
    requires Waits(s) && i < |s.slots| && Wakes(s.slots[i], Some(OnProc(i)))
    ensures HasChild(s.slots, i)
    ensures forall j :: 0 <= j < |s.slots| && s.slots[j].parent == Some(i) ==> s.slots[j].state != Zombie
  {
    forall j | 0 <= j < |s.slots| && s.slots[j].parent == Some(i)
      ensures s.slots[j].state != Zombie
    {
      assert !ZombieChild(s.slots, i, j);
    }
  }

  /** Process i is asleep in wait. */
  predicate Awaits(s: Sys, i: nat) {
    i < |s.slots| && Wakes(s.slots[i], Some(OnProc(i)))
  }

  /** An exited process is never lost: until it is reaped it is a zombie, and its parent is alive
      and not asleep waiting for it. */
  lemma {:induction false} ZombieIsSeen(n: nat, run: seq<Step>, s: Sys, number: nat)
    requires n > 0 && Play(Start(n), run) == Some(s)
    requires number in s.exited && number !in s.reaped
    ensures exists i :: 0 <= i < |s.slots| && s.slots[i].state == Zombie && s.slots[i].serial == number &&
                        Cared(s, i) && !Awaits(s, s.slots[i].parent.value)
  {
    RunKeeps(n, run);
    assert ZombieSerial(s, number);
    var i :| 0 <= i < |s.slots| && s.slots[i].state == Zombie && s.slots[i].serial == number;
    assert Cared(s, i);
    var q := s.slots[i].parent.value;
    assert ZombieChild(s.slots, q, i);
    assert ZombieBefore(s.slots, q, |s.slots|);
  }

  // ---- pids ----

  predicate InUse(s: Sys, i: nat) {
    i < |s.slots| && s.slots[i].state != Unused
  }

  /** The pids of processes are positive, so fork's result tells them from a failure, and distinct. */
  ghost predicate PidsGood(s: Sys) {
    && (forall i :: 0 <= i < |s.slots| && InUse(s, i) ==> Pid(s.slots[i]) > 0)
    && (forall i, j :: 0 <= i < j < |s.slots| && InUse(s, i) && InUse(s, j) ==> Pid(s.slots[i]) != Pid(s.slots[j]))
  }

  /** The next pid is positive and no process has it. */
  predicate FreshPid(s: Sys) {
    Signed(s.nextpid) > 0 && forall i :: 0 <= i < |s.slots| && InUse(s, i) ==> Pid(s.slots[i]) != Signed(s.nextpid)
  }

  lemma {:induction false} EarlyPids(s: Sys)
    requires Serials(s)
    ensures s.nextpid <= 0x8000_0000 ==> PidsGood(s)
  {
    hide Signed;
    forall i | 0 <= i < |s.slots|
      ensures s.slots[i].serial < 0x8000_0000 ==> Pid(s.slots[i]) == s.slots[i].serial
    {
      SmallPid(s.slots[i].serial);
    }
  }

  lemma {:induction false} SmallPid(n: nat)
    ensures n < 0x8000_0000 ==> Signed(n) == n
  {
  }

  /** Which slots hold a process, and which process, changes only in fork. */
  lemma {:induction false} SameProcesses(s: Sys, a: Step, t: Sys)
    requires Forks(s) && Next(s, a) == Some(t) && !a.Begin?
    ensures |t.slots| == |s.slots|
    ensures forall i :: 0 <= i < |s.slots| && InUse(t, i) ==> InUse(s, i) && t.slots[i].serial == s.slots[i].serial
  {
    hide Busy, HasChild, ZombieBefore;
    if a.Exit? {
      assert forall i :: 0 <= i < |s.slots| ==> t.slots[i] == ExitSlot(s.slots, a.cur, s.init, i);
    }
  }

  lemma {:induction false} BeginPids(s: Sys, cur: nat, t: Sys)
    requires PidsGood(s) && Next(s, Begin(cur)) == Some(t)
    ensures PidsGood(t) <==> FreshPid(s)
  {
    hide Signed, Busy;
    var np := FirstUnused(s.slots, 0);
    assert t.slots == s.slots[np := t.slots[np]] && Pid(t.slots[np]) == Signed(s.nextpid) && InUse(t, np);
    if !FreshPid(s) && Signed(s.nextpid) > 0 {
      var i :| 0 <= i < |s.slots| && InUse(s, i) && Pid(s.slots[i]) == Signed(s.nextpid);
      assert InUse(t, i) && Pid(t.slots[i]) == Pid(t.slots[np]) && i != np;
    }
  }

  /** Pids stay good exactly when fork is not given a negative or zero pid or one in use. */
  lemma {:induction false} PidsExact(s: Sys, a: Step, t: Sys)
    requires Inv(s) && PidsGood(s) && Next(s, a) == Some(t)
    ensures PidsGood(t) <==> (a.Begin? ==> FreshPid(s))
  {
    hide Signed, Next, PidsGood, Parents, Waits, History, Forks, Serials, FreshPid;
    if a.Begin? {
      BeginPids(s, a.cur, t);
    } else {
      SameProcesses(s, a, t);
      FewerPids(s, t);
    }
  }

  lemma {:induction false} FewerPids(s: Sys, t: Sys)
    requires PidsGood(s) && |t.slots| == |s.slots|
    requires forall i :: 0 <= i < |s.slots| && InUse(t, i) ==> InUse(s, i) && t.slots[i].serial == s.slots[i].serial
    ensures PidsGood(t)
  {
    hide Signed;
  }

  /** The state after the first process has run and k forks have failed for want of memory. */
  function AfterFailures(k: nat): Sys {
    TwoSlots(FIRST, Proc(Unused, if k == 0 then 0 else k + 1, None, None, false), k + 2, map[], {})
  }

  function Failures(k: nat): seq<Step> {
    if k == 0 then [Run(0)] else Failures(k - 1) + [Begin(0)] + [Abandon(1)]
  }

  lemma {:induction false} FailedFork(k: nat) returns (t: Sys)
    ensures Next(AfterFailures(k), Begin(0)) == Some(t)
    ensures t == TwoSlots(FIRST, Proc(Embryo, k + 2, None, None, false), k + 3, map[1 := Fork(0, false)], {})
    ensures Next(t, Abandon(1)) == Some(AfterFailures(k + 1))
  {
    var s := AfterFailures(k);
    assert FirstUnused(s.slots, 0) == 1;
    t := TwoSlots(FIRST, Proc(Embryo, k + 2, None, None, false), k + 3, map[1 := Fork(0, false)], {});
    assert Next(s, Begin(0)).value.slots == t.slots;
    assert Next(t, Abandon(1)).value.slots == AfterFailures(k + 1).slots;
    assert Next(t, Abandon(1)).value.forks == map[];
  }

  lemma {:induction false} NoFailures()
    ensures Play(Start(2), Failures(0)) == Some(AfterFailures(0))
  {
    FirstRun();
    hide Next;
    assert Play(Start(2), []) == Some(Start(2));
    Extend(Start(2), [], Run(0));
    assert [] + [Run(0)] == [Run(0)];
  }

  lemma {:induction false} FailuresReach(k: nat)
    ensures Play(Start(2), Failures(k)) == Some(AfterFailures(k))
  {
    if k == 0 {
      NoFailures();
    } else {
      hide Next, AfterFailures, Start, Play;
      FailuresReach(k - 1);
      var t := FailedFork(k - 1);
      Extend(Start(2), Failures(k - 1), Begin(0));
      Extend(Start(2), Failures(k - 1) + [Begin(0)], Abandon(1));
    }
  }

  /** The counter wraps: after enough failed forks a child gets a negative pid, and in the end the
      pid of the first process. */
  lemma {:induction false} PidsWrap(k: nat) returns (t: Sys)
    requires k == 0x7FFF_FFFE || k == 0xFFFF_FFFF
    ensures Play(Start(2), Failures(k) + [Begin(0)]) == Some(t) && !PidsGood(t)
    ensures |t.slots| == 2 && InUse(t, 1)
    ensures Pid(t.slots[1]) == if k == 0x7FFF_FFFE then -0x8000_0000 else Pid(t.slots[0])
  {
    hide Next, Play, Failures, AfterFailures, Start, Signed;
    FailuresReach(k);
    t := FailedFork(k);
    Extend(Start(2), Failures(k), Begin(0));
    SignedValues();
    assert InUse(t, 0) && InUse(t, 1) && Pid(t.slots[1]) == Signed(k + 2) && Pid(t.slots[0]) == Signed(1);
  }

  lemma {:induction false} SignedValues()
    ensures Signed(0x8000_0000) == -0x8000_0000 && Signed(0x1_0000_0001) == Signed(1) == 1
  {
  }

  // ---- kill ----

  /** Only processes that kill was asked for are marked. */
  ghost predicate MarksRight(s: Sys) {
    forall i :: 0 <= i < |s.slots| && s.slots[i].killed ==> s.slots[i].state != Unused && Pid(s.slots[i]) in s.kills
  }

  /** The slot that kill finds holds no process: pid 0, or the pid of a fork that failed. */
  predicate HitsUnused(s: Sys, a: Step) {
    a.Kill? && FirstPid(s.slots, a.pid, 0) < |s.slots| && s.slots[FirstPid(s.slots, a.pid, 0)].state == Unused
  }

  /** Fork fails for a child that kill has already marked. */
  predicate AbandonsKilled(s: Sys, a: Step) {
    a.Abandon? && a.np < |s.slots| && s.slots[a.np].killed
  }

  lemma {:induction false} ExitMarks(s: Sys, cur: nat, t: Sys)
    requires MarksRight(s) && cur < |s.slots| && t.slots == ExitAll(s.slots, cur, s.init) && t.kills == s.kills
    ensures MarksRight(t)
  {
    hide ZombieBefore;
  }

  lemma {:induction false} KillMarks(s: Sys, pid: int, t: Sys)
    requires MarksRight(s) && Next(s, Kill(pid)) == Some(t)
    ensures MarksRight(t) <==> !HitsUnused(s, Kill(pid))
  {
    var i := FirstPid(s.slots, pid, 0);
    if i < |s.slots| {
      assert t.slots[i].killed && Pid(t.slots[i]) == pid && pid in t.kills;
      assert t.slots[i].state == Unused <==> s.slots[i].state == Unused;
    }
  }

  /** Marks stay right exactly when kill finds a process and fork does not abandon a marked one. */
  lemma {:induction false} MarksExact(s: Sys, a: Step, t: Sys)
    requires Inv(s) && MarksRight(s) && Next(s, a) == Some(t)
    ensures MarksRight(t) <==> !HitsUnused(s, a) && !AbandonsKilled(s, a)
  {
    hide Busy, HasChild, ZombieBefore, History, Waits, Parents, Serials, ExitAll;
    match a
    case Exit(cur) => ExitMarks(s, cur, t);
    case Abandon(np) => assert t.slots[np].killed == s.slots[np].killed;
    case Begin(cur) =>
    case Link(np) =>
    case Publish(np) =>
    case Kill(pid) => KillMarks(s, pid, t);
    case Wait(cur) =>
    case Wakeup(n) =>
    case Sleep(cur, n) =>
    case Run(cur) =>
    case Yield(cur) =>
  }

  function TwoSlots(p: Proc, q: Proc, nextpid: nat, forks: map<nat, Fork>, kills: set<int>): Sys {
    Sys([p, q], 0, nextpid, forks, [], [], kills)
  }

  /** kill(0) in the first process: the next child is marked from birth, under a pid kill never saw. */
  lemma {:induction false} BornKilled()
    ensures Play(Start(2), [Run(0), Kill(0), Begin(0), Link(1), Publish(1)]) ==
      Some(TwoSlots(Proc(Running, 1, None, None, false), Proc(Runnable, 2, Some(0), None, true), 3, map[], {0}))
  {
    var s0 := Start(2);
    hide Next;
    assert [Run(0)] == [] + [Run(0)];
    assert [Run(0), Kill(0)] == [Run(0)] + [Kill(0)];
    assert [Run(0), Kill(0), Begin(0)] == [Run(0), Kill(0)] + [Begin(0)];
    assert [Run(0), Kill(0), Begin(0), Link(1)] == [Run(0), Kill(0), Begin(0)] + [Link(1)];
    assert [Run(0), Kill(0), Begin(0), Link(1), Publish(1)] == [Run(0), Kill(0), Begin(0), Link(1)] + [Publish(1)];
    Extend(s0, [], Run(0));
    FirstRun();
    Extend(s0, [Run(0)], Kill(0));
    KillZero();
    Extend(s0, [Run(0), Kill(0)], Begin(0));
    BeginMarked();
    Extend(s0, [Run(0), Kill(0), Begin(0)], Link(1));
    FinishMarked();
    Extend(s0, [Run(0), Kill(0), Begin(0), Link(1)], Publish(1));
  }

  const FIRST := Proc(Running, 1, None, None, false)

  lemma {:induction false} FirstRun()
    ensures Next(Start(2), Run(0)) == Some(TwoSlots(FIRST, EMPTY_SLOT, 2, map[], {}))
  {
    assert Next(Start(2), Run(0)).value.slots == [FIRST, EMPTY_SLOT];
  }

  lemma {:induction false} KillZero()
    ensures Next(TwoSlots(FIRST, EMPTY_SLOT, 2, map[], {}), Kill(0)) ==
      Some(TwoSlots(FIRST, EMPTY_SLOT.(killed := true), 2, map[], {0}))
  {
    var s := TwoSlots(FIRST, EMPTY_SLOT, 2, map[], {});
    assert FirstPid(s.slots, 0, 0) == 1;
    assert Next(s, Kill(0)).value.slots == [FIRST, EMPTY_SLOT.(killed := true)];
    assert Next(s, Kill(0)).value.kills == {0};
  }

  lemma {:induction false} BeginMarked()
    ensures Next(TwoSlots(FIRST, EMPTY_SLOT.(killed := true), 2, map[], {0}), Begin(0)) ==
      Some(TwoSlots(FIRST, Proc(Embryo, 2, None, None, true), 3, map[1 := Fork(0, false)], {0}))
  {
    var s := TwoSlots(FIRST, EMPTY_SLOT.(killed := true), 2, map[], {0});
    assert FirstUnused(s.slots, 0) == 1;
    assert Next(s, Begin(0)).value.slots == [FIRST, Proc(Embryo, 2, None, None, true)];
  }

  lemma {:induction false} FinishMarked()
    ensures Next(TwoSlots(FIRST, Proc(Embryo, 2, None, None, true), 3, map[1 := Fork(0, false)], {0}), Link(1)) ==
      Some(TwoSlots(FIRST, Proc(Embryo, 2, Some(0), None, true), 3, map[1 := Fork(0, true)], {0}))
    ensures Next(TwoSlots(FIRST, Proc(Embryo, 2, Some(0), None, true), 3, map[1 := Fork(0, true)], {0}), Publish(1)) ==
      Some(TwoSlots(FIRST, Proc(Runnable, 2, Some(0), None, true), 3, map[], {0}))
  {
    var s := TwoSlots(FIRST, Proc(Embryo, 2, None, None, true), 3, map[1 := Fork(0, false)], {0});
    var t := TwoSlots(FIRST, Proc(Embryo, 2, Some(0), None, true), 3, map[1 := Fork(0, true)], {0});
    assert Next(s, Link(1)).value.slots == t.slots;
    assert Next(s, Link(1)).value.forks == t.forks;
    assert Next(t, Publish(1)).value.slots == [FIRST, Proc(Runnable, 2, Some(0), None, true)];
    assert Next(t, Publish(1)).value.forks == map[];
  }

  lemma {:induction false} Extend(s: Sys, run: seq<Step>, a: Step)
    requires Play(s, run).Some?
    ensures Play(s, run + [a]) == Next(Play(s, run).value, a)
  {
    assert (run + [a])[..|run|] == run;
  }
}
