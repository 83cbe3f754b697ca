/**
  The process table of Lab/code/proc.c: allocproc, exit, wait, kill and wakeup1, each a scan or
  update of the slots under ptable.lock. Each method is proved against a function on slots.
 */
module ProcTable {
  import opened Options

  datatype PState = Unused | Embryo | Sleeping | Runnable | Running | Zombie

  /** What a process sleeps on: a process, as wait does, or something else. */
  datatype Chan = OnProc(p: nat) | Other(n: nat)

  /** `serial` numbers the processes from 1 on, 0 after reaping; the kernel keeps only its pid. */
  datatype Proc = Proc(state: PState, serial: nat, parent: Option<nat>, chan: Option<Chan>, killed: bool)

  /** The counter that hands out pids is a signed 32-bit number. */
  function Signed(n: nat): int {
    var x := n % 0x1_0000_0000;
    if x >= 0x8000_0000 then x - 0x1_0000_0000 else x
  }

  function Pid(p: Proc): int {
    Signed(p.serial)
  }

  const EMPTY_SLOT := Proc(Unused, 0, None, None, false)

  predicate Wakes(p: Proc, c: Option<Chan>) {
    p.state == Sleeping && p.chan == c
  }

  function Woken(p: Proc, c: Option<Chan>): Proc {
    if Wakes(p, c) then p.(state := Runnable) else p
  }

  /** All processes sleeping on channel c become runnable. */
  function WakeAll(s: seq<Proc>, c: Option<Chan>): seq<Proc> {
    seq(|s|, i requires 0 <= i < |s| => Woken(s[i], c))
  }

  predicate ZombieChild(s: seq<Proc>, cur: nat, j: nat) {
    j < |s| && s[j].parent == Some(cur) && s[j].state == Zombie
  }

  predicate ZombieBefore(s: seq<Proc>, cur: nat, n: nat) {
    exists j: nat :: j < n && ZombieChild(s, cur, j)
  }

  function ParentChan(s: seq<Proc>, cur: nat): Option<Chan>
    requires cur < |s|
  {
    if s[cur].parent.Some? then Some(OnProc(s[cur].parent.value)) else None
  }

  /** Slot i once process cur has exited: its parent is woken, its children go to init, which is
      woken if one of them is a zombie. */
  ghost function ExitSlot(s: seq<Proc>, cur: nat, init: nat, i: nat): Proc
    requires cur < |s| && i < |s|
  {
    var p := s[i];
    var wakes := Wakes(p, ParentChan(s, cur)) || (Wakes(p, Some(OnProc(init))) && ZombieBefore(s, cur, |s|));
    Proc(if i == cur then Zombie else if wakes then Runnable else p.state,
         p.serial, if p.parent == Some(cur) then Some(init) else p.parent, p.chan, p.killed)
  }

  /** The first slot from k on that satisfies a test; |s| when there is none. */
  function FirstUnused(s: seq<Proc>, k: nat): (i: nat)
    requires k <= |s|
    ensures k <= i <= |s| && (i < |s| ==> s[i].state == Unused)
    ensures forall j :: k <= j < i ==> s[j].state != Unused
    decreases |s| - k
  {
    if k == |s| || s[k].state == Unused then k else FirstUnused(s, k + 1)
  }

  function FirstPid(s: seq<Proc>, pid: int, k: nat): (i: nat)
    requires k <= |s|
    ensures k <= i <= |s| && (i < |s| ==> Pid(s[i]) == pid)
    ensures forall j :: k <= j < i ==> Pid(s[j]) != pid
    decreases |s| - k
  {
    if k == |s| || Pid(s[k]) == pid then k else FirstPid(s, pid, k + 1)
  }

  function FirstZombie(s: seq<Proc>, cur: nat, k: nat): (i: nat)
    requires k <= |s|
    ensures k <= i <= |s| && (i < |s| ==> ZombieChild(s, cur, i))
    ensures forall j :: k <= j < i ==> !ZombieChild(s, cur, j)
    decreases |s| - k
  {
    if k == |s| || ZombieChild(s, cur, k) then k else FirstZombie(s, cur, k + 1)
  }

  predicate HasChild(s: seq<Proc>, cur: nat) {
    exists j :: 0 <= j < |s| && s[j].parent == Some(cur)
  }

  class Table {
    const proc: array<Proc>

    constructor (n: nat)
      ensures proc.Length == n && fresh(proc) && forall i :: 0 <= i < n ==> proc[i] == EMPTY_SLOT
    {
      proc := new Proc[n](_ => EMPTY_SLOT);
    }

    method Wakeup1(c: Option<Chan>)
      modifies proc
      ensures proc[..] == WakeAll(old(proc[..]), c)
    {
      var i := 0;
      while i < proc.Length
        invariant i <= proc.Length
        invariant forall k :: 0 <= k < i ==> proc[k] == Woken(old(proc[..])[k], c)
        invariant forall k :: i <= k < proc.Length ==> proc[k] == old(proc[..])[k]
      {
        if proc[i].state == Sleeping && proc[i].chan == c {
          proc[i] := proc[i].(state := Runnable);
        }
        i := i + 1;
      }
    }

    /** The first unused slot becomes an embryo with the next number. */
    method AllocProc(nextpid: nat) returns (r: Option<nat>)
      modifies proc
      ensures r.None? ==> proc[..] == old(proc[..]) && forall i :: 0 <= i < proc.Length ==> proc[i].state != Unused
      ensures r.Some? ==> r.value < proc.Length && r.value == FirstUnused(old(proc[..]), 0)
      ensures r.Some? ==>
        proc[..] == old(proc[..])[r.value := old(proc[..])[r.value].(state := Embryo, serial := nextpid)]
    {
      var i := 0;
      while i < proc.Length
        invariant i <= proc.Length && proc[..] == old(proc[..])
        invariant FirstUnused(proc[..], 0) == FirstUnused(proc[..], i)
        invariant forall j :: 0 <= j < i ==> proc[j].state != Unused
      {
        if proc[i].state == Unused {
          proc[i] := proc[i].(state := Embryo, serial := nextpid);
          return Some(i);
        }
        i := i + 1;
      }
      r := None;
    }

    method Kill(pid: int) returns (found: bool)
      modifies proc
      ensures !found ==> proc[..] == old(proc[..]) && forall i :: 0 <= i < proc.Length ==> Pid(proc[i]) != pid
      ensures found <==> FirstPid(old(proc[..]), pid, 0) < proc.Length
      ensures found ==> proc[..] == Killed(old(proc[..]), pid)
    {
      var i := 0;
      while i < proc.Length
        invariant i <= proc.Length && proc[..] == old(proc[..])
        invariant FirstPid(proc[..], pid, 0) == FirstPid(proc[..], pid, i)
        invariant forall j :: 0 <= j < i ==> Pid(proc[j]) != pid
      {
        if Pid(proc[i]) == pid {
          proc[i] := proc[i].(killed := true);
          if proc[i].state == Sleeping {
            proc[i] := proc[i].(state := Runnable);
          }
          return true;
        }
        i := i + 1;
      }
      found := false;
    }

    /** One scan of wait: reap the first zombie child, or say whether there are children. */
    method WaitScan(cur: nat) returns (pid: Option<int>, kids: bool)
      modifies proc
      ensures pid.Some? <==> FirstZombie(old(proc[..]), cur, 0) < proc.Length
      ensures pid.Some? ==>
        pid.value == Pid(old(proc[..])[FirstZombie(old(proc[..]), cur, 0)]) && proc[..] == Reaped(old(proc[..]), cur)
      ensures pid.None? ==> proc[..] == old(proc[..]) && (kids <==> HasChild(proc[..], cur))
    {
      var i := 0;
      kids := false;
      while i < proc.Length
        invariant i <= proc.Length && proc[..] == old(proc[..])
        invariant FirstZombie(proc[..], cur, 0) == FirstZombie(proc[..], cur, i)
        invariant kids <==> exists j :: 0 <= j < i && proc[j].parent == Some(cur)
      {
        if proc[i].parent == Some(cur) {
          kids := true;
          if proc[i].state == Zombie {
            pid := Some(Pid(proc[i]));
            proc[i] := proc[i].(serial := 0, parent := None, killed := false, state := Unused);
            return;
          }
        }
        i := i + 1;
      }
      pid := None;
    }

    /** The locked part of exit. */
    method Exit(cur: nat, init: nat)
      requires cur < proc.Length && cur != init
      modifies proc
      ensures forall i :: 0 <= i < proc.Length ==> proc[i] == ExitSlot(old(proc[..]), cur, init, i)
    {
      ghost var s0 := proc[..];
      ghost var c := ParentChan(s0, cur);
      Wakeup1(if proc[cur].parent.Some? then Some(OnProc(proc[cur].parent.value)) else None);
      assert forall k :: 0 <= k < proc.Length ==> proc[k] == proc[..][k] == Woken(s0[k], c);
      assert !ZombieBefore(s0, cur, 0);
      var i := 0;
      while i < proc.Length
        invariant i <= proc.Length
        invariant forall k :: 0 <= k < proc.Length ==> proc[k] == Passing(s0, cur, init, i, k)
      {
        assert ZombieBefore(s0, cur, i + 1) <==> ZombieBefore(s0, cur, i) || ZombieChild(s0, cur, i);
        hide ZombieBefore;
        if proc[i].parent == Some(cur) {
          proc[i] := proc[i].(parent := Some(init));
          if proc[i].state == Zombie {
            ghost var s1 := proc[..];
            Wakeup1(Some(OnProc(init)));
            assert forall k :: 0 <= k < proc.Length ==> proc[k] == proc[..][k] == Woken(s1[k], Some(OnProc(init)));
          }
        }
        i := i + 1;
      }
      proc[cur] := proc[cur].(state := Zombie);
    }
  }

  function Killed(s: seq<Proc>, pid: int): seq<Proc>
    requires FirstPid(s, pid, 0) < |s|
  {
    var i := FirstPid(s, pid, 0);
    s[i := s[i].(killed := true, state := if s[i].state == Sleeping then Runnable else s[i].state)]
  }

  function Reaped(s: seq<Proc>, cur: nat): seq<Proc>
    requires FirstZombie(s, cur, 0) < |s|
  {
    var i := FirstZombie(s, cur, 0);
    s[i := s[i].(serial := 0, parent := None, killed := false, state := Unused)]
  }

  /** Slot k while exit passes children on: the slots before n have been looked at. */
  ghost function Passing(s: seq<Proc>, cur: nat, init: nat, n: nat, k: nat): Proc
    requires cur < |s| && k < |s|
  {
    var p := s[k];
    var wakes := Wakes(p, ParentChan(s, cur)) || (Wakes(p, Some(OnProc(init))) && ZombieBefore(s, cur, n));
    Proc(if wakes then Runnable else p.state, p.serial,
         if p.parent == Some(cur) && k < n then Some(init) else p.parent, p.chan, p.killed)
  }
}
