/**
  The scheduling policies of Lab/code/proc.c:977-1070 and the generator they draw from
  (Lab/code/proc.c:897-926).
 */
module Scheduler {
  import opened Options

  datatype Slot = Slot(runnable: bool, priority: int, ctime: int)

  ghost predicate NoneRunnable(t: seq<Slot>) {
    forall i :: 0 <= i < |t| ==> !t[i].runnable
  }

  // ---- random ----

  /** Right shift of a signed 32-bit value. */
  function Sar(x: bv32, n: bv6): bv32
    requires 0 < n < 32
  {
    if x & 0x8000_0000 == 0 then x >> n else !(!x >> n)
  }

  function Signed(x: bv32): int {
    if x & 0x8000_0000 == 0 then (x & 0x7FFF_FFFF) as int else (x & 0x7FFF_FFFF) as int - 0x8000_0000
  }

  /** The remainder of C's division, which has the sign of the dividend. */
  function Rem(a: int, b: int): int
    requires b > 0
  {
    if a >= 0 then a % b else -((-a) % b)
  }

  class Generator {
    var z1: bv32
    var z2: bv32
    var z3: bv32
    var z4: bv32

    constructor ()
    {
      z1, z2, z3, z4 := 12345, 12345, 12345, 12345;
    }

    /** Below max for a positive max, whatever the state. */
    method Random(max: int) returns (r: int)
      modifies this
      ensures max > 0 ==> 0 <= r < max
      ensures max <= 0 ==> r == 1
    {
      if max <= 0 {
        return 1;
      }
      var b := Sar((z1 << 6) ^ z1, 13);
      z1 := ((z1 & 0xFFFF_FFFE) << 18) ^ b;
      b := Sar((z2 << 2) ^ z2, 27);
      z2 := ((z2 & 0xFFFF_FFF8) << 2) ^ b;
      b := Sar((z3 << 13) ^ z3, 21);
      z3 := ((z3 & 0xFFFF_FFF0) << 7) ^ b;
      b := Sar((z4 << 3) ^ z4, 12);
      z4 := ((z4 & 0xFFFF_FF80) << 13) ^ b;
      r := Rem(Signed(z1 ^ z2 ^ z3 ^ z4), max);
      if r < 0 {
        r := r * -1;
      }
    }

    /** Any runnable slot, looking from a random one on. */
    method Default(t: seq<Slot>) returns (r: Option<nat>)
      requires |t| > 0
      modifies this
      ensures r.None? <==> NoneRunnable(t)
      ensures r.Some? ==> r.value < |t| && t[r.value].runnable
    {
      var rnd := Random(|t|);
      var i := 0;
      while i < |t|
        invariant i <= |t| && forall j :: 0 <= j < i ==> !t[Cyc(rnd, j, |t|)].runnable
      {
        CycIsMod(rnd, i, |t|);
        var p := (rnd + i) % |t|;
        if t[p].runnable {
          return Some(p);
        }
        i := i + 1;
      }
      forall k | 0 <= k < |t| ensures !t[k].runnable
      {
        assert Cyc(rnd, if k >= rnd then k - rnd else k - rnd + |t|, |t|) == k;
      }
      r := None;
    }

    /** A random slot of the lowest level that has a runnable one. */
    method MultiLevel(t: seq<Slot>) returns (r: Option<nat>)
      modifies this
      ensures r.None? <==> NoneRunnable(t)
      ensures r.Some? ==> r.value < |t| && t[r.value].runnable
      ensures r.Some? ==> forall j :: 0 <= j < |t| && t[j].runnable ==> Level(t[r.value]) <= Level(t[j])
    {
      var q0: seq<nat>, q1: seq<nat>, q2: seq<nat> := [], [], [];
      var p := 0;
      while p < |t|
        invariant p <= |t| && Queue(t, p, 0, q0) && Queue(t, p, 1, q1) && Queue(t, p, 2, q2)
      {
        if t[p].runnable {
          if t[p].priority <= 7 {
            q0 := q0 + [p];
          } else if t[p].priority <= 14 {
            q1 := q1 + [p];
          } else {
            q2 := q2 + [p];
          }
        }
        p := p + 1;
      }
      if |q0| > 0 {
        var k := Random(|q0|);
        r := Some(q0[k]);
      } else if |q1| > 0 {
        var k := Random(|q1|);
        r := Some(q1[k]);
      } else if |q2| > 0 {
        var k := Random(|q2|);
        r := Some(q2[k]);
      } else {
        r := None;
      }
    }
  }

  function Level(s: Slot): nat {
    if s.priority <= 7 then 0 else if s.priority <= 14 then 1 else 2
  }

  /** The runnable slots of one level among the first p. */
  ghost predicate Queue(t: seq<Slot>, p: nat, level: nat, q: seq<nat>) {
    && p <= |t|
    && (forall i :: 0 <= i < |q| ==> q[i] < p && t[q[i]].runnable && Level(t[q[i]]) == level)
    && (forall j :: 0 <= j < p && t[j].runnable && Level(t[j]) == level ==> j in q)
  }

  // ---- the smallest key ----

  /** The first of the runnable slots with the smallest key, which is the priority or the time of
      creation. */
  method Smallest(t: seq<Slot>, byPriority: bool) returns (r: Option<nat>)
    ensures r.None? <==> NoneRunnable(t)
    ensures r.Some? ==> r.value < |t| && t[r.value].runnable
    ensures r.Some? ==> forall j :: 0 <= j < |t| && t[j].runnable ==>
      Key(t[r.value], byPriority) <= Key(t[j], byPriority)
    ensures r.Some? ==> forall j :: 0 <= j < r.value && t[j].runnable ==>
      Key(t[r.value], byPriority) < Key(t[j], byPriority)
  {
    r := None;
    var p := 0;
    while p < |t|
      invariant p <= |t|
      invariant r.None? <==> forall j :: 0 <= j < p ==> !t[j].runnable
      invariant r.Some? ==> r.value < p && t[r.value].runnable
      invariant r.Some? ==> forall j :: 0 <= j < p && t[j].runnable ==>
        Key(t[r.value], byPriority) <= Key(t[j], byPriority)
      invariant r.Some? ==> forall j :: 0 <= j < r.value && t[j].runnable ==>
        Key(t[r.value], byPriority) < Key(t[j], byPriority)
    {
      if t[p].runnable {
        if r.None? || Key(t[p], byPriority) < Key(t[r.value], byPriority) {
          r := Some(p);
        }
      }
      p := p + 1;
    }
  }

  function Key(s: Slot, byPriority: bool): int {
    if byPriority then s.priority else s.ctime
  }

  // ---- round robin ----

  /** The slot s places after a, around a table of n slots. */
  function Cyc(a: nat, s: nat, n: nat): (r: nat)
    requires a < n && s <= n
    ensures r < n
  {
    if a + s < n then a + s else a + s - n
  }

  lemma {:induction false} CycIsMod(a: nat, s: nat, n: nat)
    requires a < n && s <= n
    ensures (a + s) % n == Cyc(a, s, n)
  {
    if a + s >= n {
      ModUp(a + s - n, n);
    } else {
      ModSmall(a + s, n);
    }
  }

  lemma {:induction false} ModSmall(x: int, n: int)
    requires 0 <= x < n
    ensures x % n == x
  {
  }

  lemma {:induction false} ModUp(x: int, n: int)
    requires 0 <= x < n
    ensures (x + n) % n == x
  {
  }

  /** The first runnable slot from s places after idx on. */
  function Scan(t: seq<Slot>, idx: nat, s: nat): Option<nat>
    requires idx < |t|
    decreases |t| + 1 - s
  {
    if s > |t| then None else if t[Cyc(idx, s, |t|)].runnable then Some(Cyc(idx, s, |t|)) else Scan(t, idx, s + 1)
  }

  class RoundRobin {
    var idx: nat

    constructor (n: nat)
      requires n > 0
      ensures idx == n - 1
    {
      idx := n - 1;
    }

    method Pick(t: seq<Slot>) returns (r: Option<nat>)
      requires idx < |t|
      modifies this
      ensures r == Scan(t, old(idx), 1) && idx < |t|
      ensures r.None? <==> NoneRunnable(t)
      ensures idx == if r.Some? then r.value else old(idx)
    {
      var i := idx;
      ghost var s := 0;
      while true
        invariant s < |t| && idx == Cyc(i, s, |t|) && (s > 0 ==> idx != i)
        invariant Scan(t, i, s + 1) == Scan(t, i, 1)
        invariant forall x :: 1 <= x <= s ==> !t[Cyc(i, x, |t|)].runnable
        decreases |t| - s
      {
        CycStep(i, s, |t|);
        idx := (idx + 1) % |t|;
        s := s + 1;
        if t[idx].runnable {
          return Some(idx);
        }
        if i == idx {
          break;
        }
      }
      forall k | 0 <= k < |t| ensures !t[k].runnable
      {
        assert Cyc(i, Dist(i, k, |t|), |t|) == k;
      }
      r := None;
    }
  }

  lemma {:induction false} CycStep(i: nat, s: nat, n: nat)
    requires i < n && s < n
    ensures (Cyc(i, s, n) + 1) % n == Cyc(i, s + 1, n)
    ensures Cyc(i, s + 1, n) == i <==> s + 1 == n
  {
    var x := Cyc(i, s, n) + 1;
    if x == n {
      ModUp(0, n);
    } else {
      ModSmall(x, n);
    }
  }

  /** How many places after a slot k is, from 1 to n. */
  function Dist(a: nat, k: nat, n: nat): (s: nat)
    requires a < n && k < n
    ensures 1 <= s <= n && Cyc(a, s, n) == k
  {
    if k > a then k - a else k - a + n
  }

  /** A runnable slot is picked, or one before it. */
  lemma {:induction false} ScanStops(t: seq<Slot>, idx: nat, s: nat, k: nat)
    requires idx < |t| && k < |t| && t[k].runnable && 1 <= s <= Dist(idx, k, |t|)
    ensures Scan(t, idx, s).Some? && Scan(t, idx, s).value < |t|
    ensures s <= Dist(idx, Scan(t, idx, s).value, |t|) <= Dist(idx, k, |t|)
    decreases |t| - s
  {
    if !t[Cyc(idx, s, |t|)].runnable {
      ScanStops(t, idx, s + 1, k);
    }
  }

  /** Until slot k is picked, each pick comes closer to it. */
  lemma {:induction false} Closer(t: seq<Slot>, idx: nat, k: nat)
    requires idx < |t| && k < |t| && t[k].runnable
    ensures Scan(t, idx, 1).Some? && Scan(t, idx, 1).value < |t|
    ensures Scan(t, idx, 1).value != k ==> Dist(Scan(t, idx, 1).value, k, |t|) < Dist(idx, k, |t|)
  {
    ScanStops(t, idx, 1, k);
  }

  /** Slot k is runnable in each of the tables that successive calls see. */
  ghost predicate Stays(ts: seq<seq<Slot>>, n: nat, k: nat) {
    k < n && forall c :: 0 <= c < |ts| ==> |ts[c]| == n && ts[c][k].runnable
  }

  /** The saved index after a call for each table: the slot picked last. */
  ghost function After(ts: seq<seq<Slot>>, n: nat, idx: nat, k: nat): (r: nat)
    requires Stays(ts, n, k) && idx < n
    ensures r < n
  {
    if ts == [] then idx
    else
      var i := After(ts[..|ts| - 1], n, idx, k);
      Closer(ts[|ts| - 1], i, k);
      Scan(ts[|ts| - 1], i, 1).value
  }

  ghost function PickOf(ts: seq<seq<Slot>>, n: nat, idx: nat, k: nat, c: nat): (r: nat)
    requires Stays(ts, n, k) && idx < n && c < |ts|
    ensures r < n
  {
    After(ts[..c + 1], n, idx, k)
  }

  lemma {:induction false} PicksCloser(ts: seq<seq<Slot>>, n: nat, idx: nat, k: nat, c: nat)
    requires Stays(ts, n, k) && idx < n && c < |ts|
    ensures PickOf(ts, n, idx, k, c) != k ==>
      Dist(PickOf(ts, n, idx, k, c), k, n) < Dist(After(ts[..c], n, idx, k), k, n)
  {
    assert ts[..c + 1][..c] == ts[..c];
    Closer(ts[c], After(ts[..c], n, idx, k), k);
  }

  /** While k has not been picked, the distance to it has dropped with every call. */
  lemma {:induction false} Approach(ts: seq<seq<Slot>>, n: nat, idx: nat, k: nat, a: nat, b: nat)
    requires Stays(ts, n, k) && idx < n && a <= b <= |ts|
    requires forall c: nat :: a <= c < b ==> PickOf(ts, n, idx, k, c) != k
    ensures Dist(After(ts[..b], n, idx, k), k, n) <= Dist(After(ts[..a], n, idx, k), k, n) - (b - a)
    decreases b - a
  {
    if a < b {
      Approach(ts, n, idx, k, a, b - 1);
      PicksCloser(ts, n, idx, k, b - 1);
    }
  }

  /** Some call picks k if there are enough of them; return the first. */
  lemma {:induction false} FirstPick(ts: seq<seq<Slot>>, n: nat, idx: nat, k: nat, c: nat) returns (f: nat)
    requires Stays(ts, n, k) && idx < n && |ts| == n && c <= n
    requires forall x: nat :: x < c ==> PickOf(ts, n, idx, k, x) != k
    ensures f < n && PickOf(ts, n, idx, k, f) == k && forall x: nat :: x < f ==> PickOf(ts, n, idx, k, x) != k
    decreases n - c
  {
    Approach(ts, n, idx, k, 0, c);
    if PickOf(ts, n, idx, k, c) == k {
      f := c;
    } else {
      f := FirstPick(ts, n, idx, k, c + 1);
    }
  }

  /** From any saved index, a slot that stays runnable is returned within n calls, and no other
      slot is returned twice before it. */
  lemma {:induction false} RoundRobinIsFair(ts: seq<seq<Slot>>, n: nat, idx: nat, k: nat) returns (f: nat)
    requires Stays(ts, n, k) && idx < n && |ts| == n
    ensures f < n && PickOf(ts, n, idx, k, f) == k
    ensures forall a: nat, b: nat :: a < b <= f ==> PickOf(ts, n, idx, k, a) != PickOf(ts, n, idx, k, b)
  {
    f := FirstPick(ts, n, idx, k, 0);
    forall a: nat, b: nat | a < b <= f
      ensures PickOf(ts, n, idx, k, a) != PickOf(ts, n, idx, k, b)
    {
      if b < f {
        Approach(ts, n, idx, k, a + 1, b + 1);
      }
    }
  }
}
