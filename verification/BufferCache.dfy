/**
  The buffer cache of Lab/code/bio.c over one disk. Each method is one critical section: bget up
  to releasing bcache.lock, taking the buffer's sleep-lock, the disk transfer, brelse.

  `View` is what a block reads as: the cached copy if there is one, otherwise the disk.
 */
module BufferCache {
  import opened Options
  import opened LruList

  const DISK := 1   // the device of the disk; fresh buffers carry device 0

  type Data = seq<int>

  datatype Buf = Buf(dev: nat, blockno: nat, valid: bool, dirty: bool, refcnt: nat, locked: bool, data: Data)

  predicate Holds(b: Buf, dev: nat, blockno: nat) {
    b.dev == dev && b.blockno == blockno
  }

  /** No two buffers hold the same block of a real device. */
  ghost predicate Unique(bufs: seq<Buf>) {
    forall i, j :: 0 <= i < j < |bufs| && bufs[i].dev != 0 ==> !Holds(bufs[j], bufs[i].dev, bufs[i].blockno)
  }

  /** A buffer nobody uses is the disk's copy unless it is pinned; a used one is referenced. */
  predicate BufOK(b: Buf, disk: seq<Data>) {
    && (b.locked ==> b.refcnt > 0)
    && (b.dirty ==> b.valid)
    && (b.valid ==> b.dev == DISK && b.blockno < |disk|)
    && (b.valid && !b.dirty && !b.locked ==> b.data == disk[b.blockno])
  }

  ghost predicate Coherent(bufs: seq<Buf>, disk: seq<Data>) {
    Unique(bufs) && forall i :: 0 <= i < |bufs| ==> BufOK(bufs[i], disk)
  }

  predicate Caches(b: Buf, blockno: nat) {
    b.valid && Holds(b, DISK, blockno)
  }

  /** What block `blockno` reads as. */
  ghost function View(bufs: seq<Buf>, disk: seq<Data>, blockno: nat): Data
    requires blockno < |disk|
  {
    if i: nat :| i < |bufs| && Caches(bufs[i], blockno) then bufs[i].data else disk[blockno]
  }

  lemma {:induction false} ViewIs(bufs: seq<Buf>, disk: seq<Data>, blockno: nat, i: nat)
    requires Unique(bufs) && blockno < |disk| && i < |bufs| && Caches(bufs[i], blockno)
    ensures View(bufs, disk, blockno) == bufs[i].data
  {
  }

  lemma {:induction false} ViewIsDisk(bufs: seq<Buf>, disk: seq<Data>, blockno: nat)
    requires blockno < |disk| && forall i :: 0 <= i < |bufs| ==> !Caches(bufs[i], blockno)
    ensures View(bufs, disk, blockno) == disk[blockno]
  {
  }

  ghost predicate SameView(bufs: seq<Buf>, disk: seq<Data>, bufs': seq<Buf>, disk': seq<Data>) {
    |disk| == |disk'| && forall n :: 0 <= n < |disk| ==> View(bufs', disk', n) == View(bufs, disk, n)
  }

  /** Changing what a buffer holds without changing any cached copy. */
  lemma {:induction false} SameCopies(bufs: seq<Buf>, disk: seq<Data>, b: nat, x: Buf)
    requires Coherent(bufs, disk) && b < |bufs| && x.valid == bufs[b].valid && x.data == bufs[b].data
    requires Holds(x, bufs[b].dev, bufs[b].blockno) && BufOK(x, disk)
    ensures Coherent(bufs[b := x], disk) && SameView(bufs, disk, bufs[b := x], disk)
  {
    var bufs' := bufs[b := x];
    forall n | 0 <= n < |disk|
      ensures View(bufs', disk, n) == View(bufs, disk, n)
    {
      if i :| 0 <= i < |bufs| && Caches(bufs[i], n) {
        ViewIs(bufs, disk, n, i);
        assert Caches(bufs'[i], n);
        ViewIs(bufs', disk, n, i);
      } else {
        assert forall i :: 0 <= i < |bufs'| ==> !Caches(bufs'[i], n);
        ViewIsDisk(bufs', disk, n);
      }
    }
  }

  /** Recycling a clean unused buffer for a block nobody holds loses nothing. */
  lemma {:induction false} RecycleKeeps(bufs: seq<Buf>, disk: seq<Data>, b: nat, dev: nat, blockno: nat)
    requires Coherent(bufs, disk) && b < |bufs| && bufs[b].refcnt == 0 && !bufs[b].dirty
    requires dev != 0 && forall i :: 0 <= i < |bufs| ==> !Holds(bufs[i], dev, blockno)
    ensures var bufs' := bufs[b := Buf(dev, blockno, false, false, 1, false, bufs[b].data)];
            Coherent(bufs', disk) && SameView(bufs, disk, bufs', disk)
  {
    var bufs' := bufs[b := Buf(dev, blockno, false, false, 1, false, bufs[b].data)];
    assert BufOK(bufs[b], disk);
    forall n | 0 <= n < |disk|
      ensures View(bufs', disk, n) == View(bufs, disk, n)
    {
      if i :| 0 <= i < |bufs'| && Caches(bufs'[i], n) {
        ViewIs(bufs', disk, n, i);
        ViewIs(bufs, disk, n, i);
      } else if Caches(bufs[b], n) {
        ViewIs(bufs, disk, n, b);
        ViewIsDisk(bufs', disk, n);
      } else {
        assert forall i :: 0 <= i < |bufs| && i != b ==> bufs[i] == bufs'[i];
        ViewIsDisk(bufs, disk, n);
        ViewIsDisk(bufs', disk, n);
      }
    }
  }

  /** Reading a block into its buffer changes no view. */
  lemma {:induction false} FillKeeps(bufs: seq<Buf>, disk: seq<Data>, b: nat)
    requires Coherent(bufs, disk) && b < |bufs| && !bufs[b].valid && bufs[b].dev == DISK && bufs[b].blockno < |disk|
    ensures var bufs' := bufs[b := bufs[b].(valid := true, data := disk[bufs[b].blockno])];
            Coherent(bufs', disk) && SameView(bufs, disk, bufs', disk)
  {
    var bufs' := bufs[b := bufs[b].(valid := true, data := disk[bufs[b].blockno])];
    assert BufOK(bufs[b], disk);
    forall n | 0 <= n < |disk|
      ensures View(bufs', disk, n) == View(bufs, disk, n)
    {
      if i :| 0 <= i < |bufs| && Caches(bufs[i], n) {
        ViewIs(bufs, disk, n, i);
        assert Caches(bufs'[i], n);
        ViewIs(bufs', disk, n, i);
      } else {
        ViewIsDisk(bufs, disk, n);
        if Caches(bufs'[b], n) {
          ViewIs(bufs', disk, n, b);
        } else {
          ViewIsDisk(bufs', disk, n);
        }
      }
    }
  }

  /** Writing a buffer's data to its block, on disk and as clean copy, changes no view. */
  lemma {:induction false} FlushKeeps(bufs: seq<Buf>, disk: seq<Data>, b: nat)
    requires Coherent(bufs, disk) && b < |bufs| && bufs[b].valid
    ensures var bufs', disk' := bufs[b := bufs[b].(dirty := false)], disk[bufs[b].blockno := bufs[b].data];
            Coherent(bufs', disk') && SameView(bufs, disk, bufs', disk')
  {
    var bufs', disk' := bufs[b := bufs[b].(dirty := false)], disk[bufs[b].blockno := bufs[b].data];
    forall i | 0 <= i < |bufs'|
      ensures BufOK(bufs'[i], disk')
    {
      assert BufOK(bufs[i], disk);
      if i != b && bufs[i].valid {
        assert bufs[i].blockno != bufs[b].blockno;
      }
    }
    forall n | 0 <= n < |disk|
      ensures View(bufs', disk', n) == View(bufs, disk, n)
    {
      if i :| 0 <= i < |bufs| && Caches(bufs[i], n) {
        ViewIs(bufs, disk, n, i);
        assert Caches(bufs'[i], n);
        ViewIs(bufs', disk', n, i);
      } else {
        assert !Caches(bufs[b], n);
        assert forall i :: 0 <= i < |bufs'| ==> !Caches(bufs'[i], n);
        ViewIsDisk(bufs', disk', n);
      }
    }
  }

  /** The holder of a buffer's lock changes its data: exactly its block reads differently. */
  lemma {:induction false} ModifyView(bufs: seq<Buf>, disk: seq<Data>, b: nat, v: Data)
    requires Coherent(bufs, disk) && b < |bufs| && bufs[b].valid && bufs[b].locked
    ensures var bufs' := bufs[b := bufs[b].(data := v)];
            && Coherent(bufs', disk)
            && forall n :: 0 <= n < |disk| ==>
                 View(bufs', disk, n) == if n == bufs[b].blockno then v else View(bufs, disk, n)
  {
    var bufs' := bufs[b := bufs[b].(data := v)];
    assert BufOK(bufs[b], disk);
    forall n | 0 <= n < |disk|
      ensures View(bufs', disk, n) == if n == bufs[b].blockno then v else View(bufs, disk, n)
    {
      if i :| 0 <= i < |bufs| && Caches(bufs[i], n) {
        ViewIs(bufs, disk, n, i);
        assert Caches(bufs'[i], n);
        ViewIs(bufs', disk, n, i);
      } else {
        assert !Caches(bufs[b], n);
        assert forall i :: 0 <= i < |bufs'| ==> !Caches(bufs'[i], n);
        ViewIsDisk(bufs', disk, n);
      }
    }
  }

  // ---- the list of buffers ----

  /** The ring holds the head and every buffer once, most recently freed first. */
  ghost predicate RingOK(next: seq<nat>, prev: seq<nat>, ring: seq<nat>, freed: seq<nat>, clock: nat) {
    && |ring| == |next| == |freed| + 1 && ring[0] == |freed| && Linked(next, prev, ring)
    && (forall b :: 0 <= b <= |freed| ==> b in ring)
    && (forall i, j :: 1 <= i < j < |ring| ==>
        ring[i] < |freed| && ring[j] < |freed| && freed[ring[i]] > freed[ring[j]])
    && (forall b :: 0 <= b < |freed| ==> freed[b] <= clock)
  }

  lemma {:induction false} RingNode(next: seq<nat>, prev: seq<nat>, ring: seq<nat>, freed: seq<nat>, clock: nat, i: nat)
    requires RingOK(next, prev, ring, freed, clock) && i < |ring|
    ensures ring[i] < |next| == |prev| && next[ring[i]] == ring[Succ(ring, i)] && prev[ring[i]] == ring[Pred(ring, i)]
    ensures ring[i] == |freed| <==> i == 0
    ensures i > 0 ==> ring[i] < |freed|
    ensures |ring| > 1 ==> ring[Succ(ring, i)] != ring[i]
  {
    assert LinkedAt(next, prev, ring, i);
    assert i > 0 ==> ring[0] != ring[i];
  }

  /** brelse's six assignments move buffer b, at ring position k, behind the head. */
  lemma {:induction false} MoveToFront(next: seq<nat>, prev: seq<nat>, ring: seq<nat>, freed: seq<nat>, clock: nat,
                                       k: nat, n1: seq<nat>, p1: seq<nat>, n2: seq<nat>, p2: seq<nat>)
    requires RingOK(next, prev, ring, freed, clock) && 0 < k < |ring| && ring[k] < |next| == |prev|
    requires next[ring[k]] < |prev| && prev[ring[k]] < |next|
    requires p1 == prev[next[ring[k]] := prev[ring[k]]] && n1 == next[prev[ring[k]] := next[ring[k]]]
    requires n1[|freed|] < |prev|
    requires n2 == n1[ring[k] := n1[|freed|]][|freed| := ring[k]] &&
      p2 == p1[ring[k] := |freed|][n1[|freed|] := ring[k]]
    ensures RingOK(n2, p2, Front(Without(ring, k), ring[k]), freed[ring[k] := clock + 1], clock + 1)
  {
    var b, g := ring[k], Without(ring, k);
    UnlinkNode(next, prev, ring, k, n1, p1);
    WithoutDistinct(ring, k);
    assert g[0] == ring[0];
    PushNode(n1, p1, g, b, n2, p2);
    var h, freed' := Front(g, b), freed[b := clock + 1];
    forall c | 0 <= c <= |freed|
      ensures c in h
    {
      FrontHas(ring, k, c);
    }
    forall i, j | 1 <= i < j < |h|
      ensures h[i] < |freed| && h[j] < |freed| && freed'[h[i]] > freed'[h[j]]
    {
      FrontOrder(ring, freed, k, i, j, clock);
    }
  }

  lemma {:induction false} FrontHas(ring: seq<nat>, k: nat, c: nat)
    requires Distinct(ring) && 0 < k < |ring| && c in ring
    ensures c in Front(Without(ring, k), ring[k])
  {
    WithoutDistinct(ring, k);
    var g, h := Without(ring, k), Front(Without(ring, k), ring[k]);
    if c == ring[k] {
      assert h[1] == c;
    } else {
      var j :| 0 <= j < |g| && g[j] == c;
      assert h[if j == 0 then 0 else j + 1] == c;
    }
  }

  lemma {:induction false} FrontOrder(ring: seq<nat>, freed: seq<nat>, k: nat, i: nat, j: nat, clock: nat)
    requires Distinct(ring) && |ring| == |freed| + 1 && 0 < k < |ring| && 1 <= i < j < |ring|
    requires forall i, j :: 1 <= i < j < |ring| ==>
      ring[i] < |freed| && ring[j] < |freed| && freed[ring[i]] > freed[ring[j]]
    requires ring[k] < |freed| && forall b :: 0 <= b < |freed| ==> freed[b] <= clock
    ensures var h, freed' := Front(Without(ring, k), ring[k]), freed[ring[k] := clock + 1];
            |h| == |ring| && h[i] < |freed| && h[j] < |freed| && freed'[h[i]] > freed'[h[j]]
  {
    var h := Front(Without(ring, k), ring[k]);
    assert h[1] == ring[k];
    var jj := if j <= k then j - 1 else j;
    assert h[j] == ring[jj];
    if i > 1 {
      var ii := if i <= k then i - 1 else i;
      assert h[i] == ring[ii];
    }
  }

  /** A buffer bget may recycle: unreferenced and not pinned. */
  predicate Free(b: Buf) {
    b.refcnt == 0 && !b.dirty
  }

  ghost predicate NoneBehind(bufs: seq<Buf>, ring: seq<nat>, k: nat) {
    forall i :: k < i < |ring| ==> ring[i] < |bufs| && !Free(bufs[ring[i]])
  }

  lemma {:induction false} OldestFree(next: seq<nat>, prev: seq<nat>, ring: seq<nat>, freed: seq<nat>, clock: nat,
                                      bufs: seq<Buf>, k: nat)
    requires RingOK(next, prev, ring, freed, clock) && |bufs| == |freed| && 0 < k < |ring| && ring[k] < |bufs|
    requires NoneBehind(bufs, ring, k)
    ensures forall i :: 0 <= i < |bufs| && Free(bufs[i]) ==> freed[ring[k]] <= freed[i]
  {
    hide Linked;
    forall i: nat | 0 <= i < |bufs| && Free(bufs[i])
      ensures freed[ring[k]] <= freed[i]
    {
      assert i in ring;
      var j :| 0 <= j < |ring| && ring[j] == i;
      assert j <= k;
    }
  }

  lemma {:induction false} NoneFree(next: seq<nat>, prev: seq<nat>, ring: seq<nat>, freed: seq<nat>, clock: nat,
                                    bufs: seq<Buf>)
    requires RingOK(next, prev, ring, freed, clock) && |bufs| == |freed| && NoneBehind(bufs, ring, 0)
    ensures forall i :: 0 <= i < |bufs| ==> !Free(bufs[i])
  {
    hide Linked;
    forall i: nat | 0 <= i < |bufs|
      ensures !Free(bufs[i])
    {
      assert i in ring;
      var j :| 0 <= j < |ring| && ring[j] == i;
    }
  }

  class Cache {
    var bufs: seq<Buf>
    var disk: seq<Data>
    var next: seq<nat>        // the list head is node |bufs|
    var prev: seq<nat>
    ghost var ring: seq<nat>
    ghost var freed: seq<nat> // when each buffer was last freed
    ghost var clock: nat

    ghost predicate Valid()
      reads this
    {
      Coherent(bufs, disk) && |freed| == |bufs| && RingOK(next, prev, ring, freed, clock)
    }

    /** binit: buffers go behind the head one after the other. */
    constructor (nbuf: nat, d: seq<Data>)
      ensures Valid() && |bufs| == nbuf && disk == d
      ensures forall i :: 0 <= i < nbuf ==> bufs[i].refcnt == 0 && !bufs[i].locked && !bufs[i].valid
    {
      bufs := seq(nbuf, _ => Buf(0, 0, false, false, 0, false, []));
      disk := d;
      var n: seq<nat>, p: seq<nat> := seq(nbuf + 1, _ => nbuf), seq(nbuf + 1, _ => nbuf);
      ghost var r: seq<nat> := [nbuf];
      assert LinkedAt(n, p, r, 0);
      var b := 0;
      while b < nbuf
        invariant 0 <= b <= nbuf && |n| == |p| == nbuf + 1 && |r| == b + 1 && r[0] == nbuf
        invariant Linked(n, p, r)
        invariant forall i :: 1 <= i <= b ==> r[i] == b - i
      {
        assert LinkedAt(n, p, r, 0);
        assert LinkedAt(n, p, r, Succ(r, 0));
        ghost var n0, p0 := n, p;
        n := n[b := n[nbuf]];
        p := p[b := nbuf];
        p := p[n[nbuf] := b];
        n := n[nbuf := b];
        assert b !in r;
        PushNode(n0, p0, r, b, n, p);
        r := Front(r, b);
        b := b + 1;
      }
      next, prev, ring := n, p, r;
      freed, clock := seq(nbuf, (i: nat) => i), nbuf;
      new;
      forall b | 0 <= b <= |freed|
        ensures b in ring
      {
        assert b < nbuf ==> ring[nbuf - b] == b;
      }
    }

    /** The buffer that holds the block, if any: forwards through the list. */
    method FindCached(dev: nat, blockno: nat) returns (r: Option<nat>)
      requires Valid()
      ensures r.Some? ==> r.value < |bufs| && Holds(bufs[r.value], dev, blockno)
      ensures r.None? ==> forall i :: 0 <= i < |bufs| ==> !Holds(bufs[i], dev, blockno)
    {
      hide Linked, Coherent;
      RingNode(next, prev, ring, freed, clock, 0);
      var b := next[|bufs|];
      ghost var k: nat := Succ(ring, 0);
      RingNode(next, prev, ring, freed, clock, k);
      while b != |bufs|
        invariant k < |ring| && b == ring[k] && b <= |bufs|
        invariant b == |bufs| <==> k == 0
        invariant forall i :: 1 <= i < |ring| && (k == 0 || i < k) ==>
          ring[i] < |bufs| && !Holds(bufs[ring[i]], dev, blockno)
        decreases if k == 0 then 0 else |ring| - k
      {
        RingNode(next, prev, ring, freed, clock, k);
        if Holds(bufs[b], dev, blockno) {
          return Some(b);
        }
        b := next[b];
        k := Succ(ring, k);
        RingNode(next, prev, ring, freed, clock, k);
      }
      forall i: nat | 0 <= i < |bufs|
        ensures !Holds(bufs[i], dev, blockno)
      {
        assert i in ring;
        var j :| 0 <= j < |ring| && ring[j] == i;
      }
      return None;
    }

    /** The clean unreferenced buffer freed longest ago: backwards through the list. */
    method FindVictim() returns (r: Option<nat>)
      requires Valid()
      ensures r.Some? ==>
                && r.value < |bufs| && Free(bufs[r.value])
                && forall i :: 0 <= i < |bufs| && Free(bufs[i]) ==> freed[r.value] <= freed[i]
      ensures r.None? ==> forall i :: 0 <= i < |bufs| ==> !Free(bufs[i])
    {
      assert |ring| == |bufs| + 1 && ring[0] == |bufs|;
      hide RingOK, Coherent;
      RingNode(next, prev, ring, freed, clock, 0);
      var b := prev[|bufs|];
      ghost var k: nat := Pred(ring, 0);
      RingNode(next, prev, ring, freed, clock, k);
      while b != |bufs|
        invariant k < |ring| && b == ring[k] && b <= |bufs|
        invariant b == |bufs| <==> k == 0
        invariant NoneBehind(bufs, ring, k)
        decreases k
      {
        RingNode(next, prev, ring, freed, clock, k);
        if Free(bufs[b]) {
          OldestFree(next, prev, ring, freed, clock, bufs, k);
          return Some(b);
        }
        b := prev[b];
        k := Pred(ring, k);
        RingNode(next, prev, ring, freed, clock, k);
      }
      NoneFree(next, prev, ring, freed, clock, bufs);
      return None;
    }

    /** A reference to the buffer for a block: the one that holds it, or a recycled one.
        None is the panic "no buffers". */
    method Bget(dev: nat, blockno: nat) returns (r: Option<nat>)
      requires Valid() && dev != 0
      modifies `bufs
      ensures Valid() && |bufs| == |old(bufs)| && SameView(old(bufs), disk, bufs, disk)
      ensures r.None? <==> forall i :: 0 <= i < |bufs| ==>
                !Holds(old(bufs)[i], dev, blockno) && !Free(old(bufs)[i])
      ensures r.Some? ==>
                && r.value < |bufs| && Holds(bufs[r.value], dev, blockno)
                && (forall i :: 0 <= i < |bufs| && i != r.value ==> bufs[i] == old(bufs)[i])
                && if Holds(old(bufs)[r.value], dev, blockno)
                   then bufs[r.value] == old(bufs)[r.value].(refcnt := old(bufs)[r.value].refcnt + 1)
                   else bufs[r.value].refcnt == 1 && !bufs[r.value].valid && !bufs[r.value].locked
                        && Free(old(bufs)[r.value])
                        && forall i :: 0 <= i < |bufs| && Free(old(bufs)[i]) ==> freed[r.value] <= freed[i]
      ensures r.None? ==> bufs == old(bufs)
    {
      hide RingOK, View;
      r := FindCached(dev, blockno);
      if r.Some? {
        var b := r.value;
        assert BufOK(bufs[b], disk);
        SameCopies(bufs, disk, b, bufs[b].(refcnt := bufs[b].refcnt + 1));
        bufs := bufs[b := bufs[b].(refcnt := bufs[b].refcnt + 1)];
        return;
      }
      r := FindVictim();
      if r.Some? {
        var b := r.value;
        RecycleKeeps(bufs, disk, b, dev, blockno);
        bufs := bufs[b := Buf(dev, blockno, false, false, 1, false, bufs[b].data)];
      }
    }

    /** acquiresleep on a buffer obtained from bget, once its lock is free. */
    method Lock(b: nat)
      requires Valid() && b < |bufs| && bufs[b].refcnt > 0 && !bufs[b].locked
      modifies `bufs
      ensures Valid() && SameView(old(bufs), disk, bufs, disk)
      ensures bufs == old(bufs)[b := old(bufs)[b].(locked := true)]
    {
      hide RingOK, View;
      assert BufOK(bufs[b], disk);
      SameCopies(bufs, disk, b, bufs[b].(locked := true));
      bufs := bufs[b := bufs[b].(locked := true)];
    }

    /** The rest of bread on a locked buffer: its data is what the block reads as. */
    method Fill(b: nat)
      requires Valid() && b < |bufs| && bufs[b].locked && bufs[b].dev == DISK && bufs[b].blockno < |disk|
      modifies `bufs
      ensures Valid() && SameView(old(bufs), disk, bufs, disk)
      ensures |bufs| == |old(bufs)| && forall i :: 0 <= i < |bufs| && i != b ==> bufs[i] == old(bufs)[i]
      ensures bufs[b] == old(bufs)[b].(valid := true, data := View(old(bufs), disk, old(bufs)[b].blockno))
      ensures bufs[b].data == View(bufs, disk, bufs[b].blockno)
    {
      hide RingOK;
      assert BufOK(bufs[b], disk);
      if bufs[b].valid {
        ViewIs(bufs, disk, bufs[b].blockno, b);
        SameCopies(bufs, disk, b, bufs[b]);
        assert bufs[b := bufs[b]] == bufs;
      } else {
        FillKeeps(bufs, disk, b);
        bufs := bufs[b := bufs[b].(valid := true, data := disk[bufs[b].blockno])];
        ViewIs(bufs, disk, bufs[b].blockno, b);
      }
    }

    /** The holder changes the buffer's data: its block, and no other, reads differently. */
    method Modify(b: nat, v: Data)
      requires Valid() && b < |bufs| && bufs[b].valid && bufs[b].locked
      modifies `bufs
      ensures Valid() && bufs == old(bufs)[b := old(bufs)[b].(data := v)]
      ensures forall n :: 0 <= n < |disk| ==>
                View(bufs, disk, n) == if n == bufs[b].blockno then v else View(old(bufs), disk, n)
    {
      hide RingOK, View;
      ModifyView(bufs, disk, b, v);
      bufs := bufs[b := bufs[b].(data := v)];
    }

    /** Writes the locked buffer to disk; the block on disk is now what it read as before. */
    method Bwrite(b: nat)
      requires Valid() && b < |bufs| && bufs[b].valid && bufs[b].locked
      modifies `bufs, `disk
      ensures Valid() && SameView(old(bufs), old(disk), bufs, disk)
      ensures bufs == old(bufs)[b := old(bufs)[b].(dirty := false)]
      ensures bufs[b].blockno < |old(disk)|
      ensures disk == old(disk)[bufs[b].blockno := View(old(bufs), old(disk), bufs[b].blockno)]
    {
      hide RingOK, View;
      assert BufOK(bufs[b], disk);
      ViewIs(bufs, disk, bufs[b].blockno, b);
      FlushKeeps(bufs, disk, b);
      disk := disk[bufs[b].blockno := bufs[b].data];
      bufs := bufs[b := bufs[b].(dirty := false)];
    }

    /** log_write's effect on the buffer: pinned until it is written. */
    method Pin(b: nat)
      requires Valid() && b < |bufs| && bufs[b].valid && bufs[b].locked
      modifies `bufs
      ensures Valid() && SameView(old(bufs), disk, bufs, disk)
      ensures bufs == old(bufs)[b := old(bufs)[b].(dirty := true)]
    {
      hide RingOK, View;
      assert BufOK(bufs[b], disk);
      SameCopies(bufs, disk, b, bufs[b].(dirty := true));
      bufs := bufs[b := bufs[b].(dirty := true)];
    }

    /** Releases the lock and the reference; the last reference moves the buffer to the front.
        A changed buffer must have been written or pinned. */
    method Brelse(b: nat)
      requires Valid() && b < |bufs| && bufs[b].locked
      requires bufs[b].valid && !bufs[b].dirty ==> bufs[b].blockno < |disk| && bufs[b].data == disk[bufs[b].blockno]
      modifies `bufs, `next, `prev, `ring, `freed, `clock
      ensures Valid() && SameView(old(bufs), disk, bufs, disk)
      ensures old(bufs)[b].refcnt > 0
      ensures bufs == old(bufs)[b := old(bufs)[b].(locked := false, refcnt := old(bufs)[b].refcnt - 1)]
      ensures bufs[b].refcnt == 0 ==> |ring| > 1 && ring[1] == b && forall i :: 0 <= i < |bufs| && i != b ==>
        freed[i] == old(freed)[i] < freed[b]
      ensures bufs[b].refcnt > 0 ==> ring == old(ring) && freed == old(freed)
    {
      assert BufOK(bufs[b], disk);
      SameCopies(bufs, disk, b, bufs[b].(locked := false, refcnt := bufs[b].refcnt - 1));
      hide View, Coherent, BufOK, SameView, RingOK;
      bufs := bufs[b := bufs[b].(locked := false, refcnt := bufs[b].refcnt - 1)];
      if bufs[b].refcnt == 0 {
        MoveFirst(b, |bufs|);
      }
    }

    /** Takes node b out of the list and puts it behind the head. */
    method MoveFirst(b: nat, head: nat)
      requires head == |freed| && b < head && RingOK(next, prev, ring, freed, clock)
      modifies `next, `prev, `ring, `freed, `clock
      ensures RingOK(next, prev, ring, freed, clock) && |freed| == |old(freed)| && |ring| > 1 && ring[1] == b
      ensures forall i :: 0 <= i < |freed| && i != b ==> freed[i] == old(freed)[i] < freed[b]
    {
      hide RingOK;
      ghost var k := FindNode(next, prev, ring, freed, clock, b);
      ghost var n0, p0 := next, prev;
      prev := prev[next[b] := prev[b]];
      next := next[prev[b] := next[b]];
      ghost var n1, p1 := next, prev;
      next := next[b := next[head]];
      prev := prev[b := head];
      prev := prev[next[head] := b];
      next := next[head := b];
      MoveToFront(n0, p0, ring, freed, clock, k, n1, p1, next, prev);
      ring, freed, clock := Front(Without(ring, k), b), freed[b := clock + 1], clock + 1;
    }
  }

  /** The position of a buffer in the list, and what moving it needs. */
  lemma {:induction false} FindNode(next: seq<nat>, prev: seq<nat>, ring: seq<nat>, freed: seq<nat>, clock: nat, b: nat)
    returns (k: nat)
    requires RingOK(next, prev, ring, freed, clock) && b < |freed|
    ensures 0 < k < |ring| && ring[k] == b && |next| == |prev| == |ring| == |freed| + 1
    ensures next[b] < |prev| && prev[b] < |next| && next[b] != b
    ensures next[prev[b] := next[b]][|freed|] < |prev|
    ensures |Front(Without(ring, k), b)| > 1 && Front(Without(ring, k), b)[1] == b
    ensures forall i :: 0 <= i < |freed| ==> freed[i] <= clock
  {
    assert b in ring;
    k :| k < |ring| && ring[k] == b;
    hide Linked;
    RingNode(next, prev, ring, freed, clock, k);
    RingNode(next, prev, ring, freed, clock, Succ(ring, k));
    RingNode(next, prev, ring, freed, clock, Pred(ring, k));
    RingNode(next, prev, ring, freed, clock, 0);
    RingNode(next, prev, ring, freed, clock, Succ(ring, 0));
  }
}
