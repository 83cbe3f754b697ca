/**
  The inode table on disk beside the one in memory. bmap fills addresses of the in-memory inode
  only; iupdate copies an inode to disk (Lab/code/fs.c:221-238, 373-401). The bitmap and the
  indirect blocks are written at once.
 */
module FsDisk {
  import opened FsLayout

  /** The marks in the bitmap are accounted for by the slots. */
  ghost predicate Accounted(fs: Fs) {
    exists owner: map<nat, Slot> :: Owned(fs, owner, {})
  }

  /** Every block that holds a byte below n is allocated. */
  ghost predicate MappedBelow(fs: Fs, i: nat, n: nat)
    requires WellFormed(fs) && i < |fs.inodes|
  {
    forall bn :: 0 <= bn < MAXFILE && bn * BSIZE < n ==> SlotAddr(fs, Slot(i, bn)) != 0
  }

  /** Every block below the size is allocated. */
  ghost predicate Mapped(fs: Fs, i: nat)
    requires WellFormed(fs) && i < |fs.inodes|
  {
    MappedBelow(fs, i, fs.inodes[i].size)
  }

  /** The entry of the address array that leads to file block bn. */
  function AddrIndex(bn: nat): nat {
    if bn < NDIRECT then bn else NDIRECT
  }

  predicate InRange(lo: nat, hi: nat, bn: nat) {
    lo < hi && lo / BSIZE <= bn && bn * BSIZE < hi
  }

  /** The entries of the address array that bytes lo up to hi lead through. */
  function Reached(lo: nat, hi: nat): set<nat> {
    set bn: nat | bn < MAXFILE && InRange(lo, hi, bn) :: AddrIndex(bn)
  }

  /** Some entry that bytes lo up to hi of file i lead through is empty. */
  ghost predicate Holes(fs: Fs, i: nat, lo: nat, hi: nat)
    requires WellFormed(fs) && i < |fs.inodes|
  {
    exists n: nat :: n <= NDIRECT && n in Reached(lo, hi) && fs.inodes[i].addrs[n] == 0
  }

  /** The next block of a transfer adds its entry. */
  lemma {:induction false} ReachedStep(lo: nat, off: nat, m: nat)
    requires lo <= off && 0 < m <= BSIZE - off % BSIZE && off + m <= MAXFILE * BSIZE
    ensures Reached(lo, off + m) == Reached(lo, off) + {AddrIndex(off / BSIZE)}
  {
    var b: nat := off / BSIZE;
    assert off == b * BSIZE + off % BSIZE;
    assert b < MAXFILE && InRange(lo, off + m, b);
    forall bn: nat | bn < MAXFILE
      ensures InRange(lo, off + m, bn) <==> InRange(lo, off, bn) || bn == b
    {
      BlockStep(lo, off, m, bn);
    }
    forall n: nat | n in Reached(lo, off)
      ensures n in Reached(lo, off + m)
    {
      var bn: nat :| bn < MAXFILE && InRange(lo, off, bn) && n == AddrIndex(bn);
      assert InRange(lo, off + m, bn);
    }
    forall n: nat | n in Reached(lo, off + m)
      ensures n in Reached(lo, off) || n == AddrIndex(b)
    {
      var bn: nat :| bn < MAXFILE && InRange(lo, off + m, bn) && n == AddrIndex(bn);
    }
  }

  lemma {:induction false} BlockStep(lo: nat, off: nat, m: nat, bn: nat)
    requires lo <= off && 0 < m <= BSIZE - off % BSIZE
    ensures InRange(lo, off + m, bn) <==> InRange(lo, off, bn) || bn == off / BSIZE
  {
  }

  // ---- addresses filled in memory ----

  /** Inode b is a with the empty entries among s filled. */
  ghost predicate AddrsFilled(a: Inode, b: Inode, s: set<nat>) {
    && b.size == a.size && |b.addrs| == |a.addrs| == NDIRECT + 1
    && (forall n :: 0 <= n <= NDIRECT && (n !in s || a.addrs[n] != 0) ==> b.addrs[n] == a.addrs[n])
    && (forall n :: 0 <= n <= NDIRECT && n in s ==> b.addrs[n] != 0)
  }

  /** Only inode i changed, by filling empty entries among s. */
  ghost predicate TableFilled(a: seq<Inode>, b: seq<Inode>, i: nat, s: set<nat>) {
    && i < |a| == |b| && AddrsFilled(a[i], b[i], s)
    && forall j :: 0 <= j < |a| && j != i ==> b[j] == a[j]
  }

  lemma {:induction false} FilledThen(a: seq<Inode>, b: seq<Inode>, c: seq<Inode>, i: nat, s: set<nat>, n: nat)
    requires TableFilled(a, b, i, s) && TableFilled(b, c, i, {n})
    ensures TableFilled(a, c, i, s + {n})
  {
  }

  lemma {:induction false} FilledOneEntry(a: seq<Inode>, i: nat, n: nat, v: nat)
    requires i < |a| && |a[i].addrs| == NDIRECT + 1 && n <= NDIRECT && a[i].addrs[n] == 0 != v
    ensures TableFilled(a, a[i := a[i].(addrs := a[i].addrs[n := v])], i, {n})
  {
  }

  lemma {:induction false} FilledAlready(a: seq<Inode>, i: nat, n: nat)
    requires i < |a| && |a[i].addrs| == NDIRECT + 1 && n <= NDIRECT && a[i].addrs[n] != 0
    ensures TableFilled(a, a, i, {n})
  {
  }

  lemma {:induction false} FilledNothing(a: seq<Inode>, i: nat)
    requires i < |a| && |a[i].addrs| == NDIRECT + 1
    ensures TableFilled(a, a, i, {})
  {
  }

  /** The table in memory is unchanged exactly when there was nothing to fill. */
  lemma {:induction false} FilledSame(fs: Fs, b: seq<Inode>, i: nat, lo: nat, hi: nat)
    requires WellFormed(fs) && TableFilled(fs.inodes, b, i, Reached(lo, hi))
    ensures b == fs.inodes <==> !Holes(fs, i, lo, hi)
  {
    hide Reached;
    if !Holes(fs, i, lo, hi) {
      assert b[i].addrs == fs.inodes[i].addrs;
    }
  }

  // ---- what the disk then holds ----

  /** The slots seen with the table on disk are those seen with the one in memory, or empty. */
  lemma {:induction false} FewerSlots(mem: Fs, disk: Fs, i: nat, s: set<nat>, t: Slot)
    requires WellFormed(mem) && TableFilled(disk.inodes, mem.inodes, i, s) && disk == mem.(inodes := disk.inodes)
    requires IsSlot(mem, t)
    ensures WellFormed(disk) && IsSlot(disk, t)
    ensures SlotAddr(disk, t) == SlotAddr(mem, t) || SlotAddr(disk, t) == 0
    ensures t.index < NDIRECT || t.index == MAXFILE ==>
      SlotAddr(disk, t) == disk.inodes[t.inum].addrs[AddrIndex(t.index)]
  {
    hide Word;
    assert forall j :: 0 <= j < |disk.inodes| && j != i ==> disk.inodes[j] == mem.inodes[j];
  }

  lemma {:induction false} MarkHasSlot(fs: Fs, owner: map<nat, Slot>, b: nat)
    requires WellFormed(fs) && fs.meta <= b < |fs.blocks| && fs.bitmap[b]
    ensures Owned(fs, owner, {}) ==> exists t :: IsSlot(fs, t) && SlotAddr(fs, t) == b
  {
    if Owned(fs, owner, {}) {
      assert IsSlot(fs, owner[b]);
    }
  }

  /** A block in an address that is in memory only is marked and in no slot of the disk. */
  lemma {:induction false} Unsaved(mem: Fs, owner: map<nat, Slot>, disk: Fs, i: nat, s: set<nat>, n: nat)
    requires Owned(mem, owner, {}) && TableFilled(disk.inodes, mem.inodes, i, s) && disk == mem.(inodes := disk.inodes)
    requires n <= NDIRECT && disk.inodes[i].addrs[n] == 0 != mem.inodes[i].addrs[n]
    ensures !Accounted(disk)
    ensures var b := mem.inodes[i].addrs[n]; b < |disk.bitmap| && disk.bitmap[b] && b >= disk.meta
    ensures WellFormed(disk) && forall t :: IsSlot(disk, t) ==> SlotAddr(disk, t) != mem.inodes[i].addrs[n]
  {
    var b := mem.inodes[i].addrs[n];
    var u := AddrSlot(i, n);
    assert IsSlot(mem, u) && SlotAddr(mem, u) == b;
    FewerSlots(mem, disk, i, s, u);
    forall t | IsSlot(disk, t)
      ensures SlotAddr(disk, t) != b
    {
      FewerSlots(mem, disk, i, s, t);
    }
    forall other: map<nat, Slot>
      ensures !Owned(disk, other, {})
    {
      MarkHasSlot(disk, other, b);
    }
  }

  /** The disk accounts for every mark exactly when the inode in memory holds nothing unsaved. */
  lemma {:induction false} AccountedIff(mem: Fs, owner: map<nat, Slot>, disk: Fs, i: nat, s: set<nat>)
    requires Owned(mem, owner, {}) && TableFilled(disk.inodes, mem.inodes, i, s) && disk == mem.(inodes := disk.inodes)
    ensures Accounted(disk) <==> disk.inodes == mem.inodes
  {
    if disk.inodes == mem.inodes {
      assert disk == mem;
    } else {
      assert disk.inodes[i] != mem.inodes[i];
      assert disk.inodes[i].addrs != mem.inodes[i].addrs;
      var n :| 0 <= n <= NDIRECT && disk.inodes[i].addrs[n] != mem.inodes[i].addrs[n];
      Unsaved(mem, owner, disk, i, s, n);
    }
  }

  /** What a reload of the inode brings back: bytes behind an unsaved address read as zeros, the
      others as in memory. */
  lemma {:induction false} ReloadReads(mem: Fs, disk: Fs, i: nat, s: set<nat>, k: nat)
    requires WellFormed(mem) && TableFilled(disk.inodes, mem.inodes, i, s) && disk == mem.(inodes := disk.inodes)
    requires k < MAXFILE * BSIZE
    ensures WellFormed(disk)
    ensures FileByte(disk, i, k) == if disk.inodes[i].addrs[AddrIndex(k / BSIZE)] == 0 then 0 else FileByte(mem, i, k)
  {
    var n := AddrIndex(k / BSIZE);
    assert disk.inodes[i].addrs[n] != 0 ==> mem.inodes[i].addrs[n] == disk.inodes[i].addrs[n];
    hide Word;
  }

  /** A mapped range has no holes. */
  lemma {:induction false} MappedHasNoHoles(fs: Fs, i: nat, lo: nat, hi: nat)
    requires WellFormed(fs) && i < |fs.inodes| && Mapped(fs, i) && hi <= fs.inodes[i].size
    ensures !Holes(fs, i, lo, hi)
  {
    forall n: nat | n <= NDIRECT && n in Reached(lo, hi)
      ensures fs.inodes[i].addrs[n] != 0
    {
      var bn: nat :| bn < MAXFILE && InRange(lo, hi, bn) && n == AddrIndex(bn);
      assert SlotAddr(fs, Slot(i, bn)) != 0;
    }
  }
}
