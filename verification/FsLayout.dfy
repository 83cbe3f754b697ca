/**
  Blocks, block maps and block ownership of the file system in Lab/code/fs.c and fs.h, on values.

  A block is BSIZE bytes. An indirect block holds little-endian 32-bit block numbers in those
  bytes. Slots 0..MAXFILE-1 of an inode are the blocks of the file; slot MAXFILE is the indirect
  block itself. A block number 0 means there is no block.
 */
module FsLayout {

  const BSIZE := 512
  const NDIRECT := 28
  const NINDIRECT := 128     // BSIZE / sizeof(uint)
  const MAXFILE := 156       // NDIRECT + NINDIRECT

  type Byte = x: int | 0 <= x < 256
  type Block = b: seq<Byte> | |b| == BSIZE witness seq(BSIZE, _ => 0)

  const ZERO: Block := seq(BSIZE, _ => 0)

  // ---- words in a block ----

  function Word(b: Block, j: nat): nat
    requires j < NINDIRECT
  {
    var b0: int, b1: int, b2: int, b3: int := b[4 * j], b[4 * j + 1], b[4 * j + 2], b[4 * j + 3];
    b0 + 0x100 * b1 + 0x1_0000 * b2 + 0x100_0000 * b3
  }

  function SetWord(b: Block, j: nat, w: nat): Block
    requires j < NINDIRECT && w < 0x1_0000_0000
  {
    var k := 4 * j;
    b[k := w % 0x100][k + 1 := w / 0x100 % 0x100][k + 2 := w / 0x1_0000 % 0x100][k + 3 := w / 0x100_0000]
  }

  lemma {:induction false} Digits(w: nat)
    requires w < 0x1_0000_0000
    ensures w % 0x100 + 0x100 * (w / 0x100 % 0x100) + 0x1_0000 * (w / 0x1_0000 % 0x100) +
      0x100_0000 * (w / 0x100_0000) == w
  {
    assert w == w % 0x100 + 0x100 * (w / 0x100);
    assert w / 0x100 == w / 0x100 % 0x100 + 0x100 * (w / 0x1_0000);
    assert w / 0x1_0000 == w / 0x1_0000 % 0x100 + 0x100 * (w / 0x100_0000);
  }

  lemma {:induction false} WordSet(b: Block, j: nat, w: nat, k: nat)
    requires j < NINDIRECT && k < NINDIRECT && w < 0x1_0000_0000
    ensures Word(SetWord(b, j, w), k) == if k == j then w else Word(b, k)
  {
    Digits(w);
  }

  lemma {:induction false} ZeroWord(j: nat)
    requires j < NINDIRECT
    ensures Word(ZERO, j) == 0
  {
  }

  // ---- inodes ----

  datatype Inode = Inode(size: nat, addrs: seq<nat>)

  /** `meta` blocks (boot, super, log, inodes, bitmap) come first; `inodes` is the inode table. */
  datatype Fs = Fs(meta: nat, bitmap: seq<bool>, blocks: seq<Block>, inodes: seq<Inode>)

  ghost predicate WellFormed(fs: Fs) {
    && 0 < fs.meta <= |fs.blocks| == |fs.bitmap| < 0x1_0000_0000
    && forall i :: 0 <= i < |fs.inodes| ==> |fs.inodes[i].addrs| == NDIRECT + 1 && fs.inodes[i].size <= MAXFILE * BSIZE
  }

  datatype Slot = Slot(inum: nat, index: nat)

  predicate IsSlot(fs: Fs, s: Slot) {
    s.inum < |fs.inodes| && s.index <= MAXFILE
  }

  /** The block number in a slot. */
  function SlotAddr(fs: Fs, s: Slot): nat
    requires WellFormed(fs) && IsSlot(fs, s)
  {
    var addrs := fs.inodes[s.inum].addrs;
    if s.index < NDIRECT then addrs[s.index]
    else if s.index == MAXFILE then addrs[NDIRECT]
    else if addrs[NDIRECT] == 0 || addrs[NDIRECT] >= |fs.blocks| then 0
    else Word(fs.blocks[addrs[NDIRECT]], s.index - NDIRECT)
  }

  /** Byte k of file i; a missing block reads as zeros. */
  function FileByte(fs: Fs, i: nat, k: nat): Byte
    requires WellFormed(fs) && i < |fs.inodes| && k < MAXFILE * BSIZE
  {
    var a := SlotAddr(fs, Slot(i, k / BSIZE));
    if a == 0 || a >= |fs.blocks| then 0 else fs.blocks[a][k % BSIZE]
  }

  function Content(fs: Fs, i: nat): (s: seq<Byte>)
    requires WellFormed(fs) && i < |fs.inodes|
    ensures |s| == fs.inodes[i].size
    ensures forall k :: 0 <= k < |s| ==> s[k] == FileByte(fs, i, k)
  {
    seq(fs.inodes[i].size, k requires 0 <= k < fs.inodes[i].size => FileByte(fs, i, k))
  }

  // ---- ownership ----

  /** `owner` is the inverse of the slots: every block in use sits in exactly one slot of one
      inode, `extra` are blocks marked in the bitmap but not yet (or no longer) in a slot. */
  ghost predicate Owned(fs: Fs, owner: map<nat, Slot>, extra: set<nat>) {
    && WellFormed(fs)
    && (forall s :: IsSlot(fs, s) && SlotAddr(fs, s) != 0 ==> SlotAddr(fs, s) in owner && owner[SlotAddr(fs, s)] == s)
    && (forall b :: b in owner ==> IsSlot(fs, owner[b]) && SlotAddr(fs, owner[b]) == b)
    && (forall b :: b in owner || b in extra ==> fs.meta <= b < |fs.blocks|)
    && (forall b :: b in owner ==> b !in extra)
    && (forall b :: 0 <= b < |fs.blocks| ==> (fs.bitmap[b] <==> b < fs.meta || b in owner || b in extra))
  }

  /** What ownership means without the inverse map. */
  lemma {:induction false} OwnedMeans(fs: Fs, owner: map<nat, Slot>)
    requires Owned(fs, owner, {})
    ensures forall s, t :: IsSlot(fs, s) && IsSlot(fs, t) && SlotAddr(fs, s) == SlotAddr(fs, t) != 0 ==> s == t
    ensures forall b :: fs.meta <= b < |fs.blocks| && fs.bitmap[b] ==> exists s :: IsSlot(fs, s) && SlotAddr(fs, s) == b
    ensures forall s :: IsSlot(fs, s) && SlotAddr(fs, s) != 0 ==>
              fs.meta <= SlotAddr(fs, s) < |fs.blocks| && fs.bitmap[SlotAddr(fs, s)]
    ensures forall b :: 0 <= b < fs.meta ==> fs.bitmap[b]
  {
    forall b | fs.meta <= b < |fs.blocks| && fs.bitmap[b]
      ensures exists s :: IsSlot(fs, s) && SlotAddr(fs, s) == b
    {
      assert IsSlot(fs, owner[b]);
    }
  }

  /** Same slots and same bytes in every file, sizes included. */
  ghost predicate SameFiles(fs: Fs, gs: Fs) {
    && WellFormed(fs) && WellFormed(gs) && |fs.inodes| == |gs.inodes|
    && (forall i :: 0 <= i < |fs.inodes| ==> fs.inodes[i].size == gs.inodes[i].size)
    && (forall i, k :: 0 <= i < |fs.inodes| && 0 <= k < MAXFILE * BSIZE ==> FileByte(gs, i, k) == FileByte(fs, i, k))
  }

  // ---- elementary updates ----

  function SetBlock(fs: Fs, b: nat, v: Block): Fs
    requires b < |fs.blocks|
  {
    fs.(blocks := fs.blocks[b := v])
  }

  function SetBit(fs: Fs, b: nat, v: bool): Fs
    requires b < |fs.bitmap|
  {
    fs.(bitmap := fs.bitmap[b := v])
  }

  function SetAddr(fs: Fs, i: nat, n: nat, a: nat): Fs
    requires i < |fs.inodes| && n < |fs.inodes[i].addrs|
  {
    fs.(inodes := fs.inodes[i := fs.inodes[i].(addrs := fs.inodes[i].addrs[n := a])])
  }

  function SetSize(fs: Fs, i: nat, size: nat): Fs
    requires i < |fs.inodes|
  {
    fs.(inodes := fs.inodes[i := fs.inodes[i].(size := size)])
  }

  /** The bits of the bitmap are no part of a slot or a file. */
  lemma {:induction false} BitIsInvisible(fs: Fs, b: nat, v: bool)
    requires WellFormed(fs) && b < |fs.bitmap|
    ensures WellFormed(SetBit(fs, b, v))
    ensures forall s :: IsSlot(fs, s) ==> SlotAddr(SetBit(fs, b, v), s) == SlotAddr(fs, s)
    ensures SameFiles(fs, SetBit(fs, b, v))
  {
    var gs := SetBit(fs, b, v);
    forall s | IsSlot(fs, s)
      ensures SlotAddr(gs, s) == SlotAddr(fs, s)
    {
    }
  }

  /** A block that is no indirect block can be overwritten without changing a slot. */
  lemma {:induction false} SlotsKept(fs: Fs, owner: map<nat, Slot>, extra: set<nat>, b: nat, v: Block, s: Slot)
    requires Owned(fs, owner, extra) && b < |fs.blocks| && IsSlot(fs, s)
    requires b in owner ==> owner[b].index != MAXFILE
    ensures SlotAddr(SetBlock(fs, b, v), s) == SlotAddr(fs, s)
  {
    var ind := Slot(s.inum, MAXFILE);
    assert IsSlot(fs, ind);
    assert SlotAddr(fs, ind) == fs.inodes[s.inum].addrs[NDIRECT];
  }

  /** Overwriting a data block changes exactly the bytes of its slot. */
  lemma {:induction false} WriteData(fs: Fs, owner: map<nat, Slot>, extra: set<nat>, b: nat, v: Block)
    requires Owned(fs, owner, extra) && b in owner && owner[b].index < MAXFILE && b < |fs.blocks|
    ensures Owned(SetBlock(fs, b, v), owner, extra)
    ensures forall i, k :: 0 <= i < |fs.inodes| && 0 <= k < MAXFILE * BSIZE ==>
              FileByte(SetBlock(fs, b, v), i, k) ==
              if Slot(i, k / BSIZE) == owner[b] then v[k % BSIZE] else FileByte(fs, i, k)
  {
    var gs := SetBlock(fs, b, v);
    forall s | IsSlot(fs, s)
      ensures SlotAddr(gs, s) == SlotAddr(fs, s)
    {
      SlotsKept(fs, owner, extra, b, v, s);
    }
    forall i, k | 0 <= i < |fs.inodes| && 0 <= k < MAXFILE * BSIZE
      ensures FileByte(gs, i, k) == if Slot(i, k / BSIZE) == owner[b] then v[k % BSIZE] else FileByte(fs, i, k)
    {
      assert IsSlot(fs, Slot(i, k / BSIZE));
    }
  }

  /** balloc: mark and zero a free block. */
  lemma {:induction false} AllocateBlock(fs: Fs, owner: map<nat, Slot>, extra: set<nat>, b: nat)
    requires Owned(fs, owner, extra) && b < |fs.blocks| && !fs.bitmap[b]
    ensures Owned(SetBlock(SetBit(fs, b, true), b, ZERO), owner, extra + {b})
    ensures forall s :: IsSlot(fs, s) ==> SlotAddr(SetBlock(SetBit(fs, b, true), b, ZERO), s) == SlotAddr(fs, s)
    ensures SameFiles(fs, SetBlock(SetBit(fs, b, true), b, ZERO))
  {
    var ms := SetBit(fs, b, true);
    BitIsInvisible(fs, b, true);
    assert Owned(ms, owner, extra + {b});
    var gs := SetBlock(ms, b, ZERO);
    forall s | IsSlot(fs, s)
      ensures SlotAddr(gs, s) == SlotAddr(fs, s)
    {
      SlotsKept(ms, owner, extra + {b}, b, ZERO, s);
    }
    forall i, k | 0 <= i < |fs.inodes| && 0 <= k < MAXFILE * BSIZE
      ensures FileByte(gs, i, k) == FileByte(fs, i, k)
    {
      assert IsSlot(fs, Slot(i, k / BSIZE));
    }
  }

  /** Linking a fresh zeroed block into an empty direct slot (or as indirect block) changes no file. */
  lemma {:induction false} LinkAddr(fs: Fs, owner: map<nat, Slot>, extra: set<nat>, i: nat, n: nat, b: nat)
    requires Owned(fs, owner, extra) && b in extra && fs.blocks[b] == ZERO
    requires i < |fs.inodes| && n <= NDIRECT && fs.inodes[i].addrs[n] == 0
    ensures Owned(SetAddr(fs, i, n, b), owner[b := AddrSlot(i, n)], extra - {b})
    ensures forall s :: IsSlot(fs, s) ==>
              SlotAddr(SetAddr(fs, i, n, b), s) == if s == AddrSlot(i, n) then b else SlotAddr(fs, s)
    ensures SameFiles(fs, SetAddr(fs, i, n, b))
  {
    var gs := SetAddr(fs, i, n, b);
    assert WellFormed(gs);
    forall s | IsSlot(fs, s)
      ensures SlotAddr(gs, s) == if s == AddrSlot(i, n) then b else SlotAddr(fs, s)
    {
      if s.inum == i && n == NDIRECT && NDIRECT <= s.index < MAXFILE {
        ZeroWord(s.index - NDIRECT);
      }
    }
    assert SlotAddr(fs, AddrSlot(i, n)) == 0;
    LinkOwned(fs, gs, owner, extra, AddrSlot(i, n), b);
    LinkFiles(fs, gs, AddrSlot(i, n), b);
  }

  /** The slot of entry n of the address array. */
  function AddrSlot(i: nat, n: nat): Slot {
    if n == NDIRECT then Slot(i, MAXFILE) else Slot(i, n)
  }

  /** If only the empty slot `t` changed, to an extra block, ownership moves to that slot. */
  lemma {:induction false} LinkOwned(fs: Fs, gs: Fs, owner: map<nat, Slot>, extra: set<nat>, t: Slot, b: nat)
    requires Owned(fs, owner, extra) && b in extra && IsSlot(fs, t) && SlotAddr(fs, t) == 0
    requires WellFormed(gs) && |gs.inodes| == |fs.inodes| && gs.meta == fs.meta && gs.bitmap == fs.bitmap
    requires forall s :: IsSlot(fs, s) ==> SlotAddr(gs, s) == if s == t then b else SlotAddr(fs, s)
    ensures Owned(gs, owner[b := t], extra - {b})
  {
    hide SlotAddr;
    var owner' := owner[b := t];
    forall s | IsSlot(gs, s) && SlotAddr(gs, s) != 0
      ensures SlotAddr(gs, s) in owner' && owner'[SlotAddr(gs, s)] == s
    {
      assert IsSlot(fs, s);
    }
    forall c | c in owner'
      ensures IsSlot(gs, owner'[c]) && SlotAddr(gs, owner'[c]) == c
    {
      assert IsSlot(fs, owner'[c]);
    }
  }

  /** If only the empty slot `t` changed, to a zero block, every file reads as before. */
  lemma {:induction false} LinkFiles(fs: Fs, gs: Fs, t: Slot, b: nat)
    requires WellFormed(fs) && WellFormed(gs) && |gs.inodes| == |fs.inodes| && |gs.blocks| == |fs.blocks|
    requires forall i :: 0 <= i < |fs.inodes| ==> fs.inodes[i].size == gs.inodes[i].size
    requires IsSlot(fs, t) && SlotAddr(fs, t) == 0 && b < |gs.blocks| && gs.blocks[b] == ZERO
    requires forall s :: IsSlot(fs, s) ==> SlotAddr(gs, s) == if s == t then b else SlotAddr(fs, s)
    requires forall s :: IsSlot(fs, s) && s.index < MAXFILE && 0 < SlotAddr(fs, s) < |fs.blocks| ==>
               gs.blocks[SlotAddr(fs, s)] == fs.blocks[SlotAddr(fs, s)]
    ensures SameFiles(fs, gs)
  {
    forall i, k | 0 <= i < |fs.inodes| && 0 <= k < MAXFILE * BSIZE
      ensures FileByte(gs, i, k) == FileByte(fs, i, k)
    {
      assert IsSlot(fs, Slot(i, k / BSIZE));
    }
  }

  /** Linking a fresh zeroed block into an empty entry of the indirect block changes no file. */
  lemma {:induction false} LinkEntry(fs: Fs, owner: map<nat, Slot>, extra: set<nat>, i: nat, j: nat, ind: nat, b: nat)
    requires Owned(fs, owner, extra) && b in extra && fs.blocks[b] == ZERO
    requires i < |fs.inodes| && j < NINDIRECT && ind == fs.inodes[i].addrs[NDIRECT] != 0
    requires ind < |fs.blocks| && Word(fs.blocks[ind], j) == 0
    ensures Owned(SetBlock(fs, ind, SetWord(fs.blocks[ind], j, b)), owner[b := Slot(i, NDIRECT + j)], extra - {b})
    ensures forall s :: IsSlot(fs, s) ==>
              SlotAddr(SetBlock(fs, ind, SetWord(fs.blocks[ind], j, b)), s) ==
              if s == Slot(i, NDIRECT + j) then b else SlotAddr(fs, s)
    ensures SameFiles(fs, SetBlock(fs, ind, SetWord(fs.blocks[ind], j, b)))
  {
    hide FileByte, Word, SetWord;
    var gs := SetBlock(fs, ind, SetWord(fs.blocks[ind], j, b));
    assert IsSlot(fs, Slot(i, MAXFILE)) && SlotAddr(fs, Slot(i, MAXFILE)) == ind;
    forall s | IsSlot(fs, s)
      ensures SlotAddr(gs, s) == if s == Slot(i, NDIRECT + j) then b else SlotAddr(fs, s)
    {
      assert IsSlot(fs, Slot(s.inum, MAXFILE));
      if s.inum == i && NDIRECT <= s.index < MAXFILE {
        WordSet(fs.blocks[ind], j, b, s.index - NDIRECT);
      }
    }
    LinkOwned(fs, gs, owner, extra, Slot(i, NDIRECT + j), b);
    LinkFiles(fs, gs, Slot(i, NDIRECT + j), b);
  }

  // ---- giving blocks back ----

  /** The slots that disappear when entry n of inode i's address array is cleared. */
  predicate Gone(i: nat, n: nat, s: Slot) {
    s.inum == i && if n == NDIRECT then s.index >= NDIRECT else s.index == n
  }

  ghost function Keep(owner: map<nat, Slot>, i: nat, n: nat): map<nat, Slot> {
    map b | b in owner && !Gone(i, n, owner[b]) :: owner[b]
  }

  ghost function Lost(owner: map<nat, Slot>, i: nat, n: nat): set<nat> {
    set b | b in owner && Gone(i, n, owner[b])
  }

  /** Clearing an address leaves its blocks marked but in no slot; no other slot changes. */
  lemma {:induction false} Unlink(fs: Fs, owner: map<nat, Slot>, extra: set<nat>, i: nat, n: nat)
    requires Owned(fs, owner, extra) && i < |fs.inodes| && n <= NDIRECT
    ensures Owned(SetAddr(fs, i, n, 0), Keep(owner, i, n), extra + Lost(owner, i, n))
    ensures forall s :: IsSlot(fs, s) ==>
              SlotAddr(SetAddr(fs, i, n, 0), s) == if Gone(i, n, s) then 0 else SlotAddr(fs, s)
  {
    var gs := SetAddr(fs, i, n, 0);
    assert WellFormed(gs);
    forall s | IsSlot(fs, s)
      ensures SlotAddr(gs, s) == if Gone(i, n, s) then 0 else SlotAddr(fs, s)
    {
    }
    UnlinkOwned(fs, gs, owner, extra, i, n);
  }

  lemma {:induction false} UnlinkOwned(fs: Fs, gs: Fs, owner: map<nat, Slot>, extra: set<nat>, i: nat, n: nat)
    requires Owned(fs, owner, extra) && n <= NDIRECT
    requires WellFormed(gs) && |gs.inodes| == |fs.inodes| && gs.meta == fs.meta && gs.bitmap == fs.bitmap
    requires forall s :: IsSlot(fs, s) ==> SlotAddr(gs, s) == if Gone(i, n, s) then 0 else SlotAddr(fs, s)
    ensures Owned(gs, Keep(owner, i, n), extra + Lost(owner, i, n))
  {
    hide SlotAddr;
    var owner' := Keep(owner, i, n);
    forall s | IsSlot(gs, s) && SlotAddr(gs, s) != 0
      ensures SlotAddr(gs, s) in owner' && owner'[SlotAddr(gs, s)] == s
    {
      assert IsSlot(fs, s);
    }
    forall c | c in owner'
      ensures IsSlot(gs, owner'[c]) && SlotAddr(gs, owner'[c]) == c
    {
      assert IsSlot(fs, owner[c]);
    }
  }

  /** A block in no slot can be released. */
  lemma {:induction false} Release(fs: Fs, owner: map<nat, Slot>, extra: set<nat>, b: nat)
    requires Owned(fs, owner, extra) && b in extra
    ensures b < |fs.bitmap| && fs.bitmap[b]
    ensures Owned(SetBit(fs, b, false), owner, extra - {b})
  {
    BitIsInvisible(fs, b, false);
    hide SlotAddr;
    var gs := SetBit(fs, b, false);
    forall s | IsSlot(gs, s) && SlotAddr(gs, s) != 0
      ensures SlotAddr(gs, s) in owner && owner[SlotAddr(gs, s)] == s
    {
      assert IsSlot(fs, s);
    }
    forall c | c in owner
      ensures IsSlot(gs, owner[c]) && SlotAddr(gs, owner[c]) == c
    {
      assert IsSlot(fs, owner[c]);
    }
  }

  /** The blocks lost with a direct address: its block, if it has one. */
  lemma {:induction false} LostDirect(fs: Fs, owner: map<nat, Slot>, i: nat, n: nat)
    requires Owned(fs, owner, {}) && i < |fs.inodes| && n < NDIRECT
    ensures Lost(owner, i, n) == if fs.inodes[i].addrs[n] == 0 then {} else {fs.inodes[i].addrs[n]}
  {
    var s := Slot(i, n);
    assert IsSlot(fs, s) && SlotAddr(fs, s) == fs.inodes[i].addrs[n];
    forall b | b in Lost(owner, i, n)
      ensures b == fs.inodes[i].addrs[n] != 0
    {
      assert owner[b] == s;
    }
  }

  /** Entries j.. of an indirect block, and the block itself. */
  ghost function EntriesFrom(a: Block, j: nat, ind: nat): set<nat>
    requires j <= NINDIRECT
  {
    {ind} + set e: nat | j <= e < NINDIRECT && Word(a, e) != 0 :: Word(a, e)
  }

  /** The blocks lost with the indirect address: the indirect block and all its entries. */
  lemma {:induction false} LostIndirect(fs: Fs, owner: map<nat, Slot>, i: nat, ind: nat)
    requires Owned(fs, owner, {}) && i < |fs.inodes| && ind == fs.inodes[i].addrs[NDIRECT] != 0
    ensures ind < |fs.blocks| && Lost(owner, i, NDIRECT) == EntriesFrom(fs.blocks[ind], 0, ind)
  {
    assert IsSlot(fs, Slot(i, MAXFILE)) && SlotAddr(fs, Slot(i, MAXFILE)) == ind;
    var lost, entries := Lost(owner, i, NDIRECT), EntriesFrom(fs.blocks[ind], 0, ind);
    forall b | b in lost
      ensures b in entries
    {
      var s := owner[b];
      assert IsSlot(fs, s) && SlotAddr(fs, s) == b;
      if s.index < MAXFILE {
        assert b == Word(fs.blocks[ind], s.index - NDIRECT);
      }
    }
    forall b | b in entries
      ensures b in lost
    {
      if b != ind {
        var e: nat :| 0 <= e < NINDIRECT && Word(fs.blocks[ind], e) == b && b != 0;
        var s := Slot(i, NDIRECT + e);
        assert IsSlot(fs, s) && SlotAddr(fs, s) == b;
      }
    }
  }

  /** The entries of an indirect block are distinct, and distinct from the block itself. */
  lemma {:induction false} EntriesDistinct(fs: Fs, owner: map<nat, Slot>, i: nat, ind: nat, j: nat)
    requires Owned(fs, owner, {}) && i < |fs.inodes| && ind == fs.inodes[i].addrs[NDIRECT] != 0 && j < NINDIRECT
    requires ind < |fs.blocks|
    ensures var a := fs.blocks[ind];
            EntriesFrom(a, j + 1, ind) ==
                if Word(a, j) == 0 then EntriesFrom(a, j, ind) else EntriesFrom(a, j, ind) - {Word(a, j)}
  {
    var a := fs.blocks[ind];
    forall e: nat | e < NINDIRECT && Word(a, e) != 0
      ensures Word(a, e) in owner && owner[Word(a, e)] == Slot(i, NDIRECT + e)
    {
      var s := Slot(i, NDIRECT + e);
      assert IsSlot(fs, s) && SlotAddr(fs, s) == Word(a, e);
    }
    assert IsSlot(fs, Slot(i, MAXFILE)) && SlotAddr(fs, Slot(i, MAXFILE)) == ind;
    assert ind in owner && owner[ind] == Slot(i, MAXFILE);
  }

  /** bfree of a direct block followed by clearing its address. */
  lemma {:induction false} FreeDirect(fs: Fs, owner: map<nat, Slot>, i: nat, n: nat)
    requires Owned(fs, owner, {}) && i < |fs.inodes| && n < NDIRECT
    ensures fs.inodes[i].addrs[n] == 0 ==> Keep(owner, i, n) == owner
    ensures fs.inodes[i].addrs[n] != 0 ==>
              var a := fs.inodes[i].addrs[n];
              a < |fs.bitmap| && fs.bitmap[a] && Owned(SetAddr(SetBit(fs, a, false), i, n, 0), Keep(owner, i, n), {})
  {
    LostDirect(fs, owner, i, n);
    var a := fs.inodes[i].addrs[n];
    if a == 0 {
      assert forall b :: b in owner ==> b !in Lost(owner, i, n);
    } else {
      Unlink(fs, owner, {}, i, n);
      var gs := SetAddr(fs, i, n, 0);
      assert {} + Lost(owner, i, n) == {a};
      Release(gs, Keep(owner, i, n), {a}, a);
      assert {a} - {a} == {};
      assert SetBit(gs, a, false) == SetAddr(SetBit(fs, a, false), i, n, 0);
    }
  }

  /** The state seen while the entries of a detached indirect block are being freed. */
  ghost predicate Draining(fs: Fs, owner: map<nat, Slot>, i: nat, ind: nat, a: Block, j: nat) {
    && i < |fs.inodes| && |fs.inodes[i].addrs| == NDIRECT + 1 && j <= NINDIRECT
    && Owned(SetAddr(fs, i, NDIRECT, 0), owner, EntriesFrom(a, j, ind))
  }

  lemma {:induction false} StartDraining(fs: Fs, owner: map<nat, Slot>, i: nat, ind: nat)
    requires Owned(fs, owner, {}) && i < |fs.inodes| && ind == fs.inodes[i].addrs[NDIRECT] != 0
    ensures ind < |fs.blocks| && Draining(fs, Keep(owner, i, NDIRECT), i, ind, fs.blocks[ind], 0)
  {
    Unlink(fs, owner, {}, i, NDIRECT);
    LostIndirect(fs, owner, i, ind);
    assert {} + Lost(owner, i, NDIRECT) == EntriesFrom(fs.blocks[ind], 0, ind);
  }

  /** Entry j, if present, is marked; after freeing it the entries from j + 1 are left. */
  lemma {:induction false} Drain(fs: Fs, owner: map<nat, Slot>, i: nat, ind: nat, a: Block, j: nat)
    requires Draining(fs, owner, i, ind, a, j) && j < NINDIRECT
    requires EntriesFrom(a, j + 1, ind) ==
      if Word(a, j) == 0 then EntriesFrom(a, j, ind) else EntriesFrom(a, j, ind) - {Word(a, j)}
    ensures Word(a, j) == 0 ==> Draining(fs, owner, i, ind, a, j + 1)
    ensures Word(a, j) != 0 ==>
              && Word(a, j) < |fs.bitmap| && fs.bitmap[Word(a, j)]
              && Draining(SetBit(fs, Word(a, j), false), owner, i, ind, a, j + 1)
  {
    hide Owned;
    var w := Word(a, j);
    if w != 0 {
      assert w in EntriesFrom(a, j, ind);
      var gs := SetAddr(fs, i, NDIRECT, 0);
      Release(gs, owner, EntriesFrom(a, j, ind), w);
      assert SetBit(gs, w, false) == SetAddr(SetBit(fs, w, false), i, NDIRECT, 0);
    }
  }

  /** With all entries freed only the indirect block itself is left to free. */
  lemma {:induction false} EndDraining(fs: Fs, owner: map<nat, Slot>, i: nat, ind: nat, a: Block)
    requires Draining(fs, owner, i, ind, a, NINDIRECT)
    ensures ind < |fs.bitmap| && fs.bitmap[ind]
    ensures Owned(SetAddr(SetBit(fs, ind, false), i, NDIRECT, 0), owner, {})
  {
    hide Owned;
    var gs := SetAddr(fs, i, NDIRECT, 0);
    assert EntriesFrom(a, NINDIRECT, ind) == {ind};
    Release(gs, owner, {ind}, ind);
    assert {ind} - {ind} == {};
    assert SetBit(gs, ind, false) == SetAddr(SetBit(fs, ind, false), i, NDIRECT, 0);
  }

  /** What is left of the owners once inode i has lost its slots below n. */
  ghost function DropBelow(owner: map<nat, Slot>, i: nat, n: nat): map<nat, Slot> {
    map b | b in owner && !(owner[b].inum == i && owner[b].index < n) :: owner[b]
  }

  lemma {:induction false} DropSteps(owner: map<nat, Slot>, i: nat, n: nat)
    requires n < NDIRECT && forall b :: b in owner ==> owner[b].index <= MAXFILE
    ensures DropBelow(owner, i, 0) == owner
    ensures Keep(DropBelow(owner, i, n), i, n) == DropBelow(owner, i, n + 1)
    ensures Keep(DropBelow(owner, i, NDIRECT), i, NDIRECT) == DropBelow(owner, i, MAXFILE + 1)
  {
  }
}
