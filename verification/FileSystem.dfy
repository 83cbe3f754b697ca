/**
  balloc, bfree, bmap, itrunc, readi, writei and iupdate of Lab/code/fs.c. Blocks are reached
  through the buffer cache inside a transaction, so a read sees the latest write. Inodes are kept
  twice, in memory and on disk, and only iupdate copies one to disk. A panic is a result of its own.
 */
module FileSystem {
  import opened Options
  import opened FsLayout
  import opened FsDisk

  const BPB := 4096   // BSIZE * 8
  const UINT := 0x1_0000_0000

  datatype ReadResult = ReadError | ReadPanic | Read(data: seq<Byte>)
  datatype WriteResult = WriteError | WritePanic | Written(n: nat)

  function Min(a: nat, b: nat): nat {
    if a < b then a else b
  }

  /** The file after `data` is written at `off`. */
  function Splice(old_: seq<Byte>, off: nat, data: seq<Byte>): seq<Byte>
    requires off <= |old_|
  {
    old_[..off] + data + if off + |data| < |old_| then old_[off + |data|..] else []
  }

  /** Reading back what was written, and everything around it, from the spliced file. */
  lemma {:induction false} SpliceReads(old_: seq<Byte>, off: nat, data: seq<Byte>)
    requires off <= |old_|
    ensures |Splice(old_, off, data)| == if off + |data| < |old_| then |old_| else off + |data|
    ensures Splice(old_, off, data)[off..off + |data|] == data
    ensures Splice(old_, off, data)[..off] == old_[..off]
    ensures forall k :: off + |data| <= k < |old_| ==> Splice(old_, off, data)[k] == old_[k]
  {
  }

  /** Block `b` with `chunk` copied in at byte `o`. */
  function Patch(b: Block, o: nat, chunk: seq<Byte>): Block
    requires o + |chunk| <= BSIZE
  {
    b[..o] + chunk + b[o + |chunk|..]
  }

  lemma {:induction false} SliceStep<T>(s: seq<T>, a: nat, b: nat, c: nat)
    requires a <= b <= c <= |s|
    ensures s[a..b] + s[b..c] == s[a..c]
  {
  }

  /** Every byte of every file of `gs` is that of `fs`, except those of file i that `data` covers. */
  ghost predicate Overlaid(fs: Fs, gs: Fs, i: nat, off: nat, data: seq<Byte>) {
    && WellFormed(fs) && WellFormed(gs) && |gs.inodes| == |fs.inodes| && off + |data| <= MAXFILE * BSIZE
    && (forall j :: 0 <= j < |fs.inodes| ==> gs.inodes[j].size == fs.inodes[j].size)
    && (forall j, k :: 0 <= j < |fs.inodes| && 0 <= k < MAXFILE * BSIZE ==>
          FileByte(gs, j, k) == if j == i && off <= k < off + |data| then data[k - off] else FileByte(fs, j, k))
  }

  lemma {:induction false} OverlayNothing(fs: Fs, i: nat, off: nat)
    requires WellFormed(fs) && off <= MAXFILE * BSIZE
    ensures Overlaid(fs, fs, i, off, [])
  {
    hide FileByte;
  }

  lemma {:induction false} OverlayThenGrown(fs: Fs, gs: Fs, hs: Fs, i: nat, off: nat, data: seq<Byte>)
    requires Overlaid(fs, gs, i, off, data) && Grown(gs, hs) && i < |fs.inodes|
    ensures Overlaid(fs, hs, i, off, data)
    ensures |hs.inodes| == |fs.inodes| && hs.inodes[i].size == fs.inodes[i].size
  {
    hide FileByte, SlotAddr;
  }

  /** One round of writei's loop: `m` bytes into the block of slot off / BSIZE. */
  lemma {:induction false} OverlayBlock(fs: Fs, gs: Fs, owner: map<nat, Slot>, i: nat, off0: nat, data: seq<Byte>,
                                        b: nat, chunk: seq<Byte>, v: Block)
    requires Owned(gs, owner, {}) && Overlaid(fs, gs, i, off0, data) && i < |fs.inodes|
    requires off0 + |data| + |chunk| <= MAXFILE * BSIZE
    requires var o := (off0 + |data|) % BSIZE;
             && o + |chunk| <= BSIZE
             && b in owner && owner[b] == Slot(i, (off0 + |data|) / BSIZE) && b < |gs.blocks|
             && v == Patch(gs.blocks[b], o, chunk)
    requires |chunk| > 0
    ensures Owned(SetBlock(gs, b, v), owner, {})
    ensures Overlaid(fs, SetBlock(gs, b, v), i, off0, data + chunk)
    ensures |gs.inodes| == |fs.inodes| && gs.inodes[i].size == fs.inodes[i].size
  {
    var off := off0 + |data|;
    var o, bn := off % BSIZE, off / BSIZE;
    WriteData(gs, owner, {}, b, v);
    var hs := SetBlock(gs, b, v);
    var all := data + chunk;
    assert IsSlot(gs, Slot(i, bn)) && SlotAddr(gs, Slot(i, bn)) == b;
    forall j, k | 0 <= j < |fs.inodes| && 0 <= k < MAXFILE * BSIZE
      ensures FileByte(hs, j, k) == if j == i && off0 <= k < off0 + |all| then all[k - off0] else FileByte(fs, j, k)
    {
      OverlayByte(fs, gs, hs, owner, i, off0, data, b, chunk, v, j, k);
    }
  }

  lemma {:induction false} OverlayByte(fs: Fs, gs: Fs, hs: Fs, owner: map<nat, Slot>, i: nat, off0: nat,
                                       data: seq<Byte>, b: nat, chunk: seq<Byte>, v: Block, j: nat, k: nat)
    requires WellFormed(fs) && WellFormed(gs) && WellFormed(hs) && |gs.inodes| == |fs.inodes| == |hs.inodes|
    requires j < |fs.inodes| && i < |fs.inodes| && k < MAXFILE * BSIZE && off0 + |data| + |chunk| <= MAXFILE * BSIZE
    requires FileByte(gs, j, k) == if j == i && off0 <= k < off0 + |data| then data[k - off0] else FileByte(fs, j, k)
    requires var o := (off0 + |data|) % BSIZE;
             && o + |chunk| <= BSIZE && 0 < b < |gs.blocks|
             && SlotAddr(gs, Slot(i, (off0 + |data|) / BSIZE)) == b
             && v == Patch(gs.blocks[b], o, chunk)
    requires |chunk| > 0
    requires FileByte(hs, j, k) ==
      if Slot(j, k / BSIZE) == Slot(i, (off0 + |data|) / BSIZE) then v[k % BSIZE] else FileByte(gs, j, k)
    ensures var all := data + chunk;
            FileByte(hs, j, k) == if j == i && off0 <= k < off0 + |all| then all[k - off0] else FileByte(fs, j, k)
  {
    var off := off0 + |data|;
    var o, bn := off % BSIZE, off / BSIZE;
    var all := data + chunk;
    if j == i && k / BSIZE == bn {
      assert FileByte(gs, i, k) == gs.blocks[b][k % BSIZE];
      assert k == bn * BSIZE + k % BSIZE && off == bn * BSIZE + o;
      if o <= k % BSIZE < o + |chunk| {
        assert v[k % BSIZE] == chunk[k - off];
        assert all[k - off0] == chunk[k - off];
      } else {
        assert v[k % BSIZE] == gs.blocks[b][k % BSIZE];
      }
    }
  }

  /** No used slot moves. */
  ghost predicate Kept(fs: Fs, gs: Fs) {
    && WellFormed(fs) && WellFormed(gs) && |gs.inodes| == |fs.inodes|
    && forall s :: IsSlot(fs, s) && SlotAddr(fs, s) != 0 ==> SlotAddr(gs, s) == SlotAddr(fs, s)
  }

  lemma {:induction false} KeptTrans(fs: Fs, gs: Fs, hs: Fs)
    requires Kept(fs, gs) && Kept(gs, hs)
    ensures Kept(fs, hs)
  {
    hide SlotAddr;
    forall s | IsSlot(fs, s) && SlotAddr(fs, s) != 0
      ensures SlotAddr(hs, s) == SlotAddr(fs, s)
    {
      assert IsSlot(gs, s);
    }
  }

  lemma {:induction false} KeptMapped(fs: Fs, gs: Fs, j: nat, n: nat)
    requires Kept(fs, gs) && j < |fs.inodes| && MappedBelow(fs, j, n)
    ensures MappedBelow(gs, j, n)
  {
    hide SlotAddr;
    forall bn | 0 <= bn < MAXFILE && bn * BSIZE < n
      ensures SlotAddr(gs, Slot(j, bn)) != 0
    {
      assert IsSlot(fs, Slot(j, bn));
    }
  }

  /** Writing a data block moves no slot. */
  lemma {:induction false} BlockWritten(fs: Fs, owner: map<nat, Slot>, b: nat, v: Block)
    requires Owned(fs, owner, {}) && b in owner && owner[b].index < MAXFILE && b < |fs.blocks|
    ensures WellFormed(SetBlock(fs, b, v)) && SlotAddr(fs, owner[b]) == b != 0
    ensures forall s :: IsSlot(fs, s) ==> SlotAddr(SetBlock(fs, b, v), s) == SlotAddr(fs, s)
  {
    hide SlotAddr;
    forall s | IsSlot(fs, s)
      ensures SlotAddr(SetBlock(fs, b, v), s) == SlotAddr(fs, s)
    {
      SlotsKept(fs, owner, {}, b, v, s);
    }
  }

  lemma {:induction false} WrittenKept(fs: Fs, owner: map<nat, Slot>, b: nat, v: Block)
    requires Owned(fs, owner, {}) && b in owner && owner[b].index < MAXFILE && b < |fs.blocks|
    ensures Kept(fs, SetBlock(fs, b, v)) && SlotAddr(fs, owner[b]) != 0
  {
    BlockWritten(fs, owner, b, v);
    hide SlotAddr;
  }

  lemma {:induction false} GrownKept(fs: Fs, gs: Fs)
    requires Grown(fs, gs)
    ensures Kept(fs, gs)
  {
  }

  /** All blocks that bytes lo up to hi of file i lie in are there. */
  ghost predicate Present(fs: Fs, i: nat, lo: nat, hi: nat)
    requires WellFormed(fs) && i < |fs.inodes|
  {
    forall bn: nat :: bn < MAXFILE && InRange(lo, hi, bn) ==> SlotAddr(fs, Slot(i, bn)) != 0
  }

  lemma {:induction false} NonePresent(fs: Fs, i: nat, lo: nat)
    requires WellFormed(fs) && i < |fs.inodes|
    ensures Present(fs, i, lo, lo)
  {
  }

  lemma {:induction false} PresentStep(fs: Fs, i: nat, lo: nat, off: nat, m: nat, hi: nat)
    requires WellFormed(fs) && i < |fs.inodes| && lo <= off && 0 < m <= BSIZE - off % BSIZE
    requires off + m <= hi <= MAXFILE * BSIZE
    ensures SlotAddr(fs, Slot(i, off / BSIZE)) != 0 && Present(fs, i, lo, off) ==> Present(fs, i, lo, off + m)
    ensures SlotAddr(fs, Slot(i, off / BSIZE)) == 0 ==> !Present(fs, i, lo, hi)
  {
    hide SlotAddr;
    var bn: nat := off / BSIZE;
    assert bn < MAXFILE && InRange(lo, hi, bn);
    forall c: nat | c < MAXFILE && InRange(lo, off + m, c)
      ensures InRange(lo, off, c) || c == bn
    {
      BlockStep(lo, off, m, c);
    }
  }

  lemma {:induction false} PresentKept(fs: Fs, gs: Fs, i: nat, lo: nat, hi: nat)
    requires Kept(fs, gs) && i < |fs.inodes| && Present(fs, i, lo, hi)
    ensures Present(gs, i, lo, hi)
  {
    hide SlotAddr;
    forall bn: nat | bn < MAXFILE && InRange(lo, hi, bn)
      ensures SlotAddr(gs, Slot(i, bn)) != 0
    {
      assert IsSlot(fs, Slot(i, bn));
    }
  }

  lemma {:induction false} OwnedIsPresent(fs: Fs, owner: map<nat, Slot>, b: nat)
    requires Owned(fs, owner, {}) && b in owner
    ensures IsSlot(fs, owner[b]) && SlotAddr(fs, owner[b]) != 0
  {
  }

  /** The first bytes of a write are in place: nothing else reads differently, no used slot has
      moved, and of the inodes only the entries on the way were filled. */
  ghost predicate Progress(fs: Fs, gs: Fs, i: nat, off: nat, data: seq<Byte>) {
    && Overlaid(fs, gs, i, off, data) && Kept(fs, gs)
    && TableFilled(fs.inodes, gs.inodes, i, Reached(off, off + |data|))
    && (MappedBelow(fs, i, off) ==> MappedBelow(gs, i, off + |data|)) && Present(gs, i, off, off + |data|)
  }

  lemma {:induction false} ProgressNothing(fs: Fs, i: nat, off: nat)
    requires WellFormed(fs) && i < |fs.inodes| && off <= MAXFILE * BSIZE
    ensures Progress(fs, fs, i, off, [])
  {
    OverlayNothing(fs, i, off);
    NonePresent(fs, i, off);
    assert Reached(off, off) == {};
    FilledNothing(fs.inodes, i);
  }

  /** One round of writei's loop: bmap took gs to hs, and the block b it found is patched. */
  lemma {:induction false} ProgressStep(fs: Fs, gs: Fs, hs: Fs, owner: map<nat, Slot>, i: nat, off0: nat,
                                        data: seq<Byte>, b: nat, chunk: seq<Byte>, v: Block)
    requires Progress(fs, gs, i, off0, data) && Grown(gs, hs) && i < |fs.inodes| && Owned(hs, owner, {})
    requires off0 + |data| + |chunk| <= MAXFILE * BSIZE && |chunk| > 0
    requires var off := off0 + |data|;
             && off % BSIZE + |chunk| <= BSIZE
             && b in owner && owner[b] == Slot(i, off / BSIZE) && b < |hs.blocks|
             && v == Patch(hs.blocks[b], off % BSIZE, chunk)
             && TableFilled(gs.inodes, hs.inodes, i, {AddrIndex(off / BSIZE)})
    ensures Owned(SetBlock(hs, b, v), owner, {})
    ensures Progress(fs, SetBlock(hs, b, v), i, off0, data + chunk)
    ensures |hs.inodes| == |fs.inodes| && hs.inodes[i].size == fs.inodes[i].size
  {
    hide Patch, SlotAddr, FileByte, Reached, TableFilled, Overlaid, Owned, Grown, Kept, MappedBelow, Present;
    var off, ks := off0 + |data|, SetBlock(hs, b, v);
    GrownKept(gs, hs);
    OverlayThenGrown(fs, gs, hs, i, off0, data);
    OverlayBlock(fs, hs, owner, i, off0, data, b, chunk, v);
    WrittenKept(hs, owner, b, v);
    KeptTrans(fs, gs, hs);
    KeptTrans(fs, hs, ks);
    ReachedStep(off0, off, |chunk|);
    FilledThen(fs.inodes, gs.inodes, hs.inodes, i, Reached(off0, off), AddrIndex(off / BSIZE));
    PresentGoesOn(gs, hs, ks, owner, i, off0, off, b, |chunk|);
    if MappedBelow(fs, i, off0) {
      KeptMapped(gs, hs, i, off);
      MappedStep(hs, ks, i, off, |chunk|);
    }
  }

  lemma {:induction false} PresentGoesOn(gs: Fs, hs: Fs, ks: Fs, owner: map<nat, Slot>, i: nat, off0: nat, off: nat,
                                         b: nat, m: nat)
    requires Kept(gs, hs) && Kept(hs, ks) && Owned(hs, owner, {}) && i < |gs.inodes| && Present(gs, i, off0, off)
    requires b in owner && owner[b] == Slot(i, off / BSIZE)
    requires off0 <= off && 0 < m <= BSIZE - off % BSIZE && off + m <= MAXFILE * BSIZE
    ensures Present(ks, i, off0, off + m)
  {
    assert WellFormed(hs) && |hs.inodes| == |gs.inodes|;
    hide SlotAddr, Owned, Kept, Present;
    PresentKept(gs, hs, i, off0, off);
    OwnedIsPresent(hs, owner, b);
    PresentStep(hs, i, off0, off, m, off + m);
    PresentKept(hs, ks, i, off0, off + m);
  }

  lemma {:induction false} MappedStep(hs: Fs, ks: Fs, i: nat, off: nat, m: nat)
    requires Kept(hs, ks) && i < |hs.inodes| && MappedBelow(hs, i, off) && 0 < m <= BSIZE - off % BSIZE
    requires off / BSIZE < MAXFILE && SlotAddr(hs, Slot(i, off / BSIZE)) != 0
    ensures MappedBelow(ks, i, off + m)
  {
    hide SlotAddr;
    forall bn | 0 <= bn < MAXFILE && bn * BSIZE < off + m
      ensures SlotAddr(ks, Slot(i, bn)) != 0
    {
      assert bn * BSIZE < off || bn == off / BSIZE;
      assert IsSlot(hs, Slot(i, bn));
    }
  }

  class Volume {
    const meta: nat
    var bitmap: seq<bool>
    var blocks: seq<Block>
    var inodes: seq<Inode>     // in memory
    var dinodes: seq<Inode>    // on disk
    ghost var owner: map<nat, Slot>

    function State(): Fs
      reads this
    {
      Fs(meta, bitmap, blocks, inodes)
    }

    /** What is found after every inode in memory is dropped. */
    function Disk(): Fs
      reads this
    {
      Fs(meta, bitmap, blocks, dinodes)
    }

    /** Every block in use is a metadata block or sits in exactly one slot of one inode. */
    ghost predicate Valid()
      reads this
    {
      Owned(State(), owner, {})
    }

    /** A mounted image that accounts for its bitmap. */
    constructor (m: nat, bits: seq<bool>, data: seq<Block>, table: seq<Inode>, ghost own: map<nat, Slot>)
      requires Owned(Fs(m, bits, data, table), own, {})
      ensures Valid() && State() == Disk() == Fs(m, bits, data, table) && owner == own
    {
      meta, bitmap, blocks, inodes, dinodes, owner := m, bits, data, table, table, own;
    }

    /** Copies inode i to disk. */
    method Iupdate(i: nat)
      requires i < |inodes| && i < |dinodes|
      modifies `dinodes
      ensures dinodes == old(dinodes)[i := inodes[i]]
      ensures |inodes| == |dinodes| && (forall j :: 0 <= j < |inodes| && j != i ==> inodes[j] == old(dinodes)[j]) ==>
        Disk() == State()
    {
      dinodes := dinodes[i := inodes[i]];
    }

    /** ilock of an inode that was dropped from memory: it is read from disk again. */
    method Reload(i: nat)
      requires i < |inodes| && i < |dinodes|
      modifies `inodes
      ensures inodes == old(inodes)[i := dinodes[i]]
      ensures |inodes| == |dinodes| && (forall j :: 0 <= j < |inodes| && j != i ==> old(inodes)[j] == dinodes[j]) ==>
        State() == old(Disk())
    {
      inodes := inodes[i := dinodes[i]];
    }

    /** Finds, marks and zeroes the first free block; None is the panic "out of blocks". */
    method Balloc() returns (r: Option<nat>)
      requires WellFormed(State())
      modifies `bitmap, `blocks
      ensures r.None? ==> forall c :: 0 <= c < |bitmap| ==> bitmap[c]
      ensures r.None? ==> bitmap == old(bitmap) && blocks == old(blocks)
      ensures r.Some? ==>
                && r.value < |old(bitmap)| && !old(bitmap)[r.value]
                && (forall c :: 0 <= c < r.value ==> old(bitmap)[c])
                && State() == SetBlock(SetBit(old(State()), r.value, true), r.value, ZERO)
    {
      var b := 0;
      while b < |bitmap|
        invariant 0 <= b && bitmap == old(bitmap) && blocks == old(blocks)
        invariant forall c :: 0 <= c < b && c < |bitmap| ==> bitmap[c]
      {
        var bi := 0;
        while bi < BPB && b + bi < |bitmap|
          invariant 0 <= bi <= BPB && bitmap == old(bitmap) && blocks == old(blocks)
          invariant forall c :: 0 <= c < b + bi && c < |bitmap| ==> bitmap[c]
        {
          if !bitmap[b + bi] {
            bitmap := bitmap[b + bi := true];
            blocks := blocks[b + bi := ZERO];
            return Some(b + bi);
          }
          bi := bi + 1;
        }
        b := b + BPB;
      }
      return None;
    }

    /** Clears the bit of block b; false is the panic "freeing free block". */
    method Bfree(b: nat) returns (ok: bool)
      requires b < |bitmap|
      modifies `bitmap
      ensures ok <==> old(bitmap)[b]
      ensures bitmap == if ok then old(bitmap)[b := false] else old(bitmap)
    {
      if !bitmap[b] {
        return false;
      }
      bitmap := bitmap[b := false];
      return true;
    }

    /** balloc by the ownership rules: the new block is in no slot and no file changes. */
    method Allocate() returns (r: Option<nat>)
      requires Valid()
      modifies `bitmap, `blocks
      ensures r.None? ==> (forall c :: 0 <= c < |bitmap| ==> bitmap[c]) && bitmap == old(bitmap)
      ensures r.Some? ==>
                && Owned(State(), owner, {r.value}) && Grown(old(State()), State())
                && 0 < r.value < |blocks| && blocks[r.value] == ZERO
                && (forall s :: IsSlot(State(), s) ==> SlotAddr(State(), s) == SlotAddr(old(State()), s))
                && (forall c :: 0 <= c < |blocks| && c != r.value ==> c < |old(blocks)| && blocks[c] == old(blocks)[c])
    {
      hide SlotAddr, FileByte;
      ghost var fs := State();
      r := Balloc();
      if r.Some? {
        AllocateBlock(fs, owner, {}, r.value);
        assert {} + {r.value} == {r.value};
      }
    }

    /** Fills the empty entry n of inode i's address array with a fresh block. */
    method FillAddr(i: nat, n: nat) returns (r: Option<nat>)
      requires Valid() && i < |inodes| && n <= NDIRECT && inodes[i].addrs[n] == 0
      modifies `bitmap, `blocks, `inodes, `owner
      ensures r.Some? ==>
                && Valid() && Grown(old(State()), State()) && i < |inodes| && inodes[i].addrs[n] == r.value
                && r.value in owner && owner[r.value] == AddrSlot(i, n) && 0 < r.value < |blocks|
                && inodes == old(inodes)[i := old(inodes)[i].(addrs := old(inodes)[i].addrs[n := r.value])]
      ensures r.None? ==> (forall c :: 0 <= c < |bitmap| ==> bitmap[c]) && bitmap == old(bitmap)
    {
      hide FileByte, SlotAddr;
      r := Allocate();
      if r.Some? {
        ghost var gs := State();
        LinkAddr(gs, owner, {r.value}, i, n, r.value);
        AddrOf(gs, i, n);
        inodes := inodes[i := inodes[i].(addrs := inodes[i].addrs[n := r.value])];
        owner := owner[r.value := AddrSlot(i, n)];
        assert {r.value} - {r.value} == {};
        assert State() == SetAddr(gs, i, n, r.value);
        GrownTrans(old(State()), gs, State());
      }
    }

    /** Fills the empty entry j of inode i's indirect block with a fresh block. */
    method FillEntry(i: nat, j: nat, ind: nat) returns (r: Option<nat>)
      requires Valid() && i < |inodes| && j < NINDIRECT && inodes[i].addrs[NDIRECT] == ind
      requires 0 < ind < |blocks| && Word(blocks[ind], j) == 0 && ind in owner
      modifies `bitmap, `blocks, `owner
      ensures r.Some? ==>
                && Valid() && Grown(old(State()), State())
                && r.value in owner && owner[r.value] == Slot(i, NDIRECT + j) && 0 < r.value < |blocks|
      ensures r.None? ==> forall c :: 0 <= c < |bitmap| ==> bitmap[c]
    {
      hide FileByte, SlotAddr, Word;
      r := Allocate();
      if r.Some? {
        ghost var gs := State();
        assert ind != r.value;
        LinkEntry(gs, owner, {r.value}, i, j, ind, r.value);
        EntryOf(gs, i, j);
        blocks := blocks[ind := SetWord(blocks[ind], j, r.value)];
        owner := owner[r.value := Slot(i, NDIRECT + j)];
        assert {r.value} - {r.value} == {};
        assert State() == SetBlock(gs, ind, SetWord(gs.blocks[ind], j, r.value));
        GrownTrans(old(State()), gs, State());
      }
    }

    /** The block of file block `bn`, allocating it, and the indirect block, if missing. Of the
        inodes only the one in memory changes, and only the entry that leads to `bn`.
        None is a panic: `bn` out of range, or no free block left. */
    method Bmap(i: nat, bn: nat) returns (r: Option<nat>)
      requires Valid() && i < |inodes|
      modifies `bitmap, `blocks, `inodes, `owner
      ensures r.Some? ==>
                && Valid() && Grown(old(State()), State()) && |inodes| == |old(inodes)|
                && bn < MAXFILE && r.value in owner && owner[r.value] == Slot(i, bn) && 0 < r.value < |blocks|
                && TableFilled(old(inodes), inodes, i, {AddrIndex(bn)})
      ensures r.Some? && SlotAddr(old(State()), Slot(i, bn)) != 0 ==> State() == old(State()) && owner == old(owner)
      ensures bn < MAXFILE && SlotAddr(old(State()), Slot(i, bn)) != 0 ==> r.Some?
      ensures r.None? ==> bn >= MAXFILE || forall c :: 0 <= c < |bitmap| ==> bitmap[c]
      ensures r.None? && bn < NDIRECT ==> bitmap == old(bitmap)
    {
      hide FileByte, SlotAddr, Word, TableFilled, Grown;
      ghost var fs := State();
      GrownSelf(fs);
      if bn < NDIRECT {
        AddrOf(fs, i, bn);
        var addr := inodes[i].addrs[bn];
        if addr == 0 {
          r := FillAddr(i, bn);
          if r.Some? {
            FilledOneEntry(fs.inodes, i, bn, r.value);
          }
          return;
        }
        FilledAlready(inodes, i, bn);
        return Some(addr);
      }
      if bn < MAXFILE {
        r := BmapEntry(i, bn - NDIRECT);
        return;
      }
      return None;
    }

    /** Entry j of the indirect block, and the indirect block, if missing. */
    method BmapEntry(i: nat, j: nat) returns (r: Option<nat>)
      requires Valid() && i < |inodes| && j < NINDIRECT
      modifies `bitmap, `blocks, `inodes, `owner
      ensures r.Some? ==>
                && Valid() && Grown(old(State()), State()) && |inodes| == |old(inodes)|
                && r.value in owner && owner[r.value] == Slot(i, NDIRECT + j) && 0 < r.value < |blocks|
                && TableFilled(old(inodes), inodes, i, {NDIRECT})
      ensures r.Some? && SlotAddr(old(State()), Slot(i, NDIRECT + j)) != 0 ==>
        State() == old(State()) && owner == old(owner)
      ensures SlotAddr(old(State()), Slot(i, NDIRECT + j)) != 0 ==> r.Some?
      ensures r.None? ==> forall c :: 0 <= c < |bitmap| ==> bitmap[c]
    {
      hide FileByte, SlotAddr, Word, TableFilled, Grown;
      ghost var fs := State();
      GrownSelf(fs);
      AddrOf(fs, i, NDIRECT);
      var ind := inodes[i].addrs[NDIRECT];
      if ind == 0 {
        NoEntry(fs, i, j);
        r := FillAddr(i, NDIRECT);
        if r.None? {
          return;
        }
        FilledOneEntry(fs.inodes, i, NDIRECT, r.value);
        ind := r.value;
      } else {
        FilledAlready(inodes, i, NDIRECT);
      }
      ghost var gs := State();
      EntryOf(gs, i, j);
      var addr := Word(blocks[ind], j);
      if addr == 0 {
        r := FillEntry(i, j, ind);
        if r.Some? {
          GrownTrans(fs, gs, State());
        }
        return;
      }
      return Some(addr);
    }

    /** Writes `src` at `off`. On success file i is spliced and no other file changes. The inode goes
        to disk only if the file grew, so from a disk that is up to date the disk accounts for the
        bitmap exactly if it grew or no address on the way was empty. */
    method Writei(i: nat, src: seq<Byte>, off0: nat) returns (r: WriteResult)
      requires Valid() && i < |inodes| == |dinodes| && off0 < UINT && |src| < UINT
      modifies this
      ensures r.WriteError? <==> off0 > old(inodes)[i].size || off0 + |src| >= UINT || off0 + |src| > MAXFILE * BSIZE
      ensures r.WriteError? ==> State() == old(State()) && Disk() == old(Disk()) && owner == old(owner)
      ensures r.Written? ==>
                && r.n == |src| && Valid() && |inodes| == |old(inodes)| && |dinodes| == |old(dinodes)|
                && Content(State(), i) == Splice(old(Content(State(), i)), off0, src)
                && (forall j :: 0 <= j < |inodes| && j != i ==> Content(State(), j) == Content(old(State()), j))
      ensures r.Written? && old(Disk() == State()) ==>
                (Accounted(Disk()) <==>
                  off0 + |src| > old(inodes)[i].size || !Holes(old(State()), i, off0, off0 + |src|))
      ensures r.Written? && old(Disk() == State()) && Mapped(old(State()), i) ==> Disk() == State()
      ensures r.Written? ==> forall j :: 0 <= j < |inodes| && Mapped(old(State()), j) ==> Mapped(State(), j)
      ensures r.Written? ==> Present(State(), i, off0, off0 + |src|)
      ensures r.WritePanic? ==> forall c :: 0 <= c < |bitmap| ==> bitmap[c]
    {
      hide FileByte, SlotAddr, Word, Content, Patch, Splice, Progress, Grown, Owned, TableFilled, Reached, Holes;
      hide Accounted, Mapped, Present;
      ghost var fs := State();
      OwnedIsWellFormed(fs, owner);
      var off, n := off0, |src|;
      if off > inodes[i].size || (off + n) % UINT < off {
        return WriteError;
      }
      if off + n > MAXFILE * BSIZE {
        return WriteError;
      }
      ProgressNothing(fs, i, off0);
      var tot := 0;
      assert src[0..0] == [];
      while tot < n
        invariant 0 <= tot <= n && off == off0 + tot && dinodes == old(dinodes)
        invariant Valid() && |inodes| == |fs.inodes| && inodes[i].size == fs.inodes[i].size
        invariant Progress(fs, State(), i, off0, src[0..tot])
      {
        ghost var gs := State();
        var b := Bmap(i, off / BSIZE);
        if b.None? {
          return WritePanic;
        }
        var m := Min(n - tot, BSIZE - off % BSIZE);
        var chunk := src[tot..tot + m];
        var data := Patch(blocks[b.value], off % BSIZE, chunk);
        ProgressStep(fs, gs, State(), owner, i, off0, src[0..tot], b.value, chunk, data);
        SliceStep(src, 0, tot, tot + m);
        blocks := blocks[b.value := data];
        tot, off := tot + m, off + m;
      }
      assert src[0..n] == src;
      ghost var gs := State();
      if n > 0 && off > inodes[i].size {
        SizeKeepsOwners(gs, owner, i, off);
        inodes := inodes[i := inodes[i].(size := off)];
        Iupdate(i);
      }
      WriteContent(fs, gs, i, off0, src);
      WritePresent(fs, gs, i, off0, src);
      forall j | 0 <= j < |inodes| && Mapped(fs, j)
        ensures Mapped(State(), j)
      {
        WriteMapped(fs, gs, i, off0, src, j);
      }
      if old(dinodes) == fs.inodes {
        WriteSaved(fs, gs, owner, State(), Disk(), i, off0, src);
      }
      return Written(n);
    }

    /** Reads up to `n` bytes at `off`; a missing block is allocated, in memory only, and reads as
        zeros. From a disk that is up to date the disk accounts for the bitmap exactly if no address
        on the way was empty; a mapped file is read without any change. `trans` says whether some
        operation is outstanding: fileread does not begin one, and without one balloc's log_write
        panics, exactly if a block in range is missing. */
    method Readi(i: nat, off0: nat, n0: nat, trans: bool) returns (r: ReadResult)
      requires Valid() && i < |inodes| && off0 < UINT && n0 < UINT
      modifies `bitmap, `blocks, `inodes, `owner
      ensures r.ReadError? <==> off0 > old(inodes)[i].size || off0 + n0 >= UINT
      ensures r.ReadError? ==> State() == old(State()) && owner == old(owner)
      ensures r.Read? ==>
                && Valid() && Grown(old(State()), State())
                && r.data == old(Content(State(), i))[off0..Min(off0 + n0, old(inodes)[i].size)]
      ensures r.Read? && old(Disk() == State()) ==>
                (Accounted(Disk()) <==> !Holes(old(State()), i, off0, Min(off0 + n0, old(inodes)[i].size)))
      ensures r.Read? && Mapped(old(State()), i) ==> State() == old(State()) && owner == old(owner)
      ensures !trans && !r.ReadError? ==>
                (r.Read? <==> Present(old(State()), i, off0, Min(off0 + n0, old(inodes)[i].size)))
      ensures !trans ==> State() == old(State()) && owner == old(owner)
      ensures r.ReadPanic? ==> !trans || forall c :: 0 <= c < |bitmap| ==> bitmap[c]
      ensures r.ReadPanic? && off0 < NDIRECT * BSIZE && off0 % BSIZE + n0 <= BSIZE ==> bitmap == old(bitmap)
    {
      hide FileByte, SlotAddr, Word, Content, Grown, Owned, TableFilled, Reached, Holes, Accounted, Mapped, Present;
      ghost var fs := State();
      OwnedIsWellFormed(fs, owner);
      ghost var old_ := Content(fs, i);
      var off, n := off0, n0;
      if off > inodes[i].size || (off + n) % UINT < off {
        return ReadError;
      }
      if off + n > inodes[i].size {
        n := inodes[i].size - off;
      }
      ReadNothing(fs, i, off0, trans);
      var dst, tot := [], 0;
      while tot < n
        invariant 0 <= tot <= n && off == off0 + tot && off0 + n <= |old_|
        invariant Valid() && |inodes| == |fs.inodes| && ReadSoFar(fs, State(), i, off0, off, trans)
        invariant off0 % BSIZE + n0 <= BSIZE && tot < n ==> tot == 0 && State() == fs
        invariant dst == old_[off0..off]
      {
        var m := Min(n - tot, BSIZE - off % BSIZE);
        OneOwner(fs, State(), old(owner), owner);
        var chunk := ReadBlock(i, off, m, trans, fs, off0, off0 + n);
        if chunk.None? {
          return ReadPanic;
        }
        dst := dst + chunk.value;
        SliceStep(old_, off0, off, off + m);
        tot, off := tot + m, off + m;
      }
      OneOwner(fs, State(), old(owner), owner);
      ReadSaved(fs, State(), owner, Disk(), i, off0, off, trans);
      return Read(dst);
    }

    /** Bytes off up to off + m, which lie in one block. */
    method ReadBlock(i: nat, off: nat, m: nat, trans: bool, ghost fs: Fs, ghost off0: nat, ghost end: nat)
      returns (r: Option<seq<Byte>>)
      requires Valid() && WellFormed(fs) && i < |inodes| == |fs.inodes| && off0 <= off
      requires ReadSoFar(fs, State(), i, off0, off, trans)
      requires 0 < m <= BSIZE - off % BSIZE && off + m <= end <= fs.inodes[i].size
      modifies `bitmap, `blocks, `inodes, `owner
      ensures r.Some? ==>
                && Valid() && |inodes| == |fs.inodes| && ReadSoFar(fs, State(), i, off0, off + m, trans)
                && r.value == Content(fs, i)[off..off + m]
      ensures r.None? && !trans ==> State() == old(State()) && owner == old(owner) && !Present(fs, i, off0, end)
      ensures r.None? && trans ==> forall c :: 0 <= c < |bitmap| ==> bitmap[c]
      ensures r.None? && off < NDIRECT * BSIZE ==> bitmap == old(bitmap)
    {
      hide FileByte, SlotAddr, Word, Content, Grown, Owned, TableFilled, Reached, Mapped, Present;
      ghost var gs := State();
      SlotMapped(fs, i, off);
      PresentStep(fs, i, off0, off, m, end);
      OwnedIsWellFormed(gs, owner);
      if !trans && SlotAddr(State(), Slot(i, off / BSIZE)) == 0 {
        return None;
      }
      var b := Bmap(i, off / BSIZE);
      if b.None? {
        return None;
      }
      GrownTrans(fs, gs, State());
      ReachedStep(off0, off, m);
      FilledThen(fs.inodes, gs.inodes, inodes, i, Reached(off0, off), AddrIndex(off / BSIZE));
      ReadChunk(fs, State(), owner, i, off, m, b.value);
      r := Some(blocks[b.value][off % BSIZE..off % BSIZE + m]);
    }

    /** Frees every block of inode i exactly once; false would be bfree's panic, which is unreachable. */
    method Itrunc(i: nat) returns (ok: bool)
      requires Valid() && i < |inodes| == |dinodes|
      modifies `bitmap, `inodes, `owner, `dinodes
      ensures ok && Valid() && owner == DropBelow(old(owner), i, MAXFILE + 1)
      ensures inodes == old(inodes)[i := Inode(0, seq(NDIRECT + 1, _ => 0))]
      ensures dinodes == old(dinodes)[i := inodes[i]]
      ensures (forall j :: 0 <= j < |inodes| && j != i ==> old(inodes)[j] == old(dinodes)[j]) ==>
        Disk() == State() && Accounted(Disk())
      ensures |bitmap| == |old(bitmap)|
      ensures forall b :: 0 <= b < |bitmap| ==>
                (bitmap[b] <==> old(bitmap)[b] && !(b in old(owner) && old(owner)[b].inum == i))
    {
      ghost var fs := State();
      DropSteps(owner, i, 0);
      hide FileByte, SlotAddr, Word, Owned, Keep, DropBelow;
      ok := ItruncDirect(i);
      ok := ItruncIndirect(i);
      SizeKeepsOwners(State(), owner, i, 0);
      inodes := inodes[i := inodes[i].(size := 0)];
      assert inodes[i].addrs == seq(NDIRECT + 1, _ => 0);
      Iupdate(i);
      BitsAfterDrop(fs, old(owner), State(), i);
    }

    /** The direct blocks, one by one. */
    method ItruncDirect(i: nat) returns (ok: bool)
      requires Valid() && i < |inodes|
      modifies `bitmap, `inodes, `owner
      ensures ok && Valid() && owner == DropBelow(old(owner), i, NDIRECT) && |bitmap| == |old(bitmap)|
      ensures |inodes| == |old(inodes)| && |inodes[i].addrs| == NDIRECT + 1
      ensures forall j :: 0 <= j < |inodes| && j != i ==> inodes[j] == old(inodes)[j]
      ensures forall m :: 0 <= m < NDIRECT ==> inodes[i].addrs[m] == 0
    {
      hide FileByte, SlotAddr, Word, Owned, Keep, DropBelow;
      ghost var owner0 := owner;
      OwnedIsWellFormed(State(), owner);
      DropSteps(owner0, i, 0);
      ok := true;
      var k := 0;
      while k < NDIRECT
        invariant 0 <= k <= NDIRECT && ok && Valid() && |bitmap| == |old(bitmap)|
        invariant |inodes| == |old(inodes)| && |inodes[i].addrs| == NDIRECT + 1
        invariant forall j :: 0 <= j < |inodes| && j != i ==> inodes[j] == old(inodes)[j]
        invariant forall m :: 0 <= m < k ==> inodes[i].addrs[m] == 0
        invariant owner == DropBelow(owner0, i, k)
      {
        DropSteps(owner0, i, k);
        ok := ClearDirect(i, k);
        k := k + 1;
      }
    }

    method ClearDirect(i: nat, k: nat) returns (ok: bool)
      requires Valid() && i < |inodes| && k < NDIRECT && |inodes[i].addrs| == NDIRECT + 1
      modifies `bitmap, `inodes, `owner
      ensures ok && Valid() && owner == Keep(old(owner), i, k) && |bitmap| == |old(bitmap)|
      ensures inodes == old(inodes)[i := old(inodes)[i].(addrs := old(inodes)[i].addrs[k := 0])]
    {
      hide FileByte, SlotAddr, Word, Owned, Keep;
      ok := true;
      FreeDirect(State(), owner, i, k);
      assert inodes[i].addrs[k] == 0 ==> inodes[i].addrs[k := 0] == inodes[i].addrs;
      if inodes[i].addrs[k] != 0 {
        ok := Bfree(inodes[i].addrs[k]);
        if !ok {
          return;
        }
        inodes := inodes[i := inodes[i].(addrs := inodes[i].addrs[k := 0])];
      }
      owner := Keep(owner, i, k);
    }

    /** The indirect block: first its entries, then the block itself. */
    method ItruncIndirect(i: nat) returns (ok: bool)
      requires Valid() && i < |inodes|
      modifies `bitmap, `inodes, `owner
      ensures ok && Valid() && owner == Keep(old(owner), i, NDIRECT) && |bitmap| == |old(bitmap)|
      ensures inodes == old(inodes)[i := old(inodes)[i].(addrs := old(inodes)[i].addrs[NDIRECT := 0])]
    {
      hide FileByte, SlotAddr, Word, Owned;
      ghost var fs, owner0 := State(), owner;
      OwnedIsWellFormed(fs, owner);
      var ind := inodes[i].addrs[NDIRECT];
      if ind == 0 {
        NothingToDrain(fs, owner, i);
        return true;
      }
      StartDraining(fs, owner, i, ind);
      var a := blocks[ind];
      ghost var owner1 := Keep(owner, i, NDIRECT);
      var j := 0;
      while j < NINDIRECT
        invariant 0 <= j <= NINDIRECT && |bitmap| == |old(bitmap)| && inodes == old(inodes)
        invariant Draining(State(), owner1, i, ind, a, j)
      {
        EntriesDistinct(fs, owner0, i, ind, j);
        Drain(State(), owner1, i, ind, a, j);
        if Word(a, j) != 0 {
          ok := Bfree(Word(a, j));
          if !ok {
            return;
          }
        }
        j := j + 1;
      }
      EndDraining(State(), owner1, i, ind, a);
      ok := Bfree(ind);
      inodes := inodes[i := inodes[i].(addrs := inodes[i].addrs[NDIRECT := 0])];
      owner := owner1;
    }
  }

  /** The bitmap once inode i owns nothing any more. */
  lemma {:induction false} BitsAfterDrop(fs: Fs, owner: map<nat, Slot>, gs: Fs, i: nat)
    requires Owned(fs, owner, {}) && Owned(gs, DropBelow(owner, i, MAXFILE + 1), {})
    requires gs.meta == fs.meta && |gs.blocks| == |fs.blocks|
    ensures forall b :: 0 <= b < |gs.bitmap| ==>
              (gs.bitmap[b] <==> fs.bitmap[b] && !(b in owner && owner[b].inum == i))
  {
    hide SlotAddr;
    var left := DropBelow(owner, i, MAXFILE + 1);
    forall b: nat | b < |fs.blocks|
      ensures b in left <==> b in owner && owner[b].inum != i
    {
      assert b in owner ==> IsSlot(fs, owner[b]);
    }
  }

  lemma {:induction false} NothingToDrain(fs: Fs, owner: map<nat, Slot>, i: nat)
    requires Owned(fs, owner, {}) && i < |fs.inodes| && fs.inodes[i].addrs[NDIRECT] == 0
    ensures Keep(owner, i, NDIRECT) == owner
    ensures fs.inodes[i := fs.inodes[i].(addrs := fs.inodes[i].addrs[NDIRECT := 0])] == fs.inodes
  {
    forall b | b in owner
      ensures !Gone(i, NDIRECT, owner[b])
    {
      assert IsSlot(fs, owner[b]) && SlotAddr(fs, owner[b]) == b;
    }
    assert fs.inodes[i].addrs[NDIRECT := 0] == fs.inodes[i].addrs;
  }

  lemma {:induction false} OwnedIsWellFormed(fs: Fs, owner: map<nat, Slot>)
    requires Owned(fs, owner, {})
    ensures WellFormed(fs) && forall b :: b in owner ==> owner[b].index <= MAXFILE
  {
  }

  lemma {:induction false} ReadByte(fs: Fs, gs: Fs, owner: map<nat, Slot>, i: nat, k: nat, b: nat)
    requires Grown(fs, gs) && Owned(gs, owner, {}) && i < |fs.inodes| && k < |Content(fs, i)|
    requires b in owner && owner[b] == Slot(i, k / BSIZE) && 0 < b < |gs.blocks|
    ensures gs.blocks[b][k % BSIZE] == Content(fs, i)[k]
  {
    assert IsSlot(gs, owner[b]) && SlotAddr(gs, owner[b]) == b;
    assert FileByte(gs, i, k) == gs.blocks[b][k % BSIZE];
    assert Content(fs, i)[k] == FileByte(fs, i, k);
  }

  lemma {:induction false} SameBlock(off: nat, d: nat)
    requires off % BSIZE + d < BSIZE
    ensures (off + d) / BSIZE == off / BSIZE && (off + d) % BSIZE == off % BSIZE + d
  {
  }

  lemma {:induction false} ReadChunk(fs: Fs, gs: Fs, owner: map<nat, Slot>, i: nat, off: nat, m: nat, b: nat)
    requires Grown(fs, gs) && Owned(gs, owner, {}) && i < |fs.inodes|
    requires off + m <= |Content(fs, i)| && 0 < m <= BSIZE - off % BSIZE
    requires b in owner && owner[b] == Slot(i, off / BSIZE) && 0 < b < |gs.blocks|
    ensures gs.blocks[b][off % BSIZE..off % BSIZE + m] == Content(fs, i)[off..off + m]
  {
    assert WellFormed(fs);
    hide FileByte, SlotAddr, Content, Grown, Owned, WellFormed;
    var x := off % BSIZE;
    forall k | off <= k < off + m
      ensures gs.blocks[b][x + (k - off)] == Content(fs, i)[k]
    {
      SameBlock(off, k - off);
      ReadByte(fs, gs, owner, i, k, b);
    }
    SlicesEqual(gs.blocks[b], x, Content(fs, i), off, m);
  }

  lemma {:induction false} SlicesEqual(a: seq<Byte>, x: nat, c: seq<Byte>, y: nat, m: nat)
    requires x + m <= |a| && y + m <= |c| && forall k :: y <= k < y + m ==> a[x + (k - y)] == c[k]
    ensures a[x..x + m] == c[y..y + m]
  {
    var u, v := a[x..x + m], c[y..y + m];
    forall d | 0 <= d < m
      ensures u[d] == v[d]
    {
      assert v[d] == c[y + d];
    }
  }

  /** What reading bytes off0 up to off of file i may have changed. */
  ghost predicate ReadSoFar(fs: Fs, gs: Fs, i: nat, off0: nat, off: nat, trans: bool)
    requires WellFormed(fs) && i < |fs.inodes|
  {
    && Grown(fs, gs) && TableFilled(fs.inodes, gs.inodes, i, Reached(off0, off))
    && (Mapped(fs, i) || !trans ==> gs == fs) && (!trans ==> Present(fs, i, off0, off))
  }

  lemma {:induction false} ReadNothing(fs: Fs, i: nat, off: nat, trans: bool)
    requires WellFormed(fs) && i < |fs.inodes|
    ensures ReadSoFar(fs, fs, i, off, off, trans)
  {
    hide SlotAddr, TableFilled, Reached, Present, Grown;
    GrownSelf(fs);
    NothingReached(fs.inodes, i, off);
    NonePresent(fs, i, off);
  }

  /** What is on disk after a read that started from an up-to-date disk. */
  lemma {:induction false} ReadSaved(fs: Fs, gs: Fs, owner: map<nat, Slot>, disk: Fs, i: nat, off0: nat, off: nat,
                                     trans: bool)
    requires Owned(gs, owner, {}) && WellFormed(fs) && i < |fs.inodes| && ReadSoFar(fs, gs, i, off0, off, trans)
    requires disk == gs.(inodes := disk.inodes)
    ensures disk.inodes == fs.inodes ==> (Accounted(disk) <==> !Holes(fs, i, off0, off))
  {
    hide SlotAddr, Owned, TableFilled, Reached, Present, Grown, Accounted, Holes, Mapped;
    if disk.inodes == fs.inodes {
      AccountedIff(gs, owner, disk, i, Reached(off0, off));
      FilledSame(fs, gs.inodes, i, off0, off);
    }
  }

  /** The slots determine the owners. */
  lemma {:induction false} OneOwner(fs: Fs, gs: Fs, a: map<nat, Slot>, b: map<nat, Slot>)
    requires Owned(fs, a, {}) && Owned(gs, b, {})
    ensures fs == gs ==> a == b
  {
    if fs == gs {
      hide SlotAddr;
      assert forall x :: x in a ==> x in b && b[x] == a[x];
      assert forall x :: x in b ==> x in a;
    }
  }

  lemma {:induction false} NothingReached(a: seq<Inode>, i: nat, off: nat)
    requires i < |a| && |a[i].addrs| == NDIRECT + 1
    ensures TableFilled(a, a, i, Reached(off, off))
  {
    assert Reached(off, off) == {};
    FilledNothing(a, i);
  }

  lemma {:induction false} SlotMapped(fs: Fs, i: nat, off: nat)
    requires WellFormed(fs) && i < |fs.inodes| && off < fs.inodes[i].size
    ensures Mapped(fs, i) ==> SlotAddr(fs, Slot(i, off / BSIZE)) != 0
  {
    hide SlotAddr;
    assert off / BSIZE < MAXFILE && off / BSIZE * BSIZE < fs.inodes[i].size;
  }

  lemma {:induction false} SizeKeepsOwners(fs: Fs, owner: map<nat, Slot>, i: nat, size: nat)
    requires Owned(fs, owner, {}) && i < |fs.inodes| && size <= MAXFILE * BSIZE
    ensures Owned(SetSize(fs, i, size), owner, {})
    ensures forall j, k :: 0 <= j < |fs.inodes| && 0 <= k < MAXFILE * BSIZE ==>
      FileByte(SetSize(fs, i, size), j, k) == FileByte(fs, j, k)
  {
    var gs := SetSize(fs, i, size);
    forall s | IsSlot(fs, s)
      ensures SlotAddr(gs, s) == SlotAddr(fs, s)
    {
    }
  }

  /** Bytes overlaid, and the size raised if the write ran past the end: the file is spliced. */
  lemma {:induction false} SplicedContent(fs: Fs, gs: Fs, hs: Fs, i: nat, off: nat, src: seq<Byte>)
    requires Overlaid(fs, gs, i, off, src) && i < |fs.inodes| && off <= fs.inodes[i].size
    requires hs == if |src| > 0 && off + |src| > gs.inodes[i].size then SetSize(gs, i, off + |src|) else gs
    ensures WellFormed(hs) && |hs.inodes| == |fs.inodes|
    ensures Content(hs, i) == Splice(Content(fs, i), off, src)
    ensures forall j :: 0 <= j < |fs.inodes| && j != i ==> Content(hs, j) == Content(fs, j)
  {
    forall j, k | 0 <= j < |fs.inodes| && 0 <= k < MAXFILE * BSIZE
      ensures FileByte(hs, j, k) == FileByte(gs, j, k)
    {
    }
    hide FileByte, SlotAddr;
    var new_, want := Content(hs, i), Splice(Content(fs, i), off, src);
    SpliceReads(Content(fs, i), off, src);
    assert |new_| == |want|;
    forall k | 0 <= k < |new_|
      ensures new_[k] == want[k]
    {
      assert new_[k] == FileByte(gs, i, k);
    }
    forall j | 0 <= j < |fs.inodes| && j != i
      ensures Content(hs, j) == Content(fs, j)
    {
      forall k | 0 <= k < |Content(fs, j)|
        ensures Content(hs, j)[k] == Content(fs, j)[k]
      {
        assert FileByte(hs, j, k) == FileByte(gs, j, k);
      }
    }
  }

  /** The state gs of a finished write with the size raised if the write ran past the end. */
  function Raised(fs: Fs, gs: Fs, i: nat, end: nat): Fs
    requires i < |fs.inodes| == |gs.inodes|
  {
    if end > fs.inodes[i].size then SetSize(gs, i, end) else gs
  }

  lemma {:induction false} WriteContent(fs: Fs, gs: Fs, i: nat, off: nat, src: seq<Byte>)
    requires Progress(fs, gs, i, off, src) && i < |fs.inodes| && off <= fs.inodes[i].size
    ensures var hs := Raised(fs, gs, i, off + |src|);
            && WellFormed(hs) && |hs.inodes| == |fs.inodes|
            && Content(hs, i) == Splice(Content(fs, i), off, src)
            && forall j :: 0 <= j < |fs.inodes| && j != i ==> Content(hs, j) == Content(fs, j)
  {
    hide FileByte, SlotAddr, Content, Splice, Kept, Reached, MappedBelow;
    SplicedContent(fs, gs, Raised(fs, gs, i, off + |src|), i, off, src);
  }

  /** Mapped files stay mapped. */
  lemma {:induction false} WriteMapped(fs: Fs, gs: Fs, i: nat, off: nat, src: seq<Byte>, j: nat)
    requires Progress(fs, gs, i, off, src) && i < |fs.inodes| && off <= fs.inodes[i].size && j < |fs.inodes|
    requires Mapped(fs, j)
    ensures var hs := Raised(fs, gs, i, off + |src|); WellFormed(hs) && j < |hs.inodes| && Mapped(hs, j)
  {
    var hs := Raised(fs, gs, i, off + |src|);
    hide FileByte, Overlaid, Reached, AddrsFilled;
    assert gs.inodes[j].size == fs.inodes[j].size;
    KeptMapped(fs, gs, j, fs.inodes[j].size);
    SizeMovesNoSlot(gs, i, off + |src|, j);
    hide SlotAddr;
    forall bn | 0 <= bn < MAXFILE && bn * BSIZE < hs.inodes[j].size
      ensures SlotAddr(hs, Slot(j, bn)) != 0
    {
      if bn * BSIZE >= fs.inodes[j].size {
        assert MappedBelow(fs, i, off);
      }
    }
  }

  lemma {:induction false} WritePresent(fs: Fs, gs: Fs, i: nat, off: nat, src: seq<Byte>)
    requires Progress(fs, gs, i, off, src) && i < |fs.inodes| && off + |src| <= MAXFILE * BSIZE
    ensures var hs := Raised(fs, gs, i, off + |src|);
            WellFormed(hs) && i < |hs.inodes| && Present(hs, i, off, off + |src|)
  {
    hide FileByte, Overlaid, Reached, AddrsFilled;
    SizeMovesNoSlot(gs, i, off + |src|, i);
    hide SlotAddr;
  }

  lemma {:induction false} SizeMovesNoSlot(fs: Fs, i: nat, size: nat, j: nat)
    requires WellFormed(fs) && i < |fs.inodes| && j < |fs.inodes| && size <= MAXFILE * BSIZE
    ensures WellFormed(SetSize(fs, i, size))
    ensures forall bn :: 0 <= bn < MAXFILE ==> SlotAddr(SetSize(fs, i, size), Slot(j, bn)) == SlotAddr(fs, Slot(j, bn))
  {
  }

  /** What is on disk after a write that started from an up-to-date disk. */
  lemma {:induction false} WriteSaved(fs: Fs, gs: Fs, owner: map<nat, Slot>, hs: Fs, disk: Fs, i: nat, off: nat,
                                      src: seq<Byte>)
    requires Progress(fs, gs, i, off, src) && i < |fs.inodes| && off <= fs.inodes[i].size
    requires hs == Raised(fs, gs, i, off + |src|) && Owned(hs, owner, {}) && i < |hs.inodes|
    requires disk == hs.(inodes := if off + |src| > fs.inodes[i].size then fs.inodes[i := hs.inodes[i]] else fs.inodes)
    ensures Accounted(disk) <==> off + |src| > fs.inodes[i].size || !Holes(fs, i, off, off + |src|)
    ensures Mapped(fs, i) ==> disk == hs
  {
    assert WellFormed(fs);
    hide Overlaid, Kept, Owned, Reached, Holes, MappedBelow, AddrsFilled;
    if off + |src| > fs.inodes[i].size {
      assert disk.inodes == hs.inodes;
    } else {
      AccountedIff(hs, owner, disk, i, Reached(off, off + |src|));
      hide Accounted;
      FilledSame(fs, hs.inodes, i, off, off + |src|);
      if Mapped(fs, i) {
        MappedHasNoHoles(fs, i, off, off + |src|);
      }
    }
  }

  /** No file reads differently and no used slot moves. */
  ghost predicate Grown(fs: Fs, gs: Fs) {
    && SameFiles(fs, gs) && gs.meta == fs.meta && |gs.blocks| == |fs.blocks|
    && forall s :: IsSlot(fs, s) && SlotAddr(fs, s) != 0 ==> SlotAddr(gs, s) == SlotAddr(fs, s)
  }

  lemma {:induction false} GrownSelf(fs: Fs)
    requires WellFormed(fs)
    ensures Grown(fs, fs)
  {
  }

  lemma {:induction false} GrownTrans(fs: Fs, gs: Fs, hs: Fs)
    requires Grown(fs, gs) && Grown(gs, hs)
    ensures Grown(fs, hs)
  {
    hide FileByte, SlotAddr;
    forall s | IsSlot(fs, s) && SlotAddr(fs, s) != 0
      ensures SlotAddr(hs, s) == SlotAddr(fs, s)
    {
      assert IsSlot(gs, s);
    }
  }

  lemma {:induction false} AddrOf(fs: Fs, i: nat, n: nat)
    requires WellFormed(fs) && i < |fs.inodes| && n <= NDIRECT
    ensures IsSlot(fs, AddrSlot(i, n)) && SlotAddr(fs, AddrSlot(i, n)) == fs.inodes[i].addrs[n]
  {
  }

  lemma {:induction false} NoEntry(fs: Fs, i: nat, j: nat)
    requires WellFormed(fs) && i < |fs.inodes| && j < NINDIRECT && fs.inodes[i].addrs[NDIRECT] == 0
    ensures SlotAddr(fs, Slot(i, NDIRECT + j)) == 0
  {
  }

  lemma {:induction false} EntryOf(fs: Fs, i: nat, j: nat)
    requires WellFormed(fs) && i < |fs.inodes| && j < NINDIRECT && 0 < fs.inodes[i].addrs[NDIRECT] < |fs.blocks|
    ensures IsSlot(fs, Slot(i, NDIRECT + j))
    ensures SlotAddr(fs, Slot(i, NDIRECT + j)) == Word(fs.blocks[fs.inodes[i].addrs[NDIRECT]], j)
  {
  }
}
