/**
  The image builder Lab/code/mkfs.c: blocks are handed out in order by a counter, files are
  written by appending, and the bitmap is written last. The finished image satisfies the
  kernel's ownership invariant, and its files hold what was appended to them.
 */
module Mkfs {
  import opened Options
  import opened FsLayout
  import opened FsDisk
  import opened FileSystem

  function Prefix(used: nat, size: nat): (bits: seq<bool>)
    ensures |bits| == size && forall b :: 0 <= b < size ==> (bits[b] <==> b < used)
  {
    seq(size, b => b < used)
  }

  /** Exactly the blocks that hold a byte below `off` are allocated. */
  ghost predicate TightAt(fs: Fs, i: nat, off: nat)
    requires WellFormed(fs) && i < |fs.inodes|
  {
    forall bn :: 0 <= bn < MAXFILE ==> (SlotAddr(fs, Slot(i, bn)) != 0 <==> bn * BSIZE < off)
  }

  ghost predicate Tight(fs: Fs, i: nat)
    requires WellFormed(fs) && i < |fs.inodes|
  {
    TightAt(fs, i, fs.inodes[i].size)
  }

  /** Every other file is as tight as before. */
  ghost predicate OthersTight(fs: Fs, gs: Fs, i: nat) {
    && WellFormed(fs) && WellFormed(gs) && |gs.inodes| == |fs.inodes|
    && forall j, m :: 0 <= j < |fs.inodes| && j != i && TightAt(fs, j, m) ==> TightAt(gs, j, m)
  }

  lemma {:induction false} OthersTightTrans(fs: Fs, gs: Fs, hs: Fs, i: nat)
    requires OthersTight(fs, gs, i) && OthersTight(gs, hs, i)
    ensures OthersTight(fs, hs, i)
  {
    hide TightAt;
  }

  lemma {:induction false} OthersTightSelf(fs: Fs, i: nat)
    requires WellFormed(fs)
    ensures OthersTight(fs, fs, i)
  {
  }

  /** Among the data slots only `t` changed, and no file reads differently. */
  ghost predicate FilledOne(fs: Fs, gs: Fs, t: Slot) {
    && Grown(fs, gs)
    && forall s :: IsSlot(fs, s) && s.index < MAXFILE && s != t ==> SlotAddr(gs, s) == SlotAddr(fs, s)
  }

  lemma {:induction false} FilledSelf(fs: Fs, t: Slot)
    requires WellFormed(fs)
    ensures FilledOne(fs, fs, t)
  {
    GrownSelf(fs);
  }

  lemma {:induction false} FilledTrans(fs: Fs, gs: Fs, hs: Fs, t: Slot)
    requires FilledOne(fs, gs, t) && FilledOne(gs, hs, t)
    ensures FilledOne(fs, hs, t)
  {
    hide SlotAddr, FileByte;
    GrownTrans(fs, gs, hs);
    forall s | IsSlot(fs, s) && s.index < MAXFILE && s != t
      ensures SlotAddr(hs, s) == SlotAddr(fs, s)
    {
      assert IsSlot(gs, s);
    }
  }

  /** The files stay tight when file i grows within the block just filled. */
  lemma {:induction false} TightStep(fs: Fs, gs: Fs, hs: Fs, i: nat, off: nat, off': nat)
    requires FilledOne(fs, gs, Slot(i, off / BSIZE)) && i < |fs.inodes| && TightAt(fs, i, off)
    requires off / BSIZE < MAXFILE && off < off' <= (off / BSIZE + 1) * BSIZE && SlotAddr(gs, Slot(i, off / BSIZE)) != 0
    requires WellFormed(hs) && |hs.inodes| == |gs.inodes|
    requires forall s :: IsSlot(gs, s) ==> SlotAddr(hs, s) == SlotAddr(gs, s)
    ensures TightAt(hs, i, off') && OthersTight(fs, hs, i)
  {
    hide SlotAddr, FileByte;
    forall j: nat, bn: nat | j < |fs.inodes| && bn < MAXFILE && Slot(j, bn) != Slot(i, off / BSIZE)
      ensures SlotAddr(hs, Slot(j, bn)) == SlotAddr(fs, Slot(j, bn))
    {
      assert IsSlot(fs, Slot(j, bn)) && IsSlot(gs, Slot(j, bn));
    }
    assert IsSlot(gs, Slot(i, off / BSIZE));
  }

  /** mkfs rounds the root directory's size up to the next block, even from a block boundary. */
  function RoundUp(size: nat): nat {
    (size / BSIZE + 1) * BSIZE
  }

  /** After that rounding every block below the size is allocated exactly when the directory
      did not end on a block boundary. */
  lemma {:induction false} RootMappedIff(fs: Fs, i: nat)
    requires WellFormed(fs) && i < |fs.inodes| && Tight(fs, i) && RoundUp(fs.inodes[i].size) <= MAXFILE * BSIZE
    ensures WellFormed(SetSize(fs, i, RoundUp(fs.inodes[i].size)))
    ensures Mapped(SetSize(fs, i, RoundUp(fs.inodes[i].size)), i) <==> fs.inodes[i].size % BSIZE != 0
  {
    var size := fs.inodes[i].size;
    var gs := SetSize(fs, i, RoundUp(size));
    forall bn | 0 <= bn < MAXFILE
      ensures SlotAddr(gs, Slot(i, bn)) == SlotAddr(fs, Slot(i, bn))
    {
    }
    hide SlotAddr;
    var last := size / BSIZE;
    assert last * BSIZE < RoundUp(size) && last < MAXFILE;
    assert SlotAddr(fs, Slot(i, last)) != 0 <==> last * BSIZE < size;
    forall bn | 0 <= bn < MAXFILE && bn * BSIZE < RoundUp(size)
      ensures bn < last ==> SlotAddr(fs, Slot(i, bn)) != 0
      ensures bn <= last
    {
    }
  }

  /** The rounded root has an empty address on the way of a scan, as dirlookup makes, exactly when
      it ended on a block boundary and the next block is a direct one or the first behind an
      indirect block that is not there. (A hole behind an indirect block is filled on disk.) */
  lemma {:induction false} RoundedRootHoles(fs: Fs, i: nat)
    requires WellFormed(fs) && i < |fs.inodes| && Tight(fs, i) && RoundUp(fs.inodes[i].size) <= MAXFILE * BSIZE
    ensures WellFormed(SetSize(fs, i, RoundUp(fs.inodes[i].size)))
    ensures var size := fs.inodes[i].size;
            Holes(SetSize(fs, i, RoundUp(size)), i, 0, RoundUp(size)) <==>
              && size % BSIZE == 0
              && (size < NDIRECT * BSIZE || (size == NDIRECT * BSIZE && fs.inodes[i].addrs[NDIRECT] == 0))
  {
    var size, end := fs.inodes[i].size, RoundUp(fs.inodes[i].size);
    var last: nat := size / BSIZE;
    assert InRange(0, end, last) && last < MAXFILE && AddrIndex(last) in Reached(0, end);
    forall bn: nat | bn < MAXFILE && bn * BSIZE < end
      ensures bn <= last && (bn < last ==> fs.inodes[i].addrs[AddrIndex(bn)] != 0)
      ensures last * BSIZE < size ==> fs.inodes[i].addrs[AddrIndex(last)] != 0
      ensures bn < NDIRECT && fs.inodes[i].addrs[bn] != 0 ==> bn * BSIZE < size
    {
      TightAddr(fs, i, bn);
      TightAddr(fs, i, last);
    }
    hide SlotAddr, TightAt;
    forall n: nat | n <= NDIRECT && n in Reached(0, end)
      ensures n <= AddrIndex(last) && (n < AddrIndex(last) ==> fs.inodes[i].addrs[n] != 0)
    {
      var bn: nat :| bn < MAXFILE && InRange(0, end, bn) && n == AddrIndex(bn);
    }
    if last > NDIRECT {
      assert fs.inodes[i].addrs[AddrIndex(NDIRECT)] != 0;
    }
  }

  lemma {:induction false} TightAddr(fs: Fs, i: nat, bn: nat)
    requires WellFormed(fs) && i < |fs.inodes| && Tight(fs, i) && bn < MAXFILE
    ensures bn * BSIZE < fs.inodes[i].size ==> fs.inodes[i].addrs[AddrIndex(bn)] != 0
    ensures bn < NDIRECT && fs.inodes[i].addrs[bn] != 0 ==> bn * BSIZE < fs.inodes[i].size
  {
    assert SlotAddr(fs, Slot(i, bn)) != 0 <==> bn * BSIZE < fs.inodes[i].size;
  }

  /** Bytes past the end of file i are zero. */
  ghost predicate ZeroTail(fs: Fs, i: nat)
    requires WellFormed(fs) && i < |fs.inodes|
  {
    forall k :: fs.inodes[i].size <= k < MAXFILE * BSIZE ==> FileByte(fs, i, k) == 0
  }

  /** Rounding the size adds zeros, which are empty directory entries. */
  lemma {:induction false} RoundedContent(fs: Fs, i: nat, end: nat)
    requires WellFormed(fs) && i < |fs.inodes| && ZeroTail(fs, i) && fs.inodes[i].size <= end <= MAXFILE * BSIZE
    ensures WellFormed(SetSize(fs, i, end))
    ensures Content(SetSize(fs, i, end), i) == Content(fs, i) + seq(end - fs.inodes[i].size, _ => 0)
    ensures forall j :: 0 <= j < |fs.inodes| && j != i ==> Content(SetSize(fs, i, end), j) == Content(fs, j)
  {
    var gs := SetSize(fs, i, end);
    forall j: nat, k: nat | j < |fs.inodes| && k < MAXFILE * BSIZE
      ensures FileByte(gs, j, k) == FileByte(fs, j, k)
    {
    }
    hide FileByte;
  }

  class Image {
    const meta: nat
    var blocks: seq<Block>
    var inodes: seq<Inode>
    var freeblock: nat
    ghost var owner: map<nat, Slot>

    /** The image as the kernel will see it once the bitmap marks everything below freeblock. */
    ghost function State(): Fs
      reads this
    {
      Fs(meta, Prefix(freeblock, |blocks|), blocks, inodes)
    }

    ghost predicate Valid()
      reads this
    {
      && Owned(State(), owner, {}) && meta <= freeblock <= |blocks|
      && forall b :: freeblock <= b < |blocks| ==> blocks[b] == ZERO
    }

    constructor (m: nat, size: nat, ninodes: nat)
      requires 0 < m <= size < 0x1_0000_0000
      ensures Valid() && meta == m && |blocks| == size && |inodes| == ninodes && freeblock == m
      ensures forall i :: 0 <= i < ninodes ==> inodes[i].size == 0 && Tight(State(), i) && ZeroTail(State(), i)
    {
      meta, freeblock, owner := m, m, map[];
      blocks := seq(size, _ => ZERO);
      inodes := seq(ninodes, _ => Inode(0, seq(NDIRECT + 1, _ => 0)));
      new;
      assert WellFormed(State());
    }

    /** Hands out the next block; None when the image is full. */
    method NextBlock() returns (r: Option<nat>)
      requires Valid()
      modifies `freeblock
      ensures r.None? ==> freeblock == old(freeblock) == |blocks|
      ensures r.Some? ==>
                && r.value == old(freeblock) && freeblock == r.value + 1
                && 0 < r.value < |blocks| && blocks[r.value] == ZERO
                && Owned(State(), owner, {r.value}) && Grown(old(State()), State())
                && (forall s :: IsSlot(State(), s) ==> SlotAddr(State(), s) == SlotAddr(old(State()), s))
    {
      hide FileByte, SlotAddr;
      if freeblock == |blocks| {
        return None;
      }
      ghost var fs := State();
      AllocateBlock(fs, owner, {}, freeblock);
      assert {} + {freeblock} == {freeblock};
      assert blocks[freeblock := ZERO] == blocks;
      r := Some(freeblock);
      freeblock := freeblock + 1;
      assert State() == SetBlock(SetBit(fs, r.value, true), r.value, ZERO);
    }

    method FillAddr(i: nat, n: nat, ghost t: Slot) returns (r: Option<nat>)
      requires Valid() && i < |inodes| && n <= NDIRECT && inodes[i].addrs[n] == 0
      requires t == if n < NDIRECT then Slot(i, n) else t
      modifies `freeblock, `inodes, `owner
      ensures r.Some? ==>
                && Valid() && FilledOne(old(State()), State(), t)
                && |inodes| == |old(inodes)| && inodes[i].addrs[n] == r.value
                && r.value in owner && owner[r.value] == AddrSlot(i, n) && 0 < r.value < |blocks|
      ensures freeblock <= old(freeblock) + 1 && (r.None? ==> freeblock == |blocks|)
    {
      hide FileByte, SlotAddr;
      ghost var fs := State();
      r := NextBlock();
      if r.Some? {
        ghost var gs := State();
        LinkAddr(gs, owner, {r.value}, i, n, r.value);
        AddrOf(gs, i, n);
        inodes := inodes[i := inodes[i].(addrs := inodes[i].addrs[n := r.value])];
        owner := owner[r.value := AddrSlot(i, n)];
        assert {r.value} - {r.value} == {};
        assert State() == SetAddr(gs, i, n, r.value);
        GrownTrans(fs, gs, State());
      }
    }

    method FillEntry(i: nat, j: nat, ind: nat) returns (r: Option<nat>)
      requires Valid() && i < |inodes| && j < NINDIRECT && inodes[i].addrs[NDIRECT] == ind
      requires 0 < ind < |blocks| && Word(blocks[ind], j) == 0 && ind in owner
      modifies `freeblock, `blocks, `owner
      ensures r.Some? ==>
                && Valid() && FilledOne(old(State()), State(), Slot(i, NDIRECT + j)) && |blocks| == |old(blocks)|
                && r.value in owner && owner[r.value] == Slot(i, NDIRECT + j) && 0 < r.value < |blocks|
      ensures freeblock <= old(freeblock) + 1 && |blocks| == |old(blocks)| && (r.None? ==> freeblock == |blocks|)
    {
      hide FileByte, SlotAddr, Word, SetWord;
      ghost var fs := State();
      r := NextBlock();
      if r.Some? {
        ghost var gs := State();
        assert ind != r.value && ind < freeblock;
        LinkEntry(gs, owner, {r.value}, i, j, ind, r.value);
        EntryOf(gs, i, j);
        blocks := blocks[ind := SetWord(blocks[ind], j, r.value)];
        owner := owner[r.value := Slot(i, NDIRECT + j)];
        assert {r.value} - {r.value} == {};
        assert State() == SetBlock(gs, ind, SetWord(gs.blocks[ind], j, r.value));
        hide SameFiles;
        GrownTrans(fs, gs, State());
      }
    }

    /** The block that holds file block `bn`, handing out new ones as needed. */
    method MapBlock(i: nat, bn: nat) returns (r: Option<nat>)
      requires Valid() && i < |inodes| && bn < MAXFILE
      modifies `freeblock, `blocks, `inodes, `owner
      ensures r.Some? ==>
                && Valid() && FilledOne(old(State()), State(), Slot(i, bn)) && |inodes| == |old(inodes)|
                && r.value in owner && owner[r.value] == Slot(i, bn) && 0 < r.value < freeblock
      ensures freeblock <= old(freeblock) + 2 && |blocks| == |old(blocks)| && (r.None? ==> freeblock == |blocks|)
    {
      hide FileByte, SlotAddr, Word, Grown;
      ghost var fs := State();
      GrownSelf(fs);
      FilledSelf(fs, Slot(i, bn));
      if bn < NDIRECT {
        AddrOf(fs, i, bn);
        if inodes[i].addrs[bn] == 0 {
          r := FillAddr(i, bn, Slot(i, bn));
          return;
        }
        return Some(inodes[i].addrs[bn]);
      }
      r := MapEntry(i, bn);
    }

    /** The same for a block behind the indirect block. */
    method MapEntry(i: nat, bn: nat) returns (r: Option<nat>)
      requires Valid() && i < |inodes| && NDIRECT <= bn < MAXFILE
      modifies `freeblock, `blocks, `inodes, `owner
      ensures r.Some? ==>
                && Valid() && FilledOne(old(State()), State(), Slot(i, bn)) && |inodes| == |old(inodes)|
                && r.value in owner && owner[r.value] == Slot(i, bn) && 0 < r.value < freeblock
      ensures freeblock <= old(freeblock) + 2 && |blocks| == |old(blocks)| && (r.None? ==> freeblock == |blocks|)
    {
      hide FileByte, SlotAddr, Word, Grown;
      ghost var fs := State();
      GrownSelf(fs);
      FilledSelf(fs, Slot(i, bn));
      AddrOf(fs, i, NDIRECT);
      if inodes[i].addrs[NDIRECT] == 0 {
        r := FillAddr(i, NDIRECT, Slot(i, bn));
        if r.None? {
          return;
        }
      }
      ghost var gs := State();
      r := FindEntry(i, bn, inodes[i].addrs[NDIRECT]);
      if r.Some? {
        FilledTrans(fs, gs, State(), Slot(i, bn));
      }
    }

    /** The same behind an indirect block that is there. */
    method FindEntry(i: nat, bn: nat, ind: nat) returns (r: Option<nat>)
      requires Valid() && i < |inodes| && NDIRECT <= bn < MAXFILE && inodes[i].addrs[NDIRECT] == ind != 0
      modifies `freeblock, `blocks, `owner
      ensures r.Some? ==>
                && Valid() && FilledOne(old(State()), State(), Slot(i, bn))
                && r.value in owner && owner[r.value] == Slot(i, bn) && 0 < r.value < freeblock
      ensures freeblock <= old(freeblock) + 1 && |blocks| == |old(blocks)| && (r.None? ==> freeblock == |blocks|)
    {
      hide FileByte, SlotAddr, Word, Grown;
      ghost var gs := State();
      GrownSelf(gs);
      FilledSelf(gs, Slot(i, bn));
      AddrOf(gs, i, NDIRECT);
      EntryOf(gs, i, bn - NDIRECT);
      if Word(blocks[ind], bn - NDIRECT) == 0 {
        r := FillEntry(i, bn - NDIRECT, ind);
      } else {
        r := Some(Word(blocks[ind], bn - NDIRECT));
      }
    }

    /** Appends `data` to file i; false exactly when the image or the file is full, where mkfs stops. */
    method IAppend(i: nat, data: seq<Byte>) returns (ok: bool)
      requires Valid() && i < |inodes| && Tight(State(), i)
      modifies this
      ensures ok ==>
                && Valid() && |inodes| == |old(inodes)|
                && Content(State(), i) == old(Content(State(), i)) + data
                && (forall j :: 0 <= j < |inodes| && j != i ==> Content(State(), j) == Content(old(State()), j))
                && Tight(State(), i)
                && OthersTight(old(State()), State(), i)
                && (forall j :: 0 <= j < |inodes| && ZeroTail(old(State()), j) ==> ZeroTail(State(), j))
      ensures |blocks| == |old(blocks)| && freeblock <= old(freeblock) + 2 * |data|
      ensures !ok ==> freeblock == |blocks| || old(inodes)[i].size + |data| > MAXFILE * BSIZE
    {
      hide FileByte, SlotAddr, Word, Content, Patch, Overlaid, Grown, Owned, FilledOne, TightAt, OthersTight, Prefix;
      hide ZeroTail;
      ghost var fs := State();
      OwnedIsWellFormed(fs, owner);
      ghost var off0 := inodes[i].size;
      var off, n, p := inodes[i].size, |data|, 0;
      OverlayNothing(fs, i, off0);
      OthersTightSelf(fs, i);
      assert data[0..0] == [];
      while n > 0
        invariant 0 <= p && 0 <= n && p + n == |data| && off == off0 + p && off <= MAXFILE * BSIZE
        invariant Valid() && |inodes| == |fs.inodes| && inodes[i].size == off0 && WellFormed(State())
        invariant Overlaid(fs, State(), i, off0, data[0..p])
        invariant TightAt(State(), i, off)
        invariant OthersTight(fs, State(), i)
        invariant |blocks| == |old(blocks)| && freeblock <= old(freeblock) + 2 * p
      {
        var fbn := off / BSIZE;
        if fbn >= MAXFILE {
          return false;
        }
        ghost var gs := State();
        var x := MapBlock(i, fbn);
        if x.None? {
          return false;
        }
        ghost var hs := State();
        var n1 := Min(n, (fbn + 1) * BSIZE - off);
        var chunk := data[p..p + n1];
        var v := Patch(blocks[x.value], off - fbn * BSIZE, chunk);
        AppendStep(fs, gs, hs, owner, i, off0, data[0..p], x.value, chunk, v);
        SliceStep(data, 0, p, p + n1);
        blocks := blocks[x.value := v];
        n, off, p := n - n1, off + n1, p + n1;
      }
      assert data[0..|data|] == data;
      ghost var gs := State();
      SizeKeepsOwners(gs, owner, i, off);
      TightSize(gs, i, off);
      OthersTightTrans(fs, gs, SetSize(gs, i, off), i);
      inodes := inodes[i := inodes[i].(size := off)];
      AppendedContent(fs, gs, State(), i, data);
      forall j | 0 <= j < |inodes| && ZeroTail(fs, j)
        ensures ZeroTail(State(), j)
      {
        AppendedTail(fs, gs, State(), i, data, j);
      }
      return true;
    }

    /** Writes the bitmap: one bit for each block handed out. The image then satisfies the
        ownership invariant the kernel starts from. False is the failed assertion on the size. */
    method WriteBitmap() returns (bits: seq<bool>, ok: bool)
      requires Valid()
      ensures ok <==> freeblock < BPB
      ensures ok ==> bits == Prefix(freeblock, |blocks|) && Owned(Fs(meta, bits, blocks, inodes), owner, {})
    {
      bits := seq(|blocks|, _ => false);
      if freeblock >= BPB {
        return bits, false;
      }
      assert bits == Prefix(0, |blocks|);
      var i := 0;
      while i < freeblock
        invariant 0 <= i <= freeblock && bits == Prefix(i, |blocks|)
      {
        PrefixStep(i, |blocks|);
        bits := bits[i := true];
        i := i + 1;
      }
      return bits, true;
    }

    /** The end of mkfs, and the kernel that mounts the image: the root's size is rounded up and the
        bitmap written. The volume starts with memory and disk in agreement; the root reads as its
        entries followed by empty ones; every block below a size is there, except the root's last
        when the root ended on a block boundary. */
    method Finish(root: nat) returns (r: Option<Volume>)
      requires Valid() && root < |inodes| && Tight(State(), root) && ZeroTail(State(), root)
      requires RoundUp(inodes[root].size) <= MAXFILE * BSIZE
      modifies `inodes
      ensures r.None? <==> freeblock >= BPB
      ensures inodes == old(inodes)[root := old(inodes)[root].(size := RoundUp(old(inodes)[root].size))]
      ensures r.Some? ==>
                && fresh(r.value) && r.value.Valid() && r.value.Disk() == r.value.State() == State()
                && Content(State(), root) == old(Content(State(), root)) +
                    seq(BSIZE - old(inodes)[root].size % BSIZE, _ => 0)
                && (forall j :: 0 <= j < |inodes| && j != root ==> Content(State(), j) == Content(old(State()), j))
                && (Mapped(State(), root) <==> old(inodes)[root].size % BSIZE != 0)
                && (forall j :: 0 <= j < |inodes| && j != root && Tight(old(State()), j) ==> Mapped(State(), j))
    {
      hide FileByte, SlotAddr, Content, Owned, Prefix, TightAt, ZeroTail, MappedBelow;
      ghost var fs := State();
      OwnedIsWellFormed(fs, owner);
      var size := RoundUp(inodes[root].size);
      RoundedContent(fs, root, size);
      RootMappedIff(fs, root);
      SizeKeepsOwners(fs, owner, root, size);
      forall j | 0 <= j < |inodes| && j != root && Tight(fs, j)
        ensures Mapped(SetSize(fs, root, size), j)
      {
        TightIsMapped(fs, root, size, j);
      }
      inodes := inodes[root := inodes[root].(size := size)];
      var bits, ok := WriteBitmap();
      if !ok {
        return None;
      }
      var v := new Volume(meta, bits, blocks, inodes, owner);
      r := Some(v);
    }
  }

  lemma {:induction false} TightIsMapped(fs: Fs, root: nat, size: nat, j: nat)
    requires WellFormed(fs) && root < |fs.inodes| && size <= MAXFILE * BSIZE && j < |fs.inodes| && j != root
    requires Tight(fs, j)
    ensures WellFormed(SetSize(fs, root, size)) && Mapped(SetSize(fs, root, size), j)
  {
    SizeMovesNoSlot(fs, root, size, j);
    hide SlotAddr;
  }

  lemma {:induction false} PrefixStep(used: nat, size: nat)
    requires used < size
    ensures Prefix(used, size)[used := true] == Prefix(used + 1, size)
  {
  }

  /** One round of iappend's loop: the block of the last byte was found and is patched. */
  lemma {:induction false} AppendStep(fs: Fs, gs: Fs, hs: Fs, owner: map<nat, Slot>, i: nat, off0: nat, data: seq<Byte>,
                                      b: nat, chunk: seq<Byte>, v: Block)
    requires WellFormed(gs) && Overlaid(fs, gs, i, off0, data) && i < |fs.inodes| == |gs.inodes| && Owned(hs, owner, {})
    requires off0 + |data| + |chunk| <= MAXFILE * BSIZE && |chunk| > 0
    requires var off := off0 + |data|;
             && off % BSIZE + |chunk| <= BSIZE && FilledOne(gs, hs, Slot(i, off / BSIZE))
             && b in owner && owner[b] == Slot(i, off / BSIZE) && b < |hs.blocks|
             && v == Patch(hs.blocks[b], off % BSIZE, chunk)
             && TightAt(gs, i, off) && OthersTight(fs, gs, i)
    ensures var ks := SetBlock(hs, b, v);
            && Owned(ks, owner, {}) && WellFormed(ks)
            && |hs.inodes| == |fs.inodes| && hs.inodes[i].size == fs.inodes[i].size
            && Overlaid(fs, ks, i, off0, data + chunk)
            && TightAt(ks, i, off0 + |data| + |chunk|) && OthersTight(fs, ks, i)
  {
    hide Patch, SlotAddr, FileByte, Overlaid, Owned, Grown, FilledOne, TightAt, OthersTight;
    var off, ks := off0 + |data|, SetBlock(hs, b, v);
    FilledIsGrown(gs, hs, Slot(i, off / BSIZE));
    OverlayThenGrown(fs, gs, hs, i, off0, data);
    OverlayBlock(fs, hs, owner, i, off0, data, b, chunk, v);
    BlockWritten(hs, owner, b, v);
    TightStep(gs, hs, ks, i, off, off + |chunk|);
    OthersTightTrans(fs, gs, ks, i);
  }

  lemma {:induction false} FilledIsGrown(fs: Fs, gs: Fs, t: Slot)
    requires FilledOne(fs, gs, t)
    ensures Grown(fs, gs)
  {
  }

  lemma {:induction false} TightSize(fs: Fs, i: nat, size: nat)
    requires WellFormed(fs) && i < |fs.inodes| && size <= MAXFILE * BSIZE
    ensures WellFormed(SetSize(fs, i, size))
    ensures OthersTight(fs, SetSize(fs, i, size), i)
    ensures forall m :: TightAt(fs, i, m) ==> TightAt(SetSize(fs, i, size), i, m)
  {
    var gs := SetSize(fs, i, size);
    forall s | IsSlot(fs, s)
      ensures SlotAddr(gs, s) == SlotAddr(fs, s)
    {
    }
  }

  lemma {:induction false} AppendedTail(fs: Fs, gs: Fs, hs: Fs, i: nat, data: seq<Byte>, j: nat)
    requires WellFormed(fs) && i < |fs.inodes| && Overlaid(fs, gs, i, fs.inodes[i].size, data)
    requires hs == SetSize(gs, i, fs.inodes[i].size + |data|) && j < |fs.inodes| && ZeroTail(fs, j)
    ensures WellFormed(hs) && j < |hs.inodes| && ZeroTail(hs, j)
  {
    forall k | 0 <= k < MAXFILE * BSIZE
      ensures FileByte(hs, j, k) == FileByte(gs, j, k)
    {
    }
    hide FileByte;
  }

  lemma {:induction false} AppendedContent(fs: Fs, gs: Fs, hs: Fs, i: nat, data: seq<Byte>)
    requires WellFormed(fs) && i < |fs.inodes| && Overlaid(fs, gs, i, fs.inodes[i].size, data)
    requires hs == SetSize(gs, i, fs.inodes[i].size + |data|)
    ensures WellFormed(hs) && |hs.inodes| == |fs.inodes|
    ensures Content(hs, i) == Content(fs, i) + data
    ensures forall j :: 0 <= j < |fs.inodes| && j != i ==> Content(hs, j) == Content(fs, j)
  {
    var off := fs.inodes[i].size;
    if |data| == 0 {
      assert hs == gs;
    }
    SplicedContent(fs, gs, hs, i, off, data);
    assert Splice(Content(fs, i), off, data) == Content(fs, i) + data;
  }

  /** A root directory of exactly one block, mounted, and an entry read past it, as dirlookup does
      for a missing name: the disk then has a marked block in no slot. */
  method FullRootLosesBlock() returns (v: Volume)
    ensures v.Valid() && !Accounted(v.Disk())
  {
    hide FileByte, Word, Content, Owned, Accounted, MappedBelow, Grown;
    var image := new Image(2, 2000, 1);
    var entries: seq<Byte> := seq(BSIZE, _ => 1);
    var ok := image.IAppend(0, entries);
    assert image.inodes[0].size == |Content(image.State(), 0)| == BSIZE;
    assert SlotAddr(image.State(), Slot(0, 1)) == 0;
    var r := image.Finish(0);
    v := r.value;
    assert !v.bitmap[1999];
    SecondBlockIsHole(v.State());
    var entry := v.Readi(0, BSIZE, 16, true);
    assert entry.Read?;
  }

  lemma {:induction false} SecondBlockIsHole(fs: Fs)
    requires WellFormed(fs) && |fs.inodes| > 0 && fs.inodes[0].addrs[1] == 0
    ensures Holes(fs, 0, BSIZE, BSIZE + 16)
  {
    assert InRange(BSIZE, BSIZE + 16, 1) && AddrIndex(1) == 1;
    assert 1 in Reached(BSIZE, BSIZE + 16);
  }
}
