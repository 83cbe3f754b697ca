/**
  filewrite of Lab/code/file.c:117-157: a write is split into chunks, each one operation of the log.
  The chunks together are one write. But the size of a chunk is computed from LOGSIZE and not from
  MAXOPBLOCKS, so a chunk logs more blocks than begin_op reserves for an operation.
 */
module FileWrite {
  import opened Options
  import opened FsLayout
  import opened FsDisk
  import opened FileSystem
  import RedoLog
  import RedoLogRuns
  import RedoLogSpace

  const CHUNK := 6656    // ((LOGSIZE - 1 - 1 - 2) / 2) * 512
  const INT_MAX := 0x7FFF_FFFF

  datatype Outcome = Wrote | Failed | Panicked

  /** Writing right behind what was just written. */
  lemma {:induction false} SpliceThen(c: seq<Byte>, off: nat, a: seq<Byte>, b: seq<Byte>)
    requires off <= |c|
    ensures off + |a| <= |Splice(c, off, a)|
    ensures Splice(Splice(c, off, a), off + |a|, b) == Splice(c, off, a + b)
  {
    var d := Splice(c, off, a);
    assert d[..off + |a|] == c[..off] + a;
    if off + |a| + |b| < |d| {
      assert d[off + |a| + |b|..] == c[off + |a| + |b|..];
    }
    assert c[..off] + a + b == c[..off] + (a + b);
  }

  lemma {:induction false} SpliceNothing(c: seq<Byte>, off: nat)
    requires off <= |c|
    ensures Splice(c, off, []) == c
  {
    assert off < |c| ==> c[..off] + [] + c[off..] == c;
  }

  /** How much of a write that does not fit is written: the chunks that fit. */
  function Fitting(off: nat): nat
    requires off <= MAXFILE * BSIZE
  {
    (MAXFILE * BSIZE - off) / CHUNK * CHUNK
  }

  lemma {:induction false} FittingIs(off: nat, done: nat, n: nat)
    requires done % CHUNK == 0 && off + done <= MAXFILE * BSIZE < off + done + n && n <= CHUNK
    ensures done == Fitting(off)
  {
    var q := done / CHUNK;
    assert done == q * CHUNK;
    assert q * CHUNK <= MAXFILE * BSIZE - off < q * CHUNK + CHUNK;
  }

  /** File i of `gs` is that of `fs` with `data` written at `off`, and no other file has changed. */
  ghost predicate Spliced(fs: Fs, gs: Fs, i: nat, off: nat, data: seq<Byte>) {
    && WellFormed(fs) && WellFormed(gs) && i < |fs.inodes| == |gs.inodes| && off <= |Content(fs, i)|
    && Content(gs, i) == Splice(Content(fs, i), off, data)
    && forall j :: 0 <= j < |fs.inodes| && j != i ==> Content(gs, j) == Content(fs, j)
  }

  lemma {:induction false} AsSpliced(fs: Fs, gs: Fs, i: nat, off: nat, data: seq<Byte>)
    requires WellFormed(fs) && WellFormed(gs) && i < |fs.inodes| == |gs.inodes| && off <= fs.inodes[i].size
    requires Content(gs, i) == Splice(Content(fs, i), off, data)
    requires forall j :: 0 <= j < |fs.inodes| && j != i ==> Content(gs, j) == Content(fs, j)
    ensures Spliced(fs, gs, i, off, data)
  {
    hide Content;
  }

  lemma {:induction false} SplicedNothing(fs: Fs, i: nat, off: nat)
    requires WellFormed(fs) && i < |fs.inodes| && off <= fs.inodes[i].size
    ensures Spliced(fs, fs, i, off, [])
  {
    hide Content;
    SpliceNothing(Content(fs, i), off);
  }

  lemma {:induction false} SplicedThen(fs: Fs, gs: Fs, hs: Fs, i: nat, off: nat, a: seq<Byte>, b: seq<Byte>)
    requires Spliced(fs, gs, i, off, a) && Spliced(gs, hs, i, off + |a|, b)
    ensures Spliced(fs, hs, i, off, a + b) && off + |a + b| <= hs.inodes[i].size
  {
    SpliceThen(Content(fs, i), off, a, b);
    SpliceReads(Content(fs, i), off, a + b);
    assert |Content(hs, i)| == hs.inodes[i].size;
    hide Content, Splice;
  }

  /** Writes `addr` at the file's offset, chunk by chunk, and moves the offset. It fails exactly on an
      offset past the end or a file too large, after the chunks that fit; the panic "short filewrite"
      cannot happen; a panic is one of writei, for want of blocks. */
  method FileWrite(v: Volume, i: nat, addr: seq<Byte>, off0: nat) returns (r: Outcome, off: nat)
    requires v.Valid() && i < |v.inodes| == |v.dinodes| && off0 < UINT && |addr| <= INT_MAX
    modifies v
    ensures !r.Panicked? ==>
      (r.Wrote? <==> addr == [] || (off0 <= old(v.inodes)[i].size && off0 + |addr| <= MAXFILE * BSIZE))
    ensures r.Wrote? ==> off == off0 + |addr|
    ensures r.Failed? ==> off == off0 + if off0 <= old(v.inodes)[i].size then Fitting(off0) else 0
    ensures !r.Panicked? ==> v.Valid() && off0 <= off <= off0 + |addr|
    ensures !r.Panicked? && off0 <= old(v.inodes)[i].size ==>
      Spliced(old(v.State()), v.State(), i, off0, addr[..off - off0])
    ensures !r.Panicked? && off0 > old(v.inodes)[i].size ==> v.State() == old(v.State()) && v.Disk() == old(v.Disk())
    ensures !r.Panicked? && old(v.Disk() == v.State()) && Mapped(old(v.State()), i) ==> v.Disk() == v.State()
    ensures r.Panicked? ==> forall c :: 0 <= c < |v.bitmap| ==> v.bitmap[c]
  {
    hide Content, Owned, Mapped, Present, Holes, Accounted, Splice, Spliced, Fitting;
    ghost var fs := v.State();
    OwnedIsWellFormed(fs, v.owner);
    ghost var inside := off0 <= fs.inodes[i].size;
    if inside {
      SplicedNothing(fs, i, off0);
    }
    off := off0;
    var done := 0;
    assert addr[..0] == [];
    while done < |addr|
      invariant 0 <= done <= |addr| && off == off0 + done && (done < |addr| ==> done % CHUNK == 0)
      invariant v.Valid() && WellFormed(v.State()) && |v.inodes| == |v.dinodes| == |fs.inodes|
      invariant done > 0 ==> inside && off <= v.inodes[i].size <= MAXFILE * BSIZE
      invariant done == 0 ==> v.State() == fs && v.Disk() == old(v.Disk())
      invariant inside ==> Spliced(fs, v.State(), i, off0, addr[..done])
      invariant old(v.Disk() == v.State()) && Mapped(fs, i) ==> v.Disk() == v.State() && Mapped(v.State(), i)
    {
      var n1 := Min(|addr| - done, CHUNK);
      ghost var gs := v.State();
      OwnedIsWellFormed(gs, v.owner);
      var w := v.Writei(i, addr[done..done + n1], off);
      match w
      case WriteError =>
        if inside {
          FittingIs(off0, done, n1);
        }
        return Failed, off;
      case WritePanic =>
        return Panicked, off;
      case Written(n) =>
        OwnedIsWellFormed(v.State(), v.owner);
        AsSpliced(gs, v.State(), i, off, addr[done..done + n1]);
        ChunkWritten(fs, gs, v.State(), i, off0, addr, done, n1);
        off, done := off + n, done + n;
    }
    assert addr[..done] == addr;
    return Wrote, off;
  }

  lemma {:induction false} ChunkWritten(fs: Fs, gs: Fs, hs: Fs, i: nat, off0: nat, addr: seq<Byte>, done: nat, n: nat)
    requires done + n <= |addr| && Spliced(fs, gs, i, off0, addr[..done])
    requires Spliced(gs, hs, i, off0 + done, addr[done..done + n])
    ensures Spliced(fs, hs, i, off0, addr[..done + n]) && off0 + done + n <= hs.inodes[i].size
  {
    hide Spliced;
    SplicedThen(fs, gs, hs, i, off0, addr[..done], addr[done..done + n]);
    assert addr[..done] + addr[done..done + n] == addr[..done + n];
  }

  // ---- what a chunk logs ----

  /** File blocks that n bytes at `off` lie in. */
  function Touched(off: nat, n: nat): nat {
    if n == 0 then 0 else (off + n - 1) / BSIZE - off / BSIZE + 1
  }

  /** Their blocks on disk, each of which writei passes to log_write. */
  ghost function DataBlocks(fs: Fs, i: nat, lo: nat, hi: nat): set<nat>
    requires WellFormed(fs) && i < |fs.inodes|
  {
    set bn: nat | bn < MAXFILE && InRange(lo, hi, bn) :: SlotAddr(fs, Slot(i, bn))
  }

  /** The same, of file blocks first up to last. */
  ghost function BlocksOf(fs: Fs, i: nat, first: nat, last: nat): set<nat>
    requires WellFormed(fs) && i < |fs.inodes| && last <= MAXFILE
  {
    set bn: nat | first <= bn < last :: SlotAddr(fs, Slot(i, bn))
  }

  lemma {:induction false} BlocksStep(fs: Fs, i: nat, first: nat, last: nat)
    requires WellFormed(fs) && i < |fs.inodes| && first <= last < MAXFILE
    ensures BlocksOf(fs, i, first, last + 1) == BlocksOf(fs, i, first, last) + {SlotAddr(fs, Slot(i, last))}
  {
    hide SlotAddr;
  }

  lemma {:induction false} NewBlock(fs: Fs, owner: map<nat, Slot>, i: nat, first: nat, last: nat)
    requires Owned(fs, owner, {}) && i < |fs.inodes| && first <= last < MAXFILE && SlotAddr(fs, Slot(i, last)) != 0
    ensures SlotAddr(fs, Slot(i, last)) !in BlocksOf(fs, i, first, last)
  {
    assert WellFormed(fs);
    hide SlotAddr, Owned;
    forall bn: nat | first <= bn < last
      ensures SlotAddr(fs, Slot(i, bn)) != SlotAddr(fs, Slot(i, last))
    {
      SlotsDiffer(fs, owner, Slot(i, last), Slot(i, bn));
    }
  }

  lemma {:induction false} BlocksDiffer(fs: Fs, owner: map<nat, Slot>, i: nat, first: nat, last: nat)
    requires Owned(fs, owner, {}) && WellFormed(fs) && i < |fs.inodes| && first <= last <= MAXFILE
    requires forall bn: nat :: first <= bn < last ==> SlotAddr(fs, Slot(i, bn)) != 0
    ensures |BlocksOf(fs, i, first, last)| == last - first
    decreases last - first
  {
    hide SlotAddr, Owned, WellFormed, BlocksOf;
    if first == last {
      NoBlocks(fs, i, first);
    } else {
      BlocksDiffer(fs, owner, i, first, last - 1);
      BlocksStep(fs, i, first, last - 1);
      NewBlock(fs, owner, i, first, last - 1);
    }
  }

  lemma {:induction false} NoBlocks(fs: Fs, i: nat, first: nat)
    requires WellFormed(fs) && i < |fs.inodes| && first <= MAXFILE
    ensures BlocksOf(fs, i, first, first) == {}
  {
    hide SlotAddr;
  }

  lemma {:induction false} SlotsDiffer(fs: Fs, owner: map<nat, Slot>, s: Slot, t: Slot)
    requires Owned(fs, owner, {}) && IsSlot(fs, s) && IsSlot(fs, t) && s != t && SlotAddr(fs, s) != 0
    ensures SlotAddr(fs, s) != SlotAddr(fs, t)
  {
    OwnedMeans(fs, owner);
    hide SlotAddr, Owned;
  }

  /** A write of n bytes at `off` logs as many different data blocks as it touches file blocks. */
  lemma {:induction false} WriteLogs(fs: Fs, owner: map<nat, Slot>, i: nat, off: nat, n: nat)
    requires Owned(fs, owner, {}) && i < |fs.inodes| && off + n <= MAXFILE * BSIZE && Present(fs, i, off, off + n)
    ensures |DataBlocks(fs, i, off, off + n)| == Touched(off, n)
  {
    assert WellFormed(fs);
    hide SlotAddr, Owned;
    if n == 0 {
      assert DataBlocks(fs, i, off, off) == {};
    } else {
      var first, last := off / BSIZE, (off + n - 1) / BSIZE + 1;
      var hi := off + n;
      forall bn: nat
        ensures InRange(off, hi, bn) <==> first <= bn < last
      {
        RangeIs(off, n, bn);
      }
      assert last <= MAXFILE;
      hide InRange;
      assert DataBlocks(fs, i, off, hi) == BlocksOf(fs, i, first, last);
      BlocksDiffer(fs, owner, i, first, last);
    }
  }

  lemma {:induction false} RangeIs(off: nat, n: nat, bn: nat)
    requires n > 0
    ensures InRange(off, off + n, bn) <==> off / BSIZE <= bn < (off + n - 1) / BSIZE + 1
  {
  }

  /** It stays within what begin_op reserves if and only if it ends within MAXOPBLOCKS blocks of the
      start of its first block. */
  lemma {:induction false} WithinReservation(off: nat, n: nat)
    ensures Touched(off, n) <= RedoLog.MAXOPBLOCKS <==> n == 0 || off % BSIZE + n <= RedoLog.MAXOPBLOCKS * BSIZE
    ensures Touched(off, CHUNK) == if off % BSIZE == 0 then 13 else 14
  {
    assert CHUNK == (RedoLog.LOGSIZE - 1 - 1 - 2) / 2 * 512;
    var q, r := off / BSIZE, off % BSIZE;
    assert off == q * BSIZE + r;
    if n > 0 {
      LastBlock(q, r + n - 1);
    }
    LastBlock(q, r + CHUNK - 1);
  }

  lemma {:induction false} LastBlock(q: nat, x: nat)
    ensures (q * BSIZE + x) / BSIZE == q + x / BSIZE
  {
  }

  /** Three processes, each writing one aligned chunk, can make log_write panic, whatever the size of
      the log: their operations log at most the data blocks of a chunk each. */
  lemma {:induction false} ChunkWritersPanic(L: RedoLog.Layout, base: RedoLog.Disk)
    returns (run: seq<RedoLogRuns.Action>, s: RedoLogRuns.State, a: RedoLogRuns.Action)
    requires L.Valid() && |base| == L.blocks && RedoLog.DecodeHeader(base[L.start]) == []
    requires L.blocks >= L.size + RedoLog.LOGSIZE
    ensures RedoLogSpace.AboutToLog(L, base, run, s, a, Touched(0, CHUNK)) && RedoLogRuns.Panics(L, s, a)
  {
    WithinReservation(0, 0);
    run, s, a := RedoLogSpace.FilledPanics(L, base, 13);
  }
}
