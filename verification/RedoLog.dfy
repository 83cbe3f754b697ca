/**
  The write-ahead (redo) log of Lab/code/log.c, on values.

  The disk is a sequence of blocks. Every operation of the log is described by the list
  of block writes it issues; one block write is atomic and a crash may fall between any two.
  `RedoLogRuns` is the concurrent protocol built on them, and `RedoLogDriver` the imperative
  code, which issues exactly these lists and takes exactly the protocol's steps.
 */
module RedoLog {
  import opened Options

  const LOGSIZE := 30      // MAXOPBLOCKS * 3
  const MAXOPBLOCKS := 10
  const WORDS := 128       // BSIZE / sizeof(int)

  type Block = b: seq<int> | |b| == WORDS witness seq(WORDS, _ => 0)
  type Disk = seq<Block>

  datatype Write = Write(target: nat, data: Block)

  /** Where the log lies: the header at `start`, the log blocks right behind it. */
  datatype Layout = Layout(start: nat, size: nat, blocks: nat) {
    predicate Valid() {
      1 <= size && start + size <= blocks
    }

    predicate IsHome(b: int) {
      0 <= b < blocks && !(start <= b < start + size)
    }

    /** A header that can be installed: it fits the log and names home blocks only. */
    predicate Installable(bs: seq<int>) {
      && |bs| <= LOGSIZE
      && |bs| < size
      && forall i :: 0 <= i < |bs| ==> IsHome(bs[i])
    }
  }

  // ---- the header block ----

  /** Block numbers recorded in a header block: word 0 is the count. */
  function DecodeHeader(b: Block): seq<int> {
    if 0 <= b[0] < WORDS then b[1..1 + b[0]] else []
  }

  /** write_head overwrites the count and the first entries and leaves the other words. */
  function EncodeHeader(old_: Block, bs: seq<int>): (b: Block)
    requires |bs| < WORDS
  {
    [|bs|] + bs + old_[1 + |bs|..]
  }

  lemma {:induction false} HeaderRoundTrip(old_: Block, bs: seq<int>)
    requires |bs| < WORDS
    ensures DecodeHeader(EncodeHeader(old_, bs)) == bs
  {
    var b := EncodeHeader(old_, bs);
    assert b[0] == |bs|;
    assert b[1..1 + |bs|] == bs;
  }

  // ---- lists of writes ----

  function Put(d: Disk, w: Write): Disk {
    if w.target < |d| then d[w.target := w.data] else d
  }

  function Apply(d: Disk, ws: seq<Write>): (r: Disk)
    ensures |r| == |d|
  {
    if ws == [] then d else Put(Apply(d, ws[..|ws| - 1]), ws[|ws| - 1])
  }

  /** What the last write to block `b` stored, if there was one. */
  function LastTo(ws: seq<Write>, b: nat): Option<Block> {
    if ws == [] then None
    else if ws[|ws| - 1].target == b then Some(ws[|ws| - 1].data)
    else LastTo(ws[..|ws| - 1], b)
  }

  lemma {:induction false} ApplyAt(d: Disk, ws: seq<Write>, b: nat)
    requires b < |d|
    ensures Apply(d, ws)[b] == match LastTo(ws, b) case None => d[b] case Some(v) => v
  {
    if ws != [] {
      ApplyAt(d, ws[..|ws| - 1], b);
    }
  }

  lemma {:induction false} LastToNone(ws: seq<Write>, b: nat)
    ensures LastTo(ws, b) == None <==> forall i :: 0 <= i < |ws| ==> ws[i].target != b
  {
    if ws != [] {
      LastToNone(ws[..|ws| - 1], b);
    }
  }

  lemma {:induction false} LastToConcat(u: seq<Write>, w: seq<Write>, b: nat)
    ensures LastTo(u + w, b) == if LastTo(w, b).Some? then LastTo(w, b) else LastTo(u, b)
  {
    if w == [] {
      assert u + w == u;
    } else {
      assert (u + w)[..|u + w| - 1] == u + w[..|w| - 1];
      LastToConcat(u, w[..|w| - 1], b);
    }
  }

  lemma {:induction false} ApplyConcat(d: Disk, u: seq<Write>, w: seq<Write>)
    ensures Apply(d, u + w) == Apply(Apply(d, u), w)
  {
    if w == [] {
      assert u + w == u;
    } else {
      assert (u + w)[..|u + w| - 1] == u + w[..|w| - 1];
      ApplyConcat(d, u, w[..|w| - 1]);
    }
  }

  lemma {:induction false} ApplyNothing(d: Disk)
    ensures Apply(d, []) == d
  {
  }

  lemma {:induction false} ApplyStep(d: Disk, ws: seq<Write>, k: nat)
    requires k < |ws|
    ensures Apply(d, ws[..k + 1]) == Put(Apply(d, ws[..k]), ws[k])
  {
    assert ws[..k + 1][..k] == ws[..k];
  }

  ghost predicate SameHome(L: Layout, d: Disk, e: Disk) {
    |d| == |e| == L.blocks && forall b :: 0 <= b < L.blocks && L.IsHome(b) ==> d[b] == e[b]
  }

  // ---- what the log code writes ----

  /** install_trans: copy log block i to its home, in order. */
  function InstallWrites(bs: seq<int>, vs: seq<Block>): (ws: seq<Write>)
    requires |bs| == |vs| && forall i :: 0 <= i < |bs| ==> 0 <= bs[i]
    ensures |ws| == |bs| && forall i :: 0 <= i < |bs| ==> ws[i] == Write(bs[i], vs[i])
  {
    seq(|bs|, i requires 0 <= i < |bs| => Write(bs[i], vs[i]))
  }

  /** write_log: copy cached block i into log block i. */
  function LogWrites(L: Layout, vs: seq<Block>): (ws: seq<Write>)
    ensures |ws| == |vs| && forall i :: 0 <= i < |vs| ==> ws[i] == Write(L.start + 1 + i, vs[i])
  {
    seq(|vs|, i requires 0 <= i < |vs| => Write(L.start + 1 + i, vs[i]))
  }

  ghost predicate DiskOK(L: Layout, d: Disk) {
    L.Valid() && |d| == L.blocks && L.Installable(DecodeHeader(d[L.start]))
  }

  /** The log blocks named by the header on disk. */
  function LogBlocks(L: Layout, d: Disk, n: nat): (vs: seq<Block>)
    requires L.Valid() && |d| == L.blocks && n < L.size
    ensures |vs| == n && forall i :: 0 <= i < n ==> vs[i] == d[L.start + 1 + i]
  {
    d[L.start + 1..L.start + 1 + n]
  }

  function ClearWrite(L: Layout, head: Block): Write {
    Write(L.start, EncodeHeader(head, []))
  }

  /** recover_from_log: install what the header on disk names, then clear the header. */
  ghost function RecoveryWrites(L: Layout, d: Disk): seq<Write>
    requires DiskOK(L, d)
  {
    var bs := DecodeHeader(d[L.start]);
    InstallWrites(bs, LogBlocks(L, d, |bs|)) + [ClearWrite(L, d[L.start])]
  }

  ghost function Recover(L: Layout, d: Disk): Disk
    requires DiskOK(L, d)
  {
    Apply(d, RecoveryWrites(L, d))
  }

  /** commit of blocks `bs` with cached contents `vs`: log, header, install, clear. */
  function CommitWrites(L: Layout, head: Block, bs: seq<int>, vs: seq<Block>): seq<Write>
    requires |bs| == |vs| < WORDS && forall i :: 0 <= i < |bs| ==> 0 <= bs[i]
  {
    LogWrites(L, vs) + [Write(L.start, EncodeHeader(head, bs))]
    + InstallWrites(bs, vs) + [ClearWrite(L, EncodeHeader(head, bs))]
  }

  /** The home blocks after the transaction `bs`/`vs`, for distinct `bs`. */
  ghost predicate Installed(L: Layout, pre: Disk, bs: seq<int>, vs: seq<Block>, d: Disk)
    requires |bs| == |vs|
  {
    && |d| == |pre| == L.blocks
    && (forall i :: 0 <= i < |bs| && 0 <= bs[i] < |d| ==> d[bs[i]] == vs[i])
    && (forall b :: 0 <= b < L.blocks && L.IsHome(b) && b !in bs ==> d[b] == pre[b])
  }

  predicate Distinct(bs: seq<int>) {
    forall i, j :: 0 <= i < j < |bs| ==> bs[i] != bs[j]
  }

  /** log absorption: a block already in the header keeps its slot */
  function Absorb(bs: seq<int>, b: int): seq<int> {
    if b in bs then bs else bs + [b]
  }

  lemma {:induction false} AbsorbKeeps(L: Layout, bs: seq<int>, b: int)
    requires Distinct(bs) && L.IsHome(b) && forall i :: 0 <= i < |bs| ==> L.IsHome(bs[i])
    ensures Distinct(Absorb(bs, b)) && b in Absorb(bs, b)
    ensures forall i :: 0 <= i < |Absorb(bs, b)| ==> L.IsHome(Absorb(bs, b)[i])
    ensures forall c :: c in Absorb(bs, b) <==> c in bs || c == b
  {
  }

  // ---- recovery is idempotent under crashes ----

  /** A prefix of the recovery writes leaves log header and log blocks alone,
      or has already cleared the header after installing everything. */
  lemma {:induction false} RecoveryPrefix(L: Layout, d: Disk, k: nat)
    requires DiskOK(L, d) && k <= |RecoveryWrites(L, d)|
    ensures DiskOK(L, Apply(d, RecoveryWrites(L, d)[..k]))
    ensures SameHome(L, Recover(L, Apply(d, RecoveryWrites(L, d)[..k])), Recover(L, d))
    ensures k == |RecoveryWrites(L, d)| ==>
              DecodeHeader(Apply(d, RecoveryWrites(L, d)[..k])[L.start]) == []
  {
    var ws := RecoveryWrites(L, d);
    var bs := DecodeHeader(d[L.start]);
    var n := |bs|;
    var e := Apply(d, ws[..k]);
    if k <= n {
      forall c | L.start <= c < L.start + L.size
        ensures e[c] == d[c]
      {
        LastToNone(ws[..k], c);
        ApplyAt(d, ws[..k], c);
      }
      assert LogBlocks(L, e, n) == LogBlocks(L, d, n);
      assert RecoveryWrites(L, e) == ws;
      forall b | 0 <= b < L.blocks && L.IsHome(b)
        ensures Recover(L, e)[b] == Recover(L, d)[b]
      {
        ApplyAt(d, ws, b);
        ApplyAt(e, ws, b);
        ApplyAt(d, ws[..k], b);
        LastToNone(ws, b);
        LastToNone(ws[..k], b);
      }
    } else {
      assert ws[..k] == ws;
      HeaderRoundTrip(d[L.start], []);
      assert e[L.start] == ClearWrite(L, d[L.start]).data;
      ClearedRecovery(L, e);
    }
  }

  /** With an empty header recovery changes no home block. */
  lemma {:induction false} ClearedRecovery(L: Layout, d: Disk)
    requires L.Valid() && |d| == L.blocks && DecodeHeader(d[L.start]) == []
    ensures DiskOK(L, d) && SameHome(L, Recover(L, d), d)
    ensures DecodeHeader(Recover(L, d)[L.start]) == []
  {
    var ws := RecoveryWrites(L, d);
    assert ws == [ClearWrite(L, d[L.start])];
    assert ws[..|ws| - 1] == [];
    assert Apply(d, ws[..|ws| - 1]) == d;
    assert Recover(L, d) == Put(d, ClearWrite(L, d[L.start]));
    HeaderRoundTrip(d[L.start], []);
  }

  /** `crashes[i]` is how many writes the i-th recovery attempt got done before the next crash. */
  ghost predicate CrashedRecoveries(L: Layout, d: Disk, crashes: seq<nat>, e: Disk)
    requires DiskOK(L, d)
    decreases |crashes|
  {
    if crashes == [] then e == d
    else
      var ws := RecoveryWrites(L, d);
      crashes[0] <= |ws| &&
      var m := Apply(d, ws[..crashes[0]]);
      RecoveryPrefix(L, d, crashes[0]);
      CrashedRecoveries(L, m, crashes[1..], e)
  }

  /** Any number of crashes during recovery, at any write, changes nothing about its outcome. */
  lemma {:induction false} RecoverySurvivesCrashes(L: Layout, d: Disk, crashes: seq<nat>, e: Disk)
    requires DiskOK(L, d) && CrashedRecoveries(L, d, crashes, e)
    ensures DiskOK(L, e) && SameHome(L, Recover(L, e), Recover(L, d))
    ensures DecodeHeader(Recover(L, e)[L.start]) == []
    decreases |crashes|
  {
    if crashes == [] {
      RecoveryPrefix(L, d, |RecoveryWrites(L, d)|);
      assert RecoveryWrites(L, d)[..|RecoveryWrites(L, d)|] == RecoveryWrites(L, d);
    } else {
      RecoveryPrefix(L, d, crashes[0]);
      RecoverySurvivesCrashes(L, Apply(d, RecoveryWrites(L, d)[..crashes[0]]), crashes[1..], e);
    }
  }

  // ---- commit is atomic ----

  lemma {:induction false} InstallWritesAt(d: Disk, bs: seq<int>, vs: seq<Block>, k: nat, i: nat)
    requires |bs| == |vs| && (forall j :: 0 <= j < |bs| ==> 0 <= bs[j] < |d|)
    requires Distinct(bs) && i < k <= |bs|
    ensures Apply(d, InstallWrites(bs, vs)[..k])[bs[i]] == vs[i]
    decreases k
  {
    var ws := InstallWrites(bs, vs);
    assert ws[..k][..k - 1] == ws[..k - 1];
    if i < k - 1 {
      InstallWritesAt(d, bs, vs, k - 1, i);
    }
  }

  lemma {:induction false} InstallWritesElsewhere(d: Disk, bs: seq<int>, vs: seq<Block>, k: nat, b: nat)
    requires |bs| == |vs| && (forall j :: 0 <= j < |bs| ==> 0 <= bs[j])
    requires b < |d| && b !in bs && k <= |bs|
    ensures Apply(d, InstallWrites(bs, vs)[..k])[b] == d[b]
  {
    LastToNone(InstallWrites(bs, vs)[..k], b);
    ApplyAt(d, InstallWrites(bs, vs)[..k], b);
  }

  /** The four stretches of a commit. */
  lemma {:induction false} CommitParts(L: Layout, head: Block, bs: seq<int>, vs: seq<Block>)
    requires |bs| == |vs| < WORDS && forall i :: 0 <= i < |bs| ==> 0 <= bs[i]
    ensures var cw := CommitWrites(L, head, bs, vs);
            && |cw| == 2 * |bs| + 2
            && (forall k :: 0 <= k <= |bs| ==> cw[..k] == LogWrites(L, vs)[..k])
            && cw[|bs|] == Write(L.start, EncodeHeader(head, bs))
            && cw[|bs| + 1..] == InstallWrites(bs, vs) + [ClearWrite(L, EncodeHeader(head, bs))]
  {
  }

  /** Writing log blocks touches neither the header nor a home block. */
  lemma {:induction false} LogWritesElsewhere(L: Layout, pre: Disk, vs: seq<Block>, k: nat, b: nat)
    requires L.Valid() && |pre| == L.blocks && |vs| < L.size && k <= |vs| && b < L.blocks
    requires L.IsHome(b) || b == L.start
    ensures Apply(pre, LogWrites(L, vs)[..k])[b] == pre[b]
  {
    var ws := LogWrites(L, vs)[..k];
    forall i | 0 <= i < |ws|
      ensures ws[i].target != b
    {
      assert ws[i] == Write(L.start + 1 + i, vs[i]);
    }
    LastToNone(ws, b);
    ApplyAt(pre, ws, b);
  }

  /** Before the header write the transaction is invisible. */
  lemma {:induction false} CommitBeforeHeader(L: Layout, pre: Disk, bs: seq<int>, vs: seq<Block>, k: nat, e: Disk)
    requires L.Valid() && |pre| == L.blocks && DecodeHeader(pre[L.start]) == []
    requires L.Installable(bs) && |vs| == |bs| && k <= |bs|
    requires e == Apply(pre, CommitWrites(L, pre[L.start], bs, vs)[..k])
    ensures e[L.start] == pre[L.start] && SameHome(L, e, pre)
    ensures DiskOK(L, e) && SameHome(L, Recover(L, e), pre)
    ensures k == |bs| ==> LogBlocks(L, e, |bs|) == vs
  {
    CommitParts(L, pre[L.start], bs, vs);
    assert e == Apply(pre, LogWrites(L, vs)[..k]);
    forall b | 0 <= b < L.blocks && (L.IsHome(b) || b == L.start)
      ensures e[b] == pre[b]
    {
      LogWritesElsewhere(L, pre, vs, k, b);
    }
    ClearedRecovery(L, e);
    if k == |bs| {
      forall i | 0 <= i < k
        ensures e[L.start + 1 + i] == vs[i]
      {
        LogWritesAt(L, pre, vs, k, i);
      }
    }
  }

  lemma {:induction false} LogWritesAt(L: Layout, d: Disk, vs: seq<Block>, k: nat, i: nat)
    requires i < k <= |vs| && L.start + 1 + |vs| <= |d|
    ensures Apply(d, LogWrites(L, vs)[..k])[L.start + 1 + i] == vs[i]
    decreases k
  {
    var ws := LogWrites(L, vs);
    assert ws[..k][..k - 1] == ws[..k - 1];
    if i < k - 1 {
      LogWritesAt(L, d, vs, k - 1, i);
    }
  }

  /** Right after the header write the disk holds the whole transaction in its log,
      and the rest of commit is exactly what recovery would do. */
  lemma {:induction false} CommitAtHeader(L: Layout, pre: Disk, bs: seq<int>, vs: seq<Block>, c: Disk)
    requires L.Valid() && |pre| == L.blocks && DecodeHeader(pre[L.start]) == []
    requires L.Installable(bs) && |vs| == |bs|
    requires c == Apply(pre, CommitWrites(L, pre[L.start], bs, vs)[..|bs| + 1])
    ensures SameHome(L, c, pre) && DiskOK(L, c)
    ensures DecodeHeader(c[L.start]) == bs && LogBlocks(L, c, |bs|) == vs
    ensures RecoveryWrites(L, c) == CommitWrites(L, pre[L.start], bs, vs)[|bs| + 1..]
  {
    var n := |bs|;
    var cw := CommitWrites(L, pre[L.start], bs, vs);
    CommitParts(L, pre[L.start], bs, vs);
    var logged := Apply(pre, cw[..n]);
    CommitBeforeHeader(L, pre, bs, vs, n, logged);
    assert cw[..n + 1][..n] == cw[..n];
    assert c == logged[L.start := EncodeHeader(pre[L.start], bs)];
    HeaderRoundTrip(pre[L.start], bs);
    assert LogBlocks(L, c, n) == LogBlocks(L, logged, n);
  }

  lemma {:induction false} InstalledCarries(L: Layout, pre: Disk, bs: seq<int>, vs: seq<Block>, d: Disk, e: Disk)
    requires |bs| == |vs| && L.Installable(bs) && Installed(L, pre, bs, vs, d) && SameHome(L, e, d)
    ensures Installed(L, pre, bs, vs, e)
  {
    forall i | 0 <= i < |bs|
      ensures e[bs[i]] == vs[i]
    {
      assert L.IsHome(bs[i]);
    }
  }

  /** From the header write on recovery completes the transaction. */
  lemma {:induction false} CommitAfterHeader(L: Layout, pre: Disk, bs: seq<int>, vs: seq<Block>, k: nat, e: Disk)
    requires L.Valid() && |pre| == L.blocks && DecodeHeader(pre[L.start]) == []
    requires L.Installable(bs) && Distinct(bs) && |vs| == |bs| < k
    requires k <= |CommitWrites(L, pre[L.start], bs, vs)|
    requires e == Apply(pre, CommitWrites(L, pre[L.start], bs, vs)[..k])
    ensures DiskOK(L, e) && Installed(L, pre, bs, vs, Recover(L, e))
    ensures k == |CommitWrites(L, pre[L.start], bs, vs)| ==>
              DecodeHeader(e[L.start]) == [] && Installed(L, pre, bs, vs, e)
  {
    hide CommitWrites, Installed, SameHome, Apply, DecodeHeader, RecoveryWrites;
    var n := |bs|;
    var cw := CommitWrites(L, pre[L.start], bs, vs);
    var c := Apply(pre, cw[..n + 1]);
    CommitAtHeader(L, pre, bs, vs, c);
    var rw := RecoveryWrites(L, c);
    var m := k - (n + 1);
    PrefixSplit(cw, n + 1, k);
    ApplyConcat(pre, cw[..n + 1], rw[..m]);
    RecoveryPrefix(L, c, m);
    InstallIsInstalled(L, pre, c, bs, vs);
    InstalledCarries(L, pre, bs, vs, Recover(L, c), Recover(L, e));
  }

  lemma {:induction false} PrefixSplit<T>(s: seq<T>, i: nat, k: nat)
    requires i <= k <= |s|
    ensures s[..k] == s[..i] + s[i..][..k - i]
    ensures k == |s| ==> s[i..][..k - i] == s[i..]
  {
  }

  lemma {:induction false} InstallIsInstalled(L: Layout, pre: Disk, d: Disk, bs: seq<int>, vs: seq<Block>)
    requires DiskOK(L, d) && DecodeHeader(d[L.start]) == bs && |bs| == |vs| && Distinct(bs)
    requires LogBlocks(L, d, |bs|) == vs && SameHome(L, d, pre)
    ensures Installed(L, pre, bs, vs, Recover(L, d))
  {
    var ws := RecoveryWrites(L, d);
    var iw := InstallWrites(bs, vs);
    assert ws[..|bs|] == iw[..|bs|];
    assert Recover(L, d) == Put(Apply(d, iw[..|bs|]), ws[|bs|]);
    forall i | 0 <= i < |bs|
      ensures Recover(L, d)[bs[i]] == vs[i]
    {
      InstallWritesAt(d, bs, vs, |bs|, i);
    }
    forall b | 0 <= b < L.blocks && L.IsHome(b) && b !in bs
      ensures Recover(L, d)[b] == pre[b]
    {
      InstallWritesElsewhere(d, bs, vs, |bs|, b);
    }
  }

  /** Crash atomicity: commit crashes after any k of its writes, recovery crashes any number of
      times at any write, and the finished recovery shows all of the transaction or none of it. */
  lemma {:induction false} CrashAtomicity(L: Layout, pre: Disk, bs: seq<int>, vs: seq<Block>, k: nat, d: Disk,
                       crashes: seq<nat>, e: Disk)
    requires L.Valid() && |pre| == L.blocks && DecodeHeader(pre[L.start]) == []
    requires L.Installable(bs) && Distinct(bs) && |vs| == |bs|
    requires k <= |CommitWrites(L, pre[L.start], bs, vs)|
    requires d == Apply(pre, CommitWrites(L, pre[L.start], bs, vs)[..k])
    requires DiskOK(L, d) ==> CrashedRecoveries(L, d, crashes, e)
    ensures DiskOK(L, d) && DiskOK(L, e) && DecodeHeader(Recover(L, e)[L.start]) == []
    ensures k <= |bs| ==> SameHome(L, Recover(L, e), pre)
    ensures k > |bs| ==> Installed(L, pre, bs, vs, Recover(L, e))
  {
    if k <= |bs| {
      CommitBeforeHeader(L, pre, bs, vs, k, d);
    } else {
      CommitAfterHeader(L, pre, bs, vs, k, d);
    }
    RecoverySurvivesCrashes(L, d, crashes, e);
  }
}
