/**
  The code of Lab/code/log.c: loops over the in-memory header that read buffers and write
  blocks. `issued` records every block write; the methods issue exactly the lists that
  `RedoLog` reasons about, so its crash theorems speak about every point of these loops. A log
  object `Shows` a state of the protocol of `RedoLogRuns`, and each method takes it along the
  protocol's steps, so the protocol's theorems speak about this code.
 */
module RedoLogDriver {
  import opened Options
  import opened RedoLog
  import opened RedoLogRuns

  class Log {
    const layout: Layout
    const block: array<int>          // lh.block
    var n: nat                       // lh.n
    var outstanding: int
    var committing: bool
    var disk: Disk
    var dirty: map<int, Block>       // buffers pinned by B_DIRTY
    ghost var issued: seq<Write>

    ghost predicate Valid()
      reads this, block
    {
      && layout.Valid() && |disk| == layout.blocks
      && block.Length == LOGSIZE && n <= LOGSIZE && Distinct(Header())
      && (forall i :: 0 <= i < n ==> layout.IsHome(Header()[i]))
      && (forall b :: b in dirty <==> b in Header())
    }

    function Header(): seq<int>
      requires block.Length == LOGSIZE && n <= LOGSIZE
      reads this, block
    {
      block[..n]
    }

    /** What bread returns: the pinned buffer, otherwise the block on disk. */
    function View(b: int): Block
      requires 0 <= b < |disk|
      reads this
    {
      if b in dirty then dirty[b] else disk[b]
    }

    ghost function Contents(): (vs: seq<Block>)
      requires Valid()
      reads this, block
      ensures |vs| == n
    {
      seq(n, i requires 0 <= i < n && Valid() reads this, block =>
        assert layout.IsHome(Header()[i]); View(block[i]))
    }

    /** The fields are those of the protocol state `s`, outside the writes of a commit. */
    ghost predicate Shows(s: State)
      reads this, block
    {
      && Valid() && DecodeHeader(disk[layout.start]) == []
      && s.disk == disk && s.header == Header() && s.dirty == dirty && |s.open| == outstanding
      && match s.phase
         case Running => !committing
         case Committing(pre, vs, done) =>
           committing && outstanding == 0 && pre == disk && vs == Contents() && done == 0
         case Recovering(_, _) => false
    }

    /** initlog, at boot or after a crash. */
    constructor (l: Layout, d: Disk, ghost s: State)
      requires l.Valid() && |d| == l.blocks && l.Installable(DecodeHeader(d[l.start]))
      requires s == State(d, Recovering(d, 0), [], map[], map[], {}, s.history, s.durable)
      ensures Execute(l, s, RecoveryRun(l, d)).Some? && Shows(Execute(l, s, RecoveryRun(l, d)).value)
      ensures Valid() && layout == l && Header() == [] && outstanding == 0 && !committing
      ensures disk == Recover(l, d) && issued == RecoveryWrites(l, d)
      ensures DecodeHeader(disk[l.start]) == []
    {
      layout, n, outstanding, committing, disk, dirty := l, 0, 0, false, d, map[];
      block := new int[LOGSIZE];
      issued := [];
      new;
      hide Execute, RecoveryWrites, Recover, DecodeHeader, RecoveryRun, Enabled, Next, Apply, Put, EncodeHeader;
      assert dirty == map[];
      RecoverFromLog();
      assert issued == RecoveryWrites(l, d);
      RecoveryRuns(l, s);
      assert Header() == [];
      assert forall b :: b !in dirty;
      assert dirty == map[];
      assert Shows(s.(disk := disk, phase := Running));
    }

    method BWrite(b: nat, v: Block)
      requires b < |disk|
      modifies `disk, `dirty, `issued
      ensures disk == old(disk)[b := v] && issued == old(issued) + [Write(b, v)]
      ensures dirty == old(dirty) - {b}
    {
      disk := disk[b := v];
      dirty := dirty - {b};
      issued := issued + [Write(b, v)];
    }

    /** Reads the header from disk; entries beyond the count keep their old value. */
    method ReadHead()
      requires DiskOK(layout, disk) && block.Length == LOGSIZE
      modifies `n, block
      ensures n == |DecodeHeader(disk[layout.start])| && Header() == DecodeHeader(disk[layout.start])
    {
      var head := disk[layout.start];
      n := if 0 <= head[0] < WORDS then head[0] else 0;
      var i := 0;
      while i < n
        modifies block
        invariant 0 <= i <= n <= LOGSIZE
        invariant forall j :: 0 <= j < i ==> block[j] == head[1 + j]
      {
        block[i] := head[1 + i];
        i := i + 1;
      }
      assert Header() == DecodeHeader(head);
    }

    method WriteHead()
      requires layout.Valid() && |disk| == layout.blocks
      requires block.Length == LOGSIZE && n <= LOGSIZE
      modifies `disk, `dirty, `issued
      ensures issued == old(issued) + [Write(layout.start, EncodeHeader(old(disk)[layout.start], Header()))]
      ensures disk == old(disk)[layout.start := EncodeHeader(old(disk)[layout.start], Header())]
      ensures dirty == old(dirty) - {layout.start}
    {
      var head := disk[layout.start];
      var hb: Block := head[0 := n];
      var i := 0;
      while i < n
        modifies {}
        invariant 0 <= i <= n
        invariant hb == [n] + block[..i] + head[1 + i..]
      {
        HeadStep(n, block[..], i, head);
        assert block[..][..i] == block[..i] && block[..][..i + 1] == block[..i + 1];
        hb := hb[1 + i := block[i]];
        i := i + 1;
      }
      BWrite(layout.start, hb);
    }

    /** Copies log block i to its home, for every entry of the in-memory header. */
    method InstallTrans()
      requires layout.Valid() && |disk| == layout.blocks
      requires block.Length == LOGSIZE && n <= LOGSIZE && layout.Installable(Header())
      modifies `disk, `dirty, `issued
      ensures issued == old(issued) + old(InstallWrites(Header(), LogBlocks(layout, disk, n)))
      ensures disk == Apply(old(disk), old(InstallWrites(Header(), LogBlocks(layout, disk, n))))
      ensures forall b :: b in dirty <==> b in old(dirty) && b !in Header()
    {
      hide Apply;
      ghost var ws := InstallWrites(Header(), LogBlocks(layout, disk, n));
      ApplyNothing(disk);
      assert ws[..0] == [];
      var tail := 0;
      while tail < n
        invariant 0 <= tail <= n
        invariant |disk| == layout.blocks
        invariant issued == old(issued) + ws[..tail]
        invariant disk == Apply(old(disk), ws[..tail])
        invariant forall b :: b in dirty <==> b in old(dirty) && b !in Header()[..tail]
      {
        var home := block[tail];
        assert layout.IsHome(Header()[tail]);
        LogBlockUnchanged(old(disk), ws[..tail], layout.start + tail + 1);
        BWrite(home, disk[layout.start + tail + 1]);
        ApplyStep(old(disk), ws, tail);
        assert ws[..tail + 1] == ws[..tail] + [ws[tail]];
        assert Header()[..tail + 1] == Header()[..tail] + [home];
        tail := tail + 1;
      }
      assert ws[..tail] == ws;
      assert Header()[..tail] == Header();
    }

    method RecoverFromLog()
      requires DiskOK(layout, disk) && block.Length == LOGSIZE
      modifies `n, `disk, `dirty, `issued, block
      ensures issued == old(issued) + RecoveryWrites(layout, old(disk))
      ensures disk == Recover(layout, old(disk)) && DecodeHeader(disk[layout.start]) == []
      ensures n == 0
      ensures forall b :: b in dirty ==> b in old(dirty)
    {
      ghost var ws := RecoveryWrites(layout, disk);
      ghost var pre := disk;
      ReadHead();
      InstallTrans();
      assert disk[layout.start] == pre[layout.start] by {
        LastToNone(ws[..n], layout.start);
        assert InstallWrites(Header(), LogBlocks(layout, pre, n)) == ws[..n];
        ApplyAt(pre, ws[..n], layout.start);
      }
      ghost var m := n;
      n := 0;
      WriteHead();
      assert Header() == [];
      assert ws[..m] == InstallWrites(DecodeHeader(pre[layout.start]), LogBlocks(layout, pre, m));
      assert ws == ws[..m] + [ClearWrite(layout, pre[layout.start])];
      HeaderRoundTrip(pre[layout.start], []);
    }

    /** Copies every cached block of the transaction into the log. */
    method WriteLog()
      requires Valid() && n < layout.size
      modifies `disk, `dirty, `issued
      ensures issued == old(issued) + LogWrites(layout, old(Contents()))
      ensures disk == Apply(old(disk), LogWrites(layout, old(Contents())))
      ensures dirty == old(dirty)
    {
      hide Apply;
      ghost var vs := Contents();
      ApplyNothing(disk);
      ghost var ws := LogWrites(layout, vs);
      assert ws[..0] == [];
      var tail := 0;
      while tail < n
        invariant 0 <= tail <= n
        invariant |disk| == layout.blocks && dirty == old(dirty)
        invariant issued == old(issued) + ws[..tail]
        invariant disk == Apply(old(disk), ws[..tail])
      {
        assert layout.IsHome(Header()[tail]);
        assert block[tail] in dirty;
        var from := View(block[tail]);
        assert from == vs[tail];
        assert layout.start + tail + 1 !in dirty by {
          assert forall i :: 0 <= i < n ==> layout.IsHome(Header()[i]);
        }
        BWrite(layout.start + tail + 1, from);
        ApplyStep(old(disk), ws, tail);
        assert ws[..tail + 1] == ws[..tail] + [ws[tail]];
        tail := tail + 1;
      }
      assert ws[..tail] == ws;
    }

    /** The writes of a commit; none at all for an empty transaction. */
    ghost function CommitList(): seq<Write>
      requires Valid()
      reads this, block
    {
      if n == 0 then []
      else assert forall i :: 0 <= i < n ==> layout.IsHome(Header()[i]);
           CommitWrites(layout, disk[layout.start], Header(), Contents())
    }

    method Commit()
      requires Valid() && n < layout.size && DecodeHeader(disk[layout.start]) == []
      modifies `n, `disk, `dirty, `issued
      ensures Valid() && Header() == [] && DecodeHeader(disk[layout.start]) == []
      ensures issued == old(issued) + old(CommitList())
      ensures disk == Apply(old(disk), old(CommitList()))
      ensures Installed(layout, old(disk), old(Header()), old(Contents()), disk)
    {
      if n > 0 {
        ghost var pre, bs, vs := disk, Header(), Contents();
        WriteLog();
        WriteHead();
        LogThenHead(layout, pre, bs, vs, disk);
        ghost var committed := disk;
        InstallTrans();
        InstallKeepsHead(layout, committed, bs, vs);
        n := 0;
        WriteHead();
        assert Header() == [];
        InstallThenClear(layout, pre, bs, vs, committed, disk);
        Flatten(old(issued), LogWrites(layout, vs), [Write(layout.start, EncodeHeader(pre[layout.start], bs))],
                InstallWrites(bs, vs), [ClearWrite(layout, EncodeHeader(pre[layout.start], bs))]);
      }
    }

    /** log_write's test, made without the lock; false is the panic "too big a transaction" or
        "log_write outside of trans". */
    method LogCheck(ghost s: State, ghost op: Op) returns (ok: bool)
      ensures ok <==> n < LOGSIZE && n < layout.size - 1 && outstanding >= 1
      ensures Shows(s) && op in s.open && op !in s.ready ==>
        && (ok <==> Enabled(layout, s, Action.LogCheck(op)))
        && (ok ==> Shows(Next(layout, s, Action.LogCheck(op))))
    {
      if n >= LOGSIZE || n >= layout.size - 1 {
        return false;
      }
      if outstanding < 1 {
        return false;
      }
      return true;
    }

    /** The locked part of log_write records block `b`, whose buffer now holds `v`. It does not test
        again: `overrun` is a write past the end of lh.block, and the log on disk may be overrun. */
    method LogAppend(b: int, v: Block, ghost s: State, ghost op: Op) returns (overrun: bool)
      requires Valid() && layout.IsHome(b)
      modifies `n, `dirty, block
      ensures Valid()
      ensures overrun <==> old(n) == LOGSIZE && b !in old(Header())
      ensures !overrun ==> Header() == Absorb(old(Header()), b) && dirty == old(dirty)[b := v]
      ensures overrun ==> Header() == old(Header()) && dirty == old(dirty)
      ensures old(n) < layout.size ==>
        (!overrun && n < layout.size <==> HasRoom(layout, s.(header := old(Header())), Action.LogAppend(op, b, v)))
      ensures old(Shows(s)) && op in s.open && op in s.ready && !overrun ==>
        Enabled(layout, s, Action.LogAppend(op, b, v)) && Shows(Next(layout, s, Action.LogAppend(op, b, v)))
    {
      hide DecodeHeader, Mentions, CommitOK, CommitPlan, RecoveryWrites, DiskOK;
      var i := 0;
      while i < n && block[i] != b
        invariant 0 <= i <= n
        invariant b !in block[..i]
      {
        i := i + 1;
      }
      if i == LOGSIZE {
        return true;
      }
      ghost var bs := Header();
      block[i] := b;
      if i == n {
        n := n + 1;
        assert Header() == bs + [b];
      } else {
        assert Header() == bs;
      }
      dirty := dirty[b := v];
      AbsorbKeeps(layout, bs, b);
      return false;
    }

    /** log_write with nothing in between: the test holds when the block is appended. */
    method LogWrite(b: int, v: Block, ghost s: State, ghost op: Op) returns (ok: bool)
      requires Valid() && layout.IsHome(b)
      modifies `n, `dirty, block
      ensures Valid() && (old(n) < layout.size ==> n < layout.size)
      ensures ok <==> old(n) < LOGSIZE && old(n) < layout.size - 1 && old(outstanding) >= 1
      ensures ok ==> Header() == Absorb(old(Header()), b) && dirty == old(dirty)[b := v]
      ensures !ok ==> Header() == old(Header()) && dirty == old(dirty)
      ensures old(Shows(s)) && op in s.open && op !in s.ready ==>
        && (ok <==> Enabled(layout, s, Action.LogCheck(op)))
        && (ok ==> var r := Execute(layout, s, LogRun(op, b, v)); r.Some? && Shows(r.value))
    {
      hide Enabled, Next, Execute, Shows, DecodeHeader;
      ok := LogCheck(s, op);
      if ok {
        ghost var shown := Shows(s) && op in s.open && op !in s.ready;
        ghost var t := if shown then Next(layout, s, Action.LogCheck(op)) else s;
        if shown {
          CheckedIsReady(layout, s, op);
        }
        var overrun := LogAppend(b, v, t, op);
        if shown {
          ExecuteFirst(layout, s, Action.LogCheck(op));
          ExecuteOne(layout, s, [Action.LogCheck(op)], t, Action.LogAppend(op, b, v));
        }
      }
    }

    /** One round of begin_op's loop under the lock; false means the caller sleeps. */
    method BeginOp(ghost s: State, ghost op: Op) returns (admitted: bool)
      requires Shows(s) && op !in s.open && !Mentions(s.history, op)
      modifies `outstanding
      ensures admitted <==> Enabled(layout, s, Action.BeginOp(op))
      ensures Shows(if admitted then Next(layout, s, Action.BeginOp(op)) else s)
    {
      if committing {
        return false;
      } else if n + (outstanding + 1) * MAXOPBLOCKS > LOGSIZE {
        return false;
      } else {
        outstanding := outstanding + 1;
        return true;
      }
    }

    /** end_op up to releasing the lock; not ok is the panic "log.committing". */
    method Leave(ghost s: State, ghost op: Op) returns (ok: bool, doCommit: bool)
      requires Valid()
      modifies `outstanding, `committing
      ensures ok <==> !old(committing)
      ensures outstanding == old(outstanding) - 1 && (doCommit <==> ok && outstanding == 0)
      ensures committing <==> old(committing) || doCommit
      ensures Valid() && CommitList() == old(CommitList())
      ensures old(Shows(s)) && op in s.open && op !in s.ready ==>
        ok && Enabled(layout, s, Action.EndOp(op)) && Shows(Next(layout, s, Action.EndOp(op)))
    {
      hide DecodeHeader, CommitWrites, Distinct, Enabled, Next, Panics;
      doCommit := false;
      outstanding := outstanding - 1;
      if committing {
        assert Contents() == old(Contents());
        return false, doCommit;
      }
      if outstanding == 0 {
        doCommit := true;
        committing := true;
      }
      assert Contents() == old(Contents());
      if old(Shows(s)) && op in s.open && op !in s.ready {
        EndEffect(layout, s, op);
        assert Current(s) == Contents();
      }
      return true, doCommit;
    }

    /** end_op: leave, and as the last one commit and open the log again. */
    method EndOp(ghost s: State, ghost op: Op) returns (ok: bool)
      requires Shows(s) && op in s.open && op !in s.ready && (outstanding == 1 ==> n < layout.size)
      modifies `n, `outstanding, `committing, `disk, `dirty, `issued
      ensures ok && !committing
      ensures issued == old(issued) + (if old(outstanding) == 1 then old(CommitList()) else [])
      ensures Execute(layout, s, EndRun(layout, s, op)).Some?
      ensures Shows(Execute(layout, s, EndRun(layout, s, op)).value)
    {
      hide Execute, DecodeHeader, Enabled, Next, CommitWrites, Apply, Current, Mentions, Installed, Panics, CommitRun;
      var doCommit;
      ok, doCommit := Leave(s, op);
      ghost var t := Next(layout, s, Action.EndOp(op));
      ExecuteFirst(layout, s, Action.EndOp(op));
      if doCommit {
        assert forall i :: 0 <= i < |t.header| ==> layout.IsHome(t.header[i]);
        assert CommitOK(layout, t);
        assert CommitPlan(layout, t) == CommitList();
        CommitRuns(layout, t);
        ExecuteThen(layout, s, [Action.EndOp(op)], t, CommitRun(layout, t));
        Commit();
        committing := false;
        assert Header() == [];
        assert forall b :: b !in dirty;
      } else {
        assert [Action.EndOp(op)] + [] == [Action.EndOp(op)];
      }
    }
  }

  /** The steps of one end_op: it ends its operation and, as the last one, commits. */
  ghost function EndRun(L: Layout, s: State, op: Op): seq<Action>
    requires Enabled(L, s, Action.EndOp(op))
  {
    var t := Next(L, s, Action.EndOp(op));
    [Action.EndOp(op)] + if CommitOK(L, t) then CommitRun(L, t) else []
  }

  lemma {:induction false} ExecuteFirst(L: Layout, s: State, a: Action)
    requires Enabled(L, s, a)
    ensures Execute(L, s, [a]) == Some(Next(L, s, a))
  {
    assert Execute(L, s, []) == Some(s);
    ExecuteOne(L, s, [], s, a);
    assert [] + [a] == [a];
  }

  /** The steps of one log_write that nothing comes between. */
  function LogRun(op: Op, b: nat, v: Block): seq<Action> {
    [Action.LogCheck(op)] + [Action.LogAppend(op, b, v)]
  }

  lemma {:induction false} CheckedIsReady(L: Layout, s: State, op: Op)
    requires Enabled(L, s, Action.LogCheck(op))
    ensures var t := Next(L, s, Action.LogCheck(op)); t.open == s.open && op in t.open && op in t.ready
  {
  }

  /** What ending an operation changes. */
  lemma {:induction false} EndEffect(L: Layout, s: State, op: Op)
    requires op in s.open && op !in s.ready && s.phase.Running?
    requires forall i :: 0 <= i < |s.header| ==> s.header[i] in s.dirty
    ensures Enabled(L, s, Action.EndOp(op))
    ensures var t := Next(L, s, Action.EndOp(op));
            && t.disk == s.disk && t.header == s.header && t.dirty == s.dirty && |t.open| == |s.open| - 1
            && t.phase == if |s.open| == 1 then Committing(s.disk, Current(s), 0) else Running
  {
    Shrinks(s.open, op);
  }

  lemma {:induction false} Shrinks<K, V>(m: map<K, V>, k: K)
    ensures |m - {k}| == if k in m then |m| - 1 else |m|
  {
    assert (m - {k}).Keys == m.Keys - {k};
  }

  lemma {:induction false} HeadStep(n: int, bs: seq<int>, i: nat, head: Block)
    requires i < |bs| < WORDS
    ensures ([n] + bs[..i] + head[1 + i..])[1 + i := bs[i]] == [n] + bs[..i + 1] + head[1 + (i + 1)..]
  {
  }

  lemma {:induction false} LogBlockUnchanged(d: Disk, ws: seq<Write>, c: nat)
    requires c < |d| && forall i :: 0 <= i < |ws| ==> ws[i].target != c
    ensures Apply(d, ws)[c] == d[c]
  {
    LastToNone(ws, c);
    ApplyAt(d, ws, c);
  }

  lemma {:induction false} InstallKeepsHead(L: Layout, c: Disk, bs: seq<int>, vs: seq<Block>)
    requires L.Valid() && |c| == L.blocks && L.Installable(bs) && |vs| == |bs|
    ensures Apply(c, InstallWrites(bs, vs))[L.start] == c[L.start]
  {
    assert InstallWrites(bs, vs)[..|bs|] == InstallWrites(bs, vs);
    InstallWritesElsewhere(c, bs, vs, |bs|, L.start);
  }

  lemma {:induction false} Flatten<T>(a: seq<T>, b: seq<T>, c: seq<T>, d: seq<T>, e: seq<T>)
    ensures a + b + c + d + e == a + (b + c + d + e)
  {
  }

  /** The disk after write_log and write_head. */
  lemma {:induction false} LogThenHead(L: Layout, pre: Disk, bs: seq<int>, vs: seq<Block>, c: Disk)
    requires L.Valid() && |pre| == L.blocks && DecodeHeader(pre[L.start]) == []
    requires L.Installable(bs) && |vs| == |bs|
    requires var logged := Apply(pre, LogWrites(L, vs));
             c == logged[L.start := EncodeHeader(logged[L.start], bs)]
    ensures |bs| + 1 <= |CommitWrites(L, pre[L.start], bs, vs)|
    ensures c == Apply(pre, CommitWrites(L, pre[L.start], bs, vs)[..|bs| + 1])
    ensures Apply(pre, LogWrites(L, vs))[L.start] == pre[L.start]
    ensures LogBlocks(L, c, |bs|) == vs
  {
    var cw := CommitWrites(L, pre[L.start], bs, vs);
    CommitParts(L, pre[L.start], bs, vs);
    assert LogWrites(L, vs)[..|bs|] == LogWrites(L, vs);
    CommitBeforeHeader(L, pre, bs, vs, |bs|, Apply(pre, cw[..|bs|]));
    assert cw[..|bs| + 1] == cw[..|bs|] + [cw[|bs|]];
    CommitAtHeader(L, pre, bs, vs, c);
  }

  /** The disk after install_trans and the second write_head. */
  lemma {:induction false} InstallThenClear(L: Layout, pre: Disk, bs: seq<int>, vs: seq<Block>, c: Disk, e: Disk)
    requires L.Valid() && |pre| == L.blocks && DecodeHeader(pre[L.start]) == []
    requires L.Installable(bs) && Distinct(bs) && |vs| == |bs|
    requires c == Apply(pre, CommitWrites(L, pre[L.start], bs, vs)[..|bs| + 1])
    requires var i := Apply(c, InstallWrites(bs, vs));
             i[L.start] == c[L.start] && e == i[L.start := EncodeHeader(i[L.start], [])]
    ensures e == Apply(pre, CommitWrites(L, pre[L.start], bs, vs))
    ensures DecodeHeader(e[L.start]) == [] && Installed(L, pre, bs, vs, e)
  {
    var cw := CommitWrites(L, pre[L.start], bs, vs);
    CommitAtHeader(L, pre, bs, vs, c);
    var rw := RecoveryWrites(L, c);
    assert e == Apply(c, rw) by {
      assert rw[..|bs|] == InstallWrites(bs, vs);
    }
    ApplyConcat(pre, cw[..|bs| + 1], rw);
    PrefixSplit(cw, |bs| + 1, |cw|);
    assert cw[..|cw|] == cw;
    CommitAfterHeader(L, pre, bs, vs, |cw|, e);
  }
}
