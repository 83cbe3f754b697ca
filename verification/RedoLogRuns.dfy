/**
  Group commit as a protocol (Lab/code/log.c:124-233): file-system operations interleave
  begin_op, log_write and end_op, the last end_op commits block by block, and the machine may
  crash between any two block writes, of commit or of recovery. log_write tests the size of the
  transaction before it takes the lock and appends under it, so these are two steps.

  Theorem `DurableStateIsWholeOperations`: at every point of every run in which appends find room
  in the log, recovering the disk yields exactly the effect of a prefix of the history that no
  operation straddles. `RedoLogSpace` says when they do.
 */
module RedoLogRuns {
  import opened Options
  import opened RedoLog

  type Op = nat

  datatype Event = Begin(op: Op) | Store(op: Op, block: nat, data: Block) | End(op: Op)

  datatype Phase =
    | Running
    | Committing(pre: Disk, vs: seq<Block>, done: nat)
    | Recovering(pre: Disk, done: nat)

  /** `history` and `durable` only record what happened; no step reads them to decide anything. */
  datatype State = State(
    disk: Disk,
    phase: Phase,
    header: seq<int>,            // lh.block[..lh.n]
    dirty: map<int, Block>,      // buffers pinned by log_write
    open: map<Op, nat>,          // outstanding operations, with the header entries each added
    ready: set<Op>,              // those past log_write's test and not yet past its lock
    history: seq<Event>,
    durable: nat)

  datatype Action =
    | BeginOp(op: Op)
    | LogCheck(op: Op)                              // log_write's test, without the lock
    | LogAppend(op: Op, block: nat, data: Block)    // the rest of log_write, with the lock
    | EndOp(op: Op)
    | CommitWrite
    | CommitDone
    | Crash
    | RecoveryWrite
    | RecoveryDone

  // ---- histories ----

  ghost function Replay(base: Disk, h: seq<Event>): (d: Disk)
    ensures |d| == |base|
  {
    if h == [] then base
    else
      var d := Replay(base, h[..|h| - 1]);
      var e := h[|h| - 1];
      if e.Store? && e.block < |d| then d[e.block := e.data] else d
  }

  ghost function OpenOps(h: seq<Event>): set<Op> {
    if h == [] then {}
    else
      var s := OpenOps(h[..|h| - 1]);
      match h[|h| - 1]
      case Begin(op) => s + {op}
      case Store(_, _, _) => s
      case End(op) => s - {op}
  }

  ghost predicate Mentions(h: seq<Event>, op: Op) {
    exists i :: 0 <= i < |h| && h[i].op == op
  }

  /** Operation names are used once, and an operation acts only between its begin and end. */
  ghost predicate WellFormed(h: seq<Event>) {
    forall i :: 0 <= i < |h| ==>
      if h[i].Begin? then !Mentions(h[..i], h[i].op) else h[i].op in OpenOps(h[..i])
  }

  lemma {:induction false} OpenOpsStep(h: seq<Event>, j: nat, op: Op)
    requires j < |h| && op !in OpenOps(h[..j]) && h[j] != Begin(op)
    ensures op !in OpenOps(h[..j + 1])
  {
    assert h[..j + 1][..j] == h[..j];
  }

  /** An operation that is over, or not begun, at `k` is not open at `k`; it stays so unless begun. */
  lemma {:induction false} ClosedStaysClosed(h: seq<Event>, k: nat, j: nat, op: Op)
    requires WellFormed(h) && k <= j <= |h|
    requires op !in OpenOps(h[..k]) && Mentions(h[..k], op)
    ensures op !in OpenOps(h[..j])
    decreases j
  {
    hide OpenOps, WellFormed, Mentions;
    if k < j {
      ClosedStaysClosed(h, k, j - 1, op);
      NotBegunAgain(h, k, j - 1, op);
      OpenOpsStep(h, j - 1, op);
    }
  }

  lemma {:induction false} NotBegunAgain(h: seq<Event>, k: nat, j: nat, op: Op)
    requires WellFormed(h) && k <= j < |h| && Mentions(h[..k], op)
    ensures h[j] != Begin(op)
  {
    hide OpenOps;
    var i :| 0 <= i < |h[..k]| && h[..k][i].op == op;
    assert h[..j][i].op == op;
    assert Mentions(h[..j], op);
  }

  /** If nothing is open at `k`, no operation has events on both sides of `k`. */
  lemma {:induction false} NoStraddle(h: seq<Event>, k: nat, i: nat, j: nat)
    requires WellFormed(h) && i < k <= j < |h| && OpenOps(h[..k]) == {}
    ensures h[i].op != h[j].op
  {
    if h[i].op == h[j].op {
      assert h[..k][i].op == h[j].op && h[..j][i].op == h[j].op;
      ClosedStaysClosed(h, k, j, h[j].op);
      assert false;
    }
  }

  // ---- the machine ----

  function Current(s: State): (vs: seq<Block>)
    requires forall i :: 0 <= i < |s.header| ==> s.header[i] in s.dirty
    ensures |vs| == |s.header| && forall i :: 0 <= i < |vs| ==> vs[i] == s.dirty[s.header[i]]
  {
    seq(|s.header|, i requires 0 <= i < |s.header| => s.dirty[s.header[i]])
  }

  /** The two panics of log_write and the one of end_op. */
  predicate Panics(L: Layout, s: State, a: Action) {
    match a
    case LogCheck(_) => |s.header| >= LOGSIZE || |s.header| >= L.size - 1 || |s.open| < 1
    case EndOp(_) => s.phase.Committing?
    case _ => false
  }

  ghost predicate CommitOK(L: Layout, s: State) {
    && s.phase.Committing? && L.start < |s.phase.pre|
    && |s.phase.vs| == |s.header| < WORDS && (forall i :: 0 <= i < |s.header| ==> 0 <= s.header[i])
  }

  /** The writes of the commit under way; none for an empty transaction. */
  ghost function CommitPlan(L: Layout, s: State): seq<Write>
    requires CommitOK(L, s)
  {
    if s.header == [] then [] else CommitWrites(L, s.phase.pre[L.start], s.header, s.phase.vs)
  }

  ghost predicate Enabled(L: Layout, s: State, a: Action) {
    !Panics(L, s, a) &&
    match a
    case BeginOp(op) =>
      && s.phase.Running? && !Mentions(s.history, op)
      && |s.header| + (|s.open| + 1) * MAXOPBLOCKS <= LOGSIZE
    case LogCheck(op) => op in s.open && op !in s.ready
    case LogAppend(op, b, _) => op in s.open && op in s.ready && L.IsHome(b)
    case EndOp(op) => op in s.open && op !in s.ready && (forall i :: 0 <= i < |s.header| ==> s.header[i] in s.dirty)
    case CommitWrite => CommitOK(L, s) && s.phase.done < |CommitPlan(L, s)|
    case CommitDone => CommitOK(L, s) && s.phase.done == |CommitPlan(L, s)|
    case Crash => s.durable <= |s.history|
    case RecoveryWrite =>
      s.phase.Recovering? && DiskOK(L, s.phase.pre) && s.phase.done < |RecoveryWrites(L, s.phase.pre)|
    case RecoveryDone =>
      s.phase.Recovering? && DiskOK(L, s.phase.pre) && s.phase.done == |RecoveryWrites(L, s.phase.pre)|
  }

  ghost function Next(L: Layout, s: State, a: Action): State
    requires Enabled(L, s, a)
  {
    match a
    case BeginOp(op) =>
      s.(open := s.open[op := 0], history := s.history + [Begin(op)])
    case LogCheck(op) => s.(ready := s.ready + {op})
    case LogAppend(op, b, v) =>
      s.(header := Absorb(s.header, b), dirty := s.dirty[b := v], ready := s.ready - {op},
         open := s.open[op := s.open[op] + (if b in s.header then 0 else 1)],
         history := s.history + [Store(op, b, v)])
    case EndOp(op) =>
      var t := s.(open := s.open - {op}, history := s.history + [End(op)]);
      if t.open != map[] then t
      else t.(phase := Committing(s.disk, Current(s), 0), durable := if s.header == [] then |t.history| else s.durable)
    case CommitWrite =>
      // the header write is the one that commits
      s.(disk := Put(s.disk, CommitPlan(L, s)[s.phase.done]),
         phase := Committing(s.phase.pre, s.phase.vs, s.phase.done + 1),
         durable := if s.phase.done == |s.header| then |s.history| else s.durable)
    case CommitDone =>
      s.(phase := Running, header := [], dirty := map[])
    case Crash =>
      // memory is lost, and with it every event that was not durable
      s.(phase := Recovering(s.disk, 0), header := [], dirty := map[], open := map[], ready := {},
         history := s.history[..s.durable])
    case RecoveryWrite =>
      s.(disk := Put(s.disk, RecoveryWrites(L, s.phase.pre)[s.phase.done]),
         phase := Recovering(s.phase.pre, s.phase.done + 1))
    case RecoveryDone =>
      s.(phase := Running)
  }

  function Boot(base: Disk): State {
    State(base, Recovering(base, 0), [], map[], map[], {}, [], 0)
  }

  /** The run `run` is possible and ends in the returned state. */
  ghost function Execute(L: Layout, s: State, run: seq<Action>): Option<State> {
    if run == [] then Some(s)
    else match Execute(L, s, run[..|run| - 1])
      case None => None
      case Some(t) => if Enabled(L, t, run[|run| - 1]) then Some(Next(L, t, run[|run| - 1])) else None
  }

  function Times(a: Action, k: nat): seq<Action> {
    if k == 0 then [] else Times(a, k - 1) + [a]
  }

  lemma {:induction false} ExecuteOne(L: Layout, s: State, run: seq<Action>, t: State, a: Action)
    requires Execute(L, s, run) == Some(t) && Enabled(L, t, a)
    ensures Execute(L, s, run + [a]) == Some(Next(L, t, a))
  {
    hide Next, Enabled;
    assert (run + [a])[..|run + [a]| - 1] == run;
  }

  lemma {:induction false} ExecuteThen(L: Layout, s: State, run: seq<Action>, t: State, more: seq<Action>)
    requires Execute(L, s, run) == Some(t)
    ensures Execute(L, s, run + more) == Execute(L, t, more)
    decreases |more|
  {
    hide Next, Enabled;
    if more == [] {
      assert run + more == run;
    } else {
      assert (run + more)[..|run + more| - 1] == run + more[..|more| - 1];
      ExecuteThen(L, s, run, t, more[..|more| - 1]);
    }
  }

  /** State `t` is `s` after the first k writes of its commit. */
  ghost predicate MidCommit(L: Layout, s: State, k: nat, t: State)
    requires CommitOK(L, s) && k <= |CommitPlan(L, s)|
  {
    && t.phase == Committing(s.phase.pre, s.phase.vs, k) && t.disk == Apply(s.disk, CommitPlan(L, s)[..k])
    && t == s.(disk := t.disk, phase := t.phase, durable := t.durable)
    && t.durable == if k > |s.header| then |s.history| else s.durable
  }

  /** The first k writes of a commit. */
  lemma {:induction false} CommitSteps(L: Layout, s: State, k: nat)
    requires CommitOK(L, s) && s.phase.done == 0 && k <= |CommitPlan(L, s)|
    ensures var r := Execute(L, s, Times(CommitWrite, k)); r.Some? && MidCommit(L, s, k, r.value)
  {
    hide CommitPlan, MidCommit, Next, Enabled, Execute;
    if k == 0 {
      CommitStarts(L, s);
    } else {
      CommitSteps(L, s, k - 1);
      var t := Execute(L, s, Times(CommitWrite, k - 1)).value;
      CommitGoesOn(L, s, t, k - 1);
      ExecuteOne(L, s, Times(CommitWrite, k - 1), t, CommitWrite);
    }
  }

  lemma {:induction false} CommitStarts(L: Layout, s: State)
    requires CommitOK(L, s) && s.phase.done == 0
    ensures Execute(L, s, Times(CommitWrite, 0)) == Some(s) && MidCommit(L, s, 0, s)
  {
    hide CommitPlan, Apply, Next, Enabled;
    ApplyNothing(s.disk);
    assert CommitPlan(L, s)[..0] == [];
  }

  lemma {:induction false} CommitGoesOn(L: Layout, s: State, t: State, k: nat)
    requires CommitOK(L, s) && k < |CommitPlan(L, s)| && MidCommit(L, s, k, t)
    ensures Enabled(L, t, CommitWrite) && MidCommit(L, s, k + 1, Next(L, t, CommitWrite))
  {
    hide CommitPlan, Put, Apply, Next, Enabled;
    CommitStep(L, s, t, k);
    ApplyStep(s.disk, CommitPlan(L, s), k);
  }

  lemma {:induction false} CommitStep(L: Layout, s: State, t: State, k: nat)
    requires CommitOK(L, s) && k < |CommitPlan(L, s)|
    requires t == s.(disk := t.disk, phase := Committing(s.phase.pre, s.phase.vs, k), durable := t.durable)
    ensures Enabled(L, t, CommitWrite)
    ensures var u := Next(L, t, CommitWrite);
            && u.disk == Put(t.disk, CommitPlan(L, s)[k])
            && u == s.(disk := u.disk, phase := Committing(s.phase.pre, s.phase.vs, k + 1), durable := u.durable)
            && u.durable == if k == |s.header| then |s.history| else t.durable
  {
    hide CommitWrites, Put;
    assert CommitOK(L, t) && CommitPlan(L, t) == CommitPlan(L, s);
  }

  /** A whole commit: its writes one by one, then the end of end_op. */
  ghost function CommitRun(L: Layout, s: State): seq<Action>
    requires CommitOK(L, s)
  {
    Times(CommitWrite, |CommitPlan(L, s)|) + [CommitDone]
  }

  lemma {:induction false} CommitRuns(L: Layout, s: State)
    requires CommitOK(L, s) && s.phase.done == 0
    ensures var r := Execute(L, s, CommitRun(L, s));
            && r.Some? && r.value.disk == Apply(s.disk, CommitPlan(L, s))
            && r.value.phase == Running && r.value.header == [] && r.value.dirty == map[] && r.value.open == s.open
  {
    hide CommitWrites, Put, RecoveryWrites, DiskOK, Mentions, Apply, Execute;
    var plan := CommitPlan(L, s);
    CommitSteps(L, s, |plan|);
    var t := Execute(L, s, Times(CommitWrite, |plan|)).value;
    assert plan[..|plan|] == plan;
    assert CommitOK(L, t) && CommitPlan(L, t) == plan;
    ExecuteOne(L, s, Times(CommitWrite, |plan|), t, CommitDone);
  }

  /** State `t` is `s` after the first k writes of its recovery. */
  ghost predicate MidRecovery(L: Layout, s: State, k: nat, t: State)
    requires DiskOK(L, s.disk) && k <= |RecoveryWrites(L, s.disk)|
  {
    t == s.(disk := Apply(s.disk, RecoveryWrites(L, s.disk)[..k]), phase := Recovering(s.disk, k))
  }

  /** The first k writes of a recovery. */
  lemma {:induction false} RecoverySteps(L: Layout, s: State, k: nat)
    requires s.phase == Recovering(s.disk, 0) && DiskOK(L, s.disk) && k <= |RecoveryWrites(L, s.disk)|
    ensures var r := Execute(L, s, Times(RecoveryWrite, k)); r.Some? && MidRecovery(L, s, k, r.value)
  {
    hide RecoveryWrites, DiskOK, MidRecovery, Next, Enabled, Execute;
    if k == 0 {
      RecoveryStarts(L, s);
    } else {
      RecoverySteps(L, s, k - 1);
      var t := Execute(L, s, Times(RecoveryWrite, k - 1)).value;
      RecoveryGoesOn(L, s, t, k - 1);
      ExecuteOne(L, s, Times(RecoveryWrite, k - 1), t, RecoveryWrite);
    }
  }

  lemma {:induction false} RecoveryStarts(L: Layout, s: State)
    requires s.phase == Recovering(s.disk, 0) && DiskOK(L, s.disk)
    ensures Execute(L, s, Times(RecoveryWrite, 0)) == Some(s) && MidRecovery(L, s, 0, s)
  {
    hide RecoveryWrites, DiskOK, Apply, Next, Enabled;
    ApplyNothing(s.disk);
    assert RecoveryWrites(L, s.disk)[..0] == [];
  }

  lemma {:induction false} RecoveryGoesOn(L: Layout, s: State, t: State, k: nat)
    requires DiskOK(L, s.disk) && k < |RecoveryWrites(L, s.disk)| && MidRecovery(L, s, k, t)
    ensures Enabled(L, t, RecoveryWrite) && MidRecovery(L, s, k + 1, Next(L, t, RecoveryWrite))
  {
    hide CommitPlan, CommitOK, Put, RecoveryWrites, DiskOK, Mentions, Apply;
    ApplyStep(s.disk, RecoveryWrites(L, s.disk), k);
  }

  /** A whole recovery at boot or after a crash. */
  ghost function RecoveryRun(L: Layout, d: Disk): seq<Action>
    requires DiskOK(L, d)
  {
    Times(RecoveryWrite, |RecoveryWrites(L, d)|) + [RecoveryDone]
  }

  lemma {:induction false} RecoveryRuns(L: Layout, s: State)
    requires s.phase == Recovering(s.disk, 0) && DiskOK(L, s.disk)
    ensures Execute(L, s, RecoveryRun(L, s.disk)) == Some(s.(disk := Recover(L, s.disk), phase := Running))
  {
    hide CommitWrites, Put, RecoveryWrites, DiskOK, Mentions, Apply, Execute;
    var ws := RecoveryWrites(L, s.disk);
    RecoverySteps(L, s, |ws|);
    var t := Execute(L, s, Times(RecoveryWrite, |ws|)).value;
    assert ws[..|ws|] == ws;
    ExecuteOne(L, s, Times(RecoveryWrite, |ws|), t, RecoveryDone);
  }

  /** The step, if it is an append, finds room in the header in memory and in the log on disk. */
  predicate HasRoom(L: Layout, s: State, a: Action) {
    a.LogAppend? && a.block !in s.header ==> |s.header| < LOGSIZE && |s.header| < L.size - 1
  }

  /** Every append of the run finds room. */
  ghost predicate RoomyRun(L: Layout, s: State, run: seq<Action>) {
    run != [] ==>
      && RoomyRun(L, s, run[..|run| - 1])
      && match Execute(L, s, run[..|run| - 1])
         case None => true
         case Some(t) => HasRoom(L, t, run[|run| - 1])
  }

  // ---- the invariant ----

  ghost predicate Base(L: Layout, base: Disk, s: State) {
    && L.Valid() && |s.disk| == |base| == L.blocks
    && s.durable <= |s.history| && WellFormed(s.history)
    && s.open.Keys == OpenOps(s.history) && s.ready <= s.open.Keys
    && OpenOps(s.history[..s.durable]) == {}
    && L.Installable(s.header) && Distinct(s.header)
    && (forall b :: b in s.dirty <==> b in s.header)
  }

  ghost predicate RunningOK(L: Layout, base: Disk, s: State)
    requires Base(L, base, s)
  {
    && DecodeHeader(s.disk[L.start]) == []
    && SameHome(L, s.disk, Replay(base, s.history[..s.durable]))
    && (forall b :: 0 <= b < L.blocks && L.IsHome(b) ==>
          (if b in s.dirty then s.dirty[b] else s.disk[b]) == Replay(base, s.history)[b])
    && (s.open == map[] ==> s.header == [] && s.durable == |s.history|)
  }

  ghost predicate CommittingOK(L: Layout, base: Disk, s: State)
    requires Base(L, base, s) && s.phase.Committing?
  {
    var pre, vs, done := s.phase.pre, s.phase.vs, s.phase.done;
    && s.open == map[]
    && |pre| == L.blocks && DecodeHeader(pre[L.start]) == []
    && |vs| == |s.header| && CommitOK(L, s)
    && done <= |CommitPlan(L, s)| && s.disk == Apply(pre, CommitPlan(L, s)[..done])
    && Installed(L, pre, s.header, vs, Replay(base, s.history))
    && (s.header == [] ==> s.durable == |s.history|)
    && if done <= |s.header| then SameHome(L, pre, Replay(base, s.history[..s.durable]))
       else s.durable == |s.history|
  }

  ghost predicate RecoveringOK(L: Layout, base: Disk, s: State)
    requires Base(L, base, s) && s.phase.Recovering?
  {
    var pre, done := s.phase.pre, s.phase.done;
    && s.open == map[] && s.header == [] && s.durable == |s.history|
    && DiskOK(L, pre) && done <= |RecoveryWrites(L, pre)|
    && s.disk == Apply(pre, RecoveryWrites(L, pre)[..done])
    && SameHome(L, Recover(L, pre), Replay(base, s.history))
  }

  ghost predicate Inv(L: Layout, base: Disk, s: State) {
    && Base(L, base, s)
    && match s.phase
       case Running => RunningOK(L, base, s)
       case Committing(_, _, _) => CommittingOK(L, base, s)
       case Recovering(_, _) => RecoveringOK(L, base, s)
  }

  /** In every good state the disk, recovered, is the replay of the durable prefix. */
  lemma {:induction false} RecoveredIsDurable(L: Layout, base: Disk, s: State)
    requires Inv(L, base, s)
    ensures DiskOK(L, s.disk)
    ensures SameHome(L, Recover(L, s.disk), Replay(base, s.history[..s.durable]))
  {
    match s.phase
    case Running =>
      ClearedRecovery(L, s.disk);
    case Committing(pre, vs, done) =>
      if s.header == [] {
        assert CommitPlan(L, s)[..done] == [];
        ClearedRecovery(L, s.disk);
      } else if done <= |s.header| {
        CommitBeforeHeader(L, pre, s.header, vs, done, s.disk);
      } else {
        CommitAfterHeader(L, pre, s.header, vs, done, s.disk);
        InstalledUnique(L, pre, s.header, vs, Recover(L, s.disk), Replay(base, s.history));
        assert s.history[..s.durable] == s.history;
      }
    case Recovering(pre, done) =>
      RecoveryPrefix(L, pre, done);
      assert s.history[..s.durable] == s.history;
  }

  lemma {:induction false} InstalledUnique(L: Layout, pre: Disk, bs: seq<int>, vs: seq<Block>, d: Disk, e: Disk)
    requires |bs| == |vs| && Installed(L, pre, bs, vs, d) && Installed(L, pre, bs, vs, e)
    ensures SameHome(L, d, e)
  {
    forall b | 0 <= b < L.blocks && L.IsHome(b)
      ensures d[b] == e[b]
    {
      if b in bs {
        var i :| 0 <= i < |bs| && bs[i] == b;
        assert d[bs[i]] == vs[i] && e[bs[i]] == vs[i];
      }
    }
  }

  // ---- the invariant is kept ----

  /** Appending an event to a well-formed history. */
  lemma {:induction false} Append(base: Disk, h: seq<Event>, e: Event, k: nat)
    requires WellFormed(h) && k <= |h|
    requires if e.Begin? then !Mentions(h, e.op) else e.op in OpenOps(h)
    ensures WellFormed(h + [e])
    ensures OpenOps(h + [e]) ==
            match e
            case Begin(op) => OpenOps(h) + {op}
            case Store(_, _, _) => OpenOps(h)
            case End(op) => OpenOps(h) - {op}
    ensures (h + [e])[..k] == h[..k]
    ensures Replay(base, h + [e]) ==
            if e.Store? && e.block < |base| then Replay(base, h)[e.block := e.data] else Replay(base, h)
  {
    var g := h + [e];
    assert g[..|g| - 1] == h;
    forall i | 0 <= i < |g|
      ensures if g[i].Begin? then !Mentions(g[..i], g[i].op) else g[i].op in OpenOps(g[..i])
    {
      if i < |h| {
        assert g[..i] == h[..i];
      } else {
        assert g[..i] == h;
      }
    }
  }

  lemma {:induction false} BeginKeeps(L: Layout, base: Disk, s: State, op: Op)
    requires Inv(L, base, s) && Enabled(L, s, BeginOp(op))
    ensures Inv(L, base, Next(L, s, BeginOp(op)))
  {
    hide Replay, OpenOps, WellFormed, Mentions, DecodeHeader, CommitWrites, Distinct;
    var t := Next(L, s, BeginOp(op));
    Append(base, s.history, Begin(op), s.durable);
    assert t.open.Keys == s.open.Keys + {op};
    assert Base(L, base, t);
    assert op in t.open;
  }

  lemma {:induction false} CheckKeeps(L: Layout, base: Disk, s: State, op: Op)
    requires Inv(L, base, s) && Enabled(L, s, LogCheck(op))
    ensures Inv(L, base, Next(L, s, LogCheck(op)))
  {
    hide Replay, OpenOps, WellFormed, Mentions, DecodeHeader, CommitWrites, Distinct, Apply;
    assert s.phase.Running?;
    assert Base(L, base, Next(L, s, LogCheck(op)));
  }

  lemma {:induction false} AppendKeeps(L: Layout, base: Disk, s: State, op: Op, b: nat, v: Block)
    requires Inv(L, base, s) && Enabled(L, s, LogAppend(op, b, v)) && HasRoom(L, s, LogAppend(op, b, v))
    ensures Inv(L, base, Next(L, s, LogAppend(op, b, v)))
  {
    hide Replay, OpenOps, WellFormed, Mentions, DecodeHeader, CommitWrites;
    var t := Next(L, s, LogAppend(op, b, v));
    Append(base, s.history, Store(op, b, v), s.durable);
    AbsorbKeeps(L, s.header, b);
    assert t.open.Keys == s.open.Keys;
    assert Base(L, base, t);
  }

  lemma {:induction false} EndKeeps(L: Layout, base: Disk, s: State, op: Op)
    requires Inv(L, base, s) && Enabled(L, s, EndOp(op))
    ensures Inv(L, base, Next(L, s, EndOp(op)))
  {
    hide Replay, OpenOps, WellFormed, Apply, Mentions, DecodeHeader, CommitWrites;
    var t := Next(L, s, EndOp(op));
    Append(base, s.history, End(op), s.durable);
    assert t.open.Keys == s.open.Keys - {op};
    assert s.phase.Running?;
    if t.open == map[] {
      assert t.open.Keys == {};
      assert t.history[..|t.history|] == t.history;
      var vs := Current(s);
      forall i | 0 <= i < |s.header|
        ensures Replay(base, t.history)[s.header[i]] == vs[i]
      {
        assert L.IsHome(s.header[i]) && s.header[i] in s.dirty;
      }
      assert Installed(L, s.disk, s.header, vs, Replay(base, t.history));
      assert CommitPlan(L, t)[..0] == [];
      ApplyNothing(s.disk);
    }
  }

  lemma {:induction false} CommitWriteKeeps(L: Layout, base: Disk, s: State)
    requires Inv(L, base, s) && Enabled(L, s, CommitWrite)
    ensures Inv(L, base, Next(L, s, CommitWrite))
  {
    hide Replay, OpenOps, WellFormed, Apply, Mentions, DecodeHeader, CommitWrites, Installed, Put;
    var t := Next(L, s, CommitWrite);
    ApplyStep(s.phase.pre, CommitPlan(L, s), s.phase.done);
    assert OpenOps(s.history) == {};
    assert s.history[..|s.history|] == s.history;
    assert CommitPlan(L, t) == CommitPlan(L, s);
  }

  lemma {:induction false} CommitDoneKeeps(L: Layout, base: Disk, s: State)
    requires Inv(L, base, s) && Enabled(L, s, CommitDone)
    ensures Inv(L, base, Next(L, s, CommitDone))
  {
    hide Replay, OpenOps, WellFormed, Mentions, Put, RecoveryWrites, DecodeHeader, Recover;
    var pre, vs, done := s.phase.pre, s.phase.vs, s.phase.done;
    if s.header == [] {
      assert CommitPlan(L, s)[..done] == [];
    } else {
      CommitParts(L, pre[L.start], s.header, vs);
      CommitAfterHeader(L, pre, s.header, vs, done, s.disk);
    }
    InstalledUnique(L, pre, s.header, vs, s.disk, Replay(base, s.history));
    assert s.history[..s.durable] == s.history;
  }

  lemma {:induction false} CrashKeeps(L: Layout, base: Disk, s: State)
    requires Inv(L, base, s) && Enabled(L, s, Crash)
    ensures Inv(L, base, Next(L, s, Crash))
  {
    hide Replay, OpenOps, Apply, Recover, RecoveryWrites, DecodeHeader, Installed;
    var t := Next(L, s, Crash);
    RecoveredIsDurable(L, base, s);
    assert t.history[..t.durable] == t.history;
    forall i | 0 <= i < |t.history|
      ensures t.history[..i] == s.history[..i]
    {
    }
    assert RecoveryWrites(L, s.disk)[..0] == [];
    ApplyNothing(s.disk);
  }

  lemma {:induction false} RecoveryWriteKeeps(L: Layout, base: Disk, s: State)
    requires Inv(L, base, s) && Enabled(L, s, RecoveryWrite)
    ensures Inv(L, base, Next(L, s, RecoveryWrite))
  {
    hide Replay, OpenOps, WellFormed, Apply, Mentions, DecodeHeader, RecoveryWrites, DiskOK, Put;
    ApplyStep(s.phase.pre, RecoveryWrites(L, s.phase.pre), s.phase.done);
  }

  lemma {:induction false} RecoveryDoneKeeps(L: Layout, base: Disk, s: State)
    requires Inv(L, base, s) && Enabled(L, s, RecoveryDone)
    ensures Inv(L, base, Next(L, s, RecoveryDone))
  {
    var pre := s.phase.pre;
    RecoveryPrefix(L, pre, s.phase.done);
    assert RecoveryWrites(L, pre)[..s.phase.done] == RecoveryWrites(L, pre);
    assert s.history[..s.durable] == s.history;
  }

  lemma {:induction false} StepKeeps(L: Layout, base: Disk, s: State, a: Action)
    requires Inv(L, base, s) && Enabled(L, s, a) && HasRoom(L, s, a)
    ensures Inv(L, base, Next(L, s, a))
  {
    match a
    case BeginOp(op) => BeginKeeps(L, base, s, op);
    case LogCheck(op) => CheckKeeps(L, base, s, op);
    case LogAppend(op, b, v) => AppendKeeps(L, base, s, op, b, v);
    case EndOp(op) => EndKeeps(L, base, s, op);
    case CommitWrite => CommitWriteKeeps(L, base, s);
    case CommitDone => CommitDoneKeeps(L, base, s);
    case Crash => CrashKeeps(L, base, s);
    case RecoveryWrite => RecoveryWriteKeeps(L, base, s);
    case RecoveryDone => RecoveryDoneKeeps(L, base, s);
  }

  /** A step keeps the invariant if and only if it is not an append that finds no room. */
  lemma {:induction false} StepExact(L: Layout, base: Disk, s: State, a: Action)
    requires Inv(L, base, s) && Enabled(L, s, a)
    ensures Inv(L, base, Next(L, s, a)) <==> HasRoom(L, s, a)
  {
    if HasRoom(L, s, a) {
      StepKeeps(L, base, s, a);
    } else {
      assert !L.Installable(Next(L, s, a).header);
    }
  }

  lemma {:induction false} BootOK(L: Layout, base: Disk)
    requires L.Valid() && |base| == L.blocks && DecodeHeader(base[L.start]) == []
    ensures Inv(L, base, Boot(base))
  {
    ClearedRecovery(L, base);
    assert RecoveryWrites(L, base)[..0] == [];
  }

  lemma {:induction false} RunKeeps(L: Layout, base: Disk, run: seq<Action>, s: State)
    requires Inv(L, base, Boot(base)) && Execute(L, Boot(base), run) == Some(s) && RoomyRun(L, Boot(base), run)
    ensures Inv(L, base, s)
    decreases |run|
  {
    hide Inv, Next, Enabled, HasRoom, Boot;
    if run != [] {
      var t := Execute(L, Boot(base), run[..|run| - 1]).value;
      RunKeeps(L, base, run[..|run| - 1], t);
      StepKeeps(L, base, t, run[|run| - 1]);
    }
  }

  // ---- what every step keeps, room or not ----

  ghost predicate Orderly(L: Layout, s: State) {
    && s.durable <= |s.history| && WellFormed(s.history)
    && s.open.Keys == OpenOps(s.history) && s.ready <= s.open.Keys
    && OpenOps(s.history[..s.durable]) == {}
    && Distinct(s.header) && (forall i :: 0 <= i < |s.header| ==> L.IsHome(s.header[i]))
    && (forall b :: b in s.dirty <==> b in s.header)
  }

  ghost predicate PhaseOK(s: State) {
    match s.phase
    case Running => s.open == map[] ==> s.header == [] && s.durable == |s.history|
    case Committing(_, vs, done) =>
      && s.open == map[] && |vs| == |s.header|
      && (s.header == [] || done > |s.header| ==> s.durable == |s.history|)
    case Recovering(_, _) => s.open == map[] && s.header == [] && s.durable == |s.history|
  }

  ghost predicate Proto(L: Layout, s: State) {
    Orderly(L, s) && PhaseOK(s)
  }

  lemma {:induction false} ProtoOperation(L: Layout, s: State, a: Action, e: Event)
    requires Proto(L, s) && Enabled(L, s, a) && s.phase.Running?
    requires match a
             case BeginOp(op) => e == Begin(op)
             case LogAppend(op, b, v) => e == Store(op, b, v)
             case EndOp(op) => e == End(op)
             case _ => false
    ensures Proto(L, Next(L, s, a))
  {
    hide Replay, OpenOps, WellFormed, Mentions, CommitWrites, RecoveryWrites, DiskOK, Apply, Put;
    var t := Next(L, s, a);
    Append(s.disk, s.history, e, s.durable);
    assert t.history == s.history + [e];
    match a
    case BeginOp(op) =>
      assert t.open.Keys == s.open.Keys + {op};
      assert op in t.open;
    case LogAppend(op, b, v) =>
      AbsorbKeeps(L, s.header, b);
      assert t.open.Keys == s.open.Keys;
    case EndOp(op) =>
      assert t.open.Keys == s.open.Keys - {op};
      assert t.history[..|t.history|] == t.history;
      if t.open == map[] {
        assert t.open.Keys == {};
      }
  }

  lemma {:induction false} ProtoCommit(L: Layout, s: State, a: Action)
    requires Proto(L, s) && Enabled(L, s, a) && (a.CommitWrite? || a.CommitDone?)
    ensures Proto(L, Next(L, s, a))
  {
    hide Replay, OpenOps, WellFormed, Mentions, Apply, Put;
    assert s.history[..|s.history|] == s.history;
    assert s.open.Keys == {};
    if s.header != [] {
      CommitParts(L, s.phase.pre[L.start], s.header, s.phase.vs);
    }
  }

  lemma {:induction false} ProtoCrash(L: Layout, s: State)
    requires Proto(L, s)
    ensures Enabled(L, s, Crash) && Proto(L, Next(L, s, Crash))
  {
    hide Replay, OpenOps;
    var t := Next(L, s, Crash);
    assert t.history[..t.durable] == t.history;
    forall i | 0 <= i < |t.history|
      ensures t.history[..i] == s.history[..i]
    {
    }
  }

  lemma {:induction false} ProtoQuiet(L: Layout, s: State, a: Action)
    requires Proto(L, s) && Enabled(L, s, a) && (a.LogCheck? || a.RecoveryWrite? || a.RecoveryDone?)
    ensures Proto(L, Next(L, s, a))
  {
    hide OpenOps, WellFormed, Mentions, Distinct, RecoveryWrites, DiskOK, CommitOK, CommitPlan, Put;
  }

  lemma {:induction false} ProtoRunning(L: Layout, s: State, a: Action)
    requires Proto(L, s) && Enabled(L, s, a)
    ensures a.BeginOp? || a.LogAppend? || a.EndOp? ==> s.phase.Running?
  {
    hide Orderly, Mentions, RecoveryWrites, DiskOK, CommitOK, CommitPlan;
  }

  lemma {:induction false} ProtoKept(L: Layout, s: State, a: Action)
    requires Proto(L, s) && Enabled(L, s, a)
    ensures Proto(L, Next(L, s, a))
  {
    hide Proto, Next, Enabled;
    ProtoRunning(L, s, a);
    match a
    case BeginOp(op) => ProtoOperation(L, s, a, Begin(op));
    case LogCheck(op) => ProtoQuiet(L, s, a);
    case LogAppend(op, b, v) => ProtoOperation(L, s, a, Store(op, b, v));
    case EndOp(op) => ProtoOperation(L, s, a, End(op));
    case CommitWrite => ProtoCommit(L, s, a);
    case CommitDone => ProtoCommit(L, s, a);
    case Crash => ProtoCrash(L, s);
    case RecoveryWrite => ProtoQuiet(L, s, a);
    case RecoveryDone => ProtoQuiet(L, s, a);
  }

  lemma {:induction false} ProtoBoot(L: Layout, base: Disk)
    ensures Proto(L, Boot(base))
  {
  }

  lemma {:induction false} RunIsProto(L: Layout, base: Disk, run: seq<Action>, s: State)
    requires Execute(L, Boot(base), run) == Some(s)
    ensures Proto(L, s)
    decreases |run|
  {
    hide Proto, Next, Enabled, Boot;
    ProtoBoot(L, base);
    if run != [] {
      var t := Execute(L, Boot(base), run[..|run| - 1]).value;
      RunIsProto(L, base, run[..|run| - 1], t);
      ProtoKept(L, t, run[|run| - 1]);
    }
  }

  // ---- main results ----

  /** Recovering the disk restores exactly the effect of the durable prefix of the history. */
  ghost predicate IsDurable(L: Layout, base: Disk, s: State) {
    && s.durable <= |s.history| && DiskOK(L, s.disk)
    && SameHome(L, Recover(L, s.disk), Replay(base, s.history[..s.durable]))
  }

  /** Over every run whose appends find room: recovery would restore exactly the effect of the
      durable prefix of the history, and no operation has events on both sides of the point where
      that prefix ends. */
  lemma {:induction false} DurableStateIsWholeOperations(L: Layout, base: Disk, run: seq<Action>, s: State)
    requires L.Valid() && |base| == L.blocks && DecodeHeader(base[L.start]) == []
    requires Execute(L, Boot(base), run) == Some(s) && RoomyRun(L, Boot(base), run)
    ensures IsDurable(L, base, s)
    ensures forall i, j :: 0 <= i < s.durable <= j < |s.history| ==> s.history[i].op != s.history[j].op
  {
    hide Execute, RoomyRun, Boot;
    BootOK(L, base);
    RunKeeps(L, base, run, s);
    RecoveredIsDurable(L, base, s);
    ProtocolSafety(L, base, run, s);
  }

  /** Over every run, room or not: while an operation is outstanding no commit and no recovery is
      under way, so no block is logged during a commit and the panic of end_op is unreachable;
      logged blocks are distinct; no operation has events on both sides of the durable point; and
      when nothing is outstanding and nothing is under way, every operation is durable. */
  lemma {:induction false} ProtocolSafety(L: Layout, base: Disk, run: seq<Action>, s: State)
    requires Execute(L, Boot(base), run) == Some(s)
    ensures s.open != map[] ==> s.phase.Running?
    ensures forall op :: op in s.open ==> !Panics(L, s, EndOp(op))
    ensures Distinct(s.header)
    ensures s.durable <= |s.history|
    ensures forall i, j :: 0 <= i < s.durable <= j < |s.history| ==> s.history[i].op != s.history[j].op
    ensures s.open == map[] && s.phase.Running? ==> s.durable == |s.history|
  {
    hide Execute, Boot, OpenOps, WellFormed;
    RunIsProto(L, base, run, s);
    forall i, j | 0 <= i < s.durable <= j < |s.history|
      ensures s.history[i].op != s.history[j].op
    {
      NoStraddle(s.history, s.durable, i, j);
    }
  }

  /** What holds of the home blocks whenever no operation is open holds after a crash anywhere and
      recovery, for any property of the home blocks, such as that every marked block is in use. */
  lemma {:induction false} ConsistencySurvivesCrash(L: Layout, base: Disk, run: seq<Action>, s: State, p: Disk -> bool)
    requires L.Valid() && |base| == L.blocks && DecodeHeader(base[L.start]) == []
    requires Execute(L, Boot(base), run) == Some(s) && RoomyRun(L, Boot(base), run)
    requires forall d, e :: SameHome(L, d, e) ==> p(d) == p(e)
    requires forall k :: 0 <= k <= |s.history| && OpenOps(s.history[..k]) == {} ==> p(Replay(base, s.history[..k]))
    ensures DiskOK(L, s.disk) && p(Recover(L, s.disk))
  {
    hide Execute, RoomyRun, Boot, OpenOps, WellFormed, Replay, DecodeHeader;
    DurableStateIsWholeOperations(L, base, run, s);
    RunIsProto(L, base, run, s);
    hide SameHome, Recover, DiskOK;
    assert p(Replay(base, s.history[..s.durable]));
  }

  lemma {:induction false} CommitsAreRoomy(L: Layout, s: State, run: seq<Action>, k: nat)
    requires RoomyRun(L, s, run)
    ensures RoomyRun(L, s, run + Times(CommitWrite, k))
  {
    hide Execute;
    var more := run + Times(CommitWrite, k);
    if k == 0 {
      assert more == run;
    } else {
      CommitsAreRoomy(L, s, run, k - 1);
      assert more[..|more| - 1] == run + Times(CommitWrite, k - 1) && more[|more| - 1] == CommitWrite;
    }
  }

  /** After any number of the writes of a commit, at any point of any run whose appends found room,
      the disk recovers to the durable prefix as it was before the commit, or from the header write
      on to the whole history. */
  lemma {:induction false} CommitCutAnywhere(L: Layout, base: Disk, run: seq<Action>, s: State, k: nat)
    requires L.Valid() && |base| == L.blocks && DecodeHeader(base[L.start]) == []
    requires Execute(L, Boot(base), run) == Some(s) && RoomyRun(L, Boot(base), run)
    requires CommitOK(L, s) && s.phase.done == 0 && k <= |CommitPlan(L, s)| && s.durable <= |s.history|
    ensures var d := Apply(s.disk, CommitPlan(L, s)[..k]);
            && DiskOK(L, d)
            && SameHome(L, Recover(L, d), Replay(base, if k <= |s.header| then s.history[..s.durable] else s.history))
  {
    hide Execute, RoomyRun, Apply, CommitPlan, Recover, SameHome, Replay, DecodeHeader, DiskOK;
    CommitSteps(L, s, k);
    ExecuteThen(L, Boot(base), run, s, Times(CommitWrite, k));
    CommitsAreRoomy(L, Boot(base), run, k);
    var t := Execute(L, s, Times(CommitWrite, k)).value;
    DurableStateIsWholeOperations(L, base, run + Times(CommitWrite, k), t);
    assert s.history[..|s.history|] == s.history;
  }
}
