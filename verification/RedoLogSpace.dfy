/**
  Log space (Lab/code/log.c:132 and :218). begin_op admits an operation only if the header
  entries in use plus MAXOPBLOCKS for every outstanding operation fit LOGSIZE. For operations
  that stay within MAXOPBLOCKS this reservation can never be overrun; whether log_write can
  still panic, and whether two log_writes that pass the test together can overrun the log, depends
  only on the size of the on-disk log. For larger operations neither is ever ruled out.
 */
module RedoLogSpace {
  import opened Options
  import opened RedoLog
  import opened RedoLogRuns
  import opened Sums

  /** Header entries the outstanding operations may still add. */
  ghost function Unspent(s: State): int {
    |s.open| * MAXOPBLOCKS - MapTotal(s.open)
  }

  /** No outstanding operation has added more than k entries. */
  ghost predicate WithinBudget(s: State, k: nat) {
    forall op :: op in s.open ==> s.open[op] <= k
  }

  ghost predicate Reserved(s: State) {
    |s.header| + Unspent(s) <= LOGSIZE
  }

  lemma {:induction false} AppendKeepsReservation(L: Layout, s: State, op: Op, b: nat, v: Block)
    requires Enabled(L, s, LogAppend(op, b, v)) && Reserved(s)
    ensures Reserved(Next(L, s, LogAppend(op, b, v)))
  {
    hide MapTotal, Mentions;
    TotalUpdate(s.open, op, s.open[op] + if b in s.header then 0 else 1);
    TotalRemove(s.open, op);
  }

  lemma {:induction false} StepKeepsReservation(L: Layout, s: State, a: Action)
    requires Enabled(L, s, a) && Reserved(s) && WithinBudget(s, MAXOPBLOCKS)
    ensures Reserved(Next(L, s, a))
  {
    hide MapTotal, RecoveryWrites, CommitWrites, DecodeHeader, DiskOK, Mentions, Put;
    match a
    case BeginOp(op) =>
      TotalUpdate(s.open, op, 0);
      if op in s.open {
        TotalRemove(s.open, op);
      } else {
        assert s.open - {op} == s.open;
      }
    case LogCheck(op) =>
    case LogAppend(op, b, v) =>
      AppendKeepsReservation(L, s, op, b, v);
    case EndOp(op) =>
      TotalRemove(s.open, op);
      assert (s.open - {op}).Keys == s.open.Keys - {op};
    case CommitWrite =>
    case CommitDone => EmptyTotal();
    case Crash => EmptyTotal();
    case RecoveryWrite =>
    case RecoveryDone =>
  }

  lemma {:induction false} EmptyTotal()
    ensures MapTotal<Op>(map[]) == 0
  {
  }

  /** Every operation stays within k entries at every point of the run. */
  ghost predicate BudgetedRun(L: Layout, base: Disk, run: seq<Action>, k: nat) {
    && (Execute(L, Boot(base), run).Some? ==> WithinBudget(Execute(L, Boot(base), run).value, k))
    && (run != [] ==> BudgetedRun(L, base, run[..|run| - 1], k))
  }

  /** Over every budgeted run, entries in use plus unspent reservations never exceed LOGSIZE. */
  lemma {:induction false} ReservationsFit(L: Layout, base: Disk, run: seq<Action>, s: State)
    requires Execute(L, Boot(base), run) == Some(s) && BudgetedRun(L, base, run, MAXOPBLOCKS)
    ensures |s.header| + Unspent(s) <= LOGSIZE
    decreases |run|
  {
    if run != [] {
      var run' := run[..|run| - 1];
      var t := Execute(L, Boot(base), run').value;
      ReservationsFit(L, base, run', t);
      StepKeepsReservation(L, t, run[|run| - 1]);
    }
  }

  /** An operation with room left in its budget does not panic in log_write,
      at no point of any budgeted run, when the on-disk log is larger than LOGSIZE. */
  lemma {:induction false} LogWriteNeverPanics(L: Layout, base: Disk, run: seq<Action>, s: State, a: Action)
    requires L.size > LOGSIZE
    requires AboutToLog(L, base, run, s, a, MAXOPBLOCKS)
    ensures !Panics(L, s, a)
  {
    ReservationsFit(L, base, run, s);
    TotalRemove(s.open, a.op);
    assert (s.open - {a.op}).Keys == s.open.Keys - {a.op};
    TotalAtMost(s.open - {a.op}, MAXOPBLOCKS);
  }

  /** Over every budgeted run, no append overruns a log larger than LOGSIZE, however many tests of
      log_write come between a test and its append. */
  lemma {:induction false} BudgetedIsRoomy(L: Layout, base: Disk, run: seq<Action>, s: State)
    requires L.size > LOGSIZE
    requires Execute(L, Boot(base), run) == Some(s) && BudgetedRun(L, base, run, MAXOPBLOCKS)
    ensures RoomyRun(L, Boot(base), run)
    decreases |run|
  {
    if run != [] {
      var run' := run[..|run| - 1];
      var t := Execute(L, Boot(base), run').value;
      BudgetedIsRoomy(L, base, run', t);
      HeaderFits(L, base, run, s);
    }
  }

  lemma {:induction false} HeaderFits(L: Layout, base: Disk, run: seq<Action>, s: State)
    requires Execute(L, Boot(base), run) == Some(s) && BudgetedRun(L, base, run, MAXOPBLOCKS)
    ensures |s.header| <= LOGSIZE
  {
    ReservationsFit(L, base, run, s);
    assert WithinBudget(s, MAXOPBLOCKS);
    TotalAtMost(s.open, MAXOPBLOCKS);
  }

  /** In a log of one block log_write always panics, so nothing is ever appended. */
  lemma {:induction false} NothingAppended(L: Layout, base: Disk, run: seq<Action>, s: State)
    requires L.size == 1 && Execute(L, Boot(base), run) == Some(s)
    ensures s.ready == {} && RoomyRun(L, Boot(base), run)
    decreases |run|
  {
    if run != [] {
      var run' := run[..|run| - 1];
      var t := Execute(L, Boot(base), run').value;
      NothingAppended(L, base, run', t);
      hide CommitPlan, CommitOK, RecoveryWrites, DiskOK, Mentions, Put;
    }
  }

  // ---- the runs that fail ----

  /** The i-th block outside the log. */
  function HomeBlock(L: Layout, i: nat): nat {
    if i < L.start then i else i + L.size
  }

  function HomeBlocks(L: Layout, m: nat): (bs: seq<int>)
    ensures |bs| == m && forall i :: 0 <= i < m ==> bs[i] == HomeBlock(L, i)
  {
    seq(m, i requires 0 <= i < m => HomeBlock(L, i))
  }

  /** Recover an empty log, begin three operations, then log m blocks, in turn. */
  function FillRun(L: Layout, m: nat, v: Block): seq<Action> {
    if m == 0 then [RecoveryWrite, RecoveryDone, BeginOp(0), BeginOp(1), BeginOp(2)]
    else FillRun(L, m - 1, v) + [LogCheck((m - 1) % 3)] + [LogAppend((m - 1) % 3, HomeBlock(L, m - 1), v)]
  }

  /** Entries of operation op when m blocks have been logged in turn. */
  function Share(m: nat, op: Op): nat {
    if op > m + 2 then 0 else (m + 2 - op) / 3
  }

  function Shares(m: nat): map<Op, nat> {
    map[0 := Share(m, 0), 1 := Share(m, 1), 2 := Share(m, 2)]
  }

  /** Three operations have logged m blocks, all with contents `v`; nothing is durable yet. */
  ghost predicate Filled(L: Layout, base: Disk, m: nat, v: Block, s: State) {
    && s.phase == Running && s.header == HomeBlocks(L, m) && s.open == Shares(m)
    && s.durable == 0 && (forall i :: 0 <= i < m ==> s.header[i] in s.dirty && s.dirty[s.header[i]] == v)
    && L.start < |s.disk| && DecodeHeader(s.disk[L.start]) == [] && SameHome(L, s.disk, base)
  }

  /** A run of k-budgeted operations is possible and ends in `s`. */
  ghost predicate Reaches(L: Layout, base: Disk, run: seq<Action>, s: State, k: nat) {
    Execute(L, Boot(base), run) == Some(s) && BudgetedRun(L, base, run, k)
  }

  lemma {:induction false} Extend(L: Layout, base: Disk, run: seq<Action>, s: State, a: Action, k: nat)
    requires Reaches(L, base, run, s, k) && Enabled(L, s, a) && WithinBudget(Next(L, s, a), k)
    ensures Reaches(L, base, run + [a], Next(L, s, a), k)
  {
    hide Next, Enabled, WithinBudget;
    assert (run + [a])[..|run + [a]| - 1] == run;
  }

  lemma {:induction false} OneWrite(L: Layout, base: Disk)
    requires L.Valid() && |base| == L.blocks && DecodeHeader(base[L.start]) == []
    ensures DiskOK(L, base) && RecoveryWrites(L, base) == [ClearWrite(L, base[L.start])]
    ensures SameHome(L, Put(base, ClearWrite(L, base[L.start])), base)
    ensures DecodeHeader(Put(base, ClearWrite(L, base[L.start]))[L.start]) == []
  {
    HeaderRoundTrip(base[L.start], []);
  }

  lemma {:induction false} NothingYet(L: Layout, base: Disk, k: nat)
    ensures Reaches(L, base, [], Boot(base), k)
  {
  }

  /** The recovery of an empty log: one write and done. */
  lemma {:induction false} RecoverEmpty(L: Layout, base: Disk, k: nat) returns (s: State)
    requires L.Valid() && |base| == L.blocks && DecodeHeader(base[L.start]) == []
    ensures Reaches(L, base, [RecoveryWrite, RecoveryDone], s, k)
    ensures s.phase == Running && s.header == [] && s.open == map[] && s.ready == {}
    ensures s.history == [] && s.durable == 0
    ensures |s.disk| == L.blocks && DecodeHeader(s.disk[L.start]) == [] && SameHome(L, s.disk, base)
  {
    hide RecoveryWrites, DecodeHeader, Mentions, CommitOK, CommitPlan, RedoLog.Put, Reaches, DiskOK, SameHome;
    OneWrite(L, base);
    NothingYet(L, base, k);
    s := Boot(base);
    Extend(L, base, [], s, RecoveryWrite, k);
    s := Next(L, s, RecoveryWrite);
    assert [] + [RecoveryWrite] == [RecoveryWrite];
    Extend(L, base, [RecoveryWrite], s, RecoveryDone, k);
    s := Next(L, s, RecoveryDone);
    assert [RecoveryWrite] + [RecoveryDone] == [RecoveryWrite, RecoveryDone];
  }

  lemma {:induction false} BeginOne(L: Layout, base: Disk, run: seq<Action>, s: State, op: Op, k: nat)
    returns (t: State)
    requires Reaches(L, base, run, s, k) && WithinBudget(s, k)
    requires s.phase == Running && s.header == [] && op < 3 && |s.open| == op
    requires s.history == seq(op, (i: nat) => Begin(i))
    ensures Reaches(L, base, run + [BeginOp(op)], t, k)
    ensures t.phase == Running && t.header == [] && t.open == s.open[op := 0]
    ensures t.disk == s.disk && t.ready == s.ready && t.durable == s.durable
    ensures t.history == seq(op + 1, (i: nat) => Begin(i))
  {
    hide RecoveryWrites, CommitWrites, DecodeHeader, DiskOK, Reaches;
    t := Next(L, s, BeginOp(op));
    Extend(L, base, run, s, BeginOp(op), k);
  }

  lemma {:induction false} FillStart(L: Layout, base: Disk, v: Block, k: nat) returns (s: State)
    requires L.Valid() && |base| == L.blocks && DecodeHeader(base[L.start]) == []
    ensures Reaches(L, base, FillRun(L, 0, v), s, k) && Filled(L, base, 0, v, s) && s.ready == {}
  {
    hide Reaches, SameHome, DecodeHeader;
    var run := [RecoveryWrite, RecoveryDone];
    s := RecoverEmpty(L, base, k);
    s := BeginOne(L, base, run, s, 0, k);
    s := BeginOne(L, base, run + [BeginOp(0)], s, 1, k);
    s := BeginOne(L, base, run + [BeginOp(0)] + [BeginOp(1)], s, 2, k);
    assert run + [BeginOp(0)] + [BeginOp(1)] + [BeginOp(2)] == FillRun(L, 0, v);
  }

  lemma {:induction false} ShareIs(m: nat, op: Op)
    requires op < 3
    ensures Share(m, op) == m / 3 + if op < m % 3 then 1 else 0
  {
  }

  lemma {:induction false} NextTurn(m: nat)
    ensures (m + 1) / 3 == m / 3 + (if m % 3 == 2 then 1 else 0)
    ensures (m + 1) % 3 == if m % 3 == 2 then 0 else m % 3 + 1
  {
  }

  lemma {:induction false} HomeBlocksStep(L: Layout, m: nat)
    requires L.Valid() && m + 1 + L.size <= L.blocks
    ensures HomeBlock(L, m) !in HomeBlocks(L, m) && L.IsHome(HomeBlock(L, m))
    ensures HomeBlocks(L, m + 1) == HomeBlocks(L, m) + [HomeBlock(L, m)]
  {
  }

  lemma {:induction false} ThreeShares(m: nat)
    ensures Shares(m).Keys == {0, 1, 2} && |Shares(m)| == 3
  {
    hide Share;
    assert |Shares(m).Keys| == |{0, 1, 2}|;
  }

  function Turns(q: nat, r: nat): map<Op, nat> {
    map[0 := q + if 0 < r then 1 else 0, 1 := q + if 1 < r then 1 else 0, 2 := q]
  }

  lemma {:induction false} SharesAre(m: nat)
    ensures Shares(m) == Turns(m / 3, m % 3)
  {
    hide Share;
    ShareIs(m, 0);
    ShareIs(m, 1);
    ShareIs(m, 2);
  }

  lemma {:induction false} TurnsStep(q: nat, r: nat)
    requires r < 3
    ensures r in Turns(q, r) && Turns(q, r)[r] == q
    ensures (if r == 2 then Turns(q + 1, 0) else Turns(q, r + 1)) == Turns(q, r)[r := q + 1]
    ensures forall op :: op in Turns(q, r) ==> op < 3 && Turns(q, r)[op] <= q + if r > 0 then 1 else 0
  {
  }

  lemma {:induction false} SharesStep(m: nat)
    ensures m % 3 in Shares(m) && Shares(m)[m % 3] == m / 3
    ensures Shares(m + 1) == Shares(m)[m % 3 := Shares(m)[m % 3] + 1]
    ensures |Shares(m)| == 3 && forall op :: op in Shares(m) ==> op < 3 && 3 * Shares(m)[op] <= m + 2
  {
    hide Shares, Turns;
    ThreeShares(m);
    SharesAre(m);
    SharesAre(m + 1);
    NextTurn(m);
    TurnsStep(m / 3, m % 3);
  }

  /** An operation that has passed the test appends the next block. */
  lemma {:induction false} AppendNext(L: Layout, base: Disk, m: nat, v: Block, s: State, k: nat)
    requires L.Valid() && m + 1 + L.size <= L.blocks && Filled(L, base, m, v, s) && m % 3 in s.ready && m < 3 * k
    ensures var a := LogAppend(m % 3, HomeBlock(L, m), v);
            && Enabled(L, s, a) && Filled(L, base, m + 1, v, Next(L, s, a)) && WithinBudget(Next(L, s, a), k)
            && Next(L, s, a).ready == s.ready - {m % 3}
  {
    hide RecoveryWrites, CommitWrites, DiskOK, Mentions, HomeBlocks, HomeBlock, Shares, DecodeHeader, SameHome;
    HomeBlocksStep(L, m);
    SharesStep(m);
    SharesStep(m + 1);
  }

  /** A further operation passes the test. */
  lemma {:induction false} CheckNext(L: Layout, base: Disk, m: nat, v: Block, s: State, op: Op, k: nat)
    requires Filled(L, base, m, v, s) && op < 3 && op !in s.ready && m < LOGSIZE && m < L.size - 1 && m <= 3 * k
    ensures Enabled(L, s, LogCheck(op)) && Filled(L, base, m, v, Next(L, s, LogCheck(op)))
    ensures WithinBudget(Next(L, s, LogCheck(op)), k) && Next(L, s, LogCheck(op)).ready == s.ready + {op}
  {
    hide RecoveryWrites, CommitWrites, DiskOK, Mentions, HomeBlock, DecodeHeader, SameHome;
    SharesStep(m);
    hide Share;
  }

  lemma {:induction false} FillReaches(L: Layout, base: Disk, m: nat, v: Block, k: nat) returns (s: State)
    requires L.Valid() && |base| == L.blocks && DecodeHeader(base[L.start]) == []
    requires m + L.size <= L.blocks && m < L.size && m <= LOGSIZE && m <= 3 * k
    ensures Reaches(L, base, FillRun(L, m, v), s, k) && Filled(L, base, m, v, s) && s.ready == {}
  {
    hide Reaches, Filled, Next, Enabled, WithinBudget, HomeBlock, DecodeHeader;
    if m == 0 {
      s := FillStart(L, base, v, k);
    } else {
      var op: Op := (m - 1) % 3;
      s := FillReaches(L, base, m - 1, v, k);
      CheckNext(L, base, m - 1, v, s, op, k);
      Extend(L, base, FillRun(L, m - 1, v), s, LogCheck(op), k);
      s := Next(L, s, LogCheck(op));
      AppendNext(L, base, m - 1, v, s, k);
      var a := LogAppend(op, HomeBlock(L, m - 1), v);
      Extend(L, base, FillRun(L, m - 1, v) + [LogCheck(op)], s, a, k);
      s := Next(L, s, a);
    }
  }

  // ---- log_write panics ----

  /** A budgeted run ends in `s`, where an operation with budget left is about to do `a`. */
  ghost predicate AboutToLog(L: Layout, base: Disk, run: seq<Action>, s: State, a: Action, k: nat) {
    && Execute(L, Boot(base), run) == Some(s) && BudgetedRun(L, base, run, k)
    && a.LogCheck? && a.op in s.open && s.open[a.op] < k
  }

  /** The filled log panics on the next block, which its operation still has budget for. */
  lemma {:induction false} FilledPanics(L: Layout, base: Disk, k: nat) returns (run: seq<Action>, s: State, a: Action)
    requires L.Valid() && |base| == L.blocks && DecodeHeader(base[L.start]) == []
    requires L.blocks >= L.size + LOGSIZE && k >= MAXOPBLOCKS && (L.size <= LOGSIZE || k > MAXOPBLOCKS)
    ensures AboutToLog(L, base, run, s, a, k) && Panics(L, s, a)
  {
    hide RecoveryWrites, CommitWrites, DecodeHeader, DiskOK, Mentions, HomeBlock, BudgetedRun, Execute;
    var v := base[L.start];
    var m := if L.size <= LOGSIZE then L.size - 1 else LOGSIZE;
    s := FillReaches(L, base, m, v, k);
    run := FillRun(L, m, v);
    a := LogCheck(m % 3);
    SharesStep(m);
  }

  /** "log_write never panics for an operation within its budget" holds of all runs of operations of
      at most k blocks, k at least MAXOPBLOCKS, exactly when k is MAXOPBLOCKS and the on-disk log is
      larger than LOGSIZE. mkfs makes it equal to LOGSIZE. */
  lemma {:induction false} PanicFreeIffLogLarger(L: Layout, base: Disk, k: nat)
    requires L.Valid() && |base| == L.blocks && DecodeHeader(base[L.start]) == []
    requires L.blocks >= L.size + LOGSIZE && k >= MAXOPBLOCKS
    ensures L.size > LOGSIZE && k == MAXOPBLOCKS <==>
      forall run, s, a :: AboutToLog(L, base, run, s, a, k) ==> !Panics(L, s, a)
  {
    if L.size > LOGSIZE && k == MAXOPBLOCKS {
      forall run, s, a | AboutToLog(L, base, run, s, a, k)
        ensures !Panics(L, s, a)
      {
        LogWriteNeverPanics(L, base, run, s, a);
      }
    } else {
      var run, s, a := FilledPanics(L, base, k);
    }
  }

  // ---- two appends after one test ----

  /** Two operations pass the test together and then both append. */
  function SqueezeRun(L: Layout, m: nat, v: Block): seq<Action> {
    FillRun(L, m, v) + [LogCheck(m % 3)] + [LogCheck((m + 1) % 3)]
    + [LogAppend(m % 3, HomeBlock(L, m), v)] + [LogAppend((m + 1) % 3, HomeBlock(L, m + 1), v)]
  }

  lemma {:induction false} SqueezeReaches(L: Layout, base: Disk, m: nat, v: Block, k: nat) returns (t: State, s: State)
    requires L.Valid() && |base| == L.blocks && DecodeHeader(base[L.start]) == []
    requires m + 2 + L.size <= L.blocks && m < L.size - 1 && m < LOGSIZE && m + 2 <= 3 * k
    ensures Reaches(L, base, SqueezeRun(L, m, v), s, k) && Filled(L, base, m + 2, v, s) && s.ready == {}
    ensures var run := SqueezeRun(L, m, v);
            && run != [] && Reaches(L, base, run[..|run| - 1], t, k) && Filled(L, base, m + 1, v, t)
            && run[|run| - 1] == LogAppend((m + 1) % 3, HomeBlock(L, m + 1), v)
  {
    hide Reaches, Filled, Next, Enabled, WithinBudget, HomeBlock, DecodeHeader, FillRun;
    var p: Op, q: Op := m % 3, (m + 1) % 3;
    var run := FillRun(L, m, v);
    t := FillReaches(L, base, m, v, k);
    CheckNext(L, base, m, v, t, p, k);
    Extend(L, base, run, t, LogCheck(p), k);
    run, t := run + [LogCheck(p)], Next(L, t, LogCheck(p));
    CheckNext(L, base, m, v, t, q, k);
    Extend(L, base, run, t, LogCheck(q), k);
    run, t := run + [LogCheck(q)], Next(L, t, LogCheck(q));
    AppendNext(L, base, m, v, t, k);
    var a := LogAppend(p, HomeBlock(L, m), v);
    Extend(L, base, run, t, a, k);
    run, t := run + [a], Next(L, t, a);
    AppendNext(L, base, m + 1, v, t, k);
    var b := LogAppend(q, HomeBlock(L, m + 1), v);
    Extend(L, base, run, t, b, k);
    s := Next(L, t, b);
    assert SqueezeRun(L, m, v) == run + [b];
    assert (run + [b])[..|run|] == run;
  }

  /** The second append finds no room. */
  lemma {:induction false} SqueezedIsNotRoomy(L: Layout, base: Disk, m: nat, v: Block, t: State, k: nat)
    requires L.Valid() && m + 2 + L.size <= L.blocks && (m + 1 == L.size - 1 || m + 1 == LOGSIZE)
    requires var run := SqueezeRun(L, m, v);
             && run != [] && Reaches(L, base, run[..|run| - 1], t, k) && Filled(L, base, m + 1, v, t)
             && run[|run| - 1] == LogAppend((m + 1) % 3, HomeBlock(L, m + 1), v)
    ensures !RoomyRun(L, Boot(base), SqueezeRun(L, m, v))
  {
    hide SqueezeRun, Execute, HomeBlock, BudgetedRun;
    HomeBlocksStep(L, m + 1);
  }

  /** In all runs of operations of at most k blocks, k at least MAXOPBLOCKS, every append finds room
      in the header and in the log, exactly when k is MAXOPBLOCKS and the log is larger than LOGSIZE,
      or the log has no room for anything. */
  lemma {:induction false} RoomIffLogLarger(L: Layout, base: Disk, k: nat)
    requires L.Valid() && |base| == L.blocks && DecodeHeader(base[L.start]) == []
    requires L.blocks > L.size + LOGSIZE && k >= MAXOPBLOCKS
    ensures (L.size > LOGSIZE && k == MAXOPBLOCKS) || L.size == 1 <==>
      forall run, s :: Reaches(L, base, run, s, k) ==> RoomyRun(L, Boot(base), run)
  {
    if (L.size > LOGSIZE && k == MAXOPBLOCKS) || L.size == 1 {
      forall run, s | Reaches(L, base, run, s, k)
        ensures RoomyRun(L, Boot(base), run)
      {
        if L.size == 1 {
          NothingAppended(L, base, run, s);
        } else {
          BudgetedIsRoomy(L, base, run, s);
        }
      }
    } else {
      var m := if L.size <= LOGSIZE then L.size - 2 else LOGSIZE - 1;
      var v := base[L.start];
      var t, s := SqueezeReaches(L, base, m, v, k);
      SqueezedIsNotRoomy(L, base, m, v, t, k);
      assert Reaches(L, base, SqueezeRun(L, m, v), s, k);
    }
  }

  // ---- the log overruns a home block ----

  /** What the end of an operation changes. */
  lemma {:induction false} EndStep(L: Layout, s: State, op: Op)
    requires s.phase == Running && op in s.open && s.ready == {} && s.header != []
    requires forall i :: 0 <= i < |s.header| ==> s.header[i] in s.dirty
    ensures Enabled(L, s, EndOp(op))
    ensures var t := Next(L, s, EndOp(op));
            && t.open == s.open - {op} && t.ready == {} && t.header == s.header && t.dirty == s.dirty
            && t.disk == s.disk && t.durable == s.durable
            && t.phase == if t.open == map[] then Committing(s.disk, Current(s), 0) else Running
  {
  }

  lemma {:induction false} FewerOpen(s: State, t: State, op: Op, k: nat)
    requires WithinBudget(s, k) && t.open == s.open - {op}
    ensures WithinBudget(t, k)
  {
  }

  /** Operations have logged blocks, all with contents `v`, and are about to end. */
  ghost predicate Winding(s: State, v: Block, k: nat) {
    && s.phase == Running && s.ready == {} && s.header != [] && WithinBudget(s, k)
    && forall i :: 0 <= i < |s.header| ==> s.header[i] in s.dirty && s.dirty[s.header[i]] == v
  }

  lemma {:induction false} EndOne(L: Layout, base: Disk, run: seq<Action>, s: State, op: Op, v: Block, k: nat)
    returns (t: State)
    requires Reaches(L, base, run, s, k) && Winding(s, v, k) && op in s.open
    ensures Reaches(L, base, run + [EndOp(op)], t, k)
    ensures t.open == s.open - {op} && t.disk == s.disk && t.header == s.header && t.durable == s.durable
    ensures t.open != map[] ==> Winding(t, v, k)
    ensures t.open == map[] ==> t.phase == Committing(s.disk, seq(|s.header|, _ => v), 0)
  {
    hide Reaches, Next, Enabled, WithinBudget;
    EndStep(L, s, op);
    t := Next(L, s, EndOp(op));
    FewerOpen(s, t, op, k);
    Extend(L, base, run, s, EndOp(op), k);
    assert Current(s) == seq(|s.header|, _ => v);
  }

  /** The three operations end. */
  lemma {:induction false} AllEnd(L: Layout, base: Disk, run: seq<Action>, m: nat, v: Block, s: State, k: nat)
    returns (t: State)
    requires Reaches(L, base, run, s, k) && Filled(L, base, m, v, s) && s.ready == {} && 0 < m <= 3 * k
    ensures Reaches(L, base, run + [EndOp(0)] + [EndOp(1)] + [EndOp(2)], t, k)
    ensures t.phase == Committing(s.disk, seq(m, _ => v), 0) && t.disk == s.disk && t.header == s.header
    ensures t.open == map[] && t.durable == 0
  {
    SharesStep(m);
    ThreeShares(m);
    assert Winding(s, v, k);
    hide HomeBlocks, DecodeHeader, SameHome, Reaches, Shares, Winding;
    t := EndOne(L, base, run, s, 0, v, k);
    assert 1 in t.open && 2 in t.open;
    t := EndOne(L, base, run + [EndOp(0)], t, 1, v, k);
    assert 2 in t.open;
    t := EndOne(L, base, run + [EndOp(0)] + [EndOp(1)], t, 2, v, k);
    assert t.open.Keys == {};
  }

  lemma {:induction false} CommitsReach(L: Layout, base: Disk, run: seq<Action>, s: State, j: nat, k: nat)
    returns (t: State)
    requires Reaches(L, base, run, s, k) && CommitOK(L, s) && s.phase.done == 0 && j <= |CommitPlan(L, s)|
    requires s.open == map[]
    ensures Reaches(L, base, run + Times(CommitWrite, j), t, k) && MidCommit(L, s, j, t)
  {
    hide Reaches, CommitPlan, Next, Enabled, Apply;
    if j == 0 {
      t := s;
      CommitStarts(L, s);
      assert run + Times(CommitWrite, 0) == run;
    } else {
      t := CommitsReach(L, base, run, s, j - 1, k);
      CommitGoesOn(L, s, t, j - 1);
      Extend(L, base, run + Times(CommitWrite, j - 1), t, CommitWrite, k);
      t := Next(L, t, CommitWrite);
      assert run + Times(CommitWrite, j - 1) + [CommitWrite] == run + Times(CommitWrite, j);
    }
  }

  /** As many log writes as the log has blocks, header included: the last one hits the block behind
      the log. */
  lemma {:induction false} Overrun(L: Layout, pre: Disk, bs: seq<int>, v: Block)
    requires L.Valid() && |pre| == L.blocks && L.start + L.size < L.blocks && DecodeHeader(pre[L.start]) == []
    requires |bs| == L.size < WORDS && forall i :: 0 <= i < |bs| ==> 0 <= bs[i]
    ensures var cw := CommitWrites(L, pre[L.start], bs, seq(L.size, _ => v));
            |cw| >= L.size && Apply(pre, cw[..L.size])[L.start + L.size] == v
            && Apply(pre, cw[..L.size])[L.start] == pre[L.start]
  {
    var vs: seq<Block> := seq(L.size, _ => v);
    CommitParts(L, pre[L.start], bs, vs);
    var ws := LogWrites(L, vs);
    assert ws[..L.size] == ws;
    LogWritesAt(L, pre, vs, L.size, L.size - 1);
    LastToNone(ws, L.start);
    ApplyAt(pre, ws, L.start);
  }

  /** With such a disk nothing is durable yet, but recovery does not give the old disk. */
  lemma {:induction false} OverrunLosesBlock(L: Layout, base: Disk, s: State, v: Block)
    requires L.Valid() && |base| == |s.disk| == L.blocks && L.start + L.size < L.blocks && s.durable == 0
    requires DecodeHeader(s.disk[L.start]) == [] && s.disk[L.start + L.size] == v != base[L.start + L.size]
    ensures !IsDurable(L, base, s)
  {
    ClearedRecovery(L, s.disk);
    assert s.history[..0] == [];
    assert L.IsHome(L.start + L.size);
    hide Recover, DiskOK;
  }

  /** Ten, or as many as fit, blocks from each of three operations, two of which passed the test
      together, and the commit overwrites a block it was never told to write. */
  lemma {:induction false} SmallLogLosesBlock(L: Layout, base: Disk) returns (run: seq<Action>, s: State)
    requires L.Valid() && |base| == L.blocks && DecodeHeader(base[L.start]) == []
    requires 2 <= L.size <= LOGSIZE && L.blocks >= L.size + LOGSIZE && L.start + L.size < L.blocks
    ensures Reaches(L, base, run, s, MAXOPBLOCKS) && !IsDurable(L, base, s)
  {
    hide Reaches, CommitWrites, DecodeHeader, Apply, IsDurable, Next, Enabled;
    var x := L.start + L.size;
    var v: Block := base[x][0 := base[x][0] + 1];
    assert v[0] != base[x][0];
    var u, t := SqueezeReaches(L, base, L.size - 2, v, MAXOPBLOCKS);
    run := SqueezeRun(L, L.size - 2, v);
    hide SqueezeRun;
    var c := AllEnd(L, base, run, L.size, v, t, MAXOPBLOCKS);
    run := run + [EndOp(0)] + [EndOp(1)] + [EndOp(2)];
    Overrun(L, t.disk, c.header, v);
    assert CommitOK(L, c);
    s := CommitsReach(L, base, run, c, L.size, MAXOPBLOCKS);
    run := run + Times(CommitWrite, L.size);
    OverrunLosesBlock(L, base, s, v);
  }

  /** "At every point of every run of budgeted operations, with crashes anywhere, recovery restores
      exactly the durable prefix" holds exactly when the log is larger than LOGSIZE, or has no room
      for anything. mkfs makes it equal to LOGSIZE. */
  lemma {:induction false} DurableIffLogLarger(L: Layout, base: Disk)
    requires L.Valid() && |base| == L.blocks && DecodeHeader(base[L.start]) == []
    requires L.blocks >= L.size + LOGSIZE && L.start + L.size < L.blocks
    ensures L.size > LOGSIZE || L.size == 1 <==>
      forall run, s :: Reaches(L, base, run, s, MAXOPBLOCKS) ==> IsDurable(L, base, s)
  {
    if L.size > LOGSIZE || L.size == 1 {
      forall run, s | Reaches(L, base, run, s, MAXOPBLOCKS)
        ensures IsDurable(L, base, s)
      {
        if L.size == 1 {
          NothingAppended(L, base, run, s);
        } else {
          BudgetedIsRoomy(L, base, run, s);
        }
        DurableStateIsWholeOperations(L, base, run, s);
      }
    } else {
      var run, s := SmallLogLosesBlock(L, base);
    }
  }
}
