/** One device over whole runs: local SQL, flushes, remote batches and restarts in any order. */
module Runs {
  import opened Bytes
  import opened HybridLogicalClock
  import opened Change
  import opened Replicas
  import opened Projection
  import opened Flushes
  import opened Index
  import opened Authoring
  import opened PendingEdits
  import opened Settling

  // ----------------------------------------------------------------- restart

  /** Adoption stages exactly the rows found, each as an upsert whatever was staged for it before. */
  lemma {:induction false} AdoptStages(ops: seq<StagedOp>, found: seq<RowKey>, n: nat)
    requires n <= |found|
    ensures forall k :: Staged(ops + Adopt(found, n), k) <==> Staged(ops, k) || k in found[..n]
    ensures forall k :: Staged(ops + Adopt(found, n), k) ==>
              FinalOps(ops + Adopt(found, n))[k] == if k in found[..n] then Upsert else FinalOps(ops)[k]
  {
    hide FinalOps, Staged;
    if n == 0 {
      assert ops + Adopt(found, 0) == ops;
    } else {
      AdoptStages(ops, found, n - 1);
      StageOne(ops + Adopt(found, n - 1), StagedOp(found[n - 1], Upsert));
      assert ops + Adopt(found, n) == ops + Adopt(found, n - 1) + [StagedOp(found[n - 1], Upsert)];
      assert found[..n] == found[..n - 1] + [found[n - 1]];
    }
  }

  /** What a restart changes: the queue gains the rows found, as upserts, and the clock is the greatest stamp that
      the device authored, or zero if there is none. All else is as on disk. */
  lemma ReopenIsExact(st: Replica, found: seq<RowKey>)
    ensures var st' := Reopen(st, found);
            && st' == st.(clock := st'.clock, ops := st'.ops)
            && (forall k :: Staged(st'.ops, k) <==> Staged(st.ops, k) || k in found)
            && (forall k :: k in found ==> FinalOps(st'.ops)[k] == Upsert)
            && (forall k :: Staged(st.ops, k) && k !in found ==> FinalOps(st'.ops)[k] == FinalOps(st.ops)[k])
            && (forall r :: r in st.log && r.origin == st.id ==> Leq(r.hlc, st'.clock))
            && (if forall r :: r in st.log ==> r.origin != st.id then st'.clock == ZERO
                else exists r :: r in st.log && r.origin == st.id && r.hlc == st'.clock)
  {
    OwnMaximumIsMaximum(st.log, st.id);
    AdoptStages(st.ops, found, |found|);
    assert found[..|found|] == found;
    hide FinalOps, Staged, Adopt, OwnMaximum;
  }

  /** The projection holds but for rows that a scan found: they may predate replication. */
  ghost predicate ProjectsBut(st: Replica, found: seq<RowKey>) {
    && !st.guard && SpecsOk(st) && ShapesOk(st) && QueueOk(st)
    && (forall k :: !Staged(st.ops, k) && k !in found ==> RowOk(st, k))
  }

  lemma ClockIsNotProjected(st: Replica, clock: Hlc)
    requires Projects(st)
    ensures Projects(st.(clock := clock))
  {
    forall k | !Staged(st.ops, k)
      ensures RowOk(st.(clock := clock), k)
    {
      assert RowOk(st, k);
      if k.tbl in st.specs {
        SameRowSameProjection(st, st.(clock := clock), k);
      }
    }
  }

  /** Restarting and registering the tables again makes the projection exact, also when rows are found that
      predate replication and that nobody has staged: adoption stages them. */
  lemma AdoptionProjects(st: Replica, found: seq<RowKey>)
    requires ProjectsBut(st, found) && AdoptionScan(st, found)
    ensures Projects(Reopen(st, found))
  {
    ReopenIsExact(st, found);
    hide Reopen, FinalOps, Staged;
    var st' := Reopen(st, found);
    forall k | !Staged(st'.ops, k)
      ensures RowOk(st', k)
    {
      assert RowOk(st, k);
      if k.tbl in st.specs {
        SameRowSameProjection(st, st', k);
      }
    }
  }

  lemma ReopenKeepsProjection(st: Replica, found: seq<RowKey>)
    requires Projects(st) && AdoptionScan(st, found)
    ensures Projects(Reopen(st, found))
  {
    hide RowOk, Reopen, FinalOps, Staged, AdoptionScan;
    AdoptionProjects(st, found);
  }

  /** A row that predates replication is announced, column by column, by the first flush after the restart that
      finds it. */
  lemma AdoptedRowIsAnnounced(st: Replica, found: seq<RowKey>, now: Clockwork, sign: ChangeRecord -> Text, k: RowKey,
                              c: Text)
    requires ProjectsBut(st, found) && AdoptionScan(st, found)
    requires k in st.rows && k.tbl in st.specs && c in st.specs[k.tbl].cols
    requires forall key :: key in st.cells ==> key.row != k
    ensures exists r :: r in FlushLocal(Reopen(st, found), now, sign).out && CellEmission(st, k, st.rows[k], c, r)
  {
    ReopenIsExact(st, found);
    assert k in found && st.rows[k].Keys == ColSet(st.specs[k.tbl]);
    hide Reopen, FinalOps, Staged, FlushLocal, RowOk, AdoptionScan;
    var st' := Reopen(st, found);
    assert CellKey(k, c).row == k;
    assert DueCell(st', k, st'.rows[k], c);
    hide DueCell;
    DueColumnIsAnnounced(st', now, sign, k, c);
  }

  // --------------------------------------------------------------- device runs

  /** Records authored by `id`, in log order. */
  function OwnRecords(log: seq<ChangeRecord>, id: Text): seq<ChangeRecord> {
    if log == [] then []
    else
      var init := OwnRecords(log[..|log| - 1], id);
      if log[|log| - 1].origin == id then init + [log[|log| - 1]] else init
  }

  lemma {:induction false} OwnRecordsConcat(a: seq<ChangeRecord>, b: seq<ChangeRecord>, id: Text)
    ensures OwnRecords(a + b, id) == OwnRecords(a, id) + OwnRecords(b, id)
  {
    if b == [] {
      assert a + b == a;
    } else {
      assert (a + b)[..|a + b| - 1] == a + b[..|b| - 1];
      OwnRecordsConcat(a, b[..|b| - 1], id);
    }
  }

  lemma {:induction false} AllOwn(s: seq<ChangeRecord>, id: Text)
    ensures (forall r :: r in s ==> r.origin == id) ==> OwnRecords(s, id) == s
    ensures (forall r :: r in s ==> r.origin != id) ==> OwnRecords(s, id) == []
  {
    if s != [] {
      AllOwn(s[..|s| - 1], id);
      assert s == s[..|s| - 1] + [s[|s| - 1]];
    }
  }

  datatype Step =
    | Sql(write: SqlWrite)
    | Flush(now: Clockwork)
    | Remote(batch: seq<ChangeRecord>, now: Clockwork)
    | RolledBack(ticks: seq<ClockEvent>)    // a flush or apply that failed after moving the clock
    | Restart(found: seq<RowKey>)

  /** The environment of a device: its signing key and its check of other authors. */
  datatype Keys = Keys(sign: ChangeRecord -> Text, valid: ChangeRecord -> bool)

  function Take1(st: Replica, s: Step, keys: Keys): Flushing {
    match s
    case Sql(w) => Flushing(Execute(st, w), [])
    case Flush(now) => FlushLocal(st, now, keys.sign)
    case Remote(batch, now) => Flushing(ApplyRemote(st, batch, now, keys.valid), [])
    case RolledBack(ticks) => Flushing(st.(clock := RunClock(st.clock, ticks)), [])
    case Restart(found) => Flushing(Reopen(st, found), [])
  }

  /** A batch brings no record of the device's own that it has lost. */
  ghost predicate NoLostOwn(st: Replica, batch: seq<ChangeRecord>) {
    forall r :: r in batch && r.origin == st.id ==> Held(st.log, StampOf(r))
  }

  /** The conditions under which the code keeps its promises, step by step. */
  ghost predicate Allowed(st: Replica, s: Step, keys: Keys) {
    match s
    case Sql(w) => WellShaped(st, w)
    case Flush(now) => FreshTicks(st, now, FlushCount(st)) && AllSettle(st, now)
    case Remote(batch, now) => RespectsPending(st, batch, keys.valid) && NoLostOwn(st, batch)
    case RolledBack(ticks) => true
    case Restart(found) => AdoptionScan(st, found)
  }

  /** Tables are projections, indexes are exact, and own stamps are ordered below the clock. */
  ghost predicate Healthy(st: Replica) {
    Projects(st) && Indexed(st) && OwnOrdered(st) && ClockOwn(st)
  }

  /** `p` has everything of `st`, a clock no earlier, and only other devices' records besides. */
  ghost predicate OnlyOthers(st: Replica, p: Replica) {
    && p.id == st.id && Leq(st.clock, p.clock) && st.log <= p.log
    && (forall i :: |st.log| <= i < |p.log| ==> p.log[i].origin != st.id)
  }

  lemma {:induction false} ReceiveKeepsOwn(st: Replica, recs: seq<ChangeRecord>, n: nat, now: Clockwork)
    requires n <= |recs| && forall r :: r in recs && r.origin == st.id ==> Held(st.log, StampOf(r))
    ensures OnlyOthers(st, ReceiveAll(st, recs, n, now))
  {
    hide Receive, OnlyOthers, Held;
    if n == 0 {
      NothingNew(st);
    } else {
      ReceiveKeepsOwn(st, recs, n - 1, now);
      var p := ReceiveAll(st, recs, n - 1, now);
      ReceiveOther(st, p, recs[n - 1], now(|p.log| - |st.log|));
    }
  }

  lemma NothingNew(st: Replica)
    ensures OnlyOthers(st, st)
  {
  }

  lemma ReceiveOther(st: Replica, p: Replica, rec: ChangeRecord, phys: U64)
    requires OnlyOthers(st, p) && (rec.origin == st.id ==> Held(st.log, StampOf(rec)))
    ensures OnlyOthers(st, Receive(p, rec, phys))
  {
    if rec.origin == st.id {
      var r :| r in st.log && StampOf(r) == StampOf(rec);
      assert r in p.log;
    }
    if !Held(p.log, StampOf(rec)) {
      ObserveNeverBehind(p.clock, phys, rec.hlc);
      ReceivedLog(p, rec, phys);
    }
  }

  lemma ReceivedLog(p: Replica, rec: ChangeRecord, phys: U64)
    requires !Held(p.log, StampOf(rec))
    ensures Receive(p, rec, phys).log == p.log + [rec] &&
            Receive(p, rec, phys).clock == Observed(p.clock, phys, rec.hlc)
  {
  }

  lemma OthersKeepOwn(st: Replica, st': Replica)
    requires OwnOrdered(st) && ClockOwn(st) && OnlyOthers(st, st')
    ensures OwnOrdered(st') && ClockOwn(st')
    ensures OwnRecords(st'.log, st.id) == OwnRecords(st.log, st.id)
  {
    var tail := st'.log[|st.log|..];
    assert st'.log == st.log + tail;
    AllOwn(tail, st.id);
    OwnRecordsConcat(st.log, tail, st.id);
  }

  lemma RemoteKeepsOwn(st: Replica, batch: seq<ChangeRecord>, now: Clockwork, valid: ChangeRecord -> bool)
    requires OwnOrdered(st) && ClockOwn(st) && NoLostOwn(st, batch)
    ensures var st' := ApplyRemote(st, batch, now, valid);
            OwnOrdered(st') && ClockOwn(st') && OwnRecords(st'.log, st.id) == OwnRecords(st.log, st.id)
  {
    var acc := Accepted(batch, valid);
    if acc != [] {
      var sorted := SortByStamp(acc);
      SortSorts(acc);
      hide SortByStamp, Accepted, OwnOrdered, ClockOwn, MaterializeAll, DirtyRows, ReceiveAll;
      ReceiveKeepsOwn(st, sorted, |acc|, now);
      OthersKeepOwn(st, ApplyRemote(st, batch, now, valid));
    }
  }

  /** `p` is `st` after some of `recs`, which are sorted, came in: the new entries are among them, were not held,
      and ascend. */
  ghost predicate Ascended(st: Replica, p: Replica, recs: seq<ChangeRecord>) {
    && st.log <= p.log && p.id == st.id
    && (forall i :: |st.log| <= i < |p.log| ==> p.log[i] in recs && !Held(st.log, StampOf(p.log[i])))
    && (forall i, j :: |st.log| <= i < j < |p.log| ==> StampLt(StampOf(p.log[i]), StampOf(p.log[j])))
    && (forall r :: r in recs ==> Held(p.log, StampOf(r)))
  }

  lemma {:induction false} ReceiveAscends(st: Replica, recs: seq<ChangeRecord>, n: nat, now: Clockwork)
    requires n <= |recs| && Sorted(recs)
    ensures Ascended(st, ReceiveAll(st, recs, n, now), recs[..n])
  {
    hide Receive, Ascended;
    if n == 0 {
      NothingAscended(st, recs[..0]);
    } else {
      ReceiveAscends(st, recs, n - 1, now);
      var p := ReceiveAll(st, recs, n - 1, now);
      assert recs[..n] == recs[..n - 1] + [recs[n - 1]];
      AscendStep(st, p, recs[..n - 1], recs[n - 1], now(|p.log| - |st.log|));
    }
  }

  lemma NothingAscended(st: Replica, recs: seq<ChangeRecord>)
    requires recs == []
    ensures Ascended(st, st, recs)
  {
  }

  lemma AscendStep(st: Replica, p: Replica, recs: seq<ChangeRecord>, rec: ChangeRecord, phys: U64)
    requires Ascended(st, p, recs) && forall r :: r in recs ==> StampLe(StampOf(r), StampOf(rec))
    ensures Ascended(st, Receive(p, rec, phys), recs + [rec])
  {
    if !Held(p.log, StampOf(rec)) {
      ReceivedLog(p, rec, phys);
      HeldConcat(p.log, [rec], StampOf(rec));
      HeldPrefix(st.log, p.log, StampOf(rec));
      hide Receive, StampLt;
      var p' := Receive(p, rec, phys);
      forall i | |st.log| <= i < |p.log|
        ensures StampLt(StampOf(p.log[i]), StampOf(rec))
      {
        assert StampOf(p.log[i]) != StampOf(rec);
      }
      forall r | r in recs + [rec]
        ensures Held(p'.log, StampOf(r))
      {
        HeldConcat(p.log, [rec], StampOf(r));
        assert [rec][0] == rec;
      }
    }
  }

  lemma HeldPrefix(a: seq<ChangeRecord>, b: seq<ChangeRecord>, s: Stamp)
    requires a <= b
    ensures Held(a, s) ==> Held(b, s)
  {
    if r :| r in a && StampOf(r) == s {
      assert r in b;
    }
  }

  /** Every record of the device's own among these that it has lost is later than every one it still holds. */
  ghost predicate LostOwnIsLater(st: Replica, acc: seq<ChangeRecord>) {
    forall r, x :: r in acc && x in st.log && r.origin == st.id == x.origin && !Held(st.log, StampOf(r)) ==>
      Less(x.hlc, r.hlc)
  }

  /** A batch with records of the device's own that it has lost, as after a restore from an older file, leaves the
      own records in stamp order exactly when each of them is later than every own record still held. */
  lemma RestoredOrderIff(st: Replica, batch: seq<ChangeRecord>, now: Clockwork, valid: ChangeRecord -> bool)
    requires OwnOrdered(st)
    ensures OwnOrdered(ApplyRemote(st, batch, now, valid)) <==> LostOwnIsLater(st, Accepted(batch, valid))
  {
    ApplyAscends(st, batch, now, valid);
    hide OwnOrdered, LostOwnIsLater, Ascended, ApplyRemote;
    if Accepted(batch, valid) == [] {
      NothingLost(st, Accepted(batch, valid));
    } else {
      AscendedOrderIff(st, ApplyRemote(st, batch, now, valid), Accepted(batch, valid));
    }
  }

  lemma NothingLost(st: Replica, acc: seq<ChangeRecord>)
    requires acc == []
    ensures LostOwnIsLater(st, acc)
  {
  }

  lemma ApplyAscends(st: Replica, batch: seq<ChangeRecord>, now: Clockwork, valid: ChangeRecord -> bool)
    ensures var acc, st' := Accepted(batch, valid), ApplyRemote(st, batch, now, valid);
            if acc == [] then st' == st else Ascended(st, st', acc)
  {
    var acc := Accepted(batch, valid);
    if acc != [] {
      var sorted := SortByStamp(acc);
      SortSorts(acc);
      assert sorted[..|acc|] == sorted;
      hide Accepted, SortByStamp, Ascended, MaterializeAll, DirtyRows, ReceiveAll, Sorted;
      ReceiveAscends(st, sorted, |acc|, now);
      AscendedSame(st, ReceiveAll(st, sorted, |acc|, now), ApplyRemote(st, batch, now, valid), sorted, acc);
    }
  }

  lemma AscendedSame(st: Replica, p: Replica, p': Replica, recs: seq<ChangeRecord>, acc: seq<ChangeRecord>)
    requires Ascended(st, p, recs) && p'.log == p.log && p'.id == p.id && forall r :: r in recs <==> r in acc
    ensures Ascended(st, p', acc)
  {
    hide Held, StampLt;
  }

  lemma AscendedOrderIff(st: Replica, st': Replica, acc: seq<ChangeRecord>)
    requires OwnOrdered(st) && Ascended(st, st', acc)
    ensures OwnOrdered(st') <==> LostOwnIsLater(st, acc)
  {
    if OwnOrdered(st') {
      forall r, x | r in acc && r.origin == st.id && !Held(st.log, StampOf(r)) && x in st.log && x.origin == st.id
        ensures Less(x.hlc, r.hlc)
      {
        var y :| y in st'.log && StampOf(y) == StampOf(r);
        var i :| 0 <= i < |st.log| && st.log[i] == x;
        var j :| 0 <= j < |st'.log| && st'.log[j] == y;
        assert j >= |st.log|;
      }
    }
    if LostOwnIsLater(st, acc) {
      hide Held;
      forall i, j | 0 <= i < j < |st'.log| && st'.log[i].origin == st.id == st'.log[j].origin
        ensures Less(st'.log[i].hlc, st'.log[j].hlc)
      {
        if i < |st.log| {
          assert st'.log[i] == st.log[i] && st.log[i] in st.log;
          assert j < |st.log| ==> st'.log[j] == st.log[j];
        } else {
          LtIrreflexive(st.id);
          assert StampLt(StampOf(st'.log[i]), StampOf(st'.log[j]));
        }
      }
    }
  }

  lemma FlushKeepsHealthy(st: Replica, now: Clockwork, keys: Keys)
    requires Healthy(st) && Allowed(st, Flush(now), keys)
    ensures var f := FlushLocal(st, now, keys.sign);
            Healthy(f.st) && OwnRecords(f.st.log, st.id) == OwnRecords(st.log, st.id) + f.out
  {
    assert SpecsOk(st);
    hide Projects, Indexed, OwnOrdered, ClockOwn, FlushLocal, AllSettle, FreshTicks, FlushCount, SpecsOk;
    FlushSettlesIff(st, now, keys.sign);
    FlushAuthorsFreshIff(st, now, keys.sign);
    var f := FlushLocal(st, now, keys.sign);
    AllOwn(f.out, st.id);
    OwnRecordsConcat(st.log, f.out, st.id);
  }

  lemma {:induction false} RunClockNeverBack(start: Hlc, es: seq<ClockEvent>)
    ensures Leq(start, RunClock(start, es))
  {
    ClockNeverGoesBack(start, es, 0);
    assert es[..0] == [];
  }

  lemma RemoteKeepsHealthy(st: Replica, batch: seq<ChangeRecord>, now: Clockwork, valid: ChangeRecord -> bool)
    requires Healthy(st) && RespectsPending(st, batch, valid) && NoLostOwn(st, batch)
    ensures var st' := ApplyRemote(st, batch, now, valid);
            Healthy(st') && st'.id == st.id && OwnRecords(st'.log, st.id) == OwnRecords(st.log, st.id)
  {
    assert ApplyRemote(st, batch, now, valid).id == st.id;
    hide ApplyRemote, Projects, Indexed, OwnOrdered, ClockOwn, RespectsPending;
    RespectfulBatchProjects(st, batch, now, valid);
    ApplyKeepsIndex(st, batch, now, valid);
    RemoteKeepsOwn(st, batch, now, valid);
  }

  lemma SqlFrame(st: Replica, w: SqlWrite)
    ensures Execute(st, w) == st.(rows := Execute(st, w).rows, ops := Execute(st, w).ops)
  {
    hide Capture;
  }

  lemma SqlKeepsHealthy(st: Replica, w: SqlWrite)
    requires Healthy(st) && WellShaped(st, w)
    ensures Healthy(Execute(st, w))
    ensures Execute(st, w).id == st.id && Execute(st, w).log == st.log
  {
    hide Projects, Execute;
    ExecuteKeepsProjection(st, w);
    SqlFrame(st, w);
  }

  lemma RollbackKeepsHealthy(st: Replica, ticks: seq<ClockEvent>)
    requires Healthy(st)
    ensures Healthy(st.(clock := RunClock(st.clock, ticks)))
  {
    hide Projects;
    RunClockNeverBack(st.clock, ticks);
    ClockIsNotProjected(st, RunClock(st.clock, ticks));
  }

  lemma RestartKeepsHealthy(st: Replica, found: seq<RowKey>)
    requires Healthy(st) && AdoptionScan(st, found)
    ensures Healthy(Reopen(st, found))
  {
    hide Projects, Indexed, OwnOrdered, ClockOwn, Reopen, AdoptionScan;
    ReopenKeepsProjection(st, found);
    ReopenKeepsOwnOrder(st, found);
  }

  lemma StepKeepsHealthy(st: Replica, s: Step, keys: Keys)
    requires Healthy(st) && Allowed(st, s, keys)
    ensures var f := Take1(st, s, keys);
            && Healthy(f.st) && f.st.id == st.id
            && OwnRecords(f.st.log, st.id) == OwnRecords(st.log, st.id) + f.out
  {
    hide Healthy, Execute, FlushLocal, ApplyRemote, RunClock, OwnRecords;
    hide RespectsPending, NoLostOwn, AdoptionScan, AllSettle, FreshTicks, FlushCount;
    match s
    case Sql(w) =>
      SqlKeepsHealthy(st, w);
    case Flush(now) =>
      FlushKeepsHealthy(st, now, keys);
      FlushKeepsSchema(st, now, keys.sign);
    case Remote(batch, now) =>
      RemoteKeepsHealthy(st, batch, now, keys.valid);
    case RolledBack(ticks) =>
      RollbackKeepsHealthy(st, ticks);
    case Restart(found) =>
      RestartKeepsHealthy(st, found);
  }

  lemma FlushKeepsSchema(st: Replica, now: Clockwork, sign: ChangeRecord -> Text)
    ensures var f := FlushLocal(st, now, sign); f.st.id == st.id && f.st.specs == st.specs
  {
    var order := FirstSeen(st.ops);
    FlushRowsFrame(Flushing(st, []), order, |order|, FinalOps(st.ops), now, sign, RowKey([], []));
  }

  /** A run: the state after `n` steps, and everything authored on the way. */
  function RunSteps(st: Replica, steps: seq<Step>, n: nat, keys: Keys): Flushing
    requires n <= |steps|
  {
    if n == 0 then Flushing(st, [])
    else
      var g := RunSteps(st, steps, n - 1, keys);
      var h := Take1(g.st, steps[n - 1], keys);
      Flushing(h.st, g.out + h.out)
  }

  ghost predicate AllowedRun(st: Replica, steps: seq<Step>, n: nat, keys: Keys)
    requires n <= |steps|
  {
    n == 0 || (AllowedRun(st, steps, n - 1, keys) && Allowed(RunSteps(st, steps, n - 1, keys).st, steps[n - 1], keys))
  }

  /** Over every run: the app tables stay projections of the CRDT state, the indexes stay exact,
      and the device's log gains exactly what its flushes returned, in strictly increasing stamp
      order, through backward clocks, observed peers, failed transactions and restarts. */
  lemma {:induction false} RunStaysHealthy(st: Replica, steps: seq<Step>, n: nat, keys: Keys)
    requires n <= |steps| && Healthy(st) && AllowedRun(st, steps, n, keys)
    ensures var f := RunSteps(st, steps, n, keys);
            && Healthy(f.st) && f.st.id == st.id
            && OwnRecords(f.st.log, st.id) == OwnRecords(st.log, st.id) + f.out
  {
    hide Healthy, Allowed, Take1, OwnRecords;
    if n > 0 {
      RunStaysHealthy(st, steps, n - 1, keys);
      StepKeepsHealthy(RunSteps(st, steps, n - 1, keys).st, steps[n - 1], keys);
    }
  }

  /** Own records increase strictly in stamp, so no stamp is ever authored twice. */
  lemma {:induction false} OwnRecordsIncrease(log: seq<ChangeRecord>, id: Text)
    requires forall i, j :: 0 <= i < j < |log| && log[i].origin == id == log[j].origin ==> Less(log[i].hlc, log[j].hlc)
    ensures var own := OwnRecords(log, id);
            && (forall r :: r in own <==> r in log && r.origin == id)
            && (forall i, j :: 0 <= i < j < |own| ==> Less(own[i].hlc, own[j].hlc))
  {
    if log != [] {
      var init, last := log[..|log| - 1], log[|log| - 1];
      assert log == init + [last];
      OwnRecordsIncrease(init, id);
      var prev, own := OwnRecords(init, id), OwnRecords(log, id);
      forall i, j | 0 <= i < j < |own|
        ensures Less(own[i].hlc, own[j].hlc)
      {
        if j == |prev| {
          assert own[i] == prev[i] && prev[i] in prev;
          var x :| 0 <= x < |init| && init[x] == prev[i];
          assert log[x] == prev[i] && log[|log| - 1] == own[j];
        }
      }
    }
  }

  // ------------------------------------------------- what the clock has seen

  /** The stamps of `recs` observed one after another. */
  function Observations(recs: seq<ChangeRecord>, now: Clockwork): (es: seq<ClockEvent>)
    ensures |es| == |recs|
  {
    seq(|recs|, i requires 0 <= i < |recs| => ObserveAt(recs[i].hlc, now(i)))
  }

  lemma ObserveOneMore(start: Hlc, recs: seq<ChangeRecord>, rec: ChangeRecord, now: Clockwork)
    ensures RunClock(start, Observations(recs + [rec], now)) ==
            Observed(RunClock(start, Observations(recs, now)), now(|recs|), rec.hlc)
  {
    var es := Observations(recs + [rec], now);
    assert es[..|es| - 1] == Observations(recs, now);
  }

  lemma {:induction false} ReceiveObserves(st: Replica, recs: seq<ChangeRecord>, n: nat, now: Clockwork)
    requires n <= |recs|
    ensures var p := ReceiveAll(st, recs, n, now);
            st.log <= p.log && p.clock == RunClock(st.clock, Observations(Fresh(st, p), now))
  {
    hide Held, Observed, RunClock, Observations;
    if n == 0 {
      NothingObserved(st, now);
    } else {
      ReceiveObserves(st, recs, n - 1, now);
      var p, rec := ReceiveAll(st, recs, n - 1, now), recs[n - 1];
      if !Held(p.log, StampOf(rec)) {
        ReceivedLog(p, rec, now(|p.log| - |st.log|));
        var q := Receive(p, rec, now(|p.log| - |st.log|));
        hide Receive;
        assert Fresh(st, q) == Fresh(st, p) + [rec];
        ObserveOneMore(st.clock, Fresh(st, p), rec, now);
      }
    }
  }

  lemma NothingObserved(st: Replica, now: Clockwork)
    ensures Fresh(st, st) == [] && RunClock(st.clock, Observations([], now)) == st.clock
  {
  }

  /** A batch moves the clock by observing the stamps of the records it adds, in the order they are added, and by
      nothing else. */
  lemma ApplyObserves(st: Replica, batch: seq<ChangeRecord>, now: Clockwork, valid: ChangeRecord -> bool)
    ensures var st' := ApplyRemote(st, batch, now, valid);
            st.log <= st'.log && st'.clock == RunClock(st.clock, Observations(Fresh(st, st'), now))
  {
    var acc := Accepted(batch, valid);
    hide Accepted, SortByStamp, ReceiveAll, RunClock, Observations, MaterializeAll, DirtyRows;
    if acc == [] {
      NothingObserved(st, now);
    } else {
      ReceiveObserves(st, SortByStamp(acc), |acc|, now);
      assert Fresh(st, ApplyRemote(st, batch, now, valid)) == Fresh(st, ReceiveAll(st, SortByStamp(acc), |acc|, now));
    }
  }

  /** Each record added with a stamp inside the drift window is at or below the clock afterwards. */
  lemma AppliedIsAbsorbed(st: Replica, batch: seq<ChangeRecord>, now: Clockwork, valid: ChangeRecord -> bool, i: nat)
    requires |st.log| <= |ApplyRemote(st, batch, now, valid).log|
    requires i < |Fresh(st, ApplyRemote(st, batch, now, valid))|
    requires InWindow(Fresh(st, ApplyRemote(st, batch, now, valid))[i].hlc, now(i))
    ensures var st' := ApplyRemote(st, batch, now, valid); Leq(Fresh(st, st')[i].hlc, st'.clock)
  {
    ApplyObserves(st, batch, now, valid);
    hide ApplyRemote, Observed;
    var recs := Fresh(st, ApplyRemote(st, batch, now, valid));
    var es := Observations(recs, now);
    ClockNeverGoesBack(st.clock, es, i + 1);
    assert es[..i + 1][..i] == es[..i] && es[..i + 1][i] == es[i] == ObserveAt(recs[i].hlc, now(i));
    ObserveNeverBehind(RunClock(st.clock, es[..i]), now(i), recs[i].hlc);
  }

  /** No step but a restart turns the clock back. */
  lemma StepKeepsClock(st: Replica, s: Step, keys: Keys)
    requires Indexed(st) && !s.Restart?
    ensures Leq(st.clock, Take1(st, s, keys).st.clock)
  {
    match s
    case Sql(w) =>
      SqlFrame(st, w);
      hide Execute, Indexed;
    case Flush(now) =>
      FlushEmitted(st, now, keys.sign);
      hide FlushLocal, Indexed, OutFresh, OnTicks;
      TicksNeverBack(st.clock, now, 0, |FlushLocal(st, now, keys.sign).out|);
    case Remote(batch, now) =>
      ApplyObserves(st, batch, now, keys.valid);
      hide ApplyRemote, Indexed, Observations, RunClock;
      RunClockNeverBack(st.clock, Observations(Fresh(st, ApplyRemote(st, batch, now, keys.valid)), now));
    case RolledBack(ticks) =>
      RunClockNeverBack(st.clock, ticks);
  }

  lemma {:induction false} RunKeepsClock(st: Replica, steps: seq<Step>, m: nat, n: nat, keys: Keys)
    requires m <= n <= |steps| && Healthy(st) && AllowedRun(st, steps, n, keys)
    requires forall i :: m <= i < n ==> !steps[i].Restart?
    ensures Leq(RunSteps(st, steps, m, keys).st.clock, RunSteps(st, steps, n, keys).st.clock)
  {
    hide Allowed, Take1, Projects, Indexed, OwnOrdered, ClockOwn;
    if m < n {
      RunKeepsClock(st, steps, m, n - 1, keys);
      RunStaysHealthy(st, steps, n - 1, keys);
      StepKeepsClock(RunSteps(st, steps, n - 1, keys).st, steps[n - 1], keys);
    }
  }

  /** The promise of `observe`, kept over runs: until the device restarts, everything that it authors is stamped
      after every record it received inside the drift window, as long as the ticks of the flush move on. */
  lemma EditsFollowWhatWasReceived(st: Replica, steps: seq<Step>, m: nat, n: nat, keys: Keys, i: nat)
    requires m < n < |steps| && Healthy(st) && AllowedRun(st, steps, n, keys)
    requires steps[m].Remote? && steps[n].Flush? && forall j :: m < j < n ==> !steps[j].Restart?
    requires var p, q := RunSteps(st, steps, m, keys).st, RunSteps(st, steps, m + 1, keys).st;
             |p.log| <= |q.log| && i < |Fresh(p, q)| && InWindow(Fresh(p, q)[i].hlc, steps[m].now(i))
    requires var late := RunSteps(st, steps, n, keys).st; Rising(late.clock, steps[n].now, 0, FlushCount(late))
    ensures var p, q := RunSteps(st, steps, m, keys).st, RunSteps(st, steps, m + 1, keys).st;
            forall e :: e in Take1(RunSteps(st, steps, n, keys).st, steps[n], keys).out ==>
              Less(Fresh(p, q)[i].hlc, e.hlc)
  {
    var p, late := RunSteps(st, steps, m, keys).st, RunSteps(st, steps, n, keys).st;
    RemoteStep(st, steps, m, keys);
    FlushTaken(late, steps[n], keys);
    hide *;
    AppliedIsAbsorbed(p, steps[m].batch, steps[m].now, keys.valid, i);
    RunKeepsClock(st, steps, m + 1, n, keys);
    RunStaysHealthy(st, steps, n, keys);
    FlushPasses(late, steps[n].now, keys.sign);
    var q := RunSteps(st, steps, m + 1, keys).st;
    SeenIsPassed(Fresh(p, q)[i].hlc, q.clock, late.clock, Take1(late, steps[n], keys).out);
  }

  lemma SeenIsPassed(seen: Hlc, absorbed: Hlc, clock: Hlc, out: seq<ChangeRecord>)
    requires Leq(seen, absorbed) && Leq(absorbed, clock) && forall e :: e in out ==> Less(clock, e.hlc)
    ensures forall e :: e in out ==> Less(seen, e.hlc)
  {
  }

  lemma RemoteStep(st: Replica, steps: seq<Step>, m: nat, keys: Keys)
    requires m < |steps| && steps[m].Remote?
    ensures RunSteps(st, steps, m + 1, keys).st ==
            ApplyRemote(RunSteps(st, steps, m, keys).st, steps[m].batch, steps[m].now, keys.valid)
  {
    hide ApplyRemote;
  }

  lemma FlushTaken(st: Replica, s: Step, keys: Keys)
    requires s.Flush?
    ensures Take1(st, s, keys) == FlushLocal(st, s.now, keys.sign)
  {
    hide FlushLocal;
  }

  /** With every tick moving on, a flush stamps its records past the clock. */
  lemma FlushPasses(st: Replica, now: Clockwork, sign: ChangeRecord -> Text)
    requires Healthy(st) && Rising(st.clock, now, 0, FlushCount(st))
    ensures forall e :: e in FlushLocal(st, now, sign).out ==> Less(st.clock, e.hlc)
  {
    assert Indexed(st) && SpecsOk(st);
    hide Healthy, Indexed, FlushLocal, FlushCount, SpecsOk, TickNo, Moves;
    FlushEmitted(st, now, sign);
    FlushCountIsExact(st, now, sign);
    var out := FlushLocal(st, now, sign).out;
    forall e | e in out
      ensures Less(st.clock, e.hlc)
    {
      var j :| 0 <= j < |out| && out[j] == e;
      RisingPrefix(st.clock, now, 0, j + 1, |out|);
      FirstTicks(st.clock, now, j + 1);
    }
  }

  lemma FirstTicks(start: Hlc, now: Clockwork, n: nat)
    requires 0 < n && Rising(start, now, 0, n)
    ensures Less(start, TickNo(start, now, n))
  {
    TicksRise(start, now, 0, n);
  }

  /** Two devices with equal CRDT state, equal schemas and nothing pending show equal app tables. */
  lemma SameStateSameTables(a: Replica, b: Replica, k: RowKey)
    requires Projects(a) && Projects(b) && a.ops == [] && b.ops == []
    requires a.specs == b.specs && a.cells == b.cells && a.tombs == b.tombs && k.tbl in a.specs
    ensures Get(a.rows, k) == Get(b.rows, k)
  {
    assert RowOk(a, k) && RowOk(b, k);
    SameRowSameProjection(a, b, k);
  }
}
