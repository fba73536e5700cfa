/** The replica as the object of rust/p2p-core/src/db/mod.rs: methods that update its
    tables in place, each proved against the value functions of `Replicas`. */
module Database {
  import opened Bytes
  import opened HybridLogicalClock
  import opened Change
  import opened Replicas

  datatype ApplyOutcome = ApplyOutcome(applied: nat, duplicates: nat, deferred: nat, rejected: nat)

  // ---------------------------------------- batched form of the vector update

  /** The vector after bumping every entry of `m`. */
  function BumpAll(vv: VersionVector, m: VersionVector): VersionVector {
    map o | o in vv.Keys + m.Keys ::
      if o !in m then vv[o] else if o in vv && !Less(vv[o], m[o]) then vv[o] else m[o]
  }

  /** Collecting per-author maxima and bumping once equals bumping record by record. */
  lemma BumpAllStep(vv: VersionVector, m: VersionVector, origin: Text, hlc: Hlc)
    ensures BumpAll(vv, Bump(m, origin, hlc)) == Bump(BumpAll(vv, m), origin, hlc)
  {
    assert BumpAll(vv, Bump(m, origin, hlc)).Keys == Bump(BumpAll(vv, m), origin, hlc).Keys;
  }

  function MaxHlc(out: seq<ChangeRecord>): Hlc
    requires out != []
  {
    if |out| == 1 then out[0].hlc
    else
      var m := MaxHlc(out[..|out| - 1]);
      if Less(m, out[|out| - 1].hlc) then out[|out| - 1].hlc else m
  }

  function BumpOnce(vv: VersionVector, id: Text, out: seq<ChangeRecord>): VersionVector {
    if out == [] then vv else Bump(vv, id, MaxHlc(out))
  }

  lemma BumpOnceStep(vv: VersionVector, id: Text, out: seq<ChangeRecord>, rec: ChangeRecord)
    ensures BumpOnce(vv, id, out + [rec]) == Bump(BumpOnce(vv, id, out), id, rec.hlc)
  {
    var all := out + [rec];
    assert all[..|all| - 1] == out;
  }

  /** Records of a batch that fail only the authorship check. */
  function Rejected(batch: seq<ChangeRecord>, valid: ChangeRecord -> bool): nat {
    if batch == [] then 0
    else
      var last := batch[|batch| - 1];
      Rejected(batch[..|batch| - 1], valid) + if last.origin != [] && last.tbl != [] && !valid(last) then 1 else 0
  }

  /** Records of a batch that name no author or no table; they are skipped silently. */
  function Ignored(batch: seq<ChangeRecord>): nat {
    if batch == [] then 0
    else
      var last := batch[|batch| - 1];
      Ignored(batch[..|batch| - 1]) + if last.origin == [] || last.tbl == [] then 1 else 0
  }

  function Deferred(st: Replica, recs: seq<ChangeRecord>): (n: nat)
    ensures n <= |recs|
  {
    if recs == [] then 0
    else Deferred(st, recs[..|recs| - 1]) + if recs[|recs| - 1].tbl !in st.specs then 1 else 0
  }

  function Outcome(st: Replica, batch: seq<ChangeRecord>, now: Clockwork, valid: ChangeRecord -> bool): ApplyOutcome {
    var s1 := ApplyRemote(st, batch, now, valid);
    var acc := Accepted(batch, valid);
    var gained := Fresh(st, ReceiveAll(st, SortByStamp(acc), |acc|, now));
    ApplyOutcome(|gained|, |acc| - |gained|, Deferred(st, gained), Rejected(batch, valid))
  }

  /** Every record of a batch is accounted for exactly once. */
  lemma Accounting(st: Replica, batch: seq<ChangeRecord>, now: Clockwork, valid: ChangeRecord -> bool)
    ensures var o := Outcome(st, batch, now, valid);
            o.applied + o.duplicates + o.rejected + Ignored(batch) == |batch| && o.deferred <= o.applied
    ensures Outcome(st, batch, now, valid).applied == |ApplyRemote(st, batch, now, valid).log| - |st.log|
    ensures Outcome(st, batch, now, valid).rejected == Rejected(batch, valid)
  {
    BatchParts(batch, valid);
  }

  lemma {:induction false} BatchParts(batch: seq<ChangeRecord>, valid: ChangeRecord -> bool)
    ensures |Accepted(batch, valid)| + Rejected(batch, valid) + Ignored(batch) == |batch|
  {
    if batch != [] {
      BatchParts(batch[..|batch| - 1], valid);
    }
  }

  /** The number of positions whose record has the property. */
  function Count(s: seq<ChangeRecord>, p: ChangeRecord -> bool): nat {
    |set i | 0 <= i < |s| && p(s[i])|
  }

  function Refused(valid: ChangeRecord -> bool): ChangeRecord -> bool {
    (r: ChangeRecord) => r.origin != [] && r.tbl != [] && !valid(r)
  }

  function Nameless(): ChangeRecord -> bool {
    (r: ChangeRecord) => r.origin == [] || r.tbl == []
  }

  function Unregistered(st: Replica): ChangeRecord -> bool {
    (r: ChangeRecord) => r.tbl !in st.specs
  }

  lemma CountStep(s: seq<ChangeRecord>, p: ChangeRecord -> bool)
    requires s != []
    ensures Count(s, p) == Count(s[..|s| - 1], p) + if p(s[|s| - 1]) then 1 else 0
  {
    var init, n := s[..|s| - 1], |s| - 1;
    var all, before := set i | 0 <= i < |s| && p(s[i]), set i | 0 <= i < n && p(init[i]);
    forall i
      ensures i in all <==> i in before || (i == n && p(s[n]))
    {
    }
    assert all == if p(s[n]) then before + {n} else before;
  }

  /** Which records the counters count: refused are those that name an author and a table but do not verify, skipped
      those that lack one of the two, deferred those of tables that are not registered. */
  lemma {:induction false} CountersCount(st: Replica, batch: seq<ChangeRecord>, valid: ChangeRecord -> bool)
    ensures Rejected(batch, valid) == Count(batch, Refused(valid))
    ensures Ignored(batch) == Count(batch, Nameless())
    ensures Deferred(st, batch) == Count(batch, Unregistered(st))
  {
    if batch != [] {
      CountersCount(st, batch[..|batch| - 1], valid);
      CountStep(batch, Refused(valid));
      CountStep(batch, Nameless());
      CountStep(batch, Unregistered(st));
      hide Count;
    }
  }

  /** The counts of a batch: of the records that were refused, and of those added for tables not registered. */
  lemma OutcomeIsExact(st: Replica, batch: seq<ChangeRecord>, now: Clockwork, valid: ChangeRecord -> bool)
    ensures var o, st' := Outcome(st, batch, now, valid), ApplyRemote(st, batch, now, valid);
            && |st.log| <= |st'.log| && o.applied == |st'.log| - |st.log|
            && o.rejected == Count(batch, Refused(valid))
            && o.deferred == Count(Fresh(st, st'), Unregistered(st))
  {
    var acc, st' := Accepted(batch, valid), ApplyRemote(st, batch, now, valid);
    CountersCount(st, batch, valid);
    hide Count, SortByStamp, Accepted, Rejected, MaterializeAll, DirtyRows;
    CountersCount(st, Fresh(st, st'), valid);
    assert Fresh(st, st') == Fresh(st, ReceiveAll(st, SortByStamp(acc), |acc|, now));
  }

  // --------------------------------------------------------------- the object

  class Db {
    const id: Text
    const clock: HybridClock
    var specs: map<Text, TableSpec>
    var log: seq<ChangeRecord>
    var cells: map<CellKey, Cell>
    var tombs: map<RowKey, Stamp>
    var vv: VersionVector
    var ops: seq<StagedOp>
    var guard: bool
    var rows: map<RowKey, Row>
    var watermark: nat

    function View(): Replica
      reads this, clock
    {
      Replica(id, specs, log, cells, tombs, vv, ops, guard, rows, clock.last, watermark)
    }

    /** `from_connection` on the tables found on disk. */
    constructor FromConnection(disk: Replica, found: seq<RowKey>)
      ensures View() == Reopen(disk, found)
      ensures fresh(clock)
    {
      var own := OwnMaximum(disk.log, disk.id);
      id := disk.id;
      if own.Some? {
        clock := new HybridClock.ResumingFrom(own.value);
      } else {
        clock := new HybridClock();
      }
      specs, log, cells, tombs := disk.specs, disk.log, disk.cells, disk.tombs;
      vv, guard, rows, watermark := disk.vv, disk.guard, disk.rows, disk.watermark;
      ops := disk.ops + Adopt(found, |found|);
    }

    /** A local statement together with the capture triggers it fires. */
    method Run(w: SqlWrite)
      modifies this`rows, this`ops
      ensures View() == Execute(old(View()), w)
    {
      match w
      case Insert(k, row) =>
        if k !in rows {
          PutRow(k, row);
        }
      case Update(k, row) =>
        if k in rows {
          PutRow(k, row);
        }
      case Rekey(k, newPk, row) =>
        var k2 := RowKey(k.tbl, newPk);
        if k in rows && (k2 == k || k2 !in rows) {
          rows := rows - {k};
          PutRow(k2, row);
          if k2 != k && !guard && k.tbl in specs {
            ops := ops + [StagedOp(k, Delete)];
          }
        }
      case Remove(k) =>
        if k in rows {
          DropRow(k);
        }
    }

    /** Writes a row; the insert and update triggers stage it unless the guard is up. */
    method PutRow(k: RowKey, row: Row)
      modifies this`rows, this`ops
      ensures rows == old(rows)[k := row]
      ensures ops == if guard || k.tbl !in specs then old(ops) else old(ops) + [StagedOp(k, Upsert)]
    {
      rows := rows[k := row];
      if !guard && k.tbl in specs {
        ops := ops + [StagedOp(k, Upsert)];
      }
    }

    /** Deletes a row if it exists; the delete trigger stages it unless the guard is up. */
    method DropRow(k: RowKey)
      modifies this`rows, this`ops
      ensures rows == old(rows) - {k}
      ensures ops == if k !in old(rows) || guard || k.tbl !in specs then old(ops) else old(ops) + [StagedOp(k, Delete)]
    {
      if k in rows && !guard && k.tbl in specs {
        ops := ops + [StagedOp(k, Delete)];
      }
      rows := rows - {k};
    }

    /** Returns whether the record was inserted; a replay inserts nothing. */
    method StoreRecord(rec: ChangeRecord) returns (inserted: bool)
      modifies this`log
      ensures inserted == !Held(old(log), StampOf(rec))
      ensures log == StoreChange(old(log), rec)
    {
      inserted := !Held(log, StampOf(rec));
      if inserted {
        log := log + [rec];
      }
    }

    method MergeRecord(rec: ChangeRecord)
      modifies this`cells, this`tombs
      ensures cells == if rec.kind.CellChange? then UpsertCell(old(cells), rec) else old(cells)
      ensures tombs == if rec.kind.DeleteChange? then UpsertTombstone(old(tombs), rec) else old(tombs)
    {
      match rec.kind
      case DeleteChange =>
        var k := RowOf(rec);
        if k !in tombs || StampLt(tombs[k], StampOf(rec)) {
          tombs := tombs[k := StampOf(rec)];
        }
      case CellChange =>
        var k := CellOf(rec);
        if k !in cells || StampLt(cells[k].stamp, StampOf(rec)) {
          cells := cells[k := Cell(rec.value, StampOf(rec))];
        }
    }

    method BumpVector(origin: Text, hlc: Hlc)
      modifies this`vv
      ensures vv == Bump(old(vv), origin, hlc)
    {
      if origin !in vv || Less(vv[origin], hlc) {
        vv := vv[origin := hlc];
      }
    }

    // ---------------------------------------------------------------- local

    /** The log, its indexes and the clock are those of `st`. */
    ghost predicate Core(st: Replica)
      reads this, clock
    {
      log == st.log && cells == st.cells && tombs == st.tombs && clock.last == st.clock
    }

    /** A flush under way: everything but the vector is already as in `f`. */
    ghost predicate Unbumped(f: Flushing, out: seq<ChangeRecord>)
      reads this, clock
    {
      && Core(f.st) && out == f.out && f.st.vv == BumpOnce(vv, id, out)
      && f.st.id == id && f.st.specs == specs && f.st.rows == rows
    }

    /** Stamps, signs, stores and indexes one authored change; the vector is bumped at the end. */
    method EmitChange(draft: ChangeRecord, now: Clockwork, sign: ChangeRecord -> Text,
                      out0: seq<ChangeRecord>, ghost f: Flushing)
      returns (out: seq<ChangeRecord>)
      requires Unbumped(f, out0) && draft.origin == id
      modifies this`log, this`cells, this`tombs, clock
      ensures Unbumped(Emit(f, draft, now, sign), out)
    {
      var hlc := clock.Tick(now(|out0|));
      var rec := Stamped(draft, hlc, sign);
      BumpOnceStep(vv, id, out0, rec);
      var _ := StoreRecord(rec);
      MergeRecord(rec);
      out := out0 + [rec];
    }

    /** Collapses the queue to the final intent per row, in first-seen order. */
    method Collapse(staged: seq<StagedOp>) returns (order: seq<RowKey>, finalOp: map<RowKey, Op>)
      ensures order == FirstSeen(staged) && finalOp == FinalOps(staged)
    {
      order, finalOp := [], map[];
      for i := 0 to |staged|
        invariant order == FirstSeen(staged[..i]) && finalOp == FinalOps(staged[..i])
      {
        assert staged[..i + 1][..i] == staged[..i];
        if staged[i].row !in order {
          order := order + [staged[i].row];
        }
        finalOp := finalOp[staged[i].row := staged[i].op];
      }
      assert staged[..|staged|] == staged;
    }

    /** Turns staged local edits into replicable changes. */
    method FlushLocal(now: Clockwork, sign: ChangeRecord -> Text) returns (out: seq<ChangeRecord>)
      modifies this`log, this`cells, this`tombs, this`vv, this`ops, clock
      ensures Flushing(View(), out) == Replicas.FlushLocal(old(View()), now, sign)
    {
      if ops == [] {
        return [];
      }
      var order, finalOp := Collapse(ops);
      out := FlushCollapsed(order, finalOp, now, sign);
    }

    method FlushCollapsed(order: seq<RowKey>, finalOp: map<RowKey, Op>, now: Clockwork, sign: ChangeRecord -> Text)
      returns (out: seq<ChangeRecord>)
      requires forall k :: k in order ==> k in finalOp
      modifies this`log, this`cells, this`tombs, this`vv, this`ops, clock
      ensures var f := FlushRows(Flushing(old(View()), []), order, |order|, finalOp, now, sign);
              Flushing(View(), out) == f.(st := f.st.(ops := []))
    {
      ghost var f0 := Flushing(View(), []);
      out := FlushStaged(order, finalOp, now, sign, f0);
      FlushFrame(f0, order, |order|, finalOp, now, sign);
      CommitFlush(out, FlushRows(f0, order, |order|, finalOp, now, sign));
    }

    /** Empties the queue and moves the vector to the newest authored stamp. */
    method CommitFlush(out: seq<ChangeRecord>, ghost f: Flushing)
      requires Unbumped(f, out) && guard == f.st.guard && watermark == f.st.watermark
      modifies this`vv, this`ops
      ensures Flushing(View(), out) == f.(st := f.st.(ops := []))
    {
      ops := [];
      if out != [] {
        BumpVector(id, MaxHlc(out));
      }
    }

    method FlushStaged(order: seq<RowKey>, finalOp: map<RowKey, Op>, now: Clockwork, sign: ChangeRecord -> Text,
                       ghost f0: Flushing)
      returns (out: seq<ChangeRecord>)
      requires forall k :: k in order ==> k in finalOp
      requires Unbumped(f0, [])
      modifies this`log, this`cells, this`tombs, clock
      ensures Unbumped(FlushRows(f0, order, |order|, finalOp, now, sign), out)
    {
      out := [];
      for i := 0 to |order|
        invariant Unbumped(FlushRows(f0, order, i, finalOp, now, sign), out)
      {
        out := FlushOne(order[i], finalOp[order[i]], now, sign, out, FlushRows(f0, order, i, finalOp, now, sign));
      }
    }

    method FlushOne(k: RowKey, op: Op, now: Clockwork, sign: ChangeRecord -> Text,
                    out0: seq<ChangeRecord>, ghost f: Flushing)
      returns (out: seq<ChangeRecord>)
      requires Unbumped(f, out0)
      modifies this`log, this`cells, this`tombs, clock
      ensures Unbumped(FlushRow(f, k, op, now, sign), out)
    {
      out := out0;
      if k.tbl in specs {
        if k in rows {
          out := FlushColumns(k, rows[k], specs[k.tbl].cols, now, sign, out, f);
        } else if op == Delete {
          out := EmitChange(ChangeRecord(k.tbl, k.pk, [], Null, ZERO, id, DeleteChange, []), now, sign, out, f);
        }
      }
    }

    /** Emits one change per column whose stored form differs from the winning cell. */
    method FlushColumns(k: RowKey, values: Row, cols: seq<Text>, now: Clockwork, sign: ChangeRecord -> Text,
                        out0: seq<ChangeRecord>, ghost f: Flushing)
      returns (out: seq<ChangeRecord>)
      requires Unbumped(f, out0)
      modifies this`log, this`cells, this`tombs, clock
      ensures Unbumped(FlushCols(f, k, values, cols, |cols|, now, sign), out)
    {
      hide Emit, CellMatches, ToStorage;
      out := out0;
      for j := 0 to |cols|
        invariant Unbumped(FlushCols(f, k, values, cols, j, now, sign), out)
      {
        ghost var g := FlushCols(f, k, values, cols, j, now, sign);
        var c := cols[j];
        if c in values && !CellMatches(cells, k, c, values[c]) {
          out := EmitChange(ChangeRecord(k.tbl, k.pk, c, values[c], ZERO, id, CellChange, []), now, sign, out, g);
        }
      }
    }

    // --------------------------------------------------------------- remote

    /** The greatest stamp among the row's cells. */
    method MaxCell(mine: set<CellKey>) returns (best: Option<Stamp>)
      requires mine <= cells.Keys
      ensures best.Some? <==> mine != {}
      ensures best.Some? ==> exists c :: c in mine && cells[c].stamp == best.value
      ensures best.Some? ==> forall c :: c in mine ==> StampLe(cells[c].stamp, best.value)
    {
      best := None;
      var todo, done := mine, {};
      while todo != {}
        invariant todo !! done && todo + done == mine
        invariant best.Some? <==> done != {}
        invariant best.Some? ==> exists c :: c in done && cells[c].stamp == best.value
        invariant best.Some? ==> forall c :: c in done ==> StampLe(cells[c].stamp, best.value)
        decreases todo
      {
        var c :| c in todo;
        var s := cells[c].stamp;
        if best.None? {
          best := Some(s);
        } else if StampLt(best.value, s) {
          forall d | d in done
            ensures StampLe(cells[d].stamp, s)
          {
            StampTransitive(cells[d].stamp, best.value, s);
          }
          best := Some(s);
        } else {
          StampTotal(s, best.value);
        }
        todo, done := todo - {c}, done + {c};
      }
    }

    method IsDeleted(k: RowKey, mine: set<CellKey>) returns (deleted: bool)
      requires forall c :: c in mine <==> c in cells && c.row == k
      ensures deleted == Outranked(View(), k)
    {
      var best := MaxCell(mine);
      deleted := k in tombs && (best.None? || StampLt(best.value, tombs[k]));
      if deleted {
        forall c | c in mine
          ensures StampLt(cells[c].stamp, tombs[k])
        {
          StampTransitive(cells[c].stamp, best.value, tombs[k]);
        }
      } else if k in tombs {
        var c :| c in mine && cells[c].stamp == best.value;
        assert c in cells && c.row == k;
      }
    }

    /** Rebuilds one app row from the CRDT state. */
    method Materialize(k: RowKey)
      requires guard && k.tbl in specs
      modifies this`rows, this`ops
      ensures ops == old(ops)
      ensures var after := Materialized(old(View()), k);
              rows == if after.Some? then old(rows)[k := after.value] else old(rows) - {k}
    {
      var mine := set c | c in cells && c.row == k;
      if mine == {} && k !in tombs {
        assert forall c :: c in cells && c.row == k ==> c in mine;
        assert !Known(View(), k);
        assert rows == if k in rows then rows[k := rows[k]] else rows - {k};
        return;
      }
      assert Known(View(), k) by {
        if k !in tombs {
          var c :| c in mine;
          assert c in View().cells;
        }
      }
      var deleted := IsDeleted(k, mine);
      if deleted {
        DropRow(k);
      } else {
        var known := KnownCells(View(), k);
        PutRow(k, (if k in rows then rows[k] else DefaultRow(specs[k.tbl])) + known);
      }
    }

    /** The shape and authorship checks, done before the write lock is taken. */
    method CheckBatch(changes: seq<ChangeRecord>, valid: ChangeRecord -> bool)
      returns (kept: seq<ChangeRecord>, rejected: nat)
      ensures kept == Accepted(changes, valid) && rejected == Rejected(changes, valid)
    {
      kept, rejected := [], 0;
      for i := 0 to |changes|
        invariant kept == Accepted(changes[..i], valid) && rejected == Rejected(changes[..i], valid)
      {
        assert changes[..i + 1][..i] == changes[..i];
        var rec := changes[i];
        if rec.origin != [] && rec.tbl != [] {
          if valid(rec) {
            kept := kept + [rec];
          } else {
            rejected := rejected + 1;
          }
        }
      }
      assert changes[..|changes|] == changes;
    }

    /** Stores and merges changes received from a peer. */
    method ApplyRemote(changes: seq<ChangeRecord>, now: Clockwork, valid: ChangeRecord -> bool)
      returns (outcome: ApplyOutcome)
      modifies this, clock
      ensures View() == Replicas.ApplyRemote(old(View()), changes, now, valid)
      ensures outcome == Outcome(old(View()), changes, now, valid)
    {
      ghost var st := View();
      var kept, rejected := CheckBatch(changes, valid);
      if kept == [] {
        assert SortByStamp(kept) == [];
        return ApplyOutcome(0, 0, 0, rejected);
      }
      var t := ApplySorted(SortByStamp(kept), now);
      outcome := ApplyOutcome(t.applied, t.duplicates, t.deferred, rejected);
    }

    /** The write transaction of `apply_remote`. */
    method ApplySorted(sorted: seq<ChangeRecord>, now: Clockwork) returns (t: Tally)
      modifies this, clock
      ensures var st := old(View());
              var p := ReceiveAll(st, sorted, |sorted|, now);
              && View() == p.(rows := MaterializeAll(p, DirtyRows(st, Fresh(st, p))), guard := false)
              && Counted(st, p, |sorted|, t)
    {
      hide ReceiveAll, BumpAll, Deferred, MaterializeAll;
      ghost var st := View();
      guard := true;
      var vvMax;
      t, vvMax := StoreBatch(sorted, now, st);
      CommitBatch(t.dirty, vvMax, st, ReceiveAll(st, sorted, |sorted|, now));
    }

    /** `p` has received the records so far; the vector still waits for the maxima in `vvMax`. */
    ghost predicate Received(st: Replica, p: Replica, vvMax: VersionVector)
      reads this, clock
    {
      Core(p) && BumpAll(st.vv, vvMax) == p.vv
    }

    lemma NothingReceived(st: Replica, sorted: seq<ChangeRecord>, now: Clockwork)
      requires Core(st)
      ensures Received(st, st, map[]) && Counted(st, st, 0, Tally(0, 0, 0, {})) && ReceiveAll(st, sorted, 0, now) == st
    {
      assert BumpAll(st.vv, map[]) == st.vv;
      assert Fresh(st, st) == [];
    }

    method StoreBatch(sorted: seq<ChangeRecord>, now: Clockwork, ghost st: Replica)
      returns (t: Tally, vvMax: VersionVector)
      requires Core(st) && st.specs == specs
      modifies this`log, this`cells, this`tombs, clock
      ensures var p := ReceiveAll(st, sorted, |sorted|, now);
              Received(st, p, vvMax) && Counted(st, p, |sorted|, t)
    {
      hide *;
      t, vvMax := Tally(0, 0, 0, {}), map[];
      NothingReceived(st, sorted, now);
      ghost var p := st;
      for i := 0 to |sorted|
        invariant p == ReceiveAll(st, sorted, i, now)
        invariant Received(st, p, vvMax) && Counted(st, p, i, t)
      {
        t, vvMax, p := StoreNext(sorted, i, now, t, vvMax, st, p);
      }
    }

    method StoreNext(sorted: seq<ChangeRecord>, i: nat, now: Clockwork, t0: Tally, vvMax0: VersionVector,
                     ghost st: Replica, ghost p: Replica)
      returns (t: Tally, vvMax: VersionVector, ghost q: Replica)
      requires i < |sorted| && p == ReceiveAll(st, sorted, i, now)
      requires Received(st, p, vvMax0) && Counted(st, p, i, t0) && st.specs == specs
      modifies this`log, this`cells, this`tombs, clock
      ensures q == ReceiveAll(st, sorted, i + 1, now)
      ensures Received(st, q, vvMax) && Counted(st, q, i + 1, t)
    {
      var rec, phys := sorted[i], now(t0.applied);
      q := Receive(p, rec, phys);
      assert q == ReceiveAll(st, sorted, i + 1, now);
      hide ReceiveAll, Received, Deferred, DirtyRows, Tallied;
      var inserted;
      inserted, vvMax := StoreOne(rec, phys, vvMax0, st, p);
      t := Tallied(specs, t0, rec, inserted);
      CountedNext(st, p, q, i, t0, rec, inserted);
    }

    method StoreOne(rec: ChangeRecord, phys: U64, vvMax0: VersionVector, ghost st: Replica, ghost p: Replica)
      returns (inserted: bool, vvMax: VersionVector)
      requires Received(st, p, vvMax0)
      modifies this`log, this`cells, this`tombs, clock
      ensures inserted == !Held(p.log, StampOf(rec))
      ensures Received(st, Receive(p, rec, phys), vvMax)
    {
      vvMax := vvMax0;
      inserted := StoreRecord(rec);
      if inserted {
        var _ := clock.Observe(rec.hlc, phys);
        BumpAllStep(st.vv, vvMax, rec.origin, rec.hlc);
        vvMax := Bump(vvMax, rec.origin, rec.hlc);
        MergeRecord(rec);
      }
    }

    /** Materialises the dirty rows under the guard, then moves the vector and lowers the guard. */
    method CommitBatch(dirty: set<RowKey>, vvMax: VersionVector, ghost st: Replica, ghost p: Replica)
      requires Received(st, p, vvMax) && vv == st.vv && guard
      requires id == p.id && specs == p.specs && ops == p.ops && rows == p.rows && watermark == p.watermark
      requires forall k :: k in dirty ==> k.tbl in specs
      modifies this`rows, this`ops, this`vv, this`guard
      ensures View() == p.(rows := MaterializeAll(p, dirty), guard := false)
    {
      WriteDirtyRows(dirty, p);
      WriteVector(vvMax);
      guard := false;
    }

    method WriteDirtyRows(dirty: set<RowKey>, ghost s1: Replica)
      requires guard && specs == s1.specs && cells == s1.cells && tombs == s1.tombs && rows == s1.rows
      requires forall k :: k in dirty ==> k.tbl in specs
      modifies this`rows, this`ops
      ensures ops == old(ops) && rows == MaterializeAll(s1, dirty)
    {
      var todo := dirty;
      ghost var done := {};
      assert rows == MaterializeAll(s1, {});
      while todo != {}
        invariant todo !! done && todo + done == dirty && ops == old(ops)
        invariant rows == MaterializeAll(s1, done)
        decreases todo
      {
        var k :| k in todo;
        UntouchedRow(s1, done, k);
        MaterializedLocal(View(), s1, k);
        MaterializeOneMore(s1, done, k);
        Materialize(k);
        todo, done := todo - {k}, done + {k};
      }
      assert done == dirty;
    }

    method WriteVector(vvMax: VersionVector)
      modifies this`vv
      ensures vv == BumpAll(old(vv), vvMax)
    {
      var todo := vvMax.Keys;
      while todo != {}
        invariant todo <= vvMax.Keys
        invariant vv.Keys == old(vv).Keys + (vvMax.Keys - todo)
        invariant forall o :: o in vv ==>
                    vv[o] == if o in vvMax && o !in todo then BumpAll(old(vv), vvMax)[o] else old(vv)[o]
        decreases todo
      {
        var o :| o in todo;
        BumpVector(o, vvMax[o]);
        todo := todo - {o};
      }
      assert vv.Keys == BumpAll(old(vv), vvMax).Keys;
    }

    // ---------------------------------------------------------- anti-entropy

    method ChangesSince(peer: VersionVector, limit: nat) returns (out: seq<ChangeRecord>)
      ensures out == Replicas.ChangesSince(View(), peer, limit)
    {
      var missing: seq<ChangeRecord> := [];
      for i := 0 to |log|
        invariant missing == Missing(log[..i], peer)
      {
        assert log[..i + 1][..i] == log[..i];
        if log[i].origin !in peer || Less(peer[log[i].origin], log[i].hlc) {
          missing := missing + [log[i]];
        }
      }
      assert log[..|log|] == log;
      out := Take(SortByStamp(missing), limit);
    }

    // ---------------------------------------------------------------- outbox

    /** `version_vector`: the stored rows observed one by one. */
    method ReadVector() returns (v: VersionVector)
      ensures v == vv
    {
      v := map[];
      var todo := vv.Keys;
      while todo != {}
        invariant todo <= vv.Keys && v.Keys == vv.Keys - todo
        invariant forall o :: o in v ==> v[o] == vv[o]
        decreases |todo|
      {
        var o :| o in todo;
        todo := todo - {o};
        v := Bump(v, o, vv[o]);
      }
    }

    method UnbroadcastLocal(limit: nat) returns (out: seq<ChangeRecord>, high: nat)
      ensures (out, high) == Unbroadcast(View(), limit)
    {
      var own: seq<(nat, ChangeRecord)> := [];
      for i := 0 to |log|
        invariant own == OwnAbove(log[..i], id, watermark)
      {
        assert log[..i + 1][..i] == log[..i];
        if log[i].origin == id && i + 1 > watermark {
          own := own + [(i + 1, log[i])];
        }
      }
      assert log[..|log|] == log;
      var next := Take(own, limit);
      out, high := [], watermark;
      OwnAboveIncreasing(log, id, watermark);
      for i := 0 to |next|
        invariant out == Records(next[..i])
        invariant high == if i == 0 then watermark else next[i - 1].0
      {
        if next[i].0 > high {
          high := next[i].0;
        }
        out := out + [next[i].1];
      }
      assert next[..|next|] == next;
    }

    method MarkBroadcast(seqno: nat)
      modifies this`watermark
      ensures View() == old(View()).(watermark := seqno)
    {
      watermark := seqno;
    }
  }

  predicate Increasing(own: seq<(nat, ChangeRecord)>, low: nat, high: nat) {
    && (forall i :: 0 <= i < |own| ==> low < own[i].0 <= high)
    && (forall i, j :: 0 <= i < j < |own| ==> own[i].0 < own[j].0)
  }

  /** Own entries carry strictly increasing sequence numbers, all above the mark. */
  lemma {:induction false} OwnAboveIncreasing(log: seq<ChangeRecord>, id: Text, mark: nat)
    ensures Increasing(OwnAbove(log, id, mark), mark, |log|)
  {
    if log != [] {
      var init := OwnAbove(log[..|log| - 1], id, mark);
      OwnAboveIncreasing(log[..|log| - 1], id, mark);
      assert Increasing(init, mark, |log| - 1);
      var own := OwnAbove(log, id, mark);
      assert own == init || own == init + [(|log|, log[|log| - 1])];
    }
  }

  lemma {:induction false} FlushFrame(f: Flushing, order: seq<RowKey>, n: nat, final: map<RowKey, Op>,
                                      now: Clockwork, sign: ChangeRecord -> Text)
    requires n <= |order| && forall k :: k in order ==> k in final
    ensures var g := FlushRows(f, order, n, final, now, sign);
            && g.st.ops == f.st.ops && g.st.id == f.st.id && g.st.specs == f.st.specs && g.st.rows == f.st.rows
            && g.st.guard == f.st.guard && g.st.watermark == f.st.watermark
  {
    if n > 0 {
      FlushFrame(f, order, n - 1, final, now, sign);
      var g := FlushRows(f, order, n - 1, final, now, sign);
      var k := order[n - 1];
      if k.tbl in g.st.specs && k in g.st.rows {
        var cols := g.st.specs[k.tbl].cols;
        FlushColsFrame(g, k, g.st.rows[k], cols, |cols|, now, sign);
      }
    }
  }

  lemma {:induction false} FlushColsFrame(f: Flushing, k: RowKey, values: Row, cols: seq<Text>, n: nat,
                                          now: Clockwork, sign: ChangeRecord -> Text)
    requires n <= |cols|
    ensures var g := FlushCols(f, k, values, cols, n, now, sign);
            && g.st.ops == f.st.ops && g.st.id == f.st.id && g.st.specs == f.st.specs && g.st.rows == f.st.rows
            && g.st.guard == f.st.guard && g.st.watermark == f.st.watermark
  {
    if n > 0 {
      FlushColsFrame(f, k, values, cols, n - 1, now, sign);
    }
  }

  /** Materialisation of a row reads only that row, its cells and its tombstone. */
  lemma MaterializedLocal(a: Replica, b: Replica, k: RowKey)
    requires a.specs == b.specs && a.cells == b.cells && a.tombs == b.tombs && k.tbl in a.specs
    requires Get(a.rows, k) == Get(b.rows, k)
    ensures Materialized(a, k) == Materialized(b, k)
  {
    assert KnownCells(a, k) == KnownCells(b, k);
    assert Known(a, k) == Known(b, k) && Outranked(a, k) == Outranked(b, k);
    assert k in a.rows <==> k in b.rows;
    if k in a.rows {
      assert a.rows[k] == Get(a.rows, k).value;
    }
  }

  datatype Tally = Tally(applied: nat, duplicates: nat, deferred: nat, dirty: set<RowKey>)

  /** The tally after `n` records describes exactly what the log gained. */
  ghost predicate Counted(st: Replica, p: Replica, n: nat, t: Tally) {
    && |st.log| <= |p.log| && t.applied == |p.log| - |st.log| && t.applied + t.duplicates == n
    && t.deferred == Deferred(st, Fresh(st, p)) && t.dirty == DirtyRows(st, Fresh(st, p))
  }

  lemma UntouchedRow(st: Replica, done: set<RowKey>, k: RowKey)
    requires k !in done
    ensures Get(MaterializeAll(st, done), k) == Get(st.rows, k)
  {
    assert RowAfter(st, done, k) == Get(st.rows, k);
  }

  lemma FreshStep(st: Replica, p: Replica, q: Replica, rec: ChangeRecord)
    requires |st.log| <= |p.log| && q.log == p.log + [rec]
    ensures Fresh(st, q) == Fresh(st, p) + [rec]
    ensures Deferred(st, Fresh(st, q)) == Deferred(st, Fresh(st, p)) + if rec.tbl !in st.specs then 1 else 0
    ensures DirtyRows(st, Fresh(st, q)) ==
            if rec.tbl in st.specs then DirtyRows(st, Fresh(st, p)) + {RowOf(rec)} else DirtyRows(st, Fresh(st, p))
  {
    assert Fresh(st, q) == Fresh(st, p) + [rec];
    CountOneMore(st, Fresh(st, p), rec);
  }

  function Tallied(specs: map<Text, TableSpec>, t: Tally, rec: ChangeRecord, inserted: bool): Tally {
    if !inserted then t.(duplicates := t.duplicates + 1)
    else if rec.tbl in specs then t.(applied := t.applied + 1, dirty := t.dirty + {RowOf(rec)})
    else t.(applied := t.applied + 1, deferred := t.deferred + 1)
  }

  lemma CountedNext(st: Replica, p: Replica, q: Replica, n: nat, t: Tally, rec: ChangeRecord, inserted: bool)
    requires Counted(st, p, n, t) && q.log == if inserted then p.log + [rec] else p.log
    ensures Counted(st, q, n + 1, Tallied(st.specs, t, rec, inserted))
  {
    if inserted {
      FreshStep(st, p, q, rec);
    }
  }

  lemma CountOneMore(st: Replica, s: seq<ChangeRecord>, rec: ChangeRecord)
    ensures Deferred(st, s + [rec]) == Deferred(st, s) + if rec.tbl !in st.specs then 1 else 0
    ensures DirtyRows(st, s + [rec]) ==
            if rec.tbl in st.specs then DirtyRows(st, s) + {RowOf(rec)} else DirtyRows(st, s)
  {
    assert (s + [rec])[..|s|] == s;
  }

  lemma MaterializeOneMore(st: Replica, done: set<RowKey>, k: RowKey)
    requires k !in done && k.tbl in st.specs
    ensures var rows, after := MaterializeAll(st, done), Materialized(st, k);
            MaterializeAll(st, done + {k}) == if after.Some? then rows[k := after.value] else rows - {k}
  {
  }
}
