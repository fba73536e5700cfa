/** Cells, tombstones and the version vector are indexes over the log, so replicas
    that hold the same records agree on everything derived from them. */
module Index {
  import opened Bytes
  import opened HybridLogicalClock
  import opened Change
  import opened Replicas

  // ---------------------------------------------------------- the invariant

  ghost predicate UniqueStamps(log: seq<ChangeRecord>) {
    forall i, j :: 0 <= i < j < |log| ==> StampOf(log[i]) != StampOf(log[j])
  }

  predicate IsCell(r: ChangeRecord, k: CellKey) {
    r.kind.CellChange? && CellOf(r) == k
  }

  predicate IsDelete(r: ChangeRecord, k: RowKey) {
    r.kind.DeleteChange? && RowOf(r) == k
  }

  /** Each cell is the stamp-maximal Cell record of the log for its key, and no key is missing. */
  ghost predicate CellsIndexed(log: seq<ChangeRecord>, cells: map<CellKey, Cell>) {
    && (forall r {:trigger CellOf(r)} :: r in log && r.kind.CellChange? ==>
          CellOf(r) in cells && StampLe(StampOf(r), cells[CellOf(r)].stamp))
    && (forall k :: k in cells ==>
          exists r :: r in log && IsCell(r, k) && cells[k] == Cell(r.value, StampOf(r)))
  }

  ghost predicate TombsIndexed(log: seq<ChangeRecord>, tombs: map<RowKey, Stamp>) {
    && (forall r {:trigger RowOf(r)} :: r in log && r.kind.DeleteChange? ==>
          RowOf(r) in tombs && StampLe(StampOf(r), tombs[RowOf(r)]))
    && (forall k :: k in tombs ==> exists r :: r in log && IsDelete(r, k) && tombs[k] == StampOf(r))
  }

  /** Each entry is the greatest stamp held from its author; no entry without a record. */
  ghost predicate VectorIndexed(log: seq<ChangeRecord>, vv: VersionVector) {
    && (forall r {:trigger Covers(vv, r)} :: r in log ==> Covers(vv, r))
    && (forall o :: o in vv ==> exists r :: r in log && r.origin == o && r.hlc == vv[o])
  }

  ghost predicate Indexed(st: Replica) {
    && UniqueStamps(st.log)
    && CellsIndexed(st.log, st.cells) && TombsIndexed(st.log, st.tombs) && VectorIndexed(st.log, st.vv)
  }

  // ----------------------------------------------------------- preservation

  lemma CellStep(log: seq<ChangeRecord>, cells: map<CellKey, Cell>, rec: ChangeRecord)
    requires CellsIndexed(log, cells)
    ensures CellsIndexed(log + [rec], if rec.kind.CellChange? then UpsertCell(cells, rec) else cells)
  {
    var log', cells' := log + [rec], if rec.kind.CellChange? then UpsertCell(cells, rec) else cells;
    assert rec in log';
    forall r | r in log' && r.kind.CellChange?
      ensures CellOf(r) in cells' && StampLe(StampOf(r), cells'[CellOf(r)].stamp)
    {
      var k := CellOf(r);
      if r in log {
        if rec.kind.CellChange? && k == CellOf(rec) && StampLt(cells[k].stamp, StampOf(rec)) {
          StampTransitive(StampOf(r), cells[k].stamp, StampOf(rec));
        }
      } else if k in cells {
        StampTotal(StampOf(r), cells[k].stamp);
      }
    }
    forall k | k in cells'
      ensures exists r :: r in log' && IsCell(r, k) && cells'[k] == Cell(r.value, StampOf(r))
    {
      if k in cells && cells'[k] == cells[k] {
        var r :| r in log && IsCell(r, k) && cells[k] == Cell(r.value, StampOf(r));
        assert r in log';
      } else {
        assert IsCell(rec, k);
      }
    }
  }

  lemma TombStep(log: seq<ChangeRecord>, tombs: map<RowKey, Stamp>, rec: ChangeRecord)
    requires TombsIndexed(log, tombs)
    ensures TombsIndexed(log + [rec], if rec.kind.DeleteChange? then UpsertTombstone(tombs, rec) else tombs)
  {
    var log', tombs' := log + [rec], if rec.kind.DeleteChange? then UpsertTombstone(tombs, rec) else tombs;
    assert rec in log';
    forall r | r in log' && r.kind.DeleteChange?
      ensures RowOf(r) in tombs' && StampLe(StampOf(r), tombs'[RowOf(r)])
    {
      var k := RowOf(r);
      if r in log {
        if rec.kind.DeleteChange? && k == RowOf(rec) && StampLt(tombs[k], StampOf(rec)) {
          StampTransitive(StampOf(r), tombs[k], StampOf(rec));
        }
      } else if k in tombs {
        StampTotal(StampOf(r), tombs[k]);
      }
    }
    forall k | k in tombs'
      ensures exists r :: r in log' && IsDelete(r, k) && tombs'[k] == StampOf(r)
    {
      if k in tombs && tombs'[k] == tombs[k] {
        var r :| r in log && IsDelete(r, k) && tombs[k] == StampOf(r);
        assert r in log';
      } else {
        assert IsDelete(rec, k);
      }
    }
  }

  lemma VectorStep(log: seq<ChangeRecord>, vv: VersionVector, rec: ChangeRecord)
    requires VectorIndexed(log, vv)
    ensures VectorIndexed(log + [rec], Bump(vv, rec.origin, rec.hlc))
  {
    var log', vv' := log + [rec], Bump(vv, rec.origin, rec.hlc);
    assert rec in log';
    forall r | r in log'
      ensures Covers(vv', r)
    {
      assert r == rec || Covers(vv, r);
    }
    forall o | o in vv'
      ensures exists r :: r in log' && r.origin == o && r.hlc == vv'[o]
    {
      if o in vv && vv'[o] == vv[o] {
        var r :| r in log && r.origin == o && r.hlc == vv[o];
        assert r in log';
      } else {
        assert rec.origin == o && rec.hlc == vv'[o];
      }
    }
  }

  lemma UniqueStep(log: seq<ChangeRecord>, rec: ChangeRecord)
    requires UniqueStamps(log) && !Held(log, StampOf(rec))
    ensures UniqueStamps(log + [rec])
  {
    var log' := log + [rec];
    forall i, j | 0 <= i < j < |log'|
      ensures StampOf(log'[i]) != StampOf(log'[j])
    {
      assert log'[i] in log;
    }
  }

  /** Storing one record that is not held yet keeps every index exact. */
  lemma StoreKeepsIndex(st: Replica, rec: ChangeRecord)
    requires Indexed(st) && !Held(st.log, StampOf(rec))
    ensures Indexed(Merge(st.(log := st.log + [rec]), rec))
  {
    UniqueStep(st.log, rec);
    CellStep(st.log, st.cells, rec);
    TombStep(st.log, st.tombs, rec);
    VectorStep(st.log, st.vv, rec);
  }

  lemma {:induction false} ReceiveKeepsIndex(st: Replica, recs: seq<ChangeRecord>, n: nat, now: Clockwork)
    requires Indexed(st) && n <= |recs|
    ensures Indexed(ReceiveAll(st, recs, n, now))
  {
    if n > 0 {
      ReceiveKeepsIndex(st, recs, n - 1, now);
      var p := ReceiveAll(st, recs, n - 1, now);
      if !Held(p.log, StampOf(recs[n - 1])) {
        StoreKeepsIndex(p, recs[n - 1]);
      }
    }
  }

  /** Whatever a peer sends, the indexes stay exact. */
  lemma ApplyKeepsIndex(st: Replica, batch: seq<ChangeRecord>, now: Clockwork, valid: ChangeRecord -> bool)
    requires Indexed(st)
    ensures Indexed(ApplyRemote(st, batch, now, valid))
  {
    var acc := Accepted(batch, valid);
    ReceiveKeepsIndex(st, SortByStamp(acc), |acc|, now);
  }

  // ---------------------------------------------------------------- authoring

  /** The clock is at or past every stamp of the device's own log. */
  ghost predicate ClockOwn(st: Replica) {
    forall r :: r in st.log && r.origin == st.id ==> Leq(r.hlc, st.clock)
  }

  /** Own records appear in the log in the order of their stamps. */
  ghost predicate OwnOrdered(st: Replica) {
    forall i, j :: 0 <= i < j < |st.log| && st.log[i].origin == st.id == st.log[j].origin ==>
      Less(st.log[i].hlc, st.log[j].hlc)
  }

  /** The records are new to the log, and no two of them share a stamp. */
  ghost predicate OutFresh(log: seq<ChangeRecord>, out: seq<ChangeRecord>) {
    && (forall i :: 0 <= i < |out| ==> !Held(log, StampOf(out[i])))
    && (forall i, j :: 0 <= i < j < |out| ==> StampOf(out[i]) != StampOf(out[j]))
  }

  /** The records of a flush that began at `start` carry the ticks from there on, in order. */
  ghost predicate OnTicks(id: Text, start: Hlc, now: Clockwork, out: seq<ChangeRecord>) {
    forall i :: 0 <= i < |out| ==> out[i].hlc == TickNo(start, now, i + 1) && out[i].origin == id
  }

  /** A flush that began at `start` has ticked once for each record it emitted. */
  predicate OnClock(f: Flushing, start: Hlc, now: Clockwork) {
    f.st.clock == TickNo(start, now, |f.out|)
  }

  /** Whatever the clock does: each record carries the next tick, the log has gained all of them exactly if
      their stamps are new, and then the indexes are exact. */
  ghost predicate Emitted(st: Replica, f: Flushing, now: Clockwork) {
    && f.st.id == st.id && OnClock(f, st.clock, now) && OnTicks(st.id, st.clock, now, f.out)
    && |f.st.log| <= |st.log| + |f.out|
    && (f.st.log == st.log + f.out <==> OutFresh(st.log, f.out))
    && (f.st.log == st.log + f.out ==> Indexed(f.st))
  }

  lemma HeldConcat(a: seq<ChangeRecord>, b: seq<ChangeRecord>, s: Stamp)
    ensures Held(a + b, s) <==> Held(a, s) || exists i :: 0 <= i < |b| && StampOf(b[i]) == s
  {
    if Held(a, s) {
      var r :| r in a && StampOf(r) == s;
      assert r in a + b;
    }
    if i :| 0 <= i < |b| && StampOf(b[i]) == s {
      assert b[i] in a + b;
    }
  }

  lemma FreshStep(log: seq<ChangeRecord>, out: seq<ChangeRecord>, rec: ChangeRecord)
    ensures OutFresh(log, out + [rec]) <==> OutFresh(log, out) && !Held(log + out, StampOf(rec))
  {
    HeldConcat(log, out, StampOf(rec));
    hide Held;
    var all := out + [rec];
    forall i | 0 <= i < |out|
      ensures all[i] == out[i]
    {
    }
    assert all[|out|] == rec;
  }

  lemma StoreStep(log0: seq<ChangeRecord>, out: seq<ChangeRecord>, log: seq<ChangeRecord>, rec: ChangeRecord)
    requires |log| <= |log0| + |out| && (log == log0 + out <==> OutFresh(log0, out))
    ensures var log' := StoreChange(log, rec);
            && |log'| <= |log0| + |out + [rec]|
            && (log' == log0 + (out + [rec]) <==> OutFresh(log0, out + [rec]))
            && (log' == log0 + (out + [rec]) ==> log == log0 + out && log' == log + [rec] && !Held(log, StampOf(rec)))
  {
    FreshStep(log0, out, rec);
    hide Held, OutFresh;
    assert log0 + (out + [rec]) == (log0 + out) + [rec];
    if !Held(log, StampOf(rec)) && log + [rec] == (log0 + out) + [rec] {
      assert (log + [rec])[..|log|] == log && ((log0 + out) + [rec])[..|log0 + out|] == log0 + out;
    }
  }

  lemma EmitStep(st: Replica, f: Flushing, draft: ChangeRecord, now: Clockwork, sign: ChangeRecord -> Text)
    requires Emitted(st, f, now) && draft.origin == st.id
    ensures Emitted(st, Emit(f, draft, now, sign), now)
  {
    var rec, g := Stamped(draft, Ticked(f.st.clock, now(|f.out|)), sign), Emit(f, draft, now, sign);
    assert g.out == f.out + [rec] && g.st.log == StoreChange(f.st.log, rec);
    hide OutFresh, Held;
    StoreStep(st.log, f.out, f.st.log, rec);
    if g.st.log == st.log + g.out {
      hide StoreChange, Indexed, Emit;
      EmitKeepsIndex(f, draft, now, sign);
    }
  }

  lemma EmitKeepsIndex(f: Flushing, draft: ChangeRecord, now: Clockwork, sign: ChangeRecord -> Text)
    requires Indexed(f.st)
    requires !Held(f.st.log, StampOf(Stamped(draft, Ticked(f.st.clock, now(|f.out|)), sign)))
    ensures Indexed(Emit(f, draft, now, sign).st)
  {
    StoreKeepsIndex(f.st, Stamped(draft, Ticked(f.st.clock, now(|f.out|)), sign));
  }

  lemma {:induction false} FlushColsStep(st: Replica, f: Flushing, k: RowKey, values: Row, cols: seq<Text>, n: nat,
                                         now: Clockwork, sign: ChangeRecord -> Text)
    requires n <= |cols| && Emitted(st, f, now)
    ensures Emitted(st, FlushCols(f, k, values, cols, n, now, sign), now)
  {
    hide Emit, CellMatches, OutFresh, Indexed, OnTicks, OnClock;
    if n > 0 {
      FlushColsStep(st, f, k, values, cols, n - 1, now, sign);
      var g, c := FlushCols(f, k, values, cols, n - 1, now, sign), cols[n - 1];
      if c in values && !CellMatches(g.st.cells, k, c, values[c]) {
        EmitStep(st, g, CellDraft(g.st, k, c, values[c]), now, sign);
      }
    }
  }

  lemma FlushRowStep(st: Replica, f: Flushing, k: RowKey, op: Op, now: Clockwork, sign: ChangeRecord -> Text)
    requires Emitted(st, f, now)
    ensures Emitted(st, FlushRow(f, k, op, now, sign), now)
  {
    hide Emit, FlushCols, OutFresh, Indexed, OnTicks, OnClock;
    if k.tbl in f.st.specs {
      if k in f.st.rows {
        var cols := f.st.specs[k.tbl].cols;
        FlushColsStep(st, f, k, f.st.rows[k], cols, |cols|, now, sign);
      } else if op == Delete {
        EmitStep(st, f, TombstoneDraft(f.st, k), now, sign);
      }
    }
  }

  lemma {:induction false} FlushRowsStep(st: Replica, order: seq<RowKey>, n: nat, final: map<RowKey, Op>,
                                         now: Clockwork, sign: ChangeRecord -> Text)
    requires n <= |order| && Indexed(st) && forall k :: k in order ==> k in final
    ensures Emitted(st, FlushRows(Flushing(st, []), order, n, final, now, sign), now)
  {
    if n == 0 {
      assert st.log + [] == st.log;
    } else {
      FlushRowsStep(st, order, n - 1, final, now, sign);
      hide FlushRow, Emitted, Indexed;
      var g := FlushRows(Flushing(st, []), order, n - 1, final, now, sign);
      FlushRowStep(st, g, order[n - 1], final[order[n - 1]], now, sign);
    }
  }

  lemma FlushEmitted(st: Replica, now: Clockwork, sign: ChangeRecord -> Text)
    requires Indexed(st)
    ensures Emitted(st, FlushLocal(st, now, sign), now)
  {
    var order := FirstSeen(st.ops);
    hide FlushRows, FirstSeen, FinalOps;
    FlushRowsStep(st, order, |order|, FinalOps(st.ops), now, sign);
  }

  lemma {:induction false} OutGrows(f: Flushing, k: RowKey, values: Row, cols: seq<Text>, n: nat,
                                    now: Clockwork, sign: ChangeRecord -> Text)
    requires n <= |cols|
    ensures |f.out| <= |FlushCols(f, k, values, cols, n, now, sign).out|
  {
    if n > 0 {
      OutGrows(f, k, values, cols, n - 1, now, sign);
    }
  }

  lemma RowOutGrows(f: Flushing, k: RowKey, op: Op, now: Clockwork, sign: ChangeRecord -> Text)
    ensures |f.out| <= |FlushRow(f, k, op, now, sign).out|
  {
    if k.tbl in f.st.specs && k in f.st.rows {
      var cols := f.st.specs[k.tbl].cols;
      OutGrows(f, k, f.st.rows[k], cols, |cols|, now, sign);
    }
  }

  /** Restart resumes from the own maximum only, and that is enough. */
  lemma {:induction false} OwnMaximumIsMaximum(log: seq<ChangeRecord>, id: Text)
    ensures var m := OwnMaximum(log, id);
            && (m.None? <==> forall r :: r in log ==> r.origin != id)
            && (m.Some? ==> (exists r :: r in log && r.origin == id && r.hlc == m.value)
                            && forall r :: r in log && r.origin == id ==> Leq(r.hlc, m.value))
  {
    if log != [] {
      var init, last := log[..|log| - 1], log[|log| - 1];
      assert log == init + [last];
      OwnMaximumIsMaximum(init, id);
      assert last in log;
      var m := OwnMaximum(init, id);
      if m.Some? {
        var r :| r in init && r.origin == id && r.hlc == m.value;
        assert r in log;
      }
      forall r | r in log
        ensures r in init || r == last
      {
      }
    }
  }

  lemma ReopenKeepsOwnOrder(st: Replica, found: seq<RowKey>)
    requires Indexed(st) && OwnOrdered(st)
    ensures var st' := Reopen(st, found); Indexed(st') && OwnOrdered(st') && ClockOwn(st')
  {
    OwnMaximumIsMaximum(st.log, st.id);
  }

  // -------------------------------------------------------------- convergence

  ghost predicate SameRecords(a: seq<ChangeRecord>, b: seq<ChangeRecord>) {
    forall r :: r in a <==> r in b
  }

  /** Equal record sets mean equal cells, tombstones and vectors, whatever the arrival order. */
  ghost predicate SameState(a: Replica, b: Replica) {
    SameRecords(a.log, b.log) && a.cells == b.cells && a.tombs == b.tombs && a.vv == b.vv
  }

  lemma SameStampSameRecord(log: seq<ChangeRecord>, r: ChangeRecord, s: ChangeRecord)
    requires UniqueStamps(log) && r in log && s in log && StampOf(r) == StampOf(s)
    ensures r == s
  {
    var i :| 0 <= i < |log| && log[i] == r;
    var j :| 0 <= j < |log| && log[j] == s;
    assert i == j;
  }

  lemma CellsDetermined(log: seq<ChangeRecord>, cells: map<CellKey, Cell>, log': seq<ChangeRecord>,
                        cells': map<CellKey, Cell>)
    requires UniqueStamps(log) && SameRecords(log, log')
    requires CellsIndexed(log, cells) && CellsIndexed(log', cells')
    ensures cells == cells'
  {
    forall k | k in cells.Keys + cells'.Keys
      ensures k in cells && k in cells' && cells[k] == cells'[k]
    {
      if k in cells {
        var r :| r in log && IsCell(r, k) && cells[k] == Cell(r.value, StampOf(r));
        assert k in cells';
      }
      var s :| s in log' && IsCell(s, k) && cells'[k] == Cell(s.value, StampOf(s));
      assert k in cells;
      var r :| r in log && IsCell(r, k) && cells[k] == Cell(r.value, StampOf(r));
      StampTotal(StampOf(r), StampOf(s));
      SameStampSameRecord(log, r, s);
    }
    assert cells.Keys == cells'.Keys;
  }

  lemma TombsDetermined(log: seq<ChangeRecord>, tombs: map<RowKey, Stamp>, log': seq<ChangeRecord>,
                        tombs': map<RowKey, Stamp>)
    requires SameRecords(log, log') && TombsIndexed(log, tombs) && TombsIndexed(log', tombs')
    ensures tombs == tombs'
  {
    forall k | k in tombs.Keys + tombs'.Keys
      ensures k in tombs && k in tombs' && tombs[k] == tombs'[k]
    {
      if k in tombs {
        var r :| r in log && IsDelete(r, k) && tombs[k] == StampOf(r);
        assert k in tombs';
      }
      var s :| s in log' && IsDelete(s, k) && tombs'[k] == StampOf(s);
      assert k in tombs;
      var r :| r in log && IsDelete(r, k) && tombs[k] == StampOf(r);
      StampTotal(StampOf(r), StampOf(s));
    }
    assert tombs.Keys == tombs'.Keys;
  }

  lemma VectorDetermined(log: seq<ChangeRecord>, vv: VersionVector, log': seq<ChangeRecord>, vv': VersionVector)
    requires SameRecords(log, log') && VectorIndexed(log, vv) && VectorIndexed(log', vv')
    ensures vv == vv'
  {
    forall o | o in vv.Keys + vv'.Keys
      ensures o in vv && o in vv' && vv[o] == vv'[o]
    {
      if o in vv {
        var r :| r in log && r.origin == o && r.hlc == vv[o];
        assert Covers(vv', r);
      }
      var s :| s in log' && s.origin == o && s.hlc == vv'[o];
      assert Covers(vv, s);
      var r :| r in log && r.origin == o && r.hlc == vv[o];
      assert Covers(vv', r);
    }
    assert vv.Keys == vv'.Keys;
  }

  lemma LogDeterminesState(a: Replica, b: Replica)
    requires Indexed(a) && Indexed(b) && forall r :: r in a.log <==> r in b.log
    ensures SameState(a, b)
  {
    CellsDetermined(a.log, a.cells, b.log, b.cells);
    TombsDetermined(a.log, a.tombs, b.log, b.tombs);
    VectorDetermined(a.log, a.vv, b.log, b.vv);
  }
}
