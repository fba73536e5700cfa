/** The app's tables are a projection of the cells and tombstones, across every
    interleaving of local SQL writes, flushes and remote batches. */
module Projection {
  import opened Bytes
  import opened HybridLogicalClock
  import opened Change
  import opened Replicas
  import Convergence

  // ------------------------------------------------------------- the invariant

  /** Some cell of the row survives, and the tombstone does not outrank them all. */
  ghost predicate Alive(st: Replica, k: RowKey) {
    (exists c :: c in st.cells && c.row == k) && !Outranked(st, k)
  }

  /** The row that the CRDT state stands for: winning values over schema defaults. */
  ghost function Projected(st: Replica, k: RowKey): Option<Row>
    requires k.tbl in st.specs
  {
    if Alive(st, k) then Some(DefaultRow(st.specs[k.tbl]) + KnownCells(st, k)) else None
  }

  ghost predicate RowOk(st: Replica, k: RowKey) {
    k.tbl in st.specs ==> Get(st.rows, k) == Projected(st, k)
  }

  function ColSet(spec: TableSpec): set<Text> {
    set c | c in spec.cols
  }

  predicate Distinct<T(==)>(s: seq<T>) {
    forall i, j :: 0 <= i < j < |s| ==> s[i] != s[j]
  }

  /** No two replicated columns of a table have the same name. */
  ghost predicate SpecsOk(st: Replica) {
    forall t :: t in st.specs ==> Distinct(st.specs[t].cols)
  }

  ghost predicate ShapesOk(st: Replica) {
    forall k :: k in st.rows && k.tbl in st.specs ==> st.rows[k].Keys == ColSet(st.specs[k.tbl])
  }

  /** The final staged intent of a row says whether the row is there. */
  ghost predicate QueueOk(st: Replica) {
    && (forall k :: Staged(st.ops, k) ==> k.tbl in st.specs)
    && (forall k :: Staged(st.ops, k) ==> (FinalOps(st.ops)[k] == Upsert <==> k in st.rows))
  }

  /** Every registered row without a staged edit is exactly its projection. */
  ghost predicate Projects(st: Replica) {
    && !st.guard && SpecsOk(st) && ShapesOk(st) && QueueOk(st)
    && (forall k :: !Staged(st.ops, k) ==> RowOk(st, k))
  }

  // --------------------------------------------------------------- row frames

  /** Two replicas hold the same cells and tombstone for a row. */
  ghost predicate SameRow(a: Replica, b: Replica, k: RowKey) {
    && Get(a.tombs, k) == Get(b.tombs, k)
    && (forall c: CellKey {:trigger c in a.cells} {:trigger c in b.cells} :: c.row == k ==>
          (c in a.cells <==> c in b.cells) && (c in a.cells ==> a.cells[c] == b.cells[c]))
  }

  lemma SameRowSameProjection(a: Replica, b: Replica, k: RowKey)
    requires SameRow(a, b, k) && a.specs == b.specs && k.tbl in a.specs
    ensures Outranked(a, k) == Outranked(b, k) && Alive(a, k) == Alive(b, k)
    ensures KnownCells(a, k) == KnownCells(b, k) && Projected(a, k) == Projected(b, k)
  {
    assert k in a.tombs <==> k in b.tombs;
    assert k in a.tombs ==> a.tombs[k] == Get(a.tombs, k).value && b.tombs[k] == Get(b.tombs, k).value;
    assert KnownCells(a, k) == KnownCells(b, k);
  }

  // ------------------------------------------------------------ local writes

  lemma StageOne(ops: seq<StagedOp>, o: StagedOp)
    ensures FinalOps(ops + [o]) == FinalOps(ops)[o.row := o.op]
    ensures forall k :: Staged(ops + [o], k) <==> Staged(ops, k) || k == o.row
  {
    assert (ops + [o])[..|ops|] == ops;
    assert o in ops + [o];
    forall k
      ensures Staged(ops + [o], k) <==> Staged(ops, k) || k == o.row
    {
      if Staged(ops, k) {
        var x :| x in ops && x.row == k;
        assert x in ops + [o];
      }
    }
  }

  /** Writing or deleting one registered row and staging that intent. */
  lemma WriteStaged(st: Replica, st': Replica, k: RowKey, op: Op)
    requires Projects(st) && k.tbl in st.specs
    requires st'.specs == st.specs && st'.cells == st.cells && st'.tombs == st.tombs && st'.guard == st.guard
    requires st'.ops == st.ops + [StagedOp(k, op)]
    requires op == Upsert <==> k in st'.rows
    requires k in st'.rows ==> st'.rows[k].Keys == ColSet(st.specs[k.tbl])
    requires forall x :: x != k ==> (x in st.rows <==> x in st'.rows) && (x in st.rows ==> st'.rows[x] == st.rows[x])
    ensures Projects(st')
  {
    StageOne(st.ops, StagedOp(k, op));
    forall x | !Staged(st'.ops, x)
      ensures RowOk(st', x)
    {
      assert RowOk(st, x);
      if x.tbl in st.specs {
        SameRowSameProjection(st, st', x);
      }
    }
  }

  /** A write to a table that is not replicated. */
  lemma WriteUnstaged(st: Replica, st': Replica)
    requires Projects(st)
    requires st' == st.(rows := st'.rows)
    requires forall x: RowKey :: x.tbl in st.specs ==>
               (x in st.rows <==> x in st'.rows) && (x in st.rows ==> st'.rows[x] == st.rows[x])
    ensures Projects(st')
  {
    forall x | !Staged(st'.ops, x)
      ensures RowOk(st', x)
    {
      assert RowOk(st, x);
      if x.tbl in st.specs {
        SameRowSameProjection(st, st', x);
      }
    }
  }

  /** A statement supplies values for exactly the columns of the table. */
  ghost predicate WellShaped(st: Replica, w: SqlWrite) {
    !w.Remove? && w.key.tbl in st.specs ==> w.row.Keys == ColSet(st.specs[w.key.tbl])
  }

  /** Re-keying a row stages "write the new key" and "delete the old one". */
  lemma RekeyStaged(st: Replica, k: RowKey, k2: RowKey, row: Row, st': Replica)
    requires Projects(st) && k.tbl == k2.tbl && k.tbl in st.specs && row.Keys == ColSet(st.specs[k.tbl])
    requires k != k2 && k in st.rows
    requires st' == st.(rows := (st.rows - {k})[k2 := row], ops := st.ops + [StagedOp(k2, Upsert), StagedOp(k, Delete)])
    ensures Projects(st')
  {
    hide Projects;
    var mid := st.(rows := st.rows[k2 := row], ops := st.ops + [StagedOp(k2, Upsert)]);
    WriteStaged(st, mid, k2, Upsert);
    assert st'.ops == mid.ops + [StagedOp(k, Delete)];
    assert st'.rows == mid.rows - {k};
    WriteStaged(mid, st', k, Delete);
  }

  lemma PutKeeps(st: Replica, k: RowKey, row: Row)
    requires Projects(st) && (k.tbl in st.specs ==> row.Keys == ColSet(st.specs[k.tbl]))
    ensures Projects(st.(rows := st.rows[k := row], ops := Capture(st, [StagedOp(k, Upsert)])))
  {
    var st' := st.(rows := st.rows[k := row], ops := Capture(st, [StagedOp(k, Upsert)]));
    assert !st.guard;
    hide Projects;
    if k.tbl in st.specs {
      WriteStaged(st, st', k, Upsert);
    } else {
      WriteUnstaged(st, st');
    }
  }

  lemma DropKeeps(st: Replica, k: RowKey)
    requires Projects(st)
    ensures Projects(st.(rows := st.rows - {k}, ops := Capture(st, [StagedOp(k, Delete)])))
  {
    var st' := st.(rows := st.rows - {k}, ops := Capture(st, [StagedOp(k, Delete)]));
    assert !st.guard;
    hide Projects;
    if k.tbl in st.specs {
      WriteStaged(st, st', k, Delete);
    } else {
      WriteUnstaged(st, st');
    }
  }

  /** Re-keying a row of a table that is not replicated. */
  lemma RekeyUnreplicated(st: Replica, k: RowKey, newPk: Text, row: Row)
    requires Projects(st) && k.tbl !in st.specs
    ensures Projects(Execute(st, Rekey(k, newPk, row)))
  {
    hide Projects;
    WriteUnstaged(st, Execute(st, Rekey(k, newPk, row)));
  }

  lemma InPlaceEffect(st: Replica, k: RowKey, row: Row)
    requires !st.guard && k.tbl in st.specs && k in st.rows
    ensures Execute(st, Rekey(k, k.pk, row)) == st.(rows := st.rows[k := row], ops := st.ops + [StagedOp(k, Upsert)])
  {
    assert [StagedOp(k, Upsert)] + [] == [StagedOp(k, Upsert)];
    assert (st.rows - {k})[k := row] == st.rows[k := row];
  }

  /** Re-keying a row to the key it has. */
  lemma RekeyInPlace(st: Replica, k: RowKey, row: Row)
    requires Projects(st) && k.tbl in st.specs && k in st.rows && row.Keys == ColSet(st.specs[k.tbl])
    ensures Projects(Execute(st, Rekey(k, k.pk, row)))
  {
    assert !st.guard;
    InPlaceEffect(st, k, row);
    hide Projects, Execute;
    WriteStaged(st, st.(rows := st.rows[k := row], ops := st.ops + [StagedOp(k, Upsert)]), k, Upsert);
  }

  lemma RekeyKeeps(st: Replica, k: RowKey, newPk: Text, row: Row)
    requires Projects(st) && WellShaped(st, Rekey(k, newPk, row))
    ensures Projects(Execute(st, Rekey(k, newPk, row)))
  {
    assert !st.guard;
    hide Projects;
    var k2, st' := RowKey(k.tbl, newPk), Execute(st, Rekey(k, newPk, row));
    if k.tbl !in st.specs {
      RekeyUnreplicated(st, k, newPk, row);
    } else if st' == st {
    } else if k2 == k {
      RekeyInPlace(st, k, row);
    } else {
      assert [StagedOp(k2, Upsert)] + [StagedOp(k, Delete)] == [StagedOp(k2, Upsert), StagedOp(k, Delete)];
      RekeyStaged(st, k, k2, row, st');
    }
  }

  /** Local writes keep every other row exact and stage the touched ones. */
  lemma ExecuteKeepsProjection(st: Replica, w: SqlWrite)
    requires Projects(st) && WellShaped(st, w)
    ensures Projects(Execute(st, w))
  {
    hide Projects, Capture;
    match w
    case Insert(k, row) => PutKeeps(st, k, row);
    case Update(k, row) => PutKeeps(st, k, row);
    case Rekey(k, newPk, row) => RekeyKeeps(st, k, newPk, row);
    case Remove(k) => DropKeeps(st, k);
  }

  /** The statement finds its row, and its new key is free. */
  predicate Hits(st: Replica, w: SqlWrite) {
    match w
    case Insert(k, _) => k !in st.rows
    case Update(k, _) => k in st.rows
    case Rekey(k, newPk, _) => k in st.rows && (newPk == k.pk || RowKey(k.tbl, newPk) !in st.rows)
    case Remove(k) => k in st.rows
  }

  /** The statement reads or writes the row. */
  predicate Touches(w: SqlWrite, k: RowKey) {
    k == w.key || (w.Rekey? && k == RowKey(w.key.tbl, w.newPk))
  }

  /** The key under which the statement leaves its row. */
  function NewKey(w: SqlWrite): RowKey {
    if w.Rekey? then RowKey(w.key.tbl, w.newPk) else w.key
  }

  /** The app's rows after a statement. One that misses changes nothing; one that hits leaves its row under its new
      key, no row under a key given up, and every other row alone. */
  lemma StatementWrites(st: Replica, w: SqlWrite, k: RowKey)
    ensures !Hits(st, w) ==> Execute(st, w) == st
    ensures Hits(st, w) && !w.Remove? ==> Get(Execute(st, w).rows, NewKey(w)) == Some(w.row)
    ensures Hits(st, w) && (w.Remove? || NewKey(w) != w.key) ==> w.key !in Execute(st, w).rows
    ensures !Touches(w, k) ==> Get(Execute(st, w).rows, k) == Get(st.rows, k)
  {
    hide Capture;
  }

  lemma StageTwo(ops: seq<StagedOp>, a: StagedOp, b: StagedOp)
    requires a.row != b.row
    ensures FinalOps(ops + ([a] + [b])) == FinalOps(ops)[a.row := a.op][b.row := b.op]
    ensures forall k :: Staged(ops + ([a] + [b]), k) <==> Staged(ops, k) || k == a.row || k == b.row
  {
    hide FinalOps, Staged;
    assert ops + ([a] + [b]) == ops + [a] + [b];
    StageOne(ops, a);
    StageOne(ops + [a], b);
  }

  /** The queue after a statement. Unless the guard is up or the table is not replicated, a statement that hits
      stages exactly the rows it touches, each to be announced as present or as deleted just as it has become. */
  lemma StatementStages(st: Replica, w: SqlWrite, k: RowKey)
    ensures var st' := Execute(st, w);
            if st.guard || w.key.tbl !in st.specs || !Hits(st, w) then st'.ops == st.ops
            else && (Staged(st'.ops, k) <==> Staged(st.ops, k) || Touches(w, k))
                 && (Touches(w, k) ==> FinalOps(st'.ops)[k] == if k in st'.rows then Upsert else Delete)
                 && (Staged(st.ops, k) && !Touches(w, k) ==> FinalOps(st'.ops)[k] == FinalOps(st.ops)[k])
  {
    hide FinalOps, Staged;
    if !st.guard && w.key.tbl in st.specs && Hits(st, w) {
      match w
      case Insert(_, _) => StageOne(st.ops, StagedOp(w.key, Upsert));
      case Update(_, _) => StageOne(st.ops, StagedOp(w.key, Upsert));
      case Remove(_) => StageOne(st.ops, StagedOp(w.key, Delete));
      case Rekey(_, _, _) =>
        if NewKey(w) == w.key {
          assert Execute(st, w).ops == st.ops + [StagedOp(w.key, Upsert)];
          StageOne(st.ops, StagedOp(w.key, Upsert));
        } else {
          StageTwo(st.ops, StagedOp(NewKey(w), Upsert), StagedOp(w.key, Delete));
        }
    }
  }

  // ----------------------------------------------------------- remote batches

  ghost predicate Grown(a: Replica, b: Replica) {
    forall c :: c in a.cells ==> c in b.cells
  }

  lemma SameRowTransitive(a: Replica, b: Replica, c: Replica, k: RowKey)
    requires SameRow(a, b, k) && SameRow(b, c, k)
    ensures SameRow(a, c, k)
  {
  }

  lemma MergeFrame(p: Replica, rec: ChangeRecord, k: RowKey)
    ensures Grown(p, Merge(p, rec))
    ensures RowOf(rec) != k ==> SameRow(p, Merge(p, rec), k)
    ensures Known(p, k) || RowOf(rec) == k ==> Known(Merge(p, rec), k)
  {
    var q := Merge(p, rec);
    if RowOf(rec) == k {
      if rec.kind.CellChange? {
        assert CellOf(rec) in q.cells && CellOf(rec).row == k;
      }
    } else if Known(p, k) && k !in p.tombs {
      var c :| c in p.cells && c.row == k;
      assert c in q.cells;
    }
  }

  lemma NothingReceived(st: Replica, k: RowKey)
    ensures Grown(st, st) && Fresh(st, st) == [] && SameRow(st, st, k)
  {
  }

  /** What a batch does to one row: nothing without a fresh record of that row. */
  lemma {:induction false} ReceiveFrame(st: Replica, recs: seq<ChangeRecord>, n: nat, now: Clockwork, k: RowKey)
    requires n <= |recs|
    ensures var p := ReceiveAll(st, recs, n, now);
            && Grown(st, p)
            && (forall r :: r in Fresh(st, p) ==> r in recs)
            && ((forall r :: r in Fresh(st, p) ==> RowOf(r) != k) ==> SameRow(st, p, k))
            && ((exists r :: r in Fresh(st, p) && RowOf(r) == k) ==> Known(p, k))
  {
    hide Merge, Known, SameRow, Grown, Fresh, Held, Observed;
    if n == 0 {
      NothingReceived(st, k);
    } else {
      var p, q, rec := ReceiveAll(st, recs, n - 1, now), ReceiveAll(st, recs, n, now), recs[n - 1];
      ReceiveFrame(st, recs, n - 1, now, k);
      if !Held(p.log, StampOf(rec)) {
        var p' := p.(log := p.log + [rec]);
        assert q == Merge(p', rec).(clock := q.clock);
        ReceiveFrameStep(st, p, p', q, rec, k);
      }
    }
  }

  lemma ReceiveFrameStep(st: Replica, p: Replica, p': Replica, q: Replica, rec: ChangeRecord, k: RowKey)
    requires |st.log| <= |p.log| && p' == p.(log := p.log + [rec]) && q == Merge(p', rec).(clock := q.clock)
    requires Grown(st, p)
    requires (forall r :: r in Fresh(st, p) ==> RowOf(r) != k) ==> SameRow(st, p, k)
    requires (exists r :: r in Fresh(st, p) && RowOf(r) == k) ==> Known(p, k)
    ensures Grown(st, q) && Fresh(st, q) == Fresh(st, p) + [rec]
    ensures (forall r :: r in Fresh(st, q) ==> RowOf(r) != k) ==> SameRow(st, q, k)
    ensures (exists r :: r in Fresh(st, q) && RowOf(r) == k) ==> Known(q, k)
  {
    MergeFrame(p', rec, k);
    assert Known(p, k) == Known(p', k);
    assert Known(Merge(p', rec), k) == Known(q, k);
    assert Fresh(st, q) == Fresh(st, p) + [rec];
    assert rec in Fresh(st, q);
    forall r
      ensures r in Fresh(st, q) <==> r in Fresh(st, p) || r == rec
    {
    }
    if RowOf(rec) != k && SameRow(st, p, k) {
      SameRowTransitive(st, p, q, k);
    }
  }

  lemma MaterializedIsProjected(st: Replica, p: Replica, k: RowKey)
    requires k.tbl in st.specs && RowOk(st, k) && Grown(st, p) && Known(p, k)
    requires p.rows == st.rows && p.specs == st.specs
    ensures Materialized(p, k) == Projected(p, k)
  {
    if !Outranked(p, k) {
      assert exists c :: c in p.cells && c.row == k;
      if k in st.rows {
        assert st.rows[k] == DefaultRow(st.specs[k.tbl]) + KnownCells(st, k);
        assert KnownCells(st, k).Keys <= KnownCells(p, k).Keys;
        assert st.rows[k] + KnownCells(p, k) == DefaultRow(st.specs[k.tbl]) + KnownCells(p, k);
      }
    }
  }

  /** One row across a remote batch. */
  lemma AppliedRow(st: Replica, batch: seq<ChangeRecord>, now: Clockwork, valid: ChangeRecord -> bool, k: RowKey)
    requires RowOk(st, k)
    ensures RowOk(ApplyRemote(st, batch, now, valid), k)
  {
    var acc := Accepted(batch, valid);
    if acc != [] && k.tbl in st.specs {
      var st' := ApplyRemote(st, batch, now, valid);
      var p := ReceiveAll(st, SortByStamp(acc), |acc|, now);
      ReceiveFrame(st, SortByStamp(acc), |acc|, now, k);
      BatchRow(st, p, st', k);
    }
  }

  /** The app row after the write-back of a received batch. */
  lemma BatchRow(st: Replica, p: Replica, st': Replica, k: RowKey)
    requires k.tbl in st.specs && p.rows == st.rows && p.specs == st.specs && |st.log| <= |p.log|
    requires st' == p.(rows := MaterializeAll(p, DirtyRows(st, Fresh(st, p))), guard := false)
    requires RowOk(st, k) && Grown(st, p)
    requires (forall r :: r in Fresh(st, p) ==> RowOf(r) != k) ==> SameRow(st, p, k)
    requires (exists r :: r in Fresh(st, p) && RowOf(r) == k) ==> Known(p, k)
    ensures RowOk(st', k)
  {
    var dirty := DirtyRows(st, Fresh(st, p));
    assert Get(st'.rows, k) == RowAfter(p, dirty, k);
    SameRowSameProjection(p, st', k);
    if k in dirty {
      var r :| r in Fresh(st, p) && RowOf(r) == k;
      MaterializedIsProjected(st, p, k);
    } else {
      forall r | r in Fresh(st, p)
        ensures RowOf(r) != k
      {
      }
      SameRowSameProjection(st, p, k);
    }
  }

  /** A batch writes only rows it has records for, and only in the shape of the table. */
  lemma AppliedShape(st: Replica, batch: seq<ChangeRecord>, now: Clockwork, valid: ChangeRecord -> bool, k: RowKey)
    requires ShapesOk(st)
    ensures var st' := ApplyRemote(st, batch, now, valid);
            && st'.ops == st.ops && st'.specs == st.specs && (!st.guard ==> !st'.guard)
            && (k in st'.rows && k.tbl in st.specs ==> st'.rows[k].Keys == ColSet(st.specs[k.tbl]))
            && ((forall r :: r in batch ==> RowOf(r) != k) ==> Get(st'.rows, k) == Get(st.rows, k))
  {
    hide ReceiveAll, SortByStamp, Accepted, MaterializeAll, SameRow, Known, ShapesOk;
    var acc := Accepted(batch, valid);
    if acc != [] {
      var sorted := SortByStamp(acc);
      var p := ReceiveAll(st, sorted, |acc|, now);
      ReceiveFrame(st, sorted, |acc|, now, k);
      SortSorts(acc);
      BatchShape(st, p, ApplyRemote(st, batch, now, valid), batch, k);
    } else {
      ShapeOf(st, k);
    }
  }

  lemma ShapeOf(st: Replica, k: RowKey)
    requires ShapesOk(st)
    ensures k in st.rows && k.tbl in st.specs ==> st.rows[k].Keys == ColSet(st.specs[k.tbl])
  {
  }

  lemma BatchShape(st: Replica, p: Replica, st': Replica, batch: seq<ChangeRecord>, k: RowKey)
    requires ShapesOk(st) && p.rows == st.rows && p.specs == st.specs && |st.log| <= |p.log|
    requires forall r :: r in Fresh(st, p) ==> r in batch
    requires st' == p.(rows := MaterializeAll(p, DirtyRows(st, Fresh(st, p))), guard := false)
    ensures k in st'.rows && k.tbl in st.specs ==> st'.rows[k].Keys == ColSet(st.specs[k.tbl])
    ensures (forall r :: r in batch ==> RowOf(r) != k) ==> Get(st'.rows, k) == Get(st.rows, k)
  {
    hide Known, Outranked;
    var dirty := DirtyRows(st, Fresh(st, p));
    assert Get(st'.rows, k) == RowAfter(p, dirty, k);
    if k in dirty {
      var r :| r in Fresh(st, p) && RowOf(r) == k;
      assert r in batch;
    }
  }

  /** The rows without a pending edit are never at risk; what matters is whether a batch removes or
      revives one that has. */
  lemma ApplyProjectsByPresence(st: Replica, batch: seq<ChangeRecord>, now: Clockwork, valid: ChangeRecord -> bool)
    requires Projects(st)
    ensures Projects(ApplyRemote(st, batch, now, valid)) <==>
            forall k :: Staged(st.ops, k) ==> (k in ApplyRemote(st, batch, now, valid).rows <==> k in st.rows)
  {
    hide ApplyRemote, RowOk;
    var st' := ApplyRemote(st, batch, now, valid);
    AppliedShape(st, batch, now, valid, RowKey([], []));
    forall k
      ensures !Staged(st.ops, k) ==> RowOk(st', k)
      ensures k in st'.rows && k.tbl in st.specs ==> st'.rows[k].Keys == ColSet(st.specs[k.tbl])
    {
      AppliedShape(st, batch, now, valid, k);
      if !Staged(st.ops, k) {
        AppliedRow(st, batch, now, valid, k);
      }
    }
  }

  ghost predicate NoPendingEdit(st: Replica, batch: seq<ChangeRecord>) {
    forall r :: r in batch ==> !Staged(st.ops, RowOf(r))
  }

  /** In particular, a batch that touches no row with a pending edit keeps it. */
  lemma ApplyKeepsProjection(st: Replica, batch: seq<ChangeRecord>, now: Clockwork, valid: ChangeRecord -> bool)
    requires Projects(st) && NoPendingEdit(st, batch)
    ensures Projects(ApplyRemote(st, batch, now, valid))
  {
    hide ApplyRemote;
    ApplyProjectsByPresence(st, batch, now, valid);
    var st' := ApplyRemote(st, batch, now, valid);
    forall k | Staged(st.ops, k)
      ensures k in st'.rows <==> k in st.rows
    {
      AppliedShape(st, batch, now, valid, k);
      assert Get(st'.rows, k) == Get(st.rows, k);
    }
  }

  // ---------------------------------------------------------------- revival

  /** Receiving an edit that ranks above the tombstone. */
  lemma EditOutranksTombstone(st: Replica, rec: ChangeRecord, phys: U64)
    requires Outranked(st, RowOf(rec)) && StampLt(st.tombs[RowOf(rec)], StampOf(rec)) && !Held(st.log, StampOf(rec))
    requires rec.kind == CellChange
    ensures var p := Receive(st, rec, phys);
            && p.cells == st.cells[CellOf(rec) := Cell(rec.value, StampOf(rec))]
            && p.rows == st.rows && p.specs == st.specs
            && Known(p, RowOf(rec)) && !Outranked(p, RowOf(rec))
  {
    hide Bump, Observed;
    var k := RowOf(rec);
    if CellOf(rec) in st.cells {
      StampTransitive(st.cells[CellOf(rec)].stamp, st.tombs[k], StampOf(rec));
    }
    StampTotal(StampOf(rec), st.tombs[k]);
    var p := Receive(st, rec, phys);
    assert CellOf(rec) in p.cells && CellOf(rec).row == k && !StampLt(StampOf(rec), p.tombs[k]);
  }

  /** The edit changes its own column only. */
  lemma EditedCells(st: Replica, p: Replica, rec: ChangeRecord)
    requires rec.tbl in st.specs && rec.col in st.specs[rec.tbl].cols && p.specs == st.specs
    requires p.cells == st.cells[CellOf(rec) := Cell(rec.value, StampOf(rec))]
    ensures KnownCells(p, RowOf(rec)) == KnownCells(st, RowOf(rec))[rec.col := rec.value]
  {
  }

  /** A later edit brings a deleted row back, the edited column new and every other column as it was
      before the deletion. */
  lemma LaterEditRevivesRow(st: Replica, rec: ChangeRecord, now: Clockwork, valid: ChangeRecord -> bool)
    requires Projects(st) && !Staged(st.ops, RowOf(rec)) && Outranked(st, RowOf(rec))
    requires rec.kind == CellChange && rec.tbl in st.specs && rec.col in st.specs[rec.tbl].cols
    requires rec.origin != [] && rec.tbl != [] && valid(rec) && !Held(st.log, StampOf(rec))
    requires StampLt(st.tombs[RowOf(rec)], StampOf(rec))
    ensures Get(st.rows, RowOf(rec)) == None
    ensures Get(ApplyRemote(st, [rec], now, valid).rows, RowOf(rec)) ==
            Some(DefaultRow(st.specs[rec.tbl]) + KnownCells(st, RowOf(rec))[rec.col := rec.value])
  {
    var k := RowOf(rec);
    assert RowOk(st, k);
    EditOutranksTombstone(st, rec, now(0));
    var p := Receive(st, rec, now(0));
    hide Projects, Receive, ApplyRemote, Outranked, Known;
    EditedCells(st, p, rec);
    Convergence.ApplyOne(st, rec, now, valid);
    assert k in DirtyRows(st, [rec]);
    hide KnownCells, DefaultRow;
    assert RowAfter(p, DirtyRows(st, [rec]), k) == Materialized(p, k);
  }
}
