/** What becomes of local edits that are still staged when a remote batch arrives: the node applies
    batches without flushing first (rust/p2p-core/src/net/node.rs:479-517 and 396). */
module PendingEdits {
  import opened Bytes
  import opened Change
  import opened Replicas
  import opened Index
  import opened Convergence
  import opened Projection
  import opened LastWriter
  import opened Flushes

  // ------------------------------------------------------------ what a batch touches

  /** The batch brings an accepted record of the row that is not held yet. */
  predicate Touched(st: Replica, batch: seq<ChangeRecord>, valid: ChangeRecord -> bool, k: RowKey) {
    exists r :: r in Accepted(batch, valid) && RowOf(r) == k && !Held(st.log, StampOf(r))
  }

  /** The records held once the batch is in. */
  function Joined(st: Replica, batch: seq<ChangeRecord>, valid: ChangeRecord -> bool): seq<ChangeRecord> {
    st.log + Accepted(batch, valid)
  }

  /** The replica between receiving the batch and rewriting the app rows. */
  function Received(st: Replica, batch: seq<ChangeRecord>, now: Clockwork, valid: ChangeRecord -> bool): Replica {
    var acc := Accepted(batch, valid);
    ReceiveAll(st, SortByStamp(acc), |acc|, now)
  }

  lemma ReceivedJoins(st: Replica, batch: seq<ChangeRecord>, now: Clockwork, valid: ChangeRecord -> bool,
                      all: set<ChangeRecord>)
    requires Indexed(st) && OnePerStamp(all) && From(st.log, all) && From(batch, all)
    ensures var p := Received(st, batch, now, valid);
            && Indexed(p) && st.log <= p.log && p.specs == st.specs && p.rows == st.rows
            && (forall r :: r in p.log <==> r in Joined(st, batch, valid))
  {
    var acc := Accepted(batch, valid);
    var sorted := SortByStamp(acc);
    SortSorts(acc);
    hide SortByStamp, Accepted, ReceiveAll, OnePerStamp, Indexed;
    ReceiveKeepsIndex(st, sorted, |acc|, now);
    ReceivedKeep(st, sorted, |acc|, now);
    ReceivedRecords(st, sorted, |acc|, now, all);
    assert sorted[..|acc|] == sorted;
  }

  /** The rows to rewrite are the touched ones. */
  lemma FreshIsTouched(st: Replica, batch: seq<ChangeRecord>, now: Clockwork, valid: ChangeRecord -> bool,
                       all: set<ChangeRecord>, k: RowKey)
    requires Indexed(st) && OnePerStamp(all) && From(st.log, all) && From(batch, all) && k.tbl in st.specs
    ensures var p := Received(st, batch, now, valid);
            |st.log| <= |p.log| && (k in DirtyRows(st, Fresh(st, p)) <==> Touched(st, batch, valid, k))
  {
    ReceivedJoins(st, batch, now, valid, all);
    var p := Received(st, batch, now, valid);
    assert UniqueStamps(p.log);
    hide Received, Accepted, OnePerStamp, Indexed;
    if r :| r in Fresh(st, p) && RowOf(r) == k {
      FreshIsUnheld(st.log, p.log, r);
      assert r in p.log && r !in st.log;
    }
    if r :| r in Accepted(batch, valid) && RowOf(r) == k && !Held(st.log, StampOf(r)) {
      assert r in p.log;
      UnheldIsFresh(st.log, p.log, r);
    }
  }

  lemma FreshIsUnheld(log: seq<ChangeRecord>, log': seq<ChangeRecord>, r: ChangeRecord)
    requires log <= log' && UniqueStamps(log') && r in log'[|log|..]
    ensures !Held(log, StampOf(r)) && r in log'
  {
    var j :| 0 <= j < |log'| - |log| && log'[|log|..][j] == r;
    assert log'[|log| + j] == r;
    forall x | x in log
      ensures StampOf(x) != StampOf(r)
    {
      var i :| 0 <= i < |log| && log[i] == x;
      assert log'[i] == x;
    }
  }

  lemma UnheldIsFresh(log: seq<ChangeRecord>, log': seq<ChangeRecord>, r: ChangeRecord)
    requires log <= log' && r in log' && !Held(log, StampOf(r))
    ensures r in log'[|log|..]
  {
    assert r !in log;
    assert log' == log + log'[|log|..];
  }

  /** Only the set of records matters to who wrote last. */
  lemma SameRecordsSameHistory(a: seq<ChangeRecord>, b: seq<ChangeRecord>, k: RowKey)
    requires forall r :: r in a <==> r in b
    ensures EditedSinceDeleted(a, k) <==> EditedSinceDeleted(b, k)
  {
    forall r: ChangeRecord | r.kind.CellChange? && RowOf(r) == k
      ensures AfterDeletes(a, k, r) <==> AfterDeletes(b, k, r)
    {
    }
  }

  /** What a rewritten row starts from. */
  function Base(st: Replica, k: RowKey): Row
    requires k.tbl in st.specs
  {
    if k in st.rows then st.rows[k] else DefaultRow(st.specs[k.tbl])
  }

  /** One app row across a batch, from the records alone. */
  lemma RowAcrossBatch(st: Replica, batch: seq<ChangeRecord>, now: Clockwork, valid: ChangeRecord -> bool,
                       all: set<ChangeRecord>, k: RowKey)
    requires Indexed(st) && OnePerStamp(all) && From(st.log, all) && From(batch, all) && k.tbl in st.specs
    ensures var p, st' := Received(st, batch, now, valid), ApplyRemote(st, batch, now, valid);
            && (!Touched(st, batch, valid, k) ==> Get(st'.rows, k) == Get(st.rows, k))
            && (Touched(st, batch, valid, k) ==>
                  && (k in st'.rows <==> EditedSinceDeleted(Joined(st, batch, valid), k))
                  && (k in st'.rows ==> st'.rows[k] == Base(st, k) + KnownCells(p, k)))
            && st'.cells == p.cells && p.specs == st.specs
  {
    hide Received, ApplyRemote, Accepted, OnePerStamp, Touched, DirtyRows, Fresh, Joined, From;
    hide Indexed, EditedSinceDeleted, Alive, KnownCells, Materialized, Known, DefaultRow;
    FreshIsTouched(st, batch, now, valid, all, k);
    ReceivedJoins(st, batch, now, valid, all);
    ApplyWrites(st, batch, now, valid, k);
    var p := Received(st, batch, now, valid);
    AliveIsEdited(p, k);
    SameRecordsSameHistory(p.log, Joined(st, batch, valid), k);
    if Touched(st, batch, valid, k) {
      TouchedIsKnown(st, batch, now, valid, k);
      MaterializedIffAlive(p, k);
    }
  }

  lemma ApplyWrites(st: Replica, batch: seq<ChangeRecord>, now: Clockwork, valid: ChangeRecord -> bool, k: RowKey)
    requires k.tbl in st.specs
    ensures var p, st' := Received(st, batch, now, valid), ApplyRemote(st, batch, now, valid);
            && |st.log| <= |p.log| && p.specs == st.specs && p.rows == st.rows && st'.cells == p.cells
            && Get(st'.rows, k) == if k in DirtyRows(st, Fresh(st, p)) then Materialized(p, k) else Get(st.rows, k)
  {
    hide SortByStamp, Accepted, Materialized;
    var p := Received(st, batch, now, valid);
    if Accepted(batch, valid) == [] {
      assert p == st;
      assert Fresh(st, p) == [];
    } else {
      hide ReceiveAll;
      assert Get(MaterializeAll(p, DirtyRows(st, Fresh(st, p))), k) == RowAfter(p, DirtyRows(st, Fresh(st, p)), k);
    }
  }

  lemma TouchedIsKnown(st: Replica, batch: seq<ChangeRecord>, now: Clockwork, valid: ChangeRecord -> bool, k: RowKey)
    requires |st.log| <= |Received(st, batch, now, valid).log|
    requires k in DirtyRows(st, Fresh(st, Received(st, batch, now, valid)))
    ensures Known(Received(st, batch, now, valid), k)
  {
    var acc := Accepted(batch, valid);
    hide Accepted, SortByStamp, ReceiveAll, Known, SameRow;
    ReceiveFrame(st, SortByStamp(acc), |acc|, now, k);
  }

  lemma MaterializedIffAlive(p: Replica, k: RowKey)
    requires k.tbl in p.specs && Known(p, k)
    ensures Materialized(p, k) == if Alive(p, k) then Some(Base(p, k) + KnownCells(p, k)) else None
  {
  }

  /** Only the set of records matters to which write is the last. */
  lemma SameRecordsSameWrite(a: seq<ChangeRecord>, b: seq<ChangeRecord>, k: RowKey, c: Text, r: ChangeRecord)
    requires forall x :: x in a <==> x in b
    ensures LastWrite(a, k, c, r) <==> LastWrite(b, k, c, r)
  {
    hide StampLe;
  }

  /** A row of which a batch brings news shows, in every column that anybody has written, the last write among the
      records then held. Every other column keeps what the row had; in a row that the batch brings into being it
      holds its schema default. */
  lemma BatchWritesRow(st: Replica, batch: seq<ChangeRecord>, now: Clockwork, valid: ChangeRecord -> bool,
                       all: set<ChangeRecord>, k: RowKey, c: Text)
    requires Indexed(st) && OnePerStamp(all) && From(st.log, all) && From(batch, all)
    requires k.tbl in st.specs && c in st.specs[k.tbl].cols && Touched(st, batch, valid, k)
    ensures var st', log := ApplyRemote(st, batch, now, valid), Joined(st, batch, valid);
            k in st'.rows ==>
              && (forall r :: LastWrite(log, k, c, r) ==> c in st'.rows[k] && st'.rows[k][c] == r.value)
              && ((forall r :: !LastWrite(log, k, c, r)) ==>
                    if k in st.rows then Get(st'.rows[k], c) == Get(st.rows[k], c)
                    else c in st'.rows[k] && IsDefault(st.specs[k.tbl], c, st'.rows[k][c]))
  {
    hide Received, ApplyRemote, Accepted, OnePerStamp, Touched, Joined, From, Indexed, EditedSinceDeleted, LastWrite,
      KnownCells;
    RowAcrossBatch(st, batch, now, valid, all, k);
    ReceivedJoins(st, batch, now, valid, all);
    var p, log := Received(st, batch, now, valid), Joined(st, batch, valid);
    ColumnFromLog(p, k, c);
    forall r
      ensures LastWrite(log, k, c, r) <==> LastWrite(p.log, k, c, r)
    {
      SameRecordsSameWrite(log, p.log, k, c, r);
    }
  }

  /** The winning value of a column is its last write. */
  lemma ColumnFromLog(p: Replica, k: RowKey, c: Text)
    requires Indexed(p) && k.tbl in p.specs && c in p.specs[k.tbl].cols
    ensures forall r :: LastWrite(p.log, k, c, r) ==> c in KnownCells(p, k) && KnownCells(p, k)[c] == r.value
    ensures (forall r :: !LastWrite(p.log, k, c, r)) ==> c !in KnownCells(p, k)
  {
    hide Indexed, LastWrite;
    forall r | LastWrite(p.log, k, c, r)
      ensures c in KnownCells(p, k) && KnownCells(p, k)[c] == r.value
    {
      CellIsLastWrite(p, k, c, r);
    }
    if CellKey(k, c) in p.cells {
      var r := CellHasLastWrite(p, k, c);
    }
  }

  // ----------------------------------------------------- the projection, exactly

  /** Every touched row with a pending edit stays as present, or as absent, as that edit left it. */
  ghost predicate StagedRowsStay(st: Replica, batch: seq<ChangeRecord>, valid: ChangeRecord -> bool) {
    forall k :: Staged(st.ops, k) && Touched(st, batch, valid, k) ==>
      (k in st.rows <==> EditedSinceDeleted(Joined(st, batch, valid), k))
  }

  /** A batch keeps the projection exactly when, for each row with a pending edit of which it brings a new
      record, the row is there just if the records then held have an edit of it after every deletion. */
  lemma ApplyProjectsIff(st: Replica, batch: seq<ChangeRecord>, now: Clockwork, valid: ChangeRecord -> bool,
                         all: set<ChangeRecord>)
    requires Projects(st) && Indexed(st) && OnePerStamp(all) && From(st.log, all) && From(batch, all)
    ensures Projects(ApplyRemote(st, batch, now, valid)) <==> StagedRowsStay(st, batch, valid)
  {
    ApplyProjectsByPresence(st, batch, now, valid);
    var st' := ApplyRemote(st, batch, now, valid);
    assert forall k :: Staged(st.ops, k) ==> k.tbl in st.specs;
    hide Projects, Indexed, ApplyRemote, OnePerStamp, Touched, Joined, EditedSinceDeleted;
    forall k | Staged(st.ops, k)
      ensures (k in st'.rows <==> k in st.rows) <==>
              (Touched(st, batch, valid, k) ==> (k in st.rows <==> EditedSinceDeleted(Joined(st, batch, valid), k)))
    {
      RowAcrossBatch(st, batch, now, valid, all, k);
    }
  }

  /** The batch and the log together have one record per stamp. */
  ghost predicate OneEach(st: Replica, batch: seq<ChangeRecord>) {
    OnePerStamp(set r | r in st.log + batch)
  }

  /** A batch that respects the pending edits: it names none of their rows, or leaves them as present as
      they are. */
  ghost predicate RespectsPending(st: Replica, batch: seq<ChangeRecord>, valid: ChangeRecord -> bool) {
    NoPendingEdit(st, batch) || (OneEach(st, batch) && StagedRowsStay(st, batch, valid))
  }

  lemma RespectfulBatchProjects(st: Replica, batch: seq<ChangeRecord>, now: Clockwork, valid: ChangeRecord -> bool)
    requires Projects(st) && Indexed(st) && RespectsPending(st, batch, valid)
    ensures Projects(ApplyRemote(st, batch, now, valid))
  {
    hide Projects, Indexed, ApplyRemote, StagedRowsStay, NoPendingEdit;
    if NoPendingEdit(st, batch) {
      ApplyKeepsProjection(st, batch, now, valid);
    } else {
      ApplyProjectsIff(st, batch, now, valid, set r | r in st.log + batch);
    }
  }

  // ------------------------------------------------------------- the edits themselves

  /** The edit of column `c` is still in the row, and the next flush still announces it. */
  predicate StillPending(st: Replica, st': Replica, k: RowKey, c: Text) {
    k in st.rows && c in st.rows[k] && k in st'.rows && c in st'.rows[k]
    && st'.rows[k][c] == st.rows[k][c] && DueCell(st', k, st'.rows[k], c)
  }

  /** An edit not yet flushed survives a remote batch exactly when: if the column has a winning value
      already, the batch brings nothing new about the row, not even about another column; if it has none,
      the row stays and no value for that column arrives. */
  lemma PendingEditSurvivesIff(st: Replica, batch: seq<ChangeRecord>, now: Clockwork, valid: ChangeRecord -> bool,
                               all: set<ChangeRecord>, k: RowKey, c: Text)
    requires Indexed(st) && OnePerStamp(all) && From(st.log, all) && From(batch, all)
    requires k.tbl in st.specs && c in st.specs[k.tbl].cols && k in st.rows && DueCell(st, k, st.rows[k], c)
    ensures StillPending(st, ApplyRemote(st, batch, now, valid), k, c) <==>
            if CellKey(k, c) in st.cells then !Touched(st, batch, valid, k)
            else && (Touched(st, batch, valid, k) ==> EditedSinceDeleted(Joined(st, batch, valid), k))
                 && forall r :: r in Accepted(batch, valid) ==> !IsCell(r, CellKey(k, c))
  {
    RowAcrossBatch(st, batch, now, valid, all, k);
    CellArrives(st, batch, now, valid, all, k, c);
    hide ApplyRemote, Received, Accepted, Indexed, OnePerStamp, Joined, EditedSinceDeleted;
    var st' := ApplyRemote(st, batch, now, valid);
    if Touched(st, batch, valid, k) {
      hide Touched;
      if k in st'.rows {
        RewrittenColumn(st, st', Received(st, batch, now, valid), k, c);
      }
    } else {
      FreshIsTouched(st, batch, now, valid, all, k);
      UntouchedCells(st, batch, now, valid, k, c);
      hide Touched, DueCell;
      assert st'.rows[k] == Get(st'.rows, k).value;
      DueIsLocal(st, st', k, st.rows[k], c);
      assert CellKey(k, c) in st.cells <==> Get(st.cells, CellKey(k, c)).Some?;
    }
  }

  /** A deletion not yet flushed survives a remote batch exactly when the batch brings nothing new about the
      row, or the records then held have no edit of it after every deletion. */
  lemma PendingDeleteSurvivesIff(st: Replica, batch: seq<ChangeRecord>, now: Clockwork, valid: ChangeRecord -> bool,
                                 all: set<ChangeRecord>, k: RowKey)
    requires Indexed(st) && OnePerStamp(all) && From(st.log, all) && From(batch, all)
    requires k.tbl in st.specs && k !in st.rows
    ensures k !in ApplyRemote(st, batch, now, valid).rows <==>
            !(Touched(st, batch, valid, k) && EditedSinceDeleted(Joined(st, batch, valid), k))
  {
    hide ApplyRemote, Indexed, OnePerStamp, Touched, Joined, EditedSinceDeleted;
    RowAcrossBatch(st, batch, now, valid, all, k);
  }

  /** The column has a cell after the batch if it had one before or a value for it arrived. */
  lemma CellArrives(st: Replica, batch: seq<ChangeRecord>, now: Clockwork, valid: ChangeRecord -> bool,
                    all: set<ChangeRecord>, k: RowKey, c: Text)
    requires Indexed(st) && OnePerStamp(all) && From(st.log, all) && From(batch, all)
    ensures CellKey(k, c) in Received(st, batch, now, valid).cells <==>
            CellKey(k, c) in st.cells || exists r :: r in Accepted(batch, valid) && IsCell(r, CellKey(k, c))
  {
    ReceivedJoins(st, batch, now, valid, all);
    var p, key := Received(st, batch, now, valid), CellKey(k, c);
    hide Received, Accepted, OnePerStamp;
    CellIffWritten(st, key);
    CellIffWritten(p, key);
    hide Indexed, IsCell;
    forall r
      ensures r in p.log <==> r in st.log || r in Accepted(batch, valid)
    {
    }
  }

  lemma CellIffWritten(st: Replica, key: CellKey)
    requires Indexed(st)
    ensures key in st.cells <==> exists r :: r in st.log && IsCell(r, key)
  {
    if r :| r in st.log && IsCell(r, key) {
      assert CellOf(r) in st.cells;
    }
  }

  /** A rewritten row shows the winning value of every column that has one; the others stay. */
  lemma RewrittenColumn(st: Replica, st': Replica, p: Replica, k: RowKey, c: Text)
    requires k.tbl in st.specs && c in st.specs[k.tbl].cols && k in st.rows && c in st.rows[k] && k in st'.rows
    requires p.specs == st.specs && st'.cells == p.cells && st'.rows[k] == st.rows[k] + KnownCells(p, k)
    ensures StillPending(st, st', k, c) <==> CellKey(k, c) !in p.cells
  {
    hide ToStorage;
  }

  lemma UntouchedCells(st: Replica, batch: seq<ChangeRecord>, now: Clockwork, valid: ChangeRecord -> bool, k: RowKey,
                       c: Text)
    requires k.tbl in st.specs && |st.log| <= |Received(st, batch, now, valid).log|
    requires k !in DirtyRows(st, Fresh(st, Received(st, batch, now, valid)))
    ensures Get(Received(st, batch, now, valid).cells, CellKey(k, c)) == Get(st.cells, CellKey(k, c))
  {
    var acc := Accepted(batch, valid);
    hide Accepted, SortByStamp, ReceiveAll, Known, Grown;
    ReceiveFrame(st, SortByStamp(acc), |acc|, now, k);
    var p := Received(st, batch, now, valid);
    forall r | r in Fresh(st, p)
      ensures RowOf(r) != k
    {
    }
    assert SameRow(st, p, k);
    assert CellKey(k, c) in st.cells <==> CellKey(k, c) in p.cells;
  }
}
