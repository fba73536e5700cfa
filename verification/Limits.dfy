/** Concrete runs of an empty device in which an obvious promise fails, one for each condition that the
    theorems ask for. */
module Limits {
  import opened Bytes
  import opened HybridLogicalClock
  import opened Change
  import opened Replicas
  import opened Index
  import opened Convergence
  import opened Projection
  import opened Flushes
  import opened LastWriter
  import opened Settling
  import opened Runs
  import opened Network

  const TBL: Text := [116]
  const COL: Text := [99]
  const COL2: Text := [100]
  const KEY := RowKey(TBL, [1])
  const CELL := CellKey(KEY, COL)
  const OLD := Str([1])
  const NEW := Str([2])

  /** Records by another device. */
  const FIRST := ChangeRecord(TBL, [1], COL, OLD, Hlc(10, 0), [9], CellChange, [])
  const SECOND := FIRST.(hlc := Hlc(20, 0), value := NEW)
  const GONE := ChangeRecord(TBL, [1], [], Null, Hlc(50, 0), [9], DeleteChange, [])
  const FAR := FIRST.(hlc := Hlc(1_000_000_000, 0))
  const AHEAD := FIRST.(hlc := Hlc(50_000, 0))
  const LAST := FIRST.(pk := [2], hlc := Hlc(1000, MAX_U32))
  const MINE := FIRST.(hlc := Hlc(150, 0), origin := [7])
  const MINE_LATER := MINE.(hlc := Hlc(160, 0))
  const ELSEWHERE := FIRST.(col := COL2, hlc := Hlc(30, 0))

  /** A device that holds nothing yet: one registered table, clock at 100. */
  function Empty(cols: seq<Text>): Replica {
    Replica([7], map[TBL := TableSpec(cols, map[])], [], map[], map[], map[], [], false, map[], Hlc(100, 0), 0)
  }

  function At(ms: U64): Clockwork {
    (i: nat) => ms
  }

  function Unsigned(): ChangeRecord -> Text {
    (r: ChangeRecord) => []
  }

  function Always(): ChangeRecord -> bool {
    (r: ChangeRecord) => true
  }

  /** The device after a batch of one record. */
  function With(st: Replica, r: ChangeRecord): Replica {
    ApplyRemote(st, [r], At(200), Always())
  }

  // ------------------------------------------------------------------ the states

  /** What the examples start from: exact tables and exact indexes. */
  ghost predicate InOrder(st: Replica) {
    Projects(st) && Indexed(st)
  }

  lemma EmptyInOrder(cols: seq<Text>)
    requires Distinct(cols)
    ensures InOrder(Empty(cols))
  {
    forall k
      ensures RowOk(Empty(cols), k)
    {
    }
  }

  /** Nothing is pending, and one more record by another device arrives. */
  lemma WithInOrder(st: Replica, r: ChangeRecord)
    requires InOrder(st) && st.ops == [] && r.origin != [] && r.tbl != [] && !Held(st.log, StampOf(r))
    ensures var p := With(st, r);
            && InOrder(p) && p.log == st.log + [r] && p.ops == [] && p.specs == st.specs && p.id == st.id
            && p.cells == (if r.kind.CellChange? then UpsertCell(st.cells, r) else st.cells)
            && p.tombs == (if r.kind.DeleteChange? then UpsertTombstone(st.tombs, r) else st.tombs)
            && p.clock == Observed(st.clock, 200, r.hlc)
  {
    ApplyOne(st, r, At(200), Always());
    hide ApplyRemote, Projects, Indexed, MaterializeAll, DirtyRows, UpsertCell, UpsertTombstone;
    ApplyKeepsProjection(st, [r], At(200), Always());
    ApplyKeepsIndex(st, [r], At(200), Always());
  }

  lemma WriteInOrder(st: Replica, w: SqlWrite)
    requires InOrder(st) && WellShaped(st, w)
    ensures InOrder(Execute(st, w))
  {
    hide Projects, Indexed, Execute;
    ExecuteKeepsProjection(st, w);
    SqlFrame(st, w);
    SameIndexes(st, Execute(st, w));
  }

  lemma SameIndexes(st: Replica, st': Replica)
    requires Indexed(st) && st'.log == st.log && st'.cells == st.cells && st'.tombs == st.tombs && st'.vv == st.vv
    ensures Indexed(st')
  {
  }

  /** With nothing pending, a live row of one column shows its cell. */
  lemma OneColumnRow(st: Replica, v: SqlValue)
    requires Projects(st) && st.ops == [] && TBL in st.specs && st.specs[TBL] == TableSpec([COL], map[])
    requires CELL in st.cells && st.cells[CELL].value == v && KEY !in st.tombs
    ensures Get(st.rows, KEY) == Some(map[COL := v])
  {
    assert RowOk(st, KEY);
    assert CELL.row == KEY;
    assert KnownCells(st, KEY) == map[COL := v];
    assert DefaultRow(st.specs[TBL]) + KnownCells(st, KEY) == map[COL := v];
  }

  /** The columns of the two tables used here. */
  lemma Shapes(st: Replica, v: SqlValue, w: SqlValue)
    ensures st.specs == Empty([COL]).specs ==>
              WellShaped(st, Insert(KEY, map[COL := v])) && WellShaped(st, Update(KEY, map[COL := v]))
    ensures st.specs == Empty([COL, COL2]).specs ==>
              && WellShaped(st, Insert(KEY, map[COL := v, COL2 := w]))
              && WellShaped(st, Update(KEY, map[COL := v, COL2 := w]))
  {
    assert ColSet(TableSpec([COL], map[])) == {COL};
    assert ColSet(TableSpec([COL, COL2], map[])) == {COL, COL2};
  }

  /** One local write with nothing pending before it. */
  lemma StagedWrite(st: Replica, row: Row)
    requires !st.guard && TBL in st.specs && st.ops == []
    ensures var after := st.(rows := st.rows[KEY := row], ops := [StagedOp(KEY, Upsert)]);
            && (KEY !in st.rows ==> Execute(st, Insert(KEY, row)) == after)
            && (KEY in st.rows ==> Execute(st, Update(KEY, row)) == after)
  {
  }

  lemma OneStaged(op: Op)
    ensures FirstSeen([StagedOp(KEY, op)]) == [KEY] && FinalOps([StagedOp(KEY, op)]) == map[KEY := op]
  {
    var ops := [StagedOp(KEY, op)];
    assert ops[..0] == [];
    assert FirstSeen([]) == [] && FinalOps([]) == map[];
  }

  /** A flush of the one staged row. */
  lemma FlushOfOne(st: Replica, op: Op, now: Clockwork, sign: ChangeRecord -> Text)
    requires st.ops == [StagedOp(KEY, op)]
    ensures var f := FlushRow(Flushing(st, []), KEY, op, now, sign);
            FlushLocal(st, now, sign) == f.(st := f.st.(ops := []))
  {
    OneStaged(op);
    assert FlushRows(Flushing(st, []), [KEY], 0, map[KEY := op], now, sign) == Flushing(st, []);
  }

  lemma FlushOfOneColumn(st: Replica, v: SqlValue, now: Clockwork, sign: ChangeRecord -> Text)
    requires TBL in st.specs && st.specs[TBL].cols == [COL] && KEY in st.rows && st.rows[KEY] == map[COL := v]
    ensures FlushRow(Flushing(st, []), KEY, Upsert, now, sign) ==
            if CellMatches(st.cells, KEY, COL, v) then Flushing(st, [])
            else Emit(Flushing(st, []), CellDraft(st, KEY, COL, v), now, sign)
  {
    assert FlushCols(Flushing(st, []), KEY, st.rows[KEY], [COL], 0, now, sign) == Flushing(st, []);
  }

  // ---------------------------------------------------------------- the examples

  /** A row that was written, deleted elsewhere, and is now inserted again with its old value. */
  function Reinserted(): Replica {
    Execute(With(With(Empty([COL]), FIRST), GONE), Insert(KEY, map[COL := OLD]))
  }

  lemma ReinsertedState()
    ensures var st := Reinserted();
            && InOrder(st) && st.ops == [StagedOp(KEY, Upsert)] && Get(st.rows, KEY) == Some(map[COL := OLD])
            && st.specs == Empty([COL]).specs && st.cells == map[CELL := Cell(OLD, StampOf(FIRST))]
            && st.tombs == map[KEY := StampOf(GONE)]
  {
    hide InOrder, With, WellShaped, Execute, Observed;
    EmptyInOrder([COL]);
    var a := With(Empty([COL]), FIRST);
    WithInOrder(Empty([COL]), FIRST);
    var b := With(a, GONE);
    assert a.log == [FIRST];
    WithInOrder(a, GONE);
    DeletedRowIsGone(b);
    Shapes(b, OLD, OLD);
    StagedWrite(b, map[COL := OLD]);
    WriteInOrder(b, Insert(KEY, map[COL := OLD]));
  }

  lemma DeletedRowIsGone(st: Replica)
    requires InOrder(st) && st.ops == [] && TBL in st.specs && KEY in st.tombs
    requires st.cells == map[CELL := Cell(OLD, StampOf(FIRST))] && st.tombs[KEY] == StampOf(GONE)
    ensures KEY !in st.rows && !st.guard
  {
    assert RowOk(st, KEY);
    assert Outranked(st, KEY);
  }

  /** The flush stays silent about it, and the row stays present here while the shared state holds it deleted. */
  lemma ReinsertedRowIsNeverAnnounced()
    ensures var st := Reinserted();
            var f := FlushLocal(st, At(200), Unsigned());
            && Projects(st) && Indexed(st) && Suppressed(st, KEY)
            && f.out == [] && KEY in f.st.rows && TBL in f.st.specs && Projected(f.st, KEY) == None
  {
    ReinsertedState();
    var st := Reinserted();
    hide Reinserted, Projects, Indexed, FlushLocal;
    FlushOfOne(st, Upsert, At(200), Unsigned());
    FlushOfOneColumn(st, OLD, At(200), Unsigned());
    assert Outranked(st, KEY) && Outranked(st.(ops := []), KEY);
  }

  /** A row held with a stamp far beyond the drift window, and a local edit of it. */
  function EditOfFar(): Replica {
    Execute(With(Empty([COL]), FAR), Update(KEY, map[COL := NEW]))
  }

  lemma EditOfFarState()
    ensures var st := EditOfFar();
            && InOrder(st) && st.ops == [StagedOp(KEY, Upsert)] && Get(st.rows, KEY) == Some(map[COL := NEW])
            && st.specs == Empty([COL]).specs && st.cells == map[CELL := Cell(OLD, StampOf(FAR))]
            && st.id == [7] && st.clock == Hlc(200, 0)
  {
    hide InOrder, With, WellShaped, Execute;
    EmptyInOrder([COL]);
    var a := With(Empty([COL]), FAR);
    WithInOrder(Empty([COL]), FAR);
    hide Observed;
    ShownAndUnguarded(a);
    Shapes(a, NEW, NEW);
    StagedWrite(a, map[COL := NEW]);
    WriteInOrder(a, Update(KEY, map[COL := NEW]));
  }

  lemma ShownAndUnguarded(st: Replica)
    requires InOrder(st) && st.ops == [] && TBL in st.specs && st.specs[TBL] == TableSpec([COL], map[])
    requires CELL in st.cells && KEY !in st.tombs
    ensures Get(st.rows, KEY).Some? && !st.guard
  {
    OneColumnRow(st, st.cells[CELL].value);
  }

  /** The far stamp was not absorbed, so the edit is stamped below it: it is logged and sent, yet the old value
      keeps the cell here, and the edit is the last write nowhere where the far record is held. */
  lemma LocalEditLosesToFutureStamp()
    ensures var st := EditOfFar();
            var f := FlushLocal(st, At(200), Unsigned());
            && Projects(st) && Indexed(st)
            && |f.out| == 1 && f.out[0].value == NEW && IsCell(f.out[0], CELL)
            && Get(f.st.cells, CELL) == Some(Cell(OLD, StampOf(FAR))) && Get(f.st.rows, KEY) == Some(map[COL := NEW])
            && forall log :: FAR in log ==> !LastWrite(log, KEY, COL, f.out[0])
  {
    EditOfFarState();
    var st := EditOfFar();
    hide EditOfFar, Projects, Indexed, FlushLocal;
    FlushOfOne(st, Upsert, At(200), Unsigned());
    FlushOfOneColumn(st, NEW, At(200), Unsigned());
    StorageInjective(OLD, NEW);
    assert !CellMatches(st.cells, KEY, COL, NEW);
    var f := FlushLocal(st, At(200), Unsigned());
    assert f.out[0].hlc == Hlc(200, 1);
    forall log | FAR in log
      ensures !LastWrite(log, KEY, COL, f.out[0])
    {
      OutrankedNeverShows(log, KEY, COL, FAR, f.out[0]);
    }
  }

  /** A row held with a stamp inside the drift window, a restart, and a local edit of it. */
  function EditAfterRestart(): Replica {
    Execute(Reopen(With(Empty([COL]), AHEAD), []), Update(KEY, map[COL := NEW]))
  }

  lemma EditAfterRestartState()
    ensures var st, before := EditAfterRestart(), With(Empty([COL]), AHEAD);
            && InOrder(st) && st.ops == [StagedOp(KEY, Upsert)] && Get(st.rows, KEY) == Some(map[COL := NEW])
            && st.specs == Empty([COL]).specs && st.cells == map[CELL := Cell(OLD, StampOf(AHEAD))]
            && st.id == [7] && st.clock == ZERO && Less(AHEAD.hlc, before.clock)
  {
    hide InOrder, With, WellShaped, Execute;
    EmptyInOrder([COL]);
    var a := With(Empty([COL]), AHEAD);
    WithInOrder(Empty([COL]), AHEAD);
    assert InWindow(AHEAD.hlc, 200);
    hide Observed;
    ShownAndUnguarded(a);
    var b := Reopen(a, []);
    ReopenedInOrder(a);
    Shapes(b, NEW, NEW);
    StagedWrite(b, map[COL := NEW]);
    WriteInOrder(b, Update(KEY, map[COL := NEW]));
  }

  lemma ReopenedInOrder(st: Replica)
    requires InOrder(st) && st.log == [AHEAD] && st.id == [7] && st.ops == []
    ensures InOrder(Reopen(st, [])) && Reopen(st, []) == st.(clock := ZERO)
  {
    assert [AHEAD][..0] == [] && OwnMaximum([AHEAD], [7]) == None;
    assert st.ops + [] == st.ops;
    forall k | k in st.rows && k.tbl in st.specs
      ensures exists c :: c in st.cells && c.row == k
    {
      assert RowOk(st, k) && Alive(st, k);
    }
    hide Projects, RowOk;
    ReopenKeepsProjection(st, []);
  }

  /** A restart takes the clock back to the device's own records, so what was received and absorbed before is ahead
      of it again: an edit of a row that was seen, and lay inside the window, is stamped below it. */
  lemma RestartForgetsWhatWasSeen()
    ensures var st, before := EditAfterRestart(), With(Empty([COL]), AHEAD);
            var f := FlushLocal(st, At(200), Unsigned());
            && Projects(st) && Indexed(st) && InWindow(AHEAD.hlc, 200) && Less(AHEAD.hlc, before.clock)
            && |f.out| == 1 && f.out[0].value == NEW && IsCell(f.out[0], CELL) && Less(f.out[0].hlc, AHEAD.hlc)
            && forall log :: AHEAD in log ==> !LastWrite(log, KEY, COL, f.out[0])
  {
    EditAfterRestartState();
    var st := EditAfterRestart();
    hide EditAfterRestart, Projects, Indexed, FlushLocal, With;
    FlushOfOne(st, Upsert, At(200), Unsigned());
    FlushOfOneColumn(st, NEW, At(200), Unsigned());
    StorageInjective(OLD, NEW);
    assert !CellMatches(st.cells, KEY, COL, NEW);
    var f := FlushLocal(st, At(200), Unsigned());
    assert f.out[0].hlc == Hlc(200, 0);
    forall log | AHEAD in log
      ensures !LastWrite(log, KEY, COL, f.out[0])
    {
      OutrankedNeverShows(log, KEY, COL, AHEAD, f.out[0]);
    }
  }

  /** A row inserted here and not flushed yet. */
  function PendingInsert(): Replica {
    Execute(Empty([COL]), Insert(KEY, map[COL := NEW]))
  }

  lemma PendingInsertState()
    ensures InOrder(PendingInsert())
    ensures PendingInsert() == Empty([COL]).(rows := map[KEY := map[COL := NEW]], ops := [StagedOp(KEY, Upsert)])
  {
    hide InOrder, WellShaped, Execute;
    EmptyInOrder([COL]);
    EmptyUnguarded();
    Shapes(Empty([COL]), NEW, NEW);
    StagedWrite(Empty([COL]), map[COL := NEW]);
    WriteInOrder(Empty([COL]), Insert(KEY, map[COL := NEW]));
  }

  lemma EmptyUnguarded()
    ensures !Empty([COL]).guard && TBL in Empty([COL]).specs
  {
  }

  lemma TombstoneRemovesRow(st: Replica)
    requires st == Empty([COL]).(rows := map[KEY := map[COL := NEW]], ops := [StagedOp(KEY, Upsert)])
    ensures KEY !in With(st, GONE).rows && With(st, GONE).ops == st.ops && With(st, GONE).specs == st.specs
  {
    ApplyOne(st, GONE, At(200), Always());
    hide ApplyRemote;
    var p := Receive(st, GONE, 200);
    assert KEY in DirtyRows(st, [GONE]);
    assert Outranked(p, KEY) && Known(p, KEY);
    assert RowAfter(p, DirtyRows(st, [GONE]), KEY) == None;
  }

  /** It meets a remote tombstone before its flush and is lost without a trace. */
  lemma PendingInsertIsLost()
    ensures var st, met := PendingInsert(), With(PendingInsert(), GONE);
            && Projects(st) && Indexed(st) && KEY in st.rows
            && KEY !in met.rows && FlushLocal(met, At(300), Unsigned()).out == []
  {
    PendingInsertState();
    hide Projects, Indexed, With, FlushLocal, PendingInsert;
    TombstoneRemovesRow(PendingInsert());
    FlushOfOne(With(PendingInsert(), GONE), Upsert, At(300), Unsigned());
  }

  /** A row of two columns, one of them edited here and not flushed yet. */
  function PendingUpdate(): Replica {
    Execute(With(Empty([COL, COL2]), FIRST), Update(KEY, map[COL := NEW, COL2 := Null]))
  }

  lemma PendingUpdateState()
    ensures var st := PendingUpdate();
            && InOrder(st) && st.ops == [StagedOp(KEY, Upsert)] && st.log == [FIRST]
            && Get(st.rows, KEY) == Some(map[COL := NEW, COL2 := Null]) && st.tombs == map[]
            && st.specs == Empty([COL, COL2]).specs && st.cells == map[CELL := Cell(OLD, StampOf(FIRST))]
  {
    hide InOrder, With, WellShaped, Execute, Observed;
    EmptyInOrder([COL, COL2]);
    var a := With(Empty([COL, COL2]), FIRST);
    WithInOrder(Empty([COL, COL2]), FIRST);
    TwoColumnRow(a);
    Shapes(a, NEW, Null);
    StagedWrite(a, map[COL := NEW, COL2 := Null]);
    WriteInOrder(a, Update(KEY, map[COL := NEW, COL2 := Null]));
  }

  lemma TwoColumnRow(st: Replica)
    requires InOrder(st) && st.ops == [] && TBL in st.specs && CELL in st.cells && KEY !in st.tombs
    ensures KEY in st.rows && !st.guard
  {
    assert RowOk(st, KEY);
    assert CELL.row == KEY;
  }

  /** A new record about the other column arrives: the row is rewritten from the cells and the edit is gone. */
  lemma RewrittenByOtherColumn(st: Replica)
    requires TBL in st.specs && st.specs[TBL] == TableSpec([COL, COL2], map[]) && KEY !in st.tombs
    requires st.cells == map[CELL := Cell(OLD, StampOf(FIRST))] && st.log == [FIRST]
    requires Get(st.rows, KEY) == Some(map[COL := NEW, COL2 := Null])
    ensures var met := With(st, ELSEWHERE);
            && met.ops == st.ops && met.specs == st.specs && Get(met.rows, KEY) == Some(map[COL := OLD, COL2 := OLD])
            && met.cells == st.cells[CellKey(KEY, COL2) := Cell(OLD, StampOf(ELSEWHERE))]
  {
    ApplyOne(st, ELSEWHERE, At(200), Always());
    ReceivedElsewhere(st);
    hide ApplyRemote, Receive, MaterializeAll, DirtyRows;
    var p := Receive(st, ELSEWHERE, 200);
    OneDirtyRow(st, p);
    RewrittenRow(p);
  }

  lemma ReceivedElsewhere(st: Replica)
    requires st.log == [FIRST] && st.cells == map[CELL := Cell(OLD, StampOf(FIRST))]
    ensures var p := Receive(st, ELSEWHERE, 200);
            && p.cells == st.cells[CellKey(KEY, COL2) := Cell(OLD, StampOf(ELSEWHERE))]
            && p.tombs == st.tombs && p.rows == st.rows && p.specs == st.specs && p.ops == st.ops
  {
    hide Bump, Observed;
    assert st.log[0] == FIRST;
  }

  lemma OneDirtyRow(st: Replica, p: Replica)
    requires TBL in st.specs && TBL in p.specs
    ensures Get(MaterializeAll(p, DirtyRows(st, [ELSEWHERE])), KEY) == Materialized(p, KEY)
  {
    hide Materialized;
    assert ELSEWHERE in [ELSEWHERE];
    assert KEY in DirtyRows(st, [ELSEWHERE]);
    assert RowAfter(p, DirtyRows(st, [ELSEWHERE]), KEY) == Materialized(p, KEY);
  }

  lemma RewrittenRow(p: Replica)
    requires TBL in p.specs && p.specs[TBL] == TableSpec([COL, COL2], map[]) && KEY !in p.tombs
    requires p.cells == map[CELL := Cell(OLD, StampOf(FIRST)), CellKey(KEY, COL2) := Cell(OLD, StampOf(ELSEWHERE))]
    requires Get(p.rows, KEY) == Some(map[COL := NEW, COL2 := Null])
    ensures Materialized(p, KEY) == Some(map[COL := OLD, COL2 := OLD])
  {
    assert CELL in p.cells && CELL.row == KEY;
    assert KnownCells(p, KEY) == map[COL := OLD, COL2 := OLD];
    assert p.rows[KEY] + KnownCells(p, KEY) == map[COL := OLD, COL2 := OLD];
  }

  /** The other device edited the other column of the row; the edit made here is overwritten before it is ever
      announced, the tables stay exact throughout, and the next flush has nothing to say. */
  lemma PendingUpdateIsLost()
    ensures var st, met := PendingUpdate(), With(PendingUpdate(), ELSEWHERE);
            && InOrder(st) && KEY in st.rows && DueCell(st, KEY, st.rows[KEY], COL) && st.rows[KEY][COL] == NEW
            && Projects(met) && Get(met.rows, KEY) == Some(map[COL := OLD, COL2 := OLD])
            && FlushLocal(met, At(300), Unsigned()).out == []
  {
    PendingUpdateState();
    var st, met := PendingUpdate(), With(PendingUpdate(), ELSEWHERE);
    hide PendingUpdate, InOrder, FlushLocal, With;
    RewrittenByOtherColumn(st);
    StorageInjective(OLD, NEW);
    assert DueCell(st, KEY, st.rows[KEY], COL);
    LostUpdateProjects(st);
    hide DueCell;
    TwoMatchingColumns(met);
  }

  lemma TwoMatchingColumns(st: Replica)
    requires st.ops == [StagedOp(KEY, Upsert)] && TBL in st.specs && st.specs[TBL].cols == [COL, COL2]
    requires Get(st.rows, KEY) == Some(map[COL := OLD, COL2 := OLD])
    requires st.cells == map[CELL := Cell(OLD, StampOf(FIRST)), CellKey(KEY, COL2) := Cell(OLD, StampOf(ELSEWHERE))]
    ensures FlushLocal(st, At(300), Unsigned()).out == []
  {
    FlushOfOne(st, Upsert, At(300), Unsigned());
    hide FlushLocal, FlushCols, ToStorage;
    assert st.rows[KEY] == map[COL := OLD, COL2 := OLD];
    MatchingRowIsSilent(Flushing(st, []), KEY, st.rows[KEY], [COL, COL2], 2, At(300), Unsigned());
  }

  lemma LostUpdateProjects(st: Replica)
    requires InOrder(st) && st.ops == [StagedOp(KEY, Upsert)] && KEY in st.rows
    requires KEY in With(st, ELSEWHERE).rows
    ensures Projects(With(st, ELSEWHERE))
  {
    hide Projects, ApplyRemote;
    ApplyProjectsByPresence(st, [ELSEWHERE], At(200), Always());
    forall k | Staged(st.ops, k)
      ensures k == KEY
    {
    }
  }

  /** A new row of two columns, on a device that has seen a stamp with the last counter there is. */
  function Saturated(): Replica {
    Execute(With(Empty([COL, COL2]), LAST), Insert(KEY, map[COL := OLD, COL2 := NEW]))
  }

  lemma SaturatedState()
    ensures var st := Saturated();
            && InOrder(st) && st.ops == [StagedOp(KEY, Upsert)] && st.log == [LAST]
            && Get(st.rows, KEY) == Some(map[COL := OLD, COL2 := NEW]) && st.specs == Empty([COL, COL2]).specs
            && st.cells == map[CellKey(RowOf(LAST), COL) := Cell(OLD, StampOf(LAST))]
            && st.id == [7] && st.clock == Hlc(1000, MAX_U32)
  {
    hide InOrder, With, WellShaped, Execute;
    EmptyInOrder([COL, COL2]);
    var a := With(Empty([COL, COL2]), LAST);
    WithInOrder(Empty([COL, COL2]), LAST);
    hide Observed;
    UnknownRowIsAbsent(a);
    assert RowOf(LAST) != KEY;
    Shapes(a, OLD, NEW);
    StagedWrite(a, map[COL := OLD, COL2 := NEW]);
    WriteInOrder(a, Insert(KEY, map[COL := OLD, COL2 := NEW]));
  }

  lemma UnknownRowIsAbsent(st: Replica)
    requires InOrder(st) && st.ops == [] && TBL in st.specs && forall c :: c in st.cells ==> c.row != KEY
    ensures KEY !in st.rows && !st.guard
  {
    assert RowOk(st, KEY);
  }

  /** A flush of a row both of whose columns have no cell yet. */
  lemma FlushOfTwoColumns(st: Replica, now: Clockwork, sign: ChangeRecord -> Text)
    requires TBL in st.specs && st.specs[TBL].cols == [COL, COL2]
    requires Get(st.rows, KEY) == Some(map[COL := OLD, COL2 := NEW])
    requires CELL !in st.cells && CellKey(KEY, COL2) !in st.cells
    ensures FlushRow(Flushing(st, []), KEY, Upsert, now, sign) ==
            Emit(Emit(Flushing(st, []), CellDraft(st, KEY, COL, OLD), now, sign), CellDraft(st, KEY, COL2, NEW),
                 now, sign)
  {
    var f0, row, cols := Flushing(st, []), st.rows[KEY], [COL, COL2];
    var f1 := Emit(f0, CellDraft(st, KEY, COL, OLD), now, sign);
    assert FlushCols(f0, KEY, row, cols, 0, now, sign) == f0;
    assert FlushCols(f0, KEY, row, cols, 1, now, sign) == f1;
    assert CellKey(KEY, COL2) !in f1.st.cells;
    hide Emit;
    assert FlushCols(f0, KEY, row, cols, 2, now, sign) == Emit(f1, CellDraft(st, KEY, COL2, NEW), now, sign);
  }

  /** Two emissions from the saturated clock: the second record is not stored, its cell is. */
  lemma SecondEmissionIsDropped(st: Replica)
    requires st.log == [LAST] && st.id == [7] && st.clock == Hlc(1000, MAX_U32) && CellKey(KEY, COL2) !in st.cells
    ensures var f := Emit(Flushing(st, []), CellDraft(st, KEY, COL, OLD), At(200), Unsigned());
            var g := Emit(f, CellDraft(st, KEY, COL2, NEW), At(200), Unsigned());
            && |g.out| == 2 && StampOf(g.out[0]) == StampOf(g.out[1]) && g.out[0] != g.out[1]
            && g.st.log == [LAST, g.out[0]]
            && Get(g.st.cells, CellKey(KEY, COL2)) == Some(Cell(NEW, StampOf(g.out[1])))
            && CellOf(g.out[0]) == CELL && g.out[1] != LAST
  {
    hide Bump, StampLt;
    var f := Emit(Flushing(st, []), CellDraft(st, KEY, COL, OLD), At(200), Unsigned());
    assert [LAST][0] == LAST && StampOf(LAST).origin != [7];
    assert f.st.log == [LAST, f.out[0]] && f.out[0] in f.st.log;
  }

  /** The counter stands still until the system clock passes the stamp seen, so both records of the row get the
      same stamp. The second is sent but not stored, its cell rests on no record, and no page will carry it. */
  lemma SaturatedCounterLosesARecord()
    ensures var st := Saturated();
            var f := FlushLocal(st, At(200), Unsigned());
            && Projects(st) && Indexed(st)
            && |f.out| == 2 && StampOf(f.out[0]) == StampOf(f.out[1])
            && f.st.log == st.log + [f.out[0]] && f.out[1] !in f.st.log && !Indexed(f.st)
            && Get(f.st.cells, CellKey(KEY, COL2)) == Some(Cell(NEW, StampOf(f.out[1])))
  {
    SaturatedState();
    var st := Saturated();
    hide Saturated, Projects, FlushLocal, FlushRow, Emit, Indexed;
    assert CellKey(RowOf(LAST), COL) != CELL && CellKey(RowOf(LAST), COL) != CellKey(KEY, COL2);
    FlushOfOne(st, Upsert, At(200), Unsigned());
    FlushOfTwoColumns(st, At(200), Unsigned());
    SecondEmissionIsDropped(st);
    var f := FlushLocal(st, At(200), Unsigned());
    assert f.st.log == [LAST, f.out[0]];
    CellWithoutRecord(f.st, CellKey(KEY, COL2));
  }

  lemma CellWithoutRecord(st: Replica, key: CellKey)
    requires key in st.cells && forall r :: r in st.log ==> CellOf(r) != key
    ensures !Indexed(st)
  {
    hide UniqueStamps, TombsIndexed, VectorIndexed;
  }

  /** A row of a table that has no column besides its key. */
  function KeyOnly(): Replica {
    Execute(Empty([]), Insert(KEY, map[]))
  }

  lemma KeyOnlyState()
    ensures InOrder(KeyOnly())
    ensures KeyOnly() == Empty([]).(rows := map[KEY := map[]], ops := [StagedOp(KEY, Upsert)])
  {
    hide InOrder, Execute;
    EmptyInOrder([]);
    assert !Empty([]).guard && TBL in Empty([]).specs;
    assert ColSet(TableSpec([], map[])) == {};
    StagedWrite(Empty([]), map[]);
    WriteInOrder(Empty([]), Insert(KEY, map[]));
  }

  /** There is no column to announce, so nobody else ever hears of the row. */
  lemma KeyOnlyRowIsNeverAnnounced()
    ensures var st := KeyOnly();
            var f := FlushLocal(st, At(200), Unsigned());
            && Projects(st) && Indexed(st) && Suppressed(st, KEY)
            && f.out == [] && KEY in f.st.rows && TBL in f.st.specs && Projected(f.st, KEY) == None
  {
    KeyOnlyState();
    var st := KeyOnly();
    hide KeyOnly, Projects, Indexed, FlushLocal;
    FlushOfOne(st, Upsert, At(200), Unsigned());
    assert FlushCols(Flushing(st, []), KEY, st.rows[KEY], [], 0, At(200), Unsigned()) == Flushing(st, []);
  }

  /** A device restored from an older file meets its own records again, the later one first. */
  function Restored(): Replica {
    With(Empty([COL]), MINE_LATER)
  }

  lemma RestoredState()
    ensures var st := Restored();
            && InOrder(st) && OwnOrdered(st) && ClockOwn(st) && st.log == [MINE_LATER] && st.id == [7] && st.ops == []
  {
    hide InOrder, With;
    EmptyInOrder([COL]);
    WithInOrder(Empty([COL]), MINE_LATER);
  }

  /** Its log then holds its own records out of stamp order, which is the order they are sent in. */
  lemma RestoredDeviceDisordersItsLog()
    ensures var st := Restored();
            && Projects(st) && Indexed(st) && OwnOrdered(st) && ClockOwn(st)
            && With(st, MINE).log == [MINE_LATER, MINE] && !OwnOrdered(With(st, MINE))
  {
    RestoredState();
    hide With, Restored, Projects, Indexed, OwnOrdered, ClockOwn;
    MeetsMine(Restored());
    TwoDisordered(With(Restored(), MINE));
  }

  lemma MeetsMine(st: Replica)
    requires InOrder(st) && st.log == [MINE_LATER] && st.ops == []
    ensures With(st, MINE).log == [MINE_LATER, MINE] && With(st, MINE).id == st.id
  {
    MineIsLost(st.log);
    hide With, InOrder, Held, Observed, UpsertCell;
    WithInOrder(st, MINE);
  }

  lemma MineIsLost(log: seq<ChangeRecord>)
    requires log == [MINE_LATER]
    ensures !Held(log, StampOf(MINE))
  {
    assert [MINE_LATER][0] == MINE_LATER;
  }

  lemma TwoDisordered(st: Replica)
    requires st.log == [MINE_LATER, MINE] && st.id == [7]
    ensures !OwnOrdered(st)
  {
    assert st.log[0].origin == st.id == st.log[1].origin;
  }

  lemma SecondAlone()
    ensures var st' := With(Empty([COL]), SECOND);
            st'.log == [SECOND] && st'.vv == map[[9] := Hlc(20, 0)]
  {
    ApplyOne(Empty([COL]), SECOND, At(200), Always());
    hide ApplyRemote, MaterializeAll, DirtyRows, UpsertCell;
  }

  /** A push that overtakes the one before it: the vector jumps over the missing record, and no page
      answered to that vector brings it. */
  lemma OvertakingPushLosesARecord(sender: Replica, limit: nat)
    ensures var st := Empty([COL]);
            var st' := With(st, SECOND);
            && Closed(st, {FIRST, SECOND}) && !GapFree(st.vv, [SECOND], {FIRST, SECOND})
            && !Closed(st', {FIRST, SECOND})
            && FIRST !in st'.log && FIRST !in ChangesSince(sender, st'.vv, limit)
  {
    hide With, ChangesSince;
    var st := Empty([COL]);
    assert SECOND in [SECOND] && FIRST !in [SECOND];
    SecondAlone();
    var st' := With(st, SECOND);
    assert Covers(st'.vv, FIRST);
    GapNeverHeals(st', sender, FIRST, limit);
  }
}
