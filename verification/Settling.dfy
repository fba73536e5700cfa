/** When a flush leaves the app tables equal to their projection, and when an edit loses to a stamp that
    the clock has not reached. */
module Settling {
  import opened Bytes
  import opened HybridLogicalClock
  import opened Change
  import opened Replicas
  import opened Projection
  import opened Flushes
  import opened Index

  // ------------------------------------------- a flush against the clock

  /** The clock is at or past every stamp held for a row. */
  ghost predicate ClockAbove(st: Replica, k: RowKey) {
    && (k in st.tombs ==> Leq(st.tombs[k].hlc, st.clock))
    && (forall c :: c in st.cells && c.row == k ==> Leq(st.cells[c].stamp.hlc, st.clock))
  }

  /** A cell of the row ranks above the tombstone by its stamp's clock part. */
  ghost predicate Revived(st: Replica, k: RowKey) {
    exists c :: c in st.cells && c.row == k && (k in st.tombs ==> Less(st.tombs[k].hlc, st.cells[c].stamp.hlc))
  }

  lemma RevivedIsAlive(st: Replica, k: RowKey)
    requires Revived(st, k)
    ensures Alive(st, k)
  {
    var c :| c in st.cells && c.row == k && (k in st.tombs ==> Less(st.tombs[k].hlc, st.cells[c].stamp.hlc));
    if k in st.tombs {
      StampTotal(st.tombs[k], st.cells[c].stamp);
    }
  }

  /** The next tick of a flush is past its clock. */
  lemma NextTickIsPast(f: Flushing, now: Clockwork, start: Hlc)
    requires OnClock(f, start, now) && Rising(start, now, 0, |f.out| + 1)
    ensures var next := Ticked(f.st.clock, now(|f.out|));
            Less(f.st.clock, next) && next == TickNo(start, now, |f.out| + 1)
  {
    TickFreshIff(f.st.clock, now(|f.out|));
    assert Moves(TickNo(start, now, |f.out|), now(|f.out|));
  }

  /** Emitting a cell with a fresh tick always wins its key. */
  lemma EmitCellWins(f: Flushing, k: RowKey, c: Text, v: SqlValue, now: Clockwork, sign: ChangeRecord -> Text,
                     start: Hlc)
    requires ClockAbove(f.st, k) && OnClock(f, start, now) && Rising(start, now, 0, |f.out| + 1)
    ensures var g := Emit(f, CellDraft(f.st, k, c, v), now, sign);
            && OnClock(g, start, now) && ClockAbove(g.st, k) && Revived(g.st, k)
            && |g.out| == |f.out| + 1
            && Get(g.st.cells, CellKey(k, c)).Some? && g.st.cells[CellKey(k, c)].value == v
            && (forall d :: d != CellKey(k, c) ==> Get(g.st.cells, d) == Get(f.st.cells, d))
            && g.st.tombs == f.st.tombs
  {
    NextTickIsPast(f, now, start);
    hide TickNo, Rising, Moves, Ticked, ToStorage;
    var g := Emit(f, CellDraft(f.st, k, c, v), now, sign);
    var key := CellKey(k, c);
    assert g.st.clock == Ticked(f.st.clock, now(|f.out|));
    assert key in g.st.cells && g.st.cells[key].stamp.hlc == g.st.clock && g.st.cells[key].value == v;
  }

  lemma {:induction false} OutNeverShrinks(f: Flushing, k: RowKey, values: Row, cols: seq<Text>, n: nat, m: nat,
                                           now: Clockwork, sign: ChangeRecord -> Text)
    requires m <= n <= |cols|
    ensures |FlushCols(f, k, values, cols, m, now, sign).out| <= |FlushCols(f, k, values, cols, n, now, sign).out|
  {
    hide Emit, CellMatches;
    if m < n {
      OutNeverShrinks(f, k, values, cols, n - 1, m, now, sign);
    }
  }

  /** The first `n` columns of a present row, flushed with a clock that is not behind. */
  ghost predicate ColsFlushed(f: Flushing, g: Flushing, k: RowKey, values: Row, cols: seq<Text>, n: nat)
    requires n <= |cols| && forall c :: c in cols ==> c in values
  {
    && ClockAbove(g.st, k) && g.st.tombs == f.st.tombs
    && (forall i :: 0 <= i < n ==> Get(g.st.cells, CellKey(k, cols[i])).Some?
                                   && g.st.cells[CellKey(k, cols[i])].value == values[cols[i]])
    && (if |g.out| == |f.out| then
          g == f && forall i :: 0 <= i < n ==> CellMatches(f.st.cells, k, cols[i], values[cols[i]])
        else
          && |g.out| > |f.out| && Revived(g.st, k)
          && exists i :: 0 <= i < n && !CellMatches(f.st.cells, k, cols[i], values[cols[i]]))
  }

  lemma {:induction false} FlushColsWin(f: Flushing, k: RowKey, values: Row, cols: seq<Text>, n: nat,
                                        now: Clockwork, sign: ChangeRecord -> Text, start: Hlc)
    requires n <= |cols| && forall c :: c in cols ==> c in values
    requires ClockAbove(f.st, k) && OnClock(f, start, now)
    requires Rising(start, now, 0, |FlushCols(f, k, values, cols, n, now, sign).out|)
    ensures OnClock(FlushCols(f, k, values, cols, n, now, sign), start, now)
    ensures ColsFlushed(f, FlushCols(f, k, values, cols, n, now, sign), k, values, cols, n)
  {
    hide Emit, CellMatches, ClockAbove, Revived, OnClock, ColsFlushed, Rising;
    if n == 0 {
      NoColsFlushed(f, k, values, cols);
    } else {
      OutNeverShrinks(f, k, values, cols, n, n - 1, now, sign);
      RisingPrefix(start, now, 0, |FlushCols(f, k, values, cols, n - 1, now, sign).out|,
                   |FlushCols(f, k, values, cols, n, now, sign).out|);
      FlushColsWin(f, k, values, cols, n - 1, now, sign, start);
      hide FlushCols;
      FlushColWins(f, k, values, cols, n, now, sign, start);
    }
  }

  lemma NoColsFlushed(f: Flushing, k: RowKey, values: Row, cols: seq<Text>)
    requires ClockAbove(f.st, k) && forall c :: c in cols ==> c in values
    ensures ColsFlushed(f, f, k, values, cols, 0)
  {
  }

  lemma FlushColWins(f: Flushing, k: RowKey, values: Row, cols: seq<Text>, n: nat,
                     now: Clockwork, sign: ChangeRecord -> Text, start: Hlc)
    requires 0 < n <= |cols| && forall c :: c in cols ==> c in values
    requires ColsFlushed(f, FlushCols(f, k, values, cols, n - 1, now, sign), k, values, cols, n - 1)
    requires OnClock(FlushCols(f, k, values, cols, n - 1, now, sign), start, now)
    requires Rising(start, now, 0, |FlushCols(f, k, values, cols, n, now, sign).out|)
    ensures OnClock(FlushCols(f, k, values, cols, n, now, sign), start, now)
    ensures ColsFlushed(f, FlushCols(f, k, values, cols, n, now, sign), k, values, cols, n)
  {
    var g, c := FlushCols(f, k, values, cols, n - 1, now, sign), cols[n - 1];
    if CellMatches(g.st.cells, k, c, values[c]) {
      MatchedNext(f, g, k, values, cols, n);
    } else {
      EmitCellWins(g, k, c, values[c], now, sign, start);
      EmittedNext(f, g, Emit(g, CellDraft(g.st, k, c, values[c]), now, sign), k, values, cols, n);
    }
  }

  lemma MatchedNext(f: Flushing, g: Flushing, k: RowKey, values: Row, cols: seq<Text>, n: nat)
    requires 0 < n <= |cols| && forall c :: c in cols ==> c in values
    requires ColsFlushed(f, g, k, values, cols, n - 1) && CellMatches(g.st.cells, k, cols[n - 1], values[cols[n - 1]])
    ensures ColsFlushed(f, g, k, values, cols, n)
  {
    hide ClockAbove, Revived;
    MatchedValue(g.st.cells, k, cols[n - 1], values[cols[n - 1]]);
  }

  lemma EmittedNext(f: Flushing, g: Flushing, h: Flushing, k: RowKey, values: Row, cols: seq<Text>, n: nat)
    requires 0 < n <= |cols| && forall c :: c in cols ==> c in values
    requires ColsFlushed(f, g, k, values, cols, n - 1) && !CellMatches(g.st.cells, k, cols[n - 1], values[cols[n - 1]])
    requires |h.out| == |g.out| + 1 && ClockAbove(h.st, k) && Revived(h.st, k) && h.st.tombs == g.st.tombs
    requires Get(h.st.cells, CellKey(k, cols[n - 1])).Some? &&
             h.st.cells[CellKey(k, cols[n - 1])].value == values[cols[n - 1]]
    requires forall d :: d != CellKey(k, cols[n - 1]) ==> Get(h.st.cells, d) == Get(g.st.cells, d)
    ensures ColsFlushed(f, h, k, values, cols, n)
  {
    hide ClockAbove, Revived, CellMatches;
    forall i | 0 <= i < n
      ensures Get(h.st.cells, CellKey(k, cols[i])).Some? && h.st.cells[CellKey(k, cols[i])].value == values[cols[i]]
    {
      if cols[i] != cols[n - 1] {
        assert Get(h.st.cells, CellKey(k, cols[i])) == Get(g.st.cells, CellKey(k, cols[i]));
        assert i < n - 1;
        assert h.st.cells[CellKey(k, cols[i])] == g.st.cells[CellKey(k, cols[i])];
      }
    }
    if |g.out| == |f.out| {
      assert !CellMatches(f.st.cells, k, cols[n - 1], values[cols[n - 1]]);
    }
  }

  lemma MatchedValue(cells: map<CellKey, Cell>, k: RowKey, c: Text, v: SqlValue)
    ensures CellMatches(cells, k, c, v) <==> CellKey(k, c) in cells && cells[CellKey(k, c)].value == v
  {
    if CellKey(k, c) in cells {
      StorageInjective(cells[CellKey(k, c)].value, v);
    }
  }

  /** Every column of a present row matches its winning cell. */
  ghost predicate AllMatch(st: Replica, k: RowKey) {
    k.tbl in st.specs && k in st.rows &&
    forall c :: c in st.specs[k.tbl].cols && c in st.rows[k] ==> CellMatches(st.cells, k, c, st.rows[k][c])
  }

  /** A present row that the CRDT state does not hold alive and whose values all match the surviving cells: the
      flush has nothing to say about it. It is a deleted row inserted again as it was, or a row of a table that
      has no column besides its key. */
  ghost predicate Suppressed(st: Replica, k: RowKey) {
    AllMatch(st, k) && !Alive(st, k)
  }

  /** A present row with all its columns flushed is its projection exactly if it is alive. */
  lemma PresentRowOk(st: Replica, k: RowKey)
    requires k.tbl in st.specs && k in st.rows
    requires st.rows[k].Keys == ColSet(st.specs[k.tbl])
    requires forall c :: c in st.specs[k.tbl].cols ==>
             CellKey(k, c) in st.cells && st.cells[CellKey(k, c)].value == st.rows[k][c]
    ensures RowOk(st, k) <==> Alive(st, k)
  {
    assert KnownCells(st, k) == st.rows[k];
    assert DefaultRow(st.specs[k.tbl]) + KnownCells(st, k) == st.rows[k];
    assert Get(st.rows, k) == Some(st.rows[k]);
  }

  /** Flushing one staged row makes it its projection, except when it is suppressed. */
  lemma FlushRowOk(f: Flushing, k: RowKey, op: Op, now: Clockwork, sign: ChangeRecord -> Text, start: Hlc)
    requires k.tbl in f.st.specs
    requires k in f.st.rows ==> f.st.rows[k].Keys == ColSet(f.st.specs[k.tbl])
    requires op == Upsert <==> k in f.st.rows
    requires ClockAbove(f.st, k) && OnClock(f, start, now)
    requires Rising(start, now, 0, |FlushRow(f, k, op, now, sign).out|)
    ensures OnClock(FlushRow(f, k, op, now, sign), start, now)
    ensures ClockAbove(FlushRow(f, k, op, now, sign).st, k)
    ensures RowOk(FlushRow(f, k, op, now, sign).st, k) <==> !Suppressed(f.st, k)
    ensures k in f.st.rows ==> AllMatch(FlushRow(f, k, op, now, sign).st, k)
  {
    var g := FlushRow(f, k, op, now, sign);
    FlushRowTables(f, k, op, now, sign);
    if k in f.st.rows {
      var values, cols := f.st.rows[k], f.st.specs[k.tbl].cols;
      FlushColsWin(f, k, values, cols, |cols|, now, sign, start);
      PresentFlushed(f, g, k);
    } else {
      EmitTombWins(f, k, now, sign, start);
    }
  }

  lemma PresentFlushed(f: Flushing, g: Flushing, k: RowKey)
    requires k.tbl in f.st.specs && k in f.st.rows
    requires f.st.rows[k].Keys == ColSet(f.st.specs[k.tbl]) && SameTables(f.st, g.st)
    requires ColsFlushed(f, g, k, f.st.rows[k], f.st.specs[k.tbl].cols, |f.st.specs[k.tbl].cols|)
    ensures RowOk(g.st, k) <==> !Suppressed(f.st, k)
    ensures AllMatch(g.st, k)
  {
    var values, cols := f.st.rows[k], f.st.specs[k.tbl].cols;
    forall c | c in cols
      ensures CellKey(k, c) in g.st.cells && g.st.cells[CellKey(k, c)].value == values[c]
      ensures CellMatches(g.st.cells, k, c, values[c])
    {
      var i :| 0 <= i < |cols| && cols[i] == c;
      MatchedValue(g.st.cells, k, c, values[c]);
    }
    hide RowOk, CellMatches;
    PresentRowOk(g.st, k);
    if |g.out| != |f.out| {
      RevivedIsAlive(g.st, k);
    }
  }

  lemma EmitTombWins(f: Flushing, k: RowKey, now: Clockwork, sign: ChangeRecord -> Text, start: Hlc)
    requires k.tbl in f.st.specs && k !in f.st.rows
    requires ClockAbove(f.st, k) && OnClock(f, start, now) && Rising(start, now, 0, |f.out| + 1)
    ensures var g := Emit(f, TombstoneDraft(f.st, k), now, sign);
            OnClock(g, start, now) && ClockAbove(g.st, k) && RowOk(g.st, k)
  {
    NextTickIsPast(f, now, start);
    hide TickNo, Rising, Moves, Ticked;
    var g := Emit(f, TombstoneDraft(f.st, k), now, sign);
    assert g.st.clock == Ticked(f.st.clock, now(|f.out|));
    assert g.st.tombs[k].hlc == g.st.clock;
    assert Outranked(g.st, k);
  }

  // ------------------------------------------------------------ whole flushes

  lemma RowFrame(a: Replica, b: Replica, k: RowKey)
    requires SameRow(a, b, k) && SameTables(a, b)
    ensures RowOk(a, k) == RowOk(b, k) && Suppressed(a, k) == Suppressed(b, k) && AllMatch(a, k) == AllMatch(b, k)
    ensures Leq(a.clock, b.clock) && ClockAbove(a, k) ==> ClockAbove(b, k)
  {
    if k.tbl in a.specs {
      SameRowSameProjection(a, b, k);
    }
    assert k in a.tombs <==> k in b.tombs;
    assert k in a.tombs ==> Get(a.tombs, k).value == Get(b.tombs, k).value;
    if k.tbl in a.specs && k in a.rows {
      forall c | c in a.specs[k.tbl].cols && c in a.rows[k]
        ensures CellMatches(a.cells, k, c, a.rows[k][c]) == CellMatches(b.cells, k, c, b.rows[k][c])
      {
        assert CellKey(k, c) in a.cells <==> CellKey(k, c) in b.cells;
      }
    }
  }

  /** A staged row that a flush can settle. */
  ghost predicate Settleable(st: Replica, k: RowKey, op: Op) {
    && k.tbl in st.specs
    && (k in st.rows ==> st.rows[k].Keys == ColSet(st.specs[k.tbl]))
    && (op == Upsert <==> k in st.rows) && ClockAbove(st, k)
  }

  /** A staged row after its flush. */
  ghost predicate Settled(st: Replica, g: Replica, k: RowKey) {
    && (RowOk(g, k) <==> !Suppressed(st, k))
    && (k in st.rows ==> AllMatch(g, k))
  }

  ghost predicate SettledUpTo(st: Replica, g: Flushing, order: seq<RowKey>, n: nat, now: Clockwork)
    requires n <= |order|
  {
    OnClock(g, st.clock, now) && forall i :: 0 <= i < n ==> Settled(st, g.st, order[i])
  }

  lemma {:induction false} FlushRowsSettle(st: Replica, order: seq<RowKey>, n: nat, final: map<RowKey, Op>,
                                           now: Clockwork, sign: ChangeRecord -> Text)
    requires n <= |order| && Distinct(order)
    requires forall k :: k in order ==> k in final && Settleable(st, k, final[k])
    requires Rising(st.clock, now, 0, |FlushRows(Flushing(st, []), order, n, final, now, sign).out|)
    ensures SettledUpTo(st, FlushRows(Flushing(st, []), order, n, final, now, sign), order, n, now)
  {
    hide FlushRow, Settled, Settleable, Rising;
    if n > 0 {
      var g, k := FlushRows(Flushing(st, []), order, n - 1, final, now, sign), order[n - 1];
      RowOutGrows(g, k, final[k], now, sign);
      RisingPrefix(st.clock, now, 0, |g.out|, |FlushRow(g, k, final[k], now, sign).out|);
      FlushRowsSettle(st, order, n - 1, final, now, sign);
      FlushRowsFrame(Flushing(st, []), order, n - 1, final, now, sign, k);
      hide SettledUpTo, SameRow, SameTables;
      SettleNext(st, g, order, n, final[k], now, sign);
    }
  }

  lemma SettleNext(st: Replica, g: Flushing, order: seq<RowKey>, n: nat, op: Op, now: Clockwork,
                   sign: ChangeRecord -> Text)
    requires 0 < n <= |order| && Distinct(order) && Settleable(st, order[n - 1], op)
    requires SettledUpTo(st, g, order, n - 1, now) && SameRow(st, g.st, order[n - 1]) && SameTables(st, g.st)
    requires Rising(st.clock, now, 0, |FlushRow(g, order[n - 1], op, now, sign).out|)
    ensures SettledUpTo(st, FlushRow(g, order[n - 1], op, now, sign), order, n, now)
  {
    hide FlushRow, SameRow, Settled, Settleable, OnClock, SameTables;
    SettleRow(st, g, order[n - 1], op, now, sign);
    forall i | 0 <= i < n - 1
      ensures Settled(st, FlushRow(g, order[n - 1], op, now, sign).st, order[i])
    {
      SettleEarlier(st, g, order[n - 1], op, now, sign, order[i]);
    }
  }

  lemma OnClockNeverBack(st: Replica, g: Flushing, now: Clockwork)
    requires OnClock(g, st.clock, now)
    ensures Leq(st.clock, g.st.clock)
  {
    TicksNeverBack(st.clock, now, 0, |g.out|);
  }

  lemma SettleRow(st: Replica, g: Flushing, k: RowKey, op: Op, now: Clockwork, sign: ChangeRecord -> Text)
    requires Settleable(st, k, op) && SameRow(st, g.st, k) && SameTables(st, g.st) && OnClock(g, st.clock, now)
    requires Rising(st.clock, now, 0, |FlushRow(g, k, op, now, sign).out|)
    ensures OnClock(FlushRow(g, k, op, now, sign), st.clock, now)
    ensures Settled(st, FlushRow(g, k, op, now, sign).st, k)
  {
    OnClockNeverBack(st, g, now);
    hide FlushRow, SameRow, Suppressed, AllMatch, RowOk, ClockAbove, Rising, OnClock;
    RowFrame(st, g.st, k);
    FlushRowOk(g, k, op, now, sign, st.clock);
  }

  lemma SettleEarlier(st: Replica, g: Flushing, k: RowKey, op: Op, now: Clockwork, sign: ChangeRecord -> Text,
                      other: RowKey)
    requires other != k && Settled(st, g.st, other)
    ensures Settled(st, FlushRow(g, k, op, now, sign).st, other)
  {
    hide FlushRow, SameRow, SameTables, Suppressed, AllMatch, RowOk, ClockAbove;
    FlushRowOtherRows(g, k, op, now, sign, other);
    FlushRowTables(g, k, op, now, sign);
    RowFrame(g.st, FlushRow(g, k, op, now, sign).st, other);
  }

  /** The clock is at or past everything held for the staged rows, and every tick of the flush moves on. */
  ghost predicate FlushReady(st: Replica, now: Clockwork) {
    && (forall k :: Staged(st.ops, k) ==> ClockAbove(st, k))
    && Rising(st.clock, now, 0, FlushCount(st))
  }

  /** A flush settles every staged row and leaves the others as they were. */
  ghost predicate FlushDone(st: Replica, f: Flushing, now: Clockwork) {
    && SameTables(st.(ops := []), f.st) && OnClock(f, st.clock, now)
    && (forall k :: Staged(st.ops, k) ==> Settled(st, f.st, k))
    && (forall k :: !Staged(st.ops, k) ==> RowOk(f.st, k))
  }

  lemma QueueIsSettleable(st: Replica, now: Clockwork)
    requires Projects(st) && FlushReady(st, now)
    ensures SpecsOk(st) && Distinct(FirstSeen(st.ops))
    ensures forall k :: k in FirstSeen(st.ops) ==> k in FinalOps(st.ops) && Settleable(st, k, FinalOps(st.ops)[k])
  {
    hide Rising, RowOk;
  }

  lemma FlushSettles(st: Replica, now: Clockwork, sign: ChangeRecord -> Text)
    requires Projects(st) && FlushReady(st, now)
    ensures FlushDone(st, FlushLocal(st, now, sign), now)
  {
    var order, final := FirstSeen(st.ops), FinalOps(st.ops);
    QueueIsSettleable(st, now);
    hide FlushRows, CountBefore, FinalOps, FirstSeen, Settleable, SettledUpTo, SameTables, FlushDone, ClockAbove,
      Rising, Projects, SameRow;
    FlushRowsCount(st, order, |order|, final, now, sign);
    FlushRowsSettle(st, order, |order|, final, now, sign);
    OtherRowsUntouched(st, order, final, now, sign);
    DrainQueue(st, FlushRows(Flushing(st, []), order, |order|, final, now, sign), order, now);
  }

  lemma DrainQueue(st: Replica, g: Flushing, order: seq<RowKey>, now: Clockwork)
    requires Projects(st) && (forall k :: k in order <==> Staged(st.ops, k)) && SettledUpTo(st, g, order, |order|, now)
    requires SameTables(st, g.st) && forall k :: k !in order ==> SameRow(st, g.st, k)
    ensures FlushDone(st, g.(st := g.st.(ops := [])), now)
  {
    hide SameRow, Suppressed, AllMatch, RowOk;
    forall k
      ensures Staged(st.ops, k) ==> Settled(st, g.st.(ops := []), k)
      ensures !Staged(st.ops, k) ==> RowOk(g.st.(ops := []), k)
    {
      RowOkIgnoresQueue(g.st, k);
      if Staged(st.ops, k) {
        var i :| 0 <= i < |order| && order[i] == k;
        assert Settled(st, g.st, order[i]);
      } else {
        RowFrame(st, g.st, k);
      }
    }
  }

  lemma RowOkIgnoresQueue(st: Replica, k: RowKey)
    ensures var st' := st.(ops := []); RowOk(st, k) == RowOk(st', k) && AllMatch(st, k) == AllMatch(st', k)
  {
    if k.tbl in st.specs {
      SameRowSameProjection(st, st.(ops := []), k);
    }
  }

  /** A flush leaves every app row equal to its projection exactly when no staged row is a re-insert
      of a deleted row with values that all match the surviving cells. */
  lemma FlushProjectsIff(st: Replica, now: Clockwork, sign: ChangeRecord -> Text)
    requires Projects(st) && FlushReady(st, now)
    ensures Projects(FlushLocal(st, now, sign).st) <==> forall k :: Staged(st.ops, k) ==> !Suppressed(st, k)
  {
    hide FlushLocal, RowOk, Suppressed, AllMatch, OnClock;
    FlushSettles(st, now, sign);
    var f := FlushLocal(st, now, sign);
    assert forall k :: !Staged(f.st.ops, k);
    forall k
      ensures RowOk(f.st, k) <==> !(Staged(st.ops, k) && Suppressed(st, k))
    {
      if Staged(st.ops, k) {
        assert Settled(st, f.st, k);
      }
    }
  }

  // ---------------------------------------------------------- flushing again

  lemma {:induction false} MatchingRowIsSilent(f: Flushing, k: RowKey, values: Row, cols: seq<Text>, n: nat,
                                               now: Clockwork, sign: ChangeRecord -> Text)
    requires n <= |cols| && forall c :: c in cols && c in values ==> CellMatches(f.st.cells, k, c, values[c])
    ensures FlushCols(f, k, values, cols, n, now, sign) == f
  {
    if n > 0 {
      MatchingRowIsSilent(f, k, values, cols, n - 1, now, sign);
    }
  }

  lemma {:induction false} MatchingRowsAreSilent(st: Replica, order: seq<RowKey>, n: nat, final: map<RowKey, Op>,
                                                 now: Clockwork, sign: ChangeRecord -> Text)
    requires n <= |order| && Distinct(order) && forall k :: k in order ==> k in final
    requires forall k :: k in order && k in st.rows && k.tbl in st.specs ==> AllMatch(st, k)
    ensures forall r :: r in FlushRows(Flushing(st, []), order, n, final, now, sign).out ==> r.kind == DeleteChange
  {
    if n > 0 {
      var f0 := Flushing(st, []);
      MatchingRowsAreSilent(st, order, n - 1, final, now, sign);
      var g, k := FlushRows(f0, order, n - 1, final, now, sign), order[n - 1];
      FlushRowsFrame(f0, order, n - 1, final, now, sign, k);
      hide SameRow, CellMatches, Emit;
      if k.tbl in st.specs && k in st.rows {
        RowFrame(st, g.st, k);
        var cols := st.specs[k.tbl].cols;
        MatchingRowIsSilent(g, k, st.rows[k], cols, |cols|, now, sign);
      } else if k.tbl in st.specs && final[k] == Delete {
        EmitAppends(g, TombstoneDraft(g.st, k), now, sign);
      }
    }
  }

  /** Staging the same rows again and flushing emits no Cell record, whatever the clocks read. */
  lemma ReflushIsSilent(st: Replica, now: Clockwork, sign: ChangeRecord -> Text, again: seq<StagedOp>, later: Clockwork)
    requires Projects(st) && FlushReady(st, now)
    requires forall o :: o in again ==> Staged(st.ops, o.row)
    ensures forall r :: r in FlushLocal(FlushLocal(st, now, sign).st.(ops := again), later, sign).out ==>
            r.kind == DeleteChange
  {
    var mid := FlushLocal(st, now, sign).st;
    var st' := mid.(ops := again);
    var order := FirstSeen(again);
    hide FlushRows, FinalOps, FirstSeen, Suppressed, FlushReady, Projects, RowOk;
    FlushSettles(st, now, sign);
    forall k | k in order && k in st'.rows && k.tbl in st'.specs
      ensures AllMatch(st', k)
    {
      assert Staged(again, k);
      assert Settled(st, mid, k);
      assert AllMatch(mid, k);
    }
    MatchingRowsAreSilent(st', order, |order|, FinalOps(again), later, sign);
  }

  // ------------------------------------------------- the same for any clock, exactly

  /** A record with stamp `s` would take the cell. */
  predicate Beats(st: Replica, key: CellKey, s: Stamp) {
    key in st.cells ==> StampLt(st.cells[key].stamp, s)
  }

  lemma BeatsIsLocal(a: Replica, b: Replica, key: CellKey)
    requires Get(a.cells, key) == Get(b.cells, key)
    ensures forall s :: Beats(a, key, s) == Beats(b, key, s)
  {
    assert key in a.cells <==> key in b.cells;
    assert key in a.cells ==> Get(a.cells, key).value == a.cells[key];
    assert key in b.cells ==> Get(b.cells, key).value == b.cells[key];
  }

  /** The next tick takes a cell exactly when the held stamp is behind the system clock, behind the
      replica's clock, equal to a clock whose counter has room, or tied and by a lesser device. */
  lemma NextTickBeatsIff(st: Replica, key: CellKey, phys: U64)
    requires key in st.cells
    ensures var held := st.cells[key].stamp;
            Beats(st, key, Stamp(Ticked(st.clock, phys), st.id)) <==>
              || held.hlc.wallMs < phys || Less(held.hlc, st.clock)
              || (held.hlc == st.clock && st.clock.counter < MAX_U32)
              || (held.hlc == Ticked(st.clock, phys) && Lt(held.origin, st.id))
  {
    TickAfterIff(st.clock, phys, st.cells[key].stamp.hlc);
  }

  /** The stamp that column `i` of a row gets if it is due, `base` records into the flush. */
  function ColStamp(st: Replica, k: RowKey, values: Row, cols: seq<Text>, i: nat, start: Hlc, now: Clockwork,
                    base: nat): Stamp
    requires i < |cols|
  {
    Stamp(TickNo(start, now, base + DueBefore(st, k, values, cols, i) + 1), st.id)
  }

  /** The cell of column `i` once the row is flushed. */
  function CellAfter(st: Replica, k: RowKey, values: Row, cols: seq<Text>, i: nat, start: Hlc, now: Clockwork,
                     base: nat): Option<Cell>
    requires i < |cols|
  {
    var key, s := CellKey(k, cols[i]), ColStamp(st, k, values, cols, i, start, now, base);
    if DueCell(st, k, values, cols[i]) && Beats(st, key, s) then Some(Cell(values[cols[i]], s)) else Get(st.cells, key)
  }

  /** What emitting one cell does to that cell, the others, the clock and the count. */
  lemma EmitCellOutcome(f: Flushing, k: RowKey, c: Text, v: SqlValue, now: Clockwork, sign: ChangeRecord -> Text)
    ensures var g, key := Emit(f, CellDraft(f.st, k, c, v), now, sign), CellKey(k, c);
            var s := Stamp(Ticked(f.st.clock, now(|f.out|)), f.st.id);
            && g.st.clock == s.hlc && |g.out| == |f.out| + 1 && g.st.tombs == f.st.tombs && g.st.id == f.st.id
            && Get(g.st.cells, key) == (if Beats(f.st, key, s) then Some(Cell(v, s)) else Get(f.st.cells, key))
            && (forall d :: d != key ==> Get(g.st.cells, d) == Get(f.st.cells, d))
  {
  }

  ghost predicate ColsOutcome(f: Flushing, g: Flushing, k: RowKey, values: Row, cols: seq<Text>, n: nat, start: Hlc,
                              now: Clockwork)
    requires n <= |cols|
  {
    && OnClock(g, start, now) && |g.out| == |f.out| + DueBefore(f.st, k, values, cols, n)
    && g.st.tombs == f.st.tombs && g.st.id == f.st.id
    && (forall i :: 0 <= i < n ==>
          Get(g.st.cells, CellKey(k, cols[i])) == CellAfter(f.st, k, values, cols, i, start, now, |f.out|))
    && (forall d: CellKey :: (d.row == k ==> d.col !in cols[..n]) ==> Get(g.st.cells, d) == Get(f.st.cells, d))
  }

  lemma {:induction false} FlushColsOutcome(f: Flushing, k: RowKey, values: Row, cols: seq<Text>, n: nat,
                                            now: Clockwork, sign: ChangeRecord -> Text, start: Hlc)
    requires n <= |cols| && Distinct(cols) && OnClock(f, start, now)
    ensures ColsOutcome(f, FlushCols(f, k, values, cols, n, now, sign), k, values, cols, n, start, now)
  {
    hide Emit, DueCell, CellAfter, TickNo;
    if n > 0 {
      FlushColsOutcome(f, k, values, cols, n - 1, now, sign, start);
      ColOutcome(f, k, values, cols, n, now, sign, start);
    }
  }

  lemma ColOutcome(f: Flushing, k: RowKey, values: Row, cols: seq<Text>, n: nat, now: Clockwork,
                   sign: ChangeRecord -> Text, start: Hlc)
    requires 0 < n <= |cols| && Distinct(cols) && OnClock(f, start, now)
    requires ColsOutcome(f, FlushCols(f, k, values, cols, n - 1, now, sign), k, values, cols, n - 1, start, now)
    ensures ColsOutcome(f, FlushCols(f, k, values, cols, n, now, sign), k, values, cols, n, start, now)
  {
    hide Emit, DueCell, CellAfter, TickNo, ColsOutcome;
    var g, h := FlushCols(f, k, values, cols, n - 1, now, sign), FlushCols(f, k, values, cols, n, now, sign);
    StillDue(f, k, values, cols, n, now, sign);
    if DueCell(f.st, k, values, cols[n - 1]) {
      DueMeansEmitted(f, g, h, k, values, cols, n, now, sign);
      hide FlushCols;
      DueOutcome(f, g, h, k, values, cols, n, now, sign, start);
    } else {
      DueMeansEmitted(f, g, h, k, values, cols, n, now, sign);
      hide FlushCols;
      NotDueOutcome(f, g, k, values, cols, n, start, now);
    }
  }

  lemma DueMeansEmitted(f: Flushing, g: Flushing, h: Flushing, k: RowKey, values: Row, cols: seq<Text>, n: nat,
                        now: Clockwork, sign: ChangeRecord -> Text)
    requires 0 < n <= |cols| && g == FlushCols(f, k, values, cols, n - 1, now, sign)
    requires h == FlushCols(f, k, values, cols, n, now, sign)
    ensures h == if DueCell(g.st, k, values, cols[n - 1])
                 then Emit(g, CellDraft(g.st, k, cols[n - 1], values[cols[n - 1]]), now, sign) else g
  {
    hide Emit, CellMatches;
  }

  /** The cell of the next column is still as it was when the row was begun. */
  lemma NextCellUntouched(f: Flushing, g: Flushing, k: RowKey, values: Row, cols: seq<Text>, n: nat, start: Hlc,
                          now: Clockwork)
    requires 0 < n <= |cols| && Distinct(cols) && ColsOutcome(f, g, k, values, cols, n - 1, start, now)
    ensures Get(g.st.cells, CellKey(k, cols[n - 1])) == Get(f.st.cells, CellKey(k, cols[n - 1]))
  {
    hide CellAfter, TickNo;
    assert cols[n - 1] !in cols[..n - 1];
  }

  lemma NotDueOutcome(f: Flushing, g: Flushing, k: RowKey, values: Row, cols: seq<Text>, n: nat, start: Hlc,
                      now: Clockwork)
    requires 0 < n <= |cols| && Distinct(cols) && !DueCell(f.st, k, values, cols[n - 1])
    requires ColsOutcome(f, g, k, values, cols, n - 1, start, now)
    ensures ColsOutcome(f, g, k, values, cols, n, start, now)
  {
    NextCellUntouched(f, g, k, values, cols, n, start, now);
    assert CellAfter(f.st, k, values, cols, n - 1, start, now, |f.out|) == Get(f.st.cells, CellKey(k, cols[n - 1]));
    hide CellAfter, TickNo, DueCell;
    assert cols[..n] == cols[..n - 1] + [cols[n - 1]];
  }

  lemma DueOutcome(f: Flushing, g: Flushing, h: Flushing, k: RowKey, values: Row, cols: seq<Text>, n: nat,
                   now: Clockwork, sign: ChangeRecord -> Text, start: Hlc)
    requires 0 < n <= |cols| && Distinct(cols) && DueCell(f.st, k, values, cols[n - 1])
    requires ColsOutcome(f, g, k, values, cols, n - 1, start, now)
    requires h == Emit(g, CellDraft(g.st, k, cols[n - 1], values[cols[n - 1]]), now, sign)
    ensures ColsOutcome(f, h, k, values, cols, n, start, now)
  {
    var c, key := cols[n - 1], CellKey(k, cols[n - 1]);
    NextCellUntouched(f, g, k, values, cols, n, start, now);
    EmitCellOutcome(g, k, c, values[c], now, sign);
    var s := ColStamp(f.st, k, values, cols, n - 1, start, now, |f.out|);
    BeatsIsLocal(f.st, g.st, key);
    assert h.st.clock == s.hlc == TickNo(start, now, |h.out|);
    assert Get(h.st.cells, key) == CellAfter(f.st, k, values, cols, n - 1, start, now, |f.out|);
    hide CellAfter, TickNo, DueCell, Emit, Beats, ColStamp;
    assert cols[..n] == cols[..n - 1] + [c];
    forall i | 0 <= i < n
      ensures Get(h.st.cells, CellKey(k, cols[i])) == CellAfter(f.st, k, values, cols, i, start, now, |f.out|)
    {
      assert i < n - 1 ==> cols[i] != c;
    }
  }

  // --------------------------------------------------------------- one row, exactly

  /** Every due column of a present row takes its cell. */
  ghost predicate DueColsWin(st: Replica, k: RowKey, values: Row, cols: seq<Text>, start: Hlc, now: Clockwork,
                             base: nat) {
    forall i :: 0 <= i < |cols| && DueCell(st, k, values, cols[i]) ==>
      Beats(st, CellKey(k, cols[i]), ColStamp(st, k, values, cols, i, start, now, base))
  }

  predicate BelowTomb(st: Replica, k: RowKey, s: Stamp) {
    k in st.tombs && StampLt(s, st.tombs[k])
  }

  /** The row has a cell, held or about to be written, that is not below its tombstone, if it has one. */
  ghost predicate StaysAlive(st: Replica, k: RowKey, values: Row, cols: seq<Text>, start: Hlc, now: Clockwork,
                             base: nat) {
    || (exists c :: c in st.cells && c.row == k && !BelowTomb(st, k, st.cells[c].stamp))
    || (exists i :: 0 <= i < |cols| && DueCell(st, k, values, cols[i])
                    && !BelowTomb(st, k, ColStamp(st, k, values, cols, i, start, now, base)))
  }

  /** No cell of an absent row outlives the tombstone it is about to get. */
  ghost predicate StaysDead(st: Replica, k: RowKey, s: Stamp) {
    forall c :: c in st.cells && c.row == k ==>
      StampLt(st.cells[c].stamp, s) || (k in st.tombs && StampLt(st.cells[c].stamp, st.tombs[k]))
  }

  /** The flush, `base` records in, leaves this staged row equal to its projection. All of it can be read off
      the replica, the coming clock readings and the position before the flush. */
  ghost predicate RowSettles(st: Replica, k: RowKey, start: Hlc, now: Clockwork, base: nat) {
    k.tbl in st.specs &&
    var cols := st.specs[k.tbl].cols;
    if k in st.rows then
      && DueColsWin(st, k, st.rows[k], cols, start, now, base)
      && StaysAlive(st, k, st.rows[k], cols, start, now, base)
    else StaysDead(st, k, Stamp(TickNo(start, now, base + 1), st.id))
  }

  /** A cell of the flushed row shows the row's value exactly if the column was not due or won. */
  lemma CellShowsValue(st: Replica, g: Replica, k: RowKey, values: Row, cols: seq<Text>, i: nat, start: Hlc,
                       now: Clockwork, base: nat)
    requires i < |cols| && cols[i] in values
    requires Get(g.cells, CellKey(k, cols[i])) == CellAfter(st, k, values, cols, i, start, now, base)
    ensures CellKey(k, cols[i]) in g.cells
    ensures g.cells[CellKey(k, cols[i])].value == values[cols[i]] <==>
            (DueCell(st, k, values, cols[i]) ==>
               Beats(st, CellKey(k, cols[i]), ColStamp(st, k, values, cols, i, start, now, base)))
  {
    hide ToStorage, StampLt, TickNo;
    MatchedValue(st.cells, k, cols[i], values[cols[i]]);
    var key := CellKey(k, cols[i]);
    assert key in g.cells <==> Get(g.cells, key).Some?;
    assert key in g.cells ==> Get(g.cells, key).value == g.cells[key];
  }

  lemma AllShowIffWin(st: Replica, g: Replica, k: RowKey, values: Row, cols: seq<Text>, start: Hlc, now: Clockwork,
                      base: nat)
    requires forall c :: c in cols ==> c in values
    requires forall i :: 0 <= i < |cols| ==>
      Get(g.cells, CellKey(k, cols[i])) == CellAfter(st, k, values, cols, i, start, now, base)
    ensures forall c :: c in cols ==> CellKey(k, c) in g.cells
    ensures DueColsWin(st, k, values, cols, start, now, base) <==>
            forall c :: c in cols ==> g.cells[CellKey(k, c)].value == values[c]
  {
    hide CellAfter, DueCell, Beats, ColStamp;
    forall i | 0 <= i < |cols|
      ensures CellKey(k, cols[i]) in g.cells
      ensures g.cells[CellKey(k, cols[i])].value == values[cols[i]] <==>
              (DueCell(st, k, values, cols[i]) ==>
                 Beats(st, CellKey(k, cols[i]), ColStamp(st, k, values, cols, i, start, now, base)))
    {
      CellShowsValue(st, g, k, values, cols, i, start, now, base);
    }
    forall c | c in cols
      ensures exists i :: 0 <= i < |cols| && cols[i] == c
    {
    }
  }

  /** With every due column winning, the row is alive exactly if something of it is not below the tombstone. */
  lemma AliveIffStays(f: Flushing, g: Flushing, k: RowKey, values: Row, cols: seq<Text>, start: Hlc, now: Clockwork)
    requires ColsOutcome(f, g, k, values, cols, |cols|, start, now)
    requires DueColsWin(f.st, k, values, cols, start, now, |f.out|)
    ensures Alive(g.st, k) <==> StaysAlive(f.st, k, values, cols, start, now, |f.out|)
  {
    AliveMeans(g.st, k);
    hide DueCell, TickNo, DueBefore, StampLt, BelowTomb, Beats, Alive, CellAfter;
    if Alive(g.st, k) {
      var d :| d in g.st.cells && d.row == k && !BelowTomb(g.st, k, g.st.cells[d].stamp);
      AliveWitness(f, g, k, values, cols, start, now, d);
    }
    if StaysAlive(f.st, k, values, cols, start, now, |f.out|) {
      if c :| c in f.st.cells && c.row == k && !BelowTomb(f.st, k, f.st.cells[c].stamp) {
        HeldKeepsAlive(f, g, k, values, cols, start, now, c);
      } else {
        var i :| 0 <= i < |cols| && DueCell(f.st, k, values, cols[i])
                 && !BelowTomb(f.st, k, ColStamp(f.st, k, values, cols, i, start, now, |f.out|));
        WrittenIsAlive(f, g, k, values, cols, start, now, i);
      }
    }
  }

  lemma AliveMeans(st: Replica, k: RowKey)
    ensures Alive(st, k) <==> exists c :: c in st.cells && c.row == k && !BelowTomb(st, k, st.cells[c].stamp)
  {
    hide StampLt;
  }

  lemma WrittenIsAlive(f: Flushing, g: Flushing, k: RowKey, values: Row, cols: seq<Text>, start: Hlc, now: Clockwork,
                       i: nat)
    requires i < |cols| && ColsOutcome(f, g, k, values, cols, |cols|, start, now)
    requires DueColsWin(f.st, k, values, cols, start, now, |f.out|) && DueCell(f.st, k, values, cols[i])
    requires !BelowTomb(f.st, k, ColStamp(f.st, k, values, cols, i, start, now, |f.out|))
    ensures exists d :: d in g.st.cells && d.row == k && !BelowTomb(g.st, k, g.st.cells[d].stamp)
  {
    hide DueCell, TickNo, DueBefore, StampLt, Beats, ColStamp;
    var d := CellKey(k, cols[i]);
    assert Get(g.st.cells, d) == CellAfter(f.st, k, values, cols, i, start, now, |f.out|);
    assert d in g.st.cells && g.st.cells[d] == Get(g.st.cells, d).value;
  }

  lemma AliveWitness(f: Flushing, g: Flushing, k: RowKey, values: Row, cols: seq<Text>, start: Hlc, now: Clockwork,
                     d: CellKey)
    requires ColsOutcome(f, g, k, values, cols, |cols|, start, now)
    requires d in g.st.cells && d.row == k && !BelowTomb(g.st, k, g.st.cells[d].stamp)
    ensures StaysAlive(f.st, k, values, cols, start, now, |f.out|)
  {
    hide DueCell, TickNo, DueBefore, StampLt, Beats;
    assert cols[..|cols|] == cols;
    assert Get(g.st.cells, d) == Some(g.st.cells[d]);
    if d.col in cols {
      var i :| 0 <= i < |cols| && cols[i] == d.col;
      assert CellKey(k, cols[i]) == d;
      assert Get(g.st.cells, d) == CellAfter(f.st, k, values, cols, i, start, now, |f.out|);
    }
    if Get(f.st.cells, d) == Get(g.st.cells, d) {
      assert d in f.st.cells && f.st.cells[d] == g.st.cells[d];
    }
  }

  lemma HeldKeepsAlive(f: Flushing, g: Flushing, k: RowKey, values: Row, cols: seq<Text>, start: Hlc, now: Clockwork,
                       c: CellKey)
    requires ColsOutcome(f, g, k, values, cols, |cols|, start, now)
    requires c in f.st.cells && c.row == k && !BelowTomb(f.st, k, f.st.cells[c].stamp)
    ensures c in g.st.cells && !BelowTomb(g.st, k, g.st.cells[c].stamp)
  {
    hide DueCell, TickNo, DueBefore;
    assert cols[..|cols|] == cols;
    assert Get(f.st.cells, c) == Some(f.st.cells[c]);
    if c.col in cols {
      var i :| 0 <= i < |cols| && cols[i] == c.col;
      assert CellKey(k, cols[i]) == c;
      assert Get(g.st.cells, c) == CellAfter(f.st, k, values, cols, i, start, now, |f.out|);
    }
    assert Get(g.st.cells, c).Some? && Get(g.st.cells, c).value == g.st.cells[c];
    if k in f.st.tombs {
      StampTotal(f.st.tombs[k], f.st.cells[c].stamp);
      if g.st.cells[c] != f.st.cells[c] {
        StampTransitive(f.st.tombs[k], f.st.cells[c].stamp, g.st.cells[c].stamp);
      }
      StampTotal(f.st.tombs[k], g.st.cells[c].stamp);
    }
  }

  /** A present row after its flush. */
  lemma PresentSettlesIff(f: Flushing, k: RowKey, now: Clockwork, sign: ChangeRecord -> Text, start: Hlc)
    requires k.tbl in f.st.specs && Distinct(f.st.specs[k.tbl].cols)
    requires k in f.st.rows && f.st.rows[k].Keys == ColSet(f.st.specs[k.tbl]) && OnClock(f, start, now)
    ensures RowOk(FlushRow(f, k, Upsert, now, sign).st, k) <==> RowSettles(f.st, k, start, now, |f.out|)
  {
    var values, cols := f.st.rows[k], f.st.specs[k.tbl].cols;
    var g := FlushRow(f, k, Upsert, now, sign);
    FlushRowTables(f, k, Upsert, now, sign);
    FlushColsOutcome(f, k, values, cols, |cols|, now, sign, start);
    assert ColsOutcome(f, g, k, values, cols, |cols|, start, now);
    hide FlushRow, CellAfter, DueCell;
    AllShowIffWin(f.st, g.st, k, values, cols, start, now, |f.out|);
    hide ColsOutcome;
    if DueColsWin(f.st, k, values, cols, start, now, |f.out|) {
      AliveIffStays(f, g, k, values, cols, start, now);
      hide DueColsWin, StaysAlive, RowOk, Alive;
      PresentRowOk(g.st, k);
    } else {
      hide DueColsWin, StaysAlive;
      MismatchedRow(g.st, k);
    }
  }

  lemma MismatchedRow(st: Replica, k: RowKey)
    requires k.tbl in st.specs && k in st.rows && st.rows[k].Keys == ColSet(st.specs[k.tbl])
    requires forall c :: c in st.specs[k.tbl].cols ==> CellKey(k, c) in st.cells
    requires !(forall c :: c in st.specs[k.tbl].cols ==> st.cells[CellKey(k, c)].value == st.rows[k][c])
    ensures !RowOk(st, k)
  {
    var c :| c in st.specs[k.tbl].cols && st.cells[CellKey(k, c)].value != st.rows[k][c];
    assert (DefaultRow(st.specs[k.tbl]) + KnownCells(st, k))[c] == st.cells[CellKey(k, c)].value;
  }

  /** An absent row after its flush. */
  lemma AbsentSettlesIff(f: Flushing, k: RowKey, now: Clockwork, sign: ChangeRecord -> Text, start: Hlc)
    requires k.tbl in f.st.specs && k !in f.st.rows && OnClock(f, start, now)
    ensures RowOk(FlushRow(f, k, Delete, now, sign).st, k) <==> RowSettles(f.st, k, start, now, |f.out|)
  {
    var g, s := FlushRow(f, k, Delete, now, sign), Stamp(TickNo(start, now, |f.out| + 1), f.st.id);
    assert g == Emit(f, TombstoneDraft(f.st, k), now, sign);
    EmitTombOutcome(f, k, now, sign);
    FlushRowTables(f, k, Delete, now, sign);
    hide FlushRow, Emit;
    DeadIffStays(f.st, g.st, k, s);
  }

  lemma EmitTombOutcome(f: Flushing, k: RowKey, now: Clockwork, sign: ChangeRecord -> Text)
    ensures var g := Emit(f, TombstoneDraft(f.st, k), now, sign);
            var s := Stamp(Ticked(f.st.clock, now(|f.out|)), f.st.id);
            && g.st.clock == s.hlc && |g.out| == |f.out| + 1 && g.st.id == f.st.id && g.st.cells == f.st.cells
            && k in g.st.tombs
            && g.st.tombs[k] == (if k in f.st.tombs && !StampLt(f.st.tombs[k], s) then f.st.tombs[k] else s)
  {
  }

  lemma DeadIffStays(st: Replica, st': Replica, k: RowKey, s: Stamp)
    requires k.tbl in st'.specs && k !in st'.rows && st'.cells == st.cells && k in st'.tombs
    requires st'.tombs[k] == if k in st.tombs && !StampLt(st.tombs[k], s) then st.tombs[k] else s
    ensures RowOk(st', k) <==> StaysDead(st, k, s)
  {
    if k in st.tombs {
      StampTotal(s, st.tombs[k]);
    }
    forall c | c in st.cells && c.row == k
      ensures StampLt(st.cells[c].stamp, st'.tombs[k]) <==>
              StampLt(st.cells[c].stamp, s) || (k in st.tombs && StampLt(st.cells[c].stamp, st.tombs[k]))
    {
      if k in st.tombs {
        if StampLt(st.cells[c].stamp, s) && StampLe(s, st.tombs[k]) {
          StampTransitive(st.cells[c].stamp, s, st.tombs[k]);
        }
        if StampLt(st.cells[c].stamp, st.tombs[k]) && StampLe(st.tombs[k], s) {
          StampTransitive(st.cells[c].stamp, st.tombs[k], s);
        }
      }
    }
  }

  // ------------------------------------------------------------ a whole flush, exactly

  /** Only the row's own cells and tombstone matter to how it settles. */
  lemma SettlesIsLocal(a: Replica, b: Replica, k: RowKey, start: Hlc, now: Clockwork, base: nat)
    requires SameRow(a, b, k) && SameTables(a, b) && k.tbl in a.specs
    ensures RowSettles(a, k, start, now, base) == RowSettles(b, k, start, now, base)
  {
    if k in a.rows {
      var values, cols := a.rows[k], a.specs[k.tbl].cols;
      forall i | 0 <= i < |cols|
        ensures DueCell(a, k, values, cols[i]) == DueCell(b, k, values, cols[i])
        ensures ColStamp(a, k, values, cols, i, start, now, base) == ColStamp(b, k, values, cols, i, start, now, base)
        ensures forall s :: Beats(a, CellKey(k, cols[i]), s) == Beats(b, CellKey(k, cols[i]), s)
      {
        SameRowSameCell(a, b, CellKey(k, cols[i]));
        hide SameRow, DueCell, StampLt, TickNo;
        DueIsLocal(a, b, k, values, cols[i]);
        DueBeforeIsLocal(a, b, k, values, cols, i);
        BeatsIsLocal(a, b, CellKey(k, cols[i]));
      }
      hide DueCell, ColStamp, Beats, StampLt;
      WinsLocal(a, b, k, values, cols, start, now, base);
      StaysLocal(a, b, k, values, cols, start, now, base);
    } else {
      hide StampLt, TickNo;
      DeadLocal(a, b, k, Stamp(TickNo(start, now, base + 1), a.id));
    }
  }

  lemma WinsLocal(a: Replica, b: Replica, k: RowKey, values: Row, cols: seq<Text>, start: Hlc, now: Clockwork,
                  base: nat)
    requires forall i :: 0 <= i < |cols| ==> DueCell(a, k, values, cols[i]) == DueCell(b, k, values, cols[i])
    requires forall i :: 0 <= i < |cols| ==>
      ColStamp(a, k, values, cols, i, start, now, base) == ColStamp(b, k, values, cols, i, start, now, base)
    requires forall i, s :: 0 <= i < |cols| ==> Beats(a, CellKey(k, cols[i]), s) == Beats(b, CellKey(k, cols[i]), s)
    ensures DueColsWin(a, k, values, cols, start, now, base) == DueColsWin(b, k, values, cols, start, now, base)
  {
    hide DueCell, ColStamp, Beats;
  }

  lemma StaysLocal(a: Replica, b: Replica, k: RowKey, values: Row, cols: seq<Text>, start: Hlc, now: Clockwork,
                   base: nat)
    requires SameRow(a, b, k)
    requires forall i :: 0 <= i < |cols| ==> DueCell(a, k, values, cols[i]) == DueCell(b, k, values, cols[i])
    requires forall i :: 0 <= i < |cols| ==>
      ColStamp(a, k, values, cols, i, start, now, base) == ColStamp(b, k, values, cols, i, start, now, base)
    ensures StaysAlive(a, k, values, cols, start, now, base) == StaysAlive(b, k, values, cols, start, now, base)
  {
    hide DueCell, ColStamp, StampLt;
    assert k in a.tombs <==> k in b.tombs;
    assert k in a.tombs ==> Get(a.tombs, k).value == a.tombs[k] && Get(b.tombs, k).value == b.tombs[k];
  }

  lemma DeadLocal(a: Replica, b: Replica, k: RowKey, s: Stamp)
    requires SameRow(a, b, k)
    ensures StaysDead(a, k, s) == StaysDead(b, k, s)
  {
    hide StampLt;
    assert k in a.tombs <==> k in b.tombs;
    assert k in a.tombs ==> Get(a.tombs, k).value == a.tombs[k] && Get(b.tombs, k).value == b.tombs[k];
  }

  /** One staged row: its records are counted, and it settles exactly as the state before it says. */
  lemma RowOutcome(f: Flushing, k: RowKey, op: Op, now: Clockwork, sign: ChangeRecord -> Text, start: Hlc)
    requires k.tbl in f.st.specs && Distinct(f.st.specs[k.tbl].cols)
    requires k in f.st.rows ==> f.st.rows[k].Keys == ColSet(f.st.specs[k.tbl])
    requires (op == Upsert <==> k in f.st.rows) && OnClock(f, start, now)
    ensures var g := FlushRow(f, k, op, now, sign);
            && OnClock(g, start, now) && |g.out| == |f.out| + RowCount(f.st, k, op)
            && (RowOk(g.st, k) <==> RowSettles(f.st, k, start, now, |f.out|))
  {
    if k in f.st.rows {
      PresentSettlesIff(f, k, now, sign, start);
      var cols := f.st.specs[k.tbl].cols;
      FlushColsOutcome(f, k, f.st.rows[k], cols, |cols|, now, sign, start);
      hide RowSettles, RowOk, CellAfter, DueCell;
    } else {
      AbsentSettlesIff(f, k, now, sign, start);
      EmitTombOutcome(f, k, now, sign);
      hide RowSettles, RowOk, Emit;
    }
  }

  /** A staged row as the queue and the shapes of the tables describe it. */
  ghost predicate WellStaged(st: Replica, k: RowKey, op: Op) {
    && k.tbl in st.specs && Distinct(st.specs[k.tbl].cols)
    && (k in st.rows ==> st.rows[k].Keys == ColSet(st.specs[k.tbl]))
    && (op == Upsert <==> k in st.rows)
  }

  ghost predicate RowsOutcome(st: Replica, g: Flushing, order: seq<RowKey>, n: nat, final: map<RowKey, Op>,
                              now: Clockwork)
    requires n <= |order| && forall k :: k in order ==> k in final
  {
    && OnClock(g, st.clock, now) && |g.out| == CountBefore(st, order, n, final)
    && (forall i :: 0 <= i < n ==>
          (RowOk(g.st, order[i]) <==> RowSettles(st, order[i], st.clock, now, CountBefore(st, order, i, final))))
  }

  lemma {:induction false} FlushRowsOutcome(st: Replica, order: seq<RowKey>, n: nat, final: map<RowKey, Op>,
                                            now: Clockwork, sign: ChangeRecord -> Text)
    requires n <= |order| && Distinct(order)
    requires forall k :: k in order ==> k in final && WellStaged(st, k, final[k])
    ensures RowsOutcome(st, FlushRows(Flushing(st, []), order, n, final, now, sign), order, n, final, now)
  {
    hide FlushRow, RowOk, RowSettles, RowCount, Distinct, WellStaged, RowsOutcome;
    if n == 0 {
      NoRowsYet(st, order, final, now);
    } else {
      FlushRowsOutcome(st, order, n - 1, final, now, sign);
      var g := FlushRows(Flushing(st, []), order, n - 1, final, now, sign);
      LaterRowUntouched(st, order, n, final, now, sign);
      NextRowOutcome(st, g, order, n, final, now, sign);
    }
  }

  lemma NoRowsYet(st: Replica, order: seq<RowKey>, final: map<RowKey, Op>, now: Clockwork)
    requires forall k :: k in order ==> k in final
    ensures RowsOutcome(st, Flushing(st, []), order, 0, final, now)
  {
  }

  lemma LaterRowUntouched(st: Replica, order: seq<RowKey>, n: nat, final: map<RowKey, Op>, now: Clockwork,
                          sign: ChangeRecord -> Text)
    requires 0 < n <= |order| && Distinct(order) && forall k :: k in order ==> k in final
    ensures var g := FlushRows(Flushing(st, []), order, n - 1, final, now, sign);
            SameRow(st, g.st, order[n - 1]) && SameTables(st, g.st)
  {
    hide FlushRows, SameRow, SameTables;
    assert order[n - 1] !in order[..n - 1];
    FlushRowsFrame(Flushing(st, []), order, n - 1, final, now, sign, order[n - 1]);
  }

  lemma NextRowOutcome(st: Replica, g: Flushing, order: seq<RowKey>, n: nat, final: map<RowKey, Op>, now: Clockwork,
                       sign: ChangeRecord -> Text)
    requires 0 < n <= |order| && Distinct(order) && forall k :: k in order ==> k in final
    requires WellStaged(st, order[n - 1], final[order[n - 1]])
    requires RowsOutcome(st, g, order, n - 1, final, now) && SameRow(st, g.st, order[n - 1]) && SameTables(st, g.st)
    ensures RowsOutcome(st, FlushRow(g, order[n - 1], final[order[n - 1]], now, sign), order, n, final, now)
  {
    var k, op := order[n - 1], final[order[n - 1]];
    hide FlushRow, RowOk, RowSettles, RowCount, WellStaged, SameRow, SameTables, OnClock, RowsOutcome, Distinct;
    GrowOutcome(st, g, order, n, final, now);
    StagedRowOutcome(st, g, k, op, now, sign, st.clock);
    forall i | 0 <= i < n - 1
      ensures RowOk(FlushRow(g, k, op, now, sign).st, order[i]) == RowOk(g.st, order[i])
    {
      DistinctRows(order, i, n - 1);
      EarlierRowKept(g, k, op, now, sign, order[i]);
    }
    hide CountBefore;
    OutcomeGrows(st, g, FlushRow(g, k, op, now, sign), order, n, final, now);
  }

  lemma GrowOutcome(st: Replica, g: Flushing, order: seq<RowKey>, n: nat, final: map<RowKey, Op>, now: Clockwork)
    requires 0 < n <= |order| && (forall k :: k in order ==> k in final) && RowsOutcome(st, g, order, n - 1, final, now)
    ensures OnClock(g, st.clock, now) && |g.out| == CountBefore(st, order, n - 1, final)
    ensures CountBefore(st, order, n, final) == |g.out| + RowCount(st, order[n - 1], final[order[n - 1]])
  {
    hide RowCount, RowSettles, RowOk, OnClock;
  }

  lemma OutcomeGrows(st: Replica, g: Flushing, h: Flushing, order: seq<RowKey>, n: nat, final: map<RowKey, Op>,
                     now: Clockwork)
    requires 0 < n <= |order| && (forall k :: k in order ==> k in final) && RowsOutcome(st, g, order, n - 1, final, now)
    requires OnClock(h, st.clock, now) && |h.out| == CountBefore(st, order, n, final)
    requires RowOk(h.st, order[n - 1]) <==>
             RowSettles(st, order[n - 1], st.clock, now, CountBefore(st, order, n - 1, final))
    requires forall i :: 0 <= i < n - 1 ==> RowOk(h.st, order[i]) == RowOk(g.st, order[i])
    ensures RowsOutcome(st, h, order, n, final, now)
  {
    hide RowSettles, RowOk, OnClock, CountBefore;
  }

  lemma DistinctRows(order: seq<RowKey>, i: nat, j: nat)
    requires i < j < |order| && Distinct(order)
    ensures order[i] != order[j]
  {
  }

  /** One staged row, told from the state before the whole flush. */
  lemma StagedRowOutcome(st: Replica, g: Flushing, k: RowKey, op: Op, now: Clockwork,
                         sign: ChangeRecord -> Text, start: Hlc)
    requires WellStaged(st, k, op) && SameRow(st, g.st, k) && SameTables(st, g.st) && OnClock(g, start, now)
    ensures var h := FlushRow(g, k, op, now, sign);
            && OnClock(h, start, now) && |h.out| == |g.out| + RowCount(st, k, op)
            && (RowOk(h.st, k) <==> RowSettles(st, k, start, now, |g.out|))
  {
    assert WellStaged(g.st, k, op);
    hide FlushRow, RowOk, RowSettles, RowCount, SameRow;
    CountIsLocal(st, g.st, k, op);
    RowOutcome(g, k, op, now, sign, start);
    SettlesIsLocal(st, g.st, k, start, now, |g.out|);
  }

  lemma EarlierRowKept(g: Flushing, k: RowKey, op: Op, now: Clockwork, sign: ChangeRecord -> Text, other: RowKey)
    requires other != k
    ensures RowOk(FlushRow(g, k, op, now, sign).st, other) == RowOk(g.st, other)
  {
    hide FlushRow, SameRow, SameTables, RowOk, Suppressed, AllMatch;
    FlushRowOtherRows(g, k, op, now, sign, other);
    FlushRowTables(g, k, op, now, sign);
    RowFrame(g.st, FlushRow(g, k, op, now, sign).st, other);
  }

  /** Every staged row settles, each at its place in the flush. */
  ghost predicate AllSettle(st: Replica, now: Clockwork) {
    var order, final := FirstSeen(st.ops), FinalOps(st.ops);
    forall i :: 0 <= i < |order| ==>
      RowSettles(st, order[i], st.clock, now, CountBefore(st, order, i, final))
  }

  /** For any clock, ahead of the held stamps or behind them: a flush leaves every app row equal to its
      projection exactly when every staged row settles. */
  lemma FlushSettlesIff(st: Replica, now: Clockwork, sign: ChangeRecord -> Text)
    requires Projects(st)
    ensures Projects(FlushLocal(st, now, sign).st) <==> AllSettle(st, now)
  {
    var order, final := FirstSeen(st.ops), FinalOps(st.ops);
    QueueIsWellStaged(st);
    hide FlushRows, FinalOps, FirstSeen, Projects, WellStaged, SameTables, SameRow, RowOk, RowSettles, CountBefore;
    var g := FlushRows(Flushing(st, []), order, |order|, final, now, sign);
    FlushRowsOutcome(st, order, |order|, final, now, sign);
    OtherRowsUntouched(st, order, final, now, sign);
    DrainedProjectsIff(st, g, order);
  }

  lemma QueueIsWellStaged(st: Replica)
    requires Projects(st)
    ensures forall k :: k in FirstSeen(st.ops) ==> k in FinalOps(st.ops) && WellStaged(st, k, FinalOps(st.ops)[k])
    ensures Distinct(FirstSeen(st.ops))
  {
  }

  lemma OtherRowsUntouched(st: Replica, order: seq<RowKey>, final: map<RowKey, Op>, now: Clockwork,
                           sign: ChangeRecord -> Text)
    requires forall k :: k in order ==> k in final
    ensures var g := FlushRows(Flushing(st, []), order, |order|, final, now, sign);
            SameTables(st, g.st) && forall k :: k !in order ==> SameRow(st, g.st, k)
  {
    hide FlushRows, SameRow, SameTables;
    FlushRowsFrame(Flushing(st, []), order, |order|, final, now, sign, RowKey([], []));
    forall k
      ensures k !in order ==> SameRow(st, FlushRows(Flushing(st, []), order, |order|, final, now, sign).st, k)
    {
      assert order[..|order|] == order;
      FlushRowsFrame(Flushing(st, []), order, |order|, final, now, sign, k);
    }
  }

  /** With the queue drained, the projection is down to the rows that were staged. */
  lemma DrainedProjectsIff(st: Replica, g: Flushing, order: seq<RowKey>)
    requires Projects(st) && (forall k :: k in order <==> Staged(st.ops, k)) && SameTables(st, g.st)
    requires forall k :: k !in order ==> SameRow(st, g.st, k)
    ensures Projects(g.st.(ops := [])) <==> forall i :: 0 <= i < |order| ==> RowOk(g.st, order[i])
  {
    hide SameRow, RowOk, Suppressed, AllMatch;
    var end := g.st.(ops := []);
    assert forall k :: !Staged(end.ops, k);
    forall k
      ensures RowOk(end, k) == RowOk(g.st, k)
      ensures k !in order ==> RowOk(g.st, k)
    {
      RowOkIgnoresQueue(g.st, k);
      if k !in order {
        RowFrame(st, g.st, k);
      }
    }
    forall k | k in order
      ensures exists i :: 0 <= i < |order| && order[i] == k
    {
    }
  }

  /** Where the clock is at or past everything held for the staged rows, only suppressed re-inserts fail. */
  lemma ClockAboveSettles(st: Replica, now: Clockwork, sign: ChangeRecord -> Text)
    requires Projects(st) && FlushReady(st, now)
    ensures AllSettle(st, now) <==> forall k :: Staged(st.ops, k) ==> !Suppressed(st, k)
  {
    hide FlushLocal, Projects, AllSettle, Suppressed, FlushReady;
    FlushSettlesIff(st, now, sign);
    FlushProjectsIff(st, now, sign);
  }
}
