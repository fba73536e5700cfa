/** What a flush of the staged edits emits, and when it leaves the app tables equal to
    their projection. */
module Flushes {
  import opened Bytes
  import opened Change
  import opened Replicas
  import opened Projection

  // ------------------------------------------------------------ row frames

  lemma EmitFrame(f: Flushing, draft: ChangeRecord, now: Clockwork, sign: ChangeRecord -> Text, k: RowKey)
    requires RowOf(draft) != k
    ensures SameRow(f.st, Emit(f, draft, now, sign).st, k)
  {
  }

  lemma {:induction false} FlushColsOtherRows(f: Flushing, k: RowKey, values: Row, cols: seq<Text>, n: nat,
                                              now: Clockwork, sign: ChangeRecord -> Text, other: RowKey)
    requires n <= |cols| && other != k
    ensures SameRow(f.st, FlushCols(f, k, values, cols, n, now, sign).st, other)
  {
    if n > 0 {
      FlushColsOtherRows(f, k, values, cols, n - 1, now, sign, other);
      hide Emit, SameRow, CellMatches;
      var g, c := FlushCols(f, k, values, cols, n - 1, now, sign), cols[n - 1];
      if c in values && !CellMatches(g.st.cells, k, c, values[c]) {
        EmitFrame(g, CellDraft(g.st, k, c, values[c]), now, sign, other);
        SameRowTransitive(f.st, g.st, FlushCols(f, k, values, cols, n, now, sign).st, other);
      }
    }
  }

  lemma FlushRowOtherRows(f: Flushing, k: RowKey, op: Op, now: Clockwork, sign: ChangeRecord -> Text, other: RowKey)
    requires other != k
    ensures SameRow(f.st, FlushRow(f, k, op, now, sign).st, other)
  {
    hide Emit, FlushCols, SameRow;
    if k.tbl in f.st.specs && k in f.st.rows {
      var cols := f.st.specs[k.tbl].cols;
      FlushColsOtherRows(f, k, f.st.rows[k], cols, |cols|, now, sign, other);
    } else if k.tbl in f.st.specs && op == Delete {
      EmitFrame(f, TombstoneDraft(f.st, k), now, sign, other);
    } else {
      SameRowReflexive(f.st, other);
    }
  }

  lemma SameRowReflexive(st: Replica, k: RowKey)
    ensures SameRow(st, st, k)
  {
  }

  /** Everything a flush leaves alone. */
  ghost predicate SameTables(a: Replica, b: Replica) {
    && a.id == b.id && a.specs == b.specs && a.rows == b.rows && a.ops == b.ops
    && a.guard == b.guard && a.watermark == b.watermark
  }

  lemma {:induction false} FlushColsTables(f: Flushing, k: RowKey, values: Row, cols: seq<Text>, n: nat,
                                           now: Clockwork, sign: ChangeRecord -> Text)
    requires n <= |cols|
    ensures SameTables(f.st, FlushCols(f, k, values, cols, n, now, sign).st)
  {
    hide Emit, CellMatches;
    if n > 0 {
      FlushColsTables(f, k, values, cols, n - 1, now, sign);
    }
  }

  lemma FlushRowTables(f: Flushing, k: RowKey, op: Op, now: Clockwork, sign: ChangeRecord -> Text)
    ensures SameTables(f.st, FlushRow(f, k, op, now, sign).st)
  {
    hide Emit, FlushCols;
    if k.tbl in f.st.specs && k in f.st.rows {
      var cols := f.st.specs[k.tbl].cols;
      FlushColsTables(f, k, f.st.rows[k], cols, |cols|, now, sign);
    }
  }

  /** The first `n` rows leave the tables and every later row alone. */
  lemma {:induction false} FlushRowsFrame(f: Flushing, order: seq<RowKey>, n: nat, final: map<RowKey, Op>,
                                          now: Clockwork, sign: ChangeRecord -> Text, other: RowKey)
    requires n <= |order| && forall k :: k in order ==> k in final
    ensures SameTables(f.st, FlushRows(f, order, n, final, now, sign).st)
    ensures other !in order[..n] ==> SameRow(f.st, FlushRows(f, order, n, final, now, sign).st, other)
  {
    hide FlushRow, SameRow;
    if n == 0 {
      SameRowReflexive(f.st, other);
    } else {
      FlushRowsFrame(f, order, n - 1, final, now, sign, other);
      var g, k := FlushRows(f, order, n - 1, final, now, sign), order[n - 1];
      FlushRowTables(g, k, final[k], now, sign);
      assert order[..n] == order[..n - 1] + [k];
      if other !in order[..n] {
        FlushRowOtherRows(g, k, final[k], now, sign, other);
        SameRowTransitive(f.st, g.st, FlushRows(f, order, n, final, now, sign).st, other);
      }
    }
  }

  // ------------------------------------------------------- what is emitted

  /** A column of a row whose stored form differs from the winning cell. */
  predicate DueCell(st: Replica, k: RowKey, values: Row, c: Text) {
    c in values && !CellMatches(st.cells, k, c, values[c])
  }

  /** `r` is the change for column `c`. */
  predicate CellEmission(st: Replica, k: RowKey, values: Row, c: Text, r: ChangeRecord) {
    r.kind == CellChange && RowOf(r) == k && r.col == c && c in values && r.value == values[c] && r.origin == st.id
  }

  /** The records `part` are, in column order, one change for each due column among the first `n`. */
  ghost predicate EmitsCells(st: Replica, k: RowKey, values: Row, cols: seq<Text>, n: nat, part: seq<ChangeRecord>)
    requires n <= |cols|
  {
    if n == 0 then part == []
    else if DueCell(st, k, values, cols[n - 1]) then
      && part != [] && CellEmission(st, k, values, cols[n - 1], part[|part| - 1])
      && EmitsCells(st, k, values, cols, n - 1, part[..|part| - 1])
    else EmitsCells(st, k, values, cols, n - 1, part)
  }

  lemma {:induction false} UntouchedCol(f: Flushing, k: RowKey, values: Row, cols: seq<Text>, n: nat,
                                        now: Clockwork, sign: ChangeRecord -> Text, c: Text)
    requires n <= |cols| && c !in cols[..n]
    ensures Get(FlushCols(f, k, values, cols, n, now, sign).st.cells, CellKey(k, c)) == Get(f.st.cells, CellKey(k, c))
  {
    if n > 0 {
      assert cols[..n] == cols[..n - 1] + [cols[n - 1]];
      UntouchedCol(f, k, values, cols, n - 1, now, sign, c);
    }
  }

  /** Whether a column is due depends on its own cell only. */
  lemma DueIsLocal(a: Replica, b: Replica, k: RowKey, values: Row, c: Text)
    requires Get(a.cells, CellKey(k, c)) == Get(b.cells, CellKey(k, c))
    ensures DueCell(a, k, values, c) == DueCell(b, k, values, c)
  {
    hide ToStorage;
    var key := CellKey(k, c);
    assert key in a.cells <==> key in b.cells;
    assert key in a.cells ==> Get(a.cells, key).value == Get(b.cells, key).value;
  }

  /** A column not yet reached is due exactly if it was when the row was begun. */
  lemma StillDue(f: Flushing, k: RowKey, values: Row, cols: seq<Text>, n: nat, now: Clockwork,
                 sign: ChangeRecord -> Text)
    requires 0 < n <= |cols| && Distinct(cols)
    ensures DueCell(FlushCols(f, k, values, cols, n - 1, now, sign).st, k, values, cols[n - 1]) ==
            DueCell(f.st, k, values, cols[n - 1])
  {
    hide FlushCols, DueCell;
    UntouchedCol(f, k, values, cols, n - 1, now, sign, cols[n - 1]);
    DueIsLocal(f.st, FlushCols(f, k, values, cols, n - 1, now, sign).st, k, values, cols[n - 1]);
  }

  /** One more due column, one more record. */
  lemma EmitsOneMore(st: Replica, k: RowKey, values: Row, cols: seq<Text>, n: nat, out0: seq<ChangeRecord>,
                     out: seq<ChangeRecord>, rec: ChangeRecord)
    requires 0 < n <= |cols| && DueCell(st, k, values, cols[n - 1]) && CellEmission(st, k, values, cols[n - 1], rec)
    requires out0 <= out && EmitsCells(st, k, values, cols, n - 1, out[|out0|..])
    ensures EmitsCells(st, k, values, cols, n, (out + [rec])[|out0|..])
  {
    hide DueCell, CellEmission;
    var part := (out + [rec])[|out0|..];
    assert part[..|part| - 1] == out[|out0|..] && part[|part| - 1] == rec;
  }

  lemma EmittedCell(st: Replica, g: Flushing, k: RowKey, values: Row, c: Text, now: Clockwork,
                    sign: ChangeRecord -> Text)
    requires c in values && g.st.id == st.id
    ensures var h := Emit(g, CellDraft(g.st, k, c, values[c]), now, sign);
            exists rec :: h.out == g.out + [rec] && CellEmission(st, k, values, c, rec)
  {
    hide Emit;
    EmitAppends(g, CellDraft(g.st, k, c, values[c]), now, sign);
    var h := Emit(g, CellDraft(g.st, k, c, values[c]), now, sign);
    assert CellEmission(st, k, values, c, Stamped(CellDraft(g.st, k, c, values[c]), h.st.clock, sign));
  }

  lemma {:induction false} FlushColsEmits(f: Flushing, k: RowKey, values: Row, cols: seq<Text>, n: nat,
                                          now: Clockwork, sign: ChangeRecord -> Text)
    requires n <= |cols| && Distinct(cols)
    ensures var g := FlushCols(f, k, values, cols, n, now, sign);
            && f.out <= g.out && EmitsCells(f.st, k, values, cols, n, g.out[|f.out|..])
  {
    if n > 0 {
      hide Emit, CellMatches, CellEmission;
      FlushColsEmits(f, k, values, cols, n - 1, now, sign);
      var g, c := FlushCols(f, k, values, cols, n - 1, now, sign), cols[n - 1];
      StillDue(f, k, values, cols, n, now, sign);
      FlushColsTables(f, k, values, cols, n - 1, now, sign);
      if DueCell(f.st, k, values, c) {
        EmittedCell(f.st, g, k, values, c, now, sign);
        var h := FlushCols(f, k, values, cols, n, now, sign);
        var rec :| h.out == g.out + [rec] && CellEmission(f.st, k, values, c, rec);
        hide EmitsCells, FlushCols;
        EmitsOneMore(f.st, k, values, cols, n, f.out, g.out, rec);
      }
    }
  }

  lemma EmitAppends(f: Flushing, draft: ChangeRecord, now: Clockwork, sign: ChangeRecord -> Text)
    ensures var g := Emit(f, draft, now, sign);
            g.out == f.out + [Stamped(draft, g.st.clock, sign)]
  {
  }

  /** The records `part` are what one staged row calls for: a tombstone if it was finally deleted and
      is gone, one change per differing column if it is there, nothing otherwise. */
  ghost predicate EmitsRow(st: Replica, k: RowKey, op: Op, part: seq<ChangeRecord>) {
    if k.tbl !in st.specs then part == []
    else if k in st.rows then EmitsCells(st, k, st.rows[k], st.specs[k.tbl].cols, |st.specs[k.tbl].cols|, part)
    else if op == Delete then
      |part| == 1 && part[0].kind == DeleteChange && RowOf(part[0]) == k && part[0].origin == st.id
      && part[0].col == [] && part[0].value == Null
    else part == []
  }

  /** The output splits into one such part per staged row, in first-seen order. */
  ghost predicate EmitsRows(st: Replica, order: seq<RowKey>, n: nat, final: map<RowKey, Op>, out: seq<ChangeRecord>)
    requires n <= |order| && forall k :: k in order ==> k in final
  {
    if n == 0 then out == []
    else exists m :: 0 <= m <= |out| && EmitsRow(st, order[n - 1], final[order[n - 1]], out[m..])
                     && EmitsRows(st, order, n - 1, final, out[..m])
  }

  lemma {:induction false} EmitsCellsSameRow(a: Replica, b: Replica, k: RowKey, values: Row, cols: seq<Text>, n: nat,
                                             part: seq<ChangeRecord>)
    requires n <= |cols| && SameRow(a, b, k) && a.id == b.id
    ensures EmitsCells(a, k, values, cols, n, part) == EmitsCells(b, k, values, cols, n, part)
  {
    if n > 0 {
      var key := CellKey(k, cols[n - 1]);
      assert key in a.cells <==> key in b.cells;
      EmitsCellsSameRow(a, b, k, values, cols, n - 1, part);
      if part != [] {
        EmitsCellsSameRow(a, b, k, values, cols, n - 1, part[..|part| - 1]);
      }
    }
  }

  lemma FlushRowEmits(f: Flushing, k: RowKey, op: Op, now: Clockwork, sign: ChangeRecord -> Text)
    requires k.tbl in f.st.specs ==> Distinct(f.st.specs[k.tbl].cols)
    ensures var g := FlushRow(f, k, op, now, sign);
            f.out <= g.out && EmitsRow(f.st, k, op, g.out[|f.out|..])
  {
    if k.tbl in f.st.specs && k in f.st.rows {
      var cols := f.st.specs[k.tbl].cols;
      FlushColsEmits(f, k, f.st.rows[k], cols, |cols|, now, sign);
    } else if k.tbl in f.st.specs && op == Delete {
      hide Emit;
      EmitAppends(f, TombstoneDraft(f.st, k), now, sign);
      var g := FlushRow(f, k, op, now, sign);
      assert g.out[|f.out|..] == [g.out[|f.out|]];
    }
  }

  lemma {:induction false} FlushRowsEmits(st: Replica, order: seq<RowKey>, n: nat, final: map<RowKey, Op>,
                                          now: Clockwork, sign: ChangeRecord -> Text)
    requires n <= |order| && Distinct(order) && forall k :: k in order ==> k in final
    requires forall t :: t in st.specs ==> Distinct(st.specs[t].cols)
    ensures EmitsRows(st, order, n, final, FlushRows(Flushing(st, []), order, n, final, now, sign).out)
  {
    if n > 0 {
      FlushRowsEmits(st, order, n - 1, final, now, sign);
      var f0 := Flushing(st, []);
      var g, k := FlushRows(f0, order, n - 1, final, now, sign), order[n - 1];
      FlushRowsFrame(f0, order, n - 1, final, now, sign, k);
      hide FlushRow, EmitsCells, SameRow;
      FlushRowEmits(g, k, final[k], now, sign);
      var h := FlushRows(f0, order, n, final, now, sign);
      var part := h.out[|g.out|..];
      if k.tbl in st.specs && k in st.rows {
        var cols := st.specs[k.tbl].cols;
        EmitsCellsSameRow(st, g.st, k, st.rows[k], cols, |cols|, part);
      }
      assert EmitsRow(st, k, final[k], part);
      assert h.out[..|g.out|] == g.out;
    }
  }

  /** "First seen": the rows come in the order of their first touch. */
  lemma {:induction false} FirstSeenIsOrdered(ops: seq<StagedOp>, i: nat, j: nat)
    requires i < j < |FirstSeen(ops)|
    ensures exists x :: 0 <= x < |ops| && ops[x].row == FirstSeen(ops)[i]
                        && forall y :: 0 <= y <= x ==> ops[y].row != FirstSeen(ops)[j]
  {
    var init, last := ops[..|ops| - 1], ops[|ops| - 1];
    assert ops == init + [last];
    if j < |FirstSeen(init)| {
      FirstSeenIsOrdered(init, i, j);
      var x :| 0 <= x < |init| && init[x].row == FirstSeen(init)[i]
               && forall y :: 0 <= y <= x ==> init[y].row != FirstSeen(init)[j];
      assert ops[x].row == FirstSeen(ops)[i];
    } else {
      assert FirstSeen(init)[i] in FirstSeen(init);
      var o :| o in init && o.row == FirstSeen(init)[i];
      var x :| 0 <= x < |init| && init[x] == o;
      forall y | 0 <= y <= x
        ensures ops[y].row != last.row
      {
        assert init[y] in init;
      }
      assert ops[x].row == FirstSeen(ops)[i];
    }
  }

  /** `flush_local` drains the queue and emits, for each staged row in first-seen order, exactly one
      tombstone (row gone, final intent delete) or one change per column whose stored form differs
      from the winning cell. */
  lemma FlushEmitsExactly(st: Replica, now: Clockwork, sign: ChangeRecord -> Text)
    requires SpecsOk(st)
    ensures var f := FlushLocal(st, now, sign);
            f.st.ops == [] && EmitsRows(st, FirstSeen(st.ops), |FirstSeen(st.ops)|, FinalOps(st.ops), f.out)
  {
    hide FlushRows, EmitsRows, FinalOps, FirstSeen;
    var order := FirstSeen(st.ops);
    FlushRowsEmits(st, order, |order|, FinalOps(st.ops), now, sign);
  }

  lemma {:induction false} DueCellIsEmitted(st: Replica, k: RowKey, values: Row, cols: seq<Text>, n: nat,
                                            part: seq<ChangeRecord>, i: nat)
    requires i < n <= |cols| && EmitsCells(st, k, values, cols, n, part) && DueCell(st, k, values, cols[i])
    ensures exists r :: r in part && CellEmission(st, k, values, cols[i], r)
  {
    hide DueCell, CellEmission;
    if i < n - 1 {
      var init := if DueCell(st, k, values, cols[n - 1]) then part[..|part| - 1] else part;
      DueCellIsEmitted(st, k, values, cols, n - 1, init, i);
    } else {
      assert part[|part| - 1] in part;
    }
  }

  lemma {:induction false} RowPartIsEmitted(st: Replica, order: seq<RowKey>, n: nat, final: map<RowKey, Op>,
                                            out: seq<ChangeRecord>, k: RowKey) returns (part: seq<ChangeRecord>)
    requires n <= |order| && (forall k :: k in order ==> k in final) && EmitsRows(st, order, n, final, out)
    requires k in order[..n]
    ensures EmitsRow(st, k, final[k], part) && forall r :: r in part ==> r in out
  {
    hide EmitsRow;
    var m :| 0 <= m <= |out| && EmitsRow(st, order[n - 1], final[order[n - 1]], out[m..])
             && EmitsRows(st, order, n - 1, final, out[..m]);
    if order[n - 1] == k {
      part := out[m..];
    } else {
      assert order[..n] == order[..n - 1] + [order[n - 1]];
      part := RowPartIsEmitted(st, order, n - 1, final, out[..m], k);
    }
  }

  /** Every column of a staged, present row that differs from its winning cell is announced by the next flush. */
  lemma DueColumnIsAnnounced(st: Replica, now: Clockwork, sign: ChangeRecord -> Text, k: RowKey, c: Text)
    requires SpecsOk(st) && Staged(st.ops, k) && k in st.rows && k.tbl in st.specs && c in st.specs[k.tbl].cols
    requires DueCell(st, k, st.rows[k], c)
    ensures exists r :: r in FlushLocal(st, now, sign).out && CellEmission(st, k, st.rows[k], c, r)
  {
    FlushEmitsExactly(st, now, sign);
    hide FlushLocal, EmitsRows, DueCell, CellEmission, EmitsCells;
    var order := FirstSeen(st.ops);
    assert order[..|order|] == order;
    var part := RowPartIsEmitted(st, order, |order|, FinalOps(st.ops), FlushLocal(st, now, sign).out, k);
    var cols := st.specs[k.tbl].cols;
    var i :| 0 <= i < |cols| && cols[i] == c;
    DueCellIsEmitted(st, k, st.rows[k], cols, |cols|, part, i);
  }

  // ---------------------------------------------------------- how much is emitted

  /** How many of the first `n` columns are due. */
  function DueBefore(st: Replica, k: RowKey, values: Row, cols: seq<Text>, n: nat): nat
    requires n <= |cols|
  {
    if n == 0 then 0 else DueBefore(st, k, values, cols, n - 1) + if DueCell(st, k, values, cols[n - 1]) then 1 else 0
  }

  /** How many records one staged row calls for. */
  function RowCount(st: Replica, k: RowKey, op: Op): nat {
    if k.tbl !in st.specs then 0
    else if k in st.rows then
      var cols := st.specs[k.tbl].cols;
      DueBefore(st, k, st.rows[k], cols, |cols|)
    else if op == Delete then 1
    else 0
  }

  /** How many records the first `n` staged rows call for. */
  function CountBefore(st: Replica, order: seq<RowKey>, n: nat, final: map<RowKey, Op>): nat
    requires n <= |order| && forall k :: k in order ==> k in final
  {
    if n == 0 then 0 else CountBefore(st, order, n - 1, final) + RowCount(st, order[n - 1], final[order[n - 1]])
  }

  /** How many records a flush calls for, told from the replica before it. */
  function FlushCount(st: Replica): nat {
    CountBefore(st, FirstSeen(st.ops), |FirstSeen(st.ops)|, FinalOps(st.ops))
  }

  lemma {:induction false} DueBeforeIsLocal(a: Replica, b: Replica, k: RowKey, values: Row, cols: seq<Text>, n: nat)
    requires n <= |cols| && SameRow(a, b, k)
    ensures DueBefore(a, k, values, cols, n) == DueBefore(b, k, values, cols, n)
  {
    if n > 0 {
      DueBeforeIsLocal(a, b, k, values, cols, n - 1);
      SameRowSameCell(a, b, CellKey(k, cols[n - 1]));
      hide SameRow, DueCell;
      DueIsLocal(a, b, k, values, cols[n - 1]);
    }
  }

  lemma SameRowSameCell(a: Replica, b: Replica, key: CellKey)
    requires SameRow(a, b, key.row)
    ensures Get(a.cells, key) == Get(b.cells, key)
  {
    assert key in a.cells <==> key in b.cells;
  }

  lemma CountIsLocal(a: Replica, b: Replica, k: RowKey, op: Op)
    requires SameRow(a, b, k) && SameTables(a, b)
    ensures RowCount(a, k, op) == RowCount(b, k, op)
  {
    hide DueBefore;
    if k.tbl in a.specs && k in a.rows {
      var cols := a.specs[k.tbl].cols;
      DueBeforeIsLocal(a, b, k, a.rows[k], cols, |cols|);
    }
  }

  lemma {:induction false} FlushColsCount(f: Flushing, k: RowKey, values: Row, cols: seq<Text>, n: nat,
                                          now: Clockwork, sign: ChangeRecord -> Text)
    requires n <= |cols| && Distinct(cols)
    ensures |FlushCols(f, k, values, cols, n, now, sign).out| == |f.out| + DueBefore(f.st, k, values, cols, n)
  {
    hide Emit, CellMatches;
    if n > 0 {
      FlushColsCount(f, k, values, cols, n - 1, now, sign);
      StillDue(f, k, values, cols, n, now, sign);
    }
  }

  lemma FlushRowCount(f: Flushing, k: RowKey, op: Op, now: Clockwork, sign: ChangeRecord -> Text)
    requires SpecsOk(f.st)
    ensures |FlushRow(f, k, op, now, sign).out| == |f.out| + RowCount(f.st, k, op)
  {
    hide Emit, FlushCols, DueBefore, Distinct;
    if k.tbl in f.st.specs && k in f.st.rows {
      var cols := f.st.specs[k.tbl].cols;
      FlushColsCount(f, k, f.st.rows[k], cols, |cols|, now, sign);
    }
  }

  lemma {:induction false} FlushRowsCount(st: Replica, order: seq<RowKey>, n: nat, final: map<RowKey, Op>,
                                          now: Clockwork, sign: ChangeRecord -> Text)
    requires n <= |order| && Distinct(order) && SpecsOk(st) && forall k :: k in order ==> k in final
    ensures |FlushRows(Flushing(st, []), order, n, final, now, sign).out| == CountBefore(st, order, n, final)
  {
    if n > 0 {
      var f0, k := Flushing(st, []), order[n - 1];
      assert k !in order[..n - 1];
      FlushRowsCount(st, order, n - 1, final, now, sign);
      FlushRowsFrame(f0, order, n - 1, final, now, sign, k);
      var g := FlushRows(f0, order, n - 1, final, now, sign);
      hide FlushRow, RowCount, SameRow, Distinct;
      CountIsLocal(st, g.st, k, final[k]);
      FlushRowCount(g, k, final[k], now, sign);
    }
  }

  lemma FlushCountIsExact(st: Replica, now: Clockwork, sign: ChangeRecord -> Text)
    requires SpecsOk(st)
    ensures |FlushLocal(st, now, sign).out| == FlushCount(st)
  {
    hide FlushRows, CountBefore, FinalOps, FirstSeen;
    var order := FirstSeen(st.ops);
    FlushRowsCount(st, order, |order|, FinalOps(st.ops), now, sign);
  }
}
