/** What the app sees, told from the change log alone: the last writer of each column wins, and a row
    is there unless its deletion came after every edit. */
module LastWriter {
  import opened Bytes
  import opened Change
  import opened Replicas
  import opened Index
  import opened Projection

  /** `r` is the latest write to column `c` of row `k`. */
  ghost predicate LastWrite(log: seq<ChangeRecord>, k: RowKey, c: Text, r: ChangeRecord) {
    && r in log && IsCell(r, CellKey(k, c))
    && (forall s {:trigger CellOf(s)} :: s in log && s.kind.CellChange? && CellOf(s) == CellKey(k, c) ==>
      StampLe(StampOf(s), StampOf(r)))
  }

  /** Some edit of the row came after every deletion of it. */
  ghost predicate EditedSinceDeleted(log: seq<ChangeRecord>, k: RowKey) {
    exists r :: r in log && r.kind.CellChange? && RowOf(r) == k && AfterDeletes(log, k, r)
  }

  ghost predicate AfterDeletes(log: seq<ChangeRecord>, k: RowKey, r: ChangeRecord) {
    forall d :: d in log && IsDelete(d, k) ==> StampLt(StampOf(d), StampOf(r))
  }

  /** The stored cell is the last write of its column. */
  lemma CellIsLastWrite(st: Replica, k: RowKey, c: Text, r: ChangeRecord)
    requires Indexed(st) && LastWrite(st.log, k, c, r)
    ensures CellKey(k, c) in st.cells && st.cells[CellKey(k, c)] == Cell(r.value, StampOf(r))
  {
    assert CellOf(r) == CellKey(k, c);
    var s :| s in st.log && IsCell(s, CellKey(k, c)) && st.cells[CellKey(k, c)] == Cell(s.value, StampOf(s));
    assert CellOf(s) == CellKey(k, c);
    StampTotal(StampOf(r), StampOf(s));
    SameStampSameRecord(st.log, r, s);
  }

  /** A cell in the index is the last write of its column. */
  lemma CellHasLastWrite(st: Replica, k: RowKey, c: Text) returns (r: ChangeRecord)
    requires Indexed(st) && CellKey(k, c) in st.cells
    ensures LastWrite(st.log, k, c, r) && st.cells[CellKey(k, c)] == Cell(r.value, StampOf(r))
  {
    r :| r in st.log && IsCell(r, CellKey(k, c)) && st.cells[CellKey(k, c)] == Cell(r.value, StampOf(r));
  }

  lemma AliveIsEdited(st: Replica, k: RowKey)
    requires Indexed(st)
    ensures Alive(st, k) <==> EditedSinceDeleted(st.log, k)
  {
    if Alive(st, k) {
      AliveHasEdit(st, k);
    }
    if EditedSinceDeleted(st.log, k) {
      var r :| r in st.log && r.kind.CellChange? && RowOf(r) == k && AfterDeletes(st.log, k, r);
      EditKeepsAlive(st, k, r);
    }
  }

  lemma AliveHasEdit(st: Replica, k: RowKey)
    requires Indexed(st) && Alive(st, k)
    ensures EditedSinceDeleted(st.log, k)
  {
    var c :| c in st.cells && c.row == k && (k in st.tombs ==> !StampLt(st.cells[c].stamp, st.tombs[k]));
    var r :| r in st.log && IsCell(r, c) && st.cells[c] == Cell(r.value, StampOf(r));
    assert CellOf(r) == c;
    forall d | d in st.log && IsDelete(d, k)
      ensures StampLt(StampOf(d), StampOf(r))
    {
      assert RowOf(d) == k && StampLe(StampOf(d), st.tombs[k]);
      StampTotal(st.tombs[k], StampOf(r));
      if StampOf(d) == StampOf(r) {
        SameStampSameRecord(st.log, d, r);
      } else {
        StampTransitive(StampOf(d), st.tombs[k], StampOf(r));
      }
    }
  }

  lemma EditKeepsAlive(st: Replica, k: RowKey, r: ChangeRecord)
    requires Indexed(st) && r in st.log && r.kind.CellChange? && RowOf(r) == k && AfterDeletes(st.log, k, r)
    ensures Alive(st, k)
  {
    var c := CellOf(r);
    assert c in st.cells && c.row == k && StampLe(StampOf(r), st.cells[c].stamp);
    if k in st.tombs {
      var d :| d in st.log && IsDelete(d, k) && st.tombs[k] == StampOf(d);
      StampTransitive(StampOf(d), StampOf(r), st.cells[c].stamp);
      StampTotal(st.tombs[k], st.cells[c].stamp);
    }
  }

  /** The value of a column that nobody has written: its schema default, and NULL if it has none. */
  predicate IsDefault(spec: TableSpec, c: Text, v: SqlValue) {
    if c in spec.defaults then v == spec.defaults[c] else v == Null
  }

  /** Every registered row without a pending edit is what the log says: present exactly when some edit
      came after every deletion, and then each column holds its last write, whoever wrote the others,
      or its schema default if nobody ever wrote it. */
  lemma RowsAreLastWriterWins(st: Replica, k: RowKey)
    requires Indexed(st) && Projects(st) && !Staged(st.ops, k) && k.tbl in st.specs
    ensures k in st.rows <==> EditedSinceDeleted(st.log, k)
    ensures k in st.rows ==> forall c, r :: c in st.specs[k.tbl].cols && LastWrite(st.log, k, c, r) ==>
              c in st.rows[k] && st.rows[k][c] == r.value
    ensures k in st.rows ==> forall c :: c in st.specs[k.tbl].cols && (forall r :: !LastWrite(st.log, k, c, r)) ==>
              c in st.rows[k] && IsDefault(st.specs[k.tbl], c, st.rows[k][c])
  {
    assert RowOk(st, k);
    AliveIsEdited(st, k);
    hide Projects, Alive, EditedSinceDeleted;
    if k in st.rows {
      assert st.rows[k] == Projected(st, k).value;
      forall c, r | c in st.specs[k.tbl].cols && LastWrite(st.log, k, c, r)
        ensures c in st.rows[k] && st.rows[k][c] == r.value
      {
        CellIsLastWrite(st, k, c, r);
      }
      forall c | c in st.specs[k.tbl].cols && forall r :: !LastWrite(st.log, k, c, r)
        ensures c in st.rows[k] && IsDefault(st.specs[k.tbl], c, st.rows[k][c])
      {
        if CellKey(k, c) in st.cells {
          var r := CellHasLastWrite(st, k, c);
        }
      }
    }
  }

  /** A write that a later one outranks is the last write of its column wherever both are held: nowhere. */
  lemma OutrankedNeverShows(log: seq<ChangeRecord>, k: RowKey, c: Text, winner: ChangeRecord, loser: ChangeRecord)
    requires winner in log && IsCell(winner, CellKey(k, c)) && StampLt(StampOf(loser), StampOf(winner))
    ensures !LastWrite(log, k, c, loser)
  {
    StampTotal(StampOf(winner), StampOf(loser));
    assert CellOf(winner) == CellKey(k, c);
  }
}
