/** The replica as a value, and what each operation of rust/p2p-core/src/db/mod.rs makes of it.
    Clock readings are a function: the i-th reading of the system clock during a call is `now(i)`. */
module Replicas {
  import opened Bytes
  import opened HybridLogicalClock
  import opened Change

  datatype Cell = Cell(value: SqlValue, stamp: Stamp)
  type Row = map<Text, SqlValue>
  datatype Op = Upsert | Delete
  datatype StagedOp = StagedOp(row: RowKey, op: Op)

  /** A registered table: its replicated columns and their schema defaults. */
  datatype TableSpec = TableSpec(cols: seq<Text>, defaults: Row)

  datatype Replica = Replica(
    id: Text,
    specs: map<Text, TableSpec>,
    log: seq<ChangeRecord>,           // entry i has sequence number i + 1
    cells: map<CellKey, Cell>,
    tombs: map<RowKey, Stamp>,
    vv: VersionVector,
    ops: seq<StagedOp>,
    guard: bool,
    rows: map<RowKey, Row>,           // the app's own tables
    clock: Hlc,
    watermark: nat)

  type Clockwork = nat -> U64

  function Get<K, V>(m: map<K, V>, k: K): Option<V> {
    if k in m then Some(m[k]) else None
  }

  // ------------------------------------------------------ storing a record

  predicate Held(log: seq<ChangeRecord>, s: Stamp) {
    exists r :: r in log && StampOf(r) == s
  }

  /** The unique index on (origin, hlc): a record already held is not inserted. */
  function StoreChange(log: seq<ChangeRecord>, rec: ChangeRecord): seq<ChangeRecord> {
    if Held(log, StampOf(rec)) then log else log + [rec]
  }

  function UpsertCell(cells: map<CellKey, Cell>, rec: ChangeRecord): map<CellKey, Cell> {
    var k := CellOf(rec);
    if k in cells && !StampLt(cells[k].stamp, StampOf(rec)) then cells
    else cells[k := Cell(rec.value, StampOf(rec))]
  }

  function UpsertTombstone(tombs: map<RowKey, Stamp>, rec: ChangeRecord): map<RowKey, Stamp> {
    var k := RowOf(rec);
    if k in tombs && !StampLt(tombs[k], StampOf(rec)) then tombs else tombs[k := StampOf(rec)]
  }

  /** Resolves one record against the cells and tombstones and moves the vector. */
  function Merge(st: Replica, rec: ChangeRecord): Replica {
    st.(cells := if rec.kind.CellChange? then UpsertCell(st.cells, rec) else st.cells,
        tombs := if rec.kind.DeleteChange? then UpsertTombstone(st.tombs, rec) else st.tombs,
        vv := Bump(st.vv, rec.origin, rec.hlc))
  }

  // -------------------------------------------------------- local SQL writes

  /** Row-level effect of a local statement. */
  datatype SqlWrite =
    | Insert(key: RowKey, row: Row)
    | Update(key: RowKey, row: Row)
    | Rekey(key: RowKey, newPk: Text, row: Row)
    | Remove(key: RowKey)

  /** The capture triggers: stage the touch unless the guard is up or the table is unregistered. */
  function Capture(st: Replica, touched: seq<StagedOp>): seq<StagedOp> {
    if st.guard || touched == [] || touched[0].row.tbl !in st.specs then st.ops else st.ops + touched
  }

  /** A statement that hits a missing row, or an occupied primary key, changes nothing. */
  function Execute(st: Replica, w: SqlWrite): Replica {
    match w
    case Insert(k, row) =>
      if k in st.rows then st
      else st.(rows := st.rows[k := row], ops := Capture(st, [StagedOp(k, Upsert)]))
    case Update(k, row) =>
      if k !in st.rows then st
      else st.(rows := st.rows[k := row], ops := Capture(st, [StagedOp(k, Upsert)]))
    case Rekey(k, newPk, row) =>
      var k2 := RowKey(k.tbl, newPk);
      if k !in st.rows || (k2 != k && k2 in st.rows) then st
      else st.(rows := (st.rows - {k})[k2 := row],
               ops := Capture(st, [StagedOp(k2, Upsert)] + if k2 != k then [StagedOp(k, Delete)] else []))
    case Remove(k) =>
      if k !in st.rows then st
      else st.(rows := st.rows - {k}, ops := Capture(st, [StagedOp(k, Delete)]))
  }

  // ------------------------------------------------------------------- flush

  function FinalOps(ops: seq<StagedOp>): (m: map<RowKey, Op>)
    ensures forall k :: k in m <==> Staged(ops, k)
  {
    if ops == [] then map[]
    else
      var last := ops[|ops| - 1];
      assert ops == ops[..|ops| - 1] + [last];
      FinalOps(ops[..|ops| - 1])[last.row := last.op]
  }

  predicate Staged(ops: seq<StagedOp>, k: RowKey) {
    exists o :: o in ops && o.row == k
  }

  /** The staged rows in first-seen order, each once. */
  function FirstSeen(ops: seq<StagedOp>): (order: seq<RowKey>)
    ensures forall k :: k in order <==> Staged(ops, k)
    ensures forall i, j :: 0 <= i < j < |order| ==> order[i] != order[j]
  {
    if ops == [] then []
    else
      var last := ops[|ops| - 1];
      assert ops == ops[..|ops| - 1] + [last];
      var init := FirstSeen(ops[..|ops| - 1]);
      if last.row in init then init else init + [last.row]
  }

  datatype Flushing = Flushing(st: Replica, out: seq<ChangeRecord>)

  function Stamped(draft: ChangeRecord, hlc: Hlc, sign: ChangeRecord -> Text): ChangeRecord {
    var rec := draft.(hlc := hlc, sig := []);
    rec.(sig := sign(rec))
  }

  /** Stamps, signs, stores and indexes one authored change. */
  function Emit(f: Flushing, draft: ChangeRecord, now: Clockwork, sign: ChangeRecord -> Text): (g: Flushing)
    ensures |g.out| == |f.out| + 1 && g.st.ops == f.st.ops && g.st.id == f.st.id && g.st.specs == f.st.specs
    ensures g.st.rows == f.st.rows && g.st.guard == f.st.guard && g.st.watermark == f.st.watermark
  {
    var hlc := Ticked(f.st.clock, now(|f.out|));
    var rec := Stamped(draft, hlc, sign);
    Flushing(Merge(f.st.(log := StoreChange(f.st.log, rec)), rec).(clock := hlc), f.out + [rec])
  }

  function TombstoneDraft(st: Replica, k: RowKey): ChangeRecord {
    ChangeRecord(k.tbl, k.pk, [], Null, ZERO, st.id, DeleteChange, [])
  }

  function CellDraft(st: Replica, k: RowKey, col: Text, v: SqlValue): ChangeRecord {
    ChangeRecord(k.tbl, k.pk, col, v, ZERO, st.id, CellChange, [])
  }

  predicate CellMatches(cells: map<CellKey, Cell>, k: RowKey, col: Text, v: SqlValue) {
    CellKey(k, col) in cells && ToStorage(cells[CellKey(k, col)].value) == ToStorage(v)
  }

  /** The first `n` columns of a row. */
  function FlushCols(f: Flushing, k: RowKey, values: Row, cols: seq<Text>, n: nat, now: Clockwork,
                     sign: ChangeRecord -> Text): Flushing
    requires n <= |cols|
  {
    if n == 0 then f
    else
      var g := FlushCols(f, k, values, cols, n - 1, now, sign);
      var c := cols[n - 1];
      if c !in values || CellMatches(g.st.cells, k, c, values[c]) then g
      else Emit(g, CellDraft(g.st, k, c, values[c]), now, sign)
  }

  function FlushRow(f: Flushing, k: RowKey, op: Op, now: Clockwork, sign: ChangeRecord -> Text): Flushing {
    if k.tbl !in f.st.specs then f
    else if k in f.st.rows then
      var cols := f.st.specs[k.tbl].cols;
      FlushCols(f, k, f.st.rows[k], cols, |cols|, now, sign)
    else if op == Delete then Emit(f, TombstoneDraft(f.st, k), now, sign)
    else f
  }

  /** The first `n` staged rows. */
  function FlushRows(f: Flushing, order: seq<RowKey>, n: nat, final: map<RowKey, Op>, now: Clockwork,
                     sign: ChangeRecord -> Text): Flushing
    requires n <= |order| && forall k :: k in order ==> k in final
  {
    if n == 0 then f
    else
      var k := order[n - 1];
      FlushRow(FlushRows(f, order, n - 1, final, now, sign), k, final[k], now, sign)
  }

  function FlushLocal(st: Replica, now: Clockwork, sign: ChangeRecord -> Text): Flushing {
    var order := FirstSeen(st.ops);
    var f := FlushRows(Flushing(st, []), order, |order|, FinalOps(st.ops), now, sign);
    f.(st := f.st.(ops := []))
  }

  // ------------------------------------------------------------ remote apply

  /** The records that pass the shape and authorship checks, in arrival order. */
  function Accepted(batch: seq<ChangeRecord>, valid: ChangeRecord -> bool): (acc: seq<ChangeRecord>)
    ensures forall r :: r in acc <==> r in batch && r.origin != [] && r.tbl != [] && valid(r)
  {
    if batch == [] then []
    else
      var last := batch[|batch| - 1];
      assert batch == batch[..|batch| - 1] + [last];
      var init := Accepted(batch[..|batch| - 1], valid);
      if last.origin != [] && last.tbl != [] && valid(last) then init + [last] else init
  }

  function Receive(st: Replica, rec: ChangeRecord, phys: U64): Replica {
    if Held(st.log, StampOf(rec)) then st
    else Merge(st.(log := st.log + [rec]), rec).(clock := Observed(st.clock, phys, rec.hlc))
  }

  /** The first `n` records of a batch. */
  function ReceiveAll(st: Replica, recs: seq<ChangeRecord>, n: nat, now: Clockwork): (r: Replica)
    requires n <= |recs|
    ensures |st.log| <= |r.log| <= |st.log| + n
    ensures r.id == st.id && r.specs == st.specs && r.ops == st.ops && r.guard == st.guard
    ensures r.rows == st.rows && r.watermark == st.watermark
  {
    if n == 0 then st
    else
      var init := ReceiveAll(st, recs, n - 1, now);
      Receive(init, recs[n - 1], now(|init.log| - |st.log|))
  }

  /** Whether anything is known about a row. */
  predicate Known(st: Replica, k: RowKey) {
    k in st.tombs || exists c :: c in st.cells && c.row == k
  }

  /** The tombstone outranks every surviving cell of the row. */
  predicate Outranked(st: Replica, k: RowKey) {
    k in st.tombs && forall c :: c in st.cells && c.row == k ==> StampLt(st.cells[c].stamp, st.tombs[k])
  }

  /** The winning values of the columns that this build knows. */
  function KnownCells(st: Replica, k: RowKey): Row
    requires k.tbl in st.specs
  {
    map c | c in st.specs[k.tbl].cols && CellKey(k, c) in st.cells :: st.cells[CellKey(k, c)].value
  }

  function DefaultRow(spec: TableSpec): Row {
    map c | c in spec.cols :: if c in spec.defaults then spec.defaults[c] else Null
  }

  /** What `materialize` makes of one app row. */
  function Materialized(st: Replica, k: RowKey): Option<Row>
    requires k.tbl in st.specs
  {
    if !Known(st, k) then Get(st.rows, k)
    else if Outranked(st, k) then None
    else Some((if k in st.rows then st.rows[k] else DefaultRow(st.specs[k.tbl])) + KnownCells(st, k))
  }

  function RowAfter(st: Replica, dirty: set<RowKey>, k: RowKey): Option<Row> {
    if k in dirty && k.tbl in st.specs then Materialized(st, k) else Get(st.rows, k)
  }

  function MaterializeAll(st: Replica, dirty: set<RowKey>): map<RowKey, Row> {
    map k | k in st.rows.Keys + dirty && RowAfter(st, dirty, k).Some? :: RowAfter(st, dirty, k).value
  }

  /** The log entries that `after` gained over `before`. */
  function Fresh(before: Replica, after: Replica): seq<ChangeRecord>
    requires |before.log| <= |after.log|
  {
    after.log[|before.log|..]
  }

  function DirtyRows(st: Replica, recs: seq<ChangeRecord>): set<RowKey> {
    set r | r in recs && r.tbl in st.specs :: RowOf(r)
  }

  function ApplyRemote(st: Replica, batch: seq<ChangeRecord>, now: Clockwork, valid: ChangeRecord -> bool): Replica {
    var acc := Accepted(batch, valid);
    if acc == [] then st
    else
      var s1 := ReceiveAll(st, SortByStamp(acc), |acc|, now);
      s1.(rows := MaterializeAll(s1, DirtyRows(st, Fresh(st, s1))), guard := false)
  }

  // ------------------------------------------------------------ anti-entropy

  /** Everything held that `peer` does not cover; a missing entry sorts below every stamp. */
  function Missing(log: seq<ChangeRecord>, peer: VersionVector): (m: seq<ChangeRecord>)
    ensures forall r :: r in m <==> r in log && !Covers(peer, r)
  {
    if log == [] then []
    else
      var last := log[|log| - 1];
      assert log == log[..|log| - 1] + [last];
      var init := Missing(log[..|log| - 1], peer);
      if last.origin in peer && !Less(peer[last.origin], last.hlc) then init else init + [last]
  }

  function Take<T>(s: seq<T>, n: nat): seq<T> {
    if n < |s| then s[..n] else s
  }

  function ChangesSince(st: Replica, peer: VersionVector, limit: nat): seq<ChangeRecord> {
    Take(SortByStamp(Missing(st.log, peer)), limit)
  }

  // ------------------------------------------------------------------ outbox

  /** Own records with a sequence number above `mark`, oldest first. */
  function OwnAbove(log: seq<ChangeRecord>, id: Text, mark: nat): seq<(nat, ChangeRecord)> {
    if log == [] then []
    else
      var init := OwnAbove(log[..|log| - 1], id, mark);
      if log[|log| - 1].origin == id && |log| > mark then init + [(|log|, log[|log| - 1])] else init
  }

  function Records(entries: seq<(nat, ChangeRecord)>): (r: seq<ChangeRecord>)
    ensures |r| == |entries|
  {
    seq(|entries|, i requires 0 <= i < |entries| => entries[i].1)
  }

  /** `unbroadcast_local`: the next own records to send, and the mark to set once they are out. */
  function Unbroadcast(st: Replica, limit: nat): (seq<ChangeRecord>, nat) {
    var next := Take(OwnAbove(st.log, st.id, st.watermark), limit);
    (Records(next), if next == [] then st.watermark else next[|next| - 1].0)
  }

  // ----------------------------------------------------------------- reopen

  /** `SELECT MAX(hlc) ... WHERE origin = id`. */
  function OwnMaximum(log: seq<ChangeRecord>, id: Text): Option<Hlc> {
    if log == [] then None
    else
      var init := OwnMaximum(log[..|log| - 1], id);
      var last := log[|log| - 1];
      if last.origin != id || (init.Some? && !Less(init.value, last.hlc)) then init else Some(last.hlc)
  }

  /** The rows that `register_table` stages: present, registered, and without any cell. */
  ghost predicate AdoptionScan(st: Replica, found: seq<RowKey>) {
    forall k :: k in found <==>
      k in st.rows && k.tbl in st.specs && !(exists c :: c in st.cells && c.row == k)
  }

  function Adopt(found: seq<RowKey>, n: nat): seq<StagedOp>
    requires n <= |found|
  {
    if n == 0 then [] else Adopt(found, n - 1) + [StagedOp(found[n - 1], Upsert)]
  }

  /** Restart: the clock resumes from the device's own log, and `from_connection`
      registers its tables again. */
  function Reopen(st: Replica, found: seq<RowKey>): Replica {
    var own := OwnMaximum(st.log, st.id);
    st.(clock := if own.Some? then own.value else ZERO,
        ops := st.ops + Adopt(found, |found|))
  }
}
