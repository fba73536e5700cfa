/** N replicas exchanging Sync requests and pages over a network that loses, duplicates, delays
    and reorders messages (rust/p2p-core/src/net/node.rs with rust/p2p-core/src/db/mod.rs). */
module Network {
  import opened Bytes
  import opened HybridLogicalClock
  import opened Change
  import opened Replicas
  import opened Index
  import opened Authoring
  import opened Convergence
  import opened Projection
  import opened Flushes
  import opened PendingEdits
  import opened Runs

  // ------------------------------------------------------------- closed logs

  /** The log is exactly what the vector claims: every record of the organisation at or below it. */
  ghost predicate Closed(st: Replica, all: set<ChangeRecord>) {
    forall r :: r in st.log <==> r in all && Covers(st.vv, r)
  }

  /** Nothing that `vv` lacks is older than a record of the batch by the same author, unless the
      batch brings it too. */
  ghost predicate GapFree(vv: VersionVector, batch: seq<ChangeRecord>, all: set<ChangeRecord>) {
    forall p, x :: p in batch && x in all && x.origin == p.origin && Less(x.hlc, p.hlc) && !Covers(vv, x) ==> x in batch
  }

  /** A batch keeps the log closed exactly when it leaves no gap: the vector moves to the greatest
      stamp applied, whatever lies below it. */
  lemma ApplyClosesIff(st: Replica, batch: seq<ChangeRecord>, now: Clockwork, valid: ChangeRecord -> bool,
                       all: set<ChangeRecord>)
    requires Indexed(st) && OnePerStamp(all) && Closed(st, all) && From(batch, all)
    ensures Closed(ApplyRemote(st, batch, now, valid), all) <==> GapFree(st.vv, Accepted(batch, valid), all)
  {
    AppliedRecords(st, batch, now, valid, all);
    ApplyKeepsIndex(st, batch, now, valid);
    hide ApplyRemote, Accepted;
    ClosesIff(st, ApplyRemote(st, batch, now, valid), Accepted(batch, valid), all);
  }

  lemma ClosesIff(st: Replica, st': Replica, acc: seq<ChangeRecord>, all: set<ChangeRecord>)
    requires Closed(st, all) && OnePerStamp(all) && From(acc, all) && Indexed(st) && Indexed(st')
    requires forall r :: r in st'.log <==> r in st.log || r in acc
    ensures Closed(st', all) <==> GapFree(st.vv, acc, all)
  {
    if GapFree(st.vv, acc, all) {
      forall x
        ensures x in st'.log <==> x in all && Covers(st'.vv, x)
      {
        if x in all && Covers(st'.vv, x) {
          ReachedRecordIsHeld(st, st', acc, all, x);
        }
      }
    }
    if Closed(st', all) {
      forall p, x | p in acc && x in all && x.origin == p.origin && Less(x.hlc, p.hlc) && !Covers(st.vv, x)
        ensures x in acc
      {
        assert p in st'.log;
        assert Covers(st'.vv, p);
        assert Covers(st'.vv, x);
      }
    }
  }

  lemma ReachedRecordIsHeld(st: Replica, st': Replica, acc: seq<ChangeRecord>, all: set<ChangeRecord>, x: ChangeRecord)
    requires Closed(st, all) && OnePerStamp(all) && From(acc, all) && GapFree(st.vv, acc, all)
    requires VectorIndexed(st'.log, st'.vv) && forall r :: r in st'.log <==> r in st.log || r in acc
    requires x in all && Covers(st'.vv, x)
    ensures x in st'.log
  {
    var y :| y in st'.log && y.origin == x.origin && y.hlc == st'.vv[x.origin];
    if y in st.log {
      assert Covers(st.vv, y);
      assert Covers(st.vv, x);
    } else if x.hlc == y.hlc {
      OneRecord(all, x, y);
    } else {
      assert Covers(st.vv, x) || x in acc;
    }
  }

  // ------------------------------------------------------------------- pages

  ghost predicate VvLe(a: VersionVector, b: VersionVector) {
    forall o :: o in a ==> o in b && Leq(a[o], b[o])
  }

  lemma CoversGrows(a: VersionVector, b: VersionVector, r: ChangeRecord)
    requires VvLe(a, b) && Covers(a, r)
    ensures Covers(b, r)
  {
  }

  /** A page starts with everything missing below its last record. */
  lemma PageIsPrefix(st: Replica, peer: VersionVector, limit: nat, p: ChangeRecord, x: ChangeRecord)
    requires p in ChangesSince(st, peer, limit) && x in st.log && !Covers(peer, x) && StampLt(StampOf(x), StampOf(p))
    ensures x in ChangesSince(st, peer, limit)
  {
    var m := Missing(st.log, peer);
    var sorted, page := SortByStamp(m), ChangesSince(st, peer, limit);
    SortSorts(m);
    var i :| 0 <= i < |page| && page[i] == p;
    var j :| 0 <= j < |sorted| && sorted[j] == x;
    if j >= |page| {
      assert StampLe(StampOf(sorted[i]), StampOf(sorted[j]));
      StampTotal(StampOf(p), StampOf(x));
    }
    assert page[j] == x;
  }

  lemma PageMembers(st: Replica, peer: VersionVector, limit: nat, p: ChangeRecord)
    requires p in ChangesSince(st, peer, limit)
    ensures p in st.log && !Covers(peer, p)
  {
    var m := Missing(st.log, peer);
    SortSorts(m);
    assert p in SortByStamp(m);
  }

  /** A record passed over is lost for good: no page answered to the replica's vector contains it. */
  lemma GapNeverHeals(st: Replica, sender: Replica, x: ChangeRecord, limit: nat)
    requires x !in st.log && Covers(st.vv, x)
    ensures x !in ChangesSince(sender, st.vv, limit)
  {
    if x in ChangesSince(sender, st.vv, limit) {
      PageMembers(sender, st.vv, limit, x);
    }
  }

  /** A page computed from a vector, however stale, opens no gap in a replica that has moved on. */
  lemma PageIsGapFree(sender: Replica, peer: VersionVector, limit: nat, vv: VersionVector, all: set<ChangeRecord>)
    requires Closed(sender, all) && VvLe(peer, vv)
    ensures From(ChangesSince(sender, peer, limit), all) && GapFree(vv, ChangesSince(sender, peer, limit), all)
  {
    hide ChangesSince;
    var page := ChangesSince(sender, peer, limit);
    forall p | p in page
      ensures p in all && p in sender.log
    {
      PageMembers(sender, peer, limit, p);
    }
    forall p, x | p in page && x in all && x.origin == p.origin && Less(x.hlc, p.hlc) && !Covers(vv, x)
      ensures x in page
    {
      assert Covers(sender.vv, p);
      assert Covers(sender.vv, x);
      if Covers(peer, x) {
        CoversGrows(peer, vv, x);
      } else {
        PageIsPrefix(sender, peer, limit, p, x);
      }
    }
  }

  /** `Runtime::apply` drops what read-only devices authored, whatever the route. */
  function Kept(batch: seq<ChangeRecord>, readOnly: set<Text>): (k: seq<ChangeRecord>)
    ensures forall r :: r in k <==> r in batch && r.origin !in readOnly
  {
    if batch == [] then []
    else
      var last := batch[|batch| - 1];
      assert batch == batch[..|batch| - 1] + [last];
      var init := Kept(batch[..|batch| - 1], readOnly);
      if last.origin in readOnly then init else init + [last]
  }

  /** The filter takes an author's records all or none, so it opens no gap either. */
  lemma FilterIsGapFree(vv: VersionVector, batch: seq<ChangeRecord>, readOnly: set<Text>, all: set<ChangeRecord>)
    requires GapFree(vv, batch, all)
    ensures GapFree(vv, Kept(batch, readOnly), all)
  {
    hide Kept;
    forall p, x | p in Kept(batch, readOnly) && x in all && x.origin == p.origin && Less(x.hlc, p.hlc) && !Covers(vv, x)
      ensures x in Kept(batch, readOnly)
    {
      assert p in batch;
      assert x in batch;
    }
  }

  // ---------------------------------------------------------- state and steps

  datatype Message =
    | Request(asker: Text, asked: Text, vv: VersionVector)
    | Page(to: Text, records: seq<ChangeRecord>)

  /** The devices, every message ever sent, and every record ever authored. A message stays
      available for ever: it may be delivered late, out of order, many times or never. */
  datatype Net = Net(nodes: map<Text, Replica>, msgs: set<Message>, authored: set<ChangeRecord>)

  /** Each device's signing key, and the authorship check that all share. */
  datatype Env = Env(sign: Text -> ChangeRecord -> Text, valid: ChangeRecord -> bool)

  datatype NetStep =
    | Local(at: Text, step: Step)
    | Ask(asker: Text, asked: Text)
    | Answer(request: Message, limit: nat)
    | Deliver(page: Message, readOnly: set<Text>, now: Clockwork)
    | Push(to: Text, records: seq<ChangeRecord>, readOnly: set<Text>, now: Clockwork)

  function KeysOf(env: Env, id: Text): Keys {
    Keys(env.sign(id), env.valid)
  }

  function Members(s: seq<ChangeRecord>): set<ChangeRecord> {
    set r | r in s
  }

  /** What the steps need: ticks that are fresh, messages that were sent, and pushed or gossiped
      records that extend what the receiver holds. */
  ghost predicate Enabled(net: Net, s: NetStep, env: Env) {
    match s
    case Local(at, step) =>
      at in net.nodes && !step.Remote? &&
      (step.Flush? ==> FreshTicks(net.nodes[at], step.now, FlushCount(net.nodes[at])))
    case Ask(asker, asked) => asker in net.nodes
    case Answer(request, limit) => request in net.msgs && request.Request? && request.asked in net.nodes
    case Deliver(page, readOnly, now) => page in net.msgs && page.Page? && page.to in net.nodes
    case Push(to, records, readOnly, now) =>
      to in net.nodes && From(records, net.authored) && GapFree(net.nodes[to].vv, records, net.authored)
  }

  function Arrive(net: Net, to: Text, records: seq<ChangeRecord>, readOnly: set<Text>, now: Clockwork, env: Env): Net
    requires to in net.nodes
  {
    net.(nodes := net.nodes[to := ApplyRemote(net.nodes[to], Kept(records, readOnly), now, env.valid)])
  }

  ghost function Next(net: Net, s: NetStep, env: Env): Net
    requires Enabled(net, s, env)
  {
    match s
    case Local(at, step) =>
      var f := Take1(net.nodes[at], step, KeysOf(env, at));
      net.(nodes := net.nodes[at := f.st], authored := net.authored + Members(f.out))
    case Ask(asker, asked) => net.(msgs := net.msgs + {Request(asker, asked, net.nodes[asker].vv)})
    case Answer(request, limit) =>
      net.(msgs := net.msgs + {Page(request.asker, ChangesSince(net.nodes[request.asked], request.vv, limit))})
    case Deliver(page, readOnly, now) => Arrive(net, page.to, page.records, readOnly, now, env)
    case Push(to, records, readOnly, now) => Arrive(net, to, records, readOnly, now, env)
  }

  // --------------------------------------------------------------- invariant

  predicate Acceptable(r: ChangeRecord, env: Env) {
    r.origin != [] && r.tbl != [] && env.valid(r)
  }

  /** Every device's signature over its own unsigned records verifies. */
  ghost predicate KeysMatch(env: Env) {
    forall id: Text, d: ChangeRecord :: d.origin == id && d.sig == [] ==> env.valid(d.(sig := env.sign(id)(d)))
  }

  ghost predicate NodeOk(id: Text, st: Replica, all: set<ChangeRecord>) {
    && st.id == id && id != [] && [] !in st.specs && SpecsOk(st)
    && Indexed(st) && OwnOrdered(st) && ClockOwn(st) && Closed(st, all)
    && (forall r :: r in all && r.origin == id ==> r in st.log)
  }

  ghost predicate MessageOk(net: Net, m: Message) {
    match m
    case Request(asker, asked, vv) => asker in net.nodes && VvLe(vv, net.nodes[asker].vv)
    case Page(to, records) =>
      to in net.nodes && From(records, net.authored) && GapFree(net.nodes[to].vv, records, net.authored)
  }

  ghost predicate NetOk(net: Net, env: Env) {
    && (forall a :: a in net.nodes ==> NodeOk(a, net.nodes[a], net.authored))
    && (forall m :: m in net.msgs ==> MessageOk(net, m))
    && (forall r :: r in net.authored ==> r.origin in net.nodes && Acceptable(r, env))
  }

  /** Records that come after everything their author has authored so far. */
  ghost predicate Later(all: set<ChangeRecord>, news: set<ChangeRecord>) {
    forall r, n :: r in all && n in news && r.origin == n.origin ==> Less(r.hlc, n.hlc)
  }

  lemma AuthoredOnePerStamp(net: Net, env: Env)
    requires NetOk(net, env)
    ensures OnePerStamp(net.authored)
  {
    forall r, s | r in net.authored && s in net.authored && StampOf(r) == StampOf(s)
      ensures r == s
    {
      var st := net.nodes[r.origin];
      assert NodeOk(r.origin, st, net.authored);
      SameStampSameRecord(st.log, r, s);
    }
  }

  lemma NodeFrame(id: Text, st: Replica, all: set<ChangeRecord>, news: set<ChangeRecord>)
    requires NodeOk(id, st, all) && Later(all, news) && forall n :: n in news ==> n.origin != id
    ensures NodeOk(id, st, all + news)
  {
    forall n | n in news
      ensures !Covers(st.vv, n)
    {
      if n.origin in st.vv {
        var y :| y in st.log && y.origin == n.origin && y.hlc == st.vv[n.origin];
        assert y in all;
      }
    }
  }

  lemma GapFreeFrame(vv: VersionVector, vv': VersionVector, page: seq<ChangeRecord>, all: set<ChangeRecord>,
                     news: set<ChangeRecord>)
    requires GapFree(vv, page, all) && VvLe(vv, vv') && Later(all, news) && From(page, all)
    ensures GapFree(vv', page, all + news)
  {
    forall p, x | p in page && x in all + news && x.origin == p.origin && Less(x.hlc, p.hlc) && !Covers(vv', x)
      ensures x in page
    {
      if x in all && Covers(vv, x) {
        CoversGrows(vv, vv', x);
      }
    }
  }

  lemma VvLeTransitive(a: VersionVector, b: VersionVector, c: VersionVector)
    requires VvLe(a, b) && VvLe(b, c)
    ensures VvLe(a, c)
  {
  }

  /** A growing log means a growing vector. */
  lemma VectorGrows(st: Replica, st': Replica)
    requires Indexed(st) && Indexed(st') && forall r :: r in st.log ==> r in st'.log
    ensures VvLe(st.vv, st'.vv)
  {
    forall o | o in st.vv
      ensures o in st'.vv && Leq(st.vv[o], st'.vv[o])
    {
      var y :| y in st.log && y.origin == o && y.hlc == st.vv[o];
      assert Covers(st'.vv, y);
    }
  }

  /** One device moves on, possibly authoring records; everything else stays in order. */
  lemma StepFrame(net: Net, env: Env, at: Text, st': Replica, news: set<ChangeRecord>)
    requires NetOk(net, env) && at in net.nodes && Later(net.authored, news)
    requires NodeOk(at, st', net.authored + news) && VvLe(net.nodes[at].vv, st'.vv)
    requires forall n :: n in news ==> n.origin == at && Acceptable(n, env)
    ensures NetOk(net.(nodes := net.nodes[at := st'], authored := net.authored + news), env)
  {
    hide NodeOk, Acceptable, GapFree, VvLe;
    var net' := net.(nodes := net.nodes[at := st'], authored := net.authored + news);
    forall a | a in net'.nodes
      ensures NodeOk(a, net'.nodes[a], net'.authored)
    {
      if a != at {
        NodeFrame(a, net.nodes[a], net.authored, news);
      }
    }
    forall m | m in net'.msgs
      ensures MessageOk(net', m)
    {
      MessageFrame(net, net', at, m, news);
    }
  }

  lemma MessageFrame(net: Net, net': Net, at: Text, m: Message, news: set<ChangeRecord>)
    requires at in net.nodes && MessageOk(net, m) && Later(net.authored, news)
    requires net'.nodes.Keys == net.nodes.Keys && net'.authored == net.authored + news
    requires forall a :: a in net.nodes && a != at ==> net'.nodes[a] == net.nodes[a]
    requires VvLe(net.nodes[at].vv, net'.nodes[at].vv)
    ensures MessageOk(net', m)
  {
    var a := if m.Request? then m.asker else m.to;
    assert VvLe(net.nodes[a].vv, net'.nodes[a].vv);
    match m
    case Request(asker, asked, vv) => VvLeTransitive(vv, net.nodes[asker].vv, net'.nodes[asker].vv);
    case Page(to, records) => GapFreeFrame(net.nodes[to].vv, net'.nodes[to].vv, records, net.authored, news);
  }

  // -------------------------------------------------------------------- steps

  /** A drafted record of a device's flush: registered table, own author, own signature. */
  ghost predicate Signed(st: Replica, sign: ChangeRecord -> Text, out: seq<ChangeRecord>) {
    forall r :: r in out ==> r.tbl in st.specs && r.origin == st.id && r.sig == sign(r.(sig := []))
  }

  lemma EmitSigned(st: Replica, f: Flushing, draft: ChangeRecord, now: Clockwork, sign: ChangeRecord -> Text)
    requires Signed(st, sign, f.out) && draft.tbl in st.specs && draft.origin == st.id
    ensures Signed(st, sign, Emit(f, draft, now, sign).out)
  {
    hide Merge, StoreChange;
    var rec := Stamped(draft, Ticked(f.st.clock, now(|f.out|)), sign);
    assert rec.(sig := []) == draft.(hlc := rec.hlc, sig := []);
  }

  lemma {:induction false} FlushColsSigned(st: Replica, f: Flushing, k: RowKey, values: Row, cols: seq<Text>, n: nat,
                                           now: Clockwork, sign: ChangeRecord -> Text)
    requires n <= |cols| && Signed(st, sign, f.out) && k.tbl in st.specs && f.st.id == st.id
    ensures Signed(st, sign, FlushCols(f, k, values, cols, n, now, sign).out)
    ensures FlushCols(f, k, values, cols, n, now, sign).st.id == st.id
  {
    hide Emit, Signed;
    if n > 0 {
      FlushColsSigned(st, f, k, values, cols, n - 1, now, sign);
      var g, c := FlushCols(f, k, values, cols, n - 1, now, sign), cols[n - 1];
      if c in values && !CellMatches(g.st.cells, k, c, values[c]) {
        EmitSigned(st, g, CellDraft(g.st, k, c, values[c]), now, sign);
      }
    }
  }

  lemma FlushRowSigned(st: Replica, f: Flushing, k: RowKey, op: Op, now: Clockwork, sign: ChangeRecord -> Text)
    requires Signed(st, sign, f.out) && f.st.specs == st.specs && f.st.id == st.id
    ensures Signed(st, sign, FlushRow(f, k, op, now, sign).out)
  {
    hide Emit, Signed, FlushCols;
    if k.tbl in st.specs && k in f.st.rows {
      var cols := st.specs[k.tbl].cols;
      FlushColsSigned(st, f, k, f.st.rows[k], cols, |cols|, now, sign);
    } else if k.tbl in st.specs && op == Delete {
      EmitSigned(st, f, TombstoneDraft(f.st, k), now, sign);
    }
  }

  lemma {:induction false} FlushRowsSigned(st: Replica, order: seq<RowKey>, n: nat, final: map<RowKey, Op>,
                                           now: Clockwork, sign: ChangeRecord -> Text)
    requires n <= |order| && forall k :: k in order ==> k in final
    ensures Signed(st, sign, FlushRows(Flushing(st, []), order, n, final, now, sign).out)
  {
    hide FlushRow;
    if n > 0 {
      FlushRowsSigned(st, order, n - 1, final, now, sign);
      hide Signed;
      var g := FlushRows(Flushing(st, []), order, n - 1, final, now, sign);
      FlushRowsFrame(Flushing(st, []), order, n - 1, final, now, sign, order[n - 1]);
      FlushRowSigned(st, g, order[n - 1], final[order[n - 1]], now, sign);
    }
  }

  /** Every record that a flush authors passes the checks of every receiver. */
  lemma FlushIsAcceptable(st: Replica, now: Clockwork, env: Env)
    requires KeysMatch(env) && st.id != [] && [] !in st.specs
    ensures forall r :: r in FlushLocal(st, now, env.sign(st.id)).out ==> r.origin == st.id && Acceptable(r, env)
  {
    var order, sign := FirstSeen(st.ops), env.sign(st.id);
    var out := FlushLocal(st, now, sign).out;
    FlushRowsSigned(st, order, |order|, FinalOps(st.ops), now, sign);
    hide FlushLocal, FlushRows;
    forall r | r in out
      ensures r.origin == st.id && Acceptable(r, env)
    {
      var d := r.(sig := []);
      assert env.valid(d.(sig := env.sign(st.id)(d)));
      assert d.(sig := env.sign(st.id)(d)) == r;
    }
  }

  lemma AuthoredLater(id: Text, st: Replica, f: Flushing, all: set<ChangeRecord>)
    requires NodeOk(id, st, all) && Authored(st, f)
    ensures Later(all, Members(f.out))
  {
    forall r, n | r in all && n in Members(f.out) && r.origin == n.origin
      ensures Less(r.hlc, n.hlc)
    {
      assert r in st.log;
    }
  }

  lemma AuthoredClosed(id: Text, st: Replica, f: Flushing, all: set<ChangeRecord>)
    requires Closed(st, all) && f.st.log == st.log + f.out && (forall r :: r in all && r.origin == id ==> r in st.log)
    requires VectorIndexed(st.log, st.vv) && VectorIndexed(f.st.log, f.st.vv) && VvLe(st.vv, f.st.vv)
    requires forall r :: r in f.out ==> r.origin == id
    ensures Closed(f.st, all + Members(f.out))
  {
    forall x
      ensures x in f.st.log <==> x in all + Members(f.out) && Covers(f.st.vv, x)
    {
      if x in all && x.origin != id && Covers(f.st.vv, x) {
        var y :| y in f.st.log && y.origin == x.origin && y.hlc == f.st.vv[x.origin];
        assert Covers(st.vv, y);
        assert Covers(st.vv, x);
      }
      if x in st.log {
        CoversGrows(st.vv, f.st.vv, x);
      }
    }
  }

  /** The author's own replica after it appended fresh records of its own. */
  lemma AuthorNodeOk(id: Text, st: Replica, f: Flushing, all: set<ChangeRecord>)
    requires NodeOk(id, st, all) && Authored(st, f) && Indexed(f.st) && OwnOrdered(f.st) && ClockOwn(f.st)
    requires f.st.id == st.id && f.st.specs == st.specs
    ensures NodeOk(id, f.st, all + Members(f.out)) && Later(all, Members(f.out))
    ensures VvLe(st.vv, f.st.vv)
  {
    AuthoredLater(id, st, f, all);
    assert VectorIndexed(st.log, st.vv) && VectorIndexed(f.st.log, f.st.vv);
    assert forall r :: r in f.out ==> r.origin == id;
    hide UniqueStamps, CellsIndexed, TombsIndexed, OwnOrdered, ClockOwn, Later, VectorIndexed, Closed;
    VectorGrows(st, f.st);
    AuthoredClosed(id, st, f, all);
  }

  lemma FlushStep(net: Net, env: Env, at: Text, now: Clockwork)
    requires NetOk(net, env) && KeysMatch(env) && Enabled(net, Local(at, Flush(now)), env)
    ensures NetOk(Next(net, Local(at, Flush(now)), env), env)
  {
    var st, sign := net.nodes[at], env.sign(at);
    assert NodeOk(at, st, net.authored);
    hide FlushLocal, Acceptable, KeysMatch, Indexed, OwnOrdered, ClockOwn, NetOk, Closed, SpecsOk, FreshTicks,
      FlushCount;
    var f := FlushLocal(st, now, sign);
    FlushAuthorsFreshIff(st, now, sign);
    FlushIsAcceptable(st, now, env);
    FlushKeepsSchema(st, now, sign);
    AuthorNodeOk(at, st, f, net.authored);
    hide NodeOk;
    StepFrame(net, env, at, f.st, Members(f.out));
  }

  /** Only the tables, the queue or the clock moved. */
  lemma SameLogNodeOk(id: Text, st: Replica, st': Replica, all: set<ChangeRecord>)
    requires NodeOk(id, st, all) && ClockOwn(st') && st'.id == st.id && st'.specs == st.specs
    requires st'.log == st.log && st'.vv == st.vv && st'.cells == st.cells && st'.tombs == st.tombs
    ensures NodeOk(id, st', all)
  {
  }

  /** What a local step other than a flush leaves alone. */
  lemma QuietFrame(st: Replica, step: Step, keys: Keys)
    requires !step.Flush? && !step.Remote?
    ensures var f := Take1(st, step, keys);
            && f.out == [] && f.st.id == st.id && f.st.specs == st.specs
            && f.st.log == st.log && f.st.vv == st.vv && f.st.cells == st.cells && f.st.tombs == st.tombs
            && (step.Sql? ==> f.st.clock == st.clock)
  {
    hide Execute, Adopt, OwnMaximum, RunClock, FlushLocal, ApplyRemote;
    if step.Sql? {
      SqlFrame(st, step.write);
    }
  }

  lemma QuietClock(st: Replica, step: Step, keys: Keys)
    requires Indexed(st) && OwnOrdered(st) && ClockOwn(st) && !step.Flush? && !step.Remote?
    ensures ClockOwn(Take1(st, step, keys).st)
  {
    QuietFrame(st, step, keys);
    hide Indexed, OwnOrdered;
    match step {
      case Sql(w) =>
        hide Take1;
      case RolledBack(ticks) =>
        RunClockNeverBack(st.clock, ticks);
      case Restart(found) =>
        hide ClockOwn;
        ReopenKeepsOwnOrder(st, found);
    }
  }

  /** A step that leaves the log and its indexes alone. */
  lemma QuietNode(id: Text, st: Replica, step: Step, keys: Keys, all: set<ChangeRecord>)
    requires NodeOk(id, st, all) && !step.Flush? && !step.Remote?
    ensures var f := Take1(st, step, keys);
            f.out == [] && NodeOk(id, f.st, all) && f.st.vv == st.vv
  {
    hide Take1;
    QuietFrame(st, step, keys);
    QuietClock(st, step, keys);
    SameLogNodeOk(id, st, Take1(st, step, keys).st, all);
  }

  /** A local step that authors nothing. */
  lemma QuietStep(net: Net, env: Env, at: Text, step: Step)
    requires NetOk(net, env) && Enabled(net, Local(at, step), env) && !step.Flush?
    ensures NetOk(Next(net, Local(at, step), env), env)
  {
    var st := net.nodes[at];
    assert NodeOk(at, st, net.authored);
    hide NodeOk, Take1, NetOk;
    var f := Take1(st, step, KeysOf(env, at));
    QuietNode(at, st, step, KeysOf(env, at), net.authored);
    assert net.authored + Members(f.out) == net.authored && net.authored + {} == net.authored;
    assert VvLe(st.vv, st.vv);
    StepFrame(net, env, at, f.st, {});
  }

  /** A gap-free batch of records of the organisation, whatever brought it. */
  lemma ArriveStep(net: Net, env: Env, to: Text, records: seq<ChangeRecord>, readOnly: set<Text>, now: Clockwork)
    requires NetOk(net, env) && to in net.nodes && From(records, net.authored)
    requires GapFree(net.nodes[to].vv, records, net.authored)
    ensures NetOk(Arrive(net, to, records, readOnly, now, env), env)
  {
    hide ApplyRemote, Acceptable, GapFree, From, Indexed, OwnOrdered, ClockOwn, Closed;
    var st, batch, all := net.nodes[to], Kept(records, readOnly), net.authored;
    assert NodeOk(to, st, all);
    AuthoredOnePerStamp(net, env);
    FilterIsGapFree(st.vv, records, readOnly, all);
    KeptAcceptable(net, env, records, readOnly);
    hide NetOk, NodeOk, OnePerStamp, Kept;
    ArriveNodeOk(to, st, batch, now, env, all);
    var st' := ApplyRemote(st, batch, now, env.valid);
    assert all + {} == all;
    StepFrame(net, env, to, st', {});
  }

  lemma KeptAcceptable(net: Net, env: Env, records: seq<ChangeRecord>, readOnly: set<Text>)
    requires NetOk(net, env) && From(records, net.authored)
    ensures forall r :: r in Kept(records, readOnly) ==> r in net.authored && Acceptable(r, env)
  {
    hide NodeOk, MessageOk, Acceptable;
  }

  lemma ArriveNodeOk(id: Text, st: Replica, batch: seq<ChangeRecord>, now: Clockwork, env: Env, all: set<ChangeRecord>)
    requires NodeOk(id, st, all) && OnePerStamp(all) && GapFree(st.vv, batch, all)
    requires forall r :: r in batch ==> r in all && Acceptable(r, env)
    ensures NodeOk(id, ApplyRemote(st, batch, now, env.valid), all)
    ensures VvLe(st.vv, ApplyRemote(st, batch, now, env.valid).vv)
  {
    var st' := ApplyRemote(st, batch, now, env.valid);
    assert st'.id == st.id && st'.specs == st.specs;
    assert forall r :: r in Accepted(batch, env.valid) <==> r in batch;
    assert GapFree(st.vv, Accepted(batch, env.valid), all);
    assert NoLostOwn(st, batch);
    hide ApplyRemote, Accepted, Indexed, OwnOrdered, ClockOwn, GapFree, OnePerStamp;
    ApplyKeepsIndex(st, batch, now, env.valid);
    RemoteKeepsOwn(st, batch, now, env.valid);
    ApplyClosesIff(st, batch, now, env.valid, all);
    AppliedRecords(st, batch, now, env.valid, all);
    VectorGrows(st, st');
  }

  lemma SendStep(net: Net, env: Env, m: Message)
    requires NetOk(net, env) && MessageOk(net, m)
    ensures NetOk(net.(msgs := net.msgs + {m}), env)
  {
    hide NodeOk, Acceptable, GapFree, VvLe;
    var net' := net.(msgs := net.msgs + {m});
    forall x | x in net'.msgs
      ensures MessageOk(net', x)
    {
      assert MessageOk(net, x);
    }
  }

  lemma AnswerStep(net: Net, env: Env, request: Message, limit: nat)
    requires NetOk(net, env) && Enabled(net, Answer(request, limit), env)
    ensures NetOk(Next(net, Answer(request, limit), env), env)
  {
    assert NodeOk(request.asked, net.nodes[request.asked], net.authored);
    assert MessageOk(net, request);
    hide NetOk, ChangesSince;
    PageIsGapFree(net.nodes[request.asked], request.vv, limit, net.nodes[request.asker].vv, net.authored);
    SendStep(net, env, Page(request.asker, ChangesSince(net.nodes[request.asked], request.vv, limit)));
  }

  /** Every step keeps every replica closed and every message in flight safe to deliver. */
  lemma StepKeepsNet(net: Net, s: NetStep, env: Env)
    requires NetOk(net, env) && KeysMatch(env) && Enabled(net, s, env)
    ensures NetOk(Next(net, s, env), env)
  {
    match s
    case Local(at, step) =>
      hide NetOk;
      if step.Flush? {
        FlushStep(net, env, at, step.now);
      } else {
        QuietStep(net, env, at, step);
      }
    case Ask(asker, asked) =>
      assert VvLe(net.nodes[asker].vv, net.nodes[asker].vv);
      hide NetOk;
      SendStep(net, env, Request(asker, asked, net.nodes[asker].vv));
    case Answer(request, limit) =>
      hide NetOk;
      AnswerStep(net, env, request, limit);
    case Deliver(page, readOnly, now) =>
      assert MessageOk(net, page);
      hide NetOk;
      ArriveStep(net, env, page.to, page.records, readOnly, now);
    case Push(to, records, readOnly, now) =>
      hide NetOk;
      ArriveStep(net, env, to, records, readOnly, now);
  }

  // --------------------------------------------------------------------- runs

  /** Empty replicas, nothing sent, nothing authored; app rows and clocks may be anything. */
  ghost predicate Initial(net: Net) {
    && net.msgs == {} && net.authored == {}
    && (forall a :: a in net.nodes ==> EmptyReplica(a, net.nodes[a]))
  }

  ghost predicate EmptyReplica(id: Text, st: Replica) {
    && st.id == id && id != [] && [] !in st.specs && SpecsOk(st)
    && st.log == [] && st.cells == map[] && st.tombs == map[] && st.vv == map[]
  }

  lemma InitialOk(net: Net, env: Env)
    requires Initial(net)
    ensures NetOk(net, env)
  {
    forall a | a in net.nodes
      ensures NodeOk(a, net.nodes[a], {})
    {
      assert EmptyReplica(a, net.nodes[a]);
    }
  }

  /** The first `n` steps are possible one after another. */
  ghost predicate EnabledRun(net: Net, steps: seq<NetStep>, n: nat, env: Env)
    requires n <= |steps|
    decreases n, 0
  {
    n == 0 || (EnabledRun(net, steps, n - 1, env) && Enabled(After(net, steps, n - 1, env), steps[n - 1], env))
  }

  ghost function After(net: Net, steps: seq<NetStep>, n: nat, env: Env): Net
    requires n <= |steps| && EnabledRun(net, steps, n, env)
    decreases n, 1
  {
    if n == 0 then net else Next(After(net, steps, n - 1, env), steps[n - 1], env)
  }

  lemma {:induction false} RunKeepsNet(net: Net, steps: seq<NetStep>, n: nat, env: Env)
    requires n <= |steps| && EnabledRun(net, steps, n, env) && KeysMatch(env) && NetOk(net, env)
    ensures NetOk(After(net, steps, n, env), env)
  {
    hide NetOk, Next, Enabled, KeysMatch;
    if n > 0 {
      RunKeepsNet(net, steps, n - 1, env);
      StepKeepsNet(After(net, steps, n - 1, env), steps[n - 1], env);
    }
  }

  /** In every run of any number of replicas that write, author, restart, roll back and exchange Sync
      requests and pages (lost, repeated, late or out of order) and gap-free pushes: each replica's
      records are exactly the authored records at or below its vector. */
  lemma RecordsAreWhatTheVectorSays(net: Net, steps: seq<NetStep>, env: Env, a: Text, x: ChangeRecord)
    requires EnabledRun(net, steps, |steps|, env) && KeysMatch(env) && Initial(net)
    requires a in After(net, steps, |steps|, env).nodes
    ensures var end := After(net, steps, |steps|, env);
            x in end.nodes[a].log <==>
              x in end.authored && x.origin in end.nodes[a].vv && Leq(x.hlc, end.nodes[a].vv[x.origin])
  {
    InitialOk(net, env);
    RunKeepsNet(net, steps, |steps|, env);
    var end := After(net, steps, |steps|, env);
    assert NodeOk(a, end.nodes[a], end.authored);
  }

  /** The version vector stands for the whole record set: equal vectors mean equal records, cells
      and tombstones. */
  lemma EqualVectorsEqualState(net: Net, env: Env, a: Text, b: Text)
    requires NetOk(net, env) && a in net.nodes && b in net.nodes && net.nodes[a].vv == net.nodes[b].vv
    ensures SameState(net.nodes[a], net.nodes[b])
  {
    var x, y := net.nodes[a], net.nodes[b];
    assert NodeOk(a, x, net.authored) && NodeOk(b, y, net.authored);
    assert forall r :: r in x.log <==> r in y.log;
    hide NodeOk, NetOk;
    LogDeterminesState(x, y);
  }

  // ----------------------------------------------------------- the app tables

  /** The further conditions under which the app tables follow (see `Runs.Allowed`). */
  ghost predicate Careful(net: Net, s: NetStep, env: Env)
    requires Enabled(net, s, env)
  {
    match s
    case Local(at, step) => Allowed(net.nodes[at], step, KeysOf(env, at))
    case Ask(asker, asked) => true
    case Answer(request, limit) => true
    case Deliver(page, readOnly, now) => StagedRowsStay(net.nodes[page.to], Kept(page.records, readOnly), env.valid)
    case Push(to, records, readOnly, now) => StagedRowsStay(net.nodes[to], Kept(records, readOnly), env.valid)
  }

  ghost predicate AllProject(net: Net) {
    forall a :: a in net.nodes ==> Projects(net.nodes[a])
  }

  lemma ArriveKeepsTables(net: Net, to: Text, records: seq<ChangeRecord>, readOnly: set<Text>, now: Clockwork, env: Env)
    requires NetOk(net, env) && From(records, net.authored) && AllProject(net) && to in net.nodes
    requires StagedRowsStay(net.nodes[to], Kept(records, readOnly), env.valid)
    ensures AllProject(Arrive(net, to, records, readOnly, now, env))
  {
    AuthoredOnePerStamp(net, env);
    assert NodeOk(to, net.nodes[to], net.authored) && Projects(net.nodes[to]);
    hide NetOk, Projects, ApplyRemote, StagedRowsStay, OnePerStamp, Indexed;
    assert From(Kept(records, readOnly), net.authored) && From(net.nodes[to].log, net.authored);
    hide Kept, NodeOk;
    ApplyProjectsIff(net.nodes[to], Kept(records, readOnly), now, env.valid, net.authored);
  }

  lemma StepKeepsTables(net: Net, s: NetStep, env: Env)
    requires NetOk(net, env) && AllProject(net) && Enabled(net, s, env) && Careful(net, s, env)
    ensures AllProject(Next(net, s, env))
  {
    match s
    case Local(at, step) =>
      assert NodeOk(at, net.nodes[at], net.authored) && Projects(net.nodes[at]);
      hide Projects, NetOk, Take1, Allowed;
      StepKeepsHealthy(net.nodes[at], step, KeysOf(env, at));
    case Ask(asker, asked) =>
    case Answer(request, limit) =>
    case Deliver(page, readOnly, now) =>
      assert MessageOk(net, page);
      ArriveKeepsTables(net, page.to, page.records, readOnly, now, env);
    case Push(to, records, readOnly, now) =>
      ArriveKeepsTables(net, to, records, readOnly, now, env);
  }

  ghost predicate CarefulRun(net: Net, steps: seq<NetStep>, n: nat, env: Env)
    requires n <= |steps| && EnabledRun(net, steps, n, env)
  {
    n == 0 || (CarefulRun(net, steps, n - 1, env) && Careful(After(net, steps, n - 1, env), steps[n - 1], env))
  }

  lemma {:induction false} RunKeepsTables(net: Net, steps: seq<NetStep>, n: nat, env: Env)
    requires n <= |steps| && EnabledRun(net, steps, n, env) && CarefulRun(net, steps, n, env)
    requires KeysMatch(env) && NetOk(net, env) && AllProject(net)
    ensures AllProject(After(net, steps, n, env))
  {
    hide NetOk, AllProject, Next, Enabled, Careful, KeysMatch;
    if n > 0 {
      RunKeepsTables(net, steps, n - 1, env);
      RunKeepsNet(net, steps, n - 1, env);
      StepKeepsTables(After(net, steps, n - 1, env), steps[n - 1], env);
    }
  }

  /** After any careful run, two replicas with equal vectors, equal schemas and nothing staged show
      the same app tables. */
  lemma EqualVectorsEqualTables(net: Net, steps: seq<NetStep>, env: Env, a: Text, b: Text, k: RowKey)
    requires EnabledRun(net, steps, |steps|, env) && CarefulRun(net, steps, |steps|, env)
    requires KeysMatch(env) && Initial(net) && AllProject(net)
    requires var end := After(net, steps, |steps|, env);
             && a in end.nodes && b in end.nodes && end.nodes[a].vv == end.nodes[b].vv
             && end.nodes[a].ops == end.nodes[b].ops == [] && end.nodes[a].specs == end.nodes[b].specs
    requires k.tbl in After(net, steps, |steps|, env).nodes[a].specs
    ensures var end := After(net, steps, |steps|, env); Get(end.nodes[a].rows, k) == Get(end.nodes[b].rows, k)
  {
    InitialOk(net, env);
    RunKeepsNet(net, steps, |steps|, env);
    RunKeepsTables(net, steps, |steps|, env);
    var end := After(net, steps, |steps|, env);
    assert Projects(end.nodes[a]) && Projects(end.nodes[b]);
    hide NetOk, AllProject, Projects, After;
    EqualVectorsEqualState(end, env, a, b);
    SameStateSameTables(end.nodes[a], end.nodes[b], k);
  }
}
