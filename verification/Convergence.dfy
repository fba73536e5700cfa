/** Strong convergence: only the set of delivered records matters. */
module Convergence {
  import opened Bytes
  import opened Change
  import opened Replicas
  import opened Index

  /** No two records of the organisation share a stamp: `(origin, hlc)` is globally unique. */
  ghost predicate OnePerStamp(all: set<ChangeRecord>) {
    forall r, s :: r in all && s in all && StampOf(r) == StampOf(s) ==> r == s
  }

  ghost predicate From(log: seq<ChangeRecord>, all: set<ChangeRecord>) {
    forall r :: r in log ==> r in all
  }

  lemma {:induction false} ReceivedRecords(st: Replica, recs: seq<ChangeRecord>, n: nat, now: Clockwork,
                                           all: set<ChangeRecord>)
    requires n <= |recs| && OnePerStamp(all) && From(st.log, all) && From(recs, all)
    ensures forall r :: r in ReceiveAll(st, recs, n, now).log <==> r in st.log || r in recs[..n]
  {
    if n > 0 {
      ReceivedRecords(st, recs, n - 1, now, all);
      var p, rec := ReceiveAll(st, recs, n - 1, now), recs[n - 1];
      ReceiveLog(p, rec, now(|p.log| - |st.log|));
      hide Receive, OnePerStamp;
      assert recs[..n] == recs[..n - 1] + [rec];
      if Held(p.log, StampOf(rec)) {
        var r :| r in p.log && StampOf(r) == StampOf(rec);
        OneRecord(all, r, rec);
      }
    }
  }

  lemma OneRecord(all: set<ChangeRecord>, r: ChangeRecord, s: ChangeRecord)
    requires OnePerStamp(all) && r in all && s in all && StampOf(r) == StampOf(s)
    ensures r == s
  {
  }

  lemma ReceiveLog(p: Replica, rec: ChangeRecord, phys: U64)
    ensures Receive(p, rec, phys).log == StoreChange(p.log, rec)
  {
  }

  lemma {:induction false} ReceivedKeep(st: Replica, recs: seq<ChangeRecord>, n: nat, now: Clockwork)
    requires n <= |recs|
    ensures st.log <= ReceiveAll(st, recs, n, now).log
  {
    hide Receive;
    if n > 0 {
      ReceivedKeep(st, recs, n - 1, now);
      var p := ReceiveAll(st, recs, n - 1, now);
      ReceiveLog(p, recs[n - 1], now(|p.log| - |st.log|));
    }
  }

  lemma ApplyStores(st: Replica, batch: seq<ChangeRecord>, now: Clockwork, valid: ChangeRecord -> bool)
    ensures var acc := Accepted(batch, valid);
            ApplyRemote(st, batch, now, valid).log == ReceiveAll(st, SortByStamp(acc), |acc|, now).log
  {
  }

  /** A batch adds exactly its accepted records. */
  lemma AppliedRecords(st: Replica, batch: seq<ChangeRecord>, now: Clockwork, valid: ChangeRecord -> bool,
                       all: set<ChangeRecord>)
    requires OnePerStamp(all) && From(st.log, all) && From(batch, all)
    ensures forall r :: r in ApplyRemote(st, batch, now, valid).log <==> r in st.log || r in Accepted(batch, valid)
  {
    hide ApplyRemote, ReceiveAll, SortByStamp, Accepted, OnePerStamp;
    var acc := Accepted(batch, valid);
    var sorted := SortByStamp(acc);
    SortSorts(acc);
    ReceivedRecords(st, sorted, |acc|, now, all);
    ApplyStores(st, batch, now, valid);
    assert sorted[..|acc|] == sorted;
  }

  lemma AppliedComeFromBatch(st: Replica, batch: seq<ChangeRecord>, now: Clockwork, valid: ChangeRecord -> bool,
                             r: ChangeRecord)
    requires r !in st.log
    ensures r in ApplyRemote(st, batch, now, valid).log ==> r in batch
  {
    hide SortByStamp, Accepted, MaterializeAll, DirtyRows, ReceiveAll;
    var acc := Accepted(batch, valid);
    SortSorts(acc);
    ReceivedComeFrom(st, SortByStamp(acc), |acc|, now, r);
  }

  lemma {:induction false} ReceivedComeFrom(st: Replica, recs: seq<ChangeRecord>, n: nat, now: Clockwork,
                                            r: ChangeRecord)
    requires n <= |recs| && r !in st.log
    ensures r in ReceiveAll(st, recs, n, now).log ==> r in recs
  {
    hide Receive;
    if n > 0 {
      ReceivedComeFrom(st, recs, n - 1, now, r);
      var p := ReceiveAll(st, recs, n - 1, now);
      ReceiveLog(p, recs[n - 1], now(|p.log| - |st.log|));
    }
  }

  lemma AcceptedOne(r: ChangeRecord, valid: ChangeRecord -> bool)
    requires r.origin != [] && r.tbl != [] && valid(r)
    ensures Accepted([r], valid) == [r]
  {
    assert [r][..0] == [];
    assert Accepted([], valid) == [];
  }

  lemma SortOne(r: ChangeRecord)
    ensures SortByStamp([r]) == [r]
  {
    assert [r][..0] == [];
    assert SortByStamp([]) == [];
  }

  /** A batch of one new record. */
  lemma ApplyOne(st: Replica, r: ChangeRecord, now: Clockwork, valid: ChangeRecord -> bool)
    requires r.origin != [] && r.tbl != [] && valid(r) && !Held(st.log, StampOf(r))
    ensures var p := Receive(st, r, now(0));
            && p.log == st.log + [r]
            && ApplyRemote(st, [r], now, valid) == p.(rows := MaterializeAll(p, DirtyRows(st, [r])), guard := false)
  {
    AcceptedOne(r, valid);
    SortOne(r);
    var p := Receive(st, r, now(0));
    assert p.log == st.log + [r];
    hide Receive, MaterializeAll, DirtyRows, Accepted, SortByStamp;
    assert ReceiveAll(st, [r], 0, now) == st;
    assert ReceiveAll(st, [r], 1, now) == p;
    assert Fresh(st, p) == [r];
  }

  datatype Delivery = Delivery(batch: seq<ChangeRecord>, now: Clockwork)

  function Deliver(st: Replica, ds: seq<Delivery>, n: nat, valid: ChangeRecord -> bool): Replica
    requires n <= |ds|
  {
    if n == 0 then st else ApplyRemote(Deliver(st, ds, n - 1, valid), ds[n - 1].batch, ds[n - 1].now, valid)
  }

  ghost predicate Delivered(ds: seq<Delivery>, n: nat, valid: ChangeRecord -> bool, r: ChangeRecord)
    requires n <= |ds|
  {
    exists i :: 0 <= i < n && r in Accepted(ds[i].batch, valid)
  }

  ghost predicate AllFrom(ds: seq<Delivery>, all: set<ChangeRecord>) {
    forall i :: 0 <= i < |ds| ==> From(ds[i].batch, all)
  }

  lemma {:induction false} DeliveredRecords(st: Replica, ds: seq<Delivery>, n: nat, valid: ChangeRecord -> bool,
                                            all: set<ChangeRecord>)
    requires n <= |ds| && Indexed(st) && OnePerStamp(all) && From(st.log, all) && AllFrom(ds, all)
    ensures Indexed(Deliver(st, ds, n, valid))
    ensures forall r :: r in Deliver(st, ds, n, valid).log <==> r in st.log || Delivered(ds, n, valid, r)
    ensures From(Deliver(st, ds, n, valid).log, all)
  {
    hide ApplyRemote, Indexed;
    if n > 0 {
      DeliveredRecords(st, ds, n - 1, valid, all);
      var p := Deliver(st, ds, n - 1, valid);
      AppliedRecords(p, ds[n - 1].batch, ds[n - 1].now, valid, all);
      ApplyKeepsIndex(p, ds[n - 1].batch, ds[n - 1].now, valid);
      forall r
        ensures Delivered(ds, n, valid, r) <==> Delivered(ds, n - 1, valid, r) || r in Accepted(ds[n - 1].batch, valid)
      {
      }
    }
  }

  /** Strong convergence: two replicas that end up having been given the same records (held at
      the start or delivered since, in any order, any batching, any number of times, at any clock
      readings) hold the same log, cells, tombstones and vector. */
  lemma SameRecordsConverge(a: Replica, b: Replica, da: seq<Delivery>, db: seq<Delivery>,
                            valid: ChangeRecord -> bool, all: set<ChangeRecord>)
    requires Indexed(a) && Indexed(b) && OnePerStamp(all)
    requires From(a.log, all) && From(b.log, all) && AllFrom(da, all) && AllFrom(db, all)
    requires forall r :: r in a.log || Delivered(da, |da|, valid, r) <==> r in b.log || Delivered(db, |db|, valid, r)
    ensures SameState(Deliver(a, da, |da|, valid), Deliver(b, db, |db|, valid))
  {
    hide *;
    DeliveredRecords(a, da, |da|, valid, all);
    DeliveredRecords(b, db, |db|, valid, all);
    var x, y := Deliver(a, da, |da|, valid), Deliver(b, db, |db|, valid);
    forall r
      ensures r in x.log <==> r in y.log
    {
    }
    LogDeterminesState(x, y);
  }

  /** One combined batch or two successive ones: the same state. */
  lemma BatchingIsIrrelevant(st: Replica, xs: seq<ChangeRecord>, ys: seq<ChangeRecord>, now: Clockwork, now1: Clockwork,
                             now2: Clockwork, valid: ChangeRecord -> bool, all: set<ChangeRecord>)
    requires Indexed(st) && OnePerStamp(all) && From(st.log, all) && From(xs, all) && From(ys, all)
    ensures SameState(ApplyRemote(st, xs + ys, now, valid),
                      ApplyRemote(ApplyRemote(st, xs, now1, valid), ys, now2, valid))
  {
    hide ApplyRemote, Accepted, Indexed, OnePerStamp;
    var one := [Delivery(xs + ys, now)];
    var two := [Delivery(xs, now1), Delivery(ys, now2)];
    assert Deliver(st, one, 0, valid) == Deliver(st, two, 0, valid) == st;
    assert Deliver(st, one, 1, valid) == ApplyRemote(st, xs + ys, now, valid);
    assert Deliver(st, two, 1, valid) == ApplyRemote(st, xs, now1, valid);
    forall r
      ensures Delivered(one, 1, valid, r) <==> Delivered(two, 2, valid, r)
    {
      if Delivered(one, 1, valid, r) {
        assert r in Accepted(two[if r in xs then 0 else 1].batch, valid);
      } else {
        assert r !in Accepted(one[0].batch, valid);
      }
    }
    SameRecordsConverge(st, st, one, two, valid, all);
  }

  lemma {:induction false} AllHeldReceivesNothing(st: Replica, recs: seq<ChangeRecord>, n: nat, now: Clockwork)
    requires n <= |recs| && forall r :: r in recs ==> Held(st.log, StampOf(r))
    ensures ReceiveAll(st, recs, n, now) == st
  {
    if n > 0 {
      AllHeldReceivesNothing(st, recs, n - 1, now);
    }
  }

  lemma {:induction false} ReceivedAreHeld(st: Replica, recs: seq<ChangeRecord>, n: nat, now: Clockwork)
    requires n <= |recs|
    ensures forall r :: r in st.log || r in recs[..n] ==> Held(ReceiveAll(st, recs, n, now).log, StampOf(r))
  {
    if n > 0 {
      ReceivedAreHeld(st, recs, n - 1, now);
      var p, q := ReceiveAll(st, recs, n - 1, now), ReceiveAll(st, recs, n, now);
      ReceiveLog(p, recs[n - 1], now(|p.log| - |st.log|));
      hide Receive;
      assert recs[..n] == recs[..n - 1] + [recs[n - 1]];
      forall r | r in st.log || r in recs[..n]
        ensures Held(q.log, StampOf(r))
      {
        if r in st.log || r in recs[..n - 1] {
          var x :| x in p.log && StampOf(x) == StampOf(r);
          assert x in q.log;
        } else if !Held(p.log, StampOf(r)) {
          assert q.log == p.log + [r] && r in q.log;
        }
      }
    }
  }

  /** A replay changes nothing at all: not the log, the tables, the clock or the queue. */
  lemma ReplayChangesNothing(st: Replica, batch: seq<ChangeRecord>, now: Clockwork, again: Clockwork,
                             valid: ChangeRecord -> bool)
    requires Accepted(batch, valid) != []
    ensures var once := ApplyRemote(st, batch, now, valid);
            ApplyRemote(once, batch, again, valid) == once
  {
    hide Accepted, ReceiveAll, SortByStamp, DirtyRows, MaterializeAll;
    var acc := Accepted(batch, valid);
    var sorted := SortByStamp(acc);
    SortSorts(acc);
    ReceivedAreHeld(st, sorted, |acc|, now);
    assert sorted[..|acc|] == sorted;
    var once := ApplyRemote(st, batch, now, valid);
    AllHeldReceivesNothing(once, sorted, |acc|, again);
    NothingFresh(once);
  }

  lemma NothingFresh(st: Replica)
    ensures MaterializeAll(st, DirtyRows(st, Fresh(st, st))) == st.rows
  {
    assert Fresh(st, st) == [];
  }

  // ------------------------------------------------------------------ no echo

  lemma EmptyQueueAuthorsNothing(st: Replica, now: Clockwork, sign: ChangeRecord -> Text)
    requires st.ops == []
    ensures FlushLocal(st, now, sign) == Flushing(st, [])
  {
    assert FirstSeen([]) == [];
  }

  /** Remote batches are never re-authored: whatever was delivered, the queue and the guard are as
      before, so with nothing staged a flush has nothing to say. */
  lemma {:induction false} NoEcho(st: Replica, ds: seq<Delivery>, n: nat, valid: ChangeRecord -> bool,
                                  later: Clockwork, sign: ChangeRecord -> Text)
    requires n <= |ds| && !st.guard
    ensures var st' := Deliver(st, ds, n, valid);
            && st'.ops == st.ops && !st'.guard
            && (st.ops == [] ==> FlushLocal(st', later, sign) == Flushing(st', []))
  {
    hide ReceiveAll, Accepted, SortByStamp, MaterializeAll, DirtyRows, FlushLocal;
    if n > 0 {
      NoEcho(st, ds, n - 1, valid, later, sign);
    }
    if st.ops == [] {
      hide ApplyRemote;
      EmptyQueueAuthorsNothing(Deliver(st, ds, n, valid), later, sign);
    }
  }
}
