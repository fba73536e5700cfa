/** When the records that a flush authors are all stored: the exact condition, for any clock. */
module Authoring {
  import opened Bytes
  import opened HybridLogicalClock
  import opened Change
  import opened Replicas
  import opened Index
  import opened Projection
  import opened Flushes

  /** The ticks of a flush of `n` records give every record a stamp of its own: the first is not held yet, and
      before each of the others the system clock has passed the clock or the counter has room. */
  ghost predicate FreshTicks(st: Replica, now: Clockwork, n: nat) {
    && (n > 0 ==> !Held(st.log, Stamp(TickNo(st.clock, now, 1), st.id)))
    && Rising(st.clock, now, 1, n)
  }

  lemma FreshIff(st: Replica, now: Clockwork, out: seq<ChangeRecord>)
    requires ClockOwn(st) && OnTicks(st.id, st.clock, now, out)
    ensures OutFresh(st.log, out) <==> FreshTicks(st, now, |out|)
  {
    hide TickNo, Held;
    if OutFresh(st.log, out) {
      assert |out| > 0 ==> !Held(st.log, StampOf(out[0]));
      forall i | 1 <= i < |out|
        ensures Moves(TickNo(st.clock, now, i), now(i))
      {
        NextTick(st.clock, now, i);
        assert StampOf(out[i - 1]) != StampOf(out[i]);
      }
    }
    if FreshTicks(st, now, |out|) {
      forall i | 0 <= i < |out|
        ensures !Held(st.log, StampOf(out[i]))
      {
        TickIsUnheld(st, now, i + 1);
      }
      forall i, j | 0 <= i < j < |out|
        ensures StampOf(out[i]) != StampOf(out[j])
      {
        TicksRise(st.clock, now, i + 1, j + 1);
      }
    }
  }

  lemma NextTick(start: Hlc, now: Clockwork, i: nat)
    ensures TickNo(start, now, i) == TickNo(start, now, i + 1) || Moves(TickNo(start, now, i), now(i))
  {
  }

  /** If the first tick is not held, no later one is: everything the device authored is at or below its clock. */
  lemma TickIsUnheld(st: Replica, now: Clockwork, i: nat)
    requires ClockOwn(st) && 1 <= i && !Held(st.log, Stamp(TickNo(st.clock, now, 1), st.id))
    ensures !Held(st.log, Stamp(TickNo(st.clock, now, i), st.id))
  {
    TicksNeverBack(st.clock, now, 0, 1);
    TicksNeverBack(st.clock, now, 1, i);
    assert TickNo(st.clock, now, 0) == st.clock;
    hide TickNo;
  }

  /** What a flush adds: own records in the order of their stamps, after everything authored before. */
  ghost predicate Authored(st: Replica, f: Flushing) {
    && f.st.log == st.log + f.out && f.st.id == st.id && Leq(st.clock, f.st.clock)
    && (forall r :: r in f.out ==> r.origin == st.id && Leq(r.hlc, f.st.clock))
    && (forall x, r :: x in st.log && x.origin == st.id && r in f.out ==> Less(x.hlc, r.hlc))
    && (forall i, j :: 0 <= i < j < |f.out| ==> Less(f.out[i].hlc, f.out[j].hlc))
  }

  lemma FreshMeansAuthored(st: Replica, f: Flushing, now: Clockwork)
    requires ClockOwn(st) && Emitted(st, f, now) && OutFresh(st.log, f.out)
    ensures Authored(st, f)
  {
    AtClock(st, now);
    TicksNeverBack(st.clock, now, 0, |f.out|);
    hide TickNo, Indexed, Held, ClockOwn, OutFresh, OnTicks;
    forall r | r in f.out
      ensures r.origin == st.id && Leq(r.hlc, f.st.clock)
      ensures forall x :: x in st.log && x.origin == st.id ==> Less(x.hlc, r.hlc)
    {
      var i :| 0 <= i < |f.out| && f.out[i] == r;
      AfterOwn(st, now, f.out, i);
    }
    forall i, j | 0 <= i < j < |f.out|
      ensures Less(f.out[i].hlc, f.out[j].hlc)
    {
      EmittedInOrder(st, now, f.out, i, j);
    }
  }

  lemma AtClock(st: Replica, now: Clockwork)
    ensures TickNo(st.clock, now, 0) == st.clock
  {
  }

  lemma AfterOwn(st: Replica, now: Clockwork, out: seq<ChangeRecord>, i: nat)
    requires ClockOwn(st) && OnTicks(st.id, st.clock, now, out) && OutFresh(st.log, out) && i < |out|
    ensures out[i].origin == st.id && Leq(out[i].hlc, TickNo(st.clock, now, |out|))
    ensures forall x :: x in st.log && x.origin == st.id ==> Less(x.hlc, out[i].hlc)
  {
    hide OutFresh, Held, TickNo, ClockOwn;
    OwnTick(st, now, out, i);
    OutIsUnheld(st.log, out, i);
    PastOwn(st, out[i]);
  }

  lemma OutIsUnheld(log: seq<ChangeRecord>, out: seq<ChangeRecord>, i: nat)
    requires OutFresh(log, out) && i < |out|
    ensures !Held(log, StampOf(out[i]))
  {
    hide Held;
  }

  lemma OwnTick(st: Replica, now: Clockwork, out: seq<ChangeRecord>, i: nat)
    requires OnTicks(st.id, st.clock, now, out) && i < |out|
    ensures out[i].origin == st.id && Leq(st.clock, out[i].hlc) && Leq(out[i].hlc, TickNo(st.clock, now, |out|))
  {
    AtClock(st, now);
    hide TickNo;
    TicksNeverBack(st.clock, now, 0, i + 1);
    TicksNeverBack(st.clock, now, i + 1, |out|);
  }

  lemma PastOwn(st: Replica, rec: ChangeRecord)
    requires ClockOwn(st) && Leq(st.clock, rec.hlc) && rec.origin == st.id && !Held(st.log, StampOf(rec))
    ensures forall x :: x in st.log && x.origin == st.id ==> Less(x.hlc, rec.hlc)
  {
    forall x | x in st.log && x.origin == st.id
      ensures Less(x.hlc, rec.hlc)
    {
      assert StampOf(x) != StampOf(rec);
    }
  }

  lemma EmittedInOrder(st: Replica, now: Clockwork, out: seq<ChangeRecord>, i: nat, j: nat)
    requires OnTicks(st.id, st.clock, now, out) && OutFresh(st.log, out) && i < j < |out|
    ensures Less(out[i].hlc, out[j].hlc)
  {
    TicksNeverBack(st.clock, now, i + 1, j + 1);
    hide TickNo, Held, Rising;
    assert StampOf(out[i]) != StampOf(out[j]);
    hide OutFresh;
    assert out[i].origin == out[j].origin;
  }

  lemma AuthoredKeepsOwnOrder(st: Replica, f: Flushing)
    requires ClockOwn(st) && OwnOrdered(st) && Authored(st, f)
    ensures ClockOwn(f.st) && OwnOrdered(f.st)
  {
    forall r | r in f.st.log && r.origin == st.id
      ensures Leq(r.hlc, f.st.clock)
    {
      assert r in st.log || r in f.out;
    }
    forall i, j | 0 <= i < j < |f.st.log| && f.st.log[i].origin == st.id == f.st.log[j].origin
      ensures Less(f.st.log[i].hlc, f.st.log[j].hlc)
    {
      if i < |st.log| <= j {
        assert st.log[i] in st.log && f.st.log[j] in f.out;
      } else if |st.log| <= i {
        assert f.st.log[i] == f.out[i - |st.log|] && f.st.log[j] == f.out[j - |st.log|];
      }
    }
  }

  /** A flush appends exactly the records it returns if and only if its ticks are fresh, for any clock and any
      readings; the condition is told from the replica before the flush. Then every record comes after all that
      the device has authored, and the indexes stay exact. */
  lemma FlushAuthorsFreshIff(st: Replica, now: Clockwork, sign: ChangeRecord -> Text)
    requires Indexed(st) && ClockOwn(st) && OwnOrdered(st) && SpecsOk(st)
    ensures var f := FlushLocal(st, now, sign);
            && (f.st.log == st.log + f.out <==> FreshTicks(st, now, FlushCount(st)))
            && (FreshTicks(st, now, FlushCount(st)) ==>
                  Indexed(f.st) && Authored(st, f) && ClockOwn(f.st) && OwnOrdered(f.st))
  {
    hide FlushLocal, FlushCount, FreshTicks, OutFresh, Indexed, ClockOwn, OwnOrdered, SpecsOk;
    var f := FlushLocal(st, now, sign);
    FlushEmitted(st, now, sign);
    FlushCountIsExact(st, now, sign);
    FreshIff(st, now, f.out);
    if FreshTicks(st, now, FlushCount(st)) {
      FreshMeansAuthored(st, f, now);
      AuthoredKeepsOwnOrder(st, f);
    }
  }

  /** A counter with room for every record is enough. */
  lemma RoomIsFresh(st: Replica, now: Clockwork, n: nat)
    requires ClockOwn(st) && st.clock.counter + n <= MAX_U32
    ensures FreshTicks(st, now, n)
  {
    forall i | 0 <= i < n
      ensures Moves(TickNo(st.clock, now, i), now(i))
    {
      CounterBound(st.clock, now, i);
    }
    if n > 0 {
      TicksNeverBack(st.clock, now, 0, 1);
    }
  }

  lemma {:induction false} CounterBound(start: Hlc, now: Clockwork, i: nat)
    ensures TickNo(start, now, i).counter <= start.counter + i
  {
    if i > 0 {
      CounterBound(start, now, i - 1);
    }
  }
}
