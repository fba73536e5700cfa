/** The live path: whatever the device authored goes out in log order, whoever flushed it
    (rust/p2p-core/src/net/node.rs:390-440 over rust/p2p-core/src/db/mod.rs:575-632). */
module Outbox {
  import opened Bytes
  import opened HybridLogicalClock
  import opened Change
  import opened Replicas
  import opened Database
  import opened Runs
  import Convergence

  const MAX_SYNC_CHANGES := 500
  const MAX_PUSH_CHANGES := 200

  // ------------------------------------------------------------------ chunks

  /** `slice::chunks`. */
  function Chunks(s: seq<ChangeRecord>, size: nat): seq<seq<ChangeRecord>>
    requires size > 0
  {
    if s == [] then [] else if |s| <= size then [s] else [s[..size]] + Chunks(s[size..], size)
  }

  function Flatten(chunks: seq<seq<ChangeRecord>>): seq<ChangeRecord> {
    if chunks == [] then [] else Flatten(chunks[..|chunks| - 1]) + chunks[|chunks| - 1]
  }

  lemma {:induction false} FlattenConcat(a: seq<seq<ChangeRecord>>, b: seq<seq<ChangeRecord>>)
    ensures Flatten(a + b) == Flatten(a) + Flatten(b)
  {
    if b == [] {
      assert a + b == a;
    } else {
      assert (a + b)[..|a + b| - 1] == a + b[..|b| - 1];
      FlattenConcat(a, b[..|b| - 1]);
    }
  }

  /** Chunking loses, repeats and reorders nothing, and no chunk is empty or too long. */
  lemma {:induction false} ChunksPartition(s: seq<ChangeRecord>, size: nat)
    requires size > 0
    ensures Flatten(Chunks(s, size)) == s
    ensures forall c :: c in Chunks(s, size) ==> 0 < |c| <= size
  {
    if 0 < |s| <= size {
      assert [s][..0] == [];
    } else if |s| > size {
      ChunksPartition(s[size..], size);
      FlattenConcat([s[..size]], Chunks(s[size..], size));
      assert [s[..size]][..0] == [];
      assert Flatten([s[..size]]) == s[..size];
      assert s == s[..size] + s[size..];
    }
  }

  // ------------------------------------------------------------ own entries

  lemma {:induction false} NoneAbove(log: seq<ChangeRecord>, id: Text, mark: nat)
    requires mark >= |log|
    ensures OwnAbove(log, id, mark) == []
  {
    if log != [] {
      NoneAbove(log[..|log| - 1], id, mark);
    }
  }

  /** Everything above the mark, in log order, is what the own log adds over its first `mark` entries. */
  lemma {:induction false} OwnAboveIsSuffix(log: seq<ChangeRecord>, id: Text, mark: nat)
    requires mark <= |log|
    ensures OwnRecords(log, id) == OwnRecords(log[..mark], id) + Records(OwnAbove(log, id, mark))
  {
    if mark == |log| {
      assert log[..mark] == log;
      NoneAbove(log, id, mark);
    } else {
      var init := log[..|log| - 1];
      assert init[..mark] == log[..mark];
      OwnAboveIsSuffix(init, id, mark);
      var a, b := OwnAbove(init, id, mark), OwnAbove(log, id, mark);
      assert b == a || b == a + [(|log|, log[|log| - 1])];
    }
  }

  /** The first `k` entries above the mark are the own log between the mark and the last of them. */
  lemma {:induction false} OwnAbovePrefix(log: seq<ChangeRecord>, id: Text, mark: nat, k: nat)
    requires mark <= |log| && 0 < k <= |OwnAbove(log, id, mark)|
    ensures var own := OwnAbove(log, id, mark);
            && mark < own[k - 1].0 <= |log|
            && OwnRecords(log[..own[k - 1].0], id) == OwnRecords(log[..mark], id) + Records(own[..k])
  {
    OwnAboveIncreasing(log, id, mark);
    var own := OwnAbove(log, id, mark);
    var init := log[..|log| - 1];
    var prev := OwnAbove(init, id, mark);
    if k <= |prev| {
      OwnAboveIncreasing(init, id, mark);
      OwnAbovePrefix(init, id, mark, k);
      assert own[..k] == prev[..k] && init[..mark] == log[..mark];
      assert init[..own[k - 1].0] == log[..own[k - 1].0];
    } else {
      OwnAboveIsSuffix(log, id, mark);
      assert own[..k] == own && log[..|log|] == log;
    }
  }

  // ------------------------------------------------------------------- state

  /** The replica and every chunk sent so far, oldest first. */
  datatype Outgoing = Outgoing(st: Replica, chunks: seq<seq<ChangeRecord>>)

  datatype Event =
    | ByDevice(step: Step)                     // anything else the device does, flushes by other callers included
    | PushTick(now: Clockwork, marked: bool)   // `marked` is false when recording the watermark failed

  /** `flush_and_push`. */
  function Push(o: Outgoing, now: Clockwork, marked: bool, sign: ChangeRecord -> Text): Outgoing {
    var st := FlushLocal(o.st, now, sign).st;
    var (changes, high) := Unbroadcast(st, MAX_SYNC_CHANGES);
    if changes == [] then Outgoing(st, o.chunks)
    else Outgoing(if marked then st.(watermark := high) else st, o.chunks + Chunks(changes, MAX_PUSH_CHANGES))
  }

  function Handle(o: Outgoing, e: Event, keys: Keys): Outgoing {
    match e
    case ByDevice(step) => o.(st := Take1(o.st, step, keys).st)
    case PushTick(now, marked) => Push(o, now, marked, keys.sign)
  }

  /** The object form: one tick against the replica, returning the chunks it sent. */
  method FlushAndPush(db: Db, now: Clockwork, sign: ChangeRecord -> Text, canMark: bool,
                      ghost before: seq<seq<ChangeRecord>>)
    returns (sent: seq<seq<ChangeRecord>>)
    modifies db, db.clock
    ensures Outgoing(db.View(), before + sent) == Push(Outgoing(old(db.View()), before), now, canMark, sign)
  {
    var flushed := db.FlushLocal(now, sign);
    var changes, high := db.UnbroadcastLocal(MAX_SYNC_CHANGES);
    sent := [];
    if changes != [] {
      sent := SplitChunks(changes);
      if canMark {
        db.MarkBroadcast(high);
      }
    }
    assert before + [] == before;
  }

  method SplitChunks(changes: seq<ChangeRecord>) returns (chunks: seq<seq<ChangeRecord>>)
    ensures chunks == Chunks(changes, MAX_PUSH_CHANGES)
  {
    chunks := [];
    var rest := changes;
    while rest != []
      invariant Chunks(changes, MAX_PUSH_CHANGES) == chunks + Chunks(rest, MAX_PUSH_CHANGES)
      decreases |rest|
    {
      var n := if |rest| < MAX_PUSH_CHANGES then |rest| else MAX_PUSH_CHANGES;
      assert n == |rest| ==> rest[..n] == rest && Chunks(rest[n..], MAX_PUSH_CHANGES) == [];
      chunks := chunks + [rest[..n]];
      rest := rest[n..];
    }
  }

  // -------------------------------------------------------------- invariants

  /** Every own record up to the watermark has been sent. */
  ghost predicate Sent(o: Outgoing) {
    && o.st.watermark <= |o.st.log|
    && (forall r :: r in OwnRecords(o.st.log[..o.st.watermark], o.st.id) ==> r in Flatten(o.chunks))
  }

  /** What was sent is exactly the own log up to the watermark, in order. */
  ghost predicate SentExactly(o: Outgoing) {
    o.st.watermark <= |o.st.log| && Flatten(o.chunks) == OwnRecords(o.st.log[..o.st.watermark], o.st.id)
  }

  /** The log only ever grows at its end. */
  ghost predicate Extends(a: Replica, b: Replica) {
    a.id == b.id && a.watermark == b.watermark && a.log <= b.log
  }

  lemma {:induction false} ColsExtend(f: Flushing, k: RowKey, values: Row, cols: seq<Text>, n: nat, now: Clockwork,
                                      sign: ChangeRecord -> Text)
    requires n <= |cols|
    ensures Extends(f.st, FlushCols(f, k, values, cols, n, now, sign).st)
  {
    hide Emit, CellMatches;
    if n > 0 {
      ColsExtend(f, k, values, cols, n - 1, now, sign);
      var g, c := FlushCols(f, k, values, cols, n - 1, now, sign), cols[n - 1];
      if c in values && !CellMatches(g.st.cells, k, c, values[c]) {
        EmitExtends(g, CellDraft(g.st, k, c, values[c]), now, sign);
      }
    }
  }

  lemma EmitExtends(f: Flushing, draft: ChangeRecord, now: Clockwork, sign: ChangeRecord -> Text)
    ensures Extends(f.st, Emit(f, draft, now, sign).st)
  {
  }

  lemma {:induction false} RowsExtend(f: Flushing, order: seq<RowKey>, n: nat, final: map<RowKey, Op>,
                                      now: Clockwork, sign: ChangeRecord -> Text)
    requires n <= |order| && forall k :: k in order ==> k in final
    ensures Extends(f.st, FlushRows(f, order, n, final, now, sign).st)
  {
    hide Emit, FlushCols;
    if n > 0 {
      RowsExtend(f, order, n - 1, final, now, sign);
      var g, k := FlushRows(f, order, n - 1, final, now, sign), order[n - 1];
      if k.tbl in g.st.specs && k in g.st.rows {
        var cols := g.st.specs[k.tbl].cols;
        ColsExtend(g, k, g.st.rows[k], cols, |cols|, now, sign);
      } else if k.tbl in g.st.specs && final[k] == Delete {
        EmitExtends(g, TombstoneDraft(g.st, k), now, sign);
      }
    }
  }

  lemma FlushExtends(st: Replica, now: Clockwork, sign: ChangeRecord -> Text)
    ensures Extends(st, FlushLocal(st, now, sign).st)
  {
    var order := FirstSeen(st.ops);
    RowsExtend(Flushing(st, []), order, |order|, FinalOps(st.ops), now, sign);
  }

  lemma StepExtends(st: Replica, step: Step, keys: Keys)
    ensures Extends(st, Take1(st, step, keys).st)
  {
    hide Capture, FlushLocal, ReceiveAll, Accepted, SortByStamp, MaterializeAll, DirtyRows, RunClock;
    match step {
      case Flush(now) => FlushExtends(st, now, keys.sign);
      case Remote(batch, now) =>
        var acc := Accepted(batch, keys.valid);
        Convergence.ReceivedKeep(st, SortByStamp(acc), |acc|, now);
      case _ =>
    }
  }

  // ------------------------------------------------------------------ theorems

  /** What one tick sends and where it leaves the mark. */
  lemma PushSends(o: Outgoing, now: Clockwork, marked: bool, sign: ChangeRecord -> Text)
    requires o.st.watermark <= |o.st.log|
    ensures var st, o' := FlushLocal(o.st, now, sign).st, Push(o, now, marked, sign);
            && Extends(o.st, st) && o'.st == st.(watermark := o'.st.watermark)
            && st.watermark <= o'.st.watermark <= |st.log|
            && (!marked ==> o'.st.watermark == st.watermark && Flatten(o.chunks) <= Flatten(o'.chunks))
            && (marked ==> exists sent ::
                  && Flatten(o'.chunks) == Flatten(o.chunks) + sent
                  && OwnRecords(st.log[..o'.st.watermark], st.id) == OwnRecords(st.log[..st.watermark], st.id) + sent
                  && |sent| == Min(|OwnAbove(st.log, st.id, st.watermark)|, MAX_SYNC_CHANGES))
  {
    hide FlushLocal;
    FlushExtends(o.st, now, sign);
    var st, o' := FlushLocal(o.st, now, sign).st, Push(o, now, marked, sign);
    var own := OwnAbove(st.log, st.id, st.watermark);
    var next := Take(own, MAX_SYNC_CHANGES);
    var sent := Records(next);
    assert |sent| == Min(|own|, MAX_SYNC_CHANGES);
    if sent == [] {
      assert Flatten(o'.chunks) == Flatten(o.chunks) + sent;
    } else {
      OwnAbovePrefix(st.log, st.id, st.watermark, |next|);
      assert own[..|next|] == next;
      ChunksPartition(sent, MAX_PUSH_CHANGES);
      FlattenConcat(o.chunks, Chunks(sent, MAX_PUSH_CHANGES));
    }
  }

  function Min(a: nat, b: nat): nat {
    if a < b then a else b
  }

  lemma ExtendsPrefix(a: Replica, b: Replica)
    requires Extends(a, b) && a.watermark <= |a.log|
    ensures a.watermark <= |b.log| && b.log[..b.watermark] == a.log[..a.watermark]
  {
  }

  lemma PrefixMembers(a: seq<ChangeRecord>, b: seq<ChangeRecord>)
    requires a <= b
    ensures forall r :: r in a ==> r in b
  {
  }

  lemma PushKeepsSent(o: Outgoing, now: Clockwork, marked: bool, sign: ChangeRecord -> Text)
    requires Sent(o)
    ensures Sent(Push(o, now, marked, sign))
    ensures marked && SentExactly(o) ==> SentExactly(Push(o, now, marked, sign))
  {
    hide FlushLocal, Push, OwnRecords;
    var st, o' := FlushLocal(o.st, now, sign).st, Push(o, now, marked, sign);
    PushSends(o, now, marked, sign);
    ExtendsPrefix(o.st, st);
    if !marked {
      PrefixMembers(Flatten(o.chunks), Flatten(o'.chunks));
    }
  }

  lemma HandleKeepsSent(o: Outgoing, e: Event, keys: Keys)
    requires Sent(o)
    ensures Sent(Handle(o, e, keys))
    ensures (e.PushTick? ==> e.marked) && SentExactly(o) ==> SentExactly(Handle(o, e, keys))
  {
    match e
    case ByDevice(step) =>
      hide Take1;
      StepExtends(o.st, step, keys);
      ExtendsPrefix(o.st, Take1(o.st, step, keys).st);
    case PushTick(now, marked) =>
      hide Push, Sent, SentExactly;
      PushKeepsSent(o, now, marked, keys.sign);
  }

  function RunEvents(o: Outgoing, es: seq<Event>, n: nat, keys: Keys): Outgoing
    requires n <= |es|
  {
    if n == 0 then o else Handle(RunEvents(o, es, n - 1, keys), es[n - 1], keys)
  }

  lemma NothingMarkedYet(st: Replica)
    requires st.watermark == 0
    ensures Sent(Outgoing(st, [])) && SentExactly(Outgoing(st, []))
  {
    assert st.log[..0] == [];
  }

  /** Over any interleaving of writes, flushes by any caller, remote batches, restarts and ticks, with
      or without failures to record the mark: every own record up to the watermark has been sent. */
  lemma {:induction false} EverythingBelowTheMarkWasSent(st: Replica, es: seq<Event>, n: nat, keys: Keys)
    requires n <= |es| && st.watermark == 0
    ensures Sent(RunEvents(Outgoing(st, []), es, n, keys))
  {
    hide Handle, Sent;
    if n == 0 {
      NothingMarkedYet(st);
    } else {
      EverythingBelowTheMarkWasSent(st, es, n - 1, keys);
      HandleKeepsSent(RunEvents(Outgoing(st, []), es, n - 1, keys), es[n - 1], keys);
    }
  }

  /** If marking always succeeds, the chunks laid end to end are exactly the own log up to the
      watermark, in sequence order, nothing skipped and nothing repeated. */
  lemma {:induction false} SentIsTheOwnLog(st: Replica, es: seq<Event>, n: nat, keys: Keys)
    requires n <= |es| && st.watermark == 0
    requires forall i :: 0 <= i < n && es[i].PushTick? ==> es[i].marked
    ensures Sent(RunEvents(Outgoing(st, []), es, n, keys)) && SentExactly(RunEvents(Outgoing(st, []), es, n, keys))
  {
    hide Handle, Sent, SentExactly;
    if n == 0 {
      NothingMarkedYet(st);
    } else {
      SentIsTheOwnLog(st, es, n - 1, keys);
      HandleKeepsSent(RunEvents(Outgoing(st, []), es, n - 1, keys), es[n - 1], keys);
    }
  }

  // ----------------------------------------------------------------- draining

  /** Own records not yet sent. */
  function Pending(st: Replica): nat {
    |OwnAbove(st.log, st.id, st.watermark)|
  }

  /** A marked tick with nothing staged sends up to 500 of the pending records. */
  lemma PushDrains(o: Outgoing, now: Clockwork, sign: ChangeRecord -> Text)
    requires o.st.ops == [] && o.st.watermark <= |o.st.log|
    ensures var o' := Push(o, now, true, sign);
            && o'.st == o.st.(watermark := o'.st.watermark) && o'.st.watermark <= |o.st.log|
            && Pending(o'.st) == if Pending(o.st) < MAX_SYNC_CHANGES then 0 else Pending(o.st) - MAX_SYNC_CHANGES
  {
    Convergence.EmptyQueueAuthorsNothing(o.st, now, sign);
    hide FlushLocal, Push;
    PushSends(o, now, true, sign);
    var o' := Push(o, now, true, sign);
    OwnAboveIsSuffix(o.st.log, o.st.id, o.st.watermark);
    OwnAboveIsSuffix(o.st.log, o.st.id, o'.st.watermark);
  }

  function Ticks(o: Outgoing, t: nat, now: nat -> Clockwork, sign: ChangeRecord -> Text): Outgoing {
    if t == 0 then o else Push(Ticks(o, t - 1, now, sign), now(t - 1), true, sign)
  }

  lemma {:induction false} TicksDrain(o: Outgoing, t: nat, now: nat -> Clockwork, sign: ChangeRecord -> Text)
    requires o.st.ops == [] && o.st.watermark <= |o.st.log|
    ensures var o' := Ticks(o, t, now, sign);
            && o'.st == o.st.(watermark := o'.st.watermark) && o'.st.watermark <= |o.st.log|
            && Pending(o'.st) ==
               if Pending(o.st) < t * MAX_SYNC_CHANGES then 0 else Pending(o.st) - t * MAX_SYNC_CHANGES
  {
    hide Push, Pending;
    if t > 0 {
      TicksDrain(o, t - 1, now, sign);
      PushDrains(Ticks(o, t - 1, now, sign), now(t - 1), sign);
    }
  }

  /** k pending records are gone after ceil(k / 500) ticks and not before. */
  lemma PendingClearsInTicks(o: Outgoing, t: nat, now: nat -> Clockwork, sign: ChangeRecord -> Text)
    requires o.st.ops == [] && o.st.watermark <= |o.st.log|
    ensures Pending(Ticks(o, t, now, sign).st) == 0 <==> t >= (Pending(o.st) + MAX_SYNC_CHANGES - 1) / MAX_SYNC_CHANGES
  {
    hide Ticks, Pending;
    TicksDrain(o, t, now, sign);
  }
}
