/** Anti-entropy between two nodes, message by message: what a Sync request is answered, and how the exchange of
    requests and pages through the event handlers is the catch-up of `CatchUp`. */
module SyncRounds {
  import opened Bytes
  import opened Change
  import opened Replicas
  import opened Index
  import opened CatchUp
  import opened Gate
  import Network
  import Outbox

  // ----------------------------------------------------------------- one answer

  /** What a log holds beyond a vector. */
  ghost function Beyond(log: seq<ChangeRecord>, vv: VersionVector): set<ChangeRecord> {
    set r | r in log && !Covers(vv, r)
  }

  function Least(a: nat, b: nat): nat {
    if a < b then a else b
  }

  /** The records `changes` are the first ones, in stamp order, of those beyond the vector. */
  ghost predicate FirstBeyond(log: seq<ChangeRecord>, vv: VersionVector, changes: seq<ChangeRecord>) {
    && (forall r :: r in changes ==> r in Beyond(log, vv))
    && (forall i, j :: 0 <= i < j < |changes| ==> StampLt(StampOf(changes[i]), StampOf(changes[j])))
    && (forall p, x :: p in changes && x in Beyond(log, vv) && StampLt(StampOf(x), StampOf(p)) ==> x in changes)
  }

  /** A Sync request from a peer in the table of a replicating node is answered with the first records that the
      asker's vector does not cover, as many as the asker and the node allow; and the page says that there is more
      exactly if it is full. So if it says that there is no more, nothing that the asker lacks is left out. */
  lemma PageAnswersExactly(n: Node, peer: Text, vv: VersionVector, limit: nat)
    requires peer in n.authed && n.replicate && UniqueStamps(n.db.log)
    ensures var a, cap := OnSyncRequest(n, peer, vv, limit), Least(limit, 500);
            && a.Page? && FirstBeyond(n.db.log, vv, a.changes)
            && |a.changes| == Least(cap, |Beyond(n.db.log, vv)|)
            && (a.hasMore <==> |a.changes| == cap)
            && (!a.hasMore ==> forall r :: r in Beyond(n.db.log, vv) <==> r in a.changes)
  {
    var cap := Least(limit, Outbox.MAX_SYNC_CHANGES);
    var changes := ChangesSince(n.db, vv, cap);
    PageIs(n, peer, vv, limit);
    PageCount(n.db, vv, cap);
    PageIsFirst(n.db, vv, cap);
    hide OnSyncRequest, ChangesSince, FirstBeyond, UniqueStamps;
    if |changes| != cap {
      WholeAnswer(n.db, vv, cap);
    }
  }

  lemma PageIs(n: Node, peer: Text, vv: VersionVector, limit: nat)
    requires peer in n.authed && n.replicate
    ensures var cap := Least(limit, Outbox.MAX_SYNC_CHANGES);
            var changes := ChangesSince(n.db, vv, cap);
            OnSyncRequest(n, peer, vv, limit) == Page(changes, |changes| == cap)
  {
    hide ChangesSince;
  }

  lemma MissingCount(log: seq<ChangeRecord>, vv: VersionVector)
    requires UniqueStamps(log)
    ensures |Missing(log, vv)| == |Beyond(log, vv)|
  {
    UniqueMeansDistinct(log);
    MissingDistinct(log, vv);
    DistinctCount(Missing(log, vv));
    assert Network.Members(Missing(log, vv)) == Beyond(log, vv);
  }

  lemma PageCount(st: Replica, vv: VersionVector, cap: nat)
    requires UniqueStamps(st.log)
    ensures |ChangesSince(st, vv, cap)| == Least(cap, |Beyond(st.log, vv)|)
  {
    PageSize(st, vv, cap);
    MissingCount(st.log, vv);
    hide ChangesSince, Missing, Beyond, UniqueStamps;
  }

  lemma PageIsFirst(st: Replica, vv: VersionVector, cap: nat)
    requires UniqueStamps(st.log)
    ensures FirstBeyond(st.log, vv, ChangesSince(st, vv, cap))
  {
    var page := ChangesSince(st, vv, cap);
    PageAscends(st, vv, cap);
    hide ChangesSince, UniqueStamps;
    forall r | r in page
      ensures r in Beyond(st.log, vv)
    {
      Network.PageMembers(st, vv, cap, r);
    }
    forall p, x | p in page && x in Beyond(st.log, vv) && StampLt(StampOf(x), StampOf(p))
      ensures x in page
    {
      Network.PageIsPrefix(st, vv, cap, p, x);
    }
  }

  /** No two records of a page share a stamp, so their order is strict. */
  lemma PageAscends(st: Replica, vv: VersionVector, cap: nat)
    requires UniqueStamps(st.log)
    ensures var page := ChangesSince(st, vv, cap);
            forall i, j :: 0 <= i < j < |page| ==> StampLt(StampOf(page[i]), StampOf(page[j]))
  {
    var page := ChangesSince(st, vv, cap);
    PageDistinct(st, vv, cap);
    SortSorts(Missing(st.log, vv));
    assert page <= SortByStamp(Missing(st.log, vv));
    hide ChangesSince, SortByStamp, Missing, UniqueStamps, StampLt, StampLe;
    forall i, j | 0 <= i < j < |page|
      ensures StampLt(StampOf(page[i]), StampOf(page[j]))
    {
      assert page[i] in page && page[j] in page;
      Network.PageMembers(st, vv, cap, page[i]);
      Network.PageMembers(st, vv, cap, page[j]);
      LowerIsBelow(st, page[i], page[j]);
    }
  }

  lemma LowerIsBelow(st: Replica, a: ChangeRecord, b: ChangeRecord)
    requires UniqueStamps(st.log) && a in st.log && b in st.log && a != b && StampLe(StampOf(a), StampOf(b))
    ensures StampLt(StampOf(a), StampOf(b))
  {
    StampTotal(StampOf(a), StampOf(b));
    StampTotal(StampOf(b), StampOf(a));
    if StampOf(a) == StampOf(b) {
      SameStampSameRecord(st.log, a, b);
    }
  }

  /** A page below its cap is everything. */
  lemma WholeAnswer(st: Replica, vv: VersionVector, cap: nat)
    requires |ChangesSince(st, vv, cap)| != cap
    ensures forall r :: r in Beyond(st.log, vv) <==> r in ChangesSince(st, vv, cap)
  {
    var m := Missing(st.log, vv);
    SortSorts(m);
    assert ChangesSince(st, vv, cap) == SortByStamp(m);
    hide SortByStamp;
  }

  /** The other two answers: a refusal to a peer that is not in the table, an empty page from a node that does not
      replicate. */
  lemma OtherAnswers(n: Node, peer: Text, vv: VersionVector, limit: nat)
    ensures OnSyncRequest(n, peer, vv, limit) == Denied <==> peer !in n.authed
    ensures peer in n.authed && !n.replicate ==> OnSyncRequest(n, peer, vv, limit) == Page([], false)
  {
    hide ChangesSince;
  }

  // -------------------------------------------------------------- an exchange

  /** The asking node, and the Sync request of it that is under way. */
  datatype Talk = Talk(asker: Node, asked: Option<Effect>)

  /** The last Sync request among the effects. */
  function AskIn(fx: seq<Effect>): Option<Effect> {
    if fx == [] then None
    else if fx[|fx| - 1].AskFor? then Some(fx[|fx| - 1])
    else AskIn(fx[..|fx| - 1])
  }

  /** The request reaches the server, and its answer the asker: `me` and `them` are the names they go by. */
  function Turn(t: Talk, server: Node, me: Text, them: Text, clock: Clockwork, w: World): Talk {
    if t.asked.None? || !t.asked.value.AskFor? then t
    else
      var replies := Handle(server, SyncRequest(me, t.asked.value.vv, t.asked.value.limit), w).effects;
      if |replies| != 1 || !replies[0].Respond? || !replies[0].response.Page? then Talk(t.asker, None)
      else
        var page := replies[0].response;
        var out := Handle(t.asker, SyncResponse(them, page.changes, page.hasMore, clock), w);
        Talk(out.node, AskIn(out.effects))
  }

  function Turns(t: Talk, server: Node, me: Text, them: Text, k: nat, now: nat -> Clockwork, w: World): Talk {
    if k == 0 then t else Turn(Turns(t, server, me, them, k - 1, now, w), server, me, them, now(k - 1), w)
  }

  /** Both replicate, and each has the other in its table as one that does. */
  predicate Introduced(asker: Node, server: Node, me: Text, them: Text) {
    && asker.replicate && them in asker.authed && asker.authed[them].replicates
    && server.replicate && me in server.authed
  }

  /** The author filter of the asker lets everything of the server through. */
  predicate Unfiltered(asker: Node, server: Node) {
    forall r :: r in server.db.log ==> r.origin !in asker.readOnly
  }

  lemma {:induction false} NothingDropped(batch: seq<ChangeRecord>, readOnly: set<Text>)
    requires forall r :: r in batch ==> r.origin !in readOnly
    ensures Network.Kept(batch, readOnly) == batch && Network.Kept(batch, {}) == batch
  {
    if batch != [] {
      NothingDropped(batch[..|batch| - 1], readOnly);
      assert batch == batch[..|batch| - 1] + [batch[|batch| - 1]];
    }
  }

  /** The server's side of one turn. */
  lemma ServerSide(server: Node, me: Text, vv: VersionVector, w: World)
    requires server.replicate && me in server.authed
    ensures var page := ChangesSince(server.db, vv, Outbox.MAX_SYNC_CHANGES);
            Handle(server, SyncRequest(me, vv, Outbox.MAX_SYNC_CHANGES), w).effects ==
            [Respond(me, Page(page, |page| == Outbox.MAX_SYNC_CHANGES))]
  {
    hide ChangesSince;
  }

  /** The asker's side of one turn. */
  lemma AskerSide(asker: Node, them: Text, changes: seq<ChangeRecord>, hasMore: bool, clock: Clockwork, w: World)
    requires asker.replicate && them in asker.authed && asker.authed[them].replicates
    requires forall r :: r in changes ==> r.origin !in asker.readOnly
    ensures var out := Handle(asker, SyncResponse(them, changes, hasMore, clock), w);
            var db := ApplyRemote(asker.db, Network.Kept(changes, {}), clock, w.valid);
            && out.node == asker.(db := db)
            && AskIn(out.effects) ==
               if hasMore then Some(AskFor(them, db.vv, Outbox.MAX_SYNC_CHANGES)) else None
  {
    PageIsApplied(asker, them, changes, hasMore, clock, w);
    var out := Handle(asker, SyncResponse(them, changes, hasMore, clock), w);
    var db := ApplyRemote(asker.db, Network.Kept(changes, {}), clock, w.valid);
    hide Handle, ApplyRemote, Network.Kept;
    var fx: seq<Effect> :| |fx| <= 1 && (forall x :: x in fx ==> !x.AskFor?)
              && out.effects == fx + if hasMore then RequestSync(out.node, them) else [];
    AskAfter(fx, out.node, them, hasMore);
  }

  lemma AskAfter(fx: seq<Effect>, n: Node, them: Text, hasMore: bool)
    requires |fx| <= 1 && forall x :: x in fx ==> !x.AskFor?
    requires n.replicate && them in n.authed && n.authed[them].replicates
    ensures AskIn(fx + if hasMore then RequestSync(n, them) else []) ==
            if hasMore then Some(AskFor(them, n.db.vv, Outbox.MAX_SYNC_CHANGES)) else None
  {
    NoAskIn(fx);
    if hasMore {
      var ask := AskFor(them, n.db.vv, Outbox.MAX_SYNC_CHANGES);
      assert RequestSync(n, them) == [ask];
      assert (fx + [ask])[..|fx|] == fx;
    } else {
      assert fx + [] == fx;
    }
  }

  lemma PageIsApplied(asker: Node, them: Text, changes: seq<ChangeRecord>, hasMore: bool, clock: Clockwork, w: World)
    requires forall r :: r in changes ==> r.origin !in asker.readOnly
    ensures var out := Handle(asker, SyncResponse(them, changes, hasMore, clock), w);
            && out.node == asker.(db := ApplyRemote(asker.db, Network.Kept(changes, {}), clock, w.valid))
            && exists fx: seq<Effect> :: |fx| <= 1 && (forall x :: x in fx ==> !x.AskFor?)
                            && out.effects == fx + if hasMore then RequestSync(out.node, them) else []
  {
    if changes == [] {
      NothingApplied(asker.db, clock, w.valid);
      EmptyPage(asker, them, hasMore, clock, w);
    } else {
      NothingDropped(changes, asker.readOnly);
      AppliedSays(asker, them, changes, clock, w.valid);
      FullPage(asker, them, changes, hasMore, clock, w);
    }
    hide Handle, ApplyRemote, Network.Kept, RequestSync, Apply;
  }

  lemma NothingApplied(st: Replica, clock: Clockwork, valid: ChangeRecord -> bool)
    ensures ApplyRemote(st, Network.Kept([], {}), clock, valid) == st
  {
    assert Network.Kept([], {}) == [] && Accepted([], valid) == [];
  }

  lemma EmptyPage(asker: Node, them: Text, hasMore: bool, clock: Clockwork, w: World)
    ensures var out := Handle(asker, SyncResponse(them, [], hasMore, clock), w);
            out == Out(asker, [] + if hasMore then RequestSync(asker, them) else [])
  {
    hide RequestSync;
  }

  lemma FullPage(asker: Node, them: Text, changes: seq<ChangeRecord>, hasMore: bool, clock: Clockwork, w: World)
    requires changes != []
    ensures var applied := Apply(asker, them, changes, clock, w.valid);
            Handle(asker, SyncResponse(them, changes, hasMore, clock), w) ==
            Out(applied.node, applied.effects + if hasMore then RequestSync(applied.node, them) else [])
  {
    hide Apply, RequestSync;
  }

  lemma AppliedSays(n: Node, peer: Text, changes: seq<ChangeRecord>, clock: Clockwork, valid: ChangeRecord -> bool)
    ensures var out := Apply(n, peer, changes, clock, valid);
            && out.node == n.(db := ApplyRemote(n.db, Network.Kept(changes, n.readOnly), clock, valid))
            && |out.effects| <= 1 && forall x :: x in out.effects ==> !x.AskFor?
  {
    hide ApplyRemote, Network.Kept;
  }

  lemma NoAskIn(fx: seq<Effect>)
    requires |fx| <= 1 && forall x :: x in fx ==> !x.AskFor?
    ensures AskIn(fx) == None
  {
  }

  lemma OneTurn(asker: Node, server: Node, me: Text, them: Text, clock: Clockwork, w: World)
    requires Introduced(asker, server, me, them) && Unfiltered(asker, server)
    ensures var t := Talk(asker, Some(AskFor(them, asker.db.vv, Outbox.MAX_SYNC_CHANGES)));
            var page := ChangesSince(server.db, asker.db.vv, Outbox.MAX_SYNC_CHANGES);
            var db := ApplyRemote(asker.db, Network.Kept(page, {}), clock, w.valid);
            Turn(t, server, me, them, clock, w) ==
            Talk(asker.(db := db),
                 if HasMore(asker.db, server.db, Outbox.MAX_SYNC_CHANGES)
                 then Some(AskFor(them, db.vv, Outbox.MAX_SYNC_CHANGES)) else None)
  {
    var page := ChangesSince(server.db, asker.db.vv, Outbox.MAX_SYNC_CHANGES);
    forall r | r in page
      ensures r.origin !in asker.readOnly
    {
      Network.PageMembers(server.db, asker.db.vv, Outbox.MAX_SYNC_CHANGES, r);
    }
    ServerSide(server, me, asker.db.vv, w);
    AskerSide(asker, them, page, |page| == Outbox.MAX_SYNC_CHANGES, clock, w);
    hide Handle, ChangesSince, ApplyRemote, Network.Kept, AskIn;
  }

  /** Two introduced nodes that exchange Sync requests and pages through their event handlers, from the first request
      on, do exactly the catch-up of `CatchUp`: with n records missing, the asker sends n / 500 + 1 requests, each
      with the vector it then has, and stops; nothing else about it changes; and it ends with everything that the
      server holds. */
  lemma {:induction false} ExchangeIsCatchUp(asker: Node, server: Node, me: Text, them: Text, k: nat,
                                             now: nat -> Clockwork, w: World, all: set<ChangeRecord>)
    requires Introduced(asker, server, me, them) && Unfiltered(asker, server)
    requires Peers(asker.db, server.db, w.valid, all)
    requires k <= |Missing(server.db.log, asker.db.vv)| / Outbox.MAX_SYNC_CHANGES + 1
    ensures var q := |Missing(server.db.log, asker.db.vv)| / Outbox.MAX_SYNC_CHANGES;
            var t := Turns(Talk(asker, Some(AskFor(them, asker.db.vv, Outbox.MAX_SYNC_CHANGES))), server, me, them, k,
                           now, w);
            && t.asker ==
               asker.(db := Fetched(asker.db, server.db, Outbox.MAX_SYNC_CHANGES, k, {}, now, w.valid))
            && t.asked ==
               (if k <= q then Some(AskFor(them, t.asker.db.vv, Outbox.MAX_SYNC_CHANGES)) else None)
            && (k == q + 1 ==> forall r :: r in server.db.log ==> r in t.asker.db.log)
  {
    hide Turn, Peers, Missing, HasMore, ChangesSince, ApplyRemote, Network.Kept, Unfiltered;
    var limit := Outbox.MAX_SYNC_CHANGES;
    if k > 0 {
      ExchangeIsCatchUp(asker, server, me, them, k - 1, now, w, all);
      var p := Fetched(asker.db, server.db, limit, k - 1, {}, now, w.valid);
      FetchedHasMore(asker.db, server.db, limit, k - 1, now, w.valid, all);
      SameFilter(asker, server, p);
      OneTurn(asker.(db := p), server, me, them, now(k - 1), w);
      CatchUpTakesExactly(asker.db, server.db, limit, now, w.valid, all);
    }
  }

  lemma SameFilter(asker: Node, server: Node, p: Replica)
    requires Unfiltered(asker, server)
    ensures Unfiltered(asker.(db := p), server)
  {
  }
}
