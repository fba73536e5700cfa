/** What each event must do and send, told effect by effect: exactly when a peer is admitted, announced, greeted,
    answered, asked, pushed to, refused or hung up on (rust/p2p-core/src/net/node.rs). */
module GateDuties {
  import opened Bytes
  import opened Change
  import opened Replicas
  import opened Identity
  import opened Gate
  import opened GateRuns
  import Database
  import Network
  import Outbox
  import Runs

  predicate IsHello(e: Event) {
    e.HelloRequest? || e.HelloResponse?
  }

  /** The Hello, of either direction, speaks the protocol, and its certificate passes against the merged list. */
  predicate Passes(n: Node, e: Event, w: World)
    requires IsHello(e)
  {
    && e.hello.proto == PROTOCOL_VERSION
    && VerifyCert(e.hello.cert, n.org, Some(e.peer), Some(MergeCrl(n.crl, e.hello.crl, n.org, w.k)), e.now, w.k)
       == Accept
  }

  predicate Admits(n: Node, e: Event, w: World, p: Text) {
    IsHello(e) && e.peer == p && Passes(n, e, w)
  }

  predicate Refuses(n: Node, e: Event, w: World, p: Text) {
    IsHello(e) && e.peer == p && !Passes(n, e, w)
  }

  // ----------------------------------------------------------------- admission

  /** What the table says of a peer is what the Hello that let it in said. */
  predicate EntryOf(e: Event, a: AuthedPeer)
    requires IsHello(e)
  {
    var claims := e.hello.cert.claims;
    a.userId == claims.userId && a.displayName == claims.displayName && a.role == claims.role
    && a.replicates == e.hello.replicates
  }

  /** The list that the node judges by, and keeps, after a Hello. */
  function ListAfter(n: Node, e: Event, w: World): RevocationList
    requires IsHello(e)
  {
    if e.hello.proto == PROTOCOL_VERSION then MergeCrl(n.crl, e.hello.crl, n.org, w.k) else n.crl
  }

  /** The peer is remembered as read-only just if its role says so; what is remembered of others stays. */
  ghost predicate ReadOnlyAfter(before: set<Text>, after: set<Text>, peer: Text, role: Role) {
    forall p :: p in after <==> if p == peer then role == ReadOnly else p in before
  }

  /** What a Hello of either direction does to the node, its pending refusals apart. */
  ghost predicate HelloState(n: Node, e: Event, w: World, n': Node)
    requires IsHello(e)
  {
    && n'.db == n.db && n'.org == n.org && n'.replicate == n.replicate && n'.greeted == n.greeted
    && n'.crl == ListAfter(n, e, w)
    && n'.savedCrl == (if n'.crl != n.crl && e.disk then n'.crl else n.savedCrl)
    && (if Passes(n, e, w) then
          && e.peer in n'.authed && EntryOf(e, n'.authed[e.peer])
          && n'.authed == n.authed[e.peer := n'.authed[e.peer]]
          && ReadOnlyAfter(n.readOnly, n'.readOnly, e.peer, e.hello.cert.claims.role)
          && n'.roles == (if e.disk then n.roles[e.peer := e.hello.cert.claims.role] else n.roles)
        else n'.authed == n.authed && n'.readOnly == n.readOnly && n'.roles == n.roles)
  }

  /** The announcements of a Hello: the admission, and the connection if the peer is new. */
  function Announced(n: Node, e: Event, w: World): seq<Effect>
    requires IsHello(e)
  {
    if !Passes(n, e, w) then []
    else
      var admitted := Admitted(e.peer, e.hello.cert, ListAfter(n, e, w), e.now);
      if e.peer in n.authed then [admitted] else [admitted, Connected(e.peer)]
  }

  /** The node with the list merged and, if it is new, saved. */
  function Merged(n: Node, e: Event, w: World): Node
    requires IsHello(e)
  {
    var list := ListAfter(n, e, w);
    n.(crl := list, savedCrl := if list != n.crl && e.disk then list else n.savedCrl)
  }

  function EntryFrom(h: Hello): AuthedPeer {
    var c := h.cert.claims;
    AuthedPeer(c.userId, c.displayName, c.role, h.replicates)
  }

  lemma AcceptPassed(n: Node, e: Event, w: World)
    requires IsHello(e) && Passes(n, e, w)
    ensures var n2 := RoleTable(Merged(n, e, w), e.peer, e.hello.cert.claims.role, e.disk);
            AcceptPeer(n, e.peer, e.hello, e.now, e.disk, w.k) ==
            (Out(n2.(authed := n2.authed[e.peer := EntryFrom(e.hello)]), Announced(n, e, w)), Accept)
  {
    hide MergeCrl, VerifyCert, RoleTable;
  }

  lemma AcceptRefused(n: Node, e: Event, w: World)
    requires IsHello(e) && e.hello.proto == PROTOCOL_VERSION && !Passes(n, e, w)
    ensures var (out, verdict) := AcceptPeer(n, e.peer, e.hello, e.now, e.disk, w.k);
            out == Out(Merged(n, e, w), []) && verdict.Refuse? && Announced(n, e, w) == []
  {
    hide MergeCrl, VerifyCert, RoleTable;
  }

  lemma AcceptDone(n: Node, e: Event, w: World)
    requires IsHello(e) && e.hello.proto == PROTOCOL_VERSION
    ensures var (out, verdict) := AcceptPeer(n, e.peer, e.hello, e.now, e.disk, w.k);
            && (verdict.Accept? <==> Passes(n, e, w)) && HelloState(n, e, w, out.node) && out.node.deny == n.deny
            && out.effects == Announced(n, e, w)
  {
    hide AcceptPeer, Passes, MergeCrl, Announced, RoleTable, ReadOnlyAfter, ListAfter, HelloState;
    if Passes(n, e, w) {
      AcceptPassed(n, e, w);
      PassedState(n, e, w);
    } else {
      AcceptRefused(n, e, w);
      RefusedState(n, e, w);
    }
  }

  lemma PassedState(n: Node, e: Event, w: World)
    requires IsHello(e) && Passes(n, e, w)
    ensures var n2 := RoleTable(Merged(n, e, w), e.peer, e.hello.cert.claims.role, e.disk);
            n2.deny == n.deny && HelloState(n, e, w, n2.(authed := n2.authed[e.peer := EntryFrom(e.hello)]))
  {
    hide Passes, RoleTable, ReadOnlyAfter, ListAfter;
    RoleDone(Merged(n, e, w), e.peer, e.hello.cert.claims.role, e.disk);
  }

  lemma RefusedState(n: Node, e: Event, w: World)
    requires IsHello(e) && !Passes(n, e, w)
    ensures HelloState(n, e, w, Merged(n, e, w)) && Merged(n, e, w).deny == n.deny
  {
    hide Passes, ListAfter;
  }

  lemma RoleDone(n: Node, peer: Text, role: Role, disk: bool)
    ensures var n' := RoleTable(n, peer, role, disk);
            && n' == n.(readOnly := n'.readOnly, roles := n'.roles)
            && ReadOnlyAfter(n.readOnly, n'.readOnly, peer, role)
            && n'.roles == if disk then n.roles[peer := role] else n.roles
  {
  }

  lemma HelloRequestDone(n: Node, e: Event, w: World)
    requires e.HelloRequest?
    ensures var out := Handle(n, e, w);
            && HelloState(n, e, w, out.node)
            && out.effects ==
               Announced(n, e, w) + [Respond(e.peer, if Passes(n, e, w) then Welcome else Denied)]
            && out.node.deny.Keys == n.deny.Keys + if Passes(n, e, w) then {} else {e.peer}
  {
    if e.hello.proto == PROTOCOL_VERSION {
      AcceptDone(n, e, w);
    }
    hide AcceptPeer, MergeCrl, VerifyCert;
  }

  lemma HelloResponseDone(n: Node, e: Event, w: World)
    requires e.HelloResponse?
    ensures var out := Handle(n, e, w);
            && HelloState(n, e, w, out.node) && out.node.deny == n.deny
            && out.effects == Announced(n, e, w) + if Passes(n, e, w) then RequestSync(out.node, e.peer)
                                                   else [Rejected(e.peer), HangUp(e.peer)]
  {
    if e.hello.proto == PROTOCOL_VERSION {
      AcceptDone(n, e, w);
    }
    hide AcceptPeer, MergeCrl, VerifyCert, RequestSync;
  }

  /** An event other than a Hello: who is in the table, and under what, changes only by closing or restarting. */
  lemma OtherEventsAdmitNobody(n: Node, e: Event, w: World)
    requires !IsHello(e)
    ensures var out := Handle(n, e, w);
            && (forall x :: x in out.effects ==> !x.Admitted? && !x.Connected?)
            && (forall p :: p in out.node.authed ==> p in n.authed && out.node.authed[p] == n.authed[p])
  {
    if DataEvent(e) {
      DataEventFrame(n, e, w);
      DataEventSends(n, e, w);
      hide Handle;
    } else {
      hide Adopt, OwnMaximum;
    }
  }

  /** Events that carry records announce at most a sync, and answer, ask and push. */
  lemma DataEventSends(n: Node, e: Event, w: World)
    requires DataEvent(e)
    ensures forall x :: x in Handle(n, e, w).effects ==>
              x.Synced? || x.LocalChanges? || x.Respond? || x.AskFor? || x.SendPush? || x.Gossip?
  {
    hide ApplyRemote, ChangesSince, Outbox.Push, Outbox.Flatten, Database.Rejected, Network.Kept, Broadcast, SyncAll;
    match e
    case SyncTick(peers) => SyncAllAsks(n, peers, |peers|);
    case FlushTick(clock, marked, peers) =>
      var chunks := Outbox.Push(Outbox.Outgoing(n.db, []), clock, marked, w.sign).chunks;
      BroadcastSends(peers, chunks, |chunks|);
    case _ =>
  }

  /** Exactly when a peer is let in, by which certificate, against which list; and exactly when it is announced. */
  lemma AdmittedIff(n: Node, e: Event, w: World, p: Text, x: Effect)
    requires x.Admitted? && x.peer == p
    ensures x in Handle(n, e, w).effects <==>
              Admits(n, e, w, p) && x == Admitted(p, e.hello.cert, ListAfter(n, e, w), e.now)
    ensures Connected(p) in Handle(n, e, w).effects <==> Admits(n, e, w, p) && p !in n.authed
  {
    hide Handle, Passes, ListAfter;
    if IsHello(e) {
      HelloAdmits(n, e, w, p, x);
    } else {
      OtherEventsAdmitNobody(n, e, w);
    }
  }

  lemma HelloAdmits(n: Node, e: Event, w: World, p: Text, x: Effect)
    requires IsHello(e) && x.Admitted? && x.peer == p
    ensures x in Handle(n, e, w).effects <==>
              Admits(n, e, w, p) && x == Admitted(p, e.hello.cert, ListAfter(n, e, w), e.now)
    ensures Connected(p) in Handle(n, e, w).effects <==> Admits(n, e, w, p) && p !in n.authed
  {
    if e.HelloRequest? {
      HelloRequestDone(n, e, w);
    } else {
      HelloResponseDone(n, e, w);
    }
    AsksOnly(x, Connected(p));
    hide Handle, Passes, ListAfter, HelloState, RequestSync;
  }

  lemma AsksOnly(x: Effect, y: Effect)
    requires !x.AskFor? && !y.AskFor?
    ensures forall m: Node, q :: x !in RequestSync(m, q) && y !in RequestSync(m, q)
  {
  }

  /** An entry of the table says what the Hello that last let the peer in said: user, name, role, and whether the peer
      replicates. */
  lemma EntryAfter(n: Node, e: Event, w: World, p: Text)
    ensures var n' := Handle(n, e, w).node;
            p in n'.authed ==>
              if Admits(n, e, w, p) then EntryOf(e, n'.authed[p]) else p in n.authed && n'.authed[p] == n.authed[p]
  {
    if e.HelloRequest? {
      HelloRequestDone(n, e, w);
    } else if e.HelloResponse? {
      HelloResponseDone(n, e, w);
    } else {
      OtherEventsAdmitNobody(n, e, w);
    }
    hide Handle, Passes, ListAfter, MergeCrl, EntryOf, ReadOnlyAfter;
  }

  /** Event `i` of the run lets `p` in. */
  ghost predicate LetsIn(s: Session, es: seq<Event>, i: nat, w: World, p: Text)
    requires i < |es|
  {
    Admits(RunEvents(s, es, i, w).node, es[i], w, p)
  }

  /** Event `i` is the last of the first `n` that lets `p` in, and `a` is what its Hello says. */
  ghost predicate LastHello(s: Session, es: seq<Event>, i: nat, n: nat, w: World, p: Text, a: AuthedPeer)
    requires n <= |es|
  {
    i < n && LetsIn(s, es, i, w, p) && IsHello(es[i]) && EntryOf(es[i], a)
    && forall j :: i < j < n ==> !LetsIn(s, es, j, w, p)
  }

  /** Over any run of a node: the entry of a peer is that of the last Hello that let it in. */
  lemma {:induction false} EntryIsOfLastHello(s: Session, es: seq<Event>, n: nat, w: World, p: Text)
    requires n <= |es| && JustStarted(s) && p in RunEvents(s, es, n, w).node.authed
    ensures exists i :: LastHello(s, es, i, n, w, p, RunEvents(s, es, n, w).node.authed[p])
  {
    if n > 0 {
      var before, after := RunEvents(s, es, n - 1, w).node, RunEvents(s, es, n, w).node;
      EntryAfter(before, es[n - 1], w, p);
      StepTaken(s, es, n, w);
      hide Handle, EntryOf, RunEvents, Admits, LastHello;
      if Admits(before, es[n - 1], w, p) {
        NewestHello(s, es, n, w, p, after.authed[p]);
      } else {
        EntryIsOfLastHello(s, es, n - 1, w, p);
        var i :| LastHello(s, es, i, n - 1, w, p, before.authed[p]);
        StillLastHello(s, es, i, n, w, p, after.authed[p]);
      }
    }
  }

  lemma StepTaken(s: Session, es: seq<Event>, n: nat, w: World)
    requires 0 < n <= |es|
    ensures RunEvents(s, es, n, w).node == Handle(RunEvents(s, es, n - 1, w).node, es[n - 1], w).node
  {
    hide Handle;
  }

  lemma NewestHello(s: Session, es: seq<Event>, n: nat, w: World, p: Text, a: AuthedPeer)
    requires 0 < n <= |es| && Admits(RunEvents(s, es, n - 1, w).node, es[n - 1], w, p) && EntryOf(es[n - 1], a)
    ensures LastHello(s, es, n - 1, n, w, p, a)
  {
    hide RunEvents, Passes, EntryOf;
  }

  lemma StillLastHello(s: Session, es: seq<Event>, i: nat, n: nat, w: World, p: Text, a: AuthedPeer)
    requires 0 < n <= |es| && LastHello(s, es, i, n - 1, w, p, a)
    requires !Admits(RunEvents(s, es, n - 1, w).node, es[n - 1], w, p)
    ensures LastHello(s, es, i, n, w, p, a)
  {
    hide RunEvents, Passes, EntryOf;
  }

  /** The list held and the list saved after an event: a Hello that speaks the protocol merges its list, which is
      saved if it is new and the database takes it; a restart goes back to what is saved. */
  lemma ListsAfter(n: Node, e: Event, w: World)
    ensures var n' := Handle(n, e, w).node;
            && n'.crl == (if IsHello(e) then ListAfter(n, e, w) else if e.Restart? then n.savedCrl else n.crl)
            && n'.savedCrl == (if IsHello(e) && n'.crl != n.crl && e.disk then n'.crl else n.savedCrl)
  {
    if e.HelloRequest? {
      HelloRequestDone(n, e, w);
      hide Handle, Passes, ReadOnlyAfter, ListAfter, EntryOf;
    } else if e.HelloResponse? {
      HelloResponseDone(n, e, w);
      hide Handle, Passes, ReadOnlyAfter, ListAfter, EntryOf;
    } else if e.Restart? {
      hide Adopt, OwnMaximum;
    } else {
      RolesUntouched(n, e, w);
      hide Handle;
    }
  }

  // ----------------------------------------------------------------- greetings

  /** A peer is greeted exactly on the first connection since it was last gone; a restart forgets all greetings. */
  lemma GreetedIff(n: Node, e: Event, w: World, p: Text)
    ensures Greet(p) in Handle(n, e, w).effects <==> e == Opened(p) && p !in n.greeted
    ensures p in Handle(n, e, w).node.greeted <==>
              e == Opened(p) || (p in n.greeted && e != Closed(p, 0) && !e.Restart?)
  {
    if e.HelloRequest? {
      HelloRequestDone(n, e, w);
      hide Handle, Passes, MergeCrl, ReadOnlyAfter, EntryOf, ListAfter;
    } else if e.HelloResponse? {
      HelloResponseDone(n, e, w);
      hide Handle, Passes, MergeCrl, ReadOnlyAfter, EntryOf, ListAfter;
    } else if DataEvent(e) {
      DataEventFrame(n, e, w);
      DataEventSends(n, e, w);
      hide Handle;
    } else {
      hide Adopt, OwnMaximum;
    }
  }

  /** The peer has a connection that has been greeted. */
  predicate Linked(es: seq<Event>, n: nat, p: Text)
    requires n <= |es|
  {
    n > 0 && (es[n - 1] == Opened(p) || (es[n - 1] != Closed(p, 0) && !es[n - 1].Restart? && Linked(es, n - 1, p)))
  }

  /** Over any run: opening a connection greets the peer exactly if none has been open since its last connection
      closed or the process started. So a peer that comes back is greeted again. */
  lemma {:induction false} ReconnectedPeerIsGreeted(s: Session, es: seq<Event>, n: nat, w: World, p: Text)
    requires n <= |es| && s.node.greeted == {}
    ensures p in RunEvents(s, es, n, w).node.greeted <==> Linked(es, n, p)
    ensures Greet(p) in Handle(RunEvents(s, es, n, w).node, Opened(p), w).effects <==> !Linked(es, n, p)
  {
    hide Handle;
    if n > 0 {
      ReconnectedPeerIsGreeted(s, es, n - 1, w, p);
      GreetedIff(RunEvents(s, es, n - 1, w).node, es[n - 1], w, p);
    }
    GreetedIff(RunEvents(s, es, n, w).node, Opened(p), w, p);
  }

  /** A peer is reported gone exactly when the last connection of an admitted peer closes. */
  lemma DisconnectedIff(n: Node, e: Event, w: World, p: Text)
    ensures Disconnected(p) in Handle(n, e, w).effects <==> e == Closed(p, 0) && p in n.authed
  {
    if e.HelloRequest? {
      HelloRequestDone(n, e, w);
      hide Handle, Passes, MergeCrl, HelloState, ListAfter;
    } else if e.HelloResponse? {
      HelloResponseDone(n, e, w);
      hide Handle, Passes, MergeCrl, HelloState, ListAfter;
    } else if DataEvent(e) {
      DataEventSends(n, e, w);
      hide Handle;
    } else {
      hide Adopt, OwnMaximum;
    }
  }

  // ------------------------------------------------------------------ refusals

  /** A peer is reported as rejected, and hung up on, exactly when its answer to the node's Hello does not pass, when
      it refuses the node, or when the refusal of its own Hello has gone out. */
  lemma RejectedIff(n: Node, e: Event, w: World, p: Text)
    ensures Rejected(p) in Handle(n, e, w).effects <==>
              || (e.HelloResponse? && Refuses(n, e, w, p)) || e == DeniedResponse(p)
              || (e == ResponseSent(p) && p in n.deny)
    ensures HangUp(p) in Handle(n, e, w).effects <==> Rejected(p) in Handle(n, e, w).effects
  {
    hide Handle, Passes;
    if IsHello(e) {
      HelloRejects(n, e, w, p);
    } else if DataEvent(e) {
      DataEventSends(n, e, w);
    } else {
      SimpleRejects(n, e, w, p);
    }
  }

  lemma HelloRejects(n: Node, e: Event, w: World, p: Text)
    requires IsHello(e)
    ensures Rejected(p) in Handle(n, e, w).effects <==> e.HelloResponse? && Refuses(n, e, w, p)
    ensures HangUp(p) in Handle(n, e, w).effects <==> Rejected(p) in Handle(n, e, w).effects
  {
    if e.HelloRequest? {
      HelloRequestDone(n, e, w);
    } else {
      HelloResponseDone(n, e, w);
    }
    AsksOnly(Rejected(p), HangUp(p));
    hide Handle, Passes, HelloState, ListAfter, RequestSync;
  }

  lemma SimpleRejects(n: Node, e: Event, w: World, p: Text)
    requires !IsHello(e) && !DataEvent(e)
    ensures Rejected(p) in Handle(n, e, w).effects <==> e == DeniedResponse(p) || (e == ResponseSent(p) && p in n.deny)
    ensures HangUp(p) in Handle(n, e, w).effects <==> Rejected(p) in Handle(n, e, w).effects
  {
    hide Restarting, OnHelloRequest, OnHelloResponse, OnPushRequest, OnSyncResponse, OnFlushTick, OnGossip, SyncAll,
      OnSyncRequest;
  }


  /** A refusal is pending exactly from the refused Hello to the next response that goes out to the peer. */
  lemma PendingDenialIff(n: Node, e: Event, w: World, p: Text)
    ensures p in Handle(n, e, w).node.deny <==>
              (e.HelloRequest? && Refuses(n, e, w, p)) || (p in n.deny && e != ResponseSent(p) && !e.Restart?)
  {
    if e.HelloRequest? {
      HelloRequestDone(n, e, w);
      hide Handle, Passes, MergeCrl, HelloState, ListAfter;
    } else if e.HelloResponse? {
      HelloResponseDone(n, e, w);
      hide Handle, Passes, MergeCrl, HelloState, ListAfter;
    } else if DataEvent(e) {
      DataEventFrame(n, e, w);
      hide Handle;
    } else {
      hide Adopt, OwnMaximum;
    }
  }

  // ------------------------------------------------------------------- answers

  /** Every request is answered, and this is how; a page is described by `SyncRounds.PageAnswersExactly`. */
  lemma AnsweredIff(n: Node, e: Event, w: World, p: Text, r: Response)
    ensures Respond(p, r) in Handle(n, e, w).effects <==>
              || (e.HelloRequest? && e.peer == p && r == if Passes(n, e, w) then Welcome else Denied)
              || (e.SyncRequest? && e.peer == p && r == OnSyncRequest(n, p, e.vv, e.limit))
              || (e.PushRequest? && e.peer == p
                  && r == if p !in n.authed then Denied else if !n.replicate then Pushed(0, 0)
                          else Pushed(|Handle(n, e, w).node.db.log| - |n.db.log|,
                                      Database.Count(Network.Kept(e.changes, n.readOnly), Database.Refused(w.valid))))
  {
    hide Passes, OnSyncRequest, OnPushRequest, Handle, Database.Count, Network.Kept;
    if IsHello(e) {
      HelloAnswers(n, e, w, p, r);
    } else if e.PushRequest? {
      PushIs(n, e, w);
      PushAnswered(n, e.peer, e.changes, e.clock, w);
    } else if e.FlushTick? || e.SyncTick? || e.SyncResponse? || e.GossipIn? {
      AnswersNothing(n, e, w);
    } else {
      OtherAnswers(n, e, w, p, r);
    }
  }

  lemma PushIs(n: Node, e: Event, w: World)
    requires e.PushRequest?
    ensures Handle(n, e, w) == OnPushRequest(n, e.peer, e.changes, e.clock, w)
  {
    hide OnPushRequest;
  }

  lemma HelloAnswers(n: Node, e: Event, w: World, p: Text, r: Response)
    requires IsHello(e)
    ensures Respond(p, r) in Handle(n, e, w).effects <==>
              e.HelloRequest? && e.peer == p && r == if Passes(n, e, w) then Welcome else Denied
  {
    if e.HelloRequest? {
      HelloRequestDone(n, e, w);
    } else {
      HelloResponseDone(n, e, w);
    }
    AsksOnly(Respond(p, r), Respond(p, r));
    hide Handle, Passes, HelloState, ListAfter, RequestSync;
  }

  lemma OtherAnswers(n: Node, e: Event, w: World, p: Text, r: Response)
    requires !IsHello(e) && (DataEvent(e) ==> e.SyncRequest?)
    ensures Respond(p, r) in Handle(n, e, w).effects <==>
              e.SyncRequest? && e.peer == p && r == OnSyncRequest(n, p, e.vv, e.limit)
  {
    hide Restarting, OnSyncRequest, OnHelloRequest, OnHelloResponse, OnPushRequest, OnSyncResponse, OnFlushTick,
      OnGossip, SyncAll;
  }

  lemma PushAnswered(n: Node, peer: Text, changes: seq<ChangeRecord>, clock: Clockwork, w: World)
    ensures var out := OnPushRequest(n, peer, changes, clock, w);
            var reply := if peer !in n.authed then Denied else if !n.replicate then Pushed(0, 0)
                         else Pushed(|out.node.db.log| - |n.db.log|,
                                     Database.Count(Network.Kept(changes, n.readOnly), Database.Refused(w.valid)));
            && Respond(peer, reply) in out.effects
            && forall x :: x in out.effects && x.Respond? ==> x == Respond(peer, reply)
  {
    ApplyTells(n, peer, changes, clock, w.valid);
    Database.CountersCount(n.db, Network.Kept(changes, n.readOnly), w.valid);
    ApplyStoresIff(n.db, Network.Kept(changes, n.readOnly), clock, w.valid);
    hide ApplyRemote, Network.Kept, Database.Count, Database.Rejected, Accepted;
  }

  lemma AnswersNothing(n: Node, e: Event, w: World)
    requires e.FlushTick? || e.SyncTick? || e.SyncResponse? || e.GossipIn?
    ensures forall x :: x in Handle(n, e, w).effects ==> !x.Respond?
  {
    hide ApplyRemote, Outbox.Push, Outbox.Flatten, Network.Kept, Broadcast, SyncAll;
    match e
    case SyncTick(peers) => SyncAllAsks(n, peers, |peers|);
    case FlushTick(clock, marked, peers) =>
      var chunks := Outbox.Push(Outbox.Outgoing(n.db, []), clock, marked, w.sign).chunks;
      BroadcastSends(peers, chunks, |chunks|);
    case _ =>
  }

  // ---------------------------------------------------------------- asking

  lemma {:induction false} SyncAllMembers(n: Node, peers: seq<Text>, m: nat, x: Effect)
    requires m <= |peers|
    ensures x in SyncAll(n, peers, m) <==> exists i :: 0 <= i < m && x in RequestSync(n, peers[i])
  {
    hide RequestSync;
    if m > 0 {
      SyncAllMembers(n, peers, m - 1, x);
    }
  }

  /** The events on which a peer is to be asked: its answer to the node's Hello let it in, its page said that there is
      more, or it is in the table at a sync tick. */
  predicate Prompts(n: Node, e: Event, w: World, p: Text) {
    match e
    case HelloResponse(_, _, _, _) => Admits(n, e, w, p)
    case SyncResponse(peer, _, hasMore, _) => peer == p && hasMore
    case SyncTick(_) => p in n.authed
    case _ => false
  }

  /** A Sync request goes out exactly on those events, to a peer in the table that replicates, from a node that does;
      and it carries the vector of the log as it then stands, and the limit. */
  lemma AskedIff(s: Session, e: Event, w: World, p: Text, x: Effect)
    requires Possible(s, e) && x.AskFor? && x.peer == p
    ensures var n' := Handle(s.node, e, w).node;
            x in Handle(s.node, e, w).effects <==>
              && Prompts(s.node, e, w, p) && n'.replicate && p in n'.authed && n'.authed[p].replicates
              && x == AskFor(p, n'.db.vv, Outbox.MAX_SYNC_CHANGES)
  {
    var n := s.node;
    if e.HelloRequest? || e.HelloResponse? {
      HelloAsks(n, e, w, x);
      hide Handle, Passes, Possible;
    } else if e.SyncResponse? {
      PageAsks(n, e.peer, e.changes, e.hasMore, e.clock, w, x);
      hide OnSyncResponse, Possible;
    } else if e.SyncTick? {
      SyncAllMembers(n, e.peers, |e.peers|, x);
      hide SyncAll;
    } else {
      OthersAskNothing(n, e, w);
      hide Handle, Possible;
    }
  }

  lemma HelloAsks(n: Node, e: Event, w: World, x: Effect)
    requires IsHello(e) && x.AskFor?
    ensures var out := Handle(n, e, w);
            x in out.effects <==> e.HelloResponse? && Passes(n, e, w) && x in RequestSync(out.node, e.peer)
  {
    if e.HelloRequest? {
      HelloRequestDone(n, e, w);
    } else {
      HelloResponseDone(n, e, w);
    }
    hide Handle, Passes, HelloState, ListAfter, RequestSync;
  }

  lemma PageAsks(n: Node, peer: Text, changes: seq<ChangeRecord>, hasMore: bool, clock: Clockwork, w: World, x: Effect)
    requires x.AskFor?
    ensures var out := OnSyncResponse(n, peer, changes, hasMore, clock, w);
            && out.node == n.(db := out.node.db)
            && (x in out.effects <==> hasMore && x in RequestSync(out.node, peer))
  {
    ApplyTells(n, peer, changes, clock, w.valid);
    hide ApplyRemote, Network.Kept, RequestSync;
  }

  lemma OthersAskNothing(n: Node, e: Event, w: World)
    requires !IsHello(e) && !e.SyncResponse? && !e.SyncTick?
    ensures forall x :: x in Handle(n, e, w).effects ==> !x.AskFor?
  {
    hide ApplyRemote, Outbox.Push, Outbox.Flatten, Network.Kept, Broadcast, Restarting, OnSyncRequest,
      Database.Rejected, OnHelloRequest, OnHelloResponse;
    if e.FlushTick? {
      var chunks := Outbox.Push(Outbox.Outgoing(n.db, []), e.clock, e.marked, w.sign).chunks;
      BroadcastSends(e.peers, chunks, |chunks|);
    }
  }

  // ------------------------------------------------------------------ syncs

  /** The app hears of a sync exactly when the log has grown by records that a peer handed over: from whom, and by how
      many. */
  lemma SyncedIff(n: Node, e: Event, w: World, p: Text, k: nat)
    ensures var grown := |Handle(n, e, w).node.db.log| - |n.db.log|;
            Synced(p, k) in Handle(n, e, w).effects <==> !e.FlushTick? && Sender(e) == Some(p) && k == grown > 0
  {
    EventTells(n, e, w);
    hide Handle, Brings, Accepted, Network.Kept;
    if !e.FlushTick? {
      StoresIff(n, e, w);
      SyncedCounts(n, e, w);
      if Handle(n, e, w).node.db.log != n.db.log {
        OneSync(Handle(n, e, w).effects, Synced(p, k));
      }
    }
  }

  lemma OneSync(fx: seq<Effect>, x: Effect)
    requires fx != [] && x.Synced? && forall i :: 0 < i < |fx| ==> !fx[i].Synced?
    ensures x in fx <==> x == fx[0]
    ensures fx[0] in fx
  {
  }

  /** The count of a sync is the growth of the log. */
  lemma SyncedCounts(n: Node, e: Event, w: World)
    requires !e.FlushTick?
    ensures var out := Handle(n, e, w);
            forall x :: x in out.effects && x.Synced? ==> x.applied == |out.node.db.log| - |n.db.log|
  {
    hide ApplyRemote, ChangesSince, Database.Rejected, Network.Kept, SyncAll, OnHelloRequest, OnHelloResponse,
      Restarting;
    match e
    case HelloRequest(peer, h, now, disk) => HelloTells(n, peer, h, now, disk, w.k);
    case HelloResponse(peer, h, now, disk) => HelloTells(n, peer, h, now, disk, w.k);
    case SyncTick(peers) => SyncAllAsks(n, peers, |peers|);
    case _ =>
  }

  // -------------------------------------------------------------- flush ticks

  /** What went to the topic, in order. */
  function GossipsIn(fx: seq<Effect>): seq<seq<ChangeRecord>> {
    if fx == [] then []
    else
      var e := fx[|fx| - 1];
      GossipsIn(fx[..|fx| - 1]) + if e.Gossip? then [e.changes] else []
  }

  lemma {:induction false} GossipsConcat(a: seq<Effect>, b: seq<Effect>)
    ensures GossipsIn(a + b) == GossipsIn(a) + GossipsIn(b)
  {
    if b == [] {
      assert a + b == a;
    } else {
      assert (a + b)[..|a + b| - 1] == a + b[..|b| - 1];
      GossipsConcat(a, b[..|b| - 1]);
    }
  }

  lemma {:induction false} NoGossip(fx: seq<Effect>)
    requires forall e :: e in fx ==> !e.Gossip?
    ensures GossipsIn(fx) == []
  {
    if fx != [] {
      NoGossip(fx[..|fx| - 1]);
    }
  }

  lemma {:induction false} BroadcastGossips(peers: seq<Text>, chunks: seq<seq<ChangeRecord>>, n: nat)
    requires n <= |chunks|
    ensures GossipsIn(Broadcast(peers, chunks, n)) == chunks[..n]
  {
    hide GossipsIn;
    if n == 0 {
      NoGossip([]);
    } else {
      BroadcastGossips(peers, chunks, n - 1);
      var c := chunks[n - 1];
      ChunkGossips(peers, c);
      BroadcastStep(peers, chunks, n);
      hide Broadcast, PushTo;
      GossipsConcat(Broadcast(peers, chunks, n - 1), PushTo(peers, |peers|, c) + [Gossip(c)]);
      assert chunks[..n] == chunks[..n - 1] + [c];
    }
  }

  lemma ChunkGossips(peers: seq<Text>, c: seq<ChangeRecord>)
    ensures GossipsIn(PushTo(peers, |peers|, c) + [Gossip(c)]) == [c]
  {
    hide PushTo;
    PushToSends(peers, |peers|, c);
    NoGossip(PushTo(peers, |peers|, c));
    GossipsConcat(PushTo(peers, |peers|, c), [Gossip(c)]);
    assert [Gossip(c)][..0] == [];
  }

  lemma BroadcastStep(peers: seq<Text>, chunks: seq<seq<ChangeRecord>>, n: nat)
    requires 0 < n <= |chunks|
    ensures Broadcast(peers, chunks, n) ==
            Broadcast(peers, chunks, n - 1) + (PushTo(peers, |peers|, chunks[n - 1]) + [Gossip(chunks[n - 1])])
  {
  }

  /** The chunks of a tick are these records in order, none empty, none too long. */
  ghost predicate ChunksOf(chunks: seq<seq<ChangeRecord>>, sent: seq<ChangeRecord>) {
    Outbox.Flatten(chunks) == sent && forall c :: c in chunks ==> 0 < |c| <= 200
  }

  /** What one tick sends, whether or not the mark can be written: the own records above the mark, oldest first, at
      most 500 of them, in chunks of at most 200. */
  lemma TickChunks(st: Replica, clock: Clockwork, marked: bool, sign: ChangeRecord -> Text)
    requires st.watermark <= |st.log|
    ensures var o, mid := Outbox.Push(Outbox.Outgoing(st, []), clock, marked, sign), FlushLocal(st, clock, sign).st;
            var own := OwnAbove(mid.log, mid.id, mid.watermark);
            var sent := Records(Take(own, Outbox.MAX_SYNC_CHANGES));
            && ChunksOf(o.chunks, sent) && o.st == mid.(watermark := o.st.watermark)
            && mid.watermark <= o.st.watermark <= |mid.log|
            && (marked ==> Runs.OwnRecords(mid.log[..o.st.watermark], mid.id) ==
                           Runs.OwnRecords(mid.log[..mid.watermark], mid.id) + sent)
            && (!marked ==> o.st.watermark == mid.watermark)
  {
    hide FlushLocal;
    Outbox.FlushExtends(st, clock, sign);
    var mid := FlushLocal(st, clock, sign).st;
    var own := OwnAbove(mid.log, mid.id, mid.watermark);
    var next := Take(own, Outbox.MAX_SYNC_CHANGES);
    Outbox.ChunksPartition(Records(next), Outbox.MAX_PUSH_CHANGES);
    assert [] + Outbox.Chunks(Records(next), Outbox.MAX_PUSH_CHANGES) ==
           Outbox.Chunks(Records(next), Outbox.MAX_PUSH_CHANGES);
    if next != [] {
      Outbox.OwnAbovePrefix(mid.log, mid.id, mid.watermark, |next|);
      assert own[..|next|] == next;
    }
  }

  /** One flush tick of a replicating node, told by its effects: every replicating peer of the table is pushed the
      same chunks, in order and once each, nobody else is pushed anything, the topic gets them too, and the app is
      told how many records went out, if any did. */
  lemma TickReachesEverybody(s: Session, clock: Clockwork, marked: bool, peers: seq<Text>, w: World, p: Text)
    requires s.node.replicate && Possible(s, FlushTick(clock, marked, peers))
    requires s.node.db.watermark <= |s.node.db.log|
    ensures var out, mid := Handle(s.node, FlushTick(clock, marked, peers), w), FlushLocal(s.node.db, clock, w.sign).st;
            var sent := Records(Take(OwnAbove(mid.log, mid.id, mid.watermark), 500));
            exists chunks ::
              && ChunksOf(chunks, sent) && GossipsIn(out.effects) == chunks
              && PushesTo(out.effects, p) ==
                 (if p in s.node.authed && s.node.authed[p].replicates then chunks else [])
              && (forall k :: LocalChanges(k) in out.effects <==> k == |sent| > 0)
              && out.node == s.node.(db := mid.(watermark := out.node.db.watermark))
  {
    var n, out := s.node, Handle(s.node, FlushTick(clock, marked, peers), w);
    var o := Outbox.Push(Outbox.Outgoing(n.db, []), clock, marked, w.sign);
    TickIs(n, clock, marked, peers, w);
    TickChunks(n.db, clock, marked, w.sign);
    hide Handle, FlushLocal, Outbox.Push, Records, Take, OwnAbove;
    TickEffects(peers, o.chunks, p);
    EmptyChunks(o.chunks);
    assert p in peers <==> p in n.authed && n.authed[p].replicates;
    assert ChunksOf(o.chunks, Outbox.Flatten(o.chunks)) && GossipsIn(out.effects) == o.chunks;
  }

  lemma TickIs(n: Node, clock: Clockwork, marked: bool, peers: seq<Text>, w: World)
    requires n.replicate
    ensures var o := Outbox.Push(Outbox.Outgoing(n.db, []), clock, marked, w.sign);
            Handle(n, FlushTick(clock, marked, peers), w) == Out(n.(db := o.st), TickFx(peers, o.chunks))
  {
    hide Outbox.Push, Broadcast, Outbox.Flatten;
  }

  function TickFx(peers: seq<Text>, chunks: seq<seq<ChangeRecord>>): seq<Effect> {
    if chunks == [] then [] else [LocalChanges(|Outbox.Flatten(chunks)|)] + Broadcast(peers, chunks, |chunks|)
  }

  lemma TickEffects(peers: seq<Text>, chunks: seq<seq<ChangeRecord>>, p: Text)
    requires forall i, j :: 0 <= i < j < |peers| ==> peers[i] != peers[j]
    ensures var fx := TickFx(peers, chunks);
            && GossipsIn(fx) == chunks && PushesTo(fx, p) == (if p in peers then chunks else [])
            && forall k :: LocalChanges(k) in fx <==> chunks != [] && k == |Outbox.Flatten(chunks)|
  {
    var fx := Broadcast(peers, chunks, |chunks|);
    EveryPeerGetsEveryChunk(peers, chunks, |chunks|, p);
    BroadcastGossips(peers, chunks, |chunks|);
    BroadcastSends(peers, chunks, |chunks|);
    assert chunks[..|chunks|] == chunks;
    hide Broadcast;
    if chunks != [] {
      Prefixed(fx, |Outbox.Flatten(chunks)|, p);
    } else {
      assert PushesTo([], p) == [] && GossipsIn([]) == [];
    }
  }

  lemma Prefixed(fx: seq<Effect>, k: nat, p: Text)
    requires forall e :: e in fx ==> e.SendPush? || e.Gossip?
    ensures GossipsIn([LocalChanges(k)] + fx) == GossipsIn(fx)
    ensures PushesTo([LocalChanges(k)] + fx, p) == PushesTo(fx, p)
    ensures forall j :: LocalChanges(j) in [LocalChanges(k)] + fx <==> j == k
  {
    GossipsConcat([LocalChanges(k)], fx);
    PushesConcat([LocalChanges(k)], fx, p);
    assert [LocalChanges(k)][..0] == [];
  }

  lemma EmptyChunks(chunks: seq<seq<ChangeRecord>>)
    requires forall c :: c in chunks ==> 0 < |c|
    ensures chunks == [] <==> Outbox.Flatten(chunks) == []
  {
    if chunks != [] {
      assert chunks[|chunks| - 1] in chunks;
    }
  }
}
