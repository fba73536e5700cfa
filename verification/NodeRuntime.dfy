/** The node's event handlers as methods on the object that owns the peer table, proved against `Gate`
    (rust/p2p-core/src/net/node.rs). */
module NodeRuntime {
  import opened Bytes
  import opened Change
  import opened Replicas
  import opened Identity
  import opened Gate
  import Database
  import Network
  import Outbox

  class Runtime {
    const org: Text
    const replicate: bool
    const w: World
    const db: Database.Db
    var crl: RevocationList
    var authed: map<Text, AuthedPeer>
    var greeted: set<Text>
    var readOnly: set<Text>
    var deny: map<Text, Reason>
    var roles: map<Text, Role>            // the peer table of the database
    var savedCrl: RevocationList          // the enrolment stored in the database

    function View(): Node
      reads this, db, db.clock
    {
      Node(org, replicate, crl, authed, greeted, readOnly, deny, roles, savedCrl, db.View())
    }

    /** `spawn` over a stored enrolment and role table. */
    constructor (org: Text, replicate: bool, w: World, db: Database.Db, saved: RevocationList, roles: map<Text, Role>)
      ensures View() == Node(org, replicate, saved, map[], {}, ReadOnlyIn(roles), map[], roles, saved, db.View())
      ensures this.db == db && this.w == w
    {
      this.org, this.replicate, this.w, this.db := org, replicate, w, db;
      crl, savedCrl, this.roles := saved, saved, roles;
      authed, greeted, deny, readOnly := map[], {}, map[], ReadOnlyIn(roles);
    }

    method ConnectionEstablished(peer: Text) returns (fx: seq<Effect>)
      modifies this`greeted
      ensures Out(View(), fx) == Handle(old(View()), Opened(peer), w)
    {
      fx := [];
      if peer !in greeted {
        greeted := greeted + {peer};
        fx := [Greet(peer)];
      }
      assert View().greeted == old(View()).greeted + {peer};
    }

    method ConnectionClosed(peer: Text, remaining: nat) returns (fx: seq<Effect>)
      modifies this`greeted, this`authed
      ensures Out(View(), fx) == OnClosed(old(View()), peer, remaining)
    {
      fx := [];
      if remaining == 0 {
        greeted := greeted - {peer};
        if peer in authed {
          authed := authed - {peer};
          fx := [Disconnected(peer)];
        }
        assert View().authed == old(View()).authed - {peer};
      }
    }

    /** `merge_crl` on the stored enrolment. */
    method MergeList(incoming: RevocationList) returns (newer: bool)
      modifies this`crl
      ensures crl == MergeCrl(old(crl), incoming, org, w.k) && newer == (crl != old(crl))
    {
      if incoming.updatedAtMs <= crl.updatedAtMs {
        return false;
      }
      if VerifyList(incoming, org, w.k) != Accept {
        return false;
      }
      crl := incoming;
      newer := true;
    }

    method RecordRole(peer: Text, role: Role, disk: bool)
      modifies this`readOnly, this`roles
      ensures View() == RoleTable(old(View()), peer, role, disk)
    {
      if MayWrite(role) {
        readOnly := readOnly - {peer};
      } else {
        readOnly := readOnly + {peer};
      }
      if disk {
        roles := roles[peer := role];
      }
    }

    /** `accept_peer`. */
    method Admit(peer: Text, h: Hello, now: U64, disk: bool) returns (fx: seq<Effect>, verdict: Verdict)
      modifies this`crl, this`savedCrl, this`readOnly, this`roles, this`authed
      ensures (Out(View(), fx), verdict) == AcceptPeer(old(View()), peer, h, now, disk, w.k)
    {
      hide MergeCrl, VerifyCert;
      var newer := MergeList(h.crl);
      if newer && disk {
        savedCrl := crl;
      }
      fx, verdict := [], VerifyCert(h.cert, org, Some(peer), Some(crl), now, w.k);
      if verdict.Accept? {
        var claims := h.cert.claims;
        var newlyAuthenticated := peer !in authed;
        RecordRole(peer, claims.role, disk);
        fx := [Admitted(peer, h.cert, crl, now)];
        if newlyAuthenticated {
          fx := [Admitted(peer, h.cert, crl, now), Connected(peer)];
        }
        authed := authed[peer := AuthedPeer(claims.userId, claims.displayName, claims.role, h.replicates)];
      }
    }

    method Refuse(peer: Text, why: Reason) returns (fx: seq<Effect>)
      modifies this`deny
      ensures Out(View(), fx) == Refuse1(old(View()), peer, why)
    {
      deny := deny[peer := why];
      fx := [Respond(peer, Denied)];
    }

    method AskForChanges(peer: Text) returns (fx: seq<Effect>)
      ensures fx == RequestSync(View(), peer)
    {
      fx := [];
      if replicate && peer in authed && authed[peer].replicates {
        var vv := db.ReadVector();
        fx := [AskFor(peer, vv, Outbox.MAX_SYNC_CHANGES)];
      }
    }

    method DropReadOnly(changes: seq<ChangeRecord>) returns (kept: seq<ChangeRecord>)
      ensures kept == Network.Kept(changes, readOnly)
    {
      kept := [];
      for i := 0 to |changes|
        invariant kept == Network.Kept(changes[..i], readOnly)
      {
        assert changes[..i + 1][..i] == changes[..i];
        if changes[i].origin !in readOnly {
          kept := kept + [changes[i]];
        }
      }
      assert changes[..|changes|] == changes;
    }

    method ApplyChanges(peer: Text, changes: seq<ChangeRecord>, clock: Clockwork)
      returns (fx: seq<Effect>, applied: nat, rejected: nat)
      modifies db, db.clock
      ensures Out(View(), fx) == Apply(old(View()), peer, changes, clock, w.valid)
      ensures applied == |db.log| - |old(db.log)|
      ensures rejected == Database.Rejected(Network.Kept(changes, old(readOnly)), w.valid)
    {
      hide Replicas.ApplyRemote, Database.Outcome, Database.Rejected, Network.Kept;
      var kept := DropReadOnly(changes);
      ghost var st := db.View();
      var outcome := db.ApplyRemote(kept, clock, w.valid);
      Database.Accounting(st, kept, clock, w.valid);
      applied, rejected := outcome.applied, outcome.rejected;
      fx := if applied > 0 then [Synced(peer, applied)] else [];
    }

    method AnswerHello(peer: Text, h: Hello, now: U64, disk: bool) returns (fx: seq<Effect>)
      modifies this`crl, this`savedCrl, this`readOnly, this`roles, this`authed, this`deny
      ensures Out(View(), fx) == OnHelloRequest(old(View()), peer, h, now, disk, w.k)
    {
      hide AcceptPeer;
      if h.proto != PROTOCOL_VERSION {
        fx := Refuse(peer, Version);
      } else {
        var verdict;
        fx, verdict := Admit(peer, h, now, disk);
        if verdict.Accept? {
          fx := fx + [Respond(peer, Welcome)];
        } else {
          var refusal := Refuse(peer, Cert(verdict.why));
          fx := fx + refusal;
        }
      }
    }

    method AnswerSync(peer: Text, vv: VersionVector, limit: nat) returns (fx: seq<Effect>)
      ensures fx == [Respond(peer, OnSyncRequest(View(), peer, vv, limit))]
    {
      if peer !in authed {
        return [Respond(peer, Denied)];
      }
      if !replicate {
        return [Respond(peer, Page([], false))];
      }
      var cap := if limit < Outbox.MAX_SYNC_CHANGES then limit else Outbox.MAX_SYNC_CHANGES;
      var changes := db.ChangesSince(vv, cap);
      fx := [Respond(peer, Page(changes, |changes| == cap))];
    }

    method AnswerPush(peer: Text, changes: seq<ChangeRecord>, clock: Clockwork) returns (fx: seq<Effect>)
      modifies db, db.clock
      ensures Out(View(), fx) == OnPushRequest(old(View()), peer, changes, clock, w)
    {
      hide Apply, Database.Rejected, Network.Kept, TakenPush;
      if peer in authed && replicate {
        fx := TakePush(peer, changes, clock);
      } else {
        fx := [Respond(peer, if peer in authed then Pushed(0, 0) else Denied)];
      }
    }

    method TakePush(peer: Text, changes: seq<ChangeRecord>, clock: Clockwork) returns (fx: seq<Effect>)
      modifies db, db.clock
      ensures Out(View(), fx) == TakenPush(old(View()), peer, changes, clock, w)
    {
      hide Apply, Database.Rejected, Network.Kept;
      ghost var n := View();
      var applied, rejected;
      fx, applied, rejected := ApplyChanges(peer, changes, clock);
      assert Out(View(), fx) == Apply(n, peer, changes, clock, w.valid);
      fx := fx + [Respond(peer, Pushed(applied, rejected))];
    }

    method HearHello(peer: Text, h: Hello, now: U64, disk: bool) returns (fx: seq<Effect>)
      modifies this`crl, this`savedCrl, this`readOnly, this`roles, this`authed
      ensures Out(View(), fx) == OnHelloResponse(old(View()), peer, h, now, disk, w.k)
    {
      hide AcceptPeer;
      if h.proto != PROTOCOL_VERSION {
        return [Rejected(peer), HangUp(peer)];
      }
      var verdict;
      fx, verdict := Admit(peer, h, now, disk);
      if verdict.Accept? {
        var ask := AskForChanges(peer);
        fx := fx + ask;
      } else {
        fx := fx + [Rejected(peer), HangUp(peer)];
      }
    }

    method HearPage(peer: Text, changes: seq<ChangeRecord>, hasMore: bool, clock: Clockwork) returns (fx: seq<Effect>)
      modifies db, db.clock
      ensures Out(View(), fx) == OnSyncResponse(old(View()), peer, changes, hasMore, clock, w)
    {
      hide Apply;
      fx := [];
      if changes != [] {
        var applied, rejected;
        fx, applied, rejected := ApplyChanges(peer, changes, clock);
      }
      if hasMore {
        var ask := AskForChanges(peer);
        fx := fx + ask;
      }
    }

    method HearGossip(source: Text, payload: Option<seq<ChangeRecord>>, clock: Clockwork) returns (fx: seq<Effect>)
      modifies db, db.clock
      ensures Out(View(), fx) == OnGossip(old(View()), source, payload, clock, w)
    {
      if source !in authed || !replicate || payload.None? {
        return [];
      }
      hide Apply;
      var applied, rejected;
      fx, applied, rejected := ApplyChanges(source, payload.value, clock);
    }

    method ResponseWent(peer: Text) returns (fx: seq<Effect>)
      modifies this`deny
      ensures Out(View(), fx) == Handle(old(View()), ResponseSent(peer), w)
    {
      fx := [];
      if peer in deny {
        deny := deny - {peer};
        fx := [Rejected(peer), HangUp(peer)];
      }
    }

    /** `peers` lists the replicating peers in the order in which the table yields them. */
    method SendChunks(peers: seq<Text>, chunks: seq<seq<ChangeRecord>>) returns (fx: seq<Effect>)
      ensures fx == Broadcast(peers, chunks, |chunks|)
    {
      fx := [];
      for i := 0 to |chunks|
        invariant fx == Broadcast(peers, chunks, i)
      {
        var sent: seq<Effect> := [];
        for j := 0 to |peers|
          invariant sent == PushTo(peers, j, chunks[i])
        {
          sent := sent + [SendPush(peers[j], chunks[i])];
        }
        fx := fx + (sent + [Gossip(chunks[i])]);
      }
    }

    method FlushAndPush(clock: Clockwork, canMark: bool, peers: seq<Text>) returns (fx: seq<Effect>)
      modifies db, db.clock
      ensures Out(View(), fx) == OnFlushTick(old(View()), clock, canMark, peers, w)
    {
      if !replicate {
        return [];
      }
      hide Outbox.Push, Broadcast;
      var chunks := Outbox.FlushAndPush(db, clock, w.sign, canMark, []);
      assert [] + chunks == chunks;
      fx := [];
      if chunks != [] {
        var sent := SendChunks(peers, chunks);
        fx := [LocalChanges(|Outbox.Flatten(chunks)|)] + sent;
      }
    }

    method AskEveryone(peers: seq<Text>) returns (fx: seq<Effect>)
      ensures fx == if replicate then SyncAll(View(), peers, |peers|) else []
    {
      fx := [];
      if replicate {
        for i := 0 to |peers|
          invariant fx == SyncAll(View(), peers, i)
        {
          var ask := AskForChanges(peers[i]);
          fx := fx + ask;
        }
      }
    }

    /** One turn of the event loop. */
    method Dispatch(e: Event) returns (fx: seq<Effect>)
      requires !e.Restart?
      modifies this, db, db.clock
      ensures Out(View(), fx) == Handle(old(View()), e, w)
    {
      hide OnClosed, OnHelloRequest, OnSyncRequest, OnPushRequest, OnHelloResponse;
      hide OnSyncResponse, OnGossip, OnFlushTick, SyncAll;
      match e
      case Opened(peer) => fx := ConnectionEstablished(peer);
      case Closed(peer, remaining) => fx := ConnectionClosed(peer, remaining);
      case HelloRequest(peer, h, now, disk) => fx := AnswerHello(peer, h, now, disk);
      case SyncRequest(peer, vv, limit) => fx := AnswerSync(peer, vv, limit);
      case PushRequest(peer, changes, clock) => fx := AnswerPush(peer, changes, clock);
      case HelloResponse(peer, h, now, disk) => fx := HearHello(peer, h, now, disk);
      case SyncResponse(peer, changes, hasMore, clock) => fx := HearPage(peer, changes, hasMore, clock);
      case PushResponse(peer) => fx := [];
      case DeniedResponse(peer) => fx := [Rejected(peer), HangUp(peer)];
      case ResponseSent(peer) => fx := ResponseWent(peer);
      case GossipIn(source, payload, clock) => fx := HearGossip(source, payload, clock);
      case FlushTick(clock, marked, peers) => fx := FlushAndPush(clock, marked, peers);
      case SyncTick(peers) => fx := AskEveryone(peers);
    }
  }
}
