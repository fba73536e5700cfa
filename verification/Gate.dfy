/** The node's trust gate as a value: what each event makes of the peer table, the remembered roles and
    the replica, and what it sends (rust/p2p-core/src/net/node.rs). */
module Gate {
  import opened Bytes
  import opened Change
  import opened Replicas
  import opened Identity
  import Database
  import Network
  import Outbox

  const PROTOCOL_VERSION := 1

  datatype AuthedPeer = AuthedPeer(userId: Text, displayName: Text, role: Role, replicates: bool)

  /** `roles` and `savedCrl` are what the database remembers of peers and of the enrolment. */
  datatype Node = Node(
    org: Text, replicate: bool, crl: RevocationList,
    authed: map<Text, AuthedPeer>, greeted: set<Text>, readOnly: set<Text>, deny: map<Text, Reason>,
    roles: map<Text, Role>, savedCrl: RevocationList, db: Replica)

  datatype Reason = Version | Cert(why: Refusal)

  datatype Response =
    | Welcome
    | Page(changes: seq<ChangeRecord>, hasMore: bool)
    | Pushed(applied: nat, rejected: nat)
    | Denied

  /** Everything that leaves the node, in order: events for the app, messages, disconnections. `Admitted`
      is the point at which a certificate passed every check, `Restarted` a new process. */
  datatype Effect =
    | Connected(peer: Text)
    | Disconnected(peer: Text)
    | Rejected(peer: Text)
    | Synced(peer: Text, applied: nat)
    | LocalChanges(count: nat)
    | Greet(peer: Text)
    | Respond(peer: Text, response: Response)
    | AskFor(peer: Text, vv: VersionVector, limit: nat)
    | SendPush(peer: Text, changes: seq<ChangeRecord>)
    | Gossip(changes: seq<ChangeRecord>)
    | HangUp(peer: Text)
    | Admitted(peer: Text, cert: DeviceCert, list: RevocationList, now: U64)
    | Restarted

  datatype Hello = Hello(proto: nat, cert: DeviceCert, crl: RevocationList, replicates: bool)

  datatype Event =
    | Opened(peer: Text)
    | Closed(peer: Text, remaining: nat)
    | HelloRequest(peer: Text, hello: Hello, now: U64, disk: bool)    // `disk`: the database takes the writes
    | SyncRequest(peer: Text, vv: VersionVector, limit: nat)
    | PushRequest(peer: Text, changes: seq<ChangeRecord>, clock: Clockwork)
    | HelloResponse(peer: Text, hello: Hello, now: U64, disk: bool)
    | SyncResponse(peer: Text, changes: seq<ChangeRecord>, hasMore: bool, clock: Clockwork)
    | PushResponse(peer: Text)
    | DeniedResponse(peer: Text)
    | ResponseSent(peer: Text)
    | GossipIn(source: Text, payload: Option<seq<ChangeRecord>>, clock: Clockwork)
    | FlushTick(clock: Clockwork, marked: bool, peers: seq<Text>)
    | SyncTick(peers: seq<Text>)
    | Restart(found: seq<RowKey>)

  /** Cryptography, the authorship check of records, and the device's own signing key. */
  datatype World = World(k: Crypto, valid: ChangeRecord -> bool, sign: ChangeRecord -> Text)

  datatype Out = Out(node: Node, effects: seq<Effect>)

  // ----------------------------------------------------------------- handlers

  function RoleTable(n: Node, peer: Text, role: Role, disk: bool): Node {
    n.(readOnly := if MayWrite(role) then n.readOnly - {peer} else n.readOnly + {peer},
       roles := if disk then n.roles[peer := role] else n.roles)
  }

  /** `accept_peer`: the list first, then the certificate against it. */
  function AcceptPeer(n: Node, peer: Text, h: Hello, now: U64, disk: bool, k: Crypto): (Out, Verdict) {
    var list := MergeCrl(n.crl, h.crl, n.org, k);
    var n1 := n.(crl := list, savedCrl := if list != n.crl && disk then list else n.savedCrl);
    var verdict := VerifyCert(h.cert, n.org, Some(peer), Some(list), now, k);
    if verdict.Refuse? then (Out(n1, []), verdict)
    else
      var claims := h.cert.claims;
      var n2 := RoleTable(n1, peer, claims.role, disk);
      var admitted := Admitted(peer, h.cert, list, now);
      (Out(n2.(authed := n2.authed[peer := AuthedPeer(claims.userId, claims.displayName, claims.role, h.replicates)]),
           if peer in n.authed then [admitted] else [admitted, Connected(peer)]),
       Accept)
  }

  function Refuse1(n: Node, peer: Text, why: Reason): Out {
    Out(n.(deny := n.deny[peer := why]), [Respond(peer, Denied)])
  }

  function RequestSync(n: Node, peer: Text): seq<Effect> {
    if n.replicate && peer in n.authed && n.authed[peer].replicates then
      [AskFor(peer, n.db.vv, Outbox.MAX_SYNC_CHANGES)]
    else []
  }

  /** `apply`: the author filter, then the replica. */
  function Apply(n: Node, peer: Text, changes: seq<ChangeRecord>, clock: Clockwork, valid: ChangeRecord -> bool): Out {
    var db := ApplyRemote(n.db, Network.Kept(changes, n.readOnly), clock, valid);
    Out(n.(db := db), if |db.log| > |n.db.log| then [Synced(peer, |db.log| - |n.db.log|)] else [])
  }

  function OnHelloRequest(n: Node, peer: Text, h: Hello, now: U64, disk: bool, k: Crypto): Out {
    if h.proto != PROTOCOL_VERSION then Refuse1(n, peer, Version)
    else
      var (out, verdict) := AcceptPeer(n, peer, h, now, disk, k);
      if verdict.Accept? then Out(out.node, out.effects + [Respond(peer, Welcome)])
      else
        var refused := Refuse1(out.node, peer, Cert(verdict.why));
        Out(refused.node, out.effects + refused.effects)
  }

  function OnSyncRequest(n: Node, peer: Text, vv: VersionVector, limit: nat): Response {
    if peer !in n.authed then Denied
    else if !n.replicate then Page([], false)
    else
      var cap := if limit < Outbox.MAX_SYNC_CHANGES then limit else Outbox.MAX_SYNC_CHANGES;
      var changes := ChangesSince(n.db, vv, cap);
      Page(changes, |changes| == cap)
  }

  function TakenPush(n: Node, peer: Text, changes: seq<ChangeRecord>, clock: Clockwork, w: World): Out {
    var out := Apply(n, peer, changes, clock, w.valid);
    var rejected := Database.Rejected(Network.Kept(changes, n.readOnly), w.valid);
    Out(out.node, out.effects + [Respond(peer, Pushed(|out.node.db.log| - |n.db.log|, rejected))])
  }

  function OnPushRequest(n: Node, peer: Text, changes: seq<ChangeRecord>, clock: Clockwork, w: World): Out {
    if peer !in n.authed then Out(n, [Respond(peer, Denied)])
    else if !n.replicate then Out(n, [Respond(peer, Pushed(0, 0))])
    else TakenPush(n, peer, changes, clock, w)
  }

  function OnHelloResponse(n: Node, peer: Text, h: Hello, now: U64, disk: bool, k: Crypto): Out {
    if h.proto != PROTOCOL_VERSION then Out(n, [Rejected(peer), HangUp(peer)])
    else
      var (out, verdict) := AcceptPeer(n, peer, h, now, disk, k);
      Out(out.node,
          out.effects + if verdict.Accept? then RequestSync(out.node, peer) else [Rejected(peer), HangUp(peer)])
  }

  function OnSyncResponse(n: Node, peer: Text, changes: seq<ChangeRecord>, hasMore: bool, clock: Clockwork,
                          w: World): Out {
    var out := if changes == [] then Out(n, []) else Apply(n, peer, changes, clock, w.valid);
    Out(out.node, out.effects + if hasMore then RequestSync(out.node, peer) else [])
  }

  function OnGossip(n: Node, source: Text, changes: Option<seq<ChangeRecord>>, clock: Clockwork, w: World): Out {
    if source !in n.authed || !n.replicate || changes.None? then Out(n, [])
    else Apply(n, source, changes.value, clock, w.valid)
  }

  function OnClosed(n: Node, peer: Text, remaining: nat): Out {
    if remaining != 0 then Out(n, [])
    else Out(n.(greeted := n.greeted - {peer}, authed := n.authed - {peer}),
             if peer in n.authed then [Disconnected(peer)] else [])
  }

  function PushTo(peers: seq<Text>, n: nat, chunk: seq<ChangeRecord>): seq<Effect>
    requires n <= |peers|
  {
    if n == 0 then [] else PushTo(peers, n - 1, chunk) + [SendPush(peers[n - 1], chunk)]
  }

  /** `broadcast`: each chunk to every replicating peer, then to the topic. */
  function Broadcast(peers: seq<Text>, chunks: seq<seq<ChangeRecord>>, n: nat): seq<Effect>
    requires n <= |chunks|
  {
    if n == 0 then []
    else Broadcast(peers, chunks, n - 1) + (PushTo(peers, |peers|, chunks[n - 1]) + [Gossip(chunks[n - 1])])
  }

  function OnFlushTick(n: Node, clock: Clockwork, marked: bool, peers: seq<Text>, w: World): Out {
    if !n.replicate then Out(n, [])
    else
      var o := Outbox.Push(Outbox.Outgoing(n.db, []), clock, marked, w.sign);
      Out(n.(db := o.st),
          if o.chunks == [] then []
          else [LocalChanges(|Outbox.Flatten(o.chunks)|)] + Broadcast(peers, o.chunks, |o.chunks|))
  }

  function SyncAll(n: Node, peers: seq<Text>, m: nat): seq<Effect>
    requires m <= |peers|
  {
    if m == 0 then [] else SyncAll(n, peers, m - 1) + RequestSync(n, peers[m - 1])
  }

  function ReadOnlyIn(roles: map<Text, Role>): set<Text> {
    set p | p in roles && roles[p] == ReadOnly
  }

  /** A new process over the same database. */
  function Restarting(n: Node, found: seq<RowKey>): Node {
    n.(authed := map[], greeted := {}, deny := map[], readOnly := ReadOnlyIn(n.roles), crl := n.savedCrl,
       db := Reopen(n.db, found))
  }

  function Handle(n: Node, e: Event, w: World): Out {
    match e
    case Opened(peer) => Out(n.(greeted := n.greeted + {peer}), if peer in n.greeted then [] else [Greet(peer)])
    case Closed(peer, remaining) => OnClosed(n, peer, remaining)
    case HelloRequest(peer, h, now, disk) => OnHelloRequest(n, peer, h, now, disk, w.k)
    case SyncRequest(peer, vv, limit) => Out(n, [Respond(peer, OnSyncRequest(n, peer, vv, limit))])
    case PushRequest(peer, changes, clock) => OnPushRequest(n, peer, changes, clock, w)
    case HelloResponse(peer, h, now, disk) => OnHelloResponse(n, peer, h, now, disk, w.k)
    case SyncResponse(peer, changes, hasMore, clock) => OnSyncResponse(n, peer, changes, hasMore, clock, w)
    case PushResponse(peer) => Out(n, [])
    case DeniedResponse(peer) => Out(n, [Rejected(peer), HangUp(peer)])
    case ResponseSent(peer) =>
      if peer in n.deny then Out(n.(deny := n.deny - {peer}), [Rejected(peer), HangUp(peer)]) else Out(n, [])
    case GossipIn(source, payload, clock) => OnGossip(n, source, payload, clock, w)
    case FlushTick(clock, marked, peers) => OnFlushTick(n, clock, marked, peers, w)
    case SyncTick(peers) => Out(n, if n.replicate then SyncAll(n, peers, |peers|) else [])
    case Restart(found) => Out(Restarting(n, found), [Restarted])
  }
}
