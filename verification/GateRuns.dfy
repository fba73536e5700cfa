/** The trust gate over whole runs: who was let in, what was served to whom, and what stays out. */
module GateRuns {
  import opened Bytes
  import opened Change
  import opened Replicas
  import opened Identity
  import opened Gate
  import Database
  import Network
  import Outbox
  import Convergence

  // ---------------------------------------------------------------- the trace

  /** The last word on `p` in this process was that it connected. */
  predicate Up(trace: seq<Effect>, p: Text) {
    if trace == [] then false
    else
      var e := trace[|trace| - 1];
      if e == Connected(p) then true
      else if e == Disconnected(p) || e == Restarted then false
      else Up(trace[..|trace| - 1], p)
  }

  /** The certificate that last let `p` in, if it has not been dropped since. */
  function Vetted(trace: seq<Effect>, p: Text): Option<DeviceCert> {
    if trace == [] then None
    else
      var e := trace[|trace| - 1];
      if e.Admitted? && e.peer == p then Some(e.cert)
      else if e == Disconnected(p) || e == Restarted then None
      else Vetted(trace[..|trace| - 1], p)
  }

  /** What may follow a trace. */
  predicate Proper1(trace: seq<Effect>, e: Effect, org: Text, k: Crypto) {
    match e
    case Connected(p) => !Up(trace, p) && Vetted(trace, p).Some?
    case Disconnected(p) => Up(trace, p)
    case Respond(p, Page(changes, _)) => changes != [] ==> Up(trace, p)
    case Respond(p, Pushed(_, _)) => Up(trace, p)
    case AskFor(p, _, _) => Up(trace, p)
    case SendPush(p, _) => Up(trace, p)
    case Admitted(p, cert, list, now) => VerifyCert(cert, org, Some(p), Some(list), now, k) == Accept
    case _ => true
  }

  /** Per peer, connected and disconnected alternate, starting with connected; pages, pulls and pushes
      involve only peers that are connected; every admission passed verification. */
  predicate Proper(trace: seq<Effect>, org: Text, k: Crypto) {
    trace == [] || (Proper(trace[..|trace| - 1], org, k) && Proper1(trace[..|trace| - 1], trace[|trace| - 1], org, k))
  }

  /** Effects that say nothing about who is connected. */
  predicate Neutral(e: Effect) {
    !e.Connected? && !e.Disconnected? && !e.Admitted? && !e.Restarted?
  }

  /** Effects that may follow a trace in any number and order. */
  predicate Fitting(trace: seq<Effect>, es: seq<Effect>, org: Text, k: Crypto) {
    forall e :: e in es ==> Neutral(e) && Proper1(trace, e, org, k)
  }

  lemma FittingConcat(trace: seq<Effect>, a: seq<Effect>, b: seq<Effect>, org: Text, k: Crypto)
    requires Fitting(trace, a, org, k) && Fitting(trace, b, org, k)
    ensures Fitting(trace, a + b, org, k)
  {
    hide Proper1;
  }

  lemma Append(trace: seq<Effect>, e: Effect, org: Text, k: Crypto)
    ensures Proper(trace + [e], org, k) <==> Proper(trace, org, k) && Proper1(trace, e, org, k)
    ensures Neutral(e) ==> forall p :: Up(trace + [e], p) == Up(trace, p) && Vetted(trace + [e], p) == Vetted(trace, p)
  {
    assert (trace + [e])[..|trace|] == trace;
  }

  /** A stretch of neutral effects. */
  lemma {:induction false} AppendNeutral(trace: seq<Effect>, es: seq<Effect>, org: Text, k: Crypto)
    requires Proper(trace, org, k) && Fitting(trace, es, org, k)
    ensures Proper(trace + es, org, k)
    ensures forall p :: Up(trace + es, p) == Up(trace, p) && Vetted(trace + es, p) == Vetted(trace, p)
  {
    if es == [] {
      assert trace + es == trace;
    } else {
      var init, e := es[..|es| - 1], es[|es| - 1];
      assert es == init + [e];
      hide Proper, Up, Vetted;
      AppendNeutral(trace, init, org, k);
      Append(trace + init, e, org, k);
      assert trace + es == (trace + init) + [e];
    }
  }

  // -------------------------------------------------------------- invariants

  /** A node together with everything that has left it. */
  datatype Session = Session(node: Node, trace: seq<Effect>)

  predicate SamePeer(a: AuthedPeer, cert: DeviceCert) {
    a.userId == cert.claims.userId && a.displayName == cert.claims.displayName && a.role == cert.claims.role
  }

  /** The peer table is what the trace says: the peers announced and not yet gone, each with the
      identity of the certificate that let it in. */
  ghost predicate TableMatches(n: Node, trace: seq<Effect>) {
    && (forall p :: p in n.authed <==> Up(trace, p))
    && (forall p :: p in n.authed <==> Vetted(trace, p).Some?)
    && (forall p :: p in n.authed ==> SamePeer(n.authed[p], Vetted(trace, p).value))
  }

  /** The remembered read-only devices are exactly those of the role table. */
  ghost predicate RolesRemembered(n: Node) {
    n.readOnly == ReadOnlyIn(n.roles)
  }

  ghost predicate Sound(s: Session, k: Crypto) {
    TableMatches(s.node, s.trace) && Proper(s.trace, s.node.org, k)
  }

  /** A broadcast goes through the replicating peers of the table, and a sync tick through all of them, each once, in
      whatever order the map yields them. Every other event can happen at any time. */
  ghost predicate Possible(s: Session, e: Event) {
    match e
    case FlushTick(_, _, peers) =>
      (forall p :: p in peers <==> p in s.node.authed && s.node.authed[p].replicates)
      && forall i, j :: 0 <= i < j < |peers| ==> peers[i] != peers[j]
    case SyncTick(peers) =>
      (forall p :: p in peers <==> p in s.node.authed) && forall i, j :: 0 <= i < j < |peers| ==> peers[i] != peers[j]
    case _ => true
  }

  function Advance(s: Session, e: Event, w: World): Session {
    var out := Handle(s.node, e, w);
    Session(out.node, s.trace + out.effects)
  }

  lemma SameTable(n: Node, n': Node, trace: seq<Effect>, es: seq<Effect>, k: Crypto)
    requires Sound(Session(n, trace), k) && n'.authed == n.authed && n'.org == n.org
    requires Fitting(trace, es, n.org, k)
    ensures Sound(Session(n', trace + es), k)
  {
    hide Proper, Proper1;
    AppendNeutral(trace, es, n.org, k);
  }

  lemma EmptyEffects(trace: seq<Effect>)
    ensures trace + [] == trace
  {
  }

  /** What an admission, announced or not, does to the trace. */
  lemma AdmissionTrace(trace: seq<Effect>, a: Effect, es: seq<Effect>, org: Text, k: Crypto)
    requires Proper(trace, org, k) && a.Admitted? && Proper1(trace, a, org, k)
    requires es == if Up(trace, a.peer) then [a] else [a, Connected(a.peer)]
    ensures Proper(trace + es, org, k)
    ensures forall p :: Up(trace + es, p) == (p == a.peer || Up(trace, p))
    ensures forall p :: Vetted(trace + es, p) == if p == a.peer then Some(a.cert) else Vetted(trace, p)
  {
    var t1 := trace + [a];
    assert t1[..|trace|] == trace;
    Append(trace, a, org, k);
    assert forall p :: Up(t1, p) == Up(trace, p);
    if Up(trace, a.peer) {
      assert trace + es == t1;
    } else {
      Append(t1, Connected(a.peer), org, k);
      var t2 := t1 + [Connected(a.peer)];
      assert t2[..|t1|] == t1 && trace + es == t2;
    }
  }

  /** Admission: the table gains the peer, announced if it is new. */
  lemma AcceptSound(n: Node, trace: seq<Effect>, peer: Text, h: Hello, now: U64, disk: bool, k: Crypto)
    requires Sound(Session(n, trace), k)
    ensures var out := AcceptPeer(n, peer, h, now, disk, k).0; Sound(Session(out.node, trace + out.effects), k)
  {
    AcceptFrame(n, peer, h, now, disk, k);
    var (out, verdict) := AcceptPeer(n, peer, h, now, disk, k);
    if verdict.Accept? {
      hide Proper, AcceptPeer, VerifyCert, Up, Vetted, RoleTable;
      AdmissionTrace(trace, out.effects[0], out.effects, n.org, k);
    } else {
      EmptyEffects(trace);
    }
  }

  /** What `accept_peer` changes and says. */
  lemma AcceptFrame(n: Node, peer: Text, h: Hello, now: U64, disk: bool, k: Crypto)
    ensures var (out, verdict) := AcceptPeer(n, peer, h, now, disk, k);
            && out.node.org == n.org && out.node.db == n.db
            && out.node.replicate == n.replicate && out.node.deny == n.deny
            && out.node.crl == MergeCrl(n.crl, h.crl, n.org, k)
            && (verdict.Refuse? ==> out.effects == [] && out.node.authed == n.authed)
            && (verdict.Accept? ==>
                  && VerifyCert(h.cert, n.org, Some(peer), Some(out.node.crl), now, k) == Accept
                  && out.effects == (if peer in n.authed then [Admitted(peer, h.cert, out.node.crl, now)]
                                     else [Admitted(peer, h.cert, out.node.crl, now), Connected(peer)])
                  && peer in out.node.authed && SamePeer(out.node.authed[peer], h.cert)
                  && out.node.authed == n.authed[peer := out.node.authed[peer]])
  {
    hide VerifyCert, MergeCrl;
  }

  lemma ClosedSound(n: Node, trace: seq<Effect>, peer: Text, remaining: nat, k: Crypto)
    requires Sound(Session(n, trace), k)
    ensures var out := OnClosed(n, peer, remaining); Sound(Session(out.node, trace + out.effects), k)
  {
    var out := OnClosed(n, peer, remaining);
    if out.effects == [] {
      EmptyEffects(trace);
    } else {
      Append(trace, Disconnected(peer), n.org, k);
      assert (trace + [Disconnected(peer)])[..|trace|] == trace;
    }
  }

  lemma RestartSound(n: Node, trace: seq<Effect>, found: seq<RowKey>, k: Crypto)
    requires Sound(Session(n, trace), k)
    ensures Sound(Session(Restarting(n, found), trace + [Restarted]), k)
  {
    Append(trace, Restarted, n.org, k);
    assert (trace + [Restarted])[..|trace|] == trace;
  }

  /** Applying records, from whomever. */
  lemma ApplySound(n: Node, trace: seq<Effect>, peer: Text, changes: seq<ChangeRecord>, clock: Clockwork,
                   valid: ChangeRecord -> bool, k: Crypto)
    requires Sound(Session(n, trace), k)
    ensures var out := Apply(n, peer, changes, clock, valid);
            && Sound(Session(out.node, trace + out.effects), k) && out.node.authed == n.authed && out.node.org == n.org
            && (forall p :: Up(trace + out.effects, p) == Up(trace, p))
  {
    hide ApplyRemote, Proper;
    var out := Apply(n, peer, changes, clock, valid);
    if out.effects == [] {
      EmptyEffects(trace);
    } else {
      hide Up, Vetted;
      Append(trace, out.effects[0], n.org, k);
      assert out.effects == [out.effects[0]];
    }
  }

  // -------------------------------------------------------------- every event

  lemma RequestIsProper(n: Node, trace: seq<Effect>, peer: Text, k: Crypto)
    requires Sound(Session(n, trace), k)
    ensures Fitting(trace, RequestSync(n, peer), n.org, k)
  {
    hide Proper;
  }

  lemma {:induction false} SyncAllIsProper(n: Node, trace: seq<Effect>, peers: seq<Text>, m: nat, k: Crypto)
    requires m <= |peers| && Sound(Session(n, trace), k)
    ensures Fitting(trace, SyncAll(n, peers, m), n.org, k)
  {
    if m > 0 {
      hide Sound, Fitting, RequestSync;
      SyncAllIsProper(n, trace, peers, m - 1, k);
      RequestIsProper(n, trace, peers[m - 1], k);
      FittingConcat(trace, SyncAll(n, peers, m - 1), RequestSync(n, peers[m - 1]), n.org, k);
    }
  }

  lemma PushIsProper(n: Node, trace: seq<Effect>, peer: Text, chunk: seq<ChangeRecord>, k: Crypto)
    requires Sound(Session(n, trace), k) && peer in n.authed
    ensures Fitting(trace, [SendPush(peer, chunk)], n.org, k)
  {
    hide Proper, Vetted;
  }

  lemma {:induction false} PushToIsProper(n: Node, trace: seq<Effect>, peers: seq<Text>, m: nat,
                                          chunk: seq<ChangeRecord>, k: Crypto)
    requires m <= |peers| && Sound(Session(n, trace), k) && forall p :: p in peers ==> p in n.authed
    ensures Fitting(trace, PushTo(peers, m, chunk), n.org, k)
  {
    if m > 0 {
      PushToIsProper(n, trace, peers, m - 1, chunk, k);
      PushIsProper(n, trace, peers[m - 1], chunk, k);
      hide Sound, Fitting;
      FittingConcat(trace, PushTo(peers, m - 1, chunk), [SendPush(peers[m - 1], chunk)], n.org, k);
    }
  }

  lemma GossipIsProper(trace: seq<Effect>, chunk: seq<ChangeRecord>, org: Text, k: Crypto)
    ensures Fitting(trace, [Gossip(chunk)], org, k)
  {
  }

  lemma ChunkIsProper(n: Node, trace: seq<Effect>, peers: seq<Text>, chunk: seq<ChangeRecord>, k: Crypto)
    requires Sound(Session(n, trace), k) && forall p :: p in peers ==> p in n.authed
    ensures Fitting(trace, PushTo(peers, |peers|, chunk) + [Gossip(chunk)], n.org, k)
  {
    hide Sound, Fitting, PushTo;
    PushToIsProper(n, trace, peers, |peers|, chunk, k);
    GossipIsProper(trace, chunk, n.org, k);
    FittingConcat(trace, PushTo(peers, |peers|, chunk), [Gossip(chunk)], n.org, k);
  }

  lemma {:induction false} BroadcastIsProper(n: Node, trace: seq<Effect>, peers: seq<Text>,
                                             chunks: seq<seq<ChangeRecord>>, m: nat, k: Crypto)
    requires m <= |chunks| && Sound(Session(n, trace), k) && forall p :: p in peers ==> p in n.authed
    ensures Fitting(trace, Broadcast(peers, chunks, m), n.org, k)
  {
    hide Sound, Fitting, PushTo;
    if m == 0 {
      NothingFits(trace, n.org, k);
    } else {
      BroadcastIsProper(n, trace, peers, chunks, m - 1, k);
      ChunkIsProper(n, trace, peers, chunks[m - 1], k);
      FittingConcat(trace, Broadcast(peers, chunks, m - 1),
                    PushTo(peers, |peers|, chunks[m - 1]) + [Gossip(chunks[m - 1])], n.org, k);
    }
  }

  lemma NothingFits(trace: seq<Effect>, org: Text, k: Crypto)
    ensures Fitting(trace, [], org, k)
  {
  }

  lemma AssocTrace(a: seq<Effect>, b: seq<Effect>, c: seq<Effect>)
    ensures a + (b + c) == (a + b) + c
  {
  }

  lemma HelloRequestSound(n: Node, trace: seq<Effect>, peer: Text, h: Hello, now: U64, disk: bool, k: Crypto)
    requires Sound(Session(n, trace), k)
    ensures var out := OnHelloRequest(n, peer, h, now, disk, k); Sound(Session(out.node, trace + out.effects), k)
  {
    hide Sound, AcceptPeer, VerifyCert;
    if h.proto != PROTOCOL_VERSION {
      SameTable(n, Refuse1(n, peer, Version).node, trace, [Respond(peer, Denied)], k);
    } else {
      var (out, verdict) := AcceptPeer(n, peer, h, now, disk, k);
      AcceptSound(n, trace, peer, h, now, disk, k);
      if verdict.Accept? {
        SameTable(out.node, out.node, trace + out.effects, [Respond(peer, Welcome)], k);
        AssocTrace(trace, out.effects, [Respond(peer, Welcome)]);
      } else {
        SameTable(out.node, Refuse1(out.node, peer, Cert(verdict.why)).node, trace + out.effects, [Respond(peer,
          Denied)], k);
        AssocTrace(trace, out.effects, [Respond(peer, Denied)]);
      }
    }
  }

  lemma HelloResponseSound(n: Node, trace: seq<Effect>, peer: Text, h: Hello, now: U64, disk: bool, k: Crypto)
    requires Sound(Session(n, trace), k)
    ensures var out := OnHelloResponse(n, peer, h, now, disk, k); Sound(Session(out.node, trace + out.effects), k)
  {
    hide Sound, AcceptPeer, VerifyCert, RequestSync;
    if h.proto != PROTOCOL_VERSION {
      SameTable(n, n, trace, [Rejected(peer), HangUp(peer)], k);
    } else {
      var (out, verdict) := AcceptPeer(n, peer, h, now, disk, k);
      AcceptSound(n, trace, peer, h, now, disk, k);
      var t1 := trace + out.effects;
      var more := if verdict.Accept? then RequestSync(out.node, peer) else [Rejected(peer), HangUp(peer)];
      RequestIsProper(out.node, t1, peer, k);
      SameTable(out.node, out.node, t1, more, k);
      AssocTrace(trace, out.effects, more);
    }
  }

  lemma PushRequestSound(n: Node, trace: seq<Effect>, peer: Text, changes: seq<ChangeRecord>, clock: Clockwork,
                         w: World)
    requires Sound(Session(n, trace), w.k)
    ensures var out := OnPushRequest(n, peer, changes, clock, w); Sound(Session(out.node, trace + out.effects), w.k)
  {
    hide Proper, Up, Vetted, Apply;
    if peer !in n.authed {
      SameTable(n, n, trace, [Respond(peer, Denied)], w.k);
    } else if !n.replicate {
      SameTable(n, n, trace, [Respond(peer, Pushed(0, 0))], w.k);
    } else {
      ApplySound(n, trace, peer, changes, clock, w.valid, w.k);
      var out, end := Apply(n, peer, changes, clock, w.valid), OnPushRequest(n, peer, changes, clock, w);
      var reply := end.effects[|out.effects|];
      assert end.effects == out.effects + [reply];
      SameTable(out.node, out.node, trace + out.effects, [reply], w.k);
      AssocTrace(trace, out.effects, [reply]);
    }
  }

  lemma SyncResponseSound(n: Node, trace: seq<Effect>, peer: Text, changes: seq<ChangeRecord>, hasMore: bool,
                          clock: Clockwork, w: World)
    requires Sound(Session(n, trace), w.k)
    ensures var out := OnSyncResponse(n, peer, changes, hasMore, clock, w); Sound(Session(out.node,
            trace + out.effects), w.k)
  {
    hide Proper, Up, Vetted, Apply, TableMatches, RequestSync;
    if changes == [] {
      EmptyEffects(trace);
    } else {
      ApplySound(n, trace, peer, changes, clock, w.valid, w.k);
    }
    var out := if changes == [] then Out(n, []) else Apply(n, peer, changes, clock, w.valid);
    var more := if hasMore then RequestSync(out.node, peer) else [];
    RequestIsProper(out.node, trace + out.effects, peer, w.k);
    SameTable(out.node, out.node, trace + out.effects, more, w.k);
    AssocTrace(trace, out.effects, more);
  }

  lemma FlushTickSound(n: Node, trace: seq<Effect>, clock: Clockwork, marked: bool, peers: seq<Text>, w: World)
    requires Sound(Session(n, trace), w.k) && forall p :: p in peers ==> p in n.authed
    ensures var out := OnFlushTick(n, clock, marked, peers, w); Sound(Session(out.node, trace + out.effects), w.k)
  {
    hide Sound, Outbox.Push, Broadcast, Outbox.Flatten;
    var out := OnFlushTick(n, clock, marked, peers, w);
    if n.replicate {
      var chunks := Outbox.Push(Outbox.Outgoing(n.db, []), clock, marked, w.sign).chunks;
      BroadcastIsProper(n, trace, peers, chunks, |chunks|, w.k);
    }
    SameTable(n, out.node, trace, out.effects, w.k);
  }

  lemma ServedIsProper(n: Node, trace: seq<Effect>, peer: Text, vv: VersionVector, limit: nat, k: Crypto)
    requires Sound(Session(n, trace), k)
    ensures Proper1(trace, Respond(peer, OnSyncRequest(n, peer, vv, limit)), n.org, k)
  {
    hide Proper, ChangesSince;
  }

  /** Every event keeps the peer table in step with the trace and the trace proper. */
  lemma EventSound(s: Session, e: Event, w: World)
    requires Sound(s, w.k) && Possible(s, e)
    ensures Sound(Advance(s, e, w), w.k)
  {
    hide OnHelloRequest, OnHelloResponse, OnPushRequest, OnSyncResponse, OnClosed, OnFlushTick, Apply, Restarting,
      Proper, VerifyCert;
    var n, trace := s.node, s.trace;
    match e
    case Opened(peer) => SameTable(n, Handle(n, e, w).node, trace, Handle(n, e, w).effects, w.k);
    case Closed(peer, remaining) => ClosedSound(n, trace, peer, remaining, w.k);
    case HelloRequest(peer, h, now, disk) => HelloRequestSound(n, trace, peer, h, now, disk, w.k);
    case SyncRequest(peer, vv, limit) =>
      ServedIsProper(n, trace, peer, vv, limit, w.k);
      hide Sound, OnSyncRequest;
      SameTable(n, n, trace, Handle(n, e, w).effects, w.k);
    case PushRequest(peer, changes, clock) => PushRequestSound(n, trace, peer, changes, clock, w);
    case HelloResponse(peer, h, now, disk) => HelloResponseSound(n, trace, peer, h, now, disk, w.k);
    case SyncResponse(peer, changes, hasMore, clock) => SyncResponseSound(n, trace, peer, changes, hasMore, clock, w);
    case PushResponse(peer) => EmptyEffects(trace);
    case DeniedResponse(peer) => SameTable(n, n, trace, [Rejected(peer), HangUp(peer)], w.k);
    case ResponseSent(peer) => SameTable(n, Handle(n, e, w).node, trace, Handle(n, e, w).effects, w.k);
    case GossipIn(source, payload, clock) =>
      if source in n.authed && n.replicate && payload.Some? {
        ApplySound(n, trace, source, payload.value, clock, w.valid, w.k);
      } else {
        EmptyEffects(trace);
      }
    case FlushTick(clock, marked, peers) => FlushTickSound(n, trace, clock, marked, peers, w);
    case SyncTick(peers) =>
      SyncAllIsProper(n, trace, peers, |peers|, w.k);
      hide Sound, SyncAll;
      SameTable(n, n, trace, Handle(n, e, w).effects, w.k);
    case Restart(found) => RestartSound(n, trace, found, w.k);
  }

  // --------------------------------------------------------------------- runs

  function RunEvents(s: Session, es: seq<Event>, n: nat, w: World): Session
    requires n <= |es|
  {
    if n == 0 then s else Advance(RunEvents(s, es, n - 1, w), es[n - 1], w)
  }

  ghost predicate PossibleRun(s: Session, es: seq<Event>, n: nat, w: World)
    requires n <= |es|
  {
    forall i :: 0 <= i < n ==> Possible(RunEvents(s, es, i, w), es[i])
  }

  /** A node that has just started: nobody is connected, nothing has been sent. */
  predicate JustStarted(s: Session) {
    s.trace == [] && s.node.authed == map[]
  }

  lemma StartIsSound(s: Session, k: Crypto)
    requires JustStarted(s)
    ensures Sound(s, k)
  {
  }

  lemma PossibleRunEnds(s: Session, es: seq<Event>, n: nat, w: World)
    requires 0 < n <= |es| && PossibleRun(s, es, n, w)
    ensures PossibleRun(s, es, n - 1, w) && Possible(RunEvents(s, es, n - 1, w), es[n - 1])
  {
    hide RunEvents, Possible;
  }

  /** Over any run, restarts included: the peers in the table are exactly those announced and not yet
      gone, each under the certificate that last passed verification; connected and disconnected
      alternate; pages, pulls and pushes go only to such peers. */
  lemma {:induction false} RunIsSound(s: Session, es: seq<Event>, n: nat, w: World)
    requires n <= |es| && JustStarted(s) && PossibleRun(s, es, n, w)
    ensures Sound(RunEvents(s, es, n, w), w.k)
  {
    hide Sound, Advance, Possible, PossibleRun, JustStarted;
    if n == 0 {
      StartIsSound(s, w.k);
    } else {
      PossibleRunEnds(s, es, n, w);
      RunIsSound(s, es, n - 1, w);
      EventSound(RunEvents(s, es, n - 1, w), es[n - 1], w);
    }
  }

  /** A peer's standing rests on a certificate that passed every check. */
  lemma {:induction false} VettedPassed(trace: seq<Effect>, p: Text, org: Text,
                                        k: Crypto) returns (list: RevocationList, now: U64)
    requires Proper(trace, org, k) && Vetted(trace, p).Some?
    ensures VerifyCert(Vetted(trace, p).value, org, Some(p), Some(list), now, k) == Accept
  {
    var e := trace[|trace| - 1];
    if e.Admitted? && e.peer == p {
      list, now := e.list, e.now;
    } else {
      list, now := VettedPassed(trace[..|trace| - 1], p, org, k);
    }
  }

  /** Over any run, every peer in the table holds a certificate that the organisation issued to it. */
  lemma PeersHoldIssuedCerts(s: Session, es: seq<Event>, n: nat, w: World, signed: set<Statement>, p: Text)
    requires n <= |es| && JustStarted(s) && PossibleRun(s, es, n, w)
    requires p in RunEvents(s, es, n, w).node.authed && Unforgeable(RunEvents(s, es, n, w).node.org, w.k, signed)
    ensures var end := RunEvents(s, es, n, w);
            && Vetted(end.trace, p).Some?
            && var claims := Vetted(end.trace, p).value.claims;
               && w.k.peerOf(claims.devicePub) == Some(p) && end.node.authed[p].role == claims.role
               && (Fits(OfCert(claims)) ==> OfCert(claims) in signed)
  {
    RunIsSound(s, es, n, w);
    var end := RunEvents(s, es, n, w);
    hide RunEvents, PossibleRun, Unforgeable, Up;
    assert SamePeer(end.node.authed[p], Vetted(end.trace, p).value);
    var list, now := VettedPassed(end.trace, p, end.node.org, w.k);
    var c := Vetted(end.trace, p).value;
    if Fits(OfCert(c.claims)) {
      CertWasIssued(c, end.node.org, w.k, signed);
    }
  }

  /** The number of times `p` was announced minus the number of times it was reported gone. */
  function Balance(trace: seq<Effect>, p: Text): int {
    if trace == [] then 0
    else
      var e := trace[|trace| - 1];
      Balance(trace[..|trace| - 1], p) + (if e == Connected(p) then 1 else if e == Disconnected(p) then -1 else 0)
  }

  /** Within one process the announcements of a peer alternate: never two in a row, never a departure
      first. */
  lemma {:induction false} AnnouncementsAlternate(trace: seq<Effect>, p: Text, org: Text, k: Crypto)
    requires Proper(trace, org, k) && Restarted !in trace
    ensures Balance(trace, p) == if Up(trace, p) then 1 else 0
  {
    if trace != [] {
      var init := trace[..|trace| - 1];
      assert trace == init + [trace[|trace| - 1]];
      AnnouncementsAlternate(init, p, org, k);
    }
  }

  // ----------------------------------------------------------------- filters

  /** Whatever the route, no record by a device known to be read-only is stored. */
  lemma ReadOnlyAuthorsStayOut(n: Node, e: Event, w: World, r: ChangeRecord)
    requires !e.FlushTick? && r !in n.db.log && r in Handle(n, e, w).node.db.log
    ensures r.origin !in n.readOnly
  {
    hide MergeCrl, VerifyCert, ApplyRemote, ChangesSince, RequestSync, SyncAll, Database.Rejected;
    match e
    case HelloRequest(peer, h, now, disk) => AcceptFrame(n, peer, h, now, disk, w.k);
    case HelloResponse(peer, h, now, disk) => AcceptFrame(n, peer, h, now, disk, w.k);
    case PushRequest(peer, changes, clock) => AppliedAreKept(n, changes, clock, w.valid, r);
    case SyncResponse(peer, changes, hasMore, clock) => AppliedAreKept(n, changes, clock, w.valid, r);
    case GossipIn(source, payload, clock) =>
      if payload.Some? {
        AppliedAreKept(n, payload.value, clock, w.valid, r);
      }
    case _ =>
  }

  lemma AppliedAreKept(n: Node, changes: seq<ChangeRecord>, clock: Clockwork, valid: ChangeRecord -> bool,
                       r: ChangeRecord)
    requires r !in n.db.log
    ensures r in ApplyRemote(n.db, Network.Kept(changes, n.readOnly), clock, valid).log ==> r.origin !in n.readOnly
  {
    Convergence.AppliedComeFromBatch(n.db, Network.Kept(changes, n.readOnly), clock, valid, r);
  }

  // ------------------------------------------------- whose records are taken in

  /** The records of an event that the node goes on to apply. A Sync response is applied whoever sent it and
      whatever it answers; everything else is applied from admitted peers, by replicating nodes. */
  function Handed(n: Node, e: Event): seq<ChangeRecord> {
    match e
    case PushRequest(peer, changes, _) => if peer in n.authed && n.replicate then changes else []
    case GossipIn(source, payload, _) =>
      if source in n.authed && n.replicate && payload.Some? then payload.value else []
    case SyncResponse(_, changes, _, _) => changes
    case _ => []
  }

  /** Some of them pass the author filter and every check, and are not held yet. */
  predicate Brings(n: Node, e: Event, w: World) {
    exists r :: r in Accepted(Network.Kept(Handed(n, e), n.readOnly), w.valid) && !Held(n.db.log, StampOf(r))
  }

  /** A batch makes the log longer exactly if it brings news, and only by records it brought. */
  lemma ApplyStoresIff(st: Replica, batch: seq<ChangeRecord>, clock: Clockwork, valid: ChangeRecord -> bool)
    ensures var st' := ApplyRemote(st, batch, clock, valid);
            && st.log <= st'.log
            && (st'.log != st.log <==> exists r :: r in Accepted(batch, valid) && !Held(st.log, StampOf(r)))
            && forall r :: r in st'.log ==> r in st.log || r in Accepted(batch, valid)
  {
    var acc := Accepted(batch, valid);
    if acc != [] {
      SortSorts(acc);
      ReceiveStoresIff(st, SortByStamp(acc), |acc|, clock);
      hide Accepted, SortByStamp, MaterializeAll, DirtyRows, ReceiveAll;
    }
  }

  lemma {:induction false} ReceiveStoresIff(st: Replica, recs: seq<ChangeRecord>, n: nat, clock: Clockwork)
    requires n <= |recs|
    ensures var st' := ReceiveAll(st, recs, n, clock);
            && st.log <= st'.log
            && (st'.log != st.log <==> exists i :: 0 <= i < n && !Held(st.log, StampOf(recs[i])))
            && forall r :: r in st'.log ==> r in st.log || r in recs
  {
    hide Receive, Held;
    if n > 0 {
      ReceiveStoresIff(st, recs, n - 1, clock);
      var p := ReceiveAll(st, recs, n - 1, clock);
      ReceiveOne(p, recs[n - 1], clock(|p.log| - |st.log|));
      assert !Held(st.log, StampOf(recs[n - 1])) ==> exists i :: 0 <= i < n && !Held(st.log, StampOf(recs[i]));
    }
  }

  lemma ReceiveOne(p: Replica, rec: ChangeRecord, phys: U64)
    ensures Receive(p, rec, phys).log == if Held(p.log, StampOf(rec)) then p.log else p.log + [rec]
  {
    hide Held;
  }

  function ClockOf(e: Event): Clockwork {
    match e
    case PushRequest(_, _, clock) => clock
    case SyncResponse(_, _, _, clock) => clock
    case GossipIn(_, _, clock) => clock
    case _ => (i: nat) => 0
  }

  /** An event other than a flush makes the log what applying the handed records makes it. */
  lemma HandedIsApplied(n: Node, e: Event, w: World)
    requires !e.FlushTick?
    ensures Handle(n, e, w).node.db.log ==
            ApplyRemote(n.db, Network.Kept(Handed(n, e), n.readOnly), ClockOf(e), w.valid).log
  {
    NothingApplied(n.db, n.readOnly, ClockOf(e), w.valid);
    hide ApplyRemote, Network.Kept, ChangesSince, SyncAll, Database.Rejected, RequestSync;
    if e.HelloRequest? || e.HelloResponse? {
      HelloTells(n, e.peer, e.hello, e.now, e.disk, w.k);
      hide OnHelloRequest, OnHelloResponse;
    }
  }

  lemma NothingApplied(st: Replica, readOnly: set<Text>, clock: Clockwork, valid: ChangeRecord -> bool)
    ensures ApplyRemote(st, Network.Kept([], readOnly), clock, valid) == st
  {
    assert Network.Kept([], readOnly) == [] && Accepted([], valid) == [];
  }

  /** What one event, other than a flush of the device's own edits, does to the log. */
  lemma StoresIff(n: Node, e: Event, w: World)
    requires !e.FlushTick?
    ensures var out := Handle(n, e, w);
            && n.db.log <= out.node.db.log && (out.node.db.log != n.db.log <==> Brings(n, e, w))
            && forall r :: r in out.node.db.log ==>
                 r in n.db.log || r in Accepted(Network.Kept(Handed(n, e), n.readOnly), w.valid)
  {
    hide Handle, ApplyRemote, Handed, Network.Kept, Accepted, Held;
    HandedIsApplied(n, e, w);
    ApplyStoresIff(n.db, Network.Kept(Handed(n, e), n.readOnly), ClockOf(e), w.valid);
  }

  function Sender(e: Event): Option<Text> {
    match e
    case PushRequest(peer, _, _) => Some(peer)
    case SyncResponse(peer, _, _, _) => Some(peer)
    case GossipIn(source, _, _) => Some(source)
    case _ => None
  }

  /** Records handed over by a peer that has not been admitted are stored in one case only: a Sync response
      that brings news. Nothing checks who sent it. */
  predicate Unadmitted(n: Node, e: Event, w: World) {
    e.SyncResponse? && e.peer !in n.authed && Brings(n, e, w)
  }

  lemma UnadmittedStoresIff(n: Node, e: Event, w: World)
    requires !e.FlushTick?
    ensures Handle(n, e, w).node.db.log != n.db.log && Sender(e).Some? && Sender(e).value !in n.authed
            <==> Unadmitted(n, e, w)
  {
    StoresIff(n, e, w);
    hide Handle, Accepted, Network.Kept;
  }

  /** A Synced announcement comes first among the effects of an event, and exactly if records were stored. */
  ghost predicate TellsOfStoring(n: Node, e: Event, out: Out) {
    if !e.FlushTick? && out.node.db.log != n.db.log then
      && out.effects != [] && out.effects[0].Synced? && Sender(e) == Some(out.effects[0].peer)
      && (forall i :: 0 < i < |out.effects| ==> !out.effects[i].Synced?)
    else forall a :: a in out.effects ==> !a.Synced?
  }

  lemma ApplyTells(n: Node, peer: Text, changes: seq<ChangeRecord>, clock: Clockwork, valid: ChangeRecord -> bool)
    ensures var out := Apply(n, peer, changes, clock, valid);
            if out.node.db.log != n.db.log then
              |out.effects| == 1 && out.effects[0].Synced? && out.effects[0].peer == peer
            else out.effects == []
  {
    ApplyStoresIff(n.db, Network.Kept(changes, n.readOnly), clock, valid);
    hide ApplyRemote, Accepted, Network.Kept;
  }

  lemma EventTells(n: Node, e: Event, w: World)
    ensures TellsOfStoring(n, e, Handle(n, e, w))
  {
    hide ApplyRemote, ChangesSince, Outbox.Push, Outbox.Flatten, Database.Rejected, Network.Kept, Broadcast, SyncAll;
    hide OnHelloRequest, OnHelloResponse, Apply, Adopt, OwnMaximum;
    match e
    case PushRequest(peer, changes, clock) =>
      ApplyTells(n, peer, changes, clock, w.valid);
    case SyncResponse(peer, changes, hasMore, clock) =>
      ApplyTells(n, peer, changes, clock, w.valid);
    case GossipIn(source, payload, clock) =>
      if payload.Some? {
        ApplyTells(n, source, payload.value, clock, w.valid);
      }
    case SyncTick(peers) => SyncAllAsks(n, peers, |peers|);
    case FlushTick(clock, marked, peers) =>
      var chunks := Outbox.Push(Outbox.Outgoing(n.db, []), clock, marked, w.sign).chunks;
      BroadcastSends(peers, chunks, |chunks|);
    case HelloRequest(peer, h, now, disk) => HelloTells(n, peer, h, now, disk, w.k);
    case HelloResponse(peer, h, now, disk) => HelloTells(n, peer, h, now, disk, w.k);
    case _ =>
  }

  lemma HelloTells(n: Node, peer: Text, h: Hello, now: U64, disk: bool, k: Crypto)
    ensures var a, b := OnHelloRequest(n, peer, h, now, disk, k), OnHelloResponse(n, peer, h, now, disk, k);
            && a.node.db == n.db && b.node.db == n.db
            && (forall e :: e in a.effects ==> !e.Synced?) && (forall e :: e in b.effects ==> !e.Synced?)
  {
    AcceptFrame(n, peer, h, now, disk, k);
    hide AcceptPeer, MergeCrl, VerifyCert;
    var (out, verdict) := AcceptPeer(n, peer, h, now, disk, k);
    assert forall e :: e in out.effects ==> e.Admitted? || e.Connected?;
  }

  /** Records were only ever stored from peers that were announced and not yet gone. */
  ghost predicate StoredFromAnnounced(trace: seq<Effect>) {
    forall i :: 0 <= i < |trace| && trace[i].Synced? ==> Up(trace[..i], trace[i].peer)
  }

  lemma AnnouncedAppend(trace: seq<Effect>, fx: seq<Effect>)
    requires forall i :: 0 < i < |fx| ==> !fx[i].Synced?
    ensures StoredFromAnnounced(trace + fx) <==>
            StoredFromAnnounced(trace) && (fx != [] && fx[0].Synced? ==> Up(trace, fx[0].peer))
  {
    hide Up;
    var all := trace + fx;
    forall i | 0 <= i <= |trace|
      ensures all[..i] == trace[..i]
    {
    }
    assert trace[..|trace|] == trace;
    forall i | 0 <= i < |trace|
      ensures all[i] == trace[i]
    {
    }
    if fx != [] {
      assert all[|trace|] == fx[0];
    }
  }

  /** Over any run, restarts included, records are taken in from announced peers only, exactly if no peer that
      was not admitted sent a Sync response with news. */
  lemma {:induction false} StoredFromAnnouncedIff(s: Session, es: seq<Event>, n: nat, w: World)
    requires n <= |es| && JustStarted(s) && PossibleRun(s, es, n, w)
    ensures StoredFromAnnounced(RunEvents(s, es, n, w).trace) <==>
            forall i :: 0 <= i < n ==> !Unadmitted(RunEvents(s, es, i, w).node, es[i], w)
  {
    hide Handle, Unadmitted, Possible, Proper, Up, StoredFromAnnounced;
    if n == 0 {
      NothingStoredYet();
    } else {
      StoredFromAnnouncedIff(s, es, n - 1, w);
      PossibleRunEnds(s, es, n, w);
      RunIsSound(s, es, n - 1, w);
      EventStoresFromAnnounced(RunEvents(s, es, n - 1, w), es[n - 1], w);
    }
  }

  lemma NothingStoredYet()
    ensures StoredFromAnnounced([])
  {
  }

  lemma EventStoresFromAnnounced(s: Session, e: Event, w: World)
    requires Sound(s, w.k)
    ensures StoredFromAnnounced(Advance(s, e, w).trace) <==>
            StoredFromAnnounced(s.trace) && !Unadmitted(s.node, e, w)
  {
    EventTells(s.node, e, w);
    if !e.FlushTick? {
      UnadmittedStoresIff(s.node, e, w);
    }
    hide Handle, Brings, Proper, Up, Vetted, StoredFromAnnounced;
    AnnouncedAppend(s.trace, Handle(s.node, e, w).effects);
  }

  // --------------------------------------------------------- remembered roles

  /** The database takes every write of the event. */
  predicate DiskOk(e: Event) {
    (e.HelloRequest? || e.HelloResponse?) ==> e.disk
  }

  /** The certificate with which `p` was last let in, in this process or an earlier one. */
  function LastCert(trace: seq<Effect>, p: Text): Option<DeviceCert> {
    if trace == [] then None
    else
      var e := trace[|trace| - 1];
      if e.Admitted? && e.peer == p then Some(e.cert) else LastCert(trace[..|trace| - 1], p)
  }

  function LastRole(trace: seq<Effect>, p: Text): Option<Role> {
    var c := LastCert(trace, p);
    if c.Some? then Some(c.value.claims.role) else None
  }

  /** The read-only set, the role table and the history of admissions agree. */
  ghost predicate Remembers(s: Session) {
    RolesRemembered(s.node) && forall p :: Get(s.node.roles, p) == LastRole(s.trace, p)
  }

  /** Effects other than an admission of `p` leave its last certificate alone. */
  lemma {:induction false} NoAdmissionNoCert(trace: seq<Effect>, es: seq<Effect>, p: Text)
    requires forall e :: e in es && e.Admitted? ==> e.peer != p
    ensures LastCert(trace + es, p) == LastCert(trace, p)
  {
    if es == [] {
      assert trace + es == trace;
    } else {
      var init := es[..|es| - 1];
      assert (trace + es)[..|trace + es| - 1] == trace + init;
      NoAdmissionNoCert(trace, init, p);
    }
  }

  /** After an admission of `p`, its last certificate is one of the stretch. */
  lemma {:induction false} AdmissionIsLast(trace: seq<Effect>, es: seq<Effect>, p: Text)
    requires exists e :: e in es && e.Admitted? && e.peer == p
    ensures exists e :: e in es && e.Admitted? && e.peer == p && LastCert(trace + es, p) == Some(e.cert)
  {
    var init, last := es[..|es| - 1], es[|es| - 1];
    assert es == init + [last];
    assert (trace + es)[..|trace + es| - 1] == trace + init;
    if !(last.Admitted? && last.peer == p) {
      AdmissionIsLast(trace, init, p);
    }
  }

  /** What a Hello of either direction leaves in the tables and the trace. */
  lemma AcceptRemembers(n: Node, trace: seq<Effect>, peer: Text, h: Hello, now: U64, disk: bool, k: Crypto,
                        rest: seq<Effect>)
    requires Remembers(Session(n, trace)) && disk && forall e :: e in rest ==> !e.Admitted?
    ensures var out := AcceptPeer(n, peer, h, now, disk, k).0;
            Remembers(Session(out.node, trace + (out.effects + rest)))
  {
    hide VerifyCert, MergeCrl;
    var (out, verdict) := AcceptPeer(n, peer, h, now, disk, k);
    var s' := Session(out.node, trace + (out.effects + rest));
    if verdict.Refuse? {
      assert out.effects + rest == rest;
      forall p
        ensures Get(s'.node.roles, p) == LastRole(s'.trace, p)
      {
        NoAdmissionNoCert(trace, rest, p);
      }
    } else {
      AdmissionRemembers(n, out.node, trace, out.effects, peer, h.cert, rest);
    }
  }

  lemma AdmissionRemembers(n: Node, n': Node, trace: seq<Effect>, es: seq<Effect>, peer: Text, cert: DeviceCert,
                           rest: seq<Effect>)
    requires Remembers(Session(n, trace)) && forall e :: e in rest ==> !e.Admitted?
    requires es != [] && es[0].Admitted? && es[0].peer == peer && es[0].cert == cert &&
             (es[1..] == [] || es[1..] == [Connected(peer)])
    requires n'.roles == n.roles[peer := cert.claims.role]
    requires n'.readOnly == if MayWrite(cert.claims.role) then n.readOnly - {peer} else n.readOnly + {peer}
    ensures Remembers(Session(n', trace + (es + rest)))
  {
    var t1, tail := trace + [es[0]], es[1..] + rest;
    assert trace + (es + rest) == t1 + tail;
    assert t1[..|trace|] == trace;
    forall p
      ensures Get(n'.roles, p) == LastRole(t1 + tail, p)
    {
      NoAdmissionNoCert(t1, tail, p);
      assert LastCert(t1, p) == if p == peer then Some(cert) else LastCert(trace, p);
      assert Get(n.roles, p) == LastRole(trace, p);
    }
    assert n'.readOnly == ReadOnlyIn(n'.roles);
  }

  /** Events that carry records or ask for them. */
  predicate DataEvent(e: Event) {
    e.SyncRequest? || e.PushRequest? || e.SyncResponse? || e.GossipIn? || e.FlushTick? || e.SyncTick?
  }

  /** They change the replica only, and admit nobody. */
  lemma DataEventFrame(n: Node, e: Event, w: World)
    requires DataEvent(e)
    ensures var out := Handle(n, e, w);
            && out.node == n.(db := out.node.db) && forall x :: x in out.effects ==> !x.Admitted?
  {
    hide ApplyRemote, ChangesSince, Outbox.Push, Outbox.Flatten, Database.Rejected, Network.Kept, Broadcast, SyncAll;
    match e
    case SyncTick(peers) => SyncAllAsks(n, peers, |peers|);
    case FlushTick(clock, marked, peers) =>
      var chunks := Outbox.Push(Outbox.Outgoing(n.db, []), clock, marked, w.sign).chunks;
      BroadcastSends(peers, chunks, |chunks|);
    case _ =>
  }

  /** An event other than a Hello and a restart touches no role. */
  lemma RolesUntouched(n: Node, e: Event, w: World)
    requires !e.HelloRequest? && !e.HelloResponse? && !e.Restart?
    ensures var out := Handle(n, e, w);
            && out.node.roles == n.roles && out.node.readOnly == n.readOnly && out.node.crl == n.crl
            && out.node.savedCrl == n.savedCrl && out.node.org == n.org
            && (forall x :: x in out.effects ==> !x.Admitted?)
  {
    if DataEvent(e) {
      hide Handle;
      DataEventFrame(n, e, w);
    }
  }

  lemma {:induction false} SyncAllAsks(n: Node, peers: seq<Text>, m: nat)
    requires m <= |peers|
    ensures forall e :: e in SyncAll(n, peers, m) ==> e.AskFor? && n.replicate
  {
    if m > 0 {
      SyncAllAsks(n, peers, m - 1);
    }
  }

  lemma {:induction false} PushToSends(peers: seq<Text>, m: nat, chunk: seq<ChangeRecord>)
    requires m <= |peers|
    ensures forall e :: e in PushTo(peers, m, chunk) ==> e.SendPush?
  {
    if m > 0 {
      PushToSends(peers, m - 1, chunk);
    }
  }

  lemma {:induction false} BroadcastSends(peers: seq<Text>, chunks: seq<seq<ChangeRecord>>, m: nat)
    requires m <= |chunks|
    ensures forall e :: e in Broadcast(peers, chunks, m) ==> e.SendPush? || e.Gossip?
  {
    if m > 0 {
      BroadcastSends(peers, chunks, m - 1);
      PushToSends(peers, |peers|, chunks[m - 1]);
    }
  }

  lemma EventRemembers(s: Session, e: Event, w: World)
    requires Remembers(s) && DiskOk(e)
    ensures Remembers(Advance(s, e, w))
  {
    var n, trace := s.node, s.trace;
    match e
    case HelloRequest(peer, h, now, disk) =>
      hide AcceptPeer, Remembers;
      if h.proto != PROTOCOL_VERSION {
        UntouchedRemembers(n, Handle(n, e, w).node, trace, [Respond(peer, Denied)]);
      } else {
        var (out, verdict) := AcceptPeer(n, peer, h, now, disk, w.k);
        var rest := [Respond(peer, if verdict.Accept? then Welcome else Denied)];
        AcceptRemembers(n, trace, peer, h, now, disk, w.k, rest);
        RefusalKeeps(out.node, Handle(n, e, w).node, trace + (out.effects + rest));
      }
    case HelloResponse(peer, h, now, disk) =>
      hide AcceptPeer, Remembers;
      if h.proto != PROTOCOL_VERSION {
        UntouchedRemembers(n, n, trace, [Rejected(peer), HangUp(peer)]);
      } else {
        var (out, verdict) := AcceptPeer(n, peer, h, now, disk, w.k);
        AcceptRemembers(n, trace, peer, h, now, disk, w.k,
                        if verdict.Accept? then RequestSync(out.node, peer) else [Rejected(peer), HangUp(peer)]);
      }
    case Restart(found) =>
      UntouchedRemembers(n, n, trace, [Restarted]);
    case _ =>
      RolesUntouched(n, e, w);
      hide Handle, Remembers;
      UntouchedRemembers(n, Handle(n, e, w).node, trace, Handle(n, e, w).effects);
  }

  lemma RefusalKeeps(n: Node, n': Node, trace: seq<Effect>)
    requires Remembers(Session(n, trace)) && n'.roles == n.roles && n'.readOnly == n.readOnly
    ensures Remembers(Session(n', trace))
  {
  }

  lemma UntouchedRemembers(n: Node, n': Node, trace: seq<Effect>, es: seq<Effect>)
    requires Remembers(Session(n, trace)) && n'.roles == n.roles && n'.readOnly == n.readOnly
    requires forall e :: e in es ==> !e.Admitted?
    ensures Remembers(Session(n', trace + es))
  {
    forall p
      ensures Get(n'.roles, p) == LastRole(trace + es, p)
    {
      NoAdmissionNoCert(trace, es, p);
    }
  }

  lemma NothingRemembered(s: Session)
    requires s.trace == [] && s.node.roles == map[] && s.node.readOnly == {}
    ensures Remembers(s)
  {
  }

  /** Over any run in which the database takes its writes, restarts included: a device is treated as
      read-only exactly when the last certificate it was admitted with, in any process, said so. */
  lemma {:induction false} ReadOnlySurvivesRestarts(s: Session, es: seq<Event>, n: nat, w: World, p: Text)
    requires n <= |es| && forall i :: 0 <= i < n ==> DiskOk(es[i])
    requires s.trace == [] && s.node.roles == map[] && s.node.readOnly == {}
    ensures Remembers(RunEvents(s, es, n, w))
    ensures p in RunEvents(s, es, n, w).node.readOnly <==> LastRole(RunEvents(s, es, n, w).trace, p) == Some(ReadOnly)
  {
    hide Advance, Remembers;
    if n == 0 {
      NothingRemembered(s);
    } else {
      ReadOnlySurvivesRestarts(s, es, n - 1, w, p);
      EventRemembers(RunEvents(s, es, n - 1, w), es[n - 1], w);
    }
    RememberedRole(RunEvents(s, es, n, w), p);
  }

  lemma RememberedRole(s: Session, p: Text)
    requires Remembers(s)
    ensures p in s.node.readOnly <==> LastRole(s.trace, p) == Some(ReadOnly)
  {
    assert Get(s.node.roles, p) == LastRole(s.trace, p);
  }

  /** When the database refuses the write, memory and table agree afterwards exactly if the table already
      classed the device as its new certificate does. */
  lemma UnsavedRoleIsForgottenIff(n: Node, peer: Text, h: Hello, now: U64, k: Crypto)
    requires RolesRemembered(n) && AcceptPeer(n, peer, h, now, false, k).1 == Accept
    ensures RolesRemembered(AcceptPeer(n, peer, h, now, false, k).0.node)
            <==> (MayWrite(h.cert.claims.role) <==> Get(n.roles, peer) != Some(ReadOnly))
  {
    hide VerifyCert, MergeCrl;
    var n' := AcceptPeer(n, peer, h, now, false, k).0.node;
    assert peer in ReadOnlyIn(n.roles) <==> Get(n.roles, peer) == Some(ReadOnly);
  }

  // ------------------------------------------------------------------ revocation

  ghost predicate ListOk(n: Node, k: Crypto) {
    VerifyList(n.crl, n.org, k) == Accept && n.savedCrl == n.crl
  }

  /** A Hello moves the list, and admits, as `accept_peer` does; a wrong version does neither. */
  ghost predicate ListsAs(n: Node, out: Out, version: bool, accepted: Out) {
    && out.node.org == n.org
    && (if version then out.node.crl == accepted.node.crl && out.node.savedCrl == accepted.node.savedCrl
        else out.node.crl == n.crl && out.node.savedCrl == n.savedCrl)
    && (forall a :: a in out.effects && a.Admitted? ==> version && a in accepted.effects)
  }

  lemma HelloLists(n: Node, peer: Text, h: Hello, now: U64, disk: bool, k: Crypto)
    ensures ListsAs(n, OnHelloRequest(n, peer, h, now, disk, k), h.proto == PROTOCOL_VERSION, AcceptPeer(n, peer, h,
            now, disk, k).0)
    ensures ListsAs(n, OnHelloResponse(n, peer, h, now, disk, k), h.proto == PROTOCOL_VERSION, AcceptPeer(n, peer, h,
            now, disk, k).0)
  {
    AcceptFrame(n, peer, h, now, disk, k);
    hide AcceptPeer, MergeCrl, VerifyCert;
  }

  lemma ListsKeep(n: Node, out: Out, version: bool, accepted: Out, k: Crypto, serial: U64)
    requires ListOk(n, k) && ListsAs(n, out, version, accepted) && ListOk(accepted.node, k) &&
             accepted.node.org == n.org
    requires serial in n.crl.revoked ==> serial in accepted.node.crl.revoked
    requires serial in accepted.node.crl.revoked ==>
               forall a :: a in accepted.effects && a.Admitted? ==> a.cert.claims.serial != serial
    ensures ListOk(out.node, k) && out.node.org == n.org
    ensures serial in n.crl.revoked ==> serial in out.node.crl.revoked
    ensures serial in n.crl.revoked ==> forall a :: a in out.effects && a.Admitted? ==> a.cert.claims.serial != serial
  {
    hide VerifyList;
  }

  /** One event: the list stays verified and saved, forgets nothing, and nobody on it is admitted. */
  lemma EventKeepsList(n: Node, e: Event, w: World, serial: U64)
    requires ListOk(n, w.k) && DiskOk(e) && GrowingIssuer(n.org, w.k)
    ensures var out := Handle(n, e, w);
            && ListOk(out.node, w.k) && out.node.org == n.org
            && (serial in n.crl.revoked ==> serial in out.node.crl.revoked)
            && (serial in n.crl.revoked ==>
                  forall a :: a in out.effects && a.Admitted? ==> a.cert.claims.serial != serial)
  {
    if e.Restart? {
      hide VerifyList, GrowingIssuer;
    } else if e.HelloRequest? || e.HelloResponse? {
      AcceptKeepsList(n, e.peer, e.hello, e.now, w.k, serial);
      HelloLists(n, e.peer, e.hello, e.now, true, w.k);
      hide AcceptPeer, OnHelloRequest, OnHelloResponse, VerifyList, GrowingIssuer, ListOk, ListsAs;
      ListsKeep(n, Handle(n, e, w), e.hello.proto == PROTOCOL_VERSION, AcceptPeer(n, e.peer, e.hello, e.now, true,
        w.k).0, w.k, serial);
    } else {
      RolesUntouched(n, e, w);
      hide Handle, VerifyList, GrowingIssuer;
    }
  }

  lemma AcceptKeepsList(n: Node, peer: Text, h: Hello, now: U64, k: Crypto, serial: U64)
    requires ListOk(n, k) && GrowingIssuer(n.org, k)
    ensures var (out, verdict) := AcceptPeer(n, peer, h, now, true, k);
            && ListOk(out.node, k) && out.node.org == n.org
            && (serial in n.crl.revoked ==> serial in out.node.crl.revoked)
            && (serial in out.node.crl.revoked ==>
                  forall a :: a in out.effects && a.Admitted? ==> a.cert.claims.serial != serial)
  {
    AcceptFrame(n, peer, h, now, true, k);
    MergeKeeps(n.crl, h.crl, n.org, k);
    var (out, verdict) := AcceptPeer(n, peer, h, now, true, k);
    AcceptedListIsSearchable(out.node.crl, n.org, k, h.cert.claims.serial);
    hide VerifyList, GrowingIssuer, MergeCrl, IsRevoked;
  }

  /** Given an issuer whose lists only grow, once a node holds a list naming a serial, no certificate with
      that serial is admitted for the rest of the run, restarts included. */
  lemma {:induction false} RevokedStaysOut(s: Session, es: seq<Event>, m: nat, n: nat, w: World, serial: U64)
    requires m <= n <= |es| && forall i :: 0 <= i < n ==> DiskOk(es[i])
    requires ListOk(s.node, w.k) && GrowingIssuer(s.node.org, w.k)
    requires serial in RunEvents(s, es, m, w).node.crl.revoked
    ensures var early, late := RunEvents(s, es, m, w), RunEvents(s, es, n, w);
            && early.trace <= late.trace && serial in late.node.crl.revoked
            && (forall a :: a in late.trace[|early.trace|..] && a.Admitted? ==> a.cert.claims.serial != serial)
  {
    hide Handle, GrowingIssuer, ListOk;
    if m < n {
      RevokedStaysOut(s, es, m, n - 1, w, serial);
      var early, mid := RunEvents(s, es, m, w), RunEvents(s, es, n - 1, w);
      ListStays(s, es, n - 1, w);
      EventKeepsList(mid.node, es[n - 1], w, serial);
      var late := RunEvents(s, es, n, w);
      assert late.trace[|early.trace|..] == mid.trace[|early.trace|..] + Handle(mid.node, es[n - 1], w).effects;
    }
  }

  lemma {:induction false} ListStays(s: Session, es: seq<Event>, n: nat, w: World)
    requires n <= |es| && forall i :: 0 <= i < n ==> DiskOk(es[i])
    requires ListOk(s.node, w.k) && GrowingIssuer(s.node.org, w.k)
    ensures ListOk(RunEvents(s, es, n, w).node, w.k) && RunEvents(s, es, n, w).node.org == s.node.org
  {
    hide Handle, GrowingIssuer, ListOk;
    if n > 0 {
      ListStays(s, es, n - 1, w);
      EventKeepsList(RunEvents(s, es, n - 1, w).node, es[n - 1], w, 0);
    }
  }

  // ------------------------------------------------- listed peers already let in

  /** Who is in the table after an event: whoever it lets in, and whoever was there and whose last connection
      it does not close. Being on a list, or being refused later, removes nobody. */
  lemma TableAfter(n: Node, e: Event, w: World, p: Text)
    ensures var out := Handle(n, e, w);
            p in out.node.authed <==>
              || (exists a :: a in out.effects && a.Admitted? && a.peer == p)
              || (p in n.authed && e != Closed(p, 0) && !e.Restart?)
  {
    if DataEvent(e) {
      hide Handle;
      DataEventFrame(n, e, w);
    } else if e.HelloRequest? || e.HelloResponse? {
      HelloTable(n, e.peer, e.hello, e.now, e.disk, w.k, p);
      hide OnHelloRequest, OnHelloResponse;
    }
  }

  ghost predicate TableGains(n: Node, out: Out, p: Text) {
    p in out.node.authed <==> (exists a :: a in out.effects && a.Admitted? && a.peer == p) || p in n.authed
  }

  lemma HelloTable(n: Node, peer: Text, h: Hello, now: U64, disk: bool, k: Crypto, p: Text)
    ensures TableGains(n, OnHelloRequest(n, peer, h, now, disk, k), p)
    ensures TableGains(n, OnHelloResponse(n, peer, h, now, disk, k), p)
  {
    AcceptFrame(n, peer, h, now, disk, k);
    hide AcceptPeer, MergeCrl, VerifyCert;
    var (out, verdict) := AcceptPeer(n, peer, h, now, disk, k);
    if verdict.Accept? {
      assert out.effects[0] in OnHelloRequest(n, peer, h, now, disk, k).effects || h.proto != PROTOCOL_VERSION;
      assert out.effects[0] in OnHelloResponse(n, peer, h, now, disk, k).effects || h.proto != PROTOCOL_VERSION;
    }
  }

  /** The last connection of `p` stays open, and the process up, from event `m` to event `n`. */
  predicate StaysConnected(es: seq<Event>, m: nat, n: nat, p: Text)
    requires m <= n <= |es|
  {
    forall i :: m <= i < n ==> es[i] != Closed(p, 0) && !es[i].Restart?
  }

  predicate NoAdmission(fx: seq<Effect>, p: Text) {
    forall a :: a in fx && a.Admitted? ==> a.peer != p
  }

  lemma NoAdmissionConcat(a: seq<Effect>, b: seq<Effect>, p: Text)
    ensures NoAdmission(a + b, p) <==> NoAdmission(a, p) && NoAdmission(b, p)
  {
    assert forall e :: e in a ==> e in a + b;
    assert forall e :: e in b ==> e in a + b;
  }

  lemma {:induction false} TableOverRun(s: Session, es: seq<Event>, m: nat, n: nat, w: World, p: Text)
    requires m <= n <= |es|
    ensures var early, late := RunEvents(s, es, m, w), RunEvents(s, es, n, w);
            && early.trace <= late.trace
            && (NoAdmission(late.trace[|early.trace|..], p) ==>
                  (p in late.node.authed <==> p in early.node.authed && StaysConnected(es, m, n, p)))
  {
    hide Handle, NoAdmission;
    if m < n {
      TableOverRun(s, es, m, n - 1, w, p);
      var early, mid, late := RunEvents(s, es, m, w), RunEvents(s, es, n - 1, w), RunEvents(s, es, n, w);
      var fx := Handle(mid.node, es[n - 1], w).effects;
      assert late.trace[|early.trace|..] == mid.trace[|early.trace|..] + fx;
      NoAdmissionConcat(mid.trace[|early.trace|..], fx, p);
      TableAfterQuietEvent(mid.node, es[n - 1], w, p);
      hide RunEvents;
      assert StaysConnected(es, m, n, p) <==>
             StaysConnected(es, m, n - 1, p) && es[n - 1] != Closed(p, 0) && !es[n - 1].Restart?;
    }
  }

  lemma TableAfterQuietEvent(n: Node, e: Event, w: World, p: Text)
    ensures NoAdmission(Handle(n, e, w).effects, p) ==>
              (p in Handle(n, e, w).node.authed <==> p in n.authed && e != Closed(p, 0) && !e.Restart?)
  {
    TableAfter(n, e, w, p);
    hide Handle;
  }

  /** A peer whose certificate the node's list names (since event `m` at the latest) is in the table at event
      `n` exactly if it was there by then, its last connection has not closed since, and the process has not
      restarted. No list and no refused Hello puts it out. */
  lemma ListedPeerStaysIff(s: Session, es: seq<Event>, m: nat, n: nat, w: World, p: Text)
    requires m <= n <= |es| && forall i :: 0 <= i < n ==> DiskOk(es[i])
    requires ListOk(s.node, w.k) && GrowingIssuer(s.node.org, w.k)
    requires LastCert(RunEvents(s, es, n, w).trace, p).Some?
    requires LastCert(RunEvents(s, es, n, w).trace, p).value.claims.serial in RunEvents(s, es, m, w).node.crl.revoked
    ensures p in RunEvents(s, es, n, w).node.authed <==>
            p in RunEvents(s, es, m, w).node.authed && StaysConnected(es, m, n, p)
  {
    hide RunEvents, ListOk, GrowingIssuer;
    var early, late := RunEvents(s, es, m, w), RunEvents(s, es, n, w);
    var serial := LastCert(late.trace, p).value.claims.serial;
    RevokedStaysOut(s, es, m, n, w, serial);
    TableOverRun(s, es, m, n, w, p);
    var tail := late.trace[|early.trace|..];
    assert late.trace == early.trace + tail;
    if a :| a in tail && a.Admitted? && a.peer == p {
      AdmissionIsLast(early.trace, tail, p);
    }
  }

  /** And so it is served, rather than refused, exactly in that case. */
  lemma ListedPeerIsServedIff(s: Session, es: seq<Event>, m: nat, n: nat, w: World, p: Text, vv: VersionVector,
                              limit: nat)
    requires m <= n <= |es| && forall i :: 0 <= i < n ==> DiskOk(es[i])
    requires ListOk(s.node, w.k) && GrowingIssuer(s.node.org, w.k)
    requires LastCert(RunEvents(s, es, n, w).trace, p).Some?
    requires LastCert(RunEvents(s, es, n, w).trace, p).value.claims.serial in RunEvents(s, es, m, w).node.crl.revoked
    ensures OnSyncRequest(RunEvents(s, es, n, w).node, p, vv, limit) != Denied <==>
            p in RunEvents(s, es, m, w).node.authed && StaysConnected(es, m, n, p)
  {
    hide RunEvents, ListOk, GrowingIssuer, ChangesSince;
    ListedPeerStaysIff(s, es, m, n, w, p);
  }

  /** When the database refuses the enrolment, a restart brings back the list as it is now exactly if the
      Hello brought nothing newer. */
  lemma UnsavedListIsForgottenIff(n: Node, peer: Text, h: Hello, now: U64, k: Crypto, found: seq<RowKey>)
    requires n.savedCrl == n.crl
    ensures var after := AcceptPeer(n, peer, h, now, false, k).0.node;
            Restarting(after, found).crl == after.crl <==>
              h.crl.updatedAtMs <= n.crl.updatedAtMs || VerifyList(h.crl, n.org, k) != Accept
  {
    hide VerifyList, VerifyCert;
  }

  // ------------------------------------------- an example of such a peer

  const ORG: Text := Ascii("org")

  function KeyOf(b: Byte): Key {
    seq(32, i => b)
  }

  function CertOf(b: Byte): DeviceCert {
    DeviceCert(CertClaims(ORG, KeyOf(b), [], [], Member, 0, 1000, b), KeyOf(0), [])
  }

  /** A world with one organisation in which every signature verifies and a key is its own peer id. */
  function Trusting(valid: ChangeRecord -> bool, sign: ChangeRecord -> Text): World {
    World(Crypto((key: Key) => ORG, (key: Key, m: Text, sig: Text) => true, (key: Key) => Some(key)), valid, sign)
  }

  const LISTED := RevocationList(ORG, 1, [1], KeyOf(0), [])

  function Greeting(b: Byte, list: RevocationList): Hello {
    Hello(PROTOCOL_VERSION, CertOf(b), list, true)
  }

  function NewNode(db: Replica): Node {
    Node(ORG, true, EmptyList(ORG), map[], {}, {}, map[], map[], EmptyList(ORG), db)
  }

  /** Device 1 is let in; then device 2 brings a list that names device 1; then device 1 greets again. */
  function ThreeHellos(): (es: seq<Event>)
    ensures |es| == 3
  {
    [HelloRequest(KeyOf(1), Greeting(1, EmptyList(ORG)), 5, true),
     HelloRequest(KeyOf(2), Greeting(2, LISTED), 6, true),
     HelloRequest(KeyOf(1), Greeting(1, EmptyList(ORG)), 7, true)]
  }

  lemma FirstHello(db: Replica, valid: ChangeRecord -> bool, sign: ChangeRecord -> Text)
    ensures var n := Handle(NewNode(db), ThreeHellos()[0], Trusting(valid, sign)).node;
            KeyOf(1) in n.authed && n.crl == EmptyList(ORG) && n.org == ORG && n.replicate
  {
    assert !Found([], 1, 0, 0);
    hide CertBytes, CrlBytes;
  }

  lemma SecondHello(n: Node, valid: ChangeRecord -> bool, sign: ChangeRecord -> Text)
    requires KeyOf(1) in n.authed && n.crl == EmptyList(ORG) && n.org == ORG && n.replicate
    ensures var n' := Handle(n, ThreeHellos()[1], Trusting(valid, sign)).node;
            KeyOf(1) in n'.authed && n'.crl == LISTED && n'.org == ORG && n'.replicate
  {
    hide CertBytes, CrlBytes, VerifyCert;
  }

  lemma ThirdHello(n: Node, valid: ChangeRecord -> bool, sign: ChangeRecord -> Text)
    requires KeyOf(1) in n.authed && n.crl == LISTED && n.org == ORG && n.replicate
    ensures var out := Handle(n, ThreeHellos()[2], Trusting(valid, sign));
            KeyOf(1) in out.node.authed && out.effects == [Respond(KeyOf(1), Denied)] && out.node.replicate
  {
    assert Found(LISTED.revoked, 1, 0, 1);
    hide CertBytes, CrlBytes;
  }

  /** The list names device 1 and refuses its new Hello, and device 1 is served all the same. */
  lemma ListedPeerKeepsBeingServed(db: Replica, valid: ChangeRecord -> bool, sign: ChangeRecord -> Text,
                                   vv: VersionVector, limit: nat)
    ensures var w, es := Trusting(valid, sign), ThreeHellos();
            var mid := RunEvents(Session(NewNode(db), []), es, 2, w);
            var late := RunEvents(Session(NewNode(db), []), es, 3, w);
            && CertOf(1).claims.serial in mid.node.crl.revoked
            && Handle(mid.node, es[2], w).effects == [Respond(KeyOf(1), Denied)]
            && OnSyncRequest(late.node, KeyOf(1), vv, limit) != Denied
  {
    var w, es := Trusting(valid, sign), ThreeHellos();
    hide Handle, Trusting, ThreeHellos, NewNode, KeyOf, ChangesSince;
    var s := Session(NewNode(db), []);
    FirstHello(db, valid, sign);
    assert RunEvents(s, es, 0, w) == s;
    assert RunEvents(s, es, 1, w).node == Handle(s.node, es[0], w).node;
    SecondHello(RunEvents(s, es, 1, w).node, valid, sign);
    assert RunEvents(s, es, 2, w).node == Handle(RunEvents(s, es, 1, w).node, es[1], w).node;
    ThirdHello(RunEvents(s, es, 2, w).node, valid, sign);
    assert RunEvents(s, es, 3, w).node == Handle(RunEvents(s, es, 2, w).node, es[2], w).node;
  }

  // ------------------------------------------------- discovery-only nodes, denials

  /** The node still does not replicate, and nothing is asked for. */
  predicate Quiet(n: Node, out: Out) {
    !out.node.replicate && NothingAsked(out.effects)
  }

  lemma HelloIsQuiet(n: Node, peer: Text, h: Hello, now: U64, disk: bool, k: Crypto)
    requires !n.replicate
    ensures Quiet(n, OnHelloRequest(n, peer, h, now, disk, k)) && Quiet(n, OnHelloResponse(n, peer, h, now, disk, k))
  {
    AcceptFrame(n, peer, h, now, disk, k);
    hide AcceptPeer, MergeCrl, VerifyCert;
    var (out, verdict) := AcceptPeer(n, peer, h, now, disk, k);
    assert RequestSync(out.node, peer) == [];
    assert forall a :: a in out.effects ==> a.Admitted? || a.Connected?;
  }

  lemma QuietEvent(n: Node, e: Event, w: World)
    requires !n.replicate
    ensures Quiet(n, Handle(n, e, w))
  {
    hide ApplyRemote, ChangesSince, Adopt, OwnMaximum, OnHelloRequest, OnHelloResponse;
    match e
    case HelloRequest(peer, h, now, disk) => HelloIsQuiet(n, peer, h, now, disk, w.k);
    case HelloResponse(peer, h, now, disk) => HelloIsQuiet(n, peer, h, now, disk, w.k);
    case SyncTick(peers) => SyncAllAsks(n, peers, |peers|);
    case _ =>
  }

  /** One event changes the log of a node that does not replicate exactly if it is a Sync response that
      brings news. */
  lemma DiscoveryStoresIff(n: Node, e: Event, w: World)
    requires !n.replicate
    ensures Quiet(n, Handle(n, e, w)) && n.db.log <= Handle(n, e, w).node.db.log
    ensures Handle(n, e, w).node.db.log != n.db.log <==> e.SyncResponse? && Brings(n, e, w)
  {
    QuietEvent(n, e, w);
    if e.FlushTick? {
      hide Brings;
    } else {
      StoresIff(n, e, w);
      hide Handle, Accepted, Network.Kept;
    }
  }

  predicate NothingAsked(trace: seq<Effect>) {
    forall a :: a in trace ==> !a.AskFor?
  }

  /** Over any run a discovery-only node asks for nothing, and its log stays as it was exactly if no Sync
      response brought it news, from an admitted peer or not. */
  lemma {:induction false} DiscoveryNodeHoldsNothing(s: Session, es: seq<Event>, n: nat, w: World)
    requires n <= |es| && !s.node.replicate && NothingAsked(s.trace)
    ensures var end := RunEvents(s, es, n, w);
            && !end.node.replicate && NothingAsked(end.trace) && s.node.db.log <= end.node.db.log
            && (end.node.db.log == s.node.db.log <==>
                  forall i :: 0 <= i < n ==> !(es[i].SyncResponse? && Brings(RunEvents(s, es, i, w).node, es[i], w)))
  {
    hide Handle, Brings;
    if n > 0 {
      DiscoveryNodeHoldsNothing(s, es, n - 1, w);
      var p := RunEvents(s, es, n - 1, w);
      DiscoveryStoresIff(p.node, es[n - 1], w);
    }
  }

  /** A connection is opened, so a Hello goes out; the peer answers it with a Sync response. Its records are
      stored, replicating node or not, and it is not admitted. */
  lemma UnadmittedPageIsStored(n: Node, peer: Text, r: ChangeRecord, clock: Clockwork, w: World)
    requires n.authed == map[] && n.greeted == {} && r.origin !in n.readOnly && !Held(n.db.log, StampOf(r))
    requires r.origin != [] && r.tbl != [] && w.valid(r)
    ensures var es := [Opened(peer), SyncResponse(peer, [r], false, clock)];
            var end := RunEvents(Session(n, []), es, 2, w);
            && RunEvents(Session(n, []), es, 1, w).trace == [Greet(peer)]
            && end.node.db.log == n.db.log + [r] && peer !in end.node.authed && end.node.replicate == n.replicate
  {
    var es, s := [Opened(peer), SyncResponse(peer, [r], false, clock)], Session(n, []);
    var greeted := n.(greeted := {peer});
    assert Handle(n, es[0], w) == Out(greeted, [Greet(peer)]);
    OnePageStored(greeted, peer, r, clock, w);
    hide Handle;
    assert RunEvents(s, es, 0, w) == s;
    assert RunEvents(s, es, 1, w) == Session(greeted, [Greet(peer)]);
    assert RunEvents(s, es, 2, w).node == Handle(greeted, es[1], w).node;
  }

  lemma OnePageStored(n: Node, peer: Text, r: ChangeRecord, clock: Clockwork, w: World)
    requires n.authed == map[] && r.origin !in n.readOnly && !Held(n.db.log, StampOf(r))
    requires r.origin != [] && r.tbl != [] && w.valid(r)
    ensures var out := Handle(n, SyncResponse(peer, [r], false, clock), w);
            out.node.db.log == n.db.log + [r] && out.node.authed == map[] && out.node.replicate == n.replicate
  {
    var e := SyncResponse(peer, [r], false, clock);
    assert Handed(n, e) == [r] && ClockOf(e) == clock;
    hide Handle, ApplyRemote, Held, Network.Kept, Handed, ClockOf;
    OneKept(r, n.readOnly);
    OneApplied(n.db, r, clock, w.valid);
    HandedIsApplied(n, e, w);
    DataEventFrame(n, e, w);
  }

  lemma OneApplied(st: Replica, r: ChangeRecord, clock: Clockwork, valid: ChangeRecord -> bool)
    requires r.origin != [] && r.tbl != [] && valid(r) && !Held(st.log, StampOf(r))
    ensures ApplyRemote(st, [r], clock, valid).log == st.log + [r]
  {
    hide ApplyRemote, Receive, MaterializeAll, DirtyRows, Held;
    Convergence.ApplyOne(st, r, clock, valid);
  }

  lemma OneKept(r: ChangeRecord, readOnly: set<Text>)
    requires r.origin !in readOnly
    ensures Network.Kept([r], readOnly) == [r]
  {
    assert [r][..0] == [] && Network.Kept([], readOnly) == [];
  }

  lemma DenialKept(n: Node, e: Event, w: World, peer: Text)
    requires peer in n.deny && !e.Restart? && e != ResponseSent(peer)
    ensures peer in Handle(n, e, w).node.deny
  {
    if DataEvent(e) {
      hide Handle;
      DataEventFrame(n, e, w);
    } else if e.HelloRequest? || e.HelloResponse? {
      AcceptFrame(n, e.peer, e.hello, e.now, e.disk, w.k);
      hide AcceptPeer;
    }
  }

  /** A refusal stays pending until some response to that peer has gone out, even across a disconnect and
      a later, successful handshake: that later response is then followed by a hang-up. */
  lemma {:induction false} DenialWaitsForAResponse(s: Session, es: seq<Event>, n: nat, w: World, peer: Text)
    requires n <= |es| && peer in s.node.deny
    requires forall i :: 0 <= i < n ==> !es[i].Restart? && es[i] != ResponseSent(peer)
    ensures var late := RunEvents(s, es, n, w);
            && peer in late.node.deny
            && Handle(late.node, ResponseSent(peer), w).effects == [Rejected(peer), HangUp(peer)]
  {
    hide Handle;
    if n > 0 {
      DenialWaitsForAResponse(s, es, n - 1, w, peer);
      DenialKept(RunEvents(s, es, n - 1, w).node, es[n - 1], w, peer);
    }
    HangsUp(RunEvents(s, es, n, w).node, w, peer);
  }

  lemma HangsUp(n: Node, w: World, peer: Text)
    requires peer in n.deny
    ensures Handle(n, ResponseSent(peer), w).effects == [Rejected(peer), HangUp(peer)]
  {
  }

  // ------------------------------------------------------- who is asked and told

  /** Pulls and pushes go only from a replicating node to peers that said they replicate. */
  predicate ToReplicators(n: Node, fx: seq<Effect>) {
    forall e :: e in fx && (e.AskFor? || e.SendPush?) ==>
      n.replicate && e.peer in n.authed && n.authed[e.peer].replicates
  }

  lemma {:induction false} SyncAllToReplicators(n: Node, peers: seq<Text>, m: nat)
    requires m <= |peers|
    ensures ToReplicators(n, SyncAll(n, peers, m))
  {
    if m > 0 {
      SyncAllToReplicators(n, peers, m - 1);
    }
  }

  lemma {:induction false} PushToThese(peers: seq<Text>, m: nat, chunk: seq<ChangeRecord>)
    requires m <= |peers|
    ensures forall e :: e in PushTo(peers, m, chunk) ==> e.SendPush? && e.peer in peers
  {
    if m > 0 {
      PushToThese(peers, m - 1, chunk);
    }
  }

  lemma {:induction false} BroadcastToThese(peers: seq<Text>, chunks: seq<seq<ChangeRecord>>, m: nat)
    requires m <= |chunks|
    ensures forall e :: e in Broadcast(peers, chunks, m) ==> !e.AskFor? && (e.SendPush? ==> e.peer in peers)
  {
    if m > 0 {
      BroadcastToThese(peers, chunks, m - 1);
      PushToThese(peers, |peers|, chunks[m - 1]);
    }
  }

  lemma HelloToReplicators(n: Node, peer: Text, h: Hello, now: U64, disk: bool, k: Crypto)
    ensures ToReplicators(OnHelloRequest(n, peer, h, now, disk, k).node, OnHelloRequest(n, peer, h, now, disk,
            k).effects)
    ensures ToReplicators(OnHelloResponse(n, peer, h, now, disk, k).node, OnHelloResponse(n, peer, h, now, disk,
            k).effects)
  {
    AcceptFrame(n, peer, h, now, disk, k);
    hide AcceptPeer, MergeCrl, VerifyCert;
    var (out, verdict) := AcceptPeer(n, peer, h, now, disk, k);
    assert forall a :: a in out.effects ==> a.Admitted? || a.Connected?;
  }

  lemma ApplyTellsOnlyOfSync(n: Node, peer: Text, changes: seq<ChangeRecord>, clock: Clockwork,
                             valid: ChangeRecord -> bool)
    ensures var out := Apply(n, peer, changes, clock, valid);
            && out.node.authed == n.authed && out.node.replicate == n.replicate
            && forall e :: e in out.effects ==> e.Synced?
  {
    hide ApplyRemote;
  }

  lemma PushToReplicators(n: Node, peer: Text, changes: seq<ChangeRecord>, clock: Clockwork, w: World)
    ensures var out := OnPushRequest(n, peer, changes, clock, w); ToReplicators(out.node, out.effects)
  {
    ApplyTellsOnlyOfSync(n, peer, changes, clock, w.valid);
    hide Apply, Database.Rejected;
  }

  lemma PageToReplicators(n: Node, peer: Text, changes: seq<ChangeRecord>, hasMore: bool, clock: Clockwork, w: World)
    ensures var out := OnSyncResponse(n, peer, changes, hasMore, clock, w); ToReplicators(out.node, out.effects)
  {
    ApplyTellsOnlyOfSync(n, peer, changes, clock, w.valid);
    hide Apply;
  }

  lemma GossipToReplicators(n: Node, source: Text, payload: Option<seq<ChangeRecord>>, clock: Clockwork, w: World)
    ensures var out := OnGossip(n, source, payload, clock, w); ToReplicators(out.node, out.effects)
  {
    if payload.Some? {
      ApplyTellsOnlyOfSync(n, source, payload.value, clock, w.valid);
    }
    hide Apply;
  }

  /** No event asks or pushes to a peer that does not replicate, or from a node that does not. */
  lemma OnlyReplicatorsAreAsked(s: Session, e: Event, w: World)
    requires Possible(s, e)
    ensures ToReplicators(Handle(s.node, e, w).node, Handle(s.node, e, w).effects)
  {
    var n := s.node;
    hide ChangesSince, Outbox.Push, Outbox.Flatten, Broadcast, SyncAll, OnHelloRequest, OnHelloResponse;
    hide OnPushRequest, OnSyncResponse, OnGossip;
    match e
    case PushRequest(peer, changes, clock) => PushToReplicators(n, peer, changes, clock, w);
    case SyncResponse(peer, changes, hasMore, clock) => PageToReplicators(n, peer, changes, hasMore, clock, w);
    case GossipIn(source, payload, clock) => GossipToReplicators(n, source, payload, clock, w);
    case HelloRequest(peer, h, now, disk) => HelloToReplicators(n, peer, h, now, disk, w.k);
    case HelloResponse(peer, h, now, disk) => HelloToReplicators(n, peer, h, now, disk, w.k);
    case SyncTick(peers) => SyncAllToReplicators(n, peers, |peers|);
    case FlushTick(clock, marked, peers) =>
      var chunks := Outbox.Push(Outbox.Outgoing(n.db, []), clock, marked, w.sign).chunks;
      BroadcastToThese(peers, chunks, |chunks|);
    case _ =>
  }

  // ------------------------------------------------------------------ broadcast

  /** The chunks pushed to `p`, in order. */
  function PushesTo(fx: seq<Effect>, p: Text): seq<seq<ChangeRecord>> {
    if fx == [] then []
    else
      var e := fx[|fx| - 1];
      PushesTo(fx[..|fx| - 1], p) + (if e.SendPush? && e.peer == p then [e.changes] else [])
  }

  lemma {:induction false} PushesConcat(a: seq<Effect>, b: seq<Effect>, p: Text)
    ensures PushesTo(a + b, p) == PushesTo(a, p) + PushesTo(b, p)
  {
    if b == [] {
      assert a + b == a;
    } else {
      assert (a + b)[..|a + b| - 1] == a + b[..|b| - 1];
      PushesConcat(a, b[..|b| - 1], p);
    }
  }

  lemma SinglePush(q: Text, chunk: seq<ChangeRecord>, p: Text)
    ensures PushesTo([SendPush(q, chunk)], p) == if q == p then [chunk] else []
    ensures PushesTo([Gossip(chunk)], p) == [] && PushesTo([], p) == []
  {
    assert [SendPush(q, chunk)][..0] == [] && [Gossip(chunk)][..0] == [];
  }

  lemma {:induction false} OnePushEach(peers: seq<Text>, m: nat, chunk: seq<ChangeRecord>, p: Text)
    requires m <= |peers| && forall i, j :: 0 <= i < j < |peers| ==> peers[i] != peers[j]
    ensures PushesTo(PushTo(peers, m, chunk), p) == if p in peers[..m] then [chunk] else []
  {
    hide PushesTo;
    SinglePush(p, chunk, p);
    if m > 0 {
      OnePushEach(peers, m - 1, chunk, p);
      PushesConcat(PushTo(peers, m - 1, chunk), [SendPush(peers[m - 1], chunk)], p);
      SinglePush(peers[m - 1], chunk, p);
      assert peers[..m] == peers[..m - 1] + [peers[m - 1]];
    }
  }

  lemma OneChunk(peers: seq<Text>, chunk: seq<ChangeRecord>, p: Text)
    requires forall i, j :: 0 <= i < j < |peers| ==> peers[i] != peers[j]
    ensures PushesTo(PushTo(peers, |peers|, chunk) + [Gossip(chunk)], p) == if p in peers then [chunk] else []
  {
    hide PushesTo, PushTo;
    OnePushEach(peers, |peers|, chunk, p);
    assert peers[..|peers|] == peers;
    PushesConcat(PushTo(peers, |peers|, chunk), [Gossip(chunk)], p);
    SinglePush(p, chunk, p);
  }

  /** A broadcast pushes every chunk, in order, exactly once to each replicating peer and to nobody else. */
  lemma {:induction false} EveryPeerGetsEveryChunk(peers: seq<Text>, chunks: seq<seq<ChangeRecord>>, n: nat, p: Text)
    requires n <= |chunks| && forall i, j :: 0 <= i < j < |peers| ==> peers[i] != peers[j]
    ensures PushesTo(Broadcast(peers, chunks, n), p) == if p in peers then chunks[..n] else []
  {
    hide PushesTo, PushTo;
    if n == 0 {
      SinglePush(p, [], p);
    } else {
      EveryPeerGetsEveryChunk(peers, chunks, n - 1, p);
      OneChunk(peers, chunks[n - 1], p);
      PushesConcat(Broadcast(peers, chunks, n - 1), PushTo(peers, |peers|, chunks[n - 1]) + [Gossip(chunks[n - 1])], p);
      assert chunks[..n] == chunks[..n - 1] + [chunks[n - 1]];
    }
  }
}
