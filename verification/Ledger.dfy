/** What every run of the seed server's register conserves, and how its revocations evolve. */
module Ledger {
  import opened Bytes
  import opened HybridLogicalClock
  import opened Identity
  import opened Registry

  /** One certificate handed out: its serial, the device, and the invite it cost. */
  datatype Grant = Grant(serial: nat, peer: Text, token: Text, cert: DeviceCert)

  datatype History = History(book: Book, grants: seq<Grant>)

  function PeerName(cert: DeviceCert, k: Crypto): Text {
    var p := k.peerOf(cert.claims.devicePub);
    if p.Some? then p.value else []
  }

  function Served(h: History, c: Call, k: Crypto): History {
    var a := Serve(h.book, c, k);
    if c.Redeem? && a.reply.Issued? then
      var g := Grant(a.reply.cert.claims.serial, PeerName(a.reply.cert, k), Normalize(c.r.token), a.reply.cert);
      History(a.book, h.grants + [g])
    else History(a.book, h.grants)
  }

  function RunCalls(b: Book, calls: seq<Call>, n: nat, k: Crypto): History
    requires n <= |calls|
  {
    if n == 0 then History(b, []) else Served(RunCalls(b, calls, n - 1, k), calls[n - 1], k)
  }

  predicate Opened(b: Book) {
    b.invites == map[] && b.devices == map[] && b.nextSerial == 1
  }

  function UsedTokens(b: Book): set<Text> {
    set t | t in b.invites && b.invites[t].usedAtMs.Some?
  }

  // ------------------------------------------------------------ conservation

  /** Serials run from 1 without gaps, in order. */
  ghost predicate SerialsExact(h: History) {
    h.book.nextSerial == |h.grants| + 1 && forall i :: 0 <= i < |h.grants| ==> h.grants[i].serial == i + 1
  }

  /** The used invites are the granted ones, each used once. */
  ghost predicate InvitesExact(h: History) {
    && (forall t :: t in UsedTokens(h.book) <==> exists g :: g in h.grants && g.token == t)
    && (forall i, j :: 0 <= i < j < |h.grants| ==> h.grants[i].token != h.grants[j].token)
    && |UsedTokens(h.book)| == |h.grants|
  }

  /** The row of a device carries the serial of the last grant to it. */
  ghost predicate LastGrant(h: History, p: Text) {
    p in h.book.devices &&
    var s := h.book.devices[p].serial;
    && 1 <= s <= |h.grants| && h.grants[s - 1].peer == p
    && (forall j :: s <= j < |h.grants| ==> h.grants[j].peer != p)
  }

  ghost predicate DevicesExact(h: History) {
    && (forall p :: p in h.book.devices ==> LastGrant(h, p))
    && (forall g :: g in h.grants ==> g.peer in h.book.devices)
  }

  ghost predicate Conserved(h: History) {
    SerialsExact(h) && InvitesExact(h) && DevicesExact(h)
  }

  lemma RedeemedTokens(b: Book, r: Redemption, k: Crypto)
    requires Objection(b, r, k).None?
    ensures var b', t := RedeemInvite(b, r, k).book, Normalize(r.token);
            t !in UsedTokens(b) && UsedTokens(b') == UsedTokens(b) + {t}
  {
  }

  /** One more used invite and one more grant for it. */
  lemma GrantKeepsInvites(h: History, h': History, g: Grant)
    requires InvitesExact(h) && h'.grants == h.grants + [g] && g.token !in UsedTokens(h.book)
    requires UsedTokens(h'.book) == UsedTokens(h.book) + {g.token}
    ensures InvitesExact(h')
  {
    hide UsedTokens;
    assert g in h'.grants;
    forall t
      ensures t in UsedTokens(h'.book) <==> exists x :: x in h'.grants && x.token == t
    {
      if x :| x in h.grants && x.token == t {
        assert x in h'.grants;
      }
    }
    forall i | 0 <= i < |h.grants|
      ensures h.grants[i].token != g.token
    {
      assert h.grants[i] in h.grants;
    }
  }

  lemma RedeemKeepsInvites(h: History, r: Redemption, k: Crypto)
    requires InvitesExact(h) && Objection(h.book, r, k).None?
    ensures InvitesExact(Served(h, Redeem(r), k))
  {
    RedeemedTokens(h.book, r, k);
    hide Objection, NewCert, Enrolled, UsedTokens, InvitesExact;
    var h' := Served(h, Redeem(r), k);
    GrantKeepsInvites(h, h', h'.grants[|h.grants|]);
  }

  /** One more grant, and the device's row carries its serial. */
  lemma GrantKeepsDevices(h: History, h': History, g: Grant, row: Device)
    requires SerialsExact(h) && DevicesExact(h) && h'.grants == h.grants + [g] && g.serial == h.book.nextSerial
    requires h'.book.nextSerial == h.book.nextSerial + 1
    requires h'.book.devices == h.book.devices[g.peer := row] && row.serial == g.serial
    ensures SerialsExact(h') && DevicesExact(h')
  {
    assert SerialsExact(h');
    forall p | p in h'.book.devices
      ensures LastGrant(h', p)
    {
      LastGrantKept(h, h', g, row, p);
    }
  }

  lemma LastGrantKept(h: History, h': History, g: Grant, row: Device, p: Text)
    requires h.book.nextSerial == |h.grants| + 1 && h'.grants == h.grants + [g] && g.serial == h.book.nextSerial
    requires h'.book.devices == h.book.devices[g.peer := row] && row.serial == g.serial
    requires p == g.peer || LastGrant(h, p)
    ensures LastGrant(h', p)
  {
  }

  lemma RedeemKeepsDevices(h: History, r: Redemption, k: Crypto)
    requires SerialsExact(h) && DevicesExact(h) && Objection(h.book, r, k).None?
    ensures SerialsExact(Served(h, Redeem(r), k)) && DevicesExact(Served(h, Redeem(r), k))
  {
    var h' := Served(h, Redeem(r), k);
    var g := h'.grants[|h.grants|];
    var peer := k.peerOf(r.devicePub.value).value;
    assert g.peer == peer && g.serial == h.book.nextSerial;
    assert h'.book.devices == h.book.devices[peer := Enrolled(h.book, r, k)];
    assert Enrolled(h.book, r, k).serial == h.book.nextSerial;
    hide Objection, NewCert, Enrolled, SerialsExact, DevicesExact;
    GrantKeepsDevices(h, h', g, Enrolled(h.book, r, k));
  }

  /** Books that agree on serials, used invites and devices' rows. */
  ghost predicate SameLedger(a: Book, b: Book) {
    && a.nextSerial == b.nextSerial && UsedTokens(a) == UsedTokens(b) && a.devices.Keys == b.devices.Keys
    && (forall p :: p in a.devices ==> a.devices[p].serial == b.devices[p].serial)
  }

  lemma SameLedgerInvites(h: History, h': History)
    requires InvitesExact(h) && UsedTokens(h.book) == UsedTokens(h'.book) && h'.grants == h.grants
    ensures InvitesExact(h')
  {
    hide UsedTokens;
  }

  lemma SameLedgerDevices(h: History, h': History)
    requires DevicesExact(h) && SameLedger(h.book, h'.book) && h'.grants == h.grants
    ensures DevicesExact(h')
  {
    hide UsedTokens;
    forall p | p in h'.book.devices
      ensures LastGrant(h', p)
    {
      assert LastGrant(h, p);
    }
  }

  lemma SameLedgerConserved(h: History, h': History)
    requires Conserved(h) && SameLedger(h.book, h'.book) && h'.grants == h.grants
    ensures Conserved(h')
  {
    hide InvitesExact, DevicesExact;
    SameLedgerInvites(h, h');
    SameLedgerDevices(h, h');
  }

  lemma OtherCallsKeepLedger(b: Book, c: Call, k: Crypto)
    requires !c.Redeem?
    ensures SameLedger(b, Serve(b, c, k).book)
  {
    var b' := Serve(b, c, k).book;
    assert c.Revoke? ==> b'.invites == b.invites;
    assert UsedTokens(b) == UsedTokens(b');
  }

  lemma CallKeeps(h: History, c: Call, k: Crypto)
    requires Conserved(h)
    ensures Conserved(Served(h, c, k))
  {
    if !c.Redeem? {
      hide Conserved, SameLedger, Serve;
      OtherCallsKeepLedger(h.book, c, k);
      SameLedgerConserved(h, Served(h, c, k));
    } else if Objection(h.book, c.r, k).None? {
      RedeemKeepsInvites(h, c.r, k);
      RedeemKeepsDevices(h, c.r, k);
    }
  }

  /** Over any run of calls, failing ones included: the issued serials are exactly 1 .. nextSerial - 1,
      the used invites number as many, each paid for one certificate, and each device has one row, with
      the serial of its latest certificate. */
  lemma {:induction false} RunConserves(b: Book, calls: seq<Call>, n: nat, k: Crypto)
    requires n <= |calls| && Opened(b)
    ensures Conserved(RunCalls(b, calls, n, k))
  {
    hide Served;
    if n == 0 {
      assert UsedTokens(b) == {};
    } else {
      hide Conserved;
      RunConserves(b, calls, n - 1, k);
      CallKeeps(RunCalls(b, calls, n - 1, k), calls[n - 1], k);
    }
  }

  // --------------------------------------------------------------- enrolment

  /** A redemption yields a certificate exactly when it is timely, proves possession of its key, and names
      an unused invite that has not run out. */
  lemma IssuedIff(b: Book, r: Redemption, k: Crypto)
    ensures RedeemInvite(b, r, k).reply.Issued? <==>
            && r.now - ENROLL_SKEW_MS <= r.atMs <= r.now + ENROLL_SKEW_MS
            && r.devicePub.Some? && r.proof.Some?
            && ProofHolds(r.devicePub.value, Normalize(r.token), r.deviceName, r.atMs, r.proof.value, k)
            && Normalize(r.token) in b.invites && b.invites[Normalize(r.token)].usedAtMs.None?
            && r.now <= b.invites[Normalize(r.token)].expiresAtMs && b.nextSerial <= MAX_I64
  {
    hide NewCert, Enrolled, ProofHolds, Normalize;
  }

  /** A redemption that is refused changes nothing and names the first check that fails: the time of the request, the
      form of key and proof, the proof, the code, its use, its expiry, and last the supply of serials. */
  lemma RefusedRedemption(b: Book, r: Redemption, k: Crypto)
    ensures var a, t := RedeemInvite(b, r, k), Normalize(r.token);
            var timely := r.now - 300_000 <= r.atMs <= r.now + 300_000;
            var formed := timely && r.devicePub.Some? && r.proof.Some?;
            var proved := formed && ProofHolds(r.devicePub.value, t, r.deviceName, r.atMs, r.proof.value, k);
            var known := proved && t in b.invites;
            var unused := known && b.invites[t].usedAtMs.None?;
            var live := unused && r.now <= b.invites[t].expiresAtMs;
            && (!a.reply.Issued? ==> a.book == b)
            && (a.reply == Failed(ClockSkew) <==> !timely)
            && (a.reply == Failed(BadRequest) <==> timely && !formed)
            && (a.reply == Failed(BadProof) <==> formed && !proved)
            && (a.reply == Failed(UnknownInvite) <==> proved && !known)
            && (a.reply == Failed(InviteUsed) <==> known && !unused)
            && (a.reply == Failed(InviteExpired) <==> unused && !live)
            && (a.reply == Failed(Storage) <==> live && b.nextSerial > MAX_I64)
            && (a.reply.Issued? <==> live && b.nextSerial <= MAX_I64)
  {
    hide NewCert, Enrolled, ProofHolds, Normalize;
  }

  /** A device's signature holds for at most one message. */
  ghost predicate KeyBinding(k: Crypto) {
    forall pub: Key, m: Text, n: Text, s: Text :: k.verifies(pub, m, s) && k.verifies(pub, n, s) ==> m == n
  }

  predicate ProofOf(e: EnrollClaim, proof: Text, k: Crypto) {
    ProofHolds(e.devicePub, e.token, e.deviceName, e.atMs, proof, k)
  }

  /** A proof of possession is good for one request only: with the code, the name or the time changed after signing it
      is refused. And what the device signs for its own request is accepted. */
  lemma ProofIsForOneRequest(pub: Key, a: EnrollClaim, b: EnrollClaim, proof: Text, sign: Text -> Text, k: Crypto)
    requires KeyBinding(k) && a.devicePub == pub == b.devicePub && Fits(OfEnrolment(a)) && Fits(OfEnrolment(b))
    ensures ProofOf(a, proof, k) && ProofOf(b, proof, k) ==> a == b
    ensures k.peerOf(pub).Some? && (forall m: Text :: k.verifies(pub, m, sign(m))) ==>
              ProofOf(a, sign(EnrollBytes(a)), k)
  {
    assert a == EnrollClaim(a.token, a.deviceName, pub, a.atMs) && b == EnrollClaim(b.token, b.deviceName, pub, b.atMs);
    if ProofOf(a, proof, k) && ProofOf(b, proof, k) {
      EnrollBytesDecode(a, b);
    }
  }

  /** Every revoked serial was handed out before. */
  lemma RevokedWereIssued(h: History)
    requires Conserved(h)
    ensures forall s :: s in RevokedSerials(h.book) ==> s < h.book.nextSerial
  {
    forall p | p in h.book.devices
      ensures h.book.devices[p].serial < h.book.nextSerial
    {
      assert LastGrant(h, p);
    }
  }

  lemma {:induction false} SerialsOnlyRise(b: Book, calls: seq<Call>, i: nat, j: nat, k: Crypto)
    requires i <= j <= |calls|
    ensures RunCalls(b, calls, i, k).book.nextSerial <= RunCalls(b, calls, j, k).book.nextSerial
  {
    hide Objection, NewCert, Enrolled;
    if i < j {
      SerialsOnlyRise(b, calls, i, j - 1, k);
    }
  }

  /** A list published at any point of a run names only serials below the next one of any later point, also
      serials that have been superseded since. */
  lemma OldListsAreBelow(b: Book, calls: seq<Call>, i: nat, j: nat, k: Crypto)
    requires i <= j <= |calls| && Opened(b)
    ensures forall s :: s in RevokedSerials(RunCalls(b, calls, i, k).book) ==>
              s < RunCalls(b, calls, j, k).book.nextSerial
  {
    hide RunCalls, RevokedSerials, Conserved;
    RunConserves(b, calls, i, k);
    RevokedWereIssued(RunCalls(b, calls, i, k));
    SerialsOnlyRise(b, calls, i, j, k);
  }

  /** What the seed server hands out, every node admits: at any reading of its clock, and against any verified
      list, a new certificate passes the trust gate from the device that redeemed it, exactly while the lifetime it
      was given lasts and its serial is not on the list. */
  lemma NewDeviceIsAdmittedIff(b: Book, r: Redemption, peer: Text, list: RevocationList, now: U64, k: Crypto)
    requires KeyPair(b.org, k) && Objection(b, r, k).None? && VerifyList(list, k.hash(b.org.pub), k) == Accept
    ensures VerifyCert(NewCert(b, r, k), k.hash(b.org.pub), Some(peer), Some(list), now, k) == Accept
            <==> now < r.issueNow + r.certTtlMs && now < MAX_U64 && r.issueNow <= now + MAX_CLOCK_DRIFT_MS
                 && k.peerOf(r.devicePub.value) == Some(peer) && b.nextSerial !in list.revoked
  {
    var invite := b.invites[Normalize(r.token)];
    var name := if r.deviceName == [] then invite.displayName else r.deviceName;
    hide VerifyList, VerifyCert, IssueCert, KeyPair;
    IssuedCertVerifiesIff(b.org, r.devicePub.value, invite.userId, name, invite.role, b.nextSerial, r.certTtlMs,
                          r.issueNow, now, peer, list, k);
  }

  // -------------------------------------------------------------- revocation

  lemma SerialsAreOwn(h: History, p: Text, q: Text)
    requires Conserved(h) && p in h.book.devices && q in h.book.devices
    requires h.book.devices[p].serial == h.book.devices[q].serial
    ensures p == q
  {
    assert LastGrant(h, p) && LastGrant(h, q);
  }

  /** Revoking adds exactly the serial asked for, or fails when no active device carries it. */
  lemma RevokeAddsExactly(b: Book, serial: U64, now: U64, stampNow: U64, stamped: bool)
    ensures var a := RevokeSerial(b, serial, now, stampNow, stamped);
            && (a.reply == Failed(NoActiveDevice) <==> !exists p :: p in b.devices && ActiveSerial(b, p, serial))
            && RevokedSerials(a.book) ==
               RevokedSerials(b) + if a.reply == Failed(NoActiveDevice) then {} else {serial}
  {
    var a := RevokeSerial(b, serial, now, stampNow, stamped);
    if a.reply != Failed(NoActiveDevice) {
      var p :| p in b.devices && ActiveSerial(b, p, serial);
      assert p in a.book.devices && a.book.devices[p].revokedAtMs.Some?;
      forall s
        ensures s in RevokedSerials(a.book) <==> s in RevokedSerials(b) + {serial}
      {
        if s in RevokedSerials(b) {
          var q :| q in b.devices && b.devices[q].revokedAtMs.Some? && b.devices[q].serial == s;
          assert q in a.book.devices && a.book.devices[q] == b.devices[q];
        }
      }
    }
  }

  /** The rows after a revocation: those that carry the serial and were active are marked with the time, and no
      other row changes. */
  lemma RevokeMarksRows(b: Book, serial: U64, now: U64, stampNow: U64, stamped: bool, p: Text)
    ensures var b' := RevokeSerial(b, serial, now, stampNow, stamped).book;
            && b'.devices.Keys == b.devices.Keys && b'.invites == b.invites && b'.nextSerial == b.nextSerial
            && (p in b.devices ==>
                  b'.devices[p] == if b.devices[p].serial == serial && b.devices[p].revokedAtMs.None?
                                   then b.devices[p].(revokedAtMs := Some(now)) else b.devices[p])
  {
  }

  /** No two rows carry one serial. */
  ghost predicate OwnSerials(devices: map<Text, Device>) {
    forall p, q :: p in devices && q in devices && devices[p].serial == devices[q].serial ==> p == q
  }

  /** Replacing a device's row by one that is not revoked takes exactly its old serial off the list. */
  lemma ReplacedRowRevokes(b: Book, b': Book, p: Text, row: Device)
    requires OwnSerials(b.devices) && b'.devices == b.devices[p := row] && row.revokedAtMs.None?
    ensures RevokedSerials(b') ==
            if p in b.devices then RevokedSerials(b) - {b.devices[p].serial} else RevokedSerials(b)
  {
    forall s
      ensures s in RevokedSerials(b') <==> s in RevokedSerials(b) && !(p in b.devices && b.devices[p].serial == s)
    {
      if s in RevokedSerials(b) {
        var q :| q in b.devices && b.devices[q].revokedAtMs.Some? && b.devices[q].serial == s;
        assert q != p ==> q in b'.devices && b'.devices[q] == b.devices[q];
      }
    }
  }

  lemma ConservedSerials(h: History)
    requires Conserved(h)
    ensures OwnSerials(h.book.devices)
  {
    forall p, q | p in h.book.devices && q in h.book.devices && h.book.devices[p].serial == h.book.devices[q].serial
      ensures p == q
    {
      SerialsAreOwn(h, p, q);
    }
  }

  /** A redemption takes exactly the device's previous serial off the list. */
  lemma RedeemRevokes(h: History, r: Redemption, k: Crypto)
    requires Conserved(h) && Objection(h.book, r, k).None?
    ensures var b, p := h.book, k.peerOf(r.devicePub.value).value;
            RevokedSerials(RedeemInvite(b, r, k).book) ==
            if p in b.devices then RevokedSerials(b) - {b.devices[p].serial} else RevokedSerials(b)
  {
    ConservedSerials(h);
    var b, p := h.book, k.peerOf(r.devicePub.value).value;
    assert Enrolled(b, r, k).revokedAtMs.None?;
    hide Conserved, OwnSerials, Objection, NewCert, Enrolled, RevokedSerials;
    ReplacedRowRevokes(b, RedeemInvite(b, r, k).book, p, Enrolled(b, r, k));
  }

  /** Revocations survive a redemption exactly when the enrolling device is not itself revoked. */
  lemma RevocationsSurviveIff(h: History, r: Redemption, k: Crypto)
    requires Conserved(h) && Objection(h.book, r, k).None?
    ensures var b, p := h.book, k.peerOf(r.devicePub.value).value;
            RevokedSerials(b) <= RevokedSerials(RedeemInvite(b, r, k).book)
            <==> !(p in b.devices && b.devices[p].revokedAtMs.Some?)
  {
    RedeemRevokes(h, r, k);
    hide Objection, RedeemInvite;
    var b, p := h.book, k.peerOf(r.devicePub.value).value;
    if p in b.devices && b.devices[p].revokedAtMs.Some? {
      assert b.devices[p].serial in RevokedSerials(b);
    } else if p in b.devices && b.devices[p].serial in RevokedSerials(b) {
      var q :| q in b.devices && b.devices[q].revokedAtMs.Some? && b.devices[q].serial == b.devices[p].serial;
      SerialsAreOwn(h, p, q);
    }
  }

  /** A serial that was issued but that no device row carries any more. */
  ghost predicate Superseded(h: History, serial: nat) {
    1 <= serial < h.book.nextSerial && forall p :: p in h.book.devices ==> h.book.devices[p].serial != serial
  }

  /** A device that enrols again leaves its previous serial behind. */
  lemma ReenrolmentSupersedes(h: History, r: Redemption, k: Crypto)
    requires Conserved(h) && Objection(h.book, r, k).None? && k.peerOf(r.devicePub.value).value in h.book.devices
    ensures Superseded(Served(h, Redeem(r), k), h.book.devices[k.peerOf(r.devicePub.value).value].serial)
  {
    var p := k.peerOf(r.devicePub.value).value;
    var h' := Served(h, Redeem(r), k);
    assert LastGrant(h, p);
    assert h'.book.devices == h.book.devices[p := Enrolled(h.book, r, k)];
    assert Enrolled(h.book, r, k).serial == h.book.nextSerial;
    hide Objection, NewCert, Enrolled, Served, InvitesExact;
    forall q | q in h'.book.devices
      ensures h'.book.devices[q].serial != h.book.devices[p].serial
    {
      if q != p && h.book.devices[q].serial == h.book.devices[p].serial {
        SerialsAreOwn(h, p, q);
      }
    }
    assert h'.book.nextSerial == h.book.nextSerial + 1;
  }

  lemma SupersededStep(h: History, c: Call, k: Crypto, serial: nat)
    requires Conserved(h) && Superseded(h, serial)
    ensures Superseded(Served(h, c, k), serial)
  {
    hide Conserved, Objection, NewCert;
  }

  /** Re-enrolment puts the old serial out of reach: whatever is called afterwards, it is never on the
      list again and a request to revoke it fails, although the old certificate may still be in date. */
  lemma {:induction false} SupersededIsNeverRevoked(b: Book, calls: seq<Call>, m: nat, n: nat, k: Crypto, serial: U64,
                                                    now: U64, stampNow: U64, stamped: bool)
    requires m <= n <= |calls| && Opened(b) && Superseded(RunCalls(b, calls, m, k), serial)
    ensures var h := RunCalls(b, calls, n, k);
            && Superseded(h, serial) && serial !in RevokedSerials(h.book)
            && RevokeSerial(h.book, serial, now, stampNow, stamped).reply == Failed(NoActiveDevice)
  {
    hide Served;
    if m < n {
      hide Superseded;
      SupersededIsNeverRevoked(b, calls, m, n - 1, k, serial, now, stampNow, stamped);
      RunConserves(b, calls, n - 1, k);
      SupersededStep(RunCalls(b, calls, n - 1, k), calls[n - 1], k, serial);
      SupersededIsOff(RunCalls(b, calls, n, k), serial, now, stampNow, stamped);
    }
  }

  lemma SupersededIsOff(h: History, serial: U64, now: U64, stampNow: U64, stamped: bool)
    requires Superseded(h, serial)
    ensures serial !in RevokedSerials(h.book)
    ensures RevokeSerial(h.book, serial, now, stampNow, stamped).reply == Failed(NoActiveDevice)
  {
  }

  // ------------------------------------------------------- published lists

  /** The calls after which lists have only grown: a revocation of a serial that an active device carries is
      stamped, and later than the one before; no device enrols while it is revoked. */
  ghost predicate Orderly(h: History, c: Call, k: Crypto) {
    match c
    case Create(_, _, _, _, _, _) => true
    case Revoke(serial, _, stampNow, stamped) =>
      (exists p :: p in h.book.devices && ActiveSerial(h.book, p, serial)) ==>
        stamped && stampNow > h.book.crlUpdatedAtMs
    case Redeem(r) =>
      Objection(h.book, r, k).None? ==>
        var p := k.peerOf(r.devicePub.value).value;
        !(p in h.book.devices && h.book.devices[p].revokedAtMs.Some?)
  }

  ghost predicate OrderlyRun(b: Book, calls: seq<Call>, m: nat, n: nat, k: Crypto)
    requires m <= n <= |calls|
  {
    forall i :: m <= i < n ==> Orderly(RunCalls(b, calls, i, k), calls[i], k)
  }

  /** Later lists name at least as much; a list that names more has a later timestamp. */
  ghost predicate ListsGrow(a: Book, b: Book) {
    && RevokedSerials(a) <= RevokedSerials(b) && a.crlUpdatedAtMs <= b.crlUpdatedAtMs
    && (RevokedSerials(a) != RevokedSerials(b) ==> a.crlUpdatedAtMs < b.crlUpdatedAtMs)
  }

  lemma SameDevicesSameRevoked(a: Book, b: Book)
    requires a.devices == b.devices
    ensures RevokedSerials(a) == RevokedSerials(b)
  {
  }

  /** An active serial is not on the list. */
  lemma ActiveIsUnlisted(h: History, p: Text, serial: U64)
    requires Conserved(h) && p in h.book.devices && ActiveSerial(h.book, p, serial)
    ensures serial !in RevokedSerials(h.book)
  {
    if serial in RevokedSerials(h.book) {
      var q :| q in h.book.devices && h.book.devices[q].revokedAtMs.Some? && h.book.devices[q].serial == serial;
      SerialsAreOwn(h, p, q);
    }
  }

  /** One call leaves the list grown, with a later time if it names more, exactly when it is orderly. A revocation
      whose time is not later, because the clock went back or the second statement failed, does not: a device
      that holds the list from before will not take the new one. */
  lemma ListsGrowIff(h: History, c: Call, k: Crypto)
    requires Conserved(h)
    ensures ListsGrow(h.book, Served(h, c, k).book) <==> Orderly(h, c, k)
  {
    hide Conserved, RevokedSerials, Objection, NewCert, Enrolled;
    match c
    case Create(_, _, _, _, _, _) =>
      SameDevicesSameRevoked(h.book, Served(h, c, k).book);
    case Revoke(serial, now, stampNow, stamped) =>
      RevokeAddsExactly(h.book, serial, now, stampNow, stamped);
      if p :| p in h.book.devices && ActiveSerial(h.book, p, serial) {
        ActiveIsUnlisted(h, p, serial);
      }
    case Redeem(r) =>
      if Objection(h.book, r, k).None? {
        RevocationsSurviveIff(h, r, k);
        RedeemRevokes(h, r, k);
      }
  }

  /** Over an orderly run the published lists grow in step with their timestamps, which is what devices
      rely on when they keep the newest list. */
  lemma {:induction false} OrderlyRunGrows(b: Book, calls: seq<Call>, m: nat, n: nat, k: Crypto)
    requires m <= n <= |calls| && Opened(b) && OrderlyRun(b, calls, m, n, k)
    ensures ListsGrow(RunCalls(b, calls, m, k).book, RunCalls(b, calls, n, k).book)
  {
    hide Served, RevokedSerials, Orderly;
    if m < n {
      OrderlyRunGrows(b, calls, m, n - 1, k);
      RunConserves(b, calls, n - 1, k);
      ListsGrowIff(RunCalls(b, calls, n - 1, k), calls[n - 1], k);
    }
  }
}
