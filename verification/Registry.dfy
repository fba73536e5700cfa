/** The seed server's register of invites and devices (rust/seed-server/src/store.rs). */
module Registry {
  import opened Bytes
  import opened Identity

  const ENROLL_SKEW_MS := 5 * 60 * 1000
  const MAX_I64 := 0x7fff_ffff_ffff_ffff

  datatype Invite = Invite(userId: Text, displayName: Text, role: Role, expiresAtMs: U64,
                           usedAtMs: Option<U64>, usedBy: Option<Text>)

  datatype Device = Device(serial: U64, devicePub: Key, userId: Text, displayName: Text, role: Role, platform: Text,
                           enrolledAtMs: U64, expiresAtMs: U64, revokedAtMs: Option<U64>)

  /** The `org`, `invite` and `device` tables; devices are keyed by their unique peer id. */
  datatype Book = Book(org: OrgKey, invites: map<Text, Invite>, devices: map<Text, Device>,
                       nextSerial: nat, crlUpdatedAtMs: U64)

  datatype Failure =
    | ClockSkew | BadRequest | BadProof | UnknownInvite | InviteUsed | InviteExpired | NoActiveDevice | Storage
  datatype Reply = Done | Issued(cert: DeviceCert) | Failed(why: Failure)
  datatype After = After(book: Book, reply: Reply)

  /** A redemption as received: `devicePub` and `proof` are `None` when they are not valid hex (or the
      key is not 32 bytes long); the server reads its clock once on entry and once when it issues. */
  datatype Redemption = Redemption(token: Text, devicePub: Option<Key>, deviceName: Text, platform: Text,
                                   atMs: U64, proof: Option<Text>, certTtlMs: U64, now: U64, issueNow: U64)

  datatype Call =
    | Create(token: Text, userId: Text, displayName: Text, role: Role, ttlMs: U64, now: U64)
    | Redeem(r: Redemption)
    | Revoke(serial: U64, now: U64, stampNow: U64, stamped: bool)  // `stamped`: the second statement went through

  // -------------------------------------------------------------- operations

  function CreateInvite(b: Book, token: Text, userId: Text, displayName: Text, role: Role, ttlMs: U64,
                        now: U64): After {
    if token in b.invites then After(b, Failed(Storage))
    else
      var row := Invite(userId, displayName, role, SaturatingAdd(now, ttlMs), None, None);
      After(b.(invites := b.invites[token := row]), Done)
  }

  function AbsDiff(a: U64, b: U64): nat {
    if a < b then b - a else a - b
  }

  /** `verify_enrollment_proof`. */
  predicate ProofHolds(devicePub: Key, token: Text, deviceName: Text, atMs: U64, proof: Text, k: Crypto) {
    && k.peerOf(devicePub).Some?
    && k.verifies(devicePub, EnrollBytes(EnrollClaim(token, deviceName, devicePub, atMs)), proof)
  }

  /** The first check that a redemption fails, in the order of the code. */
  function Objection(b: Book, r: Redemption, k: Crypto): Option<Failure> {
    var token := Normalize(r.token);
    if AbsDiff(r.atMs, r.now) > ENROLL_SKEW_MS then Some(ClockSkew)
    else if r.devicePub.None? || r.proof.None? then Some(BadRequest)
    else if !ProofHolds(r.devicePub.value, token, r.deviceName, r.atMs, r.proof.value, k) then Some(BadProof)
    else if token !in b.invites then Some(UnknownInvite)
    else if b.invites[token].usedAtMs.Some? then Some(InviteUsed)
    else if b.invites[token].expiresAtMs < r.now then Some(InviteExpired)
    else if b.nextSerial > MAX_I64 then Some(Storage)
    else None
  }

  function NewCert(b: Book, r: Redemption, k: Crypto): DeviceCert
    requires Objection(b, r, k).None?
  {
    var invite := b.invites[Normalize(r.token)];
    IssueCert(b.org, r.devicePub.value, invite.userId, if r.deviceName == [] then invite.displayName else r.deviceName,
              invite.role, b.nextSerial, r.certTtlMs, r.issueNow, k)
  }

  /** The upsert by peer id: a device that enrols again gets its new serial and is no longer revoked;
      its first user id and the key first stored stay. */
  function Enrolled(b: Book, r: Redemption, k: Crypto): Device
    requires Objection(b, r, k).None?
  {
    var cert, peer := NewCert(b, r, k), k.peerOf(r.devicePub.value).value;
    Device(b.nextSerial, if peer in b.devices then b.devices[peer].devicePub else r.devicePub.value,
           if peer in b.devices then b.devices[peer].userId else cert.claims.userId,
           cert.claims.displayName, cert.claims.role, r.platform, r.now, cert.claims.expiresAtMs, None)
  }

  function RedeemInvite(b: Book, r: Redemption, k: Crypto): After {
    var objection := Objection(b, r, k);
    if objection.Some? then After(b, Failed(objection.value))
    else
      var token, peer := Normalize(r.token), k.peerOf(r.devicePub.value).value;
      var invite := b.invites[token].(usedAtMs := Some(r.now), usedBy := Some(peer));
      After(b.(invites := b.invites[token := invite], devices := b.devices[peer := Enrolled(b, r, k)],
               nextSerial := b.nextSerial + 1),
            Issued(NewCert(b, r, k)))
  }

  predicate ActiveSerial(b: Book, p: Text, serial: U64) {
    p in b.devices && b.devices[p].serial == serial && b.devices[p].revokedAtMs.None?
  }

  function MarkRevoked(b: Book, serial: U64, now: U64): map<Text, Device> {
    map p | p in b.devices ::
      if ActiveSerial(b, p, serial) then b.devices[p].(revokedAtMs := Some(now)) else b.devices[p]
  }

  /** Two statements: mark the row, then stamp the list. The second may fail on its own. */
  function RevokeSerial(b: Book, serial: U64, now: U64, stampNow: U64, stamped: bool): After {
    if !exists p :: p in b.devices && ActiveSerial(b, p, serial) then After(b, Failed(NoActiveDevice))
    else
      var marked := b.(devices := MarkRevoked(b, serial, now));
      if stamped then After(marked.(crlUpdatedAtMs := stampNow), Done) else After(marked, Failed(Storage))
  }

  function Serve(b: Book, c: Call, k: Crypto): After {
    match c
    case Create(token, userId, displayName, role, ttlMs, now) =>
      CreateInvite(b, token, userId, displayName, role, ttlMs, now)
    case Redeem(r) => RedeemInvite(b, r, k)
    case Revoke(serial, now, stampNow, stamped) => RevokeSerial(b, serial, now, stampNow, stamped)
  }

  /** Serials that the device table marks revoked. */
  function RevokedSerials(b: Book): set<U64> {
    set p | p in b.devices && b.devices[p].revokedAtMs.Some? :: b.devices[p].serial
  }

  // ------------------------------------------------------------- the object

  class Store {
    const org: OrgKey
    const k: Crypto
    var invites: map<Text, Invite>
    var devices: map<Text, Device>
    var nextSerial: nat
    var crlUpdatedAtMs: U64

    function View(): Book
      reads this
    {
      Book(org, invites, devices, nextSerial, crlUpdatedAtMs)
    }

    /** `init` on an empty directory. */
    constructor (org: OrgKey, k: Crypto)
      ensures View() == Book(org, map[], map[], 1, 0) && this.k == k
    {
      this.org, this.k := org, k;
      invites, devices, nextSerial, crlUpdatedAtMs := map[], map[], 1, 0;
    }

    /** `token` is the freshly drawn random code. */
    method CreateInvite(token: Text, userId: Text, displayName: Text, role: Role, ttlMs: U64,
                        now: U64) returns (reply: Reply)
      modifies this`invites
      ensures After(View(), reply) == Serve(old(View()), Create(token, userId, displayName, role, ttlMs, now), k)
    {
      if token in invites {
        return Failed(Storage);
      }
      invites := invites[token := Invite(userId, displayName, role, SaturatingAdd(now, ttlMs), None, None)];
      reply := Done;
    }

    method RedeemInvite(r: Redemption) returns (reply: Reply)
      modifies this`invites, this`devices, this`nextSerial
      ensures After(View(), reply) == Serve(old(View()), Redeem(r), k)
    {
      var token := Normalize(r.token);
      if AbsDiff(r.atMs, r.now) > ENROLL_SKEW_MS {
        return Failed(ClockSkew);
      }
      if r.devicePub.None? || r.proof.None? {
        return Failed(BadRequest);
      }
      var devicePub := r.devicePub.value;
      if !ProofHolds(devicePub, token, r.deviceName, r.atMs, r.proof.value, k) {
        return Failed(BadProof);
      }
      if token !in invites {
        return Failed(UnknownInvite);
      }
      var invite := invites[token];
      if invite.usedAtMs.Some? {
        return Failed(InviteUsed);
      }
      if invite.expiresAtMs < r.now {
        return Failed(InviteExpired);
      }
      if nextSerial > MAX_I64 {
        return Failed(Storage);
      }
      var serial := nextSerial;
      nextSerial := nextSerial + 1;
      var name := if r.deviceName == [] then invite.displayName else r.deviceName;
      var cert := IssueCert(org, devicePub, invite.userId, name, invite.role, serial, r.certTtlMs, r.issueNow, k);
      var peer := k.peerOf(devicePub).value;
      invites := invites[token := invite.(usedAtMs := Some(r.now), usedBy := Some(peer))];
      var userId := if peer in devices then devices[peer].userId else invite.userId;
      var storedPub := if peer in devices then devices[peer].devicePub else devicePub;
      devices := devices[peer := Device(serial, storedPub, userId, name, invite.role, r.platform, r.now,
                                        cert.claims.expiresAtMs, None)];
      reply := Issued(cert);
    }

    method Revoke(serial: U64, now: U64, stampNow: U64, stamped: bool) returns (reply: Reply)
      modifies this`devices, this`crlUpdatedAtMs
      ensures After(View(), reply) == Serve(old(View()), Call.Revoke(serial, now, stampNow, stamped), k)
    {
      var n := MarkRows(serial, now);
      if n == 0 {
        return Failed(NoActiveDevice);
      }
      if !stamped {
        return Failed(Storage);
      }
      crlUpdatedAtMs := stampNow;
      reply := Done;
    }

    /** `UPDATE device SET revoked_at_ms = ... WHERE serial = ... AND revoked_at_ms IS NULL`. */
    method MarkRows(serial: U64, now: U64) returns (n: nat)
      modifies this`devices
      ensures devices == MarkRevoked(old(View()), serial, now)
      ensures n == 0 <==> !exists p :: p in old(devices) && ActiveSerial(old(View()), p, serial)
      ensures n == 0 ==> devices == old(devices)
    {
      ghost var before, was := devices, View();
      var todo := devices.Keys;
      n := 0;
      while todo != {}
        invariant todo <= before.Keys && devices.Keys == before.Keys
        invariant forall p :: p in before && p in todo ==> devices[p] == before[p]
        invariant forall p :: p in before && p !in todo ==>
          devices[p] == if ActiveSerial(was, p, serial) then before[p].(revokedAtMs := Some(now)) else before[p]
        invariant n == 0 <==> forall p :: p in before && p !in todo ==> !ActiveSerial(was, p, serial)
        decreases |todo|
      {
        var p :| p in todo;
        todo := todo - {p};
        if devices[p].serial == serial && devices[p].revokedAtMs.None? {
          assert ActiveSerial(was, p, serial);
          devices := devices[p := devices[p].(revokedAtMs := Some(now))];
          n := n + 1;
        }
      }
      MarkedRows(was, devices, serial, now);
    }

    /** `crl`: the signed list of the revoked rows, or the unsigned empty list when there are none. */
    method Crl() returns (list: RevocationList)
      ensures forall s :: s in list.revoked <==> s in RevokedSerials(View())
      ensures if RevokedSerials(View()) == {} then list == EmptyList(k.hash(org.pub))
              else list == SignCrl(org, list.revoked, crlUpdatedAtMs, k) && list.updatedAtMs == crlUpdatedAtMs
      ensures KeyPair(org, k) ==> VerifyList(list, k.hash(org.pub), k) == Accept
    {
      var serials: seq<U64> := [];
      var todo := devices.Keys;
      while todo != {}
        invariant todo <= devices.Keys
        invariant forall s :: s in serials <==>
          exists p :: p in devices.Keys - todo && devices[p].revokedAtMs.Some? && devices[p].serial == s
        decreases |todo|
      {
        var p :| p in todo;
        ghost var done := devices.Keys - todo;
        todo := todo - {p};
        assert devices.Keys - todo == done + {p};
        if devices[p].revokedAtMs.Some? {
          serials := serials + [devices[p].serial];
        }
      }
      assert forall s :: s in serials <==> s in RevokedSerials(View());
      if serials == [] {
        list := EmptyList(k.hash(org.pub));
      } else {
        assert serials[0] in RevokedSerials(View());
        list := SignCrl(org, serials, crlUpdatedAtMs, k);
        SignedMembers(org, serials, crlUpdatedAtMs, k);
        if KeyPair(org, k) {
          SignedListVerifies(org, serials, crlUpdatedAtMs, k);
        }
      }
    }
  }

  /** A table whose rows are marked one by one is the marked table. */
  lemma MarkedRows(b: Book, devices: map<Text, Device>, serial: U64, now: U64)
    requires devices.Keys == b.devices.Keys
    requires forall p :: p in b.devices ==>
      devices[p] == if ActiveSerial(b, p, serial) then b.devices[p].(revokedAtMs := Some(now)) else b.devices[p]
    ensures devices == MarkRevoked(b, serial, now)
    ensures (forall p :: p in b.devices ==> !ActiveSerial(b, p, serial)) ==> devices == b.devices
  {
    hide ActiveSerial;
  }

  lemma SignedMembers(org: OrgKey, serials: seq<U64>, updatedAtMs: U64, k: Crypto)
    ensures var l := SignCrl(org, serials, updatedAtMs, k);
            && (forall s :: s in l.revoked <==> s in serials) && StrictlySorted(l.revoked)
            && l == SignCrl(org, l.revoked, updatedAtMs, k)
  {
    SortAscends(serials);
    DedupSorts(SortSerials(serials));
    SortedIsFixed(Dedup(SortSerials(serials)));
  }

  lemma {:induction false} SortedIsFixed(s: seq<U64>)
    requires StrictlySorted(s)
    ensures SortSerials(s) == s && Dedup(s) == s
  {
    if s != [] {
      SortedIsFixed(s[..|s| - 1]);
      assert s == s[..|s| - 1] + [s[|s| - 1]];
    }
  }
}
