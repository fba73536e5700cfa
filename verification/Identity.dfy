/** Certificates, revocation lists and enrolment proofs: what their signatures cover, and how they
    are checked (rust/p2p-core/src/identity.rs and rust/p2p-core/src/enroll.rs). */
module Identity {
  import opened Bytes
  import opened HybridLogicalClock
  import opened Change

  const CERT_DOMAIN: Text := Ascii("p2p-org-devcert-v1")
  const CRL_DOMAIN: Text := Ascii("p2p-org-crl-v1")
  const ENROLL_DOMAIN: Text := Ascii("p2p-org-enroll-request-v1")

  type Key = b: Text | |b| == 32 witness seq(32, i => 0)

  datatype Role = Admin | Member | ReadOnly

  function RoleCode(r: Role): Byte {
    match r
    case Admin => 0
    case Member => 1
    case ReadOnly => 2
  }

  predicate MayWrite(r: Role) {
    r == Admin || r == Member
  }

  datatype CertClaims = CertClaims(
    orgId: Text, devicePub: Key, userId: Text, displayName: Text, role: Role,
    issuedAtMs: U64, expiresAtMs: U64, serial: U64)

  datatype DeviceCert = DeviceCert(claims: CertClaims, orgPub: Key, signature: Text)

  datatype RevocationList = RevocationList(
    orgId: Text, updatedAtMs: U64, revoked: seq<U64>, orgPub: Key, signature: Text)

  datatype EnrollClaim = EnrollClaim(token: Text, deviceName: Text, devicePub: Key, atMs: U64)

  // -------------------------------------------------------------- pre-images

  function CertTail(c: CertClaims): Text {
    [RoleCode(c.role)] + (Le(c.issuedAtMs, 8) + (Le(c.expiresAtMs, 8) + Le(c.serial, 8)))
  }

  function CertBytes(c: CertClaims): Text {
    CERT_DOMAIN + (PutStr(c.orgId) + (c.devicePub + (PutStr(c.userId) + (PutStr(c.displayName) + CertTail(c)))))
  }

  function SerialBytes(serials: seq<U64>): (b: Text)
    ensures |b| == 8 * |serials|
  {
    if serials == [] then [] else SerialBytes(serials[..|serials| - 1]) + Le(serials[|serials| - 1], 8)
  }

  function CrlBytes(l: RevocationList): Text {
    CRL_DOMAIN + (PutStr(l.orgId) + (Le(l.updatedAtMs, 8) + (Le(|l.revoked|, 4) + SerialBytes(l.revoked))))
  }

  /** The buffer as the code fills it, field after field. */
  method WriteCertBytes(c: CertClaims) returns (b: Text)
    ensures b == CertBytes(c)
  {
    b := CERT_DOMAIN;
    b := b + PutStr(c.orgId);
    b := b + c.devicePub;
    b := b + PutStr(c.userId);
    b := b + PutStr(c.displayName);
    ghost var head := b;
    b := b + [RoleCode(c.role)];
    b := b + Le(c.issuedAtMs, 8);
    b := b + Le(c.expiresAtMs, 8);
    b := b + Le(c.serial, 8);
    hide Le, PutStr;
    assert b == head + CertTail(c);
    assert head + CertTail(c) == CertBytes(c);
  }

  /** The buffer as the code fills it, serial after serial. */
  method WriteCrlBytes(l: RevocationList) returns (b: Text)
    ensures b == CrlBytes(l)
  {
    var head := CRL_DOMAIN + PutStr(l.orgId) + Le(l.updatedAtMs, 8) + Le(|l.revoked|, 4);
    b := head;
    for i := 0 to |l.revoked|
      invariant b == head + SerialBytes(l.revoked[..i])
    {
      assert l.revoked[..i + 1][..i] == l.revoked[..i];
      ConcatAssociates(head, SerialBytes(l.revoked[..i]), Le(l.revoked[i], 8));
      b := b + Le(l.revoked[i], 8);
    }
    assert l.revoked[..|l.revoked|] == l.revoked;
    var s := SerialBytes(l.revoked);
    ConcatAssociates(CRL_DOMAIN + PutStr(l.orgId) + Le(l.updatedAtMs, 8), Le(|l.revoked|, 4), s);
    ConcatAssociates(CRL_DOMAIN + PutStr(l.orgId), Le(l.updatedAtMs, 8), Le(|l.revoked|, 4) + s);
    ConcatAssociates(CRL_DOMAIN, PutStr(l.orgId), Le(l.updatedAtMs, 8) + (Le(|l.revoked|, 4) + s));
  }

  function EnrollBytes(e: EnrollClaim): Text {
    ENROLL_DOMAIN + (PutStr(e.token) + (PutStr(e.deviceName) + (e.devicePub + Le(e.atMs, 8))))
  }

  lemma CertTailDecodes(a: CertClaims, b: CertClaims)
    requires CertTail(a) == CertTail(b)
    ensures a.role == b.role && a.issuedAtMs == b.issuedAtMs && a.expiresAtMs == b.expiresAtMs && a.serial == b.serial
  {
    var a1, b1 := Le(a.expiresAtMs, 8) + Le(a.serial, 8), Le(b.expiresAtMs, 8) + Le(b.serial, 8);
    SplitEqual([RoleCode(a.role)], [RoleCode(b.role)], Le(a.issuedAtMs, 8) + a1, Le(b.issuedAtMs, 8) + b1);
    SplitEqual(Le(a.issuedAtMs, 8), Le(b.issuedAtMs, 8), a1, b1);
    SplitEqual(Le(a.expiresAtMs, 8), Le(b.expiresAtMs, 8), Le(a.serial, 8), Le(b.serial, 8));
    Le8(a.issuedAtMs, b.issuedAtMs);
    Le8(a.expiresAtMs, b.expiresAtMs);
    Le8(a.serial, b.serial);
    assert [RoleCode(a.role)][0] == [RoleCode(b.role)][0];
  }

  lemma CertBytesDecode(a: CertClaims, b: CertClaims)
    requires Fits(OfCert(a)) && Fits(OfCert(b)) && CertBytes(a) == CertBytes(b)
    ensures a == b
  {
    hide CertTail;
    var a1, b1 := PutStr(a.displayName) + CertTail(a), PutStr(b.displayName) + CertTail(b);
    var a2, b2 := PutStr(a.userId) + a1, PutStr(b.userId) + b1;
    var a3, b3 := a.devicePub + a2, b.devicePub + b2;
    SplitEqual(CERT_DOMAIN, CERT_DOMAIN, PutStr(a.orgId) + a3, PutStr(b.orgId) + b3);
    PutStrPrefixFree(a.orgId, b.orgId, a3, b3);
    SplitEqual(a.devicePub, b.devicePub, a2, b2);
    PutStrPrefixFree(a.userId, b.userId, a1, b1);
    PutStrPrefixFree(a.displayName, b.displayName, CertTail(a), CertTail(b));
    CertTailDecodes(a, b);
  }

  lemma {:induction false} SerialBytesDecode(a: seq<U64>, b: seq<U64>)
    requires |a| == |b| && SerialBytes(a) == SerialBytes(b)
    ensures a == b
  {
    if a != [] {
      var n := |a| - 1;
      SplitEqual(SerialBytes(a[..n]), SerialBytes(b[..n]), Le(a[n], 8), Le(b[n], 8));
      SerialBytesDecode(a[..n], b[..n]);
      Le8(a[n], b[n]);
      assert a == a[..n] + [a[n]] && b == b[..n] + [b[n]];
    }
  }

  lemma CrlBytesDecode(a: RevocationList, b: RevocationList)
    requires Fits(OfList(a)) && Fits(OfList(b)) && CrlBytes(a) == CrlBytes(b)
    ensures a.orgId == b.orgId && a.updatedAtMs == b.updatedAtMs && a.revoked == b.revoked
  {
    hide SerialBytes;
    var a1, b1 := Le(|a.revoked|, 4) + SerialBytes(a.revoked), Le(|b.revoked|, 4) + SerialBytes(b.revoked);
    var a2, b2 := Le(a.updatedAtMs, 8) + a1, Le(b.updatedAtMs, 8) + b1;
    SplitEqual(CRL_DOMAIN, CRL_DOMAIN, PutStr(a.orgId) + a2, PutStr(b.orgId) + b2);
    PutStrPrefixFree(a.orgId, b.orgId, a2, b2);
    SplitEqual(Le(a.updatedAtMs, 8), Le(b.updatedAtMs, 8), a1, b1);
    SplitEqual(Le(|a.revoked|, 4), Le(|b.revoked|, 4), SerialBytes(a.revoked), SerialBytes(b.revoked));
    Le8(a.updatedAtMs, b.updatedAtMs);
    Le4(|a.revoked|, |b.revoked|);
    SerialBytesDecode(a.revoked, b.revoked);
  }

  lemma EnrollBytesDecode(a: EnrollClaim, b: EnrollClaim)
    requires Fits(OfEnrolment(a)) && Fits(OfEnrolment(b)) && EnrollBytes(a) == EnrollBytes(b)
    ensures a == b
  {
    var a1, b1 := a.devicePub + Le(a.atMs, 8), b.devicePub + Le(b.atMs, 8);
    var a2, b2 := PutStr(a.deviceName) + a1, PutStr(b.deviceName) + b1;
    SplitEqual(ENROLL_DOMAIN, ENROLL_DOMAIN, PutStr(a.token) + a2, PutStr(b.token) + b2);
    PutStrPrefixFree(a.token, b.token, a2, b2);
    PutStrPrefixFree(a.deviceName, b.deviceName, a1, b1);
    SplitEqual(a.devicePub, b.devicePub, Le(a.atMs, 8), Le(b.atMs, 8));
    Le8(a.atMs, b.atMs);
  }

  /** Everything that is ever signed. */
  datatype Statement =
    | OfCert(cert: CertClaims)
    | OfList(list: RevocationList)
    | OfEnrolment(claim: EnrollClaim)
    | OfChange(record: ChangeRecord)

  function PreImage(s: Statement): Text {
    match s
    case OfCert(c) => CertBytes(c)
    case OfList(l) => CrlBytes(l)
    case OfEnrolment(e) => EnrollBytes(e)
    case OfChange(r) => SigningBytes(r)
  }

  /** Variable-length fields are shorter than 2^32, so their length prefix is exact. */
  predicate Fits(s: Statement) {
    match s
    case OfCert(c) => |c.orgId| <= MAX_U32 && |c.userId| <= MAX_U32 && |c.displayName| <= MAX_U32
    case OfList(l) => |l.orgId| <= MAX_U32 && |l.revoked| <= MAX_U32
    case OfEnrolment(e) => |e.token| <= MAX_U32 && |e.deviceName| <= MAX_U32
    case OfChange(r) => Short(r)
  }

  /** The signed content, without the fields that carry or locate the signature. */
  function Content(s: Statement): Statement {
    match s
    case OfList(l) => OfList(l.(orgPub := seq(32, i => 0), signature := []))
    case OfChange(r) => OfChange(r.(sig := []))
    case _ => s
  }

  predicate SameKind(a: Statement, b: Statement) {
    (a.OfCert? <==> b.OfCert?) && (a.OfList? <==> b.OfList?) && (a.OfEnrolment? <==> b.OfEnrolment?)
  }

  /** The two bytes that tell the four domains apart. */
  lemma DomainBytes(s: Statement)
    ensures |PreImage(s)| >= 13
    ensures PreImage(s)[4] == if s.OfChange? then 'c' as int else 'o' as int
    ensures s.OfCert? ==> PreImage(s)[8] == 'd' as int
    ensures s.OfList? ==> PreImage(s)[8] == 'c' as int
    ensures s.OfEnrolment? ==> PreImage(s)[8] == 'e' as int
  {
    hide Le, PutStr, CertTail, SerialBytes, SigningValue;
    match s {
      case OfCert(c) => assert PreImage(s)[..|CERT_DOMAIN|] == CERT_DOMAIN;
      case OfList(l) => assert PreImage(s)[..|CRL_DOMAIN|] == CRL_DOMAIN;
      case OfEnrolment(e) => assert PreImage(s)[..|ENROLL_DOMAIN|] == ENROLL_DOMAIN;
      case OfChange(r) => assert PreImage(s)[..|CHANGE_DOMAIN|] == CHANGE_DOMAIN;
    }
  }

  /** A signature speaks for one statement only: equal bytes mean the same kind and the same content. */
  lemma PreImagesDecode(a: Statement, b: Statement)
    requires Fits(a) && Fits(b) && PreImage(a) == PreImage(b)
    ensures SameKind(a, b) && Content(a) == Content(b)
  {
    DomainBytes(a);
    DomainBytes(b);
    hide CertBytes, CrlBytes, EnrollBytes, SigningBytes;
    match a
    case OfCert(c) => CertBytesDecode(c, b.cert);
    case OfList(l) => CrlBytesDecode(l, b.list);
    case OfEnrolment(e) => EnrollBytesDecode(e, b.claim);
    case OfChange(r) => SigningBytesDecode(r, b.record);
  }

  // ---------------------------------------------------------- revocation lists

  predicate StrictlySorted(s: seq<U64>) {
    forall i, j :: 0 <= i < j < |s| ==> s[i] < s[j]
  }

  /** `windows(2).all(|w| w[0] < w[1])`. */
  predicate NeighboursAscend(s: seq<U64>) {
    forall i :: 0 <= i < |s| - 1 ==> s[i] < s[i + 1]
  }

  lemma {:induction false} NeighboursSuffice(s: seq<U64>)
    ensures NeighboursAscend(s) <==> StrictlySorted(s)
  {
    if |s| > 1 {
      var init := s[..|s| - 1];
      NeighboursSuffice(init);
      if NeighboursAscend(s) {
        forall i | 0 <= i < |init| - 1
          ensures init[i] < init[i + 1]
        {
          assert s[i] < s[i + 1];
        }
        assert s[|s| - 2] < s[|s| - 2 + 1];
        assert forall i :: 0 <= i < |init| ==> init[i] == s[i];
      }
    }
  }

  /** `slice::binary_search(..).is_ok()` between `lo` and `hi`. */
  predicate Found(s: seq<U64>, x: U64, lo: nat, hi: nat)
    requires hi <= |s|
    decreases hi - lo
  {
    if lo >= hi then false
    else
      var mid := (lo + hi) / 2;
      if s[mid] == x then true
      else if s[mid] < x then Found(s, x, mid + 1, hi)
      else Found(s, x, lo, mid)
  }

  predicate IsRevoked(l: RevocationList, serial: U64) {
    Found(l.revoked, serial, 0, |l.revoked|)
  }

  lemma {:induction false} FoundIsMember(s: seq<U64>, x: U64, lo: nat, hi: nat)
    requires hi <= |s| && StrictlySorted(s)
    ensures Found(s, x, lo, hi) <==> exists i :: lo <= i < hi && s[i] == x
    decreases hi - lo
  {
    if lo < hi {
      var mid := (lo + hi) / 2;
      if s[mid] < x {
        FoundIsMember(s, x, mid + 1, hi);
      } else if s[mid] > x {
        FoundIsMember(s, x, lo, mid);
      }
    }
  }

  function InsertSerial(s: seq<U64>, x: U64): seq<U64> {
    if s == [] || s[|s| - 1] <= x then s + [x] else InsertSerial(s[..|s| - 1], x) + [s[|s| - 1]]
  }

  function SortSerials(s: seq<U64>): seq<U64> {
    if s == [] then [] else InsertSerial(SortSerials(s[..|s| - 1]), s[|s| - 1])
  }

  /** `Vec::dedup`: drops each element equal to the one before it. */
  function Dedup(s: seq<U64>): seq<U64> {
    if |s| < 2 then s
    else if s[|s| - 1] == s[|s| - 2] then Dedup(s[..|s| - 1])
    else Dedup(s[..|s| - 1]) + [s[|s| - 1]]
  }

  predicate Ascending(s: seq<U64>) {
    forall i, j :: 0 <= i < j < |s| ==> s[i] <= s[j]
  }

  lemma {:induction false} InsertAscends(s: seq<U64>, x: U64)
    requires Ascending(s)
    ensures Ascending(InsertSerial(s, x)) && forall y :: y in InsertSerial(s, x) <==> y in s || y == x
  {
    if s != [] && s[|s| - 1] > x {
      var init, last := s[..|s| - 1], s[|s| - 1];
      assert s == init + [last];
      InsertAscends(init, x);
      var r := InsertSerial(init, x);
      forall i | 0 <= i < |r|
        ensures r[i] <= last
      {
        assert r[i] in init || r[i] == x;
      }
    }
  }

  lemma {:induction false} SortAscends(s: seq<U64>)
    ensures Ascending(SortSerials(s)) && forall y :: y in SortSerials(s) <==> y in s
  {
    if s != [] {
      assert s == s[..|s| - 1] + [s[|s| - 1]];
      SortAscends(s[..|s| - 1]);
      InsertAscends(SortSerials(s[..|s| - 1]), s[|s| - 1]);
    }
  }

  lemma {:induction false} DedupSorts(s: seq<U64>)
    requires Ascending(s)
    ensures StrictlySorted(Dedup(s)) && (forall y :: y in Dedup(s) <==> y in s)
    ensures s != [] ==> Dedup(s) != [] && Dedup(s)[|Dedup(s)| - 1] == s[|s| - 1]
  {
    if |s| >= 2 {
      var init, last := s[..|s| - 1], s[|s| - 1];
      assert s == init + [last];
      DedupSorts(init);
    }
  }

  // ------------------------------------------------------------------ signing

  /** Ed25519, the organisation hash and peer ids, left abstract. `peerOf` is `None` for bytes that
      are no public key. */
  datatype Crypto = Crypto(hash: Key -> Text, verifies: (Key, Text, Text) -> bool, peerOf: Key -> Option<Text>)

  /** The organisation's root key. */
  datatype OrgKey = OrgKey(pub: Key, sign: Text -> Text)

  /** Signatures made with the root key verify under its public half. */
  ghost predicate KeyPair(org: OrgKey, k: Crypto) {
    k.peerOf(org.pub).Some? && forall m: Text :: k.verifies(org.pub, m, org.sign(m))
  }

  function SaturatingAdd(a: U64, b: U64): U64 {
    if a + b > MAX_U64 then MAX_U64 else a + b
  }

  function IssueCert(org: OrgKey, devicePub: Key, userId: Text, name: Text, role: Role, serial: U64,
                     validForMs: U64, now: U64, k: Crypto): DeviceCert
  {
    var expiresAtMs := SaturatingAdd(now, validForMs);
    var claims := CertClaims(k.hash(org.pub), devicePub, userId, name, role, now, expiresAtMs, serial);
    DeviceCert(claims, org.pub, org.sign(CertBytes(claims)))
  }

  function SignCrl(org: OrgKey, revoked: seq<U64>, updatedAtMs: U64, k: Crypto): RevocationList {
    var l := RevocationList(k.hash(org.pub), updatedAtMs, Dedup(SortSerials(revoked)), org.pub, []);
    l.(signature := org.sign(CrlBytes(l)))
  }

  function EmptyList(orgId: Text): RevocationList {
    RevocationList(orgId, 0, [], seq(32, i => 0), [])
  }

  datatype Verdict = Accept | Refuse(why: Refusal)
  datatype Refusal =
    | OtherOrg | OrgIdMismatch | BadKey | BadSignature | Expired | NotYetValid | OtherDevice | Revoked | Unsorted

  function VerifyList(l: RevocationList, org: Text, k: Crypto): Verdict {
    if l.updatedAtMs == 0 && l.revoked == [] then Accept
    else if l.orgId != org || k.hash(l.orgPub) != org then Refuse(OtherOrg)
    else if !NeighboursAscend(l.revoked) then Refuse(Unsorted)
    else if k.peerOf(l.orgPub).None? then Refuse(BadKey)
    else if !k.verifies(l.orgPub, CrlBytes(l), l.signature) then Refuse(BadSignature)
    else Accept
  }

  function VerifyCert(c: DeviceCert, org: Text, peer: Option<Text>, list: Option<RevocationList>, now: U64,
                      k: Crypto): Verdict {
    if k.hash(c.orgPub) != org then Refuse(OtherOrg)
    else if c.claims.orgId != org then Refuse(OrgIdMismatch)
    else if k.peerOf(c.orgPub).None? then Refuse(BadKey)
    else if !k.verifies(c.orgPub, CertBytes(c.claims), c.signature) then Refuse(BadSignature)
    else if now >= c.claims.expiresAtMs then Refuse(Expired)
    else if now + MAX_CLOCK_DRIFT_MS < c.claims.issuedAtMs then Refuse(NotYetValid)
    else if peer.Some? && k.peerOf(c.claims.devicePub).None? then Refuse(BadKey)
    else if peer.Some? && k.peerOf(c.claims.devicePub) != peer then Refuse(OtherDevice)
    else if list.Some? && IsRevoked(list.value, c.claims.serial) then Refuse(Revoked)
    else Accept
  }

  lemma SignedVerifies(l: RevocationList, signature: Text, org: OrgKey, k: Crypto)
    requires KeyPair(org, k) && l.orgPub == org.pub && l.orgId == k.hash(org.pub) && NeighboursAscend(l.revoked)
    requires signature == org.sign(CrlBytes(l))
    ensures VerifyList(l.(signature := signature), k.hash(org.pub), k) == Accept
  {
    hide NeighboursAscend, SerialBytes;
    assert CrlBytes(l) == CrlBytes(l.(signature := signature));
    assert k.verifies(org.pub, CrlBytes(l), org.sign(CrlBytes(l)));
  }

  /** What `sign_crl` produces is strictly sorted, names the same serials under the time given, and verifies. */
  lemma SignedListVerifies(org: OrgKey, revoked: seq<U64>, updatedAtMs: U64, k: Crypto)
    requires KeyPair(org, k)
    ensures var l := SignCrl(org, revoked, updatedAtMs, k);
            && StrictlySorted(l.revoked) && (forall s :: s in l.revoked <==> s in revoked)
            && l.updatedAtMs == updatedAtMs && l.orgId == k.hash(org.pub) && l.orgPub == org.pub
            && VerifyList(l, k.hash(org.pub), k) == Accept
  {
    SortAscends(revoked);
    DedupSorts(SortSerials(revoked));
    var serials := Dedup(SortSerials(revoked));
    NeighboursSuffice(serials);
    hide SortSerials, Dedup, StrictlySorted, NeighboursAscend, KeyPair, CrlBytes, VerifyList;
    var l := RevocationList(k.hash(org.pub), updatedAtMs, serials, org.pub, []);
    SignedVerifies(l, org.sign(CrlBytes(l)), org, k);
  }

  /** On every list that verification accepts, the binary search is plain membership. */
  lemma AcceptedListIsSearchable(l: RevocationList, org: Text, k: Crypto, serial: U64)
    requires VerifyList(l, org, k) == Accept
    ensures IsRevoked(l, serial) <==> serial in l.revoked
  {
    NeighboursSuffice(l.revoked);
    FoundIsMember(l.revoked, serial, 0, |l.revoked|);
  }

  /** A certificate of the organisation is accepted from a peer, at any reading of the clock, exactly while its
      lifetime lasts (from issue, less the drift window, to the end, which saturates), if the peer is the device it
      names and the verified list does not name its serial. */
  lemma IssuedCertVerifiesIff(org: OrgKey, devicePub: Key, userId: Text, name: Text, role: Role, serial: U64,
                              validForMs: U64, issued: U64, now: U64, peer: Text, list: RevocationList, k: Crypto)
    requires KeyPair(org, k) && VerifyList(list, k.hash(org.pub), k) == Accept
    ensures var c := IssueCert(org, devicePub, userId, name, role, serial, validForMs, issued, k);
            VerifyCert(c, k.hash(org.pub), Some(peer), Some(list), now, k) == Accept
            <==> now < issued + validForMs && now < MAX_U64 && issued <= now + 60_000
                 && k.peerOf(devicePub) == Some(peer) && serial !in list.revoked
  {
    AcceptedListIsSearchable(list, k.hash(org.pub), k, serial);
  }

  /** A freshly issued certificate is accepted from a peer exactly when it was given some lifetime, the
      peer is the device it names, and the verified list does not name its serial. */
  lemma FreshCertVerifiesIff(org: OrgKey, devicePub: Key, userId: Text, name: Text, role: Role, serial: U64,
                             validForMs: U64, now: U64, peer: Text, list: RevocationList, k: Crypto)
    requires KeyPair(org, k) && VerifyList(list, k.hash(org.pub), k) == Accept
    ensures var c := IssueCert(org, devicePub, userId, name, role, serial, validForMs, now, k);
            VerifyCert(c, k.hash(org.pub), Some(peer), Some(list), now, k) == Accept
            <==> validForMs > 0 && now < MAX_U64 && k.peerOf(devicePub) == Some(peer) && serial !in list.revoked
  {
    hide VerifyList, VerifyCert, IssueCert, KeyPair;
    IssuedCertVerifiesIff(org, devicePub, userId, name, role, serial, validForMs, now, now, peer, list, k);
  }

  /** Whatever verifies under the organisation's key is the pre-image of something it signed. */
  ghost predicate Unforgeable(org: Text, k: Crypto, signed: set<Statement>) {
    forall pub: Key, m: Text, sig: Text :: k.hash(pub) == org && k.verifies(pub, m, sig) ==>
      exists s :: s in signed && Fits(s) && PreImage(s) == m
  }

  /** An accepted certificate is one that the organisation issued as a certificate, for the very device
      on the other end of the connection, in date, and not on the list. */
  lemma AcceptedCertWasIssued(c: DeviceCert, org: Text, peer: Text, list: RevocationList, now: U64, k: Crypto,
                              signed: set<Statement>)
    requires Unforgeable(org, k, signed) && Fits(OfCert(c.claims)) && VerifyList(list, org, k) == Accept
    requires VerifyCert(c, org, Some(peer), Some(list), now, k) == Accept
    ensures OfCert(c.claims) in signed && c.claims.orgId == org && k.peerOf(c.claims.devicePub) == Some(peer)
    ensures c.claims.issuedAtMs <= now + MAX_CLOCK_DRIFT_MS && now < c.claims.expiresAtMs
    ensures c.claims.serial !in list.revoked
  {
    AcceptedListIsSearchable(list, org, k, c.claims.serial);
    CertWasIssued(c, org, k, signed);
  }

  lemma CertWasIssued(c: DeviceCert, org: Text, k: Crypto, signed: set<Statement>)
    requires Unforgeable(org, k, signed) && Fits(OfCert(c.claims))
    requires k.hash(c.orgPub) == org && k.verifies(c.orgPub, CertBytes(c.claims), c.signature)
    ensures OfCert(c.claims) in signed
  {
    var s :| s in signed && Fits(s) && PreImage(s) == CertBytes(c.claims);
    hide PreImage;
    CertPreImage(c.claims);
    PreImagesDecode(s, OfCert(c.claims));
  }

  lemma CertPreImage(c: CertClaims)
    ensures PreImage(OfCert(c)) == CertBytes(c)
  {
  }

  /** A list whose bytes are those of a statement that fits, fits itself: the bytes give its length away. */
  lemma SignedListFits(l: RevocationList, s: Statement)
    requires Fits(s) && |l.orgId| <= MAX_U32 && PreImage(s) == CrlBytes(l)
    ensures s.OfList? && Fits(OfList(l))
  {
    DomainBytes(s);
    DomainBytes(OfList(l));
    assert PreImage(OfList(l)) == CrlBytes(l);
    var m := s.list;
    var l1, m1 := Le(|l.revoked|, 4) + SerialBytes(l.revoked), Le(|m.revoked|, 4) + SerialBytes(m.revoked);
    var l2, m2 := Le(l.updatedAtMs, 8) + l1, Le(m.updatedAtMs, 8) + m1;
    SplitEqual(CRL_DOMAIN, CRL_DOMAIN, PutStr(l.orgId) + l2, PutStr(m.orgId) + m2);
    PutStrPrefixFree(l.orgId, m.orgId, l2, m2);
  }

  /** An accepted list is the empty bootstrap list or one that the organisation signed as a list. */
  lemma AcceptedListWasIssued(l: RevocationList, org: Text, k: Crypto, signed: set<Statement>)
    requires Unforgeable(org, k, signed) && |org| <= MAX_U32 && VerifyList(l, org, k) == Accept
    ensures (l.updatedAtMs == 0 && l.revoked == []) ||
            exists s :: s in signed && s.OfList? && Content(s) == Content(OfList(l))
  {
    if l.updatedAtMs != 0 || l.revoked != [] {
      var s :| s in signed && Fits(s) && PreImage(s) == CrlBytes(l);
      SignedListFits(l, s);
      assert PreImage(OfList(l)) == CrlBytes(l);
      PreImagesDecode(s, OfList(l));
    }
  }

  // ------------------------------------------------------------ merging lists

  /** `merge_crl`: a strictly newer, valid list replaces the stored one. */
  function MergeCrl(mine: RevocationList, incoming: RevocationList, org: Text, k: Crypto): RevocationList {
    if incoming.updatedAtMs <= mine.updatedAtMs || VerifyList(incoming, org, k) != Accept then mine else incoming
  }

  /** The issuer only ever signs growing sets, with a later timestamp on each. */
  ghost predicate GrowingIssuer(org: Text, k: Crypto) {
    forall a, b :: VerifyList(a, org, k) == VerifyList(b, org, k) == Accept && a.updatedAtMs < b.updatedAtMs ==>
      forall s :: s in a.revoked ==> s in b.revoked
  }

  /** Merging keeps a verified list, never goes back in time, and (for a growing issuer) never
      forgets a revocation. */
  lemma MergeKeeps(mine: RevocationList, incoming: RevocationList, org: Text, k: Crypto)
    requires VerifyList(mine, org, k) == Accept
    ensures var merged := MergeCrl(mine, incoming, org, k);
            && VerifyList(merged, org, k) == Accept && mine.updatedAtMs <= merged.updatedAtMs
            && (GrowingIssuer(org, k) ==> forall s :: s in mine.revoked ==> s in merged.revoked)
  {
    hide VerifyList;
  }

  // -------------------------------------------------------------- invite codes

  predicate IsAlnum(b: Byte) {
    48 <= b <= 57 || 65 <= b <= 90 || 97 <= b <= 122
  }

  function Upper(b: Byte): Byte {
    if 97 <= b <= 122 then b - 32 else b
  }

  /** `normalize_invite_code`. */
  function Normalize(raw: Text): Text {
    if raw == [] then []
    else
      var init := Normalize(raw[..|raw| - 1]);
      if IsAlnum(raw[|raw| - 1]) then init + [Upper(raw[|raw| - 1])] else init
  }

  const DASH: Byte := 45

  /** `invite_code_display`: groups of five joined by dashes. */
  function Display(token: Text): Text {
    if |token| <= 5 then token else token[..5] + [DASH] + Display(token[5..])
  }

  /** A stored code: upper-case letters and digits only. */
  predicate Canonical(token: Text) {
    forall i :: 0 <= i < |token| ==> IsAlnum(token[i]) && Upper(token[i]) == token[i]
  }

  lemma {:induction false} NormalizeConcat(a: Text, b: Text)
    ensures Normalize(a + b) == Normalize(a) + Normalize(b)
  {
    if b == [] {
      assert a + b == a;
    } else {
      assert (a + b)[..|a + b| - 1] == a + b[..|b| - 1];
      NormalizeConcat(a, b[..|b| - 1]);
    }
  }

  lemma {:induction false} NormalizeCanonical(token: Text)
    ensures Canonical(Normalize(token)) && (Canonical(token) ==> Normalize(token) == token)
  {
    if token != [] {
      NormalizeCanonical(token[..|token| - 1]);
      assert token == token[..|token| - 1] + [token[|token| - 1]];
    }
  }

  /** Whatever is put between the letters and digits of a code makes no difference, and no letter or digit is lost. */
  lemma NormalizeKeepsSymbols(a: Text, b: Byte, c: Text)
    ensures Normalize(a + [b] + c) == Normalize(a) + (if IsAlnum(b) then [Upper(b)] else []) + Normalize(c)
  {
    NormalizeConcat(a + [b], c);
    NormalizeConcat(a, [b]);
    assert Normalize([]) == [] && [b][..0] == [];
  }

  /** The displayed form has a dash after every five symbols and the symbols of the code elsewhere. */
  lemma {:induction false} DisplayGroups(token: Text, i: nat)
    requires i < |Display(token)|
    ensures |Display(token)| == if token == [] then 0 else |token| + (|token| - 1) / 5
    ensures if i % 6 == 5 then Display(token)[i] == DASH
            else i - i / 6 < |token| && Display(token)[i] == token[i - i / 6]
  {
    if |token| > 5 {
      if i >= 6 {
        DisplayGroups(token[5..], i - 6);
      } else {
        DisplayGroups(token[5..], 0);
      }
    }
  }

  /** What is shown to a person can be typed back: grouping never changes a code. */
  lemma {:induction false} DisplayRoundTrip(token: Text)
    requires Canonical(token)
    ensures Normalize(Display(token)) == token
  {
    if |token| <= 5 {
      NormalizeCanonical(token);
    } else {
      var head, tail := token[..5], token[5..];
      NormalizeCanonical(head);
      DisplayRoundTrip(tail);
      NormalizeConcat(head + [DASH], Display(tail));
      NormalizeConcat(head, [DASH]);
      assert [DASH][..0] == [];
      assert Normalize([DASH]) == [];
      assert token == head + tail;
    }
  }

  predicate SameButCase(a: Text, b: Text) {
    |a| == |b| && forall i :: 0 <= i < |a| ==> Upper(a[i]) == Upper(b[i])
  }

  /** Case never matters, and normalising twice changes nothing. */
  lemma {:induction false} NormalizeIgnoresCase(a: Text, b: Text)
    requires SameButCase(a, b)
    ensures Normalize(a) == Normalize(b) && Normalize(Normalize(a)) == Normalize(a)
  {
    NormalizeCanonical(a);
    NormalizeCanonical(Normalize(a));
    if a != [] {
      NormalizeIgnoresCase(a[..|a| - 1], b[..|b| - 1]);
      assert Upper(a[|a| - 1]) == Upper(b[|b| - 1]);
    }
  }
}
