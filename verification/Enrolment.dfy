/** Who gets which certificate: every certificate, device row and table entry goes back to the invite that was
    created for it. */
module Enrolment {
  import opened Bytes
  import opened Identity
  import opened Registry
  import opened Ledger
  import Gate
  import GateRuns

  // ------------------------------------------------------------------- invites

  /** Call `i` is the first to create the token, and the invite is as it asked. */
  ghost predicate MadeBy(calls: seq<Call>, i: nat, token: Text, invite: Invite) {
    && i < |calls| && calls[i].Create? && calls[i].token == token
    && (forall j :: 0 <= j < i && calls[j].Create? ==> calls[j].token != token)
    && invite.userId == calls[i].userId && invite.displayName == calls[i].displayName && invite.role == calls[i].role
    && invite.expiresAtMs == if calls[i].now + calls[i].ttlMs > MAX_U64 then MAX_U64 else calls[i].now + calls[i].ttlMs
  }

  /** The invites are those created, each as its first creation asked. */
  ghost predicate InvitesFromCalls(calls: seq<Call>, n: nat, b: Book)
    requires n <= |calls|
  {
    && (forall t :: t in b.invites ==> exists i :: 0 <= i < n && MadeBy(calls, i, t, b.invites[t]))
    && (forall i :: 0 <= i < n && calls[i].Create? ==> calls[i].token in b.invites)
  }

  lemma CreateKeepsInvites(calls: seq<Call>, n: nat, b: Book, k: Crypto)
    requires n < |calls| && calls[n].Create? && InvitesFromCalls(calls, n, b)
    ensures InvitesFromCalls(calls, n + 1, Serve(b, calls[n], k).book)
  {
    var c, b' := calls[n], Serve(b, calls[n], k).book;
    forall t | t in b'.invites
      ensures exists i :: 0 <= i < n + 1 && MadeBy(calls, i, t, b'.invites[t])
    {
      if t in b.invites {
        var i :| 0 <= i < n && MadeBy(calls, i, t, b.invites[t]);
      } else {
        assert MadeBy(calls, n, t, b'.invites[t]);
      }
    }
  }

  /** Any other call leaves the invites alone but for the marks of use. */
  ghost predicate SameOffers(a: Book, b: Book) {
    && a.invites.Keys == b.invites.Keys
    && (forall t :: t in a.invites ==>
          && b.invites[t].userId == a.invites[t].userId && b.invites[t].displayName == a.invites[t].displayName
          && b.invites[t].role == a.invites[t].role && b.invites[t].expiresAtMs == a.invites[t].expiresAtMs)
  }

  lemma OtherCallsKeepOffers(b: Book, c: Call, k: Crypto)
    requires !c.Create?
    ensures SameOffers(b, Serve(b, c, k).book)
  {
    hide NewCert, Enrolled, ActiveSerial, MarkRevoked, ProofHolds, Normalize;
  }

  lemma OffersKeepInvites(calls: seq<Call>, n: nat, b: Book, b': Book)
    requires n < |calls| && !calls[n].Create? && InvitesFromCalls(calls, n, b) && SameOffers(b, b')
    ensures InvitesFromCalls(calls, n + 1, b')
  {
    forall t | t in b'.invites
      ensures exists i :: 0 <= i < n + 1 && MadeBy(calls, i, t, b'.invites[t])
    {
      var i :| 0 <= i < n && MadeBy(calls, i, t, b.invites[t]);
      assert MadeBy(calls, i, t, b'.invites[t]);
    }
  }

  /** Over any run, an invite exists exactly if some call created its code, and it is for the user, name, role and
      time that the first such call gave. */
  lemma {:induction false} InvitesAreAsCreated(b: Book, calls: seq<Call>, n: nat, k: Crypto)
    requires n <= |calls| && Opened(b)
    ensures InvitesFromCalls(calls, n, RunCalls(b, calls, n, k).book)
  {
    hide Serve, InvitesFromCalls;
    if n == 0 {
      NoInvites(calls, b);
    } else {
      InvitesAreAsCreated(b, calls, n - 1, k);
      var h := RunCalls(b, calls, n - 1, k);
      if calls[n - 1].Create? {
        CreateKeepsInvites(calls, n - 1, h.book, k);
      } else {
        OtherCallsKeepOffers(h.book, calls[n - 1], k);
        OffersKeepInvites(calls, n - 1, h.book, Serve(h.book, calls[n - 1], k).book);
      }
    }
  }

  lemma NoInvites(calls: seq<Call>, b: Book)
    requires b.invites == map[]
    ensures InvitesFromCalls(calls, 0, b)
  {
  }

  // -------------------------------------------------------------- certificates

  /** The certificate of a grant says what the redemption `r` and the creation `c` of its invite say. */
  ghost predicate AsInvited(c: Call, r: Redemption, g: Grant, org: OrgKey, k: Crypto)
    requires c.Create?
  {
    var claims := g.cert.claims;
    && c.token == g.token == Normalize(r.token) && r.devicePub == Some(claims.devicePub)
    && claims.userId == c.userId && claims.role == c.role
    && claims.displayName == (if r.deviceName == [] then c.displayName else r.deviceName)
    && claims.serial == g.serial && k.peerOf(claims.devicePub) == Some(g.peer)
    && claims.issuedAtMs == r.issueNow && claims.orgId == k.hash(org.pub)
    && claims.expiresAtMs == (if r.issueNow + r.certTtlMs > MAX_U64 then MAX_U64 else r.issueNow + r.certTtlMs)
    && g.cert.orgPub == org.pub && g.cert.signature == org.sign(CertBytes(claims))
  }

  /** The grant goes back to the creation of its invite by call `i` and its redemption by call `j`. */
  ghost predicate GrantedBy(calls: seq<Call>, i: nat, j: nat, g: Grant, org: OrgKey, k: Crypto) {
    && i < j < |calls| && calls[i].Create? && calls[j].Redeem? && AsInvited(calls[i], calls[j].r, g, org, k)
    && (forall e :: 0 <= e < i && calls[e].Create? ==> calls[e].token != g.token)
  }

  ghost predicate GrantsFromCalls(calls: seq<Call>, n: nat, h: History, k: Crypto)
    requires n <= |calls|
  {
    forall g :: g in h.grants ==> exists i, j :: 0 <= i < j < n && GrantedBy(calls, i, j, g, h.book.org, k)
  }

  /** What a redemption hands out, and what it writes about it. */
  lemma RedeemIsAsInvited(h: History, r: Redemption, k: Crypto)
    requires Objection(h.book, r, k).None?
    ensures var h', t := Served(h, Redeem(r), k), Normalize(r.token);
            && |h'.grants| == |h.grants| + 1 && h'.grants[..|h.grants|] == h.grants
            && var g := h'.grants[|h.grants|];
               && g.token == t && g.serial == h.book.nextSerial && r.devicePub == Some(g.cert.claims.devicePub)
               && t in h.book.invites && g.cert.claims.userId == h.book.invites[t].userId
               && g.cert.claims.role == h.book.invites[t].role
               && g.cert.claims.displayName ==
                  (if r.deviceName == [] then h.book.invites[t].displayName else r.deviceName)
               && g.cert.claims.serial == g.serial && k.peerOf(g.cert.claims.devicePub) == Some(g.peer)
               && g.cert.claims.issuedAtMs == r.issueNow && g.cert.claims.orgId == k.hash(h.book.org.pub)
               && g.cert.claims.expiresAtMs ==
                  (if r.issueNow + r.certTtlMs > MAX_U64 then MAX_U64 else r.issueNow + r.certTtlMs)
               && g.cert.orgPub == h.book.org.pub && g.cert.signature == h.book.org.sign(CertBytes(g.cert.claims))
  {
    hide CertBytes, Normalize, EnrollBytes;
  }

  lemma RedeemKeepsGrants(calls: seq<Call>, n: nat, h: History, k: Crypto)
    requires n < |calls| && calls[n].Redeem? && Objection(h.book, calls[n].r, k).None?
    requires InvitesFromCalls(calls, n, h.book) && GrantsFromCalls(calls, n, h, k)
    ensures GrantsFromCalls(calls, n + 1, Served(h, calls[n], k), k)
  {
    var r, h' := calls[n].r, Served(h, calls[n], k);
    RedeemIsAsInvited(h, r, k);
    var g := h'.grants[|h.grants|];
    assert h'.book.org == h.book.org;
    hide Served, Objection, CertBytes, Normalize;
    var i :| 0 <= i < n && MadeBy(calls, i, g.token, h.book.invites[g.token]);
    assert GrantedBy(calls, i, n, g, h.book.org, k);
    forall x | x in h'.grants
      ensures exists i, j :: 0 <= i < j < n + 1 && GrantedBy(calls, i, j, x, h.book.org, k)
    {
      if x in h.grants {
        var i, j :| 0 <= i < j < n && GrantedBy(calls, i, j, x, h.book.org, k);
      } else {
        assert h'.grants == h'.grants[..|h.grants|] + [g];
      }
    }
  }

  lemma QuietKeepsGrants(calls: seq<Call>, n: nat, h: History, h': History, k: Crypto)
    requires n < |calls| && GrantsFromCalls(calls, n, h, k) && h'.grants == h.grants && h'.book.org == h.book.org
    ensures GrantsFromCalls(calls, n + 1, h', k)
  {
    forall g | g in h'.grants
      ensures exists i, j :: 0 <= i < j < n + 1 && GrantedBy(calls, i, j, g, h'.book.org, k)
    {
      var i, j :| 0 <= i < j < n && GrantedBy(calls, i, j, g, h.book.org, k);
    }
  }

  lemma OtherCallsGrantNothing(h: History, c: Call, k: Crypto)
    requires !(c.Redeem? && Objection(h.book, c.r, k).None?)
    ensures Served(h, c, k).grants == h.grants && Served(h, c, k).book.org == h.book.org
    ensures c.Redeem? ==> Served(h, c, k) == h
  {
    hide Objection;
  }

  /** Over any run, every certificate handed out has the user, role and name of the invite that paid for it, as
      given when that invite was created, the key that was redeemed, and the lifetime asked for. */
  lemma {:induction false} CertificatesAreAsInvited(b: Book, calls: seq<Call>, n: nat, k: Crypto)
    requires n <= |calls| && Opened(b)
    ensures GrantsFromCalls(calls, n, RunCalls(b, calls, n, k), k)
    ensures RunCalls(b, calls, n, k).book.org == b.org
  {
    hide Served, GrantsFromCalls, InvitesFromCalls, Objection;
    if n == 0 {
      NoGrants(calls, History(b, []), k);
    } else {
      CertificatesAreAsInvited(b, calls, n - 1, k);
      InvitesAreAsCreated(b, calls, n - 1, k);
      var h, c := RunCalls(b, calls, n - 1, k), calls[n - 1];
      if c.Redeem? && Objection(h.book, c.r, k).None? {
        RedeemKeepsGrants(calls, n - 1, h, k);
        RedeemKeepsOrg(h, c.r, k);
      } else {
        OtherCallsGrantNothing(h, c, k);
        QuietKeepsGrants(calls, n - 1, h, Served(h, c, k), k);
      }
    }
  }

  lemma NoGrants(calls: seq<Call>, h: History, k: Crypto)
    requires h.grants == []
    ensures GrantsFromCalls(calls, 0, h, k)
  {
  }

  lemma RedeemKeepsOrg(h: History, r: Redemption, k: Crypto)
    ensures Served(h, Redeem(r), k).book.org == h.book.org
  {
    hide Objection, NewCert, Enrolled;
  }

  // -------------------------------------------------------------- device rows

  /** The row of a device: key and user are those of its first certificate, all else is that of its last one. */
  ghost predicate RowFromGrants(h: History, p: Text)
    requires p in h.book.devices
  {
    var row := h.book.devices[p];
    && 1 <= row.serial <= |h.grants| && LastGrant(h, p)
    && (var claims := h.grants[row.serial - 1].cert.claims;
        row.role == claims.role && row.displayName == claims.displayName && row.expiresAtMs == claims.expiresAtMs)
    && (exists f :: 0 <= f < row.serial && FirstGrant(h.grants, f, p)
                    && row.userId == h.grants[f].cert.claims.userId
                    && row.devicePub == h.grants[f].cert.claims.devicePub)
  }

  ghost predicate FirstGrant(grants: seq<Grant>, f: nat, p: Text) {
    f < |grants| && grants[f].peer == p && forall e :: 0 <= e < f ==> grants[e].peer != p
  }

  ghost predicate RowsFromGrants(h: History) {
    && (forall p :: p in h.book.devices ==> RowFromGrants(h, p))
    && (forall g :: g in h.grants ==> g.token in h.book.invites && h.book.invites[g.token].usedBy == Some(g.peer))
  }

  /** The row that a redemption writes. */
  lemma EnrolledRow(h: History, r: Redemption, k: Crypto)
    requires Objection(h.book, r, k).None?
    ensures var h', p, t := Served(h, Redeem(r), k), k.peerOf(r.devicePub.value).value, Normalize(r.token);
            var g, row := h'.grants[|h.grants|], Enrolled(h.book, r, k);
            && h'.grants == h.grants + [g] && g.peer == p && g.token == t && g.serial == h.book.nextSerial
            && h'.book.devices == h.book.devices[p := row]
            && t in h.book.invites
            && h'.book.invites == h.book.invites[t := h.book.invites[t].(usedAtMs := Some(r.now), usedBy := Some(p))]
            && row.serial == g.serial && row.role == g.cert.claims.role
            && row.displayName == g.cert.claims.displayName && row.expiresAtMs == g.cert.claims.expiresAtMs
            && row.platform == r.platform && row.enrolledAtMs == r.now && row.revokedAtMs == None
            && row.userId == (if p in h.book.devices then h.book.devices[p].userId else g.cert.claims.userId)
            && row.devicePub == (if p in h.book.devices then h.book.devices[p].devicePub else g.cert.claims.devicePub)
  {
    hide CertBytes, Normalize, EnrollBytes;
  }

  /** One more grant `g`, with the row that it brings and the invite that it uses. */
  ghost predicate Enrols(h: History, h': History, g: Grant) {
    && h'.grants == h.grants + [g] && g.serial == |h.grants| + 1
    && g.peer in h'.book.devices && h'.book.devices == h.book.devices[g.peer := h'.book.devices[g.peer]]
    && (var row, claims := h'.book.devices[g.peer], g.cert.claims;
        && row.serial == g.serial && row.role == claims.role
        && row.displayName == claims.displayName && row.expiresAtMs == claims.expiresAtMs
        && row.userId == (if g.peer in h.book.devices then h.book.devices[g.peer].userId else claims.userId)
        && row.devicePub == (if g.peer in h.book.devices then h.book.devices[g.peer].devicePub else claims.devicePub))
    && g.token in h'.book.invites && h'.book.invites[g.token].usedBy == Some(g.peer)
    && h'.book.invites == h.book.invites[g.token := h'.book.invites[g.token]]
  }

  lemma RedeemEnrols(h: History, r: Redemption, k: Crypto)
    requires SerialsExact(h) && Objection(h.book, r, k).None?
    ensures var h' := Served(h, Redeem(r), k);
            |h'.grants| == |h.grants| + 1 && Enrols(h, h', h'.grants[|h.grants|])
  {
    EnrolledRow(h, r, k);
    hide Served, Objection, Enrolled;
  }

  lemma RedeemKeepsRows(h: History, r: Redemption, k: Crypto)
    requires Conserved(h) && RowsFromGrants(h) && Objection(h.book, r, k).None?
    ensures RowsFromGrants(Served(h, Redeem(r), k))
  {
    assert SerialsExact(h) && DevicesExact(h);
    var h' := Served(h, Redeem(r), k);
    RedeemEnrols(h, r, k);
    CallKeeps(h, Redeem(r), k);
    TokensAreOwn(h', |h.grants|);
    LastGrants(h');
    hide Served, Objection, Conserved, RowsFromGrants;
    EnrolKeepsRows(h, h', h'.grants[|h.grants|]);
  }

  lemma LastGrants(h: History)
    requires Conserved(h)
    ensures forall p :: p in h.book.devices ==> LastGrant(h, p)
    ensures forall g :: g in h.grants ==> g.peer in h.book.devices
  {
    hide SerialsExact, InvitesExact, LastGrant;
  }

  lemma TokensAreOwn(h: History, n: nat)
    requires Conserved(h) && n < |h.grants|
    ensures forall g :: g in h.grants[..n] ==> g.token != h.grants[n].token
  {
    hide SerialsExact, DevicesExact, UsedTokens;
    forall g | g in h.grants[..n]
      ensures g.token != h.grants[n].token
    {
      var i :| 0 <= i < n && h.grants[..n][i] == g;
      assert h.grants[i] == g;
    }
  }

  lemma EnrolKeepsRows(h: History, h': History, g: Grant)
    requires RowsFromGrants(h) && Enrols(h, h', g)
    requires forall x :: x in h'.grants[..|h.grants|] ==> x.token != g.token
    requires forall q :: q in h'.book.devices ==> LastGrant(h', q)
    requires forall x :: x in h.grants ==> x.peer in h.book.devices
    ensures RowsFromGrants(h')
  {
    hide LastGrant, FirstGrant, RowFromGrants;
    assert h'.grants[..|h.grants|] == h.grants;
    forall q | q in h'.book.devices
      ensures RowFromGrants(h', q)
    {
      if q in h.book.devices {
        KnownRowGoesOn(h, h', g, q);
      } else {
        NewRow(h, h', g, q);
      }
    }
  }

  lemma FirstGrantStays(grants: seq<Grant>, g: Grant, f: nat, p: Text)
    requires FirstGrant(grants, f, p)
    ensures FirstGrant(grants + [g], f, p) && (grants + [g])[f] == grants[f]
  {
  }

  lemma KnownRowGoesOn(h: History, h': History, g: Grant, q: Text)
    requires Enrols(h, h', g) && q in h.book.devices && RowFromGrants(h, q) && LastGrant(h', q)
    ensures q in h'.book.devices && RowFromGrants(h', q)
  {
    var row := h.book.devices[q];
    var f :| 0 <= f < row.serial && FirstGrant(h.grants, f, q)
             && row.userId == h.grants[f].cert.claims.userId && row.devicePub == h.grants[f].cert.claims.devicePub;
    FirstGrantStays(h.grants, g, f, q);
    assert row.serial <= |h.grants| && h'.grants[row.serial - 1] == h.grants[row.serial - 1];
    hide LastGrant, FirstGrant;
    var row' := h'.book.devices[q];
    assert row'.userId == h'.grants[f].cert.claims.userId && row'.devicePub == h'.grants[f].cert.claims.devicePub;
  }

  lemma NewRow(h: History, h': History, g: Grant, q: Text)
    requires Enrols(h, h', g) && q in h'.book.devices && q !in h.book.devices && LastGrant(h', q)
    requires forall x :: x in h.grants ==> x.peer in h.book.devices
    ensures RowFromGrants(h', q)
  {
    forall e | 0 <= e < |h.grants|
      ensures h'.grants[e].peer != q
    {
      assert h.grants[e] in h.grants;
    }
    assert FirstGrant(h'.grants, |h.grants|, q);
    hide LastGrant, FirstGrant;
  }

  /** Books that agree on what the rows take from grants, and on who used which invite. */
  ghost predicate SameRows(a: Book, b: Book) {
    && a.devices.Keys == b.devices.Keys
    && (forall p :: p in a.devices ==> b.devices[p] == a.devices[p].(revokedAtMs := b.devices[p].revokedAtMs))
    && (forall t :: t in a.invites ==> t in b.invites && b.invites[t].usedBy == a.invites[t].usedBy)
  }

  lemma OtherCallsKeepRows(h: History, c: Call, k: Crypto)
    requires !(c.Redeem? && Objection(h.book, c.r, k).None?)
    ensures SameRows(h.book, Served(h, c, k).book) && Served(h, c, k).grants == h.grants
  {
    hide Objection, ActiveSerial;
  }

  lemma SameRowsKeep(h: History, h': History)
    requires RowsFromGrants(h) && SameRows(h.book, h'.book) && h'.grants == h.grants
    ensures RowsFromGrants(h')
  {
    hide RowFromGrants;
    forall p | p in h'.book.devices
      ensures RowFromGrants(h', p)
    {
      assert RowFromGrants(h, p);
      SameRowKeeps(h, h', p);
    }
  }

  lemma SameRowKeeps(h: History, h': History, p: Text)
    requires p in h.book.devices && RowFromGrants(h, p) && SameRows(h.book, h'.book) && h'.grants == h.grants
    ensures p in h'.book.devices && RowFromGrants(h', p)
  {
    assert LastGrant(h', p);
    hide FirstGrant, LastGrant;
    var row, row' := h.book.devices[p], h'.book.devices[p];
    assert row' == row.(revokedAtMs := row'.revokedAtMs);
  }

  /** Over any run: each device row carries the role, name and expiry of the device's last certificate, and the user
      and key of its first; each used invite names the device it was used by. */
  lemma {:induction false} RowsAreAsGranted(b: Book, calls: seq<Call>, n: nat, k: Crypto)
    requires n <= |calls| && Opened(b)
    ensures RowsFromGrants(RunCalls(b, calls, n, k))
  {
    hide Served, RowsFromGrants, Objection, Conserved;
    if n == 0 {
      NoRows(History(b, []));
    } else {
      RowsAreAsGranted(b, calls, n - 1, k);
      RunConserves(b, calls, n - 1, k);
      var h, c := RunCalls(b, calls, n - 1, k), calls[n - 1];
      if c.Redeem? && Objection(h.book, c.r, k).None? {
        RedeemKeepsRows(h, c.r, k);
      } else {
        OtherCallsKeepRows(h, c, k);
        SameRowsKeep(h, Served(h, c, k));
      }
    }
  }

  lemma NoRows(h: History)
    requires h.grants == [] && h.book.devices == map[]
    ensures RowsFromGrants(h)
  {
  }

  // ---------------------------------------------------------------- to the nodes

  /** Every certificate that was ever signed was handed out by the register in this run. */
  ghost predicate OnlyGranted(h: History, signed: set<Statement>) {
    forall s :: s in signed && s.OfCert? ==> exists g :: g in h.grants && g.cert.claims == s.cert
  }

  /** From the invite to the peer table: at any point of any run of a node, every peer in the table has the role that
      the creator of some invite chose, and that invite was redeemed for the very key of that peer. */
  lemma PeersHaveInvitedRoles(b: Book, calls: seq<Call>, signed: set<Statement>, s: GateRuns.Session,
                              es: seq<Gate.Event>, n: nat, w: Gate.World, p: Text)
    requires Opened(b) && OnlyGranted(RunCalls(b, calls, |calls|, w.k), signed)
    requires n <= |es| && GateRuns.JustStarted(s) && GateRuns.PossibleRun(s, es, n, w)
    requires p in GateRuns.RunEvents(s, es, n, w).node.authed
    requires Unforgeable(GateRuns.RunEvents(s, es, n, w).node.org, w.k, signed)
    ensures var end := GateRuns.RunEvents(s, es, n, w);
            && GateRuns.Vetted(end.trace, p).Some?
            && (Fits(OfCert(GateRuns.Vetted(end.trace, p).value.claims)) ==>
                  exists i, j, g :: 0 <= i < j < |calls| && GrantedBy(calls, i, j, g, b.org, w.k) && g.peer == p
                                    && calls[i].Create? && end.node.authed[p].role == calls[i].role)
  {
    hide GateRuns.RunEvents, GateRuns.JustStarted, GateRuns.PossibleRun, Unforgeable, GateRuns.Vetted, RunCalls,
      GrantedBy, Opened;
    GateRuns.PeersHoldIssuedCerts(s, es, n, w, signed, p);
    CertificatesAreAsInvited(b, calls, |calls|, w.k);
    var end, h := GateRuns.RunEvents(s, es, n, w), RunCalls(b, calls, |calls|, w.k);
    var claims := GateRuns.Vetted(end.trace, p).value.claims;
    if Fits(OfCert(claims)) {
      var g :| g in h.grants && g.cert.claims == claims;
      var i, j :| 0 <= i < j < |calls| && GrantedBy(calls, i, j, g, h.book.org, w.k);
      GrantSays(calls, i, j, g, b.org, w.k);
    }
  }

  lemma GrantSays(calls: seq<Call>, i: nat, j: nat, g: Grant, org: OrgKey, k: Crypto)
    requires GrantedBy(calls, i, j, g, org, k)
    ensures i < j < |calls| && calls[i].Create? && g.cert.claims.role == calls[i].role
    ensures k.peerOf(g.cert.claims.devicePub) == Some(g.peer)
  {
    hide CertBytes, Normalize;
  }
}
