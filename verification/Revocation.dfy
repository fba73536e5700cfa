/** From the seed server's register to the nodes' trust gate: when a revocation holds. */
module Revocation {
  import opened Bytes
  import opened Identity
  import opened Registry
  import opened Ledger
  import Gate
  import GateRuns

  /** `l` is what `crl` publishes after `i` calls, as `Registry.Store.Crl` states it. */
  ghost predicate PublishedAt(b: Book, calls: seq<Call>, i: nat, k: Crypto, l: RevocationList)
    requires i <= |calls|
  {
    var book := RunCalls(b, calls, i, k).book;
    l.updatedAtMs == book.crlUpdatedAtMs && forall s :: s in l.revoked <==> s in RevokedSerials(book)
  }

  /** A list with something on it, as `Registry.Store.Crl` returns it after `i` calls, is published in this sense: it
      names the revoked serials, under the time of the last revocation that was stamped. */
  lemma SignedListIsPublished(b: Book, calls: seq<Call>, i: nat, k: Crypto, serials: seq<U64>)
    requires i <= |calls|
    requires forall s :: s in serials <==> s in RevokedSerials(RunCalls(b, calls, i, k).book)
    ensures var book := RunCalls(b, calls, i, k).book;
            PublishedAt(b, calls, i, k, SignCrl(book.org, serials, book.crlUpdatedAtMs, k))
  {
    var book := RunCalls(b, calls, i, k).book;
    hide RunCalls, RevokedSerials, CrlBytes;
    SignedMembers(book.org, serials, book.crlUpdatedAtMs, k);
  }

  /** The list time is that of the last revocation that found an active device and was stamped. */
  lemma ListTimeIsStamped(h: History, c: Call, k: Crypto)
    ensures Served(h, c, k).book.crlUpdatedAtMs ==
            if c.Revoke? && c.stamped && (exists p :: p in h.book.devices && ActiveSerial(h.book, p, c.serial))
            then c.stampNow else h.book.crlUpdatedAtMs
  {
    hide Objection, NewCert, Enrolled, ActiveSerial;
  }

  /** Every list that was ever signed was published by the register at some point of the run. */
  ghost predicate OnlyPublished(b: Book, calls: seq<Call>, k: Crypto, signed: set<Statement>) {
    forall s :: s in signed && s.OfList? ==> exists i :: 0 <= i <= |calls| && PublishedAt(b, calls, i, k, s.list)
  }

  lemma {:induction false} OrderlyPart(b: Book, calls: seq<Call>, i: nat, j: nat, k: Crypto)
    requires i <= j <= |calls| && Opened(b) && OrderlyRun(b, calls, 0, |calls|, k)
    ensures ListsGrow(RunCalls(b, calls, i, k).book, RunCalls(b, calls, j, k).book)
  {
    hide RunCalls, Orderly, RevokedSerials;
    OrderlyRunGrows(b, calls, i, j, k);
  }

  /** Of two published lists the one with the later timestamp names at least as much. */
  lemma PublishedListsGrow(b: Book, calls: seq<Call>, i: nat, j: nat, k: Crypto, x: RevocationList, y: RevocationList)
    requires i <= |calls| && j <= |calls| && Opened(b) && OrderlyRun(b, calls, 0, |calls|, k)
    requires PublishedAt(b, calls, i, k, x) && PublishedAt(b, calls, j, k, y) && x.updatedAtMs < y.updatedAtMs
    ensures forall s :: s in x.revoked ==> s in y.revoked
  {
    hide RunCalls, OrderlyRun, RevokedSerials;
    if i <= j {
      OrderlyPart(b, calls, i, j, k);
    } else {
      OrderlyPart(b, calls, j, i, k);
    }
  }

  /** A verified list with a serial or a time on it is one of those published. */
  lemma VerifiedIsPublished(b: Book, calls: seq<Call>, k: Crypto, org: Text, signed: set<Statement>, l: RevocationList)
    returns (i: nat)
    requires Unforgeable(org, k, signed) && |org| <= MAX_U32 && OnlyPublished(b, calls, k, signed)
    requires VerifyList(l, org, k) == Accept && !(l.updatedAtMs == 0 && l.revoked == [])
    ensures i <= |calls| && PublishedAt(b, calls, i, k, l)
  {
    hide RunCalls, VerifyList, Unforgeable, RevokedSerials;
    AcceptedListWasIssued(l, org, k, signed);
    var s :| s in signed && s.OfList? && Content(s) == Content(OfList(l));
    i :| 0 <= i <= |calls| && PublishedAt(b, calls, i, k, s.list);
    assert s.list.updatedAtMs == l.updatedAtMs && s.list.revoked == l.revoked by {
      assert Content(s).list.updatedAtMs == s.list.updatedAtMs && Content(s).list.revoked == s.list.revoked;
    }
  }

  /** An orderly register whose root key is unforgeable is an issuer whose lists only grow. */
  lemma OrderlyRegisterGrows(b: Book, calls: seq<Call>, k: Crypto, org: Text, signed: set<Statement>)
    requires Opened(b) && OrderlyRun(b, calls, 0, |calls|, k)
    requires Unforgeable(org, k, signed) && |org| <= MAX_U32 && OnlyPublished(b, calls, k, signed)
    ensures GrowingIssuer(org, k)
  {
    hide OrderlyRun, Unforgeable, OnlyPublished, PublishedAt, VerifyList;
    forall x, y | VerifyList(x, org, k) == VerifyList(y, org, k) == Accept && x.updatedAtMs < y.updatedAtMs
      ensures forall s :: s in x.revoked ==> s in y.revoked
    {
      if x.updatedAtMs != 0 || x.revoked != [] {
        var i := VerifiedIsPublished(b, calls, k, org, signed, x);
        var j := VerifiedIsPublished(b, calls, k, org, signed, y);
        PublishedListsGrow(b, calls, i, j, k, x, y);
      }
    }
  }

  /** End to end: with an orderly register, once a node holds a list naming a serial, that serial is never
      admitted again, restarts included; a peer that bears it is served exactly while it is an old one whose
      connection has stayed open. */
  lemma RevocationHolds(b: Book, calls: seq<Call>, signed: set<Statement>, s: GateRuns.Session, es: seq<Gate.Event>,
                        m: nat, n: nat, w: Gate.World, serial: U64)
    requires Opened(b) && OrderlyRun(b, calls, 0, |calls|, w.k) && OnlyPublished(b, calls, w.k, signed)
    requires Unforgeable(s.node.org, w.k, signed) && |s.node.org| <= MAX_U32
    requires m <= n <= |es| && (forall i :: 0 <= i < n ==> GateRuns.DiskOk(es[i])) && GateRuns.ListOk(s.node, w.k)
    requires serial in GateRuns.RunEvents(s, es, m, w).node.crl.revoked
    ensures var early, late := GateRuns.RunEvents(s, es, m, w), GateRuns.RunEvents(s, es, n, w);
            && early.trace <= late.trace
            && (forall a :: a in late.trace[|early.trace|..] && a.Admitted? ==> a.cert.claims.serial != serial)
            && (forall p :: GateRuns.LastCert(late.trace, p).Some?
                            && GateRuns.LastCert(late.trace, p).value.claims.serial == serial ==>
                  (p in late.node.authed <==> p in early.node.authed && GateRuns.StaysConnected(es, m, n, p)))
  {
    hide GateRuns.RunEvents, GateRuns.ListOk, OrderlyRun, OnlyPublished, Unforgeable, GrowingIssuer;
    OrderlyRegisterGrows(b, calls, w.k, s.node.org, signed);
    GateRuns.RevokedStaysOut(s, es, m, n, w, serial);
    var early, late := GateRuns.RunEvents(s, es, m, w), GateRuns.RunEvents(s, es, n, w);
    forall p | GateRuns.LastCert(late.trace, p).Some? && GateRuns.LastCert(late.trace, p).value.claims.serial == serial
      ensures p in late.node.authed <==> p in early.node.authed && GateRuns.StaysConnected(es, m, n, p)
    {
      GateRuns.ListedPeerStaysIff(s, es, m, n, w, p);
    }
  }
}
