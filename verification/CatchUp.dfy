/** Paging against a quiet sender: a Sync request is repeated while the last page was full
    (rust/p2p-core/src/net/node.rs:662-675 and 710-717). */
module CatchUp {
  import opened Bytes
  import opened HybridLogicalClock
  import opened Change
  import opened Replicas
  import opened Index
  import opened Convergence
  import opened Network
  import opened Runs

  /** The asker after `k` pages, the author filter included. */
  function Fetched(st: Replica, sender: Replica, limit: nat, k: nat, readOnly: set<Text>,
                   now: nat -> Clockwork, valid: ChangeRecord -> bool): Replica
  {
    if k == 0 then st
    else
      var p := Fetched(st, sender, limit, k - 1, readOnly, now, valid);
      ApplyRemote(p, Kept(ChangesSince(sender, p.vv, limit), readOnly), now(k - 1), valid)
  }

  /** `has_more` of the page answered to `st`. */
  predicate HasMore(st: Replica, sender: Replica, limit: nat) {
    |ChangesSince(sender, st.vv, limit)| == limit
  }

  // ---------------------------------------------------------------- counting

  predicate NoRepeats(s: seq<ChangeRecord>) {
    forall i, j :: 0 <= i < j < |s| ==> s[i] != s[j]
  }

  lemma {:induction false} DistinctCount(s: seq<ChangeRecord>)
    requires NoRepeats(s)
    ensures |Members(s)| == |s|
  {
    if s == [] {
      assert Members(s) == {};
    } else {
      var init, last := s[..|s| - 1], s[|s| - 1];
      DistinctCount(init);
      assert s == init + [last];
      assert Members(s) == Members(init) + {last};
      assert last !in init;
    }
  }

  lemma {:induction false} MissingDistinct(log: seq<ChangeRecord>, peer: VersionVector)
    requires NoRepeats(log)
    ensures NoRepeats(Missing(log, peer))
  {
    if log != [] {
      var init, last := log[..|log| - 1], log[|log| - 1];
      MissingDistinct(init, peer);
      assert last !in init;
    }
  }

  lemma {:induction false} InsertDistinct(s: seq<ChangeRecord>, x: ChangeRecord)
    requires NoRepeats(s) && x !in s
    ensures NoRepeats(InsertSorted(s, x))
    ensures forall r :: r in InsertSorted(s, x) <==> r in s || r == x
  {
    if s != [] && !StampLe(StampOf(s[|s| - 1]), StampOf(x)) {
      var init, last := s[..|s| - 1], s[|s| - 1];
      assert s == init + [last];
      InsertDistinct(init, x);
      assert last !in InsertSorted(init, x);
    }
  }

  lemma {:induction false} DistinctSorted(s: seq<ChangeRecord>)
    requires NoRepeats(s)
    ensures NoRepeats(SortByStamp(s)) && forall r :: r in SortByStamp(s) <==> r in s
  {
    if s != [] {
      DistinctSorted(s[..|s| - 1]);
      InsertDistinct(SortByStamp(s[..|s| - 1]), s[|s| - 1]);
    }
  }

  lemma UniqueMeansDistinct(log: seq<ChangeRecord>)
    requires UniqueStamps(log)
    ensures NoRepeats(log)
  {
  }

  /** A page takes `limit` of the missing records, or all of them. */
  lemma PageSize(sender: Replica, peer: VersionVector, limit: nat)
    ensures var n := |Missing(sender.log, peer)|;
            |ChangesSince(sender, peer, limit)| == if limit < n then limit else n
  {
  }

  lemma PageDistinct(sender: Replica, peer: VersionVector, limit: nat)
    requires UniqueStamps(sender.log)
    ensures NoRepeats(ChangesSince(sender, peer, limit)) && NoRepeats(Missing(sender.log, peer))
    ensures Members(ChangesSince(sender, peer, limit)) <= Members(Missing(sender.log, peer))
  {
    UniqueMeansDistinct(sender.log);
    var m := Missing(sender.log, peer);
    MissingDistinct(sender.log, peer);
    DistinctSorted(m);
    forall p | p in ChangesSince(sender, peer, limit)
      ensures p in m
    {
      PageMembers(sender, peer, limit, p);
    }
  }

  // ------------------------------------------------------------ one full page

  /** Two replicas of one organisation, each closed, and a receiver that accepts every record. */
  ghost predicate Peers(st: Replica, sender: Replica, valid: ChangeRecord -> bool, all: set<ChangeRecord>) {
    && Indexed(st) && Closed(st, all) && Closed(sender, all) && UniqueStamps(sender.log) && OnePerStamp(all)
    && (forall r :: r in all ==> r.origin != [] && r.tbl != [] && valid(r))
  }

  /** Any two devices of a network run are such a pair. */
  lemma NetworkPeers(net: Net, env: Env, a: Text, b: Text)
    requires NetOk(net, env) && a in net.nodes && b in net.nodes
    ensures Peers(net.nodes[a], net.nodes[b], env.valid, net.authored)
  {
    AuthoredOnePerStamp(net, env);
    assert NodeOk(a, net.nodes[a], net.authored) && NodeOk(b, net.nodes[b], net.authored);
    hide OnePerStamp, Closed;
  }

  /** Applying a page removes exactly that page from what is missing. */
  lemma PageShrinksMissing(st: Replica, sender: Replica, limit: nat, now: Clockwork, valid: ChangeRecord -> bool,
                           all: set<ChangeRecord>)
    requires Peers(st, sender, valid, all)
    ensures var page := ChangesSince(sender, st.vv, limit);
            var st' := ApplyRemote(st, Kept(page, {}), now, valid);
            && Peers(st', sender, valid, all)
            && |Missing(sender.log, st'.vv)| == |Missing(sender.log, st.vv)| - |page|
  {
    hide ChangesSince, ApplyRemote, Accepted, Kept;
    var page := ChangesSince(sender, st.vv, limit);
    var batch := Kept(page, {});
    var st' := ApplyRemote(st, batch, now, valid);
    WholePageArrives(st, sender, limit, valid, all);
    hide GapFree;
    ApplyClosesIff(st, batch, now, valid, all);
    ApplyKeepsIndex(st, batch, now, valid);
    AppliedRecords(st, batch, now, valid, all);
    hide Indexed, OnePerStamp, From;
    MissingAfter(st, st', sender, limit, page, all);
  }

  /** Every record of a page gets through, and leaves no gap. */
  lemma WholePageArrives(st: Replica, sender: Replica, limit: nat, valid: ChangeRecord -> bool, all: set<ChangeRecord>)
    requires Peers(st, sender, valid, all)
    ensures var page := ChangesSince(sender, st.vv, limit);
            var batch := Kept(page, {});
            && From(batch, all) && GapFree(st.vv, Accepted(batch, valid), all)
            && (forall r :: r in Accepted(batch, valid) <==> r in page)
  {
    hide ChangesSince, Accepted, Kept, Indexed, OnePerStamp;
    assert VvLe(st.vv, st.vv);
    PageIsGapFree(sender, st.vv, limit, st.vv, all);
  }

  lemma MissingAfter(st: Replica, st': Replica, sender: Replica, limit: nat, page: seq<ChangeRecord>,
                     all: set<ChangeRecord>)
    requires Closed(st, all) && Closed(st', all) && Closed(sender, all) && UniqueStamps(sender.log)
    requires page == ChangesSince(sender, st.vv, limit)
    requires forall r :: r in st'.log <==> r in st.log || r in page
    ensures |Missing(sender.log, st'.vv)| == |Missing(sender.log, st.vv)| - |page|
  {
    var m, m' := Missing(sender.log, st.vv), Missing(sender.log, st'.vv);
    forall x
      ensures x in m' <==> x in m && x !in page
    {
      if x in sender.log {
        assert x in all;
      }
    }
    PageDistinct(sender, st.vv, limit);
    PageDistinct(sender, st'.vv, limit);
    hide *;
    assert forall x :: x in page ==> x in m by {
      MembersAre(page);
      MembersAre(m);
    }
    CountDifference(m, m', page);
  }

  lemma MembersAre(s: seq<ChangeRecord>)
    ensures forall r :: r in Members(s) <==> r in s
  {
  }

  lemma CountDifference(m: seq<ChangeRecord>, m': seq<ChangeRecord>, page: seq<ChangeRecord>)
    requires NoRepeats(m) && NoRepeats(m') && NoRepeats(page)
    requires (forall x :: x in page ==> x in m) && forall x :: x in m' <==> x in m && x !in page
    ensures |m'| == |m| - |page|
  {
    assert Members(m') == Members(m) - Members(page);
    DistinctCount(m);
    DistinctCount(m');
    DistinctCount(page);
  }

  // ------------------------------------------------------------- whole catch-up

  lemma {:induction false} FetchedShrinks(st: Replica, sender: Replica, limit: nat, k: nat,
                                          now: nat -> Clockwork, valid: ChangeRecord -> bool, all: set<ChangeRecord>)
    requires Peers(st, sender, valid, all) && limit >= 1 && k <= |Missing(sender.log, st.vv)| / limit + 1
    ensures var p := Fetched(st, sender, limit, k, {}, now, valid);
            && Peers(p, sender, valid, all)
            && |Missing(sender.log, p.vv)| ==
               if k <= |Missing(sender.log, st.vv)| / limit then |Missing(sender.log, st.vv)| - k * limit else 0
  {
    hide Peers, Missing, ChangesSince, ApplyRemote, Kept;
    var n := |Missing(sender.log, st.vv)|;
    if k > 0 {
      FetchedShrinks(st, sender, limit, k - 1, now, valid, all);
      var p := Fetched(st, sender, limit, k - 1, {}, now, valid);
      PageShrinksMissing(p, sender, limit, now(k - 1), valid, all);
      PageSize(sender, p.vv, limit);
      PageArithmetic(n, limit, k);
    }
  }

  lemma PageArithmetic(n: nat, limit: nat, k: nat)
    requires limit >= 1 && 1 <= k <= n / limit + 1
    ensures k <= n / limit ==> k * limit <= n
    ensures (k - 1) * limit == k * limit - limit && (k - 1) * limit <= n
    ensures k == n / limit + 1 ==> n < k * limit
  {
    assert n == (n / limit) * limit + n % limit;
    if k <= n / limit {
      assert k * limit <= (n / limit) * limit;
    } else {
      assert (k - 1) * limit == (n / limit) * limit;
    }
  }

  /** With a limit of at least one, a quiet sender and every record accepted, n missing records take
      exactly n / limit + 1 pages (all but the last report more), and the asker ends with everything
      the sender holds. */
  lemma CatchUpTakesExactly(st: Replica, sender: Replica, limit: nat, now: nat -> Clockwork,
                            valid: ChangeRecord -> bool, all: set<ChangeRecord>)
    requires Peers(st, sender, valid, all) && limit >= 1
    ensures var q := |Missing(sender.log, st.vv)| / limit;
            && (forall k :: 0 <= k < q ==> HasMore(Fetched(st, sender, limit, k, {}, now, valid), sender, limit))
            && !HasMore(Fetched(st, sender, limit, q, {}, now, valid), sender, limit)
            && (forall r :: r in sender.log ==> r in Fetched(st, sender, limit, q + 1, {}, now, valid).log)
  {
    hide Fetched, Peers, HasMore, Missing;
    var q := |Missing(sender.log, st.vv)| / limit;
    forall k | 0 <= k <= q
      ensures HasMore(Fetched(st, sender, limit, k, {}, now, valid), sender, limit) <==> k < q
    {
      FetchedHasMore(st, sender, limit, k, now, valid, all);
    }
    FetchedShrinks(st, sender, limit, q + 1, now, valid, all);
    NothingMissing(Fetched(st, sender, limit, q + 1, {}, now, valid), sender, valid, all);
  }

  lemma FetchedHasMore(st: Replica, sender: Replica, limit: nat, k: nat, now: nat -> Clockwork,
                       valid: ChangeRecord -> bool, all: set<ChangeRecord>)
    requires Peers(st, sender, valid, all) && limit >= 1 && k <= |Missing(sender.log, st.vv)| / limit
    ensures HasMore(Fetched(st, sender, limit, k, {}, now, valid), sender, limit) <==>
            k < |Missing(sender.log, st.vv)| / limit
  {
    hide Fetched, Peers, Missing, ChangesSince;
    FetchedShrinks(st, sender, limit, k, now, valid, all);
    PageSize(sender, Fetched(st, sender, limit, k, {}, now, valid).vv, limit);
    PageArithmetic(|Missing(sender.log, st.vv)|, limit, k + 1);
  }

  lemma NothingMissing(st: Replica, sender: Replica, valid: ChangeRecord -> bool, all: set<ChangeRecord>)
    requires Peers(st, sender, valid, all) && |Missing(sender.log, st.vv)| == 0
    ensures forall r :: r in sender.log ==> r in st.log
  {
    forall r | r in sender.log
      ensures r in st.log
    {
      assert r !in Missing(sender.log, st.vv);
      assert r in all;
    }
  }

  /** Fetching brings nothing but the sender's records. */
  lemma {:induction false} FetchedComesFrom(st: Replica, sender: Replica, limit: nat, k: nat, readOnly: set<Text>,
                                            now: nat -> Clockwork, valid: ChangeRecord -> bool, r: ChangeRecord)
    ensures r in Fetched(st, sender, limit, k, readOnly, now, valid).log ==> r in st.log || r in sender.log
  {
    hide ApplyRemote, ChangesSince;
    if k > 0 {
      FetchedComesFrom(st, sender, limit, k - 1, readOnly, now, valid, r);
      var p := Fetched(st, sender, limit, k - 1, readOnly, now, valid);
      var page := ChangesSince(sender, p.vv, limit);
      if r !in p.log {
        AppliedComeFromBatch(p, Kept(page, readOnly), now(k - 1), valid, r);
        if r in page {
          PageMembers(sender, p.vv, limit, r);
        }
      }
    }
  }

  lemma {:induction false} FetchedKeeps(st: Replica, sender: Replica, limit: nat, k: nat, readOnly: set<Text>,
                                        now: nat -> Clockwork, valid: ChangeRecord -> bool)
    ensures forall r :: r in st.log ==> r in Fetched(st, sender, limit, k, readOnly, now, valid).log
  {
    hide ApplyRemote, ChangesSince, Kept;
    if k > 0 {
      FetchedKeeps(st, sender, limit, k - 1, readOnly, now, valid);
      var p := Fetched(st, sender, limit, k - 1, readOnly, now, valid);
      ApplyExtends(p, Kept(ChangesSince(sender, p.vv, limit), readOnly), now(k - 1), valid);
    }
  }

  /** The asker once the last page said that there is no more. */
  function CaughtUp(st: Replica, sender: Replica, limit: nat, now: nat -> Clockwork,
                    valid: ChangeRecord -> bool): Replica
    requires limit >= 1
  {
    Fetched(st, sender, limit, |Missing(sender.log, st.vv)| / limit + 1, {}, now, valid)
  }

  lemma CaughtUpHoldsBoth(st: Replica, sender: Replica, limit: nat, now: nat -> Clockwork,
                          valid: ChangeRecord -> bool, all: set<ChangeRecord>)
    requires Peers(st, sender, valid, all) && limit >= 1
    ensures Peers(CaughtUp(st, sender, limit, now, valid), sender, valid, all)
    ensures forall r :: r in sender.log ==> r in CaughtUp(st, sender, limit, now, valid).log
    ensures forall r :: r in st.log ==> r in CaughtUp(st, sender, limit, now, valid).log
    ensures forall r :: r in CaughtUp(st, sender, limit, now, valid).log ==> r in st.log || r in sender.log
  {
    hide Fetched, Peers, HasMore, Missing;
    var q := |Missing(sender.log, st.vv)| / limit;
    CatchUpTakesExactly(st, sender, limit, now, valid, all);
    FetchedShrinks(st, sender, limit, q + 1, now, valid, all);
    FetchedKeeps(st, sender, limit, q + 1, {}, now, valid);
    forall r
      ensures r in CaughtUp(st, sender, limit, now, valid).log ==> r in st.log || r in sender.log
    {
      FetchedComesFrom(st, sender, limit, q + 1, {}, now, valid, r);
    }
  }

  /** Two quiet devices that catch up from each other in turn end with the same records, cells,
      tombstones and vector. */
  lemma TwoWaySyncConverges(a: Replica, b: Replica, limit: nat, now: nat -> Clockwork, later: nat -> Clockwork,
                            valid: ChangeRecord -> bool, all: set<ChangeRecord>)
    requires Peers(a, b, valid, all) && Peers(b, a, valid, all) && limit >= 1
    ensures var a' := CaughtUp(a, b, limit, now, valid); SameState(a', CaughtUp(b, a', limit, later, valid))
  {
    var a' := CaughtUp(a, b, limit, now, valid);
    CaughtUpHoldsBoth(a, b, limit, now, valid, all);
    assert Peers(b, a', valid, all);
    hide CaughtUp;
    CaughtUpHoldsBoth(b, a', limit, later, valid, all);
    var b' := CaughtUp(b, a', limit, later, valid);
    assert Indexed(a') && Indexed(b');
    hide Peers;
    LogDeterminesState(a', b');
  }

  // ------------------------------------------------------- meetings over time

  /** At one meeting `asker` catches up from `sender`. */
  datatype Meeting = Meeting(asker: Text, sender: Text, now: nat -> Clockwork)

  function Meet(nodes: map<Text, Replica>, ms: seq<Meeting>, n: nat, limit: nat,
                valid: ChangeRecord -> bool): map<Text, Replica>
    requires n <= |ms| && limit >= 1 && forall m :: m in ms ==> m.asker in nodes && m.sender in nodes
    ensures Meet(nodes, ms, n, limit, valid).Keys == nodes.Keys
  {
    if n == 0 then nodes
    else
      var before, m := Meet(nodes, ms, n - 1, limit, valid), ms[n - 1];
      before[m.asker := CaughtUp(before[m.asker], before[m.sender], limit, m.now, valid)]
  }

  /** News from `x` can have travelled to `y` through the first `n` meetings, in their order. */
  predicate Reaches(ms: seq<Meeting>, n: nat, x: Text, y: Text)
    requires n <= |ms|
  {
    if n == 0 then x == y
    else Reaches(ms, n - 1, x, y) || (ms[n - 1].asker == y && Reaches(ms, n - 1, x, ms[n - 1].sender))
  }

  ghost predicate AllPeers(nodes: map<Text, Replica>, valid: ChangeRecord -> bool, all: set<ChangeRecord>) {
    forall a, b :: a in nodes && b in nodes ==> Peers(nodes[a], nodes[b], valid, all)
  }

  lemma MeetKeepsPeers(nodes: map<Text, Replica>, a: Text, st: Replica, valid: ChangeRecord -> bool,
                       all: set<ChangeRecord>)
    requires AllPeers(nodes, valid, all) && a in nodes && Peers(st, nodes[a], valid, all)
    ensures AllPeers(nodes[a := st], valid, all)
  {
    forall x, y | x in nodes && y in nodes
      ensures Peers(nodes[a := st][x], nodes[a := st][y], valid, all)
    {
      assert Peers(nodes[x], nodes[y], valid, all);
      PeersMix(nodes[x], nodes[y], st, nodes[a], valid, all);
    }
  }

  lemma PeersMix(x: Replica, y: Replica, st: Replica, other: Replica, valid: ChangeRecord -> bool,
                 all: set<ChangeRecord>)
    requires Peers(x, y, valid, all) && Peers(y, x, valid, all) && Peers(st, other, valid, all)
    ensures Peers(st, y, valid, all) && Peers(x, st, valid, all) && Peers(st, st, valid, all)
  {
    hide OnePerStamp, Closed;
  }

  /** Everybody holds exactly what the devices whose news could have reached it held at the start. */
  ghost predicate Carried(nodes: map<Text, Replica>, ms: seq<Meeting>, n: nat, end: map<Text, Replica>)
    requires n <= |ms| && end.Keys == nodes.Keys
  {
    forall y, r :: y in nodes ==>
      (r in end[y].log <==> exists x :: x in nodes && Reaches(ms, n, x, y) && r in nodes[x].log)
  }

  lemma {:induction false} MeetingsKeepPeers(nodes: map<Text, Replica>, ms: seq<Meeting>, n: nat, limit: nat,
                                             valid: ChangeRecord -> bool, all: set<ChangeRecord>)
    requires n <= |ms| && limit >= 1 && AllPeers(nodes, valid, all)
    requires forall m :: m in ms ==> m.asker in nodes && m.sender in nodes
    ensures AllPeers(Meet(nodes, ms, n, limit, valid), valid, all)
  {
    hide AllPeers, Peers, CaughtUp;
    if n > 0 {
      MeetingsKeepPeers(nodes, ms, n - 1, limit, valid, all);
      var before, m := Meet(nodes, ms, n - 1, limit, valid), ms[n - 1];
      PeersOf(before, m.asker, m.sender, valid, all);
      CaughtUpHoldsBoth(before[m.asker], before[m.sender], limit, m.now, valid, all);
      var st := CaughtUp(before[m.asker], before[m.sender], limit, m.now, valid);
      CaughtUpIsPeer(before, m, st, valid, all);
      MeetKeepsPeers(before, m.asker, st, valid, all);
    }
  }

  /** After any sequence of meetings a device holds exactly what the devices whose news could have
      reached it held at the start. */
  lemma {:induction false} MeetingsCarry(nodes: map<Text, Replica>, ms: seq<Meeting>, n: nat, limit: nat,
                                         valid: ChangeRecord -> bool, all: set<ChangeRecord>)
    requires n <= |ms| && limit >= 1 && AllPeers(nodes, valid, all)
    requires forall m :: m in ms ==> m.asker in nodes && m.sender in nodes
    ensures Carried(nodes, ms, n, Meet(nodes, ms, n, limit, valid))
  {
    hide AllPeers, Peers, CaughtUp;
    if n > 0 {
      MeetingsCarry(nodes, ms, n - 1, limit, valid, all);
      MeetingsKeepPeers(nodes, ms, n - 1, limit, valid, all);
      hide Carried;
      var before, m := Meet(nodes, ms, n - 1, limit, valid), ms[n - 1];
      PeersOf(before, m.asker, m.sender, valid, all);
      CaughtUpHoldsBoth(before[m.asker], before[m.sender], limit, m.now, valid, all);
      MeetingCarries(nodes, ms, n, before, CaughtUp(before[m.asker], before[m.sender], limit, m.now, valid));
    }
  }

  lemma PeersOf(nodes: map<Text, Replica>, a: Text, b: Text, valid: ChangeRecord -> bool, all: set<ChangeRecord>)
    requires AllPeers(nodes, valid, all) && a in nodes && b in nodes
    ensures Peers(nodes[a], nodes[b], valid, all) && Peers(nodes[a], nodes[a], valid, all)
  {
  }

  lemma CaughtUpIsPeer(nodes: map<Text, Replica>, m: Meeting, st: Replica, valid: ChangeRecord -> bool,
                       all: set<ChangeRecord>)
    requires AllPeers(nodes, valid, all) && m.asker in nodes && m.sender in nodes &&
             Peers(st, nodes[m.sender], valid, all)
    ensures Peers(st, nodes[m.asker], valid, all)
  {
    PeersOf(nodes, m.asker, m.sender, valid, all);
    PeersOf(nodes, m.sender, m.asker, valid, all);
    hide OnePerStamp, Closed;
  }

  /** One more meeting. */
  lemma MeetingCarries(nodes: map<Text, Replica>, ms: seq<Meeting>, n: nat, before: map<Text, Replica>, st: Replica)
    requires 0 < n <= |ms| && before.Keys == nodes.Keys && ms[n - 1].asker in nodes && ms[n - 1].sender in nodes
    requires Carried(nodes, ms, n - 1, before)
    requires forall r :: r in before[ms[n - 1].sender].log ==> r in st.log
    requires forall r :: r in before[ms[n - 1].asker].log ==> r in st.log
    requires forall r :: r in st.log ==> r in before[ms[n - 1].asker].log || r in before[ms[n - 1].sender].log
    ensures Carried(nodes, ms, n, before[ms[n - 1].asker := st])
  {
    var m, end := ms[n - 1], before[ms[n - 1].asker := st];
    forall y, r | y in nodes
      ensures r in end[y].log <==> exists x :: x in nodes && Reaches(ms, n, x, y) && r in nodes[x].log
    {
      assert r in before[y].log <==> exists x :: x in nodes && Reaches(ms, n - 1, x, y) && r in nodes[x].log;
      assert r in before[m.sender].log <==>
             exists x :: x in nodes && Reaches(ms, n - 1, x, m.sender) && r in nodes[x].log;
      if r in end[y].log {
        var z := if r in before[y].log then y else m.sender;
        var x :| x in nodes && Reaches(ms, n - 1, x, z) && r in nodes[x].log;
        assert Reaches(ms, n, x, y);
      }
    }
  }

  /** An organisation converges as soon as its devices have overlapped in pairs so that news from each
      can have reached every other, without ever being online together. */
  lemma PairwiseMeetingsConverge(nodes: map<Text, Replica>, ms: seq<Meeting>, limit: nat, valid: ChangeRecord -> bool,
                                 all: set<ChangeRecord>, a: Text, b: Text)
    requires limit >= 1 && AllPeers(nodes, valid, all) && a in nodes && b in nodes
    requires forall m :: m in ms ==> m.asker in nodes && m.sender in nodes
    requires forall x, y :: x in nodes && y in nodes ==> Reaches(ms, |ms|, x, y)
    ensures var end := Meet(nodes, ms, |ms|, limit, valid); SameState(end[a], end[b])
  {
    var end := Meet(nodes, ms, |ms|, limit, valid);
    MeetingsCarry(nodes, ms, |ms|, limit, valid, all);
    MeetingsKeepPeers(nodes, ms, |ms|, limit, valid, all);
    PeersOf(end, a, b, valid, all);
    PeersOf(end, b, a, valid, all);
    assert Indexed(end[a]) && Indexed(end[b]);
    forall r
      ensures r in end[a].log <==> r in end[b].log
    {
      assert r in end[a].log <==> exists x :: x in nodes && Reaches(ms, |ms|, x, a) && r in nodes[x].log;
      assert r in end[b].log <==> exists x :: x in nodes && Reaches(ms, |ms|, x, b) && r in nodes[x].log;
    }
    hide Meet, AllPeers, Peers, Indexed;
    LogDeterminesState(end[a], end[b]);
  }

  // ------------------------------------------------------------------- stalls

  /** With the author filter at work, a page makes progress exactly when some record of it is kept
      and accepted. */
  lemma PageProgressIff(st: Replica, sender: Replica, limit: nat, readOnly: set<Text>, now: Clockwork,
                        valid: ChangeRecord -> bool)
    requires Indexed(st)
    ensures var page := ChangesSince(sender, st.vv, limit);
            var st' := ApplyRemote(st, Kept(page, readOnly), now, valid);
            && (forall r :: r in Missing(sender.log, st'.vv) ==> r in Missing(sender.log, st.vv))
            && ((exists r :: r in Missing(sender.log, st.vv) && r !in Missing(sender.log, st'.vv))
                <==> exists r :: r in page && r.origin !in readOnly && r.origin != [] && r.tbl != [] && valid(r))
  {
    var page := ChangesSince(sender, st.vv, limit);
    var batch := Kept(page, readOnly);
    var st' := ApplyRemote(st, batch, now, valid);
    ApplyKeepsIndex(st, batch, now, valid);
    ApplyExtends(st, batch, now, valid);
    VectorGrows(st, st');
    hide ApplyRemote, ChangesSince, Kept, VvLe;
    forall r | r in sender.log && Covers(st.vv, r)
      ensures Covers(st'.vv, r)
    {
      CoversGrows(st.vv, st'.vv, r);
    }
    if r :| r in page && r.origin !in readOnly && r.origin != [] && r.tbl != [] && valid(r) {
      PageMembers(sender, st.vv, limit, r);
      assert r in Accepted(batch, valid);
      var x :| x in st'.log && StampOf(x) == StampOf(r);
      assert Covers(st'.vv, x);
    } else {
      assert forall r :: r in batch ==> r !in Accepted(batch, valid);
      NothingAccepted(st, batch, now, valid);
    }
  }

  lemma NonEmptyHasMember(s: seq<ChangeRecord>)
    ensures s == [] || exists r :: r in s
  {
    if s != [] {
      assert s[0] in s;
    }
  }

  lemma NothingAccepted(st: Replica, batch: seq<ChangeRecord>, now: Clockwork, valid: ChangeRecord -> bool)
    requires forall r :: r in batch ==> r !in Accepted(batch, valid)
    ensures ApplyRemote(st, batch, now, valid) == st
  {
    NonEmptyHasMember(Accepted(batch, valid));
  }

  /** Applying a batch keeps the log and holds every accepted record's stamp. */
  lemma ApplyExtends(st: Replica, batch: seq<ChangeRecord>, now: Clockwork, valid: ChangeRecord -> bool)
    ensures var st' := ApplyRemote(st, batch, now, valid);
            && (forall r :: r in st.log ==> r in st'.log)
            && (forall r :: r in Accepted(batch, valid) ==> Held(st'.log, StampOf(r)))
  {
    hide Accepted, SortByStamp, MaterializeAll, DirtyRows, ReceiveAll;
    var acc := Accepted(batch, valid);
    var sorted := SortByStamp(acc);
    SortSorts(acc);
    ReceivedAreHeld(st, sorted, |acc|, now);
    ReceivedKeep(st, sorted, |acc|, now);
    assert sorted[..|acc|] == sorted;
  }

  /** A full page of nothing but read-only authors' records (or otherwise unacceptable ones) comes
      back for ever: the vector does not move, so the same page is answered and it reports more. */
  lemma {:induction false} FilteredPageRepeats(st: Replica, sender: Replica, limit: nat, readOnly: set<Text>, k: nat,
                                               now: nat -> Clockwork, valid: ChangeRecord -> bool)
    requires HasMore(st, sender, limit)
    requires forall r :: r in ChangesSince(sender, st.vv, limit) ==>
             r.origin in readOnly || r.origin == [] || r.tbl == [] || !valid(r)
    ensures Fetched(st, sender, limit, k, readOnly, now, valid) == st
    ensures HasMore(Fetched(st, sender, limit, k, readOnly, now, valid), sender, limit)
  {
    hide ChangesSince, ApplyRemote, Kept, Accepted, HasMore;
    if k > 0 {
      FilteredPageRepeats(st, sender, limit, readOnly, k - 1, now, valid);
      FilteredPageIsNothing(st, ChangesSince(sender, st.vv, limit), readOnly, now(k - 1), valid);
    }
  }

  lemma FilteredPageIsNothing(st: Replica, page: seq<ChangeRecord>, readOnly: set<Text>, now: Clockwork,
                              valid: ChangeRecord -> bool)
    requires forall r :: r in page ==> r.origin in readOnly || r.origin == [] || r.tbl == [] || !valid(r)
    ensures ApplyRemote(st, Kept(page, readOnly), now, valid) == st
  {
    hide ApplyRemote;
    NothingAccepted(st, Kept(page, readOnly), now, valid);
  }

  // ---------------------------------------------------------------- gaps for ever

  /** The vector has gone past a record by another device that is not held. */
  ghost predicate PassedOver(st: Replica, x: ChangeRecord) {
    x !in st.log && Covers(st.vv, x) && x.origin != st.id
  }

  lemma MergePasses(st: Replica, rec: ChangeRecord, x: ChangeRecord)
    requires PassedOver(st, x) && rec != x
    ensures PassedOver(Merge(st, rec), x) && PassedOver(Merge(st.(log := st.log + [rec]), rec), x)
  {
    hide UpsertCell, UpsertTombstone;
  }

  lemma EmitPasses(f: Flushing, draft: ChangeRecord, now: Clockwork, sign: ChangeRecord -> Text, x: ChangeRecord)
    requires PassedOver(f.st, x) && draft.origin == f.st.id
    ensures PassedOver(Emit(f, draft, now, sign).st, x)
  {
    MergePasses(f.st, Stamped(draft, Ticked(f.st.clock, now(|f.out|)), sign), x);
    hide UpsertCell, UpsertTombstone;
  }

  lemma {:induction false} FlushColsPass(f: Flushing, k: RowKey, values: Row, cols: seq<Text>, n: nat, now: Clockwork,
                                         sign: ChangeRecord -> Text, x: ChangeRecord)
    requires n <= |cols| && PassedOver(f.st, x)
    ensures PassedOver(FlushCols(f, k, values, cols, n, now, sign).st, x)
  {
    hide Emit, CellMatches, PassedOver;
    if n > 0 {
      FlushColsPass(f, k, values, cols, n - 1, now, sign, x);
      var g, c := FlushCols(f, k, values, cols, n - 1, now, sign), cols[n - 1];
      if c in values && !CellMatches(g.st.cells, k, c, values[c]) {
        EmitPasses(g, CellDraft(g.st, k, c, values[c]), now, sign, x);
      }
    }
  }

  lemma {:induction false} FlushRowsPass(f: Flushing, order: seq<RowKey>, n: nat, final: map<RowKey, Op>,
                                         now: Clockwork, sign: ChangeRecord -> Text, x: ChangeRecord)
    requires n <= |order| && (forall k :: k in order ==> k in final) && PassedOver(f.st, x)
    ensures PassedOver(FlushRows(f, order, n, final, now, sign).st, x)
  {
    hide Emit, FlushCols, PassedOver;
    if n > 0 {
      FlushRowsPass(f, order, n - 1, final, now, sign, x);
      var g, k := FlushRows(f, order, n - 1, final, now, sign), order[n - 1];
      if k.tbl in g.st.specs && k in g.st.rows {
        var cols := g.st.specs[k.tbl].cols;
        FlushColsPass(g, k, g.st.rows[k], cols, |cols|, now, sign, x);
      } else if k.tbl in g.st.specs && final[k] == Delete {
        EmitPasses(g, TombstoneDraft(g.st, k), now, sign, x);
      }
    }
  }

  lemma {:induction false} ReceivePasses(st: Replica, recs: seq<ChangeRecord>, n: nat, now: Clockwork, x: ChangeRecord)
    requires n <= |recs| && PassedOver(st, x) && x !in recs
    ensures PassedOver(ReceiveAll(st, recs, n, now), x)
  {
    if n > 0 {
      ReceivePasses(st, recs, n - 1, now, x);
      MergePasses(ReceiveAll(st, recs, n - 1, now), recs[n - 1], x);
      hide Merge, Observed;
    }
  }

  lemma ApplyPasses(st: Replica, batch: seq<ChangeRecord>, now: Clockwork, valid: ChangeRecord -> bool, x: ChangeRecord)
    requires PassedOver(st, x) && x !in batch
    ensures PassedOver(ApplyRemote(st, batch, now, valid), x)
  {
    var acc := Accepted(batch, valid);
    SortSorts(acc);
    hide Accepted, SortByStamp, ReceiveAll, MaterializeAll, DirtyRows;
    ReceivePasses(st, SortByStamp(acc), |acc|, now, x);
  }

  /** What a device does on its own, and Sync rounds with any sender: the page answers the vector of the moment. */
  datatype SyncStep =
    | Own(step: Step)
    | Round(sender: Replica, limit: nat, readOnly: set<Text>, now: Clockwork)

  function Synced(st: Replica, s: SyncStep, keys: Keys): Replica {
    match s
    case Own(step) => Take1(st, step, keys).st
    case Round(sender, limit, readOnly, now) =>
      ApplyRemote(st, Kept(ChangesSince(sender, st.vv, limit), readOnly), now, keys.valid)
  }

  function SyncRun(st: Replica, steps: seq<SyncStep>, n: nat, keys: Keys): Replica
    requires n <= |steps|
  {
    if n == 0 then st else Synced(SyncRun(st, steps, n - 1, keys), steps[n - 1], keys)
  }

  lemma OwnStepPasses(st: Replica, step: Step, keys: Keys, x: ChangeRecord)
    requires PassedOver(st, x) && !step.Remote?
    ensures PassedOver(Take1(st, step, keys).st, x)
  {
    if step.Flush? {
      var order := FirstSeen(st.ops);
      FlushRowsPass(Flushing(st, []), order, |order|, FinalOps(st.ops), step.now, keys.sign, x);
      hide FlushRows;
    } else {
      QuietFrame(st, step, keys);
      hide Take1;
    }
  }

  /** A record passed over is never offered again: over any run of local steps and Sync rounds, with whatever
      senders, it stays covered and missing, and no page answered along the way contains it. */
  lemma {:induction false} GapStaysOpen(st: Replica, steps: seq<SyncStep>, n: nat, keys: Keys, x: ChangeRecord,
                                        sender: Replica, limit: nat)
    requires n <= |steps| && PassedOver(st, x) && forall i :: 0 <= i < n && steps[i].Own? ==> !steps[i].step.Remote?
    ensures PassedOver(SyncRun(st, steps, n, keys), x)
    ensures x !in ChangesSince(sender, SyncRun(st, steps, n, keys).vv, limit)
  {
    hide Take1, ApplyRemote, ChangesSince;
    if n > 0 {
      var p := SyncRun(st, steps, n - 1, keys);
      match steps[n - 1] {
        case Own(step) =>
          GapStaysOpen(st, steps, n - 1, keys, x, sender, limit);
          OwnStepPasses(p, step, keys, x);
        case Round(other, cap, readOnly, now) =>
          GapStaysOpen(st, steps, n - 1, keys, x, other, cap);
          ApplyPasses(p, Kept(ChangesSince(other, p.vv, cap), readOnly), now, keys.valid, x);
      }
    }
    GapNeverHeals(SyncRun(st, steps, n, keys), sender, x, limit);
  }
}
