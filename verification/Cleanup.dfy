/** The periodic cleanup, on values: removing a list of stale edges one after the other leaves
    exactly the other edges, untouched, whatever the order of the list. */
module Cleanup {
  import opened Bytes
  import opened Peers
  import opened Membership
  import opened Partition

  /** Exactly the edges of all communities whose last heartbeat is older than the expiry. */
  ghost predicate IsStaleList(s: Node, now: int, expiry: int, ids: seq<EdgeId>) {
    && Distinct(ids)
    && (forall h, m :: EdgeId(h, m) in ids <==> Member(s, h, m) && Stale(EdgeAt(s, h, m), now, expiry))
  }

  function Expiries(ids: seq<EdgeId>, now: int, expiry: int): seq<Step> {
    seq(|ids|, i requires 0 <= i < |ids| => ExpireStep(ids[i].hash, ids[i].mac, now, expiry))
  }

  // ---------------------------------------------------------------------------
  // The state after removing a list of edges, relative to the state before
  // ---------------------------------------------------------------------------

  ghost predicate AllMembers(s: Node, gone: seq<EdgeId>) {
    forall x :: x in gone ==> Member(s, x.hash, x.mac)
  }

  /** Every community is still there with the same name; its members are those not removed, each
      in the same state. */
  ghost predicate PurgedMembers(s: Node, t: Node, gone: seq<EdgeId>) {
    && t.communities.Keys == s.communities.Keys
    && (forall h :: h in s.communities ==> t.communities[h].name == s.communities[h].name)
    && (forall h, m :: Member(t, h, m) <==> Member(s, h, m) && EdgeId(h, m) !in gone)
    && (forall h, m :: Member(t, h, m) ==> EdgeAt(t, h, m) == EdgeAt(s, h, m))
  }

  ghost predicate PurgedReports(s: Node, t: Node, gone: seq<EdgeId>) {
    && t.communities.Keys == s.communities.Keys
    && (forall h, m :: h in s.communities ==>
          (m in t.communities[h].p2p <==> m in s.communities[h].p2p && EdgeId(h, m) !in gone))
    && (forall h, m :: h in s.communities && m in t.communities[h].p2p ==>
          m in s.communities[h].p2p && t.communities[h].p2p[m] == s.communities[h].p2p[m])
  }

  ghost predicate PurgedRecords(s: Node, t: Node, gone: seq<EdgeId>, now: int)
    requires AllMembers(s, gone)
  {
    && (forall x :: x in gone ==>
          x.mac in t.cached && t.cached[x.mac] == Farewell(s, x, now))
    && (forall m :: (forall x :: x in gone ==> x.mac != m) ==>
          (m in t.cached <==> m in s.cached) && (m in s.cached ==> t.cached[m] == s.cached[m]))
  }

  /** The record of an edge that was removed. */
  function Farewell(s: Node, x: EdgeId, now: int): CachedInfo
    requires Member(s, x.hash, x.mac)
  {
    var e := EdgeAt(s, x.hash, x.mac);
    CachedInfo(x.mac, e.desc, s.communities[x.hash].name, false, now, e.virtualIp)
  }

  ghost predicate PurgedSockets(env: Env, s: Node, t: Node, gone: seq<EdgeId>)
    requires AllMembers(s, gone)
  {
    && (forall k :: k in t.sockets <==>
          k in s.sockets && (forall x :: x in gone ==> SocketOf(env, EdgeAt(s, x.hash, x.mac)) != k))
    && (forall k :: k in t.sockets ==> k in s.sockets && t.sockets[k] == s.sockets[k])
  }

  ghost predicate Purged(env: Env, s: Node, t: Node, gone: seq<EdgeId>, now: int) {
    && AllMembers(s, gone)
    && PurgedMembers(s, t, gone) && PurgedReports(s, t, gone)
    && PurgedRecords(s, t, gone, now) && PurgedSockets(env, s, t, gone)
  }

  // ---------------------------------------------------------------------------
  // One more removal
  // ---------------------------------------------------------------------------

  lemma PurgeOneMembers(env: Env, s: Node, t: Node, gone: seq<EdgeId>, now: int, x: EdgeId)
    requires PurgedMembers(s, t, gone) && Member(t, x.hash, x.mac)
    ensures PurgedMembers(s, Without(env, t, x.hash, x.mac, now), gone + [x])
  {
    var u := Without(env, t, x.hash, x.mac, now);
    forall h, m ensures Member(u, h, m) <==> Member(s, h, m) && EdgeId(h, m) !in gone + [x] {
      assert Member(u, h, m) <==> Member(t, h, m) && EdgeId(h, m) != x;
    }
  }

  lemma PurgeOneReports(env: Env, s: Node, t: Node, gone: seq<EdgeId>, now: int, x: EdgeId)
    requires PurgedReports(s, t, gone) && Member(t, x.hash, x.mac)
    ensures PurgedReports(s, Without(env, t, x.hash, x.mac, now), gone + [x])
  {
    var u := Without(env, t, x.hash, x.mac, now);
    forall h, m | h in s.communities
      ensures m in u.communities[h].p2p <==> m in s.communities[h].p2p && EdgeId(h, m) !in gone + [x]
    {
      assert m in u.communities[h].p2p <==> m in t.communities[h].p2p && EdgeId(h, m) != x;
    }
  }

  lemma PurgeOneRecords(env: Env, s: Node, t: Node, gone: seq<EdgeId>, now: int, x: EdgeId)
    requires Apart(s) && AllMembers(s, gone)
    requires PurgedMembers(s, t, gone) && PurgedRecords(s, t, gone, now) && Member(t, x.hash, x.mac)
    ensures AllMembers(s, gone + [x]) && PurgedRecords(s, Without(env, t, x.hash, x.mac, now), gone + [x], now)
  {
    var u := Without(env, t, x.hash, x.mac, now);
    assert u.cached == t.cached[x.mac := Farewell(s, x, now)];
    forall y | y in gone + [x] ensures Member(s, y.hash, y.mac) && y.mac in u.cached && u.cached[y.mac] == Farewell(s, y, now) {
      if y.mac == x.mac { assert Member(s, x.hash, x.mac) && Member(s, y.hash, y.mac); }
    }
    forall m | forall y :: y in gone + [x] ==> y.mac != m
      ensures (m in u.cached <==> m in s.cached) && (m in s.cached ==> u.cached[m] == s.cached[m])
    {
      assert x in gone + [x];
      assert forall y :: y in gone ==> y in gone + [x];
    }
  }

  lemma PurgeOneSockets(env: Env, s: Node, t: Node, gone: seq<EdgeId>, now: int, x: EdgeId)
    requires AllMembers(s, gone) && PurgedMembers(s, t, gone)
    requires PurgedSockets(env, s, t, gone) && Member(t, x.hash, x.mac)
    ensures AllMembers(s, gone + [x]) && PurgedSockets(env, s, Without(env, t, x.hash, x.mac, now), gone + [x])
  {
    var u := Without(env, t, x.hash, x.mac, now);
    var key := SocketOf(env, EdgeAt(s, x.hash, x.mac));
    assert u.sockets == t.sockets - {key};
    forall k ensures k in u.sockets <==>
        k in s.sockets && (forall y :: y in gone + [x] ==> SocketOf(env, EdgeAt(s, y.hash, y.mac)) != k)
    {
      assert forall y :: y in gone + [x] <==> y in gone || y == x;
    }
  }

  lemma PurgeOne(env: Env, s: Node, t: Node, gone: seq<EdgeId>, now: int, x: EdgeId)
    requires Apart(s)
    requires Purged(env, s, t, gone, now) && Member(t, x.hash, x.mac)
    ensures Purged(env, s, Without(env, t, x.hash, x.mac, now), gone + [x], now)
  {
    hide PurgedMembers, PurgedReports, PurgedRecords, PurgedSockets, AllMembers;
    PurgeOneMembers(env, s, t, gone, now, x);
    PurgeOneReports(env, s, t, gone, now, x);
    PurgeOneRecords(env, s, t, gone, now, x);
    PurgeOneSockets(env, s, t, gone, now, x);
  }

  // ---------------------------------------------------------------------------
  // A whole cleanup
  // ---------------------------------------------------------------------------

  ghost predicate StaleMembers(s: Node, ids: seq<EdgeId>, now: int, expiry: int) {
    forall x :: x in ids ==> Member(s, x.hash, x.mac) && Stale(EdgeAt(s, x.hash, x.mac), now, expiry)
  }

  lemma ExpiriesPrefix(ids: seq<EdgeId>, n: nat, now: int, expiry: int)
    requires n <= |ids|
    ensures Expiries(ids, now, expiry)[..n] == Expiries(ids[..n], now, expiry)
  {}

  lemma ExpiriesSnoc(ids: seq<EdgeId>, n: nat, now: int, expiry: int)
    requires n < |ids|
    ensures Expiries(ids[..n + 1], now, expiry)
         == Expiries(ids[..n], now, expiry) + [ExpireStep(ids[n].hash, ids[n].mac, now, expiry)]
  {}

  /** Removing distinct stale edges one by one. */
  lemma {:induction false} PurgeRun(env: Env, s: Node, ids: seq<EdgeId>, now: int, expiry: int)
    requires Apart(s)
    requires Distinct(ids) && StaleMembers(s, ids, now, expiry)
    ensures Purged(env, s, Run(env, s, Expiries(ids, now, expiry)), ids, now)
    decreases |ids|
  {
    if ids != [] {
      var n := |ids| - 1;
      var front, x := ids[..n], ids[n];
      ExpiriesPrefix(ids, n, now, expiry);
      PurgeRun(env, s, front, now, expiry);
      var t := Run(env, s, Expiries(front, now, expiry));
      NextIsRemoved(env, s, ids, n, now, expiry);
      PurgeOne(env, s, t, front, now, x);
      assert front + [x] == ids;
    }
  }

  /** The edge whose turn it is is still a member, in the state the cleanup found it in. */
  lemma NextIsRemoved(env: Env, s: Node, ids: seq<EdgeId>, n: nat, now: int, expiry: int)
    requires n < |ids| && Distinct(ids) && StaleMembers(s, ids, now, expiry)
    requires Purged(env, s, Run(env, s, Expiries(ids[..n], now, expiry)), ids[..n], now)
    ensures var t := Run(env, s, Expiries(ids[..n], now, expiry));
      var x := ids[n];
      && Member(t, x.hash, x.mac) && EdgeAt(t, x.hash, x.mac) == EdgeAt(s, x.hash, x.mac)
      && Next(env, t, ExpireStep(x.hash, x.mac, now, expiry)) == Without(env, t, x.hash, x.mac, now)
  {
    hide Run, Purged;
    StillThere(env, s, Run(env, s, Expiries(ids[..n], now, expiry)), ids, n, now, expiry);
  }

  lemma StillThere(env: Env, s: Node, t: Node, ids: seq<EdgeId>, n: nat, now: int, expiry: int)
    requires n < |ids| && Distinct(ids) && StaleMembers(s, ids, now, expiry) && Purged(env, s, t, ids[..n], now)
    ensures var x := ids[n];
      && Member(t, x.hash, x.mac) && EdgeAt(t, x.hash, x.mac) == EdgeAt(s, x.hash, x.mac)
      && Next(env, t, ExpireStep(x.hash, x.mac, now, expiry)) == Without(env, t, x.hash, x.mac, now)
  {
    hide Without;
    var x := ids[n];
    assert x in ids && x !in ids[..n];
    assert EdgeId(x.hash, x.mac) == x;
    assert Member(t, x.hash, x.mac);
  }

  /** The removal whose turn is `i` tells the others about the edge as the cleanup found it. */
  ghost predicate RemovalAnnounced(env: Env, s: Node, ids: seq<EdgeId>, i: nat, now: int, expiry: int)
    requires i < |ids|
  {
    var x := ids[i];
    && Member(s, x.hash, x.mac)
    && Announced(env, Run(env, s, Expiries(ids[..i], now, expiry)), ExpireStep(x.hash, x.mac, now, expiry))
       == Some(Announcement(x.hash, x.mac, Event(TypeUnregister, env, EdgeAt(s, x.hash, x.mac))))
  }

  lemma RemovalIsAnnounced(env: Env, s: Node, ids: seq<EdgeId>, i: nat, now: int, expiry: int)
    requires Apart(s)
    requires i < |ids| && Distinct(ids) && StaleMembers(s, ids, now, expiry)
    ensures RemovalAnnounced(env, s, ids, i, now, expiry)
  {
    hide Purged;
    assert ids[i] in ids;
    assert StaleMembers(s, ids[..i], now, expiry);
    PurgeRun(env, s, ids[..i], now, expiry);
    NextIsRemoved(env, s, ids, i, now, expiry);
  }

  lemma StaleListMembers(s: Node, ids: seq<EdgeId>, now: int, expiry: int)
    requires IsStaleList(s, now, expiry, ids)
    ensures StaleMembers(s, ids, now, expiry)
  {
    forall x | x in ids ensures Member(s, x.hash, x.mac) && Stale(EdgeAt(s, x.hash, x.mac), now, expiry) {
      assert EdgeId(x.hash, x.mac) == x;
    }
  }

  /** Cleanup is exact. Removing the stale edges in any order leaves precisely the others, in the
      same state; nothing of a removed edge stays among the members or the reported peers; each
      removed edge is on record as offline; and each removal is announced. */
  lemma CleanupIsExact(env: Env, s: Node, ids: seq<EdgeId>, now: int, expiry: int)
    requires Apart(s) && IsStaleList(s, now, expiry, ids)
    ensures var t := Run(env, s, Expiries(ids, now, expiry));
      && Purged(env, s, t, ids, now)
      && (forall h, m :: Member(t, h, m) <==> Member(s, h, m) && !Stale(EdgeAt(s, h, m), now, expiry))
    ensures forall i :: 0 <= i < |ids| ==> RemovalAnnounced(env, s, ids, i, now, expiry)
  {
    hide Apart, RemovalAnnounced, Run;
    var t := Run(env, s, Expiries(ids, now, expiry));
    StaleListMembers(s, ids, now, expiry);
    PurgeRun(env, s, ids, now, expiry);
    forall h, m ensures Member(t, h, m) <==> Member(s, h, m) && !Stale(EdgeAt(s, h, m), now, expiry) {
      assert EdgeId(h, m) in ids <==> Member(s, h, m) && Stale(EdgeAt(s, h, m), now, expiry);
    }
    forall i | 0 <= i < |ids| ensures RemovalAnnounced(env, s, ids, i, now, expiry) {
      RemovalIsAnnounced(env, s, ids, i, now, expiry);
    }
  }
}
