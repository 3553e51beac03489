/** The socket index of the peer registry against the scan it stands for. Its entries are always
    right; it finds every peer exactly as long as no event costs a peer its entry. */
module SocketIndex {
  import opened Bytes
  import opened Peers
  import opened Probing

  // ---------------------------------------------------------------------------
  // Entries are right
  // ---------------------------------------------------------------------------

  /** Peers are filed under their own address; an index entry names a held peer and is keyed by
      the socket that peer has now. */
  ghost predicate Sound(key: SocketKey, r: Registry) {
    && (forall m :: m in r.peers ==> r.peers[m].info.mac == m)
    && (forall k :: k in r.bySocket ==> r.bySocket[k] in r.peers && KeyOf(key, r.peers[r.bySocket[k]]) == k)
  }

  lemma AddedKeepsSound(key: SocketKey, r: Registry, info: PeerInfo)
    requires Sound(key, r)
    ensures Sound(key, Added(key, r, info))
  {}

  lemma RemovedKeepsSound(key: SocketKey, r: Registry, mac: Mac)
    requires Sound(key, r)
    ensures Sound(key, Removed(key, r, mac))
  {}

  lemma AddedAllKeepsSound(key: SocketKey, r: Registry, infos: seq<PeerInfo>, overwrite: bool)
    requires Sound(key, r)
    ensures Sound(key, AddedAll(key, r, infos, overwrite).0)
    decreases |infos|
  {
    if infos != [] && (infos[0].mac !in r.peers || overwrite) {
      AddedKeepsSound(key, r, infos[0]);
      AddedAllKeepsSound(key, Added(key, r, infos[0]), infos[1..], overwrite);
    }
  }

  lemma RemovedAllKeepsSound(key: SocketKey, r: Registry, macs: seq<Mac>)
    requires Sound(key, r)
    ensures Sound(key, RemovedAll(key, r, macs))
    decreases |macs|
  {
    if macs != [] {
      RemovedKeepsSound(key, r, macs[0]);
      RemovedAllKeepsSound(key, Removed(key, r, macs[0]), macs[1..]);
    }
  }

  lemma ReachableAllKeepsSound(key: SocketKey, r: Registry, macs: seq<Mac>)
    requires Sound(key, r)
    ensures Sound(key, ReachableAll(r, macs))
    decreases |macs|
  {
    if macs != [] {
      assert Sound(key, ReachableAt(r, macs[0]));
      ReachableAllKeepsSound(key, ReachableAt(r, macs[0]), macs[1..]);
    }
  }

  lemma HandledKeepsSound(key: SocketKey, r: Registry, list: PeerInfoList, reset: bool, overwrite: bool)
    requires Sound(key, r)
    ensures Sound(key, Handled(key, r, list, reset, overwrite).0)
  {
    match list.eventType
    case TypeList =>
      var r0 := if reset then r.(peers := map[], bySocket := map[]) else r;
      var r1 := if list.origin.Some? then r0.(me := list.origin) else r0;
      AddedAllKeepsSound(key, r1, list.infos, overwrite);
      var r2 := AddedAll(key, r1, list.infos, overwrite).0;
      assert Sound(key, r2);
      var kept := Kept(key, r2, Listed(list.infos));
      forall k | k in kept.bySocket
        ensures kept.bySocket[k] in kept.peers && KeyOf(key, kept.peers[kept.bySocket[k]]) == k
      {
        var m := r2.bySocket[k];
        assert m in r2.peers && KeyOf(key, r2.peers[m]) == k;
      }
    case TypeRegister => AddedAllKeepsSound(key, r, list.infos, overwrite);
    case TypeUnregister => RemovedAllKeepsSound(key, r, Macs(list.infos));
    case TypeOther =>
  }

  lemma EdgeStepKeepsSound(self: Self, key: SocketKey, r: Registry, ev: EdgeEvent)
    requires Sound(key, r)
    ensures Sound(key, EdgeStep(self, key, r, ev))
  {
    match ev
    case Tick => forall m | m in r.peers { TickedKeepsInfo(self, r.peers[m]); }
    case Pong(_, _, _) =>
    case StateInfo(mac, hasFrom, to) => ReachableAllKeepsSound(key, r, (if hasFrom then [mac] else []) + to);
    case PeerEvent(list) => HandledKeepsSound(key, r, list, false, true);
    case UnregisterRequest(mac) => RemovedKeepsSound(key, r, mac);
  }

  lemma TickedKeepsInfo(self: Self, p: PeerState)
    ensures Ticked(self, p).info == p.info
  {
    var q := ProbedUnknown(self, p);
    assert q.info == p.info && ProbedPending(self, q).info == p.info;
  }

  /** Through every run of an edge, whatever mix of events, the index never misleads. */
  lemma {:induction false} EveryRunKeepsIndexSound(self: Self, key: SocketKey, r: Registry, evs: seq<EdgeEvent>)
    requires Sound(key, r)
    ensures Sound(key, EdgeRun(self, key, r, evs))
    decreases |evs|
  {
    if evs != [] {
      EdgeStepKeepsSound(self, key, r, evs[0]);
      EveryRunKeepsIndexSound(self, key, EdgeStep(self, key, r, evs[0]), evs[1..]);
    }
  }

  // ---------------------------------------------------------------------------
  // When the index finds everyone
  // ---------------------------------------------------------------------------

  ghost predicate Complete(key: SocketKey, r: Registry) {
    forall m :: m in r.peers ==> KeyOf(key, r.peers[m]) in r.bySocket && r.bySocket[KeyOf(key, r.peers[m])] == m
  }

  ghost predicate DistinctSockets(key: SocketKey, r: Registry) {
    forall m, n :: m in r.peers && n in r.peers && m != n ==> KeyOf(key, r.peers[m]) != KeyOf(key, r.peers[n])
  }

  lemma KeptAfterRemoved(key: SocketKey, r: Registry, keep: set<Mac>, mac: Mac)
    requires mac !in keep
    ensures Kept(key, Removed(key, r, mac), keep) == Kept(key, r, keep)
  {
    if mac in r.peers {
      var r1 := Removed(key, r, mac);
      var gone := set m | m in r.peers && m !in keep :: KeyOf(key, r.peers[m]);
      var gone1 := set m | m in r1.peers && m !in keep :: KeyOf(key, r1.peers[m]);
      assert gone == gone1 + {KeyOf(key, r.peers[mac])};
      assert Kept(key, r1, keep).peers == Kept(key, r, keep).peers;
      assert Kept(key, r1, keep).bySocket == Kept(key, r, keep).bySocket;
    }
  }

  /** Dropping the unlisted peers one by one, in any order, is the single cut `Kept`. */
  lemma {:induction false} RemovedAllIsKept(key: SocketKey, r: Registry, keep: set<Mac>, macs: seq<Mac>)
    requires forall m :: m in r.peers ==> (m in macs <==> m !in keep)
    ensures RemovedAll(key, r, macs) == Kept(key, r, keep)
    decreases |macs|
  {
    if macs == [] {
      assert Kept(key, r, keep).peers == r.peers;
      assert (set m | m in r.peers && m !in keep :: KeyOf(key, r.peers[m])) == {};
      assert Kept(key, r, keep).bySocket == r.bySocket;
    } else {
      var m0 := macs[0];
      var r1 := Removed(key, r, m0);
      assert macs == [m0] + macs[1..];
      RemovedAllIsKept(key, r1, keep, macs[1..]);
      if m0 in r.peers { KeptAfterRemoved(key, r, keep, m0); }
    }
  }

  // One addition after the other.

  /** The registry before the addition whose turn is `i`. */
  function Before(key: SocketKey, r: Registry, infos: seq<PeerInfo>, i: nat): Registry
    requires i <= |infos|
  {
    AddedAll(key, r, infos[..i], true).0
  }

  lemma {:induction false} AddedAllSnoc(key: SocketKey, r: Registry, infos: seq<PeerInfo>, info: PeerInfo)
    ensures AddedAll(key, r, infos + [info], true).0 == Added(key, AddedAll(key, r, infos, true).0, info)
    decreases |infos|
  {
    if infos == [] {
      assert infos + [info] == [info] && [info][1..] == [];
    } else {
      assert (infos + [info])[0] == infos[0] && (infos + [info])[1..] == infos[1..] + [info];
      AddedAllSnoc(key, Added(key, r, infos[0]), infos[1..], info);
    }
  }

  lemma BeforeNext(key: SocketKey, r: Registry, infos: seq<PeerInfo>, i: nat)
    requires i < |infos|
    ensures Before(key, r, infos, i + 1) == Added(key, Before(key, r, infos, i), infos[i])
  {
    assert infos[..i + 1] == infos[..i] + [infos[i]];
    AddedAllSnoc(key, r, infos[..i], infos[i]);
  }

  /** The index finds the peer. */
  predicate Found(key: SocketKey, r: Registry, q: Mac) {
    && q in r.peers
    && KeyOf(key, r.peers[q]) in r.bySocket && r.bySocket[KeyOf(key, r.peers[q])] == q
  }

  /** Adding `info` costs another peer its entry: it takes over the socket that peer has, or gives up
      one that both have. */
  predicate Cuts(key: SocketKey, r: Registry, info: PeerInfo, q: Mac) {
    && q in r.peers && q != info.mac
    && (KeyOf(key, r.peers[q]) == key(info.pubSocket)
        || (info.mac in r.peers && KeyOf(key, r.peers[q]) == KeyOf(key, r.peers[info.mac])))
  }

  predicate AddedAgain(infos: seq<PeerInfo>, i: nat, n: nat, q: Mac)
    requires n <= |infos|
  {
    exists j :: i < j < n && infos[j].mac == q
  }

  /** Whenever one of the additions costs the peer its entry, a later one adds the peer again. */
  ghost predicate Unharmed(key: SocketKey, r: Registry, infos: seq<PeerInfo>, n: nat, q: Mac)
    requires n <= |infos|
  {
    forall i :: 0 <= i < n && Cuts(key, Before(key, r, infos, i), infos[i], q) ==> AddedAgain(infos, i, n, q)
  }

  /** After one addition the index finds the added peer, and of the others those it found before
      and the addition did not cut. */
  lemma AddedFound(key: SocketKey, r: Registry, info: PeerInfo, q: Mac)
    ensures q in Added(key, r, info).peers <==> q == info.mac || q in r.peers
    ensures Found(key, Added(key, r, info), q) <==> q == info.mac || (Found(key, r, q) && !Cuts(key, r, info, q))
  {}

  lemma UnharmedNext(key: SocketKey, r: Registry, infos: seq<PeerInfo>, n: nat, q: Mac)
    requires n < |infos|
    ensures Unharmed(key, r, infos, n + 1, q)
       <==> infos[n].mac == q || (Unharmed(key, r, infos, n, q) && !Cuts(key, Before(key, r, infos, n), infos[n], q))
  {
    hide Before;
    var next := n + 1;
    if infos[n].mac == q {
      assert forall i :: 0 <= i < n ==> AddedAgain(infos, i, next, q);
    } else {
      assert forall i :: 0 <= i < n ==> (AddedAgain(infos, i, next, q) <==> AddedAgain(infos, i, n, q));
      assert !AddedAgain(infos, n, next, q);
    }
  }

  /** After any additions the index finds exactly the unharmed peers. */
  lemma {:induction false} FoundAfter(key: SocketKey, r: Registry, infos: seq<PeerInfo>, n: nat, q: Mac)
    requires Complete(key, r) && n <= |infos| && q in Before(key, r, infos, n).peers
    ensures Found(key, Before(key, r, infos, n), q) <==> Unharmed(key, r, infos, n, q)
  {
    if n == 0 {
      assert infos[..0] == [];
    } else {
      BeforeNext(key, r, infos, n - 1);
      AddedFound(key, Before(key, r, infos, n - 1), infos[n - 1], q);
      UnharmedNext(key, r, infos, n - 1, q);
      if infos[n - 1].mac != q { FoundAfter(key, r, infos, n - 1, q); }
      hide *;
    }
  }

  lemma CompleteIsFound(key: SocketKey, r: Registry)
    ensures Complete(key, r) <==> forall q :: q in r.peers ==> Found(key, r, q)
  {}

  /** Adding peers keeps the index exact if and only if everybody is unharmed. */
  lemma AddedAllComplete(key: SocketKey, r: Registry, infos: seq<PeerInfo>)
    requires Complete(key, r)
    ensures Complete(key, AddedAll(key, r, infos, true).0)
       <==> forall q :: q in AddedAll(key, r, infos, true).0.peers ==> Unharmed(key, r, infos, |infos|, q)
  {
    hide Complete, Found, Unharmed;
    var all := AddedAll(key, r, infos, true).0;
    assert infos[..|infos|] == infos;
    CompleteIsFound(key, all);
    forall q | q in all.peers ensures Found(key, all, q) <==> Unharmed(key, r, infos, |infos|, q) {
      FoundAfter(key, r, infos, |infos|, q);
    }
  }

  /** Some peer that is to go has the socket of this one. */
  predicate SharedWithDropped(key: SocketKey, r: Registry, keep: set<Mac>, q: Mac)
    requires q in r.peers
  {
    exists p :: p in r.peers && p !in keep && KeyOf(key, r.peers[p]) == KeyOf(key, r.peers[q])
  }

  /** Dropping the peers outside `keep` loses the entries of those that share a socket with them. */
  lemma KeptFound(key: SocketKey, r: Registry, keep: set<Mac>, q: Mac)
    requires q in r.peers && q in keep
    ensures Found(key, Kept(key, r, keep), q) <==> Found(key, r, q) && !SharedWithDropped(key, r, keep, q)
  {}

  /** A list keeps the index exact if and only if every listed peer is unharmed and ends at a socket
      that no peer the list drops has. */
  lemma ListComplete(key: SocketKey, r: Registry, infos: seq<PeerInfo>)
    requires Complete(key, r)
    ensures var all := AddedAll(key, r, infos, true).0;
      Complete(key, Kept(key, all, Listed(infos)))
      <==> forall q :: q in all.peers && q in Listed(infos) ==>
             Unharmed(key, r, infos, |infos|, q) && !SharedWithDropped(key, all, Listed(infos), q)
  {
    hide Complete, Found, Unharmed, SharedWithDropped;
    var all, keep := AddedAll(key, r, infos, true).0, Listed(infos);
    assert infos[..|infos|] == infos;
    CompleteIsFound(key, Kept(key, all, keep));
    forall q | q in all.peers && q in keep
      ensures Found(key, Kept(key, all, keep), q)
         <==> Unharmed(key, r, infos, |infos|, q) && !SharedWithDropped(key, all, keep, q)
    {
      FoundAfter(key, r, infos, |infos|, q);
      KeptFound(key, all, keep, q);
    }
  }

  // ---------------------------------------------------------------------------
  // Events and runs
  // ---------------------------------------------------------------------------

  /** Peers that differ only in their probing state have the same index. */
  lemma SameInfosSameIndex(key: SocketKey, r: Registry, r': Registry)
    requires r'.peers.Keys == r.peers.Keys && r'.bySocket == r.bySocket
    requires forall m :: m in r.peers ==> r'.peers[m].info == r.peers[m].info
    ensures Complete(key, r') <==> Complete(key, r)
  {}

  lemma {:induction false} AddedAllMe(key: SocketKey, r: Registry, infos: seq<PeerInfo>, me: Option<PeerInfo>)
    ensures AddedAll(key, r.(me := me), infos, true).0 == AddedAll(key, r, infos, true).0.(me := me)
    decreases |infos|
  {
    if infos != [] {
      assert Added(key, r.(me := me), infos[0]) == Added(key, r, infos[0]).(me := me);
      AddedAllMe(key, Added(key, r, infos[0]), infos[1..], me);
    }
  }

  lemma RemovedComplete(key: SocketKey, r: Registry, mac: Mac)
    requires Sound(key, r) && Complete(key, r)
    ensures Complete(key, Removed(key, r, mac))
  {}

  lemma {:induction false} RemovedAllComplete(key: SocketKey, r: Registry, macs: seq<Mac>)
    requires Sound(key, r) && Complete(key, r)
    ensures Complete(key, RemovedAll(key, r, macs))
    decreases |macs|
  {
    if macs != [] {
      RemovedComplete(key, r, macs[0]);
      RemovedKeepsSound(key, r, macs[0]);
      RemovedAllComplete(key, Removed(key, r, macs[0]), macs[1..]);
    }
  }

  lemma {:induction false} ReachableAllSameInfos(r: Registry, macs: seq<Mac>)
    ensures var r' := ReachableAll(r, macs);
      && r'.peers.Keys == r.peers.Keys && r'.bySocket == r.bySocket
      && forall m :: m in r.peers ==> r'.peers[m].info == r.peers[m].info
    decreases |macs|
  {
    if macs != [] { ReachableAllSameInfos(ReachableAt(r, macs[0]), macs[1..]); }
  }

  /** The event costs no peer that stays its entry. A register event leaves every peer unharmed; a
      list leaves the listed ones unharmed, at sockets that no dropped peer has. */
  ghost predicate Quiet(key: SocketKey, r: Registry, ev: EdgeEvent) {
    ev.PeerEvent? ==>
      var infos := ev.list.infos;
      var all := AddedAll(key, r, infos, true).0;
      match ev.list.eventType
      case TypeRegister => forall q :: q in all.peers ==> Unharmed(key, r, infos, |infos|, q)
      case TypeList =>
        forall q :: q in all.peers && q in Listed(infos) ==>
          Unharmed(key, r, infos, |infos|, q) && !SharedWithDropped(key, all, Listed(infos), q)
      case _ => true
  }

  lemma PeerEventComplete(key: SocketKey, r: Registry, list: PeerInfoList)
    requires Sound(key, r) && Complete(key, r)
    ensures Complete(key, Handled(key, r, list, false, true).0) <==> Quiet(key, r, PeerEvent(list))
  {
    hide Complete, Sound, Unharmed, SharedWithDropped;
    match list.eventType
    case TypeList =>
      var all := AddedAll(key, r, list.infos, true).0;
      var r1 := if list.origin.Some? then r.(me := list.origin) else r;
      AddedAllAccepts(key, r1, list.infos);
      if list.origin.Some? { AddedAllMe(key, r, list.infos, list.origin); }
      ListComplete(key, r, list.infos);
      SameInfosSameIndex(key, Kept(key, all, Listed(list.infos)), Handled(key, r, list, false, true).0);
    case TypeRegister => AddedAllComplete(key, r, list.infos);
    case TypeUnregister => RemovedAllComplete(key, r, Macs(list.infos));
    case TypeOther =>
  }

  /** One event keeps an exact index exact if and only if it is quiet. */
  lemma EventComplete(self: Self, key: SocketKey, r: Registry, ev: EdgeEvent)
    requires Sound(key, r) && Complete(key, r)
    ensures Complete(key, EdgeStep(self, key, r, ev)) <==> Quiet(key, r, ev)
  {
    match ev
    case Tick =>
      forall m | m in r.peers ensures TickedAll(self, r).peers[m].info == r.peers[m].info {
        TickedKeepsInfo(self, r.peers[m]);
      }
      SameInfosSameIndex(key, r, TickedAll(self, r));
    case Pong(mac, checkId, fromSupernode) => SameInfosSameIndex(key, r, EdgeStep(self, key, r, ev));
    case StateInfo(mac, hasFrom, to) =>
      ReachableAllSameInfos(r, (if hasFrom then [mac] else []) + to);
      SameInfosSameIndex(key, r, EdgeStep(self, key, r, ev));
    case PeerEvent(list) => PeerEventComplete(key, r, list);
    case UnregisterRequest(mac) => RemovedComplete(key, r, mac);
  }

  ghost predicate CompleteAt(self: Self, key: SocketKey, r: Registry, evs: seq<EdgeEvent>, i: nat)
    requires i <= |evs|
  {
    Complete(key, EdgeRun(self, key, r, evs[..i]))
  }

  ghost predicate QuietAt(self: Self, key: SocketKey, r: Registry, evs: seq<EdgeEvent>, i: nat)
    requires i < |evs|
  {
    Quiet(key, EdgeRun(self, key, r, evs[..i]), evs[i])
  }

  lemma {:induction false} CompleteWhileQuiet(self: Self, key: SocketKey, r: Registry, evs: seq<EdgeEvent>, i: nat)
    requires Sound(key, r) && Complete(key, r) && i <= |evs|
    requires forall j :: 0 <= j < i ==> QuietAt(self, key, r, evs, j)
    ensures CompleteAt(self, key, r, evs, i)
  {
    if i == 0 {
      assert evs[..0] == [];
    } else {
      CompleteWhileQuiet(self, key, r, evs, i - 1);
      assert QuietAt(self, key, r, evs, i - 1);
      EveryRunKeepsIndexSound(self, key, r, evs[..i - 1]);
      EdgeRunSnoc(self, key, r, evs, i - 1);
      hide EdgeRun, EdgeStep, Complete, Sound;
      EventComplete(self, key, EdgeRun(self, key, r, evs[..i - 1]), evs[i - 1]);
    }
  }

  /** Starting from an exact index (the empty registry has one), the index finds every peer at every
      point of a run of ticks, pongs, state messages and peer events if and only if every event of
      the run is quiet in its turn. */
  lemma IndexRefinesScan(self: Self, key: SocketKey, r: Registry, evs: seq<EdgeEvent>)
    requires Sound(key, r) && Complete(key, r)
    ensures (forall i :: 0 <= i <= |evs| ==> CompleteAt(self, key, r, evs, i))
       <==> (forall i :: 0 <= i < |evs| ==> QuietAt(self, key, r, evs, i))
  {
    hide EdgeRun, EdgeStep, Complete, Sound, Quiet;
    if forall i :: 0 <= i < |evs| ==> QuietAt(self, key, r, evs, i) {
      forall i | 0 <= i <= |evs| ensures CompleteAt(self, key, r, evs, i) { CompleteWhileQuiet(self, key, r, evs, i); }
    } else if forall i :: 0 <= i <= |evs| ==> CompleteAt(self, key, r, evs, i) {
      var i :| 0 <= i < |evs| && !QuietAt(self, key, r, evs, i);
      assert CompleteAt(self, key, r, evs, i) && CompleteAt(self, key, r, evs, i + 1);
      EveryRunKeepsIndexSound(self, key, r, evs[..i]);
      EdgeRunSnoc(self, key, r, evs, i);
      EventComplete(self, key, EdgeRun(self, key, r, evs[..i]), evs[i]);
    }
  }

  /** With a sound and complete index, looking a socket up is scanning for it. */
  lemma LookupIsScan(key: SocketKey, r: Registry, k: string, m: Mac)
    requires Sound(key, r) && Complete(key, r)
    ensures (k in r.bySocket && r.bySocket[k] == m) <==> (m in r.peers && KeyOf(key, r.peers[m]) == k)
  {}

  /** One list event can lose a peer: a newcomer takes over the socket of a peer that the same
      list drops, and dropping the old peer deletes the newcomer's entry. Before and after the
      event every socket is held by one peer. */
  lemma HandoverLosesNewcomer(a: PeerInfo, b: PeerInfo)
    requires a.mac != b.mac && a.pubSocket == b.pubSocket
    ensures var key: SocketKey := s => s;
      var r := Added(key, EMPTY, a);
      var r' := Handled(key, r, PeerInfoList(TypeList, None, [b]), false, true).0;
      && Complete(key, r) && DistinctSockets(key, r) && DistinctSockets(key, r')
      && b.mac in r'.peers && !Complete(key, r')
  {
    var key: SocketKey := s => s;
    var r := Added(key, EMPTY, a);
    var r1 := Added(key, r, b);
    assert AddedAll(key, r, [b], true) == AddedAll(key, r1, [], true);
    assert Listed([b]) == {b.mac} by { assert [b][0] == b; }
    var r' := Kept(key, r1, {b.mac});
    assert a.mac in r1.peers && a.mac !in {b.mac};
    assert KeyOf(key, r1.peers[a.mac]) == a.pubSocket;
    assert r'.peers.Keys == {b.mac};
    assert b.pubSocket !in r'.bySocket;
    assert KeyOf(key, r'.peers[b.mac]) == b.pubSocket;
  }
}
