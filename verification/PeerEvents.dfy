/** What one peer event does, whatever its kind and flags: when it is accepted, what a refused one
    leaves behind, whom the registry then knows and with which data, and what it knows of the edge
    itself. Read off the event, without following the updates. */
module PeerEvents {
  import opened Bytes
  import opened Peers
  import opened Probing
  import opened Replica

  /** Each address is new when its turn comes: neither known before nor listed earlier. */
  ghost predicate AllNew(known: set<Mac>, infos: seq<PeerInfo>) {
    forall i :: 0 <= i < |infos| ==> infos[i].mac !in known + Listed(infos[..i])
  }

  /** The last entry for an address. */
  ghost predicate LastSays(infos: seq<PeerInfo>, m: Mac, info: PeerInfo) {
    exists i :: 0 <= i < |infos| && infos[i] == info && info.mac == m && m !in Listed(infos[i + 1..])
  }

  predicate JustMet(p: PeerState) {
    p.status == Unknown && p.checkId == "" && !p.isFullDuplex && p.ttl == 0
  }

  ghost predicate AllJustMet(r: Registry) {
    forall m :: m in r.peers ==> JustMet(r.peers[m])
  }

  // ---------------------------------------------------------------------------
  // Additions
  // ---------------------------------------------------------------------------

  lemma ListedPrefix(infos: seq<PeerInfo>, k: nat)
    requires 0 < k <= |infos|
    ensures Listed(infos[..k]) == {infos[0].mac} + Listed(infos[1..][..k - 1])
  {
    ListedCons(infos[..k]);
    assert infos[..k][1..] == infos[1..][..k - 1];
  }

  lemma AllNewCons(known: set<Mac>, infos: seq<PeerInfo>)
    requires infos != []
    ensures AllNew(known, infos) <==> infos[0].mac !in known && AllNew(known + {infos[0].mac}, infos[1..])
  {
    var rest := infos[1..];
    forall i | 0 <= i < |rest|
      ensures infos[i + 1] == rest[i]
      ensures known + Listed(infos[..i + 1]) == known + {infos[0].mac} + Listed(rest[..i])
    {
      ListedPrefix(infos, i + 1);
    }
    if AllNew(known, infos) {
      assert infos[0].mac !in known + Listed(infos[..0]);
      forall i | 0 <= i < |rest| ensures rest[i].mac !in known + {infos[0].mac} + Listed(rest[..i]) {
        assert infos[i + 1].mac !in known + Listed(infos[..i + 1]);
      }
    }
    if infos[0].mac !in known && AllNew(known + {infos[0].mac}, rest) {
      assert Listed(infos[..0]) == {};
      forall i | 0 <= i < |infos| ensures infos[i].mac !in known + Listed(infos[..i]) {
        if i > 0 { assert rest[i - 1].mac !in known + {infos[0].mac} + Listed(rest[..i - 1]); }
      }
    }
  }

  /** Additions are accepted if and only if they may overwrite or every address is new. */
  lemma {:induction false} AdditionsAccepted(key: SocketKey, r: Registry, infos: seq<PeerInfo>, overwrite: bool)
    ensures AddedAll(key, r, infos, overwrite).1 <==> overwrite || AllNew(r.peers.Keys, infos)
    decreases |infos|
  {
    if infos != [] {
      AllNewCons(r.peers.Keys, infos);
      var r1 := Added(key, r, infos[0]);
      assert r1.peers.Keys == r.peers.Keys + {infos[0].mac};
      AdditionsAccepted(key, r1, infos[1..], overwrite);
    }
  }

  /** Refused additions stop at the first address that is not new, with the earlier ones added. */
  lemma {:induction false} RefusedAt(key: SocketKey, r: Registry, infos: seq<PeerInfo>) returns (k: nat)
    requires !AddedAll(key, r, infos, false).1
    ensures k < |infos| && AllNew(r.peers.Keys, infos[..k]) && infos[k].mac in r.peers.Keys + Listed(infos[..k])
    ensures AddedAll(key, r, infos, false).0 == AddedAll(key, r, infos[..k], true).0
    decreases |infos|
  {
    if infos[0].mac in r.peers {
      k := 0;
    } else {
      var r1, rest := Added(key, r, infos[0]), infos[1..];
      var j := RefusedAt(key, r1, rest);
      k := j + 1;
      var front := infos[..k];
      assert front[0] == infos[0] && front[1..] == rest[..j];
      assert r1.peers.Keys == r.peers.Keys + {infos[0].mac};
      AllNewCons(r.peers.Keys, front);
      ListedPrefix(infos, k);
    }
  }

  lemma LastSaysCons(infos: seq<PeerInfo>, m: Mac, info: PeerInfo)
    requires infos != []
    ensures LastSays(infos[1..], m, info) ==> LastSays(infos, m, info)
    ensures infos[0] == info && info.mac == m && m !in Listed(infos[1..]) ==> LastSays(infos, m, info)
  {
    if LastSays(infos[1..], m, info) {
      var i :| 0 <= i < |infos[1..]| && infos[1..][i] == info && m !in Listed(infos[1..][i + 1..]);
      assert infos[i + 1] == info && infos[i + 1 + 1..] == infos[1..][i + 1..];
    }
  }

  lemma AdditionLeaves(key: SocketKey, r: Registry, info: PeerInfo)
    ensures var r' := Added(key, r, info);
      && r'.peers.Keys == r.peers.Keys + {info.mac} && r'.peers[info.mac].info == info
      && (forall m :: m in r.peers && m != info.mac ==> r'.peers[m] == r.peers[m])
  {}

  /** After additions that were accepted: the peers known before and those listed, the latter with the
      data last given for them, the others untouched. */
  lemma {:induction false} AdditionsLeave(key: SocketKey, r: Registry, infos: seq<PeerInfo>, overwrite: bool)
    requires AddedAll(key, r, infos, overwrite).1
    ensures var r' := AddedAll(key, r, infos, overwrite).0;
      && r'.peers.Keys == r.peers.Keys + Listed(infos)
      && (forall m :: m in Listed(infos) ==> LastSays(infos, m, r'.peers[m].info))
      && (forall m :: m in r.peers && m !in Listed(infos) ==> r'.peers[m] == r.peers[m])
    decreases |infos|
  {
    if infos != [] {
      var r1, rest := Added(key, r, infos[0]), infos[1..];
      ListedCons(infos);
      AdditionLeaves(key, r, infos[0]);
      hide Added, LastSays;
      AdditionsLeave(key, r1, rest, overwrite);
      var r' := AddedAll(key, r1, rest, overwrite).0;
      forall m | m in Listed(infos) ensures LastSays(infos, m, r'.peers[m].info) {
        LastSaysCons(infos, m, r'.peers[m].info);
      }
    }
  }

  lemma {:induction false} AdditionsKeepMe(key: SocketKey, r: Registry, infos: seq<PeerInfo>, overwrite: bool)
    ensures AddedAll(key, r, infos, overwrite).0.me == r.me
    decreases |infos|
  {
    if infos != [] { AdditionsKeepMe(key, Added(key, r, infos[0]), infos[1..], overwrite); }
  }

  lemma {:induction false} RemovalsKeepMe(key: SocketKey, r: Registry, macs: seq<Mac>)
    ensures RemovedAll(key, r, macs).me == r.me
    decreases |macs|
  {
    if macs != [] { RemovalsKeepMe(key, Removed(key, r, macs[0]), macs[1..]); }
  }

  lemma {:induction false} AdditionsJustMet(key: SocketKey, r: Registry, infos: seq<PeerInfo>, overwrite: bool)
    requires AllJustMet(r)
    ensures AllJustMet(AddedAll(key, r, infos, overwrite).0)
    decreases |infos|
  {
    if infos != [] && (infos[0].mac !in r.peers || overwrite) {
      AdditionsJustMet(key, Added(key, r, infos[0]), infos[1..], overwrite);
    }
  }

  // ---------------------------------------------------------------------------
  // Events
  // ---------------------------------------------------------------------------

  /** Whom an addition may find already there. */
  function KnownBefore(r: Registry, list: PeerInfoList, reset: bool): set<Mac> {
    if list.eventType == TypeList && reset then {} else r.peers.Keys
  }

  /** An event is refused if and only if its kind is unknown, or it adds an address that is not new
      and may not overwrite. */
  lemma AcceptedExactly(key: SocketKey, r: Registry, list: PeerInfoList, reset: bool, overwrite: bool)
    ensures Handled(key, r, list, reset, overwrite).1
       <==> match list.eventType
            case TypeOther => false
            case TypeUnregister => true
            case _ => overwrite || AllNew(KnownBefore(r, list, reset), list.infos)
  {
    var r0 := if reset then r.(peers := map[], bySocket := map[]) else r;
    var r1 := if list.origin.Some? then r0.(me := list.origin) else r0;
    AdditionsAccepted(key, r1, list.infos, overwrite);
    AdditionsAccepted(key, r, list.infos, overwrite);
  }

  /** Whom the registry knows after an accepted event, and with which data: a list leaves exactly the
      peers it names, an arrival adds them, a departure removes them. */
  lemma KnownExactly(key: SocketKey, r: Registry, list: PeerInfoList, reset: bool, overwrite: bool)
    requires Handled(key, r, list, reset, overwrite).1
    ensures var r', listed := Handled(key, r, list, reset, overwrite).0, Listed(list.infos);
      && r'.peers.Keys == (match list.eventType
                           case TypeList => listed
                           case TypeRegister => r.peers.Keys + listed
                           case _ => r.peers.Keys - listed)
      && (forall m :: m in r'.peers ==>
            if m in listed then LastSays(list.infos, m, r'.peers[m].info) else m in r.peers && r'.peers[m] == r.peers[m])
      && (list.eventType == TypeList && reset ==> AllJustMet(r'))
  {
    var r0 := if reset then r.(peers := map[], bySocket := map[]) else r;
    var r1 := if list.origin.Some? then r0.(me := list.origin) else r0;
    match list.eventType
    case TypeList =>
      AdditionsLeave(key, r1, list.infos, overwrite);
      if reset { AdditionsJustMet(key, r1, list.infos, overwrite); }
    case TypeRegister => AdditionsLeave(key, r, list.infos, overwrite);
    case TypeUnregister =>
      RemovedAllMembers(key, r, Macs(list.infos));
      ListedIsMacs(list.infos);
    case TypeOther =>
  }

  /** The event says who the edge itself is. */
  predicate Introduces(ev: EdgeEvent) {
    ev.PeerEvent? && ev.list.eventType == TypeList && ev.list.origin.Some?
  }

  lemma MeStep(self: Self, key: SocketKey, r: Registry, ev: EdgeEvent)
    ensures EdgeStep(self, key, r, ev).me == if Introduces(ev) then ev.list.origin else r.me
  {
    match ev
    case Tick =>
    case Pong(_, _, _) =>
    case StateInfo(mac, hasFrom, to) => ReachableKeepMe(r, (if hasFrom then [mac] else []) + to);
    case UnregisterRequest(_) =>
    case PeerEvent(list) =>
      var r1 := if list.origin.Some? then r.(me := list.origin) else r;
      AdditionsKeepMe(key, r1, list.infos, true);
      AdditionsKeepMe(key, r, list.infos, true);
      RemovalsKeepMe(key, r, Macs(list.infos));
  }

  lemma {:induction false} ReachableKeepMe(r: Registry, macs: seq<Mac>)
    ensures ReachableAll(r, macs).me == r.me
    decreases |macs|
  {
    if macs != [] { ReachableKeepMe(ReachableAt(r, macs[0]), macs[1..]); }
  }

  ghost predicate IntroducedAt(evs: seq<EdgeEvent>, n: nat, i: nat, me: PeerInfo)
    requires n <= |evs|
  {
    && i < n && Introduces(evs[i]) && evs[i].list.origin == Some(me)
    && forall j :: i < j < n ==> !Introduces(evs[j])
  }

  /** Over every run the edge takes itself to be what the last list that said so said. */
  lemma {:induction false} MeExactly(self: Self, key: SocketKey, evs: seq<EdgeEvent>, n: nat, me: PeerInfo)
    requires n <= |evs|
    ensures RegistryAfter(self, key, evs, n).me == Some(me) <==> exists i: nat :: IntroducedAt(evs, n, i, me)
  {
    if n == 0 {
      assert evs[..0] == [];
    } else {
      var p := n - 1;
      MeExactly(self, key, evs, p, me);
      EdgeRunSnoc(self, key, EMPTY, evs, p);
      hide EdgeStep, EdgeRun;
      MeStep(self, key, RegistryAfter(self, key, evs, p), evs[p]);
      if i: nat :| IntroducedAt(evs, p, i, me) && !Introduces(evs[p]) { assert IntroducedAt(evs, n, i, me); }
      if i: nat :| IntroducedAt(evs, n, i, me) && i < p { assert IntroducedAt(evs, p, i, me); }
      if Introduces(evs[p]) && evs[p].list.origin == Some(me) { assert IntroducedAt(evs, n, p, me); }
    }
  }
}
