/** What hole-punching guarantees over every run of an edge: the probe budget stays in range,
    Unavailable is final, an unanswered peer is given up after exactly thirty ticks, and a pong
    counts only for the socket the peer has now. */
module Probing {
  import opened Bytes
  import opened Peers

  // ---------------------------------------------------------------------------
  // The invariant of one peer
  // ---------------------------------------------------------------------------

  ghost predicate PeerOk(self: Self, p: PeerState) {
    && 0 <= p.ttl <= PENDING_TTL
    && p.status != FullDuplex
    && (p.status == Pending || p.status == Available ==> p.ttl >= 1)
    && (p.status == Unavailable ==> p.ttl == 0)
    && (p.status == Unavailable || p.status == Unknown ==> p.checkId == "")
    && (p.checkId == "" || p.checkId == CheckId(self, p.info))
  }

  ghost predicate RegistryOk(self: Self, r: Registry) {
    forall m :: m in r.peers ==> r.peers[m].info.mac == m && PeerOk(self, r.peers[m])
  }

  /** What one tick makes of a peer in whatever state: an Unknown one is probed twice at once, a Pending
      one once while it has more than one unit of budget left, an Available one for nothing; without
      budget all of them are given up. */
  lemma TickExactly(self: Self, p: PeerState)
    ensures var q := Ticked(self, p);
      && q.info == p.info && q.isFullDuplex == p.isFullDuplex
      && match p.status
         case Unknown => q.status == Pending && q.ttl == 29 && q.checkId == CheckId(self, p.info)
         case Pending =>
           if p.ttl >= 2 then q.status == Pending && q.ttl == p.ttl - 1 && q.checkId == CheckId(self, p.info)
           else q.status == Unavailable && q.ttl == (if p.ttl == 1 then 0 else p.ttl) && q.checkId == ""
         case Available =>
           q.ttl == p.ttl && if p.ttl >= 1 then q.status == Available && q.checkId == CheckId(self, p.info)
                             else q.status == Unavailable && q.checkId == ""
         case _ => q == p
  {
    hide CheckId;
    var a := ProbedUnknown(self, p);
    assert p.status == Unknown ==> a == p.(status := Pending, ttl := 30, checkId := CheckId(self, p.info));
    var b := ProbedPending(self, a);
    assert a.status != Pending ==> b == a;
  }

  lemma TickedKeepsOk(self: Self, p: PeerState)
    requires PeerOk(self, p)
    ensures PeerOk(self, Ticked(self, p)) && Ticked(self, p).info == p.info
  {
    var q := ProbedUnknown(self, p);
    assert PeerOk(self, q) && q.info == p.info;
    assert PeerOk(self, ProbedPending(self, q));
  }

  lemma PongedKeepsOk(self: Self, p: PeerState, checkId: string, fromSupernode: bool)
    requires PeerOk(self, p)
    ensures PeerOk(self, Ponged(p, checkId, fromSupernode))
    ensures Ponged(p, checkId, fromSupernode).info == p.info
  {}

  lemma AddedAllKeepsOk(self: Self, key: SocketKey, r: Registry, infos: seq<PeerInfo>, overwrite: bool)
    requires RegistryOk(self, r)
    ensures RegistryOk(self, AddedAll(key, r, infos, overwrite).0)
    decreases |infos|
  {
    if infos != [] && (infos[0].mac !in r.peers || overwrite) {
      AddedAllKeepsOk(self, key, Added(key, r, infos[0]), infos[1..], overwrite);
    }
  }

  lemma RemovedAllKeepsOk(self: Self, key: SocketKey, r: Registry, macs: seq<Mac>)
    requires RegistryOk(self, r)
    ensures RegistryOk(self, RemovedAll(key, r, macs))
    decreases |macs|
  {
    if macs != [] { RemovedAllKeepsOk(self, key, Removed(key, r, macs[0]), macs[1..]); }
  }

  lemma ReachableAllKeepsOk(self: Self, r: Registry, macs: seq<Mac>)
    requires RegistryOk(self, r)
    ensures RegistryOk(self, ReachableAll(r, macs))
    decreases |macs|
  {
    if macs != [] { ReachableAllKeepsOk(self, ReachableAt(r, macs[0]), macs[1..]); }
  }

  lemma HandledKeepsOk(self: Self, key: SocketKey, r: Registry, list: PeerInfoList, reset: bool, overwrite: bool)
    requires RegistryOk(self, r)
    ensures RegistryOk(self, Handled(key, r, list, reset, overwrite).0)
  {
    match list.eventType
    case TypeList =>
      var r0 := if reset then r.(peers := map[], bySocket := map[]) else r;
      var r1 := if list.origin.Some? then r0.(me := list.origin) else r0;
      AddedAllKeepsOk(self, key, r1, list.infos, overwrite);
    case TypeRegister => AddedAllKeepsOk(self, key, r, list.infos, overwrite);
    case TypeUnregister => RemovedAllKeepsOk(self, key, r, Macs(list.infos));
    case TypeOther =>
  }

  lemma EdgeStepKeepsOk(self: Self, key: SocketKey, r: Registry, ev: EdgeEvent)
    requires RegistryOk(self, r)
    ensures RegistryOk(self, EdgeStep(self, key, r, ev))
  {
    match ev
    case Tick =>
      forall m | m in r.peers { TickedKeepsOk(self, r.peers[m]); }
    case Pong(mac, checkId, fromSupernode) =>
      if mac in r.peers { PongedKeepsOk(self, r.peers[mac], checkId, fromSupernode); }
    case StateInfo(mac, hasFrom, to) => ReachableAllKeepsOk(self, r, (if hasFrom then [mac] else []) + to);
    case PeerEvent(list) => HandledKeepsOk(self, key, r, list, false, true);
    case UnregisterRequest(_) =>
  }

  /** Over every run from the empty registry the probe budget stays in 0..30, Pending and
      Available peers still have budget, Unavailable ones have none, and a check id is always
      the one built from the peer's present socket, or none. */
  lemma {:induction false} EveryRunKeepsProbing(self: Self, key: SocketKey, r: Registry, evs: seq<EdgeEvent>)
    requires RegistryOk(self, r)
    ensures RegistryOk(self, EdgeRun(self, key, r, evs))
    decreases |evs|
  {
    if evs != [] {
      EdgeStepKeepsOk(self, key, r, evs[0]);
      EveryRunKeepsProbing(self, key, EdgeStep(self, key, r, evs[0]), evs[1..]);
    }
  }

  // ---------------------------------------------------------------------------
  // Unavailable is final
  // ---------------------------------------------------------------------------

  predicate GivenUp(r: Registry, m: Mac) {
    m in r.peers && r.peers[m].status == Unavailable
  }

  predicate Moves(infos: seq<PeerInfo>, was: PeerInfo) {
    exists i :: 0 <= i < |infos| && infos[i].mac == was.mac && !SameNetwork(infos[i], was)
  }

  /** The events that end a peer's Unavailable state: it is removed, or listed with another
      virtual address or public socket. Everything else leaves it given up. */
  predicate Revives(self: Self, was: PeerInfo, ev: EdgeEvent) {
    match ev
    case Tick => false
    case Pong(_, _, _) => false
    case StateInfo(_, _, _) => false
    case UnregisterRequest(mac) => mac == was.mac && mac != self.mac
    case PeerEvent(list) =>
      match list.eventType
      case TypeList => Moves(list.infos, was) || was.mac !in Listed(list.infos)
      case TypeRegister => Moves(list.infos, was)
      case TypeUnregister => was.mac in Listed(list.infos)
      case TypeOther => false
  }

  lemma MovesUnfold(infos: seq<PeerInfo>, was: PeerInfo)
    requires infos != []
    ensures Moves(infos, was)
       <==> (infos[0].mac == was.mac && !SameNetwork(infos[0], was)) || Moves(infos[1..], was)
  {
    assert forall i :: 0 <= i < |infos| - 1 ==> infos[1..][i] == infos[i + 1];
    if Moves(infos, was) {
      var i :| 0 <= i < |infos| && infos[i].mac == was.mac && !SameNetwork(infos[i], was);
      if i > 0 { assert infos[1..][i - 1] == infos[i]; }
    }
  }

  lemma {:induction false} AddedAllGivenUp(key: SocketKey, r: Registry, infos: seq<PeerInfo>, was: PeerInfo)
    requires was.mac in r.peers
    requires GivenUp(r, was.mac) ==> SameNetwork(r.peers[was.mac].info, was)
    ensures var r' := AddedAll(key, r, infos, true).0;
      && was.mac in r'.peers
      && (GivenUp(r', was.mac) <==> GivenUp(r, was.mac) && !Moves(infos, was))
      && (GivenUp(r', was.mac) ==> SameNetwork(r'.peers[was.mac].info, was))
    decreases |infos|
  {
    if infos != [] {
      MovesUnfold(infos, was);
      AddedAllGivenUp(key, Added(key, r, infos[0]), infos[1..], was);
    }
  }

  lemma RemovedAllMembers(key: SocketKey, r: Registry, macs: seq<Mac>)
    ensures RemovedAll(key, r, macs).peers == map m | m in r.peers && m !in macs :: r.peers[m]
    decreases |macs|
  {
    if macs != [] {
      RemovedAllMembers(key, Removed(key, r, macs[0]), macs[1..]);
      assert macs == [macs[0]] + macs[1..];
    }
  }

  lemma ReachableAllGivenUp(r: Registry, macs: seq<Mac>, m: Mac)
    requires m in r.peers && r.peers[m].status == Unavailable && r.peers[m].ttl == 0
    ensures var r' := ReachableAll(r, macs);
      m in r'.peers && r'.peers[m].status == Unavailable && r'.peers[m].info == r.peers[m].info
    decreases |macs|
  {
    if macs != [] { ReachableAllGivenUp(ReachableAt(r, macs[0]), macs[1..], m); }
  }

  /** One event keeps a peer Unavailable exactly when it does not revive it, and then also keeps
      its virtual address and socket. */
  lemma UnavailableStep(self: Self, key: SocketKey, r: Registry, ev: EdgeEvent, m: Mac)
    requires RegistryOk(self, r) && GivenUp(r, m)
    ensures var r' := EdgeStep(self, key, r, ev);
      && (GivenUp(r', m) <==> !Revives(self, r.peers[m].info, ev))
      && (GivenUp(r', m) ==> SameNetwork(r'.peers[m].info, r.peers[m].info))
  {
    var was := r.peers[m].info;
    match ev
    case Tick =>
    case Pong(_, _, _) =>
    case StateInfo(mac, hasFrom, to) => ReachableAllGivenUp(r, (if hasFrom then [mac] else []) + to, m);
    case UnregisterRequest(_) =>
    case PeerEvent(list) =>
      match list.eventType {
        case TypeList =>
          var r1 := if list.origin.Some? then r.(me := list.origin) else r;
          AddedAllGivenUp(key, r1, list.infos, was);
          AddedAllAccepts(key, r1, list.infos);
        case TypeRegister => AddedAllGivenUp(key, r, list.infos, was);
        case TypeUnregister =>
          RemovedAllMembers(key, r, Macs(list.infos));
          ListedIsMacs(list.infos);
        case TypeOther =>
      }
  }

  lemma AddedAllAccepts(key: SocketKey, r: Registry, infos: seq<PeerInfo>)
    ensures AddedAll(key, r, infos, true).1
    decreases |infos|
  {
    if infos != [] { AddedAllAccepts(key, Added(key, r, infos[0]), infos[1..]); }
  }

  lemma ListedIsMacs(infos: seq<PeerInfo>)
    ensures forall m :: m in Macs(infos) <==> m in Listed(infos)
  {
    forall m | m in Listed(infos) ensures m in Macs(infos) {
      var i :| 0 <= i < |infos| && infos[i].mac == m;
      assert Macs(infos)[i] == m;
    }
  }

  /** Over a whole run: as long as no event removes the peer or changes its network identity,
      Unavailable lasts. Stated with the identity the peer had when it was given up. */
  lemma {:induction false} UnavailableIsFinal(
    self: Self, key: SocketKey, r: Registry, evs: seq<EdgeEvent>, m: Mac, was: PeerInfo)
    requires RegistryOk(self, r) && GivenUp(r, m)
    requires was.mac == m && SameNetwork(r.peers[m].info, was)
    requires forall i :: 0 <= i < |evs| ==> !Revives(self, was, evs[i])
    ensures GivenUp(EdgeRun(self, key, r, evs), m)
    decreases |evs|
  {
    if evs != [] {
      var r1 := EdgeStep(self, key, r, evs[0]);
      EdgeStepKeepsOk(self, key, r, evs[0]);
      UnavailableStep(self, key, r, evs[0], m);
      assert !Revives(self, was, evs[0]);
      assert Revives(self, r.peers[m].info, evs[0]) == Revives(self, was, evs[0]);
      forall i | 0 <= i < |evs[1..]| ensures !Revives(self, was, evs[1..][i]) {
        assert evs[1..][i] == evs[i + 1];
      }
      UnavailableIsFinal(self, key, r1, evs[1..], m, was);
    }
  }

  // ---------------------------------------------------------------------------
  // Giving up takes exactly thirty ticks
  // ---------------------------------------------------------------------------

  function Ticks(n: nat): seq<EdgeEvent> { seq(n, _ => Tick) }

  lemma TicksNext(self: Self, key: SocketKey, r: Registry, n: nat)
    requires n > 0
    ensures EdgeRun(self, key, r, Ticks(n)) == EdgeRun(self, key, TickedAll(self, r), Ticks(n - 1))
  {
    assert Ticks(n)[1..] == Ticks(n - 1);
  }

  lemma PendingTick(self: Self, r: Registry, m: Mac)
    requires m in r.peers && r.peers[m].status == Pending && r.peers[m].ttl > 0
    ensures var p, q := r.peers[m], TickedAll(self, r).peers;
      m in q && q[m].ttl == p.ttl - 1 && q[m].status == if p.ttl == 1 then Unavailable else Pending
  {}

  lemma {:induction false} PendingCountdown(self: Self, key: SocketKey, r: Registry, m: Mac, n: nat)
    requires m in r.peers && r.peers[m].status == Pending && n <= r.peers[m].ttl
    ensures var r' := EdgeRun(self, key, r, Ticks(n));
      && m in r'.peers
      && r'.peers[m].ttl == r.peers[m].ttl - n
      && r'.peers[m].status == (if n == r.peers[m].ttl && n > 0 then Unavailable else Pending)
    decreases n
  {
    if n > 0 {
      hide TickedAll, EdgeStep;
      TicksNext(self, key, r, n);
      PendingTick(self, r, m);
      if n == 1 {
        assert Ticks(0) == [];
      } else {
        PendingCountdown(self, key, TickedAll(self, r), m, n - 1);
      }
    }
  }

  /** A peer that is Unknown and sees only ticks is Pending, with one unit of budget spent per
      tick, until the thirtieth tick makes it Unavailable. */
  lemma UnansweredGivesUpAtThirty(self: Self, key: SocketKey, r: Registry, m: Mac, n: nat)
    requires m in r.peers && r.peers[m].status == Unknown
    requires 1 <= n <= PENDING_TTL
    ensures var p' := EdgeRun(self, key, r, Ticks(n)).peers;
      && m in p'
      && p'[m].ttl == PENDING_TTL - n
      && p'[m].status == (if n == PENDING_TTL then Unavailable else Pending)
  {
    var r1 := TickedAll(self, r);
    assert Ticks(n)[1..] == Ticks(n - 1);
    assert r1.peers[m].status == Pending && r1.peers[m].ttl == 29;
    PendingCountdown(self, key, r1, m, n - 1);
  }

  // ---------------------------------------------------------------------------
  // A pong counts only for the present socket
  // ---------------------------------------------------------------------------

  lemma CheckIdInjective(self: Self, mac: Mac, s: string, t: string)
    requires CheckIdFor(self, mac, s) == CheckIdFor(self, mac, t)
    ensures s == t
  {
    var prefix := self.id + "." + MacText(self.mac) + "." + MacText(mac) + ".";
    assert CheckIdFor(self, mac, s) == prefix + s + ".0";
    assert CheckIdFor(self, mac, t) == prefix + t + ".0";
    assert |prefix + s + ".0"| == |prefix| + |s| + 2;
    assert |s| == |t|;
    assert s == (prefix + s + ".0")[|prefix|..|prefix| + |s|];
    assert t == (prefix + t + ".0")[|prefix|..|prefix| + |t|];
  }

  /** After any run, a pong carrying a check id makes the peer Available exactly when that id is
      the one outstanding for it and it still has probe budget. */
  lemma PongEffect(self: Self, r: Registry, m: Mac, checkId: string, fromSupernode: bool)
    requires RegistryOk(self, r) && m in r.peers
    ensures PongedAt(r, m, checkId, fromSupernode).peers[m].status == Available
       <==> r.peers[m].checkId == checkId && r.peers[m].ttl >= 1
  {}

  /** A pong that answers a probe of some other socket never leaves the peer Available, whatever
      run came before. */
  lemma StalePongNeverAvailable(
    self: Self, key: SocketKey, evs: seq<EdgeEvent>, m: Mac, oldSocket: string, fromSupernode: bool)
    requires var r := EdgeRun(self, key, EMPTY, evs);
      m in r.peers && r.peers[m].info.pubSocket != oldSocket
    ensures var r := EdgeRun(self, key, EMPTY, evs);
      EdgeStep(self, key, r, Pong(m, CheckIdFor(self, m, oldSocket), fromSupernode)).peers[m].status != Available
  {
    var r := EdgeRun(self, key, EMPTY, evs);
    EveryRunKeepsProbing(self, key, EMPTY, evs);
    PongEffect(self, r, m, CheckIdFor(self, m, oldSocket), fromSupernode);
    if r.peers[m].checkId == CheckIdFor(self, m, oldSocket) {
      CheckIdInjective(self, m, r.peers[m].info.pubSocket, oldSocket);
    }
  }

  // ---------------------------------------------------------------------------
  // Available is earned
  // ---------------------------------------------------------------------------

  /** Taking over new data: another virtual address or socket restarts hole-punching, whatever the
      status was, and anything else leaves it alone. */
  lemma OverwrittenExactly(p: PeerState, info: PeerInfo)
    ensures var q := Overwritten(p, info);
      && q.info == info && q.ttl == p.ttl && q.isFullDuplex == p.isFullDuplex
      && if p.info.virtualIp != info.virtualIp || p.info.pubSocket != info.pubSocket
         then q.status == Unknown && q.checkId == ""
         else q.status == p.status && q.checkId == p.checkId
  {}

  predicate IsAvailable(r: Registry, m: Mac) {
    m in r.peers && r.peers[m].status == Available
  }

  /** The peers a state message speaks of: the sender, if it describes itself, and those it lists. */
  predicate Names(ev: EdgeEvent, m: Mac) {
    ev.StateInfo? && ((ev.hasFrom && ev.mac == m) || m in ev.to)
  }

  /** A pong of the peer that carries the check id on record for it. */
  predicate Answered(r: Registry, ev: EdgeEvent, m: Mac) {
    m in r.peers && ev.Pong? && ev.mac == m && ev.checkId == r.peers[m].checkId
  }

  /** What makes a peer with budget Available: such a pong, or a state message that names it. */
  predicate Earns(r: Registry, ev: EdgeEvent, m: Mac) {
    m in r.peers && r.peers[m].ttl >= 1 && (Answered(r, ev, m) || Names(ev, m))
  }

  lemma {:induction false} AddedAllAvailable(key: SocketKey, r: Registry, infos: seq<PeerInfo>, m: Mac, was: PeerInfo)
    requires was.mac == m && (IsAvailable(r, m) ==> SameNetwork(r.peers[m].info, was))
    ensures var r' := AddedAll(key, r, infos, true).0;
      && (IsAvailable(r', m) <==> IsAvailable(r, m) && !Moves(infos, was))
      && (IsAvailable(r', m) ==> SameNetwork(r'.peers[m].info, was))
    decreases |infos|
  {
    if infos != [] {
      MovesUnfold(infos, was);
      AddedAllAvailable(key, Added(key, r, infos[0]), infos[1..], m, was);
    }
  }

  /** What a state message does to one peer. */
  lemma {:induction false} ReachableAllAt(r: Registry, macs: seq<Mac>, m: Mac)
    ensures var r' := ReachableAll(r, macs);
      && (m in r'.peers <==> m in r.peers)
      && (m in r.peers ==>
            var p, q := r.peers[m], r'.peers[m];
            && q.info == p.info && q.ttl == p.ttl && q.isFullDuplex == p.isFullDuplex
            && if m !in macs then q == p
               else q.checkId == "" && q.status == if p.ttl >= 1 then Available else Unavailable)
    decreases |macs|
  {
    if macs != [] {
      ReachableAllAt(ReachableAt(r, macs[0]), macs[1..], m);
      assert macs == [macs[0]] + macs[1..];
    }
  }

  lemma TickedAvailable(self: Self, p: PeerState)
    requires PeerOk(self, p)
    ensures Ticked(self, p).status == Available <==> p.status == Available
  {}

  lemma PongAvailable(self: Self, r: Registry, ev: EdgeEvent, m: Mac)
    requires RegistryOk(self, r) && ev.Pong?
    ensures var r' := PongedAt(r, ev.mac, ev.checkId, ev.fromSupernode);
      && (IsAvailable(r', m) <==> if ev.mac == m then Earns(r, ev, m) else IsAvailable(r, m))
      && (m in r'.peers <==> m in r.peers)
      && (m in r.peers ==> r'.peers[m].info == r.peers[m].info)
      && (m in r.peers && IsAvailable(r, m) ==> r.peers[m].ttl >= 1)
  {}

  lemma StateAvailable(self: Self, key: SocketKey, r: Registry, ev: EdgeEvent, m: Mac)
    requires RegistryOk(self, r) && ev.StateInfo?
    ensures var r' := EdgeStep(self, key, r, ev);
      && (IsAvailable(r', m) <==> Earns(r, ev, m) || IsAvailable(r, m))
      && (m in r'.peers <==> m in r.peers)
      && (m in r.peers ==> r'.peers[m].info == r.peers[m].info)
  {
    var macs := (if ev.hasFrom then [ev.mac] else []) + ev.to;
    assert m in macs <==> Names(ev, m);
    assert IsAvailable(r, m) ==> r.peers[m].ttl >= 1;
    hide RegistryOk, ReachableAll;
    ReachableAllAt(r, macs, m);
  }

  lemma TickAvailable(self: Self, r: Registry, m: Mac)
    requires RegistryOk(self, r)
    ensures IsAvailable(TickedAll(self, r), m) <==> IsAvailable(r, m)
  {
    hide Ticked, PeerOk;
    if m in r.peers { TickedAvailable(self, r.peers[m]); }
  }

  /** One event leaves a peer Available if and only if the event earns it, or the peer was Available
      and the event neither removes it, nor gives it another virtual address or socket, nor is a
      pong with another check id. Virtual address and socket are then the same as before. */
  lemma AvailableStep(self: Self, key: SocketKey, r: Registry, ev: EdgeEvent, m: Mac)
    requires RegistryOk(self, r)
    ensures var r' := EdgeStep(self, key, r, ev);
      && (IsAvailable(r', m) <==>
            || Earns(r, ev, m)
            || (&& IsAvailable(r, m) && !Revives(self, r.peers[m].info, ev)
                && !(ev.Pong? && ev.mac == m && !Answered(r, ev, m))))
      && (IsAvailable(r', m) ==> m in r.peers && SameNetwork(r'.peers[m].info, r.peers[m].info))
  {
    hide Ticked, Ponged, ReachableAll, Handled, PeerOk, Moves;
    match ev
    case Tick => TickAvailable(self, r, m);
    case Pong(_, _, _) => PongAvailable(self, r, ev, m);
    case StateInfo(_, _, _) => StateAvailable(self, key, r, ev, m);
    case UnregisterRequest(mac) =>
      hide RegistryOk;
      assert IsAvailable(r, m) ==> r.peers[m].info.mac == m by { OwnMac(self, r, m); }
    case PeerEvent(list) => PeerEventAvailable(self, key, r, list, m);
  }

  lemma OwnMac(self: Self, r: Registry, m: Mac)
    requires RegistryOk(self, r)
    ensures m in r.peers ==> r.peers[m].info.mac == m
  {}

  lemma PeerEventAvailable(self: Self, key: SocketKey, r: Registry, list: PeerInfoList, m: Mac)
    requires RegistryOk(self, r)
    ensures var r' := EdgeStep(self, key, r, PeerEvent(list));
      && (IsAvailable(r', m) <==> IsAvailable(r, m) && !Revives(self, r.peers[m].info, PeerEvent(list)))
      && (IsAvailable(r', m) ==> SameNetwork(r'.peers[m].info, r.peers[m].info))
  {
    var was := if m in r.peers then r.peers[m].info else PeerInfo("", m, "", "", "");
    match list.eventType
    case TypeList =>
      var r1 := if list.origin.Some? then r.(me := list.origin) else r;
      AddedAllAvailable(key, r1, list.infos, m, was);
      AddedAllAccepts(key, r1, list.infos);
    case TypeRegister => AddedAllAvailable(key, r, list.infos, m, was);
    case TypeUnregister =>
      RemovedAllMembers(key, r, Macs(list.infos));
      ListedIsMacs(list.infos);
    case TypeOther =>
  }

  function RegistryAfter(self: Self, key: SocketKey, evs: seq<EdgeEvent>, n: nat): Registry
    requires n <= |evs|
  {
    EdgeRun(self, key, EMPTY, evs[..n])
  }

  lemma {:induction false} EdgeRunSnoc(self: Self, key: SocketKey, r: Registry, evs: seq<EdgeEvent>, i: nat)
    requires i < |evs|
    ensures EdgeRun(self, key, r, evs[..i + 1]) == EdgeStep(self, key, EdgeRun(self, key, r, evs[..i]), evs[i])
    decreases |evs|
  {
    if i == 0 {
      assert evs[..1][1..] == [] && evs[..0] == [];
    } else {
      EdgeRunSnoc(self, key, EdgeStep(self, key, r, evs[0]), evs[1..], i - 1);
      assert evs[..i + 1][1..] == evs[1..][..i] && evs[..i][1..] == evs[1..][..i - 1];
    }
  }

  /** Event `i` earned it, and since then the peer has been known with the virtual address and socket it
      has now. */
  ghost predicate EarnedAt(self: Self, key: SocketKey, evs: seq<EdgeEvent>, n: nat, i: nat, m: Mac)
    requires n <= |evs| && m in RegistryAfter(self, key, evs, n).peers
  {
    && i < n && Earns(RegistryAfter(self, key, evs, i), evs[i], m)
    && forall j :: i <= j <= n ==>
         var r := RegistryAfter(self, key, evs, j);
         m in r.peers && SameNetwork(r.peers[m].info, RegistryAfter(self, key, evs, n).peers[m].info)
  }

  lemma EarnedNext(self: Self, key: SocketKey, evs: seq<EdgeEvent>, n: nat, i: nat, m: Mac)
    requires n < |evs| && i <= n
    requires m in RegistryAfter(self, key, evs, n).peers && m in RegistryAfter(self, key, evs, n + 1).peers
    requires SameNetwork(RegistryAfter(self, key, evs, n + 1).peers[m].info, RegistryAfter(self, key, evs, n).peers[m].info)
    requires EarnedAt(self, key, evs, n, i, m) || (i == n && Earns(RegistryAfter(self, key, evs, n), evs[n], m))
    ensures EarnedAt(self, key, evs, n + 1, i, m)
  {
    hide RegistryAfter, Earns;
  }

  /** A peer is Available only if, since its virtual address or socket last changed, a pong with the
      check id on record for it or a state message naming it arrived while it had budget. */
  lemma {:induction false} AvailableIsEarned(self: Self, key: SocketKey, evs: seq<EdgeEvent>, n: nat, m: Mac) returns (i: nat)
    requires n <= |evs| && IsAvailable(RegistryAfter(self, key, evs, n), m)
    ensures i < n && EarnedAt(self, key, evs, n, i, m)
  {
    hide EarnedAt, Earns, EdgeStep, RegistryOk;
    if n > 0 {
      var r := RegistryAfter(self, key, evs, n - 1);
      EmptyOk(self);
      EveryRunKeepsProbing(self, key, EMPTY, evs[..n - 1]);
      EdgeRunSnoc(self, key, EMPTY, evs, n - 1);
      AvailableStep(self, key, r, evs[n - 1], m);
      if Earns(r, evs[n - 1], m) { i := n - 1; } else { i := AvailableIsEarned(self, key, evs, n - 1, m); }
      EarnedNext(self, key, evs, n - 1, i, m);
    }
  }

  lemma EmptyOk(self: Self)
    ensures RegistryOk(self, EMPTY)
  {}

  // Full duplex.

  lemma {:induction false} AddedAllDuplex(key: SocketKey, r: Registry, infos: seq<PeerInfo>, m: Mac)
    ensures var r' := AddedAll(key, r, infos, true).0;
      && (m in r.peers ==> m in r'.peers)
      && (m in r'.peers ==> r'.peers[m].isFullDuplex == (m in r.peers && r.peers[m].isFullDuplex))
    decreases |infos|
  {
    if infos != [] { AddedAllDuplex(key, Added(key, r, infos[0]), infos[1..], m); }
  }

  /** Only a pong that leaves the peer Available touches full duplex: it is on exactly if that pong came
      from the peer itself and not through the supernode. A newcomer starts without. */
  lemma DuplexStep(self: Self, key: SocketKey, r: Registry, ev: EdgeEvent, m: Mac)
    requires RegistryOk(self, r) && m in EdgeStep(self, key, r, ev).peers
    ensures EdgeStep(self, key, r, ev).peers[m].isFullDuplex
         == if ev.Pong? && ev.mac == m && Earns(r, ev, m) then !ev.fromSupernode
            else m in r.peers && r.peers[m].isFullDuplex
  {
    hide Ticked, Ponged, ReachableAll, Handled, PeerOk;
    match ev
    case Tick =>
      TickedDuplex(self, r.peers[m]);
    case Pong(_, _, _) => PongDuplex(self, r, ev, m);
    case StateInfo(mac, hasFrom, to) => ReachableAllAt(r, (if hasFrom then [mac] else []) + to, m);
    case UnregisterRequest(_) =>
    case PeerEvent(list) => PeerEventDuplex(self, key, r, list, m);
  }

  lemma TickedDuplex(self: Self, p: PeerState)
    ensures Ticked(self, p).isFullDuplex == p.isFullDuplex
  {}

  lemma PongDuplex(self: Self, r: Registry, ev: EdgeEvent, m: Mac)
    requires RegistryOk(self, r) && ev.Pong? && m in r.peers
    ensures PongedAt(r, ev.mac, ev.checkId, ev.fromSupernode).peers[m].isFullDuplex
         == if ev.mac == m && Earns(r, ev, m) then !ev.fromSupernode else r.peers[m].isFullDuplex
  {}

  lemma PeerEventDuplex(self: Self, key: SocketKey, r: Registry, list: PeerInfoList, m: Mac)
    requires m in EdgeStep(self, key, r, PeerEvent(list)).peers
    ensures EdgeStep(self, key, r, PeerEvent(list)).peers[m].isFullDuplex == (m in r.peers && r.peers[m].isFullDuplex)
  {
    match list.eventType
    case TypeList =>
      var r1 := if list.origin.Some? then r.(me := list.origin) else r;
      AddedAllDuplex(key, r1, list.infos, m);
      AddedAllAccepts(key, r1, list.infos);
    case TypeRegister => AddedAllDuplex(key, r, list.infos, m);
    case TypeUnregister => RemovedAllMembers(key, r, Macs(list.infos));
    case TypeOther =>
  }
}
