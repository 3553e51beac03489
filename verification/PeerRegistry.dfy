/** The mutable peer objects of an edge: shared between the member map and the socket index, and
    updated in place by ticks, pongs and peer events. Each operation is proved to have the effect
    the functions of `Peers` give it. */
module PeerRegistry {
  import opened Bytes
  import opened Peers
  import opened Probing
  import opened SocketIndex

  class Peer {
    var info: PeerInfo
    var status: Capacity
    var isFullDuplex: bool
    var checkId: string
    var ttl: int

    ghost function State(): PeerState
      reads this
    {
      PeerState(info, status, isFullDuplex, checkId, ttl)
    }

    constructor (info: PeerInfo)
      ensures State() == NewPeer(info)
    {
      this.info, status, isFullDuplex, checkId, ttl := info, Unknown, false, "", 0;
    }

    method UpdateP2PStatus(newStatus: Capacity, newCheckId: string) returns (changed: bool)
      modifies this
      ensures State() == Updated(old(State()), newStatus, newCheckId)
      ensures changed <==> old(status) != newStatus
    {
      var previous := status;
      if status == newStatus {
        if newStatus == Pending { ttl := ttl - 1; }
      } else if status == Unknown && newStatus == Pending {
        ttl := PENDING_TTL;
      }
      if ttl < 1 {
        checkId := "";
        status := Unavailable;
      } else {
        checkId := newCheckId;
        status := newStatus;
      }
      changed := previous != newStatus;
    }

    /** Refuses to claim full duplex for a peer that is not Available. */
    method SetFullDuplex(value: bool) returns (changed: Result<bool>)
      modifies this
      ensures changed.Err? <==> value && old(status) != Available
      ensures changed.Err? ==> State() == old(State())
      ensures changed.Ok? ==> State() == old(State()).(isFullDuplex := value)
      ensures changed.Ok? ==> changed.value == (old(isFullDuplex) != value)
    {
      if value && status != Available { return Err("cannot set full duplex without first P2PAvailable state"); }
      changed := Ok(value != isFullDuplex);
      isFullDuplex := value;
    }

    method Screen() returns (pending: bool)
      modifies this
      ensures pending <==> old(status == Pending && ttl > 0)
      ensures State() == Screened(old(State()))
    {
      pending := false;
      if status == Pending {
        if ttl > 0 { pending := true; } else { var _ := UpdateP2PStatus(Unavailable, ""); }
      }
    }

    /** A change of virtual address or socket restarts hole-punching. */
    method Overwrite(newInfo: PeerInfo)
      modifies this
      ensures State() == Overwritten(old(State()), newInfo)
    {
      if info.virtualIp != newInfo.virtualIp || info.pubSocket != newInfo.pubSocket {
        status := Unknown;
        checkId := "";
      }
      info := newInfo;
    }

    method HandlePong(id: string, fromSupernode: bool)
      modifies this
      ensures State() == Ponged(old(State()), id, fromSupernode)
    {
      if checkId == id {
        var _ := UpdateP2PStatus(Available, id);
      } else {
        var _ := UpdateP2PStatus(Unknown, "");
      }
      if status == Available {
        var _ := SetFullDuplex(!fromSupernode);
      }
    }
  }

  /** Probes each listed peer once. */
  method PingAll(self: Self, list: seq<Peer>, status: Capacity)
    requires Distinct(list)
    modifies list
    ensures forall p :: p in list ==>
      p.State() == Updated(old(p.State()), status, CheckId(self, old(p.info)))
  {
    for i := 0 to |list|
      invariant forall j :: 0 <= j < i ==>
        list[j].State() == Updated(old(list[j].State()), status, CheckId(self, old(list[j].info)))
      invariant forall j :: i <= j < |list| ==> list[j].State() == old(list[j].State())
    {
      var p := list[i];
      var _ := p.UpdateP2PStatus(status, CheckId(self, p.info));
    }
  }

  /** The member map holds objects in the states the value says. */
  ghost predicate Holds(peers: map<Mac, Peer>, states: map<Mac, PeerState>)
    reads peers.Values
  {
    states.Keys == peers.Keys && forall m :: m in peers ==> peers[m].State() == states[m]
  }

  /** The index holds the very same objects. */
  ghost predicate Points(bySocket: map<string, Peer>, index: map<string, Mac>, peers: map<Mac, Peer>) {
    && index.Keys == bySocket.Keys
    && forall k :: k in bySocket ==> index[k] in peers && bySocket[k] == peers[index[k]]
  }

  lemma HoldsPut(peers: map<Mac, Peer>, states: map<Mac, PeerState>, mac: Mac)
    requires states.Keys == peers.Keys && mac in peers
    requires forall m :: m in peers && m != mac ==> peers[m].State() == states[m]
    ensures Holds(peers, states[mac := peers[mac].State()])
  {}

  lemma HoldsAdd(peers: map<Mac, Peer>, states: map<Mac, PeerState>, mac: Mac, p: Peer)
    requires Holds(peers, states)
    ensures Holds(peers[mac := p], states[mac := p.State()])
  {}

  lemma HoldsDrop(peers: map<Mac, Peer>, states: map<Mac, PeerState>, mac: Mac)
    requires Holds(peers, states)
    ensures Holds(peers - {mac}, states - {mac})
  {}

  lemma PointsMove(bySocket: map<string, Peer>, index: map<string, Mac>, peers: map<Mac, Peer>, k: string, j: string, mac: Mac)
    requires Points(bySocket, index, peers) && mac in peers
    ensures Points((bySocket - {k})[j := peers[mac]], (index - {k})[j := mac], peers)
  {}

  lemma PointsAdd(bySocket: map<string, Peer>, index: map<string, Mac>, peers: map<Mac, Peer>, j: string, mac: Mac, p: Peer)
    requires Points(bySocket, index, peers) && mac !in peers
    ensures Points(bySocket[j := p], index[j := mac], peers[mac := p])
  {}

  lemma PointsDrop(key: SocketKey, bySocket: map<string, Peer>, r: Registry, peers: map<Mac, Peer>, mac: Mac)
    requires Points(bySocket, r.bySocket, peers) && Sound(key, r) && mac in r.peers
    ensures var k := KeyOf(key, r.peers[mac]);
      Points(bySocket - {k}, r.bySocket - {k}, peers - {mac})
  {}

  lemma AddedAllAt(key: SocketKey, r: Registry, infos: seq<PeerInfo>, i: nat, overwrite: bool)
    requires i <= |infos|
    ensures AddedAll(key, r, infos[i..], overwrite)
         == if i == |infos| then (r, true)
            else if infos[i].mac in r.peers && !overwrite then (r, false)
            else AddedAll(key, Added(key, r, infos[i]), infos[i + 1..], overwrite)
  {
    if i < |infos| { assert infos[i..][1..] == infos[i + 1..]; }
  }

  lemma EdgeRunAt(self: Self, key: SocketKey, r: Registry, evs: seq<EdgeEvent>, i: nat)
    requires i <= |evs|
    ensures EdgeRun(self, key, r, evs[i..])
         == if i == |evs| then r else EdgeRun(self, key, EdgeStep(self, key, r, evs[i]), evs[i + 1..])
  {
    if i < |evs| { assert evs[i..][1..] == evs[i + 1..]; }
  }

  class PeerRegistry {
    const key: SocketKey
    var peers: map<Mac, Peer>
    var bySocket: map<string, Peer>
    var me: Option<PeerInfo>

    /** The registry as a value; every method keeps it up to date. */
    ghost var state: Registry

    /** The member map holds objects in the states the value says, and the index holds the very
        same objects. */
    ghost predicate Linked()
      reads this, peers.Values
    {
      state.me == me && Holds(peers, state.peers) && Points(bySocket, state.bySocket, peers)
    }

    ghost predicate Valid()
      reads this, peers.Values
    {
      Linked() && Sound(key, state)
    }

    lemma OwnObject(mac: Mac)
      requires Valid() && mac in peers
      ensures peers[mac].info == state.peers[mac].info
      ensures forall m :: m in peers && m != mac ==> peers[m] != peers[mac]
    {
      forall m | m in peers && m != mac ensures peers[m] != peers[mac] {
        assert peers[m].State().info.mac == m && peers[mac].State().info.mac == mac;
      }
    }

    constructor (key: SocketKey)
      ensures Valid() && state == EMPTY && this.key == key
    {
      this.key := key;
      peers, bySocket, me := map[], map[], None;
      state := EMPTY;
    }

    method GetPeerBySocket(k: string) returns (p: Option<Peer>)
      requires Valid()
      ensures p.Some? <==> k in state.bySocket
      ensures p.Some? ==> p.value.info.mac in peers && peers[p.value.info.mac] == p.value
      ensures p.Some? ==> key(p.value.info.pubSocket) == k
    {
      p := None;
      if k in bySocket {
        OwnObject(state.bySocket[k]);
        p := Some(bySocket[k]);
      }
    }

    method OverwritePeer(info: PeerInfo)
      requires Valid() && info.mac in peers
      modifies this, peers[info.mac]
      ensures Valid() && peers == old(peers)
      ensures state == Added(key, old(state), info)
    {
      hide Points, Sound;
      OwnObject(info.mac);
      AddedKeepsSound(key, state, info);
      var p := peers[info.mac];
      var oldKey := key(p.info.pubSocket);
      PointsMove(bySocket, state.bySocket, peers, oldKey, key(info.pubSocket), info.mac);
      p.Overwrite(info);
      HoldsPut(peers, state.peers, info.mac);
      bySocket := (bySocket - {oldKey})[key(p.info.pubSocket) := p];
      state := Added(key, state, info);
    }

    method InsertPeer(info: PeerInfo) returns (p: Peer)
      requires Valid() && info.mac !in peers
      modifies this
      ensures Valid() && fresh(p) && peers == old(peers)[info.mac := p]
      ensures state == Added(key, old(state), info)
    {
      hide Points, Sound;
      AddedKeepsSound(key, state, info);
      p := new Peer(info);
      PointsAdd(bySocket, state.bySocket, peers, key(info.pubSocket), info.mac, p);
      HoldsAdd(peers, state.peers, info.mac, p);
      peers := peers[info.mac := p];
      bySocket := bySocket[key(p.info.pubSocket) := p];
      state := Added(key, state, info);
    }

    method AddPeer(info: PeerInfo, overwrite: bool) returns (added: bool)
      requires Valid()
      modifies this, peers.Values
      ensures Valid() && fresh(peers.Values - old(peers.Values))
      ensures added <==> overwrite || info.mac !in old(peers)
      ensures state == if added then Added(key, old(state), info) else old(state)
    {
      if info.mac in peers {
        if !overwrite { return false; }
        OverwritePeer(info);
      } else {
        var _ := InsertPeer(info);
      }
      added := true;
    }

    /** Removing an unknown address is not an error. */
    method RemovePeer(mac: Mac)
      requires Valid()
      modifies this
      ensures Valid() && peers == old(peers) - {mac} && peers.Values <= old(peers.Values)
      ensures state == Removed(key, old(state), mac)
    {
      if mac !in peers {
        assert peers - {mac} == peers;
        return;
      }
      hide Points, Sound;
      OwnObject(mac);
      RemovedKeepsSound(key, state, mac);
      HoldsDrop(peers, state.peers, mac);
      PointsDrop(key, bySocket, state, peers, mac);
      var k := key(peers[mac].info.pubSocket);
      peers := peers - {mac};
      bySocket := bySocket - {k};
      state := Removed(key, state, mac);
    }

    method AddAll(infos: seq<PeerInfo>, overwrite: bool) returns (ok: bool)
      requires Valid()
      modifies this, peers.Values
      ensures Valid() && fresh(peers.Values - old(peers.Values))
      ensures (state, ok) == AddedAll(key, old(state), infos, overwrite)
    {
      hide Points, Sound, Added, AddedAll;
      assert infos[0..] == infos;
      for i := 0 to |infos|
        invariant Valid() && fresh(peers.Values - old(peers.Values))
        invariant AddedAll(key, state, infos[i..], overwrite) == AddedAll(key, old(state), infos, overwrite)
      {
        AddedAllAt(key, state, infos, i, overwrite);
        var added := AddPeer(infos[i], overwrite);
        if !added { return false; }
      }
      AddedAllAt(key, state, infos, |infos|, overwrite);
      return true;
    }

    method RemoveAll(infos: seq<PeerInfo>)
      requires Valid()
      modifies this
      ensures Valid() && peers.Values <= old(peers.Values)
      ensures state == RemovedAll(key, old(state), Macs(infos))
    {
      ghost var macs := Macs(infos);
      for i := 0 to |infos|
        invariant Valid() && peers.Values <= old(peers.Values)
        invariant RemovedAll(key, state, macs[i..]) == RemovedAll(key, old(state), macs)
      {
        assert macs[i..][1..] == macs[i + 1..];
        RemovePeer(infos[i].mac);
      }
      assert macs[|infos|..] == [];
    }

    /** Removes the peers outside `keep` while ranging over the map. */
    method RemoveUnlisted(keep: set<Mac>)
      requires Valid()
      modifies this
      ensures Valid() && peers.Values <= old(peers.Values)
      ensures state == Kept(key, old(state), keep)
    {
      var todo := peers.Keys;
      while todo != {}
        invariant Valid() && peers.Values <= old(peers.Values)
        invariant forall m :: m in peers ==> m in keep || m in todo
        invariant Kept(key, state, keep) == Kept(key, old(state), keep)
      {
        var m :| m in todo;
        todo := todo - {m};
        if m !in keep {
          KeptAfterRemoved(key, state, keep, m);
          RemovePeer(m);
        }
      }
      RemovedAllIsKept(key, state, keep, []);
    }

    /** Empties the registry if asked to, and takes over the edge's own entry if there is one. */
    method Prepare(origin: Option<PeerInfo>, reset: bool)
      requires Valid()
      modifies this
      ensures Valid() && peers.Values <= old(peers.Values)
      ensures state == Registry(
        if reset then map[] else old(state).peers, if reset then map[] else old(state).bySocket,
        if origin.Some? then origin else old(state).me)
    {
      if reset {
        peers, bySocket := map[], map[];
      }
      if origin.Some? {
        me := origin;
      }
      state := Registry(if reset then map[] else state.peers, if reset then map[] else state.bySocket, me);
    }

    method ReplaceList(list: PeerInfoList, reset: bool, overwrite: bool) returns (ok: bool)
      requires Valid() && list.eventType == TypeList
      modifies this, peers.Values
      ensures Valid() && fresh(peers.Values - old(peers.Values))
      ensures (state, ok) == Handled(key, old(state), list, reset, overwrite)
    {
      hide Points, Holds, Sound;
      Prepare(list.origin, reset);
      ok := AddAll(list.infos, overwrite);
      if ok && !reset {
        RemoveUnlisted(Listed(list.infos));
      }
    }

    /** The outcome of a peer event: a list replaces the members, a register event adds or
        overwrites, an unregister event removes; anything else is refused. */
    method HandlePeerInfoList(list: PeerInfoList, reset: bool, overwrite: bool) returns (ok: bool)
      requires Valid()
      modifies this, peers.Values
      ensures Valid() && fresh(peers.Values - old(peers.Values))
      ensures (state, ok) == Handled(key, old(state), list, reset, overwrite)
    {
      match list.eventType
      case TypeList => ok := ReplaceList(list, reset, overwrite);
      case TypeRegister => ok := AddAll(list.infos, overwrite);
      case TypeUnregister =>
        RemoveAll(list.infos);
        ok := true;
      case TypeOther => ok := false;
    }

    // -------------------------------------------------------------------------
    // Ticks and messages
    // -------------------------------------------------------------------------

    method PeersWithStatus(status: Capacity) returns (list: seq<Peer>)
      ensures Distinct(list)
      ensures forall p :: p in list <==> p in peers.Values && p.status == status
    {
      list := [];
      var todo := peers.Values;
      while todo != {}
        invariant todo <= peers.Values && Distinct(list)
        invariant forall p :: p in list <==> p in peers.Values - todo && p.status == status
      {
        var p :| p in todo;
        todo := todo - {p};
        if p.status == status { list := list + [p]; }
      }
    }

    /** Like `PeersWithStatus(Pending)`, except that a peer found without budget is given up. */
    method PendingPeers() returns (list: seq<Peer>)
      modifies peers.Values
      ensures Distinct(list)
      ensures forall p :: p in list <==> p in peers.Values && old(p.status == Pending && p.ttl > 0)
      ensures forall p :: p in peers.Values ==> p.State() == Screened(old(p.State()))
    {
      list := [];
      var todo := peers.Values;
      while todo != {}
        invariant todo <= peers.Values && Distinct(list)
        invariant forall p :: p in list <==> p in peers.Values - todo && old(p.status == Pending && p.ttl > 0)
        invariant forall p :: p in todo ==> p.State() == old(p.State())
        invariant forall p :: p in peers.Values - todo ==> p.State() == Screened(old(p.State()))
      {
        var p :| p in todo;
        assert p.State() == old(p.State());
        todo := todo - {p};
        var pending := p.Screen();
        if pending { list := list + [p]; }
      }
    }

    /** When the peers moved but kept their identity, the value moves along. */
    ghost method Follow(moved: map<Mac, PeerState>)
      requires Sound(key, state) && moved.Keys == peers.Keys && state.peers.Keys == peers.Keys
      requires state.me == me && Points(bySocket, state.bySocket, peers)
      requires forall m :: m in peers ==> moved[m] == peers[m].State() && moved[m].info == state.peers[m].info
      modifies this`state
      ensures Valid() && state == old(state).(peers := moved)
    {
      state := state.(peers := moved);
    }

    method ProbeUnknownPeers(self: Self)
      requires Valid()
      modifies this`state, peers.Values
      ensures Valid()
      ensures state == UnknownPass(self, old(state))
    {
      var list := PeersWithStatus(Unknown);
      PingAll(self, list, Pending);
      Follow(UnknownPass(self, state).peers);
    }

    method ProbePendingPeers(self: Self)
      requires Valid()
      modifies this`state, peers.Values
      ensures Valid()
      ensures state == PendingPass(self, old(state))
    {
      var list := PendingPeers();
      label collected:
      PingAll(self, list, Pending);
      forall p | p in peers.Values ensures p.State() == ProbedPending(self, old(p.State())) {
        assert p !in list ==> p.State() == old@collected(p.State());
        assert p in list ==> old@collected(p.State()) == old(p.State());
      }
      Follow(PendingPass(self, state).peers);
    }

    method ProbeAvailablePeers(self: Self)
      requires Valid()
      modifies this`state, peers.Values
      ensures Valid()
      ensures state == AvailablePass(self, old(state))
    {
      var list := PeersWithStatus(Available);
      PingAll(self, list, Available);
      Follow(AvailablePass(self, state).peers);
    }

    /** One tick: the Unknown peers are probed, then the Pending ones (those just probed
        included), then the Available ones. */
    method UpdatePeersP2PStates(self: Self)
      requires Valid()
      modifies this`state, peers.Values
      ensures Valid()
      ensures state == TickedAll(self, old(state))
    {
      PassesAreTick(self, state);
      ProbeUnknownPeers(self);
      ProbePendingPeers(self);
      ProbeAvailablePeers(self);
    }

    /** A pong for an address that is no longer held is ignored. */
    method HandlePongMessage(mac: Mac, checkId: string, fromSupernode: bool)
      requires Valid()
      modifies this`state, peers.Values
      ensures Valid()
      ensures state == PongedAt(old(state), mac, checkId, fromSupernode)
    {
      if mac in peers {
        OwnObject(mac);
        var p := peers[mac];
        p.HandlePong(checkId, fromSupernode);
        Follow(state.peers[mac := p.State()]);
      }
    }

    method MarkReachable(mac: Mac)
      requires Valid()
      modifies this`state, peers.Values
      ensures Valid()
      ensures state == ReachableAt(old(state), mac)
    {
      if mac in peers {
        OwnObject(mac);
        var p := peers[mac];
        var _ := p.UpdateP2PStatus(Available, "");
        Follow(state.peers[mac := p.State()]);
      }
    }

    method HandleP2PStateInfo(mac: Mac, hasFrom: bool, to: seq<Mac>)
      requires Valid()
      modifies this`state, peers.Values
      ensures Valid()
      ensures state == ReachableAll(old(state), (if hasFrom then [mac] else []) + to)
    {
      ghost var all := (if hasFrom then [mac] else []) + to;
      if hasFrom {
        assert all[0] == mac && all[1..] == to;
        MarkReachable(mac);
      } else {
        assert all == to;
      }
      assert to[0..] == to;
      for i := 0 to |to|
        invariant Valid()
        invariant ReachableAll(state, to[i..]) == ReachableAll(old(state), all)
      {
        assert to[i..][1..] == to[i + 1..];
        MarkReachable(to[i]);
      }
      assert to[|to|..] == [];
    }

    /** One message or tick of an edge; a request to drop the edge itself is ignored. */
    method Process(self: Self, ev: EdgeEvent)
      requires Valid()
      modifies this, peers.Values
      ensures Valid() && fresh(peers.Values - old(peers.Values))
      ensures state == EdgeStep(self, key, old(state), ev)
    {
      match ev
      case Tick => UpdatePeersP2PStates(self);
      case Pong(mac, checkId, fromSupernode) => HandlePongMessage(mac, checkId, fromSupernode);
      case StateInfo(mac, hasFrom, to) => HandleP2PStateInfo(mac, hasFrom, to);
      case PeerEvent(list) => var _ := HandlePeerInfoList(list, false, true);
      case UnregisterRequest(mac) => if mac != self.mac { RemovePeer(mac); }
    }

    /** A whole run of the registry, with what `Probing` and `SocketIndex` promise for it. */
    method ProcessAll(self: Self, evs: seq<EdgeEvent>)
      requires Valid() && RegistryOk(self, state)
      modifies this, peers.Values
      ensures Valid() && state == EdgeRun(self, key, old(state), evs)
      ensures RegistryOk(self, state)
    {
      hide Points, Sound, EdgeStep, EdgeRun, RegistryOk;
      EveryRunKeepsProbing(self, key, state, evs);
      assert evs[0..] == evs;
      for i := 0 to |evs|
        invariant Valid() && fresh(peers.Values - old(peers.Values))
        invariant EdgeRun(self, key, state, evs[i..]) == EdgeRun(self, key, old(state), evs)
      {
        EdgeRunAt(self, key, state, evs, i);
        Process(self, evs[i]);
      }
      EdgeRunAt(self, key, state, evs, |evs|);
    }
  }
}
