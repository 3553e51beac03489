/** What one edge knows about the other members of its community, on values:
    the hole-punching state of a peer and the registry that holds the peers.
    The mutable objects of `PeerRegistry.dfy` are proved against these functions. */
module Peers {
  import opened Bytes

  datatype Capacity = Unknown | Pending | Available | FullDuplex | Unavailable

  datatype PeerInfo = PeerInfo(
    virtualIp: string, mac: Mac, pubSocket: string, community: string, desc: string)

  datatype PeerState = PeerState(
    info: PeerInfo, status: Capacity, isFullDuplex: bool, checkId: string, ttl: int)

  const PENDING_TTL: int := 30

  // ---------------------------------------------------------------------------
  // One peer
  // ---------------------------------------------------------------------------

  function NewPeer(info: PeerInfo): PeerState {
    PeerState(info, Unknown, false, "", 0)
  }

  function Updated(p: PeerState, status: Capacity, checkId: string): (q: PeerState)
    ensures q.info == p.info
  {
    var ttl :=
      if p.status == status then (if status == Pending then p.ttl - 1 else p.ttl)
      else if p.status == Unknown && status == Pending then PENDING_TTL
      else p.ttl;
    if ttl < 1 then p.(ttl := ttl, checkId := "", status := Unavailable)
    else p.(ttl := ttl, checkId := checkId, status := status)
  }

  /** The edge itself: its configured name and its address. */
  datatype Self = Self(id: string, mac: Mac)

  function CheckIdFor(self: Self, mac: Mac, socket: string): string {
    self.id + "." + MacText(self.mac) + "." + MacText(mac) + "." + socket + ".0"
  }

  function CheckId(self: Self, info: PeerInfo): string {
    CheckIdFor(self, info.mac, info.pubSocket)
  }

  // The three passes of one tick, as one peer sees them.

  function ProbedUnknown(self: Self, p: PeerState): (q: PeerState)
    ensures q.info == p.info
  {
    if p.status == Unknown then Updated(p, Pending, CheckId(self, p.info)) else p
  }

  /** Collecting the Pending peers gives up those found without budget. */
  function Screened(p: PeerState): PeerState {
    if p.status == Pending && p.ttl <= 0 then Updated(p, Unavailable, "") else p
  }

  function ProbedPending(self: Self, p: PeerState): (q: PeerState)
    ensures q.info == p.info
  {
    if p.status == Pending && p.ttl > 0 then Updated(p, Pending, CheckId(self, p.info)) else Screened(p)
  }

  function ProbedAvailable(self: Self, p: PeerState): (q: PeerState)
    ensures q.info == p.info
  {
    if p.status == Available then Updated(p, Available, CheckId(self, p.info)) else p
  }

  function Ticked(self: Self, p: PeerState): (q: PeerState)
    ensures q.info == p.info
  {
    ProbedAvailable(self, ProbedPending(self, ProbedUnknown(self, p)))
  }

  function Ponged(p: PeerState, checkId: string, fromSupernode: bool): (q: PeerState)
    ensures q.info == p.info
  {
    var q := if p.checkId == checkId then Updated(p, Available, checkId) else Updated(p, Unknown, "");
    if q.status == Available then q.(isFullDuplex := !fromSupernode) else q
  }

  predicate SameNetwork(a: PeerInfo, b: PeerInfo) {
    a.virtualIp == b.virtualIp && a.pubSocket == b.pubSocket
  }

  function Overwritten(p: PeerState, info: PeerInfo): PeerState {
    if SameNetwork(p.info, info) then p.(info := info)
    else p.(info := info, status := Unknown, checkId := "")
  }

  // ---------------------------------------------------------------------------
  // The registry
  // ---------------------------------------------------------------------------

  datatype Registry = Registry(
    peers: map<Mac, PeerState>, bySocket: map<string, Mac>, me: Option<PeerInfo>)

  const EMPTY: Registry := Registry(map[], map[], None)

  /** Renders a public socket the way the socket index does. Distinct texts may share a key:
      everything that does not parse is filed under the same one. */
  type SocketKey = string -> string

  function KeyOf(key: SocketKey, p: PeerState): string { key(p.info.pubSocket) }

  /** Without `overwrite` a known address is refused and nothing changes. */
  function Added(key: SocketKey, r: Registry, info: PeerInfo): Registry {
    if info.mac in r.peers then
      var p := r.peers[info.mac];
      var q := Overwritten(p, info);
      r.(peers := r.peers[info.mac := q],
         bySocket := (r.bySocket - {KeyOf(key, p)})[KeyOf(key, q) := info.mac])
    else
      r.(peers := r.peers[info.mac := NewPeer(info)],
         bySocket := r.bySocket[key(info.pubSocket) := info.mac])
  }

  function Removed(key: SocketKey, r: Registry, mac: Mac): Registry {
    if mac in r.peers then
      r.(peers := r.peers - {mac}, bySocket := r.bySocket - {KeyOf(key, r.peers[mac])})
    else r
  }

  datatype EventType = TypeList | TypeRegister | TypeUnregister | TypeOther

  datatype PeerInfoList = PeerInfoList(
    eventType: EventType, origin: Option<PeerInfo>, infos: seq<PeerInfo>)

  /** Adds the peers in turn; `false` when an address was refused, with the earlier ones added. */
  function AddedAll(key: SocketKey, r: Registry, infos: seq<PeerInfo>, overwrite: bool): (Registry, bool)
    decreases |infos|
  {
    if infos == [] then (r, true)
    else if infos[0].mac in r.peers && !overwrite then (r, false)
    else AddedAll(key, Added(key, r, infos[0]), infos[1..], overwrite)
  }

  function RemovedAll(key: SocketKey, r: Registry, macs: seq<Mac>): Registry
    decreases |macs|
  {
    if macs == [] then r else RemovedAll(key, Removed(key, r, macs[0]), macs[1..])
  }

  function Macs(infos: seq<PeerInfo>): seq<Mac> {
    seq(|infos|, i requires 0 <= i < |infos| => infos[i].mac)
  }

  function Listed(infos: seq<PeerInfo>): set<Mac> {
    set i | 0 <= i < |infos| :: infos[i].mac
  }

  /** Drops every peer outside `keep`, and with it whatever its socket key pointed to. */
  function Kept(key: SocketKey, r: Registry, keep: set<Mac>): Registry {
    r.(peers := map m | m in r.peers && m in keep :: r.peers[m],
       bySocket := r.bySocket - (set m | m in r.peers && m !in keep :: KeyOf(key, r.peers[m])))
  }

  /** The effect of one peer event, and whether it was accepted. */
  function Handled(key: SocketKey, r: Registry, list: PeerInfoList, reset: bool, overwrite: bool): (Registry, bool) {
    match list.eventType
    case TypeList =>
      var r0 := if reset then r.(peers := map[], bySocket := map[]) else r;
      var r1 := if list.origin.Some? then r0.(me := list.origin) else r0;
      var (r2, ok) := AddedAll(key, r1, list.infos, overwrite);
      if !ok then (r2, false)
      else if reset then (r2, true)
      else (Kept(key, r2, Listed(list.infos)), true)
    case TypeRegister => AddedAll(key, r, list.infos, overwrite)
    case TypeUnregister => (RemovedAll(key, r, Macs(list.infos)), true)
    case TypeOther => (r, false)
  }

  // ---------------------------------------------------------------------------
  // The messages and ticks an edge processes
  // ---------------------------------------------------------------------------

  datatype EdgeEvent =
    | Tick
    | Pong(mac: Mac, checkId: string, fromSupernode: bool)
    | StateInfo(mac: Mac, hasFrom: bool, to: seq<Mac>)
    | PeerEvent(list: PeerInfoList)
    | UnregisterRequest(mac: Mac)

  function PongedAt(r: Registry, mac: Mac, checkId: string, fromSupernode: bool): Registry {
    if mac in r.peers then r.(peers := r.peers[mac := Ponged(r.peers[mac], checkId, fromSupernode)]) else r
  }

  function ReachableAt(r: Registry, mac: Mac): Registry {
    if mac in r.peers then r.(peers := r.peers[mac := Updated(r.peers[mac], Available, "")]) else r
  }

  function UnknownPass(self: Self, r: Registry): Registry {
    r.(peers := map m | m in r.peers :: ProbedUnknown(self, r.peers[m]))
  }

  function PendingPass(self: Self, r: Registry): Registry {
    r.(peers := map m | m in r.peers :: ProbedPending(self, r.peers[m]))
  }

  function AvailablePass(self: Self, r: Registry): Registry {
    r.(peers := map m | m in r.peers :: ProbedAvailable(self, r.peers[m]))
  }

  /** One tick, peer by peer. */
  function TickedAll(self: Self, r: Registry): Registry {
    r.(peers := map m | m in r.peers :: Ticked(self, r.peers[m]))
  }

  /** Passing over the whole registry three times is ticking each peer on its own. */
  lemma PassesAreTick(self: Self, r: Registry)
    ensures AvailablePass(self, PendingPass(self, UnknownPass(self, r))) == TickedAll(self, r)
  {
    var r1 := UnknownPass(self, r);
    var r2 := PendingPass(self, r1);
    var r3 := AvailablePass(self, r2);
    assert r3.peers.Keys == r.peers.Keys;
    forall m | m in r.peers ensures r3.peers[m] == TickedAll(self, r).peers[m] {
      assert r2.peers[m] == ProbedPending(self, ProbedUnknown(self, r.peers[m]));
    }
  }

  function ReachableAll(r: Registry, macs: seq<Mac>): Registry
    decreases |macs|
  {
    if macs == [] then r else ReachableAll(ReachableAt(r, macs[0]), macs[1..])
  }

  /** Peer events reach the registry with `reset` off and `overwrite` on. */
  function EdgeStep(self: Self, key: SocketKey, r: Registry, ev: EdgeEvent): Registry {
    match ev
    case Tick => TickedAll(self, r)
    case Pong(mac, checkId, fromSupernode) => PongedAt(r, mac, checkId, fromSupernode)
    case StateInfo(mac, hasFrom, to) => ReachableAll(r, (if hasFrom then [mac] else []) + to)
    case PeerEvent(list) => Handled(key, r, list, false, true).0
    case UnregisterRequest(mac) => if mac == self.mac then r else Removed(key, r, mac)
  }

  function EdgeRun(self: Self, key: SocketKey, r: Registry, evs: seq<EdgeEvent>): Registry
    decreases |evs|
  {
    if evs == [] then r else EdgeRun(self, key, EdgeStep(self, key, r, evs[0]), evs[1..])
  }
}
