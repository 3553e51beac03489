/** The supernode's membership state as a value, and the effect of each message on it. The
    mutable objects of `Supernode.dfy` are proved against these functions.

    Each handler is one atomic step. Hashing, address derivation, decryption and the rendering of
    sockets are parameters (`Env`); whether a network and a virtual address could be allocated,
    and what the clock says, come with the message. */
module Membership {
  import opened Bytes
  import opened Peers

  datatype Env = Env(
    hash: string -> int,                          // 32-bit hash of a community name
    derive: (string, seq<byte>) -> Mac,           // address derived from community and machine id
    decrypt: seq<byte> -> Option<seq<byte>>,      // machine id from the registration secret
    pubSocket: (string, int) -> string,           // socket text sent to peers
    socketKey: (string, int) -> string)           // socket text used by the supernode's index

  datatype Addr = Ip(ip: string, port: int) | Conn(connId: string)

  datatype EdgeState = EdgeState(
    desc: string, mac: Mac, community: string, virtualIp: string, machineId: seq<byte>,
    publicIp: string, publicPort: int, lastHeartbeat: int, lastSequence: int, connId: string)

  datatype P2PInfos = P2PInfos(from: Option<PeerInfo>, to: seq<PeerInfo>)

  datatype CommunityState = CommunityState(
    name: string, edges: map<Mac, EdgeState>, p2p: map<Mac, P2PInfos>)

  datatype CachedInfo = CachedInfo(
    mac: Mac, desc: string, community: string, isRegistered: bool, updatedAt: int, virtualIp: string)

  /** `sockets` records, for each socket an edge registered from, the community of that edge. */
  datatype Node = Node(
    communities: map<int, CommunityState>, cached: map<Mac, CachedInfo>, sockets: map<string, string>)

  const EMPTY_NODE: Node := Node(map[], map[], map[])

  function Info(env: Env, e: EdgeState): PeerInfo {
    PeerInfo(e.virtualIp, e.mac, env.pubSocket(e.publicIp, e.publicPort), e.community, e.desc)
  }

  function SocketOf(env: Env, e: EdgeState): string {
    env.socketKey(e.publicIp, e.publicPort)
  }

  // ---------------------------------------------------------------------------
  // Registration
  // ---------------------------------------------------------------------------

  datatype RegisterMsg = RegisterMsg(
    mac: Mac, hash: int, sequence: int, community: string, desc: string, secret: seq<byte>,
    from: Addr, now: int, network: bool, vip: Option<string>)

  /** The machine id behind a secret, if the claimed address is the one derived from it. */
  function Validated(env: Env, mac: Mac, secret: seq<byte>, community: string): Option<seq<byte>> {
    var id := env.decrypt(secret);
    if id.Some? && env.derive(community, id.value) == mac then id else None
  }

  /** Finds or creates the community; refused when the hash is wrong, when another name already
      has it, or when no network could be allocated. */
  function WithCommunity(env: Env, s: Node, name: string, hash: int, network: bool): Option<Node> {
    if env.hash(name) != hash then None
    else if hash in s.communities then (if s.communities[hash].name == name then Some(s) else None)
    else if !network then None
    else Some(s.(communities := s.communities[hash := CommunityState(name, map[], map[])]))
  }

  function Placed(e: EdgeState, from: Addr): EdgeState {
    match from
    case Ip(ip, port) => e.(publicIp := ip, publicPort := port)
    case Conn(_) => e
  }

  function NewEdge(name: string, msg: RegisterMsg, machineId: seq<byte>, vip: string): EdgeState {
    Placed(EdgeState(msg.desc, msg.mac, name, vip, machineId, "", 0, msg.now, msg.sequence, ""), msg.from)
  }

  /** The edge a registration creates or updates; none when no virtual address is left, or when
      the known edge belongs to another community. */
  function UpdatedEdge(c: CommunityState, msg: RegisterMsg, machineId: seq<byte>): Option<EdgeState> {
    if msg.mac !in c.edges then
      (if msg.vip.Some? then Some(NewEdge(c.name, msg, machineId, msg.vip.value)) else None)
    else if c.name != c.edges[msg.mac].community then None
    else Some(Placed(c.edges[msg.mac], msg.from).(lastHeartbeat := msg.now, lastSequence := msg.sequence))
  }

  function Connected(e: EdgeState, from: Addr): EdgeState {
    if from.Conn? then e.(connId := from.connId) else e
  }

  function WithEdge(s: Node, hash: int, e: EdgeState): Node
    requires hash in s.communities
  {
    var c := s.communities[hash];
    s.(communities := s.communities[hash := c.(edges := c.edges[e.mac := e])])
  }

  function Indexed(env: Env, sockets: map<string, string>, e: EdgeState): map<string, string> {
    var t := sockets[SocketOf(env, e) := e.community];
    if e.connId != "" then t[e.connId := e.community] else t
  }

  /** Files an edge in its community and under its sockets; a newcomer goes on record as online. */
  function Enrolled(env: Env, s: Node, hash: int, e: EdgeState, now: int): Node
    requires hash in s.communities
  {
    var c := s.communities[hash];
    Node(s.communities[hash := c.(edges := c.edges[e.mac := e])],
         if e.mac in c.edges then s.cached
         else s.cached[e.mac := CachedInfo(e.mac, e.desc, c.name, true, now, e.virtualIp)],
         Indexed(env, s.sockets, e))
  }

  /** The state after a registration, and the registered edge when it succeeded. A community
      created on the way stays even when the edge is then refused. */
  function Register(env: Env, s: Node, msg: RegisterMsg): (Node, Option<EdgeState>) {
    var id := Validated(env, msg.mac, msg.secret, msg.community);
    if id.None? then (s, None) else
    var s1 := WithCommunity(env, s, msg.community, msg.hash, msg.network);
    if s1.None? then (s, None) else
    var e := UpdatedEdge(s1.value.communities[msg.hash], msg, id.value);
    if e.None? then (s1.value, None) else
    var e1 := Connected(e.value, msg.from);
    (Enrolled(env, s1.value, msg.hash, e1, msg.now), Some(e1))
  }

  // ---------------------------------------------------------------------------
  // Heartbeats, removals, reported peers
  // ---------------------------------------------------------------------------

  /** A member of a community, named by the community's hash and the member's address. */
  datatype EdgeId = EdgeId(hash: int, mac: Mac)

  predicate Member(s: Node, hash: int, mac: Mac) {
    hash in s.communities && mac in s.communities[hash].edges
  }

  function EdgeAt(s: Node, hash: int, mac: Mac): EdgeState
    requires Member(s, hash, mac)
  {
    s.communities[hash].edges[mac]
  }

  datatype HeartbeatMsg = HeartbeatMsg(
    mac: Mac, hash: int, sequence: int, secret: seq<byte>, from: Addr, now: int)

  function Refreshed(e: EdgeState, msg: HeartbeatMsg): EdgeState {
    var ip := if msg.from.Ip? then msg.from.ip else "";
    var port := if msg.from.Ip? then msg.from.port else 0;
    e.(publicIp := ip, publicPort := port, lastHeartbeat := msg.now, lastSequence := msg.sequence)
  }

  /** A heartbeat counts when it comes from a member and proves that member's machine id. */
  predicate HeartbeatOk(env: Env, s: Node, msg: HeartbeatMsg) {
    && Member(s, msg.hash, msg.mac)
    && env.decrypt(msg.secret) == Some(EdgeAt(s, msg.hash, msg.mac).machineId)
  }

  function Heartbeat(env: Env, s: Node, msg: HeartbeatMsg): Node {
    if HeartbeatOk(env, s, msg) then WithEdge(s, msg.hash, Refreshed(EdgeAt(s, msg.hash, msg.mac), msg)) else s
  }

  /** Whether the heartbeat moved the edge; only then is it announced again. */
  predicate Moved(e: EdgeState, f: EdgeState) {
    e.publicPort != f.publicPort || e.publicIp != f.publicIp
  }

  /** Removal of one member: out of the community, out of the reported peers, remembered as
      offline, and its present socket forgotten. */
  function Without(env: Env, s: Node, hash: int, mac: Mac, now: int): Node
    requires Member(s, hash, mac)
  {
    var c := s.communities[hash];
    var e := c.edges[mac];
    Node(s.communities[hash := c.(edges := c.edges - {mac}, p2p := c.p2p - {mac})],
         s.cached[mac := CachedInfo(mac, e.desc, c.name, false, now, e.virtualIp)],
         s.sockets - {SocketOf(env, e)})
  }

  datatype UnregisterMsg = UnregisterMsg(mac: Mac, hash: int, community: string, secret: seq<byte>, now: int)

  predicate UnregisterOk(env: Env, s: Node, msg: UnregisterMsg) {
    Validated(env, msg.mac, msg.secret, msg.community).Some? && Member(s, msg.hash, msg.mac)
  }

  function Unregister(env: Env, s: Node, msg: UnregisterMsg): Node {
    if UnregisterOk(env, s, msg) then Without(env, s, msg.hash, msg.mac, msg.now) else s
  }

  predicate Stale(e: EdgeState, now: int, expiry: int) {
    now - e.lastHeartbeat > expiry
  }

  /** One removal of the periodic cleanup. */
  function Expire(env: Env, s: Node, hash: int, mac: Mac, now: int, expiry: int): Node {
    if Member(s, hash, mac) && Stale(EdgeAt(s, hash, mac), now, expiry) then Without(env, s, hash, mac, now) else s
  }

  function Report(s: Node, hash: int, mac: Mac, infos: P2PInfos): Node {
    if Member(s, hash, mac) then
      var c := s.communities[hash];
      s.(communities := s.communities[hash := c.(p2p := c.p2p[mac := infos])])
    else s
  }

  // ---------------------------------------------------------------------------
  // Runs
  // ---------------------------------------------------------------------------

  datatype Step =
    | RegisterStep(reg: RegisterMsg)
    | HeartbeatStep(hb: HeartbeatMsg)
    | UnregisterStep(unreg: UnregisterMsg)
    | ExpireStep(hash: int, mac: Mac, now: int, expiry: int)
    | ReportStep(hash: int, mac: Mac, infos: P2PInfos)

  function Next(env: Env, s: Node, step: Step): Node {
    match step
    case RegisterStep(msg) => Register(env, s, msg).0
    case HeartbeatStep(msg) => Heartbeat(env, s, msg)
    case UnregisterStep(msg) => Unregister(env, s, msg)
    case ExpireStep(hash, mac, now, expiry) => Expire(env, s, hash, mac, now, expiry)
    case ReportStep(hash, mac, infos) => Report(s, hash, mac, infos)
  }

  function Run(env: Env, s: Node, steps: seq<Step>): Node
    decreases |steps|
  {
    if steps == [] then s else Next(env, Run(env, s, steps[..|steps| - 1]), steps[|steps| - 1])
  }

  /** What a step makes the supernode tell the other members of a community. */
  datatype Announcement = Announcement(hash: int, about: Mac, event: PeerInfoList)

  function Event(eventType: EventType, env: Env, e: EdgeState): PeerInfoList {
    PeerInfoList(eventType, None, [Info(env, e)])
  }

  function Announced(env: Env, s: Node, step: Step): Option<Announcement> {
    match step
    case RegisterStep(msg) =>
      var e := Register(env, s, msg).1;
      if e.Some? then Some(Announcement(msg.hash, msg.mac, Event(TypeRegister, env, e.value))) else None
    case HeartbeatStep(msg) =>
      if HeartbeatOk(env, s, msg) then
        var e := EdgeAt(s, msg.hash, msg.mac);
        var f := Refreshed(e, msg);
        if Moved(e, f) then Some(Announcement(msg.hash, msg.mac, Event(TypeRegister, env, f))) else None
      else None
    case UnregisterStep(msg) =>
      if UnregisterOk(env, s, msg) then
        Some(Announcement(msg.hash, msg.mac, Event(TypeUnregister, env, EdgeAt(s, msg.hash, msg.mac))))
      else None
    case ExpireStep(hash, mac, now, expiry) =>
      if Member(s, hash, mac) && Stale(EdgeAt(s, hash, mac), now, expiry) then
        Some(Announcement(hash, mac, Event(TypeUnregister, env, EdgeAt(s, hash, mac))))
      else None
    case ReportStep(_, _, _) => None
  }
}
