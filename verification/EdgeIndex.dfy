/** The edge objects, and the maps that reach them: each edge through its community, through the
    global index by address and through the index by socket. The maps agree when they hold the
    very same objects; the lemmas here say which updates keep the agreement. They are about maps
    alone, with no heap. */
module EdgeIndex {
  import opened Bytes
  import opened Peers
  import opened Membership

  class Edge {
    const mac: Mac
    const community: string
    const desc: string
    const virtualIp: string
    const machineId: seq<byte>
    var publicIp: string
    var publicPort: int
    var lastHeartbeat: int
    var lastSequence: int
    var connId: string

    ghost function State(): EdgeState
      reads this
    {
      EdgeState(desc, mac, community, virtualIp, machineId,
                publicIp, publicPort, lastHeartbeat, lastSequence, connId)
    }

    /** The announcement of this edge to the others. */
    method Announcement(eventType: EventType, env: Env) returns (event: PeerInfoList)
      ensures event == Event(eventType, env, State())
    {
      event := PeerInfoList(eventType, None,
                            [PeerInfo(virtualIp, mac, env.pubSocket(publicIp, publicPort), community, desc)]);
    }

    constructor Register(msg: RegisterMsg, community: string, machineId: seq<byte>, virtualIp: string)
      ensures State() == Connected(NewEdge(community, msg, machineId, virtualIp), msg.from)
    {
      desc, mac, this.community, this.virtualIp, this.machineId := msg.desc, msg.mac, community, virtualIp, machineId;
      publicIp := if msg.from.Ip? then msg.from.ip else "";
      publicPort := if msg.from.Ip? then msg.from.port else 0;
      lastHeartbeat, lastSequence := msg.now, msg.sequence;
      connId := if msg.from.Conn? then msg.from.connId else "";
    }

    method Place(from: Addr)
      modifies this
      ensures State() == Placed(old(State()), from)
    {
      if from.Ip? { publicIp, publicPort := from.ip, from.port; }
    }

    /** The update of a known edge by a registration. */
    method Reregister(msg: RegisterMsg)
      modifies this
      ensures State() == Connected(
        Placed(old(State()), msg.from).(lastHeartbeat := msg.now, lastSequence := msg.sequence), msg.from)
    {
      Place(msg.from);
      lastHeartbeat, lastSequence := msg.now, msg.sequence;
      if msg.from.Conn? { connId := msg.from.connId; }
    }

    /** The update by a heartbeat; tells whether the edge moved. */
    method Refresh(msg: HeartbeatMsg) returns (moved: bool)
      modifies this
      ensures State() == Refreshed(old(State()), msg)
      ensures moved == Moved(old(State()), State())
    {
      var oldIp, oldPort := publicIp, publicPort;
      match msg.from {
        case Ip(ip, port) => publicIp, publicPort := ip, port;
        case Conn(_) => publicIp, publicPort := "", 0;
      }
      lastHeartbeat, lastSequence := msg.now, msg.sequence;
      moved := oldPort != publicPort || oldIp != publicIp;
    }
  }

  /** A community's maps; the edges in them are the shared objects. */
  datatype Community = Community(name: string, edges: map<Mac, Edge>, p2p: map<Mac, P2PInfos>)

  /** The supernode's maps. One edge object is reached through its community, by its address and
      by the sockets it registered from. */
  datatype Directory = Directory(
    communities: map<int, Community>, edgesByMac: map<Mac, Edge>,
    edgesBySocket: map<string, Edge>, cached: map<Mac, CachedInfo>)

  /** What a directory stands for: the membership value, the state of each edge object, and the
      community each address belongs to. */
  datatype View = View(node: Node, states: map<Mac, EdgeState>, home: map<Mac, int>)

  // ---------------------------------------------------------------------------
  // Index agreement, on the maps alone
  // ---------------------------------------------------------------------------

  /** The index by address holds exactly the edges of the communities, the same objects under the
      same addresses. */
  ghost predicate ObjectsAgree(communities: map<int, Community>, edgesByMac: map<Mac, Edge>, home: map<Mac, int>) {
    && home.Keys == edgesByMac.Keys
    && (forall m :: m in home ==>
          && home[m] in communities
          && m in communities[home[m]].edges && communities[home[m]].edges[m] == edgesByMac[m])
    && (forall h, m :: h in communities && m in communities[h].edges ==> m in home && home[m] == h)
  }

  /** The members of the communities, in the recorded states, each at home in one community. */
  ghost predicate MembersAgree(members: map<int, CommunityState>, states: map<Mac, EdgeState>, home: map<Mac, int>) {
    && states.Keys == home.Keys
    && (forall m :: m in home ==>
          home[m] in members && m in members[home[m]].edges && members[home[m]].edges[m] == states[m])
    && (forall h, m :: h in members && m in members[h].edges ==> m in home && home[m] == h)
  }

  /** The communities are the ones the value has, with the same names and reported peers. */
  ghost predicate NamesAgree(communities: map<int, Community>, members: map<int, CommunityState>) {
    && members.Keys == communities.Keys
    && (forall h :: h in communities ==>
          communities[h].name == members[h].name && communities[h].p2p == members[h].p2p)
  }

  ghost predicate SameObjects(d: Directory, home: map<Mac, int>) {
    ObjectsAgree(d.communities, d.edgesByMac, home)
  }

  ghost predicate SameValues(d: Directory, v: View) {
    MembersAgree(v.node.communities, v.states, v.home) && NamesAgree(d.communities, v.node.communities)
  }

  /** Every socket on record leads to an edge of the recorded community. */
  ghost predicate SameSockets(edgesBySocket: map<string, Edge>, sockets: map<string, string>) {
    && sockets.Keys == edgesBySocket.Keys
    && (forall k :: k in edgesBySocket ==> edgesBySocket[k].community == sockets[k])
  }

  ghost predicate Agree(d: Directory, v: View) {
    && SameObjects(d, v.home) && SameValues(d, v)
    && SameSockets(d.edgesBySocket, v.node.sockets) && v.node.cached == d.cached
  }

  // The updates of the directory and of its value, side by side.

  function AddCommunity(d: Directory, hash: int, name: string): Directory {
    d.(communities := d.communities[hash := Community(name, map[], map[])])
  }

  ghost function AddCommunityView(v: View, hash: int, name: string): View {
    v.(node := v.node.(communities := v.node.communities[hash := CommunityState(name, map[], map[])]))
  }

  lemma AddCommunityObjects(d: Directory, home: map<Mac, int>, hash: int, name: string)
    requires SameObjects(d, home) && hash !in d.communities
    ensures SameObjects(AddCommunity(d, hash, name), home)
  {}

  lemma AddCommunityValues(d: Directory, v: View, hash: int, name: string)
    requires SameValues(d, v) && hash !in d.communities
    ensures SameValues(AddCommunity(d, hash, name), AddCommunityView(v, hash, name))
  {}

  lemma AddCommunityAgrees(d: Directory, v: View, hash: int, name: string)
    requires Agree(d, v) && hash !in d.communities
    ensures Agree(AddCommunity(d, hash, name), AddCommunityView(v, hash, name))
  {
    hide ObjectsAgree, MembersAgree, NamesAgree, SameSockets;
    AddCommunityObjects(d, v.home, hash, name);
    AddCommunityValues(d, v, hash, name);
  }

  ghost function PutView(v: View, hash: int, e: EdgeState): View
    requires hash in v.node.communities
  {
    View(WithEdge(v.node, hash, e), v.states[e.mac := e], v.home[e.mac := hash])
  }

  lemma PutKnownValues(d: Directory, v: View, e: EdgeState)
    requires SameValues(d, v) && e.mac in v.home
    ensures v.home[e.mac] in v.node.communities && SameValues(d, PutView(v, v.home[e.mac], e))
  {}

  lemma PutKnownAgrees(d: Directory, v: View, e: EdgeState)
    requires Agree(d, v) && e.mac in v.home
    ensures v.home[e.mac] in v.node.communities && Agree(d, PutView(v, v.home[e.mac], e))
  {
    hide ObjectsAgree, MembersAgree, NamesAgree, SameSockets;
    PutKnownValues(d, v, e);
    assert v.home[e.mac := v.home[e.mac]] == v.home;
  }

  /** Files a new edge in its community, in the index by address and in the record of members. */
  function AddEdge(d: Directory, hash: int, edge: Edge, record: CachedInfo): Directory
    requires hash in d.communities
  {
    var c := d.communities[hash];
    d.(communities := d.communities[hash := c.(edges := c.edges[edge.mac := edge])],
       edgesByMac := d.edgesByMac[edge.mac := edge],
       cached := d.cached[edge.mac := record])
  }

  /** The value after a registration that left the edge in state `e`, before its sockets are
      indexed. */
  ghost function EnrollView(v: View, hash: int, e: EdgeState, now: int): View
    requires hash in v.node.communities
  {
    var c := v.node.communities[hash];
    var cached := if e.mac in c.edges then v.node.cached
                  else v.node.cached[e.mac := CachedInfo(e.mac, e.desc, c.name, true, now, e.virtualIp)];
    View(WithEdge(v.node, hash, e).(cached := cached), v.states[e.mac := e], v.home[e.mac := hash])
  }

  lemma AddEdgeObjects(d: Directory, home: map<Mac, int>, hash: int, edge: Edge, record: CachedInfo)
    requires SameObjects(d, home) && hash in d.communities && edge.mac !in home
    ensures SameObjects(AddEdge(d, hash, edge, record), home[edge.mac := hash])
  {}

  lemma AddEdgeValues(d: Directory, v: View, hash: int, edge: Edge, e: EdgeState, record: CachedInfo)
    requires SameValues(d, v) && hash in d.communities && hash in v.node.communities
    requires edge.mac !in v.home && e.mac == edge.mac
    ensures SameValues(AddEdge(d, hash, edge, record), PutView(v, hash, e))
  {
    hide MembersAgree, NamesAgree;
    AddMembers(v.node.communities, v.states, v.home, hash, e);
    AddNames(d.communities, v.node.communities, hash, edge, e);
  }

  lemma AddMembers(members: map<int, CommunityState>, states: map<Mac, EdgeState>, home: map<Mac, int>, hash: int, e: EdgeState)
    requires MembersAgree(members, states, home) && hash in members && e.mac !in home
    ensures MembersAgree(
      members[hash := members[hash].(edges := members[hash].edges[e.mac := e])], states[e.mac := e], home[e.mac := hash])
  {}

  lemma AddNames(communities: map<int, Community>, members: map<int, CommunityState>, hash: int, edge: Edge, e: EdgeState)
    requires NamesAgree(communities, members) && hash in communities
    ensures NamesAgree(
      communities[hash := communities[hash].(edges := communities[hash].edges[edge.mac := edge])],
      members[hash := members[hash].(edges := members[hash].edges[e.mac := e])])
  {}

  lemma AddEdgeAgrees(d: Directory, v: View, hash: int, edge: Edge, e: EdgeState, now: int, record: CachedInfo)
    requires Agree(d, v) && hash in d.communities && edge.mac !in v.home && e.mac == edge.mac
    requires record == CachedInfo(e.mac, e.desc, d.communities[hash].name, true, now, e.virtualIp)
    ensures hash in v.node.communities && Agree(AddEdge(d, hash, edge, record), EnrollView(v, hash, e, now))
  {
    AgreeFacts(d, v, hash, e.mac);
    hide ObjectsAgree, MembersAgree, NamesAgree, SameSockets;
    AddEdgeObjects(d, v.home, hash, edge, record);
    AddEdgeValues(d, v, hash, edge, e, record);
    var v1, v2 := PutView(v, hash, e), EnrollView(v, hash, e, now);
    assert v1.node.communities == v2.node.communities && v1.states == v2.states && v1.home == v2.home;
  }

  /** A member leaves its community and the reported peers, and its record says so. */
  function LeaveCommunity(d: Directory, hash: int, mac: Mac, record: CachedInfo): Directory
    requires hash in d.communities
  {
    var c := d.communities[hash];
    d.(communities := d.communities[hash := c.(edges := c.edges - {mac}, p2p := c.p2p - {mac})],
       cached := d.cached[mac := record])
  }

  /** An edge leaves the index by address, and the socket it is at now leads nowhere. */
  function LeaveIndex(d: Directory, mac: Mac, key: string): Directory {
    d.(edgesByMac := d.edgesByMac - {mac}, edgesBySocket := d.edgesBySocket - {key})
  }

  function DropEdge(d: Directory, hash: int, mac: Mac, key: string, record: CachedInfo): Directory
    requires hash in d.communities
  {
    LeaveIndex(LeaveCommunity(d, hash, mac, record), mac, key)
  }

  ghost function DropView(env: Env, v: View, hash: int, mac: Mac, now: int): View
    requires Member(v.node, hash, mac)
  {
    View(Without(env, v.node, hash, mac, now), v.states - {mac}, v.home - {mac})
  }

  lemma DropEdgeObjects(d: Directory, home: map<Mac, int>, hash: int, mac: Mac, key: string, record: CachedInfo)
    requires SameObjects(d, home) && mac in home && home[mac] == hash
    ensures hash in d.communities && SameObjects(DropEdge(d, hash, mac, key, record), home - {mac})
  {}

  lemma DropEdgeValues(env: Env, d: Directory, v: View, hash: int, mac: Mac, now: int, key: string, record: CachedInfo)
    requires SameValues(d, v) && mac in v.home && v.home[mac] == hash && hash in d.communities
    ensures Member(v.node, hash, mac)
    ensures SameValues(DropEdge(d, hash, mac, key, record), DropView(env, v, hash, mac, now))
  {
    hide MembersAgree, NamesAgree;
    var members := v.node.communities;
    DropMembers(members, v.states, v.home, hash, mac);
    DropNames(d.communities, members, hash, mac);
  }

  lemma DropMembers(members: map<int, CommunityState>, states: map<Mac, EdgeState>, home: map<Mac, int>, hash: int, mac: Mac)
    requires MembersAgree(members, states, home) && mac in home && home[mac] == hash
    ensures hash in members && mac in members[hash].edges
    ensures MembersAgree(
      members[hash := members[hash].(edges := members[hash].edges - {mac}, p2p := members[hash].p2p - {mac})],
      states - {mac}, home - {mac})
  {}

  lemma DropNames(communities: map<int, Community>, members: map<int, CommunityState>, hash: int, mac: Mac)
    requires NamesAgree(communities, members) && hash in communities
    ensures NamesAgree(
      communities[hash := communities[hash].(edges := communities[hash].edges - {mac}, p2p := communities[hash].p2p - {mac})],
      members[hash := members[hash].(edges := members[hash].edges - {mac}, p2p := members[hash].p2p - {mac})])
  {}

  lemma DropSocket(edgesBySocket: map<string, Edge>, sockets: map<string, string>, key: string)
    requires SameSockets(edgesBySocket, sockets)
    ensures SameSockets(edgesBySocket - {key}, sockets - {key})
  {}

  lemma DropEdgeAgrees(env: Env, d: Directory, v: View, hash: int, mac: Mac, now: int, key: string, record: CachedInfo)
    requires Agree(d, v) && Member(v.node, hash, mac)
    requires key == SocketOf(env, EdgeAt(v.node, hash, mac))
    requires record == Without(env, v.node, hash, mac, now).cached[mac]
    ensures hash in d.communities && Agree(DropEdge(d, hash, mac, key, record), DropView(env, v, hash, mac, now))
  {
    AgreeFacts(d, v, hash, mac);
    DropHomeAgrees(env, d, v, hash, mac, now, key, record);
  }

  lemma DropHomeAgrees(env: Env, d: Directory, v: View, hash: int, mac: Mac, now: int, key: string, record: CachedInfo)
    requires Agree(d, v) && Member(v.node, hash, mac) && mac in v.home && v.home[mac] == hash
    requires key == SocketOf(env, EdgeAt(v.node, hash, mac))
    requires record == Without(env, v.node, hash, mac, now).cached[mac]
    ensures hash in d.communities && Agree(DropEdge(d, hash, mac, key, record), DropView(env, v, hash, mac, now))
  {
    hide ObjectsAgree, MembersAgree, NamesAgree, SameSockets;
    DropEdgeObjects(d, v.home, hash, mac, key, record);
    DropEdgeValues(env, d, v, hash, mac, now, key, record);
    DropSocket(d.edgesBySocket, v.node.sockets, key);
  }

  function SetP2P(d: Directory, hash: int, p2p: map<Mac, P2PInfos>): Directory
    requires hash in d.communities
  {
    d.(communities := d.communities[hash := d.communities[hash].(p2p := p2p)])
  }

  ghost function SetP2PView(v: View, hash: int, p2p: map<Mac, P2PInfos>): View
    requires hash in v.node.communities
  {
    v.(node := v.node.(communities := v.node.communities[hash := v.node.communities[hash].(p2p := p2p)]))
  }

  lemma SetP2PObjects(d: Directory, home: map<Mac, int>, hash: int, p2p: map<Mac, P2PInfos>)
    requires SameObjects(d, home) && hash in d.communities
    ensures SameObjects(SetP2P(d, hash, p2p), home)
  {}

  lemma SetP2PValues(d: Directory, v: View, hash: int, p2p: map<Mac, P2PInfos>)
    requires SameValues(d, v) && hash in d.communities
    ensures SameValues(SetP2P(d, hash, p2p), SetP2PView(v, hash, p2p))
  {}

  lemma SetP2PAgrees(d: Directory, v: View, hash: int, p2p: map<Mac, P2PInfos>)
    requires Agree(d, v) && hash in d.communities
    ensures hash in v.node.communities && Agree(SetP2P(d, hash, p2p), SetP2PView(v, hash, p2p))
  {
    AgreeFacts(d, v, hash, Mac([]));
    hide ObjectsAgree, MembersAgree, NamesAgree, SameSockets;
    SetP2PObjects(d, v.home, hash, p2p);
    SetP2PValues(d, v, hash, p2p);
  }

  /** The socket an edge registered from, and its connection id if it has one, lead to it. */
  function AddSockets(d: Directory, key: string, edge: Edge, connId: string): Directory {
    var t := d.edgesBySocket[key := edge];
    d.(edgesBySocket := if connId != "" then t[connId := edge] else t)
  }

  ghost function AddSocketsView(env: Env, v: View, e: EdgeState): View {
    v.(node := v.node.(sockets := Indexed(env, v.node.sockets, e)))
  }

  lemma AddSocketsAgrees(env: Env, d: Directory, v: View, edge: Edge, e: EdgeState)
    requires Agree(d, v) && edge.community == e.community
    ensures Agree(AddSockets(d, SocketOf(env, e), edge, e.connId), AddSocketsView(env, v, e))
  {
    hide ObjectsAgree, MembersAgree, NamesAgree;
  }

  /** What the agreement says about one community and one address. */
  lemma AgreeFacts(d: Directory, v: View, hash: int, mac: Mac)
    requires Agree(d, v)
    ensures v.home.Keys == d.edgesByMac.Keys == v.states.Keys
    ensures v.node.communities.Keys == d.communities.Keys
    ensures hash in d.communities ==>
      && d.communities[hash].name == v.node.communities[hash].name
      && d.communities[hash].p2p == v.node.communities[hash].p2p
      && d.communities[hash].edges.Keys == v.node.communities[hash].edges.Keys
    ensures Member(v.node, hash, mac) <==> mac in v.home && v.home[mac] == hash
    ensures Member(v.node, hash, mac) ==>
      && hash in d.communities && mac in d.communities[hash].edges
      && d.communities[hash].edges[mac] == d.edgesByMac[mac] && EdgeAt(v.node, hash, mac) == v.states[mac]
  {
    if hash in d.communities {
      var c, n := d.communities[hash], v.node.communities[hash];
      forall m | m in c.edges ensures m in n.edges { assert v.home[m] == hash; }
      forall m | m in n.edges ensures m in c.edges { assert v.home[m] == hash; }
    }
  }

  // ---------------------------------------------------------------------------
  // When the index by address is the union of the communities
  // ---------------------------------------------------------------------------

  /** The index by address holds exactly the edges of all communities, as the same objects. */
  ghost predicate IsUnion(d: Directory) {
    && (forall h, m :: h in d.communities && m in d.communities[h].edges ==>
          m in d.edgesByMac && d.edgesByMac[m] == d.communities[h].edges[m])
    && (forall m :: m in d.edgesByMac ==> exists h :: h in d.communities && m in d.communities[h].edges)
  }

  /** Filing an edge, new or known here, leaves the index the union of the communities if and only
      if its address is not live in another community. */
  lemma RegistrationKeepsUnion(d: Directory, hash: int, edge: Edge, record: CachedInfo)
    requires IsUnion(d) && hash in d.communities
    requires forall h :: h in d.communities && h != hash && edge.mac in d.communities[h].edges ==>
      d.communities[h].edges[edge.mac] != edge
    ensures IsUnion(AddEdge(d, hash, edge, record))
       <==> forall h :: h in d.communities && h != hash ==> edge.mac !in d.communities[h].edges
  {
    if forall h :: h in d.communities && h != hash ==> edge.mac !in d.communities[h].edges {
      UnionKept(d, hash, edge, record);
    } else {
      var d' := AddEdge(d, hash, edge, record);
      var h :| h in d.communities && h != hash && edge.mac in d.communities[h].edges;
      hide IsUnion;
      CollisionBreaksUnion(d, hash, h, edge, record);
    }
  }

  lemma CollisionBreaksUnion(d: Directory, hash: int, other: int, edge: Edge, record: CachedInfo)
    requires hash in d.communities && other in d.communities && other != hash
    requires edge.mac in d.communities[other].edges && d.communities[other].edges[edge.mac] != edge
    ensures !IsUnion(AddEdge(d, hash, edge, record))
  {
    var d' := AddEdge(d, hash, edge, record);
    assert d'.communities[other] == d.communities[other] && d'.edgesByMac[edge.mac] == edge;
  }

  lemma UnionKept(d: Directory, hash: int, edge: Edge, record: CachedInfo)
    requires IsUnion(d) && hash in d.communities
    requires forall h :: h in d.communities && h != hash ==> edge.mac !in d.communities[h].edges
    ensures IsUnion(AddEdge(d, hash, edge, record))
  {
    var d' := AddEdge(d, hash, edge, record);
    forall m | m in d'.edgesByMac ensures exists h :: h in d'.communities && m in d'.communities[h].edges {
      if m == edge.mac {
        assert m in d'.communities[hash].edges;
      } else {
        var h :| h in d.communities && m in d.communities[h].edges;
        assert m in d'.communities[h].edges;
      }
    }
  }

  /** After such a collision the first of the two to leave takes the index entry with it, so that
      the lookup for the other one, when it leaves, finds nothing. */
  lemma CollisionLosesEntry(d: Directory, hash: int, other: int, edge: Edge, record: CachedInfo, gone: CachedInfo, key: string)
    requires hash in d.communities && other in d.communities && other != hash
    requires edge.mac in d.communities[other].edges
    ensures var d' := DropEdge(AddEdge(d, hash, edge, record), hash, edge.mac, key, gone);
      edge.mac in d'.communities[other].edges && edge.mac !in d'.edgesByMac
  {}
}
