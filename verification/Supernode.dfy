/** The supernode as an object: its directory of edges, the packets it sends and its handlers.
    Each handler is proved to have the effect `Membership` gives it, to keep every index in
    agreement, and to announce exactly what `Announced` says to exactly the right edges. */
module Supernode {
  import opened Bytes
  import opened Peers
  import opened Membership
  import opened Partition
  import opened EdgeIndex
  import opened Cleanup
  import opened Collisions
  import opened Messages
  import opened Replica

  // ---------------------------------------------------------------------------
  // Packets
  // ---------------------------------------------------------------------------

  /** A packet the supernode tried to send to a member of a community. */
  datatype Sent<T> = Sent(hash: int, to: Mac, packet: T)

  /** Exactly one packet with this content to each of these members, and nothing else. */
  ghost predicate IsFanOut<T>(out: seq<Sent<T>>, hash: int, targets: set<Mac>, packet: T) {
    && (forall i :: 0 <= i < |out| ==> out[i] == Sent(hash, out[i].to, packet) && out[i].to in targets)
    && (forall i, j :: 0 <= i < j < |out| ==> out[i].to != out[j].to)
    && (forall m :: m in targets ==> exists i :: 0 <= i < |out| && out[i].to == m)
  }

  /** The loop over a community's edges that skips the sender. */
  method FanOut<T>(edges: map<Mac, Edge>, hash: int, sender: Mac, packet: T) returns (out: seq<Sent<T>>)
    requires forall m :: m in edges ==> edges[m].mac == m
    ensures IsFanOut(out, hash, edges.Keys - {sender}, packet)
  {
    hide IsFanOut;
    out := [];
    var todo := edges.Keys;
    NothingSent(hash, edges.Keys - todo - {sender}, packet);
    while todo != {}
      invariant todo <= edges.Keys
      invariant IsFanOut(out, hash, edges.Keys - todo - {sender}, packet)
      decreases |todo|
    {
      var m :| m in todo;
      ghost var done := edges.Keys - todo - {sender};
      todo := todo - {m};
      ghost var more := edges.Keys - todo - {sender};
      if edges[m].mac != sender {
        assert more == done + {m} && m !in done;
        FanOutSnoc(out, hash, done, packet, m);
        out := out + [Sent(hash, edges[m].mac, packet)];
      } else {
        assert more == done;
      }
    }
    assert edges.Keys - {} - {sender} == edges.Keys - {sender};
  }

  lemma NothingSent<T>(hash: int, targets: set<Mac>, packet: T)
    requires targets == {}
    ensures IsFanOut([], hash, targets, packet)
  {}

  lemma FanOutSnoc<T>(out: seq<Sent<T>>, hash: int, targets: set<Mac>, packet: T, m: Mac)
    requires IsFanOut(out, hash, targets, packet) && m !in targets
    ensures IsFanOut(out + [Sent(hash, m, packet)], hash, targets + {m}, packet)
  {
    var out' := out + [Sent(hash, m, packet)];
    forall x | x in targets + {m} ensures exists i :: 0 <= i < |out'| && out'[i].to == x {
      if x == m {
        assert out'[|out|].to == x;
      } else {
        var i :| 0 <= i < |out| && out[i].to == x;
        assert out'[i].to == x;
      }
    }
  }

  /** What one step sends, given the state it leaves behind. */
  ghost predicate Announces(out: seq<Sent<PeerInfoList>>, s: Node, ann: Option<Announcement>) {
    if ann.Some? then IsFanOut(out, ann.value.hash, Live(s, ann.value.hash) - {ann.value.about}, ann.value.event)
    else out == []
  }

  /** Everything announced during a run: step by step, one fan-out for each announcement. */
  ghost predicate IsTrace(env: Env, steps: seq<Step>, out: seq<Sent<PeerInfoList>>)
    decreases |steps|
  {
    if steps == [] then out == []
    else
      var front := steps[..|steps| - 1];
      var s := Run(env, EMPTY_NODE, front);
      var last := steps[|steps| - 1];
      exists k :: 0 <= k <= |out| && IsTrace(env, front, out[..k])
                  && Announces(out[k..], Next(env, s, last), Announced(env, s, last))
  }

  lemma TraceSnoc(env: Env, steps: seq<Step>, out: seq<Sent<PeerInfoList>>, step: Step, more: seq<Sent<PeerInfoList>>)
    requires IsTrace(env, steps, out)
    requires var s := Run(env, EMPTY_NODE, steps); Announces(more, Next(env, s, step), Announced(env, s, step))
    ensures IsTrace(env, steps + [step], out + more)
    ensures Run(env, EMPTY_NODE, steps + [step]) == Next(env, Run(env, EMPTY_NODE, steps), step)
  {
    var steps' := steps + [step];
    assert steps'[..|steps'| - 1] == steps && steps'[|steps'| - 1] == step;
    assert (out + more)[..|out|] == out && (out + more)[|out|..] == more;
  }

  /** Agreement leaves no address live in two communities. */
  lemma AgreeApart(d: Directory, v: View)
    requires Agree(d, v)
    ensures Apart(v.node)
  {
    hide Agree;
    forall h, k, m | Member(v.node, h, m) && Member(v.node, k, m) ensures h == k {
      AgreeFacts(d, v, h, m);
      AgreeFacts(d, v, k, m);
    }
  }

  /** A registration that is accepted without a collision is for an address at home here or
      nowhere. */
  lemma HomeIsHere(env: Env, s: Node, msg: RegisterMsg, d: Directory, v: View, id: seq<byte>)
    requires NodeOk(env, s) && Agree(d, v) && Validated(env, msg.mac, msg.secret, msg.community) == Some(id)
    requires WithCommunity(env, s, msg.community, msg.hash, msg.network) == Some(v.node)
    requires !Collides(env, s, RegisterStep(msg))
    ensures msg.hash in v.node.communities
    ensures UpdatedEdge(v.node.communities[msg.hash], msg, id).Some? ==>
      (msg.mac in v.home ==> v.home[msg.mac] == msg.hash)
  {
    hide Agree;
    CommunityFound(env, s, msg.community, msg.hash, msg.network);
    if UpdatedEdge(v.node.communities[msg.hash], msg, id).Some? && msg.mac in v.home {
      AgreeFacts(d, v, v.home[msg.mac], msg.mac);
      assert Member(s, v.home[msg.mac], msg.mac);
    }
  }

  /** A member that leaves: what is left agrees, and both indexes lose that address alone. */
  lemma Dropped(env: Env, d: Directory, v: View, hash: int, mac: Mac, now: int, key: string, record: CachedInfo)
    requires Agree(d, v) && Member(v.node, hash, mac) && hash in d.communities
    requires var e := EdgeAt(v.node, hash, mac);
      && key == SocketOf(env, e)
      && record == CachedInfo(mac, e.desc, d.communities[hash].name, false, now, e.virtualIp)
    ensures var left := LeaveCommunity(d, hash, mac, record);
      && left.edgesByMac == d.edgesByMac
      && Agree(LeaveIndex(left, mac, key), DropView(env, v, hash, mac, now))
      && LeaveIndex(left, mac, key).edgesByMac == d.edgesByMac - {mac}
      && DropView(env, v, hash, mac, now).states == v.states - {mac}
  {
    hide Agree;
    AgreeFacts(d, v, hash, mac);
    DropEdgeAgrees(env, d, v, hash, mac, now, key, record);
  }

  lemma Enlisted(d: Directory, v: View, hash: int, edge: Edge, e: EdgeState, now: int, record: CachedInfo)
    requires Agree(d, v) && hash in d.communities && edge.mac !in v.home && e.mac == edge.mac
    requires record == CachedInfo(e.mac, e.desc, d.communities[hash].name, true, now, e.virtualIp)
    ensures hash in v.node.communities && Agree(AddEdge(d, hash, edge, record), EnrollView(v, hash, e, now))
    ensures AddEdge(d, hash, edge, record).edgesByMac == d.edgesByMac[edge.mac := edge]
    ensures EnrollView(v, hash, e, now).states == v.states[e.mac := e]
  {
    hide Agree;
    AddEdgeAgrees(d, v, hash, edge, e, now, record);
  }

  lemma Put(d: Directory, v: View, e: EdgeState)
    requires Agree(d, v) && e.mac in v.home
    ensures v.home[e.mac] in v.node.communities && Agree(d, PutView(v, v.home[e.mac], e))
    ensures PutView(v, v.home[e.mac], e).states == v.states[e.mac := e]
  {
    hide Agree;
    PutKnownAgrees(d, v, e);
  }

  /** Updating the edge and then indexing its sockets is the whole effect of a registration. */
  lemma RegisterInParts(env: Env, s: Node, msg: RegisterMsg, v: View, id: seq<byte>)
    requires NodeOk(env, s) && Validated(env, msg.mac, msg.secret, msg.community) == Some(id)
    requires WithCommunity(env, s, msg.community, msg.hash, msg.network) == Some(v.node)
    requires UpdatedEdge(v.node.communities[msg.hash], msg, id).Some?
    ensures var e := Connected(UpdatedEdge(v.node.communities[msg.hash], msg, id).value, msg.from);
      && e.mac == msg.mac
      && Register(env, s, msg) == (AddSocketsView(env, EnrollView(v, msg.hash, e, msg.now), e).node, Some(e))
  {
    assert msg.hash in s.communities ==> CommunityOk(env, msg.hash, s.communities[msg.hash]);
  }

  /** A registration refused before its community was touched changes and announces nothing. */
  lemma RefusedEarly(env: Env, s: Node, msg: RegisterMsg)
    requires Validated(env, msg.mac, msg.secret, msg.community).None?
          || WithCommunity(env, s, msg.community, msg.hash, msg.network).None?
    ensures Next(env, s, RegisterStep(msg)) == s && Announced(env, s, RegisterStep(msg)).None?
    ensures Register(env, s, msg).1.None?
  {}

  /** One refused after that leaves the community behind. */
  lemma RefusedLate(env: Env, s: Node, msg: RegisterMsg, t: Node, id: seq<byte>)
    requires Validated(env, msg.mac, msg.secret, msg.community) == Some(id)
    requires WithCommunity(env, s, msg.community, msg.hash, msg.network) == Some(t) && msg.hash in t.communities
    requires UpdatedEdge(t.communities[msg.hash], msg, id).None?
    ensures Next(env, s, RegisterStep(msg)) == t && Announced(env, s, RegisterStep(msg)).None?
    ensures Register(env, s, msg).1.None?
  {}

  /** The edge objects are in the recorded states, each under its own address. */
  ghost predicate Match(edges: map<Mac, Edge>, states: map<Mac, EdgeState>)
    reads edges.Values
  {
    && states.Keys == edges.Keys
    && (forall m :: m in edges ==> edges[m].State() == states[m] && states[m].mac == m)
  }

  lemma MatchPut(edges: map<Mac, Edge>, states: map<Mac, EdgeState>, mac: Mac)
    requires states.Keys == edges.Keys && mac in edges && edges[mac].mac == mac
    requires forall m :: m in edges && m != mac ==> edges[m].State() == states[m] && states[m].mac == m
    ensures Match(edges, states[mac := edges[mac].State()])
  {}

  lemma MatchAdd(edges: map<Mac, Edge>, states: map<Mac, EdgeState>, edge: Edge)
    requires Match(edges, states)
    ensures Match(edges[edge.mac := edge], states[edge.mac := edge.State()])
  {}

  lemma MatchDrop(edges: map<Mac, Edge>, states: map<Mac, EdgeState>, mac: Mac)
    requires Match(edges, states)
    ensures Match(edges - {mac}, states - {mac})
  {}

  // ---------------------------------------------------------------------------
  // The supernode
  // ---------------------------------------------------------------------------

  class Supernode {
    const env: Env
    var dir: Directory
    var sent: seq<Sent<PeerInfoList>>

    /** The value the object stands for and the steps that led to it; every method keeps them up
        to date. */
    ghost var view: View
    ghost var history: seq<Step>

    /** The edge objects are in the recorded states, each under its own address. */
    ghost predicate EdgesAgree()
      reads this, dir.edgesByMac.Values
    {
      Match(dir.edgesByMac, view.states)
    }

    ghost predicate Linked()
      reads this, dir.edgesByMac.Values
    {
      Agree(dir, view) && EdgesAgree()
    }

    /** The state is the one the history leads to, everything sent was announced on the way, and
        the maps and objects represent that state. */
    ghost predicate Valid()
      reads this, dir.edgesByMac.Values
    {
      && view.node == Run(env, EMPTY_NODE, history) && IsTrace(env, history, sent)
      && Linked()
    }

    constructor (env: Env)
      ensures Valid() && view.node == EMPTY_NODE && sent == [] && history == [] && this.env == env
      ensures dir.edgesByMac == map[]
    {
      this.env := env;
      dir, sent := Directory(map[], map[], map[], map[]), [];
      view, history := View(EMPTY_NODE, map[], map[]), [];
    }

    lemma OwnEdge(mac: Mac)
      requires EdgesAgree() && mac in dir.edgesByMac
      ensures dir.edgesByMac[mac].mac == mac && dir.edgesByMac[mac].State() == view.states[mac]
      ensures forall m :: m in dir.edgesByMac && m != mac ==> dir.edgesByMac[m] != dir.edgesByMac[mac]
    {
      forall m | m in dir.edgesByMac && m != mac ensures dir.edgesByMac[m] != dir.edgesByMac[mac] {
        assert dir.edgesByMac[m].State().mac == m && dir.edgesByMac[mac].State().mac == mac;
      }
    }

    /** The index by address is exactly the union of the communities: the same objects, each under
        its own address, each in one community. */
    lemma IndexIsUnion(mac: Mac)
      requires Valid()
      ensures mac in dir.edgesByMac <==> exists h :: h in dir.communities && mac in dir.communities[h].edges
      ensures forall h :: h in dir.communities && mac in dir.communities[h].edges ==>
        mac in dir.edgesByMac && dir.communities[h].edges[mac] == dir.edgesByMac[mac]
      ensures mac in dir.edgesByMac ==> dir.edgesByMac[mac].mac == mac
      ensures forall h, k ::
        (h in dir.communities && k in dir.communities
         && mac in dir.communities[h].edges && mac in dir.communities[k].edges) ==> h == k
    {
      hide IsTrace, MembersAgree, NamesAgree, SameSockets;
      assert ObjectsAgree(dir.communities, dir.edgesByMac, view.home);
      if mac in dir.edgesByMac {
        OwnEdge(mac);
        var h := view.home[mac];
        assert h in dir.communities && mac in dir.communities[h].edges;
      }
    }

    /** The index of the object is the index along its history: under each address the very edge
        that the community named there holds. */
    lemma IndexIsIndexAfter()
      requires Valid() && forall i :: 0 <= i < |history| ==> !CollidesAt(env, history, i)
      ensures dir.edgesByMac.Keys == IndexAfter(env, history).Keys
      ensures forall m :: m in dir.edgesByMac ==>
        var h := IndexAfter(env, history)[m];
        h in dir.communities && m in dir.communities[h].edges && dir.communities[h].edges[m] == dir.edgesByMac[m]
    {
      hide Agree, IsTrace, IndexAfter, Run, CollidesAt;
      var index := IndexAfter(env, history);
      UnionExactly(env, history);
      assert UnionAt(env, history, |history|) && history[..|history|] == history;
      forall m ensures m in dir.edgesByMac <==> m in index
               ensures m in dir.edgesByMac ==> Member(view.node, index[m], m)
      {
        AgreeFacts(dir, view, 0, m);
        if m in view.home { AgreeFacts(dir, view, view.home[m], m); }
        if m in index { AgreeFacts(dir, view, index[m], m); }
      }
      forall m | m in dir.edgesByMac
        ensures index[m] in dir.communities && m in dir.communities[index[m]].edges
        ensures dir.communities[index[m]].edges[m] == dir.edgesByMac[m]
      {
        AgreeFacts(dir, view, index[m], m);
      }
    }

    // The updates of one member.

    /** A community is created at most once; another name with the same hash is refused. */
    method RegisterCommunity(name: string, hash: int, network: bool) returns (ok: bool)
      requires Linked()
      modifies `dir, `view
      ensures Linked()
      ensures ok <==> WithCommunity(env, old(view).node, name, hash, network).Some?
      ensures view == if ok then old(view).(node := WithCommunity(env, old(view).node, name, hash, network).value) else old(view)
      ensures dir.edgesByMac == old(dir).edgesByMac
      ensures ok ==> hash in dir.communities && dir.communities[hash].name == name
    {
      hide Agree;
      AgreeFacts(dir, view, hash, Mac([]));
      if env.hash(name) != hash { return false; }
      if hash in dir.communities { return dir.communities[hash].name == name; }
      if !network { return false; }
      AddCommunityAgrees(dir, view, hash, name);
      dir := AddCommunity(dir, hash, name);
      view := AddCommunityView(view, hash, name);
      return true;
    }

    /** After the edge under `mac` changed its own fields, the value changes with it. */
    ghost method Follow(mac: Mac)
      requires Agree(dir, view) && mac in view.home && mac in dir.edgesByMac && dir.edgesByMac[mac].mac == mac
      requires view.states.Keys == dir.edgesByMac.Keys
      requires forall m :: m in dir.edgesByMac && m != mac ==>
        dir.edgesByMac[m].State() == view.states[m] && view.states[m].mac == m
      modifies `view
      ensures Linked() && mac in old(view).home && old(view).home[mac] in old(view).node.communities
      ensures view == PutView(old(view), old(view).home[mac], dir.edgesByMac[mac].State())
    {
      hide Agree, PutView;
      var e := dir.edgesByMac[mac].State();
      Put(dir, view, e);
      MatchPut(dir.edgesByMac, view.states, mac);
      view := PutView(view, view.home[mac], e);
    }

    /** Files a new edge in its community, in the index by address and in the record of members. */
    method AddMember(hash: int, edge: Edge, now: int)
      requires Linked() && hash in dir.communities && edge.mac !in view.home
      modifies `dir, `view
      ensures Linked() && hash in old(view).node.communities
      ensures view == EnrollView(old(view), hash, edge.State(), now)
      ensures dir.edgesByMac == old(dir).edgesByMac[edge.mac := edge]
    {
      hide Agree, AddEdge, EnrollView;
      ghost var e := edge.State();
      AgreeFacts(dir, view, hash, edge.mac);
      var record := CachedInfo(edge.mac, edge.desc, dir.communities[hash].name, true, now, edge.virtualIp);
      Enlisted(dir, view, hash, edge, e, now, record);
      MatchAdd(dir.edgesByMac, view.states, edge);
      dir, view := AddEdge(dir, hash, edge, record), EnrollView(view, hash, e, now);
    }

    /** Takes an edge out of its community and of the reported peers and puts it on record as
        offline; then finds it by its address once more, to describe it to the others, and takes it
        out of both indexes. */
    method DropMember(hash: int, mac: Mac, now: int) returns (event: PeerInfoList)
      requires Linked() && Member(view.node, hash, mac)
      modifies `dir, `view
      ensures Linked() && view == DropView(env, old(view), hash, mac, now)
      ensures dir.edgesByMac == old(dir).edgesByMac - {mac}
      ensures event == Event(TypeUnregister, env, EdgeAt(old(view).node, hash, mac))
    {
      hide Agree, LeaveCommunity, LeaveIndex, DropView;
      AgreeFacts(dir, view, hash, mac);
      OwnEdge(mac);
      var member := dir.communities[hash].edges[mac];
      var record := CachedInfo(mac, member.desc, dir.communities[hash].name, false, now, member.virtualIp);
      Dropped(env, dir, view, hash, mac, now, env.socketKey(member.publicIp, member.publicPort), record);
      MatchDrop(dir.edgesByMac, view.states, mac);
      var left := LeaveCommunity(dir, hash, mac, record);
      var edge := left.edgesByMac[mac];
      event := edge.Announcement(TypeUnregister, env);
      var key := env.socketKey(edge.publicIp, edge.publicPort);
      dir, view := LeaveIndex(left, mac, key), DropView(env, view, hash, mac, now);
    }

    method IndexSockets(mac: Mac)
      requires Linked() && mac in dir.edgesByMac
      modifies `dir, `view
      ensures Linked() && mac in old(view).states && view == AddSocketsView(env, old(view), old(view).states[mac])
      ensures dir.edgesByMac == old(dir).edgesByMac
    {
      hide Agree;
      var edge := dir.edgesByMac[mac];
      OwnEdge(mac);
      ghost var e := edge.State();
      AddSocketsAgrees(env, dir, view, edge, e);
      dir := AddSockets(dir, env.socketKey(edge.publicIp, edge.publicPort), edge, edge.connId);
      view := AddSocketsView(env, view, e);
    }

    // Announcements.

    method Broadcast(hash: int, sender: Mac, event: PeerInfoList)
      requires Linked() && hash in view.node.communities
      modifies `sent
      ensures old(sent) <= sent
      ensures IsFanOut(sent[|old(sent)|..], hash, Live(view.node, hash) - {sender}, event)
    {
      hide Agree;
      AgreeFacts(dir, view, hash, sender);
      var edges := dir.communities[hash].edges;
      forall m | m in edges ensures edges[m].mac == m {
        AgreeFacts(dir, view, hash, m);
        OwnEdge(m);
      }
      var out := FanOut(edges, hash, sender, event);
      assert (sent + out)[|sent|..] == out;
      sent := sent + out;
    }

    /** A step that announces nothing is done as soon as the state is right. */
    ghost method Conclude(step: Step, before: Node)
      requires Linked()
      requires before == Run(env, EMPTY_NODE, history) && IsTrace(env, history, sent)
      requires view.node == Next(env, before, step) && Announced(env, before, step) == None
      modifies `history
      ensures Valid() && history == old(history) + [step]
    {
      hide Agree, IsTrace, Next, Announced;
      TraceSnoc(env, history, sent, step, []);
      assert sent + [] == sent;
      history := history + [step];
    }

    /** The last part of a step that has something to announce. */
    method Announce(ghost step: Step, ghost before: Node, hash: int, mac: Mac, event: PeerInfoList)
      requires Linked() && hash in view.node.communities
      requires before == Run(env, EMPTY_NODE, history) && IsTrace(env, history, sent)
      requires view.node == Next(env, before, step)
      requires Announced(env, before, step) == Some(Announcement(hash, mac, event))
      modifies `sent, `history
      ensures Valid() && history == old(history) + [step] && old(sent) <= sent
    {
      hide Agree, IsTrace, IsFanOut, Next, Announced;
      ghost var was := sent;
      Broadcast(hash, mac, event);
      TraceSnoc(env, history, was, step, sent[|was|..]);
      assert was + sent[|was|..] == sent;
      history := history + [step];
    }

    // Registration.

    /** A newcomer needs a virtual address. */
    method AddNewcomer(hash: int, msg: RegisterMsg, machineId: seq<byte>) returns (ok: bool)
      requires Linked() && hash in dir.communities && msg.mac !in dir.communities[hash].edges
      requires hash in view.node.communities && UpdatedEdge(view.node.communities[hash], msg, machineId).Some? ==>
        (msg.mac in view.home ==> view.home[msg.mac] == hash)
      modifies `dir, `view
      ensures Linked() && hash in old(view).node.communities
      ensures var e := UpdatedEdge(old(view).node.communities[hash], msg, machineId);
        && (ok <==> e.Some?)
        && view == (if ok then EnrollView(old(view), hash, Connected(e.value, msg.from), msg.now) else old(view))
      ensures ok ==> msg.mac in dir.edgesByMac
      ensures dir.edgesByMac.Keys >= old(dir).edgesByMac.Keys
      ensures fresh(dir.edgesByMac.Values - old(dir.edgesByMac.Values))
    {
      hide Agree, EnrollView;
      AgreeFacts(dir, view, hash, msg.mac);
      if msg.vip.None? { return false; }
      var edge := new Edge.Register(msg, dir.communities[hash].name, machineId, msg.vip.value);
      AddMember(hash, edge, msg.now);
      return true;
    }

    /** A known edge is updated in place. */
    method UpdateKnown(hash: int, msg: RegisterMsg, machineId: seq<byte>) returns (ok: bool)
      requires Linked() && hash in dir.communities && msg.mac in dir.communities[hash].edges
      modifies `view, dir.edgesByMac.Values
      ensures Linked() && hash in old(view).node.communities && msg.mac in dir.edgesByMac
      ensures var e := UpdatedEdge(old(view).node.communities[hash], msg, machineId);
        && (ok <==> e.Some?)
        && view == (if ok then EnrollView(old(view), hash, Connected(e.value, msg.from), msg.now) else old(view))
    {
      hide Agree;
      AgreeFacts(dir, view, hash, msg.mac);
      var edge := dir.communities[hash].edges[msg.mac];
      OwnEdge(msg.mac);
      if dir.communities[hash].name != edge.community { return false; }
      edge.Reregister(msg);
      Follow(msg.mac);
      return true;
    }

    /** Creates the edge, or updates the known one in place. */
    method EdgeUpdate(hash: int, msg: RegisterMsg, machineId: seq<byte>) returns (ok: bool)
      requires Linked() && hash in dir.communities
      requires hash in view.node.communities && UpdatedEdge(view.node.communities[hash], msg, machineId).Some? ==>
        (msg.mac in view.home ==> view.home[msg.mac] == hash)
      modifies `dir, `view, dir.edgesByMac.Values
      ensures Linked() && hash in old(view).node.communities
      ensures var e := UpdatedEdge(old(view).node.communities[hash], msg, machineId);
        && (ok <==> e.Some?)
        && view == (if ok then EnrollView(old(view), hash, Connected(e.value, msg.from), msg.now) else old(view))
      ensures ok ==> msg.mac in dir.edgesByMac
      ensures dir.edgesByMac.Keys >= old(dir).edgesByMac.Keys
      ensures fresh(dir.edgesByMac.Values - old(dir.edgesByMac.Values))
    {
      hide Agree, UpdatedEdge, EnrollView;
      AgreeFacts(dir, view, hash, msg.mac);
      if msg.mac !in dir.communities[hash].edges {
        ok := AddNewcomer(hash, msg, machineId);
      } else {
        ok := UpdateKnown(hash, msg, machineId);
      }
    }

    /** The last part of an accepted registration: index the sockets, then announce the edge. */
    method Enlist(msg: RegisterMsg, ghost before: Node)
      requires Linked() && msg.mac in dir.edgesByMac && msg.hash in view.node.communities
      requires before == Run(env, EMPTY_NODE, history) && IsTrace(env, history, sent)
      requires msg.mac in view.states
      requires Register(env, before, msg) == (AddSocketsView(env, view, view.states[msg.mac]).node, Some(view.states[msg.mac]))
      modifies `dir, `view, `sent, `history
      ensures Valid() && history == old(history) + [RegisterStep(msg)] && old(sent) <= sent
      ensures view.node == Next(env, before, RegisterStep(msg)) && dir.edgesByMac == old(dir).edgesByMac
    {
      hide Agree, IsTrace, IsFanOut, Register;
      IndexSockets(msg.mac);
      var edge := dir.edgesByMac[msg.mac];
      OwnEdge(msg.mac);
      var event := edge.Announcement(TypeRegister, env);
      Announce(RegisterStep(msg), before, msg.hash, msg.mac, event);
    }

    /** The part of a registration after its community was found or created. */
    method RegisterMember(msg: RegisterMsg, id: seq<byte>, ghost before: Node) returns (ok: bool)
      requires Linked() && NodeOk(env, before)
      requires before == Run(env, EMPTY_NODE, history) && IsTrace(env, history, sent)
      requires Validated(env, msg.mac, msg.secret, msg.community) == Some(id)
      requires WithCommunity(env, before, msg.community, msg.hash, msg.network) == Some(view.node)
      requires msg.hash in view.node.communities && (UpdatedEdge(view.node.communities[msg.hash], msg, id).Some? ==>
        (msg.mac in view.home ==> view.home[msg.mac] == msg.hash))
      modifies `dir, `view, `history, `sent, dir.edgesByMac.Values
      ensures Valid() && history == old(history) + [RegisterStep(msg)] && old(sent) <= sent
      ensures view.node == Next(env, before, RegisterStep(msg))
      ensures ok <==> Register(env, before, msg).1.Some?
      ensures fresh(dir.edgesByMac.Values - old(dir.edgesByMac.Values))
    {
      hide Agree, IsTrace, IsFanOut, Run, Next, Announced, Register, WithCommunity, UpdatedEdge;
      AgreeFacts(dir, view, msg.hash, msg.mac);
      ghost var v := view;
      ok := EdgeUpdate(msg.hash, msg, id);
      if !ok {
        RefusedLate(env, before, msg, view.node, id);
        Conclude(RegisterStep(msg), before);
        return;
      }
      RegisterInParts(env, before, msg, v, id);
      Enlist(msg, before);
    }

    method HandleRegister(msg: RegisterMsg) returns (ok: bool)
      requires Valid() && !Collides(env, view.node, RegisterStep(msg))
      modifies `dir, `view, `history, `sent, dir.edgesByMac.Values
      ensures Valid() && history == old(history) + [RegisterStep(msg)] && old(sent) <= sent
      ensures view.node == Next(env, old(view).node, RegisterStep(msg))
      ensures ok <==> Register(env, old(view).node, msg).1.Some?
      ensures fresh(dir.edgesByMac.Values - old(dir.edgesByMac.Values))
    {
      hide Agree, IsTrace, IsFanOut, Run, Next, Announced, Register, WithCommunity, UpdatedEdge, Collides;
      ghost var s := view.node;
      EveryRunKeepsOk(env, EMPTY_NODE, history);
      var id := env.decrypt(msg.secret);
      if id.None? || env.derive(msg.community, id.value) != msg.mac {
        RefusedEarly(env, s, msg);
        Conclude(RegisterStep(msg), s);
        return false;
      }
      ok := RegisterCommunity(msg.community, msg.hash, msg.network);
      if !ok {
        RefusedEarly(env, s, msg);
        Conclude(RegisterStep(msg), s);
        return;
      }
      HomeIsHere(env, s, msg, dir, view, id.value);
      ok := RegisterMember(msg, id.value, s);
    }

    // Heartbeats, removals, reported peers.

    /** Whether the heartbeat comes from a member and proves that member's machine id. */
    method Recognises(msg: HeartbeatMsg) returns (ok: bool)
      requires Linked()
      ensures ok <==> HeartbeatOk(env, view.node, msg)
    {
      hide Agree;
      AgreeFacts(dir, view, msg.hash, msg.mac);
      if msg.hash !in dir.communities || msg.mac !in dir.communities[msg.hash].edges { return false; }
      OwnEdge(msg.mac);
      return env.decrypt(msg.secret) == Some(dir.communities[msg.hash].edges[msg.mac].machineId);
    }

    /** Refreshes a member in place. */
    method RefreshMember(msg: HeartbeatMsg) returns (moved: bool, event: PeerInfoList)
      requires Linked() && Member(view.node, msg.hash, msg.mac)
      modifies `view, dir.edgesByMac.Values
      ensures Linked() && view.node == WithEdge(old(view).node, msg.hash, Refreshed(EdgeAt(old(view).node, msg.hash, msg.mac), msg))
      ensures var e := EdgeAt(old(view).node, msg.hash, msg.mac);
        moved == Moved(e, Refreshed(e, msg)) && event == Event(TypeRegister, env, Refreshed(e, msg))
    {
      hide Agree, Refreshed, Moved;
      AgreeFacts(dir, view, msg.hash, msg.mac);
      OwnEdge(msg.mac);
      var edge := dir.communities[msg.hash].edges[msg.mac];
      moved := edge.Refresh(msg);
      Follow(msg.mac);
      event := edge.Announcement(TypeRegister, env);
    }

    method HandleHeartbeat(msg: HeartbeatMsg)
      requires Valid()
      modifies `view, `history, `sent, dir.edgesByMac.Values
      ensures Valid() && history == old(history) + [HeartbeatStep(msg)] && old(sent) <= sent
      ensures view.node == Next(env, old(view).node, HeartbeatStep(msg))
    {
      hide Agree, IsTrace, IsFanOut, Run;
      ghost var s := view.node;
      var ok := Recognises(msg);
      if !ok {
        Conclude(HeartbeatStep(msg), s);
        return;
      }
      var moved, event := RefreshMember(msg);
      if moved {
        Announce(HeartbeatStep(msg), s, msg.hash, msg.mac, event);
      } else {
        Conclude(HeartbeatStep(msg), s);
      }
    }

    /** Removes a member and announces it as it was. */
    method Remove(ghost step: Step, hash: int, mac: Mac, now: int)
      requires Valid() && Member(view.node, hash, mac)
      requires Next(env, view.node, step) == Without(env, view.node, hash, mac, now)
      requires Announced(env, view.node, step)
            == Some(Announcement(hash, mac, Event(TypeUnregister, env, EdgeAt(view.node, hash, mac))))
      modifies `dir, `view, `history, `sent
      ensures Valid() && history == old(history) + [step] && old(sent) <= sent
      ensures view.node == Next(env, old(view).node, step)
      ensures dir.edgesByMac == old(dir).edgesByMac - {mac} && dir.edgesByMac.Values <= old(dir.edgesByMac.Values)
    {
      hide Agree, IsTrace, IsFanOut, Run, Next, Announced;
      ghost var s := view.node;
      var event := DropMember(hash, mac, now);
      Announce(step, s, hash, mac, event);
    }

    method HandleUnregister(msg: UnregisterMsg)
      requires Valid()
      modifies `dir, `view, `history, `sent
      ensures Valid() && history == old(history) + [UnregisterStep(msg)] && old(sent) <= sent
      ensures view.node == Next(env, old(view).node, UnregisterStep(msg))
      ensures dir.edgesByMac.Values <= old(dir.edgesByMac.Values)
    {
      hide Agree, IsTrace, IsFanOut, Run;
      ghost var s := view.node;
      var id := env.decrypt(msg.secret);
      AgreeFacts(dir, view, msg.hash, msg.mac);
      if id.Some? && env.derive(msg.community, id.value) == msg.mac
         && msg.hash in dir.communities && msg.mac in dir.communities[msg.hash].edges {
        Remove(UnregisterStep(msg), msg.hash, msg.mac, msg.now);
      } else {
        Conclude(UnregisterStep(msg), s);
      }
    }

    method HandleReport(hash: int, mac: Mac, infos: P2PInfos)
      requires Valid()
      modifies `dir, `view, `history
      ensures Valid() && history == old(history) + [ReportStep(hash, mac, infos)]
      ensures view.node == Next(env, old(view).node, ReportStep(hash, mac, infos))
      ensures dir.edgesByMac == old(dir.edgesByMac)
    {
      hide Agree, IsTrace, IsFanOut, Run;
      ghost var s := view.node;
      AgreeFacts(dir, view, hash, mac);
      if hash in dir.communities && mac in dir.communities[hash].edges {
        var p2p := dir.communities[hash].p2p[mac := infos];
        SetP2PAgrees(dir, view, hash, p2p);
        dir := SetP2P(dir, hash, p2p);
        view := SetP2PView(view, hash, p2p);
      }
      Conclude(ReportStep(hash, mac, infos), s);
    }

    // Cleanup.

    /** The stale edges of one community, by the address each edge itself carries. */
    static method StaleIn(edges: map<Mac, Edge>, now: int, expiry: int) returns (ids: seq<Mac>)
      requires forall m :: m in edges ==> edges[m].mac == m
      ensures Distinct(ids)
      ensures forall m :: m in ids <==> m in edges && now - edges[m].lastHeartbeat > expiry
    {
      ids := [];
      var todo := edges.Keys;
      while todo != {}
        invariant todo <= edges.Keys && Distinct(ids)
        invariant forall m :: m in ids <==> m in edges && m !in todo && now - edges[m].lastHeartbeat > expiry
        decreases |todo|
      {
        var m :| m in todo;
        todo := todo - {m};
        if now - edges[m].lastHeartbeat > expiry { ids := ids + [edges[m].mac]; }
      }
    }

    /** The communities in some order. */
    static method KeysOf(communities: map<int, Community>) returns (keys: seq<int>)
      ensures Distinct(keys) && forall h :: h in keys <==> h in communities
    {
      keys := [];
      var todo := communities.Items;
      while todo != {}
        invariant todo <= communities.Items && Distinct(keys)
        invariant forall h :: h in keys <==> h in communities && (h, communities[h]) !in todo
        decreases |todo|
      {
        var item :| item in todo;
        todo := todo - {item};
        keys := keys + [item.0];
      }
    }

    /** The stale edges of all communities, community by community. */
    method StaleEdges(now: int, expiry: int) returns (ids: seq<EdgeId>)
      requires Linked()
      ensures IsStaleList(view.node, now, expiry, ids)
    {
      hide Agree;
      ids := [];
      var keys := KeysOf(dir.communities);
      AgreeFacts(dir, view, 0, Mac([]));
      var i := 0;
      while i < |keys|
        invariant 0 <= i <= |keys| && Distinct(ids)
        invariant forall h, m :: EdgeId(h, m) in ids <==>
          Member(view.node, h, m) && h in keys[..i] && Stale(EdgeAt(view.node, h, m), now, expiry)
      {
        var hash := keys[i];
        MembersAreOwn(hash);
        var more := StaleIn(dir.communities[hash].edges, now, expiry);
        AppendStale(view.node, now, expiry, ids, keys, i, more);
        ids := ids + seq(|more|, i requires 0 <= i < |more| => EdgeId(hash, more[i]));
        i := i + 1;
      }
      assert keys[..i] == keys;
    }

    /** The edges of a community are filed under their own address and in the recorded state. */
    lemma MembersAreOwn(hash: int)
      requires Linked() && hash in dir.communities
      ensures hash in view.node.communities && dir.communities[hash].edges.Keys == view.node.communities[hash].edges.Keys
      ensures forall m :: m in dir.communities[hash].edges ==>
        && m in dir.edgesByMac && dir.communities[hash].edges[m] == dir.edgesByMac[m]
        && dir.communities[hash].edges[m].mac == m
        && dir.communities[hash].edges[m].State() == view.node.communities[hash].edges[m]
    {
      hide Agree;
      AgreeFacts(dir, view, hash, Mac([]));
      forall m | m in dir.communities[hash].edges
        ensures m in dir.edgesByMac && dir.communities[hash].edges[m] == dir.edgesByMac[m]
        ensures dir.communities[hash].edges[m].mac == m
        ensures dir.communities[hash].edges[m].State() == view.node.communities[hash].edges[m]
      {
        AgreeFacts(dir, view, hash, m);
        OwnEdge(m);
      }
    }

    /** One turn of the removal loop; the edge is always still there to be removed. */
    method ExpireNext(ghost s: Node, ids: seq<EdgeId>, i: nat, now: int, expiry: int)
      requires Valid() && Apart(s) && i < |ids| && Distinct(ids) && StaleMembers(s, ids, now, expiry)
      requires view.node == Run(env, s, Expiries(ids[..i], now, expiry))
      modifies `dir, `view, `history, `sent
      ensures Valid() && history == old(history) + [ExpireStep(ids[i].hash, ids[i].mac, now, expiry)]
      ensures view.node == Run(env, s, Expiries(ids[..i + 1], now, expiry)) && old(sent) <= sent
      ensures dir.edgesByMac.Values <= old(dir.edgesByMac.Values)
    {
      hide Agree, IsTrace, IsFanOut, Announced, Next, Purged, Apart;
      var x := ids[i];
      PurgeRun(env, s, ids[..i], now, expiry);
      NextIsRemoved(env, s, ids, i, now, expiry);
      RemovalIsAnnounced(env, s, ids, i, now, expiry);
      ExpiriesSnoc(ids, i, now, expiry);
      AgreeFacts(dir, view, x.hash, x.mac);
      Remove(ExpireStep(x.hash, x.mac, now, expiry), x.hash, x.mac, now);
    }

    /** Removes exactly the edges whose last heartbeat is older than the expiry. */
    method CleanupStaleEdges(now: int, expiry: int) returns (ghost gone: seq<EdgeId>)
      requires Valid()
      modifies `dir, `view, `history, `sent
      ensures Valid() && IsStaleList(old(view).node, now, expiry, gone)
      ensures history == old(history) + Expiries(gone, now, expiry) && old(sent) <= sent
      ensures view.node == Run(env, old(view).node, Expiries(gone, now, expiry))
      ensures Purged(env, old(view).node, view.node, gone, now)
      ensures dir.edgesByMac.Values <= old(dir.edgesByMac.Values)
    {
      hide Agree, IsTrace, IsFanOut, Purged, Apart;
      var ids := StaleEdges(now, expiry);
      gone := ids;
      ghost var s, h := view.node, history;
      AgreeApart(dir, view);
      StaleListMembers(s, ids, now, expiry);
      var i := 0;
      while i < |ids|
        invariant 0 <= i <= |ids| && Valid()
        invariant history == h + Expiries(ids[..i], now, expiry)
        invariant view.node == Run(env, s, Expiries(ids[..i], now, expiry))
        invariant old(sent) <= sent && dir.edgesByMac.Values <= old(dir.edgesByMac.Values)
      {
        ExpireNext(s, ids, i, now, expiry);
        ExpiriesSnoc(ids, i, now, expiry);
        i := i + 1;
      }
      assert ids[..i] == ids;
      PurgeRun(env, s, ids, now, expiry);
    }

    // Any message, and any list of them.

    method Handle(msg: Message) returns (ghost steps: seq<Step>)
      requires Valid() && (msg.Joins? ==> !Collides(env, view.node, RegisterStep(msg.reg)))
      modifies `dir, `view, `history, `sent, dir.edgesByMac.Values
      ensures Valid() && history == old(history) + steps && old(sent) <= sent
      ensures Handles(env, old(view).node, msg, steps) && view.node == Run(env, old(view).node, steps)
      ensures fresh(dir.edgesByMac.Values - old(dir.edgesByMac.Values))
    {
      hide Agree, IsTrace, Next, Collides, IsStaleList, Purged, Run;
      ghost var s := view.node;
      match msg {
        case Joins(reg) =>
          var _ := HandleRegister(reg);
          steps := [RegisterStep(reg)];
          RunOne(env, s, steps[0]);
        case Beats(hb) =>
          HandleHeartbeat(hb);
          steps := [HeartbeatStep(hb)];
          RunOne(env, s, steps[0]);
        case Leaves(unreg) =>
          HandleUnregister(unreg);
          steps := [UnregisterStep(unreg)];
          RunOne(env, s, steps[0]);
        case Reports(hash, mac, infos) =>
          HandleReport(hash, mac, infos);
          steps := [ReportStep(hash, mac, infos)];
          RunOne(env, s, steps[0]);
        case Cleans(now, expiry) =>
          ghost var gone := CleanupStaleEdges(now, expiry);
          steps := Expiries(gone, now, expiry);
      }
    }

    /** Handles any list of messages in order. Everything sent before stays sent. */
    method HandleAll(msgs: seq<Message>) returns (ghost steps: seq<Step>)
      requires Valid() && NoneCollides(env, view.node, msgs)
      modifies `dir, `view, `history, `sent, dir.edgesByMac.Values
      ensures Valid() && history == old(history) + steps && old(sent) <= sent
      ensures HandlesAll(env, old(view).node, msgs, steps) && view.node == Run(env, old(view).node, steps)
      ensures fresh(dir.edgesByMac.Values - old(dir.edgesByMac.Values))
    {
      hide Agree, IsTrace, Handles, HandlesAll, NoneCollides, Collides, Run;
      ghost var s, h := view.node, history;
      steps := [];
      NothingHandled(env, s);
      var i := 0;
      assert msgs[0..] == msgs && msgs[..0] == [] && h + [] == h;
      while i < |msgs|
        invariant 0 <= i <= |msgs| && Valid() && history == h + steps && old(sent) <= sent
        invariant HandlesAll(env, s, msgs[..i], steps) && view.node == Run(env, s, steps)
        invariant NoneCollides(env, view.node, msgs[i..])
        invariant fresh(dir.edgesByMac.Values - old(dir.edgesByMac.Values))
      {
        NoneCollidesAt(env, view.node, msgs, i);
        ghost var more := Handle(msgs[i]);
        HandlesSnoc(env, s, msgs[..i], steps, msgs[i], more);
        Regroup(h, steps, more);
        assert msgs[..i + 1] == msgs[..i] + [msgs[i]];
        steps := steps + more;
        i := i + 1;
      }
      assert msgs[..i] == msgs;
    }

    // Answers.

    /** The other edges of a community, and the asking edge itself when it wants to know. */
    static method ListOthers(env: Env, edges: map<Mac, Edge>, asking: Mac, full: bool, ghost want: Infos)
      returns (infos: seq<PeerInfo>, origin: Option<PeerInfo>)
      requires forall m :: m in edges ==> edges[m].mac == m
      requires want.Keys == edges.Keys && forall m :: m in edges ==> want[m] == Info(env, edges[m].State())
      ensures IsListing(infos, want, edges.Keys - {asking})
      ensures origin == if full && asking in edges then Some(want[asking]) else None
    {
      hide IsListing, Visited;
      infos, origin := [], None;
      var todo := edges.Keys;
      NoneListed(want, edges.Keys, asking);
      while todo != {}
        invariant todo <= edges.Keys && IsListing(infos, want, Visited(edges.Keys, todo, asking))
        invariant origin == if full && asking in edges && asking !in todo then Some(want[asking]) else None
        decreases |todo|
      {
        var m :| m in todo;
        var e := edges[m];
        var info := PeerInfo(e.virtualIp, e.mac, env.pubSocket(e.publicIp, e.publicPort), e.community, e.desc);
        assert info == want[m];
        ListOne(infos, want, edges.Keys, todo, m, asking);
        todo := todo - {m};
        if e.mac == asking {
          if full { origin := Some(info); }
        } else {
          infos := infos + [info];
        }
      }
      AllVisited(edges.Keys, asking);
    }

    /** The answer to a peer-list request names the other members, each once, as they are now. */
    method GetPeerInfoList(hash: int, asking: Mac, full: bool) returns (list: PeerInfoList)
      requires Linked() && hash in view.node.communities
      ensures IsAnswer(env, view.node, EdgeId(hash, asking), list) && Distinct(Macs(list.infos))
      ensures list.origin == if full && Member(view.node, hash, asking)
                             then Some(Info(env, EdgeAt(view.node, hash, asking))) else None
    {
      hide Agree, IsAnswer, IsListing;
      AgreeFacts(dir, view, hash, asking);
      MembersAreOwn(hash);
      ghost var edges := view.node.communities[hash].edges;
      ghost var want: Infos := map m | m in edges :: Info(env, edges[m]);
      var infos, origin := ListOthers(env, dir.communities[hash].edges, asking, full, want);
      list := PeerInfoList(TypeList, origin, infos);
      ListingIsAnswer(env, view.node, hash, asking, list, want);
    }

    /** The members of a community that are on record as offline. */
    method GetOfflineCachedEdges(name: string) returns (offline: map<Mac, CachedInfo>)
      requires Linked() && NodeOk(env, view.node)
      ensures offline.Keys == Offline(view.node, name)
      ensures forall m :: m in offline ==> m in view.node.cached && offline[m] == view.node.cached[m]
    {
      offline := map[];
      var todo := dir.cached.Keys;
      while todo != {}
        invariant todo <= dir.cached.Keys
        invariant forall m :: m in offline <==>
          m in dir.cached && m !in todo && dir.cached[m].community == name && !dir.cached[m].isRegistered
        invariant forall m :: m in offline ==> m in dir.cached && offline[m] == dir.cached[m]
        decreases |todo|
      {
        var m :| m in todo;
        todo := todo - {m};
        var v := dir.cached[m];
        if v.community == name && !v.isRegistered { offline := offline[v.mac := v]; }
      }
    }

    /** The full-state answer, given to members only; nobody is both reachable and unreachable. */
    method GetFullState(hash: int, asking: Mac)
      returns (reachable: map<Mac, P2PInfos>, unreachable: map<Mac, CachedInfo>, ok: bool)
      requires Valid()
      ensures ok <==> Member(view.node, hash, asking)
      ensures ok ==>
        && reachable == view.node.communities[hash].p2p
        && unreachable.Keys == Offline(view.node, view.node.communities[hash].name)
        && reachable.Keys <= Live(view.node, hash) && Live(view.node, hash) !! unreachable.Keys
    {
      reachable, unreachable, ok := map[], map[], false;
      EveryRunKeepsOk(env, EMPTY_NODE, history);
      AgreeFacts(dir, view, hash, asking);
      if hash in dir.communities && asking in dir.communities[hash].edges {
        unreachable := GetOfflineCachedEdges(dir.communities[hash].name);
        reachable, ok := dir.communities[hash].p2p, true;
        FullStateIsDisjoint(env, history, hash);
      }
    }
  }

  /** Each of these members listed once, with the wanted data. */
  ghost predicate IsListing(infos: seq<PeerInfo>, want: Infos, members: set<Mac>) {
    && Distinct(Macs(infos)) && Listed(infos) == members
    && (forall i :: 0 <= i < |infos| ==> infos[i].mac in want && infos[i] == want[infos[i].mac])
  }

  /** Those of `all` that are not in `todo` any more, where `skip` does not count. */
  ghost function Visited(all: set<Mac>, todo: set<Mac>, skip: Mac): set<Mac> {
    all - todo - {skip}
  }

  lemma AllVisited(all: set<Mac>, skip: Mac)
    ensures Visited(all, {}, skip) == all - {skip}
  {}

  lemma NoneListed(want: Infos, all: set<Mac>, skip: Mac)
    ensures IsListing([], want, Visited(all, all, skip))
  {}

  /** One more member visited. */
  lemma ListOne(infos: seq<PeerInfo>, want: Infos, all: set<Mac>, todo: set<Mac>, m: Mac, skip: Mac)
    requires IsListing(infos, want, Visited(all, todo, skip)) && m in todo && todo <= all
    requires m in want && want[m].mac == m
    ensures IsListing(if m == skip then infos else infos + [want[m]], want, Visited(all, todo - {m}, skip))
  {
    if m == skip {
      assert Visited(all, todo - {m}, skip) == Visited(all, todo, skip);
    } else {
      ListingSnoc(infos, want, Visited(all, todo, skip), want[m]);
      assert Visited(all, todo - {m}, skip) == Visited(all, todo, skip) + {m};
    }
  }

  lemma ListingIsAnswer(env: Env, s: Node, hash: int, asking: Mac, list: PeerInfoList, want: Infos)
    requires hash in s.communities && want.Keys == s.communities[hash].edges.Keys
    requires forall m :: m in want ==> want[m] == Info(env, s.communities[hash].edges[m])
    requires list.eventType == TypeList && IsListing(list.infos, want, want.Keys - {asking})
    ensures IsAnswer(env, s, EdgeId(hash, asking), list) && Distinct(Macs(list.infos))
  {
    var others := Others(env, s, EdgeId(hash, asking));
    assert others.Keys == want.Keys - {asking};
    forall i | 0 <= i < |list.infos| ensures list.infos[i].mac in others && list.infos[i] == others[list.infos[i].mac] {
      assert list.infos[i].mac in Listed(list.infos);
    }
  }

  lemma ListingSnoc(infos: seq<PeerInfo>, want: Infos, members: set<Mac>, info: PeerInfo)
    requires IsListing(infos, want, members) && info.mac !in members && info.mac in want && info == want[info.mac]
    ensures IsListing(infos + [info], want, members + {info.mac})
  {
    var all := infos + [info];
    assert Macs(all) == Macs(infos) + [info.mac];
    forall i | 0 <= i < |infos| ensures infos[i].mac != info.mac { assert infos[i].mac in Listed(infos); }
    forall m | m in Listed(infos) + {info.mac} ensures m in Listed(all) {
      if m == info.mac {
        assert all[|infos|].mac == m;
      } else {
        var i :| 0 <= i < |infos| && infos[i].mac == m;
        assert all[i].mac == m;
      }
    }
  }

  lemma AppendStale(s: Node, now: int, expiry: int, ids: seq<EdgeId>, keys: seq<int>, n: nat, more: seq<Mac>)
    requires Distinct(ids) && n < |keys| && Distinct(keys) && keys[n] in s.communities && Distinct(more)
    requires forall h, m :: EdgeId(h, m) in ids <==>
      Member(s, h, m) && h in keys[..n] && Stale(EdgeAt(s, h, m), now, expiry)
    requires forall m :: m in more <==> Member(s, keys[n], m) && Stale(EdgeAt(s, keys[n], m), now, expiry)
    ensures var all := ids + seq(|more|, i requires 0 <= i < |more| => EdgeId(keys[n], more[i]));
      && Distinct(all)
      && forall h, m :: EdgeId(h, m) in all <==>
           Member(s, h, m) && h in keys[..n + 1] && Stale(EdgeAt(s, h, m), now, expiry)
  {
    var hash := keys[n];
    var tail := seq(|more|, i requires 0 <= i < |more| => EdgeId(hash, more[i]));
    var all := ids + tail;
    assert keys[..n + 1] == keys[..n] + [hash] && hash !in keys[..n];
    forall h, m ensures EdgeId(h, m) in all <==>
        Member(s, h, m) && h in keys[..n + 1] && Stale(EdgeAt(s, h, m), now, expiry)
    {
      assert EdgeId(h, m) in all <==> EdgeId(h, m) in ids || EdgeId(h, m) in tail;
      if h == hash && m in more {
        var i :| 0 <= i < |more| && more[i] == m;
        assert tail[i] == EdgeId(h, m);
      }
    }
    forall i, j | 0 <= i < j < |all| ensures all[i] != all[j] {
      if i < |ids| <= j {
        assert all[j] == EdgeId(hash, more[j - |ids|]);
        assert EdgeId(hash, more[j - |ids|]) !in ids;
      }
    }
  }
}
