/** Replica convergence. The supernode, every edge's inbox and every edge's own registry run
    together; inboxes are reliable and first-in first-out. From the moment the supernode answers
    an edge's peer-list request until that edge leaves, the edge's registry plus what is still in
    its inbox is exactly the community's other members with their present data. */
module Replica {
  import opened Bytes
  import opened Peers
  import opened Probing
  import opened Membership
  import opened Partition

  // ---------------------------------------------------------------------------
  // What a peer event does to the member data alone
  // ---------------------------------------------------------------------------

  type Infos = map<Mac, PeerInfo>

  function InfosOf(r: Registry): Infos {
    map m | m in r.peers :: r.peers[m].info
  }

  function Assigned(infos: Infos, list: seq<PeerInfo>): Infos
    decreases |list|
  {
    if list == [] then infos else Assigned(infos[list[0].mac := list[0]], list[1..])
  }

  function After(infos: Infos, list: PeerInfoList): Infos {
    match list.eventType
    case TypeList =>
      var all := Assigned(infos, list.infos);
      map m | m in all && m in Listed(list.infos) :: all[m]
    case TypeRegister => Assigned(infos, list.infos)
    case TypeUnregister => infos - Listed(list.infos)
    case TypeOther => infos
  }

  function AfterAll(infos: Infos, queue: seq<PeerInfoList>): Infos
    decreases |queue|
  {
    if queue == [] then infos else AfterAll(After(infos, queue[0]), queue[1..])
  }

  function Delivered(key: SocketKey, r: Registry, list: PeerInfoList): Registry {
    Handled(key, r, list, false, true).0
  }

  function DeliveredAll(key: SocketKey, r: Registry, queue: seq<PeerInfoList>): Registry
    decreases |queue|
  {
    if queue == [] then r else DeliveredAll(key, Delivered(key, r, queue[0]), queue[1..])
  }

  lemma {:induction false} InfosAddedAll(key: SocketKey, r: Registry, list: seq<PeerInfo>)
    ensures InfosOf(AddedAll(key, r, list, true).0) == Assigned(InfosOf(r), list)
    decreases |list|
  {
    if list != [] {
      var r1 := Added(key, r, list[0]);
      assert InfosOf(r1) == InfosOf(r)[list[0].mac := list[0]];
      InfosAddedAll(key, r1, list[1..]);
    }
  }

  /** The member data of a registry moves independently of probing and of the index. */
  lemma InfosDelivered(key: SocketKey, r: Registry, list: PeerInfoList)
    ensures InfosOf(Delivered(key, r, list)) == After(InfosOf(r), list)
  {
    match list.eventType
    case TypeList =>
      var r1 := if list.origin.Some? then r.(me := list.origin) else r;
      AddedAllAccepts(key, r1, list.infos);
      InfosAddedAll(key, r1, list.infos);
      assert InfosOf(r1) == InfosOf(r);
    case TypeRegister => InfosAddedAll(key, r, list.infos);
    case TypeUnregister =>
      RemovedAllMembers(key, r, Macs(list.infos));
      ListedIsMacs(list.infos);
    case TypeOther =>
  }

  lemma {:induction false} InfosDeliveredAll(key: SocketKey, r: Registry, queue: seq<PeerInfoList>)
    ensures InfosOf(DeliveredAll(key, r, queue)) == AfterAll(InfosOf(r), queue)
    decreases |queue|
  {
    if queue != [] {
      InfosDelivered(key, r, queue[0]);
      InfosDeliveredAll(key, Delivered(key, r, queue[0]), queue[1..]);
    }
  }

  lemma {:induction false} AfterAllSnoc(infos: Infos, queue: seq<PeerInfoList>, list: PeerInfoList)
    ensures AfterAll(infos, queue + [list]) == After(AfterAll(infos, queue), list)
    decreases |queue|
  {
    if queue == [] {
      assert queue + [list] == [list];
      assert AfterAll(After(infos, list), []) == After(infos, list);
    } else {
      assert (queue + [list])[0] == queue[0] && (queue + [list])[1..] == queue[1..] + [list];
      AfterAllSnoc(After(infos, queue[0]), queue[1..], list);
    }
  }

  lemma {:induction false} AssignedListing(infos: Infos, list: seq<PeerInfo>, want: Infos)
    requires forall i :: 0 <= i < |list| ==> list[i].mac in want && list[i] == want[list[i].mac]
    ensures var all := Assigned(infos, list);
      && all.Keys == infos.Keys + Listed(list)
      && (forall m :: m in all ==> all[m] == if m in Listed(list) then want[m] else infos[m])
    decreases |list|
  {
    if list != [] {
      var rest := list[1..];
      forall i | 0 <= i < |rest| ensures rest[i].mac in want && rest[i] == want[rest[i].mac] {
        assert rest[i] == list[i + 1];
      }
      AssignedListing(infos[list[0].mac := list[0]], rest, want);
      ListedCons(list);
    }
  }

  // ---------------------------------------------------------------------------
  // A member forgotten early
  // ---------------------------------------------------------------------------

  /** The event sets or removes what is known of this address, whatever that was. */
  predicate Settles(list: PeerInfoList, m: Mac) {
    list.eventType == TypeList || (!list.eventType.TypeOther? && m in Listed(list.infos))
  }

  predicate Settled(queue: seq<PeerInfoList>, m: Mac) {
    exists i :: 0 <= i < |queue| && Settles(queue[i], m)
  }

  lemma ListedCons(list: seq<PeerInfo>)
    requires list != []
    ensures Listed(list) == {list[0].mac} + Listed(list[1..])
  {
    forall m | m in Listed(list) ensures m in {list[0].mac} + Listed(list[1..]) {
      var i :| 0 <= i < |list| && list[i].mac == m;
      if i > 0 { assert list[1..][i - 1].mac == m; }
    }
    forall m | m in {list[0].mac} + Listed(list[1..]) ensures m in Listed(list) {
      if m in Listed(list[1..]) {
        var i :| 0 <= i < |list[1..]| && list[1..][i].mac == m;
        assert list[i + 1].mac == m;
      }
    }
  }

  lemma {:induction false} AssignedWithout(infos: Infos, list: seq<PeerInfo>, m: Mac)
    ensures Assigned(infos, list).Keys == infos.Keys + Listed(list)
    ensures Assigned(infos - {m}, list)
         == if m in Listed(list) then Assigned(infos, list) else Assigned(infos, list) - {m}
    decreases |list|
  {
    if list != [] {
      var next := infos[list[0].mac := list[0]];
      ListedCons(list);
      AssignedWithout(next, list[1..], m);
      if list[0].mac == m {
        assert (infos - {m})[m := list[0]] == next;
      } else {
        assert (infos - {m})[list[0].mac := list[0]] == next - {m};
      }
    }
  }

  lemma AfterWithout(infos: Infos, list: PeerInfoList, m: Mac)
    ensures After(infos - {m}, list) == if Settles(list, m) then After(infos, list) else After(infos, list) - {m}
    ensures !Settles(list, m) ==> (m in After(infos, list) <==> m in infos)
  {
    AssignedWithout(infos, list.infos, m);
    match list.eventType
    case TypeList =>
      assert After(infos - {m}, list) == After(infos, list);
    case TypeRegister =>
    case TypeUnregister =>
      if m in Listed(list.infos) {
        assert infos - {m} - Listed(list.infos) == infos - Listed(list.infos);
      } else {
        assert infos - {m} - Listed(list.infos) == infos - Listed(list.infos) - {m};
      }
    case TypeOther =>
  }

  /** Forgetting a member early is made good by the pending events exactly when one of them is a
      full list or names that member. */
  lemma {:induction false} AfterAllWithout(infos: Infos, queue: seq<PeerInfoList>, m: Mac)
    ensures AfterAll(infos - {m}, queue) == AfterAll(infos, queue) <==> m !in infos || Settled(queue, m)
    decreases |queue|
  {
    if m !in infos {
      assert infos - {m} == infos;
    } else if queue == [] {
      assert m !in infos - {m};
    } else {
      AfterWithout(infos, queue[0], m);
      AfterAllWithout(After(infos, queue[0]), queue[1..], m);
      if Settled(queue[1..], m) {
        var i :| 0 <= i < |queue[1..]| && Settles(queue[1..][i], m);
        assert Settles(queue[i + 1], m);
      }
      if Settled(queue, m) && !Settles(queue[0], m) {
        var i :| 0 <= i < |queue| && Settles(queue[i], m);
        assert Settles(queue[1..][i - 1], m);
      }
    }
  }

  // ---------------------------------------------------------------------------
  // The whole system
  // ---------------------------------------------------------------------------

  /** `synced` holds the live edges whose peer-list request has been answered since they joined. */
  datatype World = World(
    node: Node, inbox: map<EdgeId, seq<PeerInfoList>>, replica: map<EdgeId, Registry>, synced: set<EdgeId>)

  function Inbox(w: World, x: EdgeId): seq<PeerInfoList> {
    if x in w.inbox then w.inbox[x] else []
  }

  function RegistryOf(w: World, x: EdgeId): Registry {
    if x in w.replica then w.replica[x] else EMPTY
  }

  /** What the edge should know: the other members of its community, as they are now. */
  function Others(env: Env, s: Node, x: EdgeId): Infos {
    if x.hash in s.communities then
      var edges := s.communities[x.hash].edges;
      map m | m in edges && m != x.mac :: Info(env, edges[m])
    else map[]
  }

  datatype Action =
    | Serve(step: Step)                              // the supernode handles a message
    | Answer(x: EdgeId, list: PeerInfoList)          // it answers a peer-list request
    | Deliver(x: EdgeId)                             // an edge takes the next event from its inbox
    | Local(x: EdgeId, self: Self, ev: EdgeEvent)    // an edge ticks, or hears from another edge

  /** A list answer names the other members, in whatever order the map was walked. */
  ghost predicate IsAnswer(env: Env, s: Node, x: EdgeId, list: PeerInfoList) {
    var want := Others(env, s, x);
    && list.eventType == TypeList
    && Listed(list.infos) == want.Keys
    && (forall i :: 0 <= i < |list.infos| ==> list.infos[i].mac in want && list.infos[i] == want[list.infos[i].mac])
  }

  /** A request that asks an edge directly to forget a member does no harm if the edge would forget
      it anyway, or will hear of it again: it is the edge itself, unknown, or settled by an event
      still in the inbox. */
  predicate Harmless(w: World, x: EdgeId, self: Self, mac: Mac) {
    mac == self.mac || mac !in RegistryOf(w, x).peers || Settled(Inbox(w, x), mac)
  }

  ghost predicate Enabled(env: Env, w: World, a: Action) {
    match a
    case Serve(_) => true
    case Answer(x, list) => Member(w.node, x.hash, x.mac) && IsAnswer(env, w.node, x, list)
    case Deliver(x) => Inbox(w, x) != []
    case Local(x, self, ev) => !ev.PeerEvent? && (ev.UnregisterRequest? ==> Harmless(w, x, self, ev.mac))
  }

  function Recipients(s: Node, a: Announcement): set<EdgeId> {
    set m | m in Live(s, a.hash) && m != a.about :: EdgeId(a.hash, m)
  }

  function Posted(inbox: map<EdgeId, seq<PeerInfoList>>, to: set<EdgeId>, event: PeerInfoList): map<EdgeId, seq<PeerInfoList>> {
    map x | x in inbox.Keys + to ::
      (if x in inbox then inbox[x] else []) + (if x in to then [event] else [])
  }

  function Act(env: Env, key: SocketKey, w: World, a: Action): World
    requires a.Deliver? ==> Inbox(w, a.x) != []
  {
    match a
    case Serve(step) =>
      var s' := Next(env, w.node, step);
      var ann := Announced(env, w.node, step);
      World(s',
            if ann.Some? then Posted(w.inbox, Recipients(s', ann.value), ann.value.event) else w.inbox,
            w.replica,
            set x | x in w.synced && Member(s', x.hash, x.mac))
    case Answer(x, list) =>
      w.(inbox := Posted(w.inbox, {x}, list), synced := w.synced + {x})
    case Deliver(x) =>
      w.(inbox := w.inbox[x := Inbox(w, x)[1..]],
         replica := w.replica[x := Delivered(key, RegistryOf(w, x), Inbox(w, x)[0])])
    case Local(x, self, ev) =>
      w.(replica := w.replica[x := EdgeStep(self, key, RegistryOf(w, x), ev)])
  }

  // ---------------------------------------------------------------------------
  // One supernode step seen by one member
  // ---------------------------------------------------------------------------

  predicate Concerns(a: Announcement, x: EdgeId) {
    a.hash == x.hash && a.about != x.mac
  }

  lemma AfterRegister(infos: Infos, info: PeerInfo)
    ensures After(infos, PeerInfoList(TypeRegister, None, [info])) == infos[info.mac := info]
  {
    assert Assigned(infos[info.mac := info], []) == infos[info.mac := info];
    assert [info][1..] == [];
  }

  lemma AfterUnregister(infos: Infos, info: PeerInfo)
    ensures After(infos, PeerInfoList(TypeUnregister, None, [info])) == infos - {info.mac}
  {
    assert Listed([info]) == {info.mac} by { assert [info][0] == info; }
  }

  lemma OthersWithEdge(env: Env, s: Node, hash: int, e: EdgeState, x: EdgeId)
    requires hash in s.communities
    ensures var s' := WithEdge(s, hash, e);
      Others(env, s', x)
      == if x.hash == hash && e.mac != x.mac then Others(env, s, x)[e.mac := Info(env, e)] else Others(env, s, x)
  {}

  lemma OthersWithout(env: Env, s: Node, hash: int, mac: Mac, now: int, x: EdgeId)
    requires Member(s, hash, mac)
    ensures Others(env, Without(env, s, hash, mac, now), x)
         == if x.hash == hash && mac != x.mac then Others(env, s, x) - {mac} else Others(env, s, x)
  {}

  lemma OthersAfterRegister(env: Env, s: Node, msg: RegisterMsg, x: EdgeId)
    requires NodeOk(env, s)
    ensures var (s', e) := Register(env, s, msg);
      Others(env, s', x)
      == if e.Some? && x.hash == msg.hash && msg.mac != x.mac
         then Others(env, s, x)[msg.mac := Info(env, e.value)] else Others(env, s, x)
  {
    if Register(env, s, msg).1.Some? {
      RegisteredEdge(env, s, msg);
      var s1 := WithCommunity(env, s, msg.community, msg.hash, msg.network).value;
      var e := Register(env, s, msg).1.value;
      assert Others(env, s1, x) == Others(env, s, x);
      OthersWithEdge(env, s1, msg.hash, e, x);
      assert Enrolled(env, s1, msg.hash, e, msg.now).communities == WithEdge(s1, msg.hash, e).communities;
    } else {
      assert Others(env, Register(env, s, msg).0, x) == Others(env, s, x);
    }
  }

  lemma OthersAfterHeartbeat(env: Env, s: Node, msg: HeartbeatMsg, x: EdgeId)
    requires NodeOk(env, s)
    ensures var ann := Announced(env, s, HeartbeatStep(msg));
      Others(env, Heartbeat(env, s, msg), x)
      == if ann.Some? && Concerns(ann.value, x) then After(Others(env, s, x), ann.value.event) else Others(env, s, x)
  {
    if HeartbeatOk(env, s, msg) {
      var e := EdgeAt(s, msg.hash, msg.mac);
      var f := Refreshed(e, msg);
      OthersWithEdge(env, s, msg.hash, f, x);
      AfterRegister(Others(env, s, x), Info(env, f));
      if !Moved(e, f) && x.hash == msg.hash && msg.mac != x.mac {
        assert Others(env, s, x)[msg.mac] == Info(env, e) == Info(env, f);
      }
    }
  }

  lemma AfterRegistration(env: Env, s: Node, msg: RegisterMsg, x: EdgeId)
    requires NodeOk(env, s)
    ensures var ann := Announced(env, s, RegisterStep(msg));
      Others(env, Register(env, s, msg).0, x)
      == if ann.Some? && Concerns(ann.value, x) then After(Others(env, s, x), ann.value.event) else Others(env, s, x)
  {
    hide Others, After, NodeOk;
    OthersAfterRegister(env, s, msg, x);
    if Register(env, s, msg).1.Some? {
      RegisteredEdge(env, s, msg);
      AfterRegister(Others(env, s, x), Info(env, Register(env, s, msg).1.value));
    }
  }

  lemma AfterRemoval(env: Env, s: Node, hash: int, mac: Mac, now: int, x: EdgeId)
    requires Member(s, hash, mac) && NodeOk(env, s)
    ensures var event := Event(TypeUnregister, env, EdgeAt(s, hash, mac));
      Others(env, Without(env, s, hash, mac, now), x)
      == if x.hash == hash && mac != x.mac then After(Others(env, s, x), event) else Others(env, s, x)
  {
    assert CommunityOk(env, hash, s.communities[hash]);
    hide Others, After, Without, NodeOk;
    OthersWithout(env, s, hash, mac, now, x);
    AfterUnregister(Others(env, s, x), Info(env, EdgeAt(s, hash, mac)));
  }

  /** What a member should know changes exactly by the event announced to it. */
  lemma OthersAfter(env: Env, s: Node, step: Step, x: EdgeId)
    requires NodeOk(env, s)
    ensures var ann := Announced(env, s, step);
      Others(env, Next(env, s, step), x)
      == if ann.Some? && Concerns(ann.value, x) then After(Others(env, s, x), ann.value.event) else Others(env, s, x)
  {
    match step
    case RegisterStep(msg) => AfterRegistration(env, s, msg, x);
    case HeartbeatStep(msg) => OthersAfterHeartbeat(env, s, msg, x);
    case UnregisterStep(msg) =>
      if UnregisterOk(env, s, msg) { AfterRemoval(env, s, msg.hash, msg.mac, msg.now, x); }
    case ExpireStep(hash, mac, now, expiry) =>
      if Member(s, hash, mac) { AfterRemoval(env, s, hash, mac, now, x); }
    case ReportStep(hash, mac, infos) =>
      assert Others(env, Report(s, hash, mac, infos), x) == Others(env, s, x);
  }

  // ---------------------------------------------------------------------------
  // Convergence
  // ---------------------------------------------------------------------------

  ghost predicate InStep(env: Env, w: World, x: EdgeId) {
    && Member(w.node, x.hash, x.mac)
    && AfterAll(InfosOf(RegistryOf(w, x)), Inbox(w, x)) == Others(env, w.node, x)
  }

  ghost predicate Converging(env: Env, w: World) {
    NodeOk(env, w.node) && forall x :: x in w.synced ==> InStep(env, w, x)
  }

  lemma ServeConverges(env: Env, key: SocketKey, w: World, step: Step, x: EdgeId)
    requires Converging(env, w) && x in Act(env, key, w, Serve(step)).synced
    ensures InStep(env, Act(env, key, w, Serve(step)), x)
  {
    var w' := Act(env, key, w, Serve(step));
    assert InStep(env, w, x);
    OthersAfter(env, w.node, step, x);
    var ann := Announced(env, w.node, step);
    if ann.Some? {
      if Concerns(ann.value, x) {
        assert x.mac in Live(w'.node, x.hash);
        assert x in Recipients(w'.node, ann.value);
        assert Inbox(w', x) == Inbox(w, x) + [ann.value.event];
        AfterAllSnoc(InfosOf(RegistryOf(w, x)), Inbox(w, x), ann.value.event);
      } else {
        assert x !in Recipients(w'.node, ann.value);
        assert Inbox(w', x) == Inbox(w, x);
      }
    }
  }

  lemma AnswerConverges(env: Env, key: SocketKey, w: World, y: EdgeId, list: PeerInfoList, x: EdgeId)
    requires Converging(env, w) && Enabled(env, w, Answer(y, list))
    requires x in Act(env, key, w, Answer(y, list)).synced
    ensures InStep(env, Act(env, key, w, Answer(y, list)), x)
  {
    var w' := Act(env, key, w, Answer(y, list));
    hide AfterAll, Assigned, InfosOf, Others, NodeOk;
    if x == y {
      assert Inbox(w', x) == Inbox(w, x) + [list];
      AfterAllSnoc(InfosOf(RegistryOf(w, x)), Inbox(w, x), list);
      AnswerSettles(AfterAll(InfosOf(RegistryOf(w, x)), Inbox(w, x)), list, Others(env, w.node, x));
    } else {
      assert InStep(env, w, x);
      assert Inbox(w', x) == Inbox(w, x);
    }
  }

  /** After a full list nothing else is left of what was known before. */
  lemma AnswerSettles(infos: Infos, list: PeerInfoList, want: Infos)
    requires list.eventType == TypeList && Listed(list.infos) == want.Keys
    requires forall i :: 0 <= i < |list.infos| ==> list.infos[i].mac in want && list.infos[i] == want[list.infos[i].mac]
    ensures After(infos, list) == want
  {
    AssignedListing(infos, list.infos, want);
  }

  lemma EdgeConverges(env: Env, key: SocketKey, w: World, a: Action, x: EdgeId)
    requires Converging(env, w) && Enabled(env, w, a) && (a.Deliver? || a.Local?) && x in w.synced
    ensures InStep(env, Act(env, key, w, a), x)
  {
    var w' := Act(env, key, w, a);
    assert InStep(env, w, x);
    match a
    case Deliver(y) =>
      if x == y { InfosDelivered(key, RegistryOf(w, x), Inbox(w, x)[0]); }
    case Local(y, self, ev) =>
      if x == y {
        if ev.UnregisterRequest? {
          ForgettingExactly(env, key, w, x, self, ev.mac);
        } else {
          LocalKeepsInfos(self, key, RegistryOf(w, x), ev);
        }
      }
  }

  lemma InfosRemoved(key: SocketKey, r: Registry, mac: Mac)
    ensures InfosOf(Removed(key, r, mac)) == InfosOf(r) - {mac}
  {}

  /** A direct request to forget a member keeps the promise to an edge exactly when it is harmless. */
  lemma ForgettingExactly(env: Env, key: SocketKey, w: World, x: EdgeId, self: Self, mac: Mac)
    requires InStep(env, w, x)
    ensures InStep(env, Act(env, key, w, Local(x, self, UnregisterRequest(mac))), x) <==> Harmless(w, x, self, mac)
  {
    hide AfterAll, Settled, Others;
    var r := RegistryOf(w, x);
    if mac != self.mac {
      InfosRemoved(key, r, mac);
      AfterAllWithout(InfosOf(r), Inbox(w, x), mac);
    }
  }

  lemma LocalKeepsInfos(self: Self, key: SocketKey, r: Registry, ev: EdgeEvent)
    requires ev.Tick? || ev.Pong? || ev.StateInfo?
    ensures InfosOf(EdgeStep(self, key, r, ev)) == InfosOf(r)
  {
    match ev
    case Tick =>
    case Pong(_, _, _) =>
    case StateInfo(mac, hasFrom, to) => ReachableKeepsInfos(r, (if hasFrom then [mac] else []) + to);
  }

  lemma {:induction false} ReachableKeepsInfos(r: Registry, macs: seq<Mac>)
    ensures InfosOf(ReachableAll(r, macs)) == InfosOf(r)
    decreases |macs|
  {
    if macs != [] {
      assert InfosOf(ReachableAt(r, macs[0])) == InfosOf(r);
      ReachableKeepsInfos(ReachableAt(r, macs[0]), macs[1..]);
    }
  }

  lemma ActConverges(env: Env, key: SocketKey, w: World, a: Action)
    requires Converging(env, w) && Enabled(env, w, a)
    ensures Converging(env, Act(env, key, w, a))
  {
    var w' := Act(env, key, w, a);
    if a.Serve? { StepKeepsOk(env, w.node, a.step); }
    forall x | x in w'.synced ensures InStep(env, w', x) {
      match a
      case Serve(step) => ServeConverges(env, key, w, step, x);
      case Answer(y, list) => AnswerConverges(env, key, w, y, list, x);
      case Deliver(_) => EdgeConverges(env, key, w, a, x);
      case Local(_, _, _) => EdgeConverges(env, key, w, a, x);
    }
  }

  /** A behaviour: worlds[0] is the start, and each action leads from one world to the next. */
  ghost predicate Behaviour(env: Env, key: SocketKey, worlds: seq<World>, actions: seq<Action>) {
    && |worlds| == |actions| + 1
    && worlds[0].node == EMPTY_NODE && worlds[0].synced == {}
    && forall i :: 0 <= i < |actions| ==>
         Enabled(env, worlds[i], actions[i]) && worlds[i + 1] == Act(env, key, worlds[i], actions[i])
  }

  lemma {:induction false} EveryBehaviourConverges(env: Env, key: SocketKey, worlds: seq<World>, actions: seq<Action>, i: nat)
    requires Behaviour(env, key, worlds, actions) && i < |worlds|
    ensures Converging(env, worlds[i])
  {
    if i > 0 {
      EveryBehaviourConverges(env, key, worlds, actions, i - 1);
      ActConverges(env, key, worlds[i - 1], actions[i - 1]);
    }
  }

  /** The promise to an edge. At any point of any behaviour, taking everything still in its inbox
      leaves a synced edge with exactly the other live members and their present data; with an
      empty inbox it is there already. */
  lemma ReplicaConvergence(env: Env, key: SocketKey, worlds: seq<World>, actions: seq<Action>, i: nat, x: EdgeId)
    requires Behaviour(env, key, worlds, actions) && i < |worlds| && x in worlds[i].synced
    ensures var w := worlds[i];
      && Member(w.node, x.hash, x.mac)
      && InfosOf(DeliveredAll(key, RegistryOf(w, x), Inbox(w, x))) == Others(env, w.node, x)
      && (Inbox(w, x) == [] ==> InfosOf(RegistryOf(w, x)) == Others(env, w.node, x))
  {
    EveryBehaviourConverges(env, key, worlds, actions, i);
    assert InStep(env, worlds[i], x);
    InfosDeliveredAll(key, RegistryOf(worlds[i], x), Inbox(worlds[i], x));
  }

  /** An edge is in the promise from its answer on, as long as it stays a member. */
  lemma {:induction false} SyncedSinceAnswer(
    env: Env, key: SocketKey, worlds: seq<World>, actions: seq<Action>, i: nat, j: nat, x: EdgeId)
    requires Behaviour(env, key, worlds, actions) && i < j < |worlds|
    requires actions[i].Answer? && actions[i].x == x
    requires forall k :: i < k <= j ==> Member(worlds[k].node, x.hash, x.mac)
    ensures x in worlds[j].synced
    decreases j
  {
    if j > i + 1 { SyncedSinceAnswer(env, key, worlds, actions, i, j - 1, x); }
    assert worlds[j] == Act(env, key, worlds[j - 1], actions[j - 1]);
    if actions[j - 1].Serve? { assert Member(worlds[j].node, x.hash, x.mac); }
  }

  /** From the answer to an edge's peer-list request until the edge leaves, at every point, taking
      what is in its inbox leaves it with exactly the other members and their present data. */
  lemma FromAnswerToLeaving(
    env: Env, key: SocketKey, worlds: seq<World>, actions: seq<Action>, i: nat, j: nat, x: EdgeId)
    requires Behaviour(env, key, worlds, actions) && i < j < |worlds|
    requires actions[i].Answer? && actions[i].x == x
    requires forall k :: i < k <= j ==> Member(worlds[k].node, x.hash, x.mac)
    ensures var w := worlds[j];
      && InfosOf(DeliveredAll(key, RegistryOf(w, x), Inbox(w, x))) == Others(env, w.node, x)
      && (Inbox(w, x) == [] ==> InfosOf(RegistryOf(w, x)) == Others(env, w.node, x))
  {
    SyncedSinceAnswer(env, key, worlds, actions, i, j, x);
    ReplicaConvergence(env, key, worlds, actions, j, x);
  }
}
