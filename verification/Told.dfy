/** What the members are told about each other, read off the messages: the data in announcements, in
    answers and in a converged replica, field by field. */
module Told {
  import opened Bytes
  import opened Peers
  import opened Membership
  import opened Partition
  import opened Records
  import opened Replica
  import opened Supernode
  import opened Delivery

  /** The data says of an edge what the edge's own messages said: virtual address, description and
      community are those of the registration that created it, and the socket is that of the address
      it last sent from. */
  ghost predicate Tells(env: Env, steps: seq<Step>, n: nat, x: EdgeId, info: PeerInfo)
    requires n <= |steps|
  {
    exists c: nat :: CreatedAt(env, steps, n, c, x) && TellsSince(env, steps, n, c, x, info)
  }

  ghost predicate TellsSince(env: Env, steps: seq<Step>, n: nat, c: nat, x: EdgeId, info: PeerInfo)
    requires n <= |steps| && c < |steps| && steps[c].RegisterStep?
  {
    var reg := steps[c].reg;
    && info.mac == x.mac && info.desc == reg.desc && info.community == reg.community && reg.vip == Some(info.virtualIp)
    && exists ip, port :: IsAddress(env, steps, n, c, x, ip, port) && info.pubSocket == env.pubSocket(ip, port)
  }

  /** What the supernode makes of a member's record to tell the others. */
  lemma InfoTells(env: Env, steps: seq<Step>, n: nat, x: EdgeId)
    requires n <= |steps| && MemberAt(env, steps, n, x)
    ensures Tells(env, steps, n, x, Info(env, EdgeAt(At(env, steps, n), x.hash, x.mac)))
  {
    var c := EveryRecord(env, steps, n, x);
    hide Contact, At, IsAddress, IsTiming, IsConnection;
    assert TellsSince(env, steps, n, c, x, Info(env, EdgeAt(At(env, steps, n), x.hash, x.mac))) by {
      hide CreatedAt;
      ContactIs(env, steps, n, c, x);
    }
  }

  lemma ContactIs(env: Env, steps: seq<Step>, n: nat, c: nat, x: EdgeId)
    requires n <= |steps| && CreatedAt(env, steps, n, c, x)
    ensures steps[c].reg.mac == x.mac && steps[c].reg.hash == x.hash
  {}

  // ---------------------------------------------------------------------------
  // Announcements
  // ---------------------------------------------------------------------------

  /** The edge a message makes the supernode announce: one that joined, left, or sent a heartbeat from
      another address than the one on record. */
  ghost predicate MakesKnown(env: Env, s: Node, step: Step, x: EdgeId) {
    || Joined(env, s, step) == Some(x)
    || Left(env, s, step) == Some(x)
    || (&& step.HeartbeatStep? && EdgeId(step.hb.hash, step.hb.mac) == x && HeartbeatOk(env, s, step.hb)
        && var e := EdgeAt(s, x.hash, x.mac); AddressIn(step) != (e.publicIp, e.publicPort))
  }

  /** Exactly these are announced: as gone with the data before the message if they left, and as
      there with the data after it otherwise. */
  lemma AnnouncedExactly(env: Env, s: Node, step: Step, x: EdgeId)
    requires NodeOk(env, s)
    ensures (exists event :: Announced(env, s, step) == Some(Announcement(x.hash, x.mac, event))) <==> MakesKnown(env, s, step, x)
    ensures MakesKnown(env, s, step, x) ==>
      var left, t := Left(env, s, step).Some?, Next(env, s, step);
      && (if left then Member(s, x.hash, x.mac) else Member(t, x.hash, x.mac))
      && Announced(env, s, step) == Some(Announcement(x.hash, x.mac,
           if left then PeerInfoList(TypeUnregister, None, [Info(env, EdgeAt(s, x.hash, x.mac))])
           else PeerInfoList(TypeRegister, None, [Info(env, EdgeAt(t, x.hash, x.mac))])))
  {
    match step
    case RegisterStep(msg) =>
      if Register(env, s, msg).1.Some? { RegisteredEdge(env, s, msg); }
    case HeartbeatStep(msg) =>
      if HeartbeatOk(env, s, msg) { assert CommunityOk(env, msg.hash, s.communities[msg.hash]); }
    case _ =>
  }

  lemma AnnouncementTells(env: Env, steps: seq<Step>, i: nat)
    requires i < |steps| && Announced(env, At(env, steps, i), steps[i]).Some?
    ensures var a := Announced(env, At(env, steps, i), steps[i]).value;
      && MakesKnown(env, At(env, steps, i), steps[i], EdgeId(a.hash, a.about))
      && a.event.origin.None? && |a.event.infos| == 1
      && a.event.eventType == (if Left(env, At(env, steps, i), steps[i]).Some? then TypeUnregister else TypeRegister)
      && Tells(env, steps, if a.event.eventType == TypeUnregister then i else i + 1, EdgeId(a.hash, a.about), a.event.infos[0])
  {
    var s := At(env, steps, i);
    var a := Announced(env, s, steps[i]).value;
    var x := EdgeId(a.hash, a.about);
    RunSnoc(env, steps, i);
    EveryRunKeepsOk(env, EMPTY_NODE, steps[..i]);
    hide Next, Announced, NodeOk, Run, Tells, Left, MakesKnown;
    assert Announced(env, s, steps[i]) == Some(Announcement(x.hash, x.mac, a.event));
    AnnouncedExactly(env, s, steps[i], x);
    if Left(env, s, steps[i]).Some? { InfoTells(env, steps, i, x); } else { InfoTells(env, steps, i + 1, x); }
  }

  /** Every packet sent over a run is such an announcement, to another member of that moment. */
  lemma {:induction false} SentTells(env: Env, steps: seq<Step>, out: seq<Sent<PeerInfoList>>, j: nat) returns (i: nat)
    requires IsTrace(env, steps, out) && j < |out|
    ensures i < |steps| && Announced(env, At(env, steps, i), steps[i]).Some?
    ensures var a := Announced(env, At(env, steps, i), steps[i]).value;
      && a.hash == out[j].hash && a.event == out[j].packet && a.about != out[j].to
      && MemberAt(env, steps, i + 1, EdgeId(out[j].hash, out[j].to))
    decreases |steps|
  {
    hide Next, Announced;
    var n := |steps| - 1;
    var front, last := steps[..n], steps[n];
    var s := Run(env, EMPTY_NODE, front);
    var k :| 0 <= k <= |out| && IsTrace(env, front, out[..k])
             && Announces(out[k..], Next(env, s, last), Announced(env, s, last));
    if j < k {
      i := SentTells(env, front, out[..k], j);
      assert front[..i] == steps[..i] && front[..i + 1] == steps[..i + 1] && front[i] == steps[i];
    } else {
      i := n;
      assert out[j] == out[k..][j - k] && steps[..n + 1] == steps;
    }
  }

  // ---------------------------------------------------------------------------
  // Answers and replicas
  // ---------------------------------------------------------------------------

  /** An answer to a peer-list request tells of each member it lists. */
  lemma AnswerTells(env: Env, steps: seq<Step>, x: EdgeId, list: PeerInfoList, j: nat)
    requires IsAnswer(env, At(env, steps, |steps|), x, list) && j < |list.infos|
    ensures Tells(env, steps, |steps|, EdgeId(x.hash, list.infos[j].mac), list.infos[j])
  {
    hide Run, Tells;
    InfoTells(env, steps, |steps|, EdgeId(x.hash, list.infos[j].mac));
  }

  /** What a converged replica holds of a member tells of that member. */
  lemma ReplicaTells(
    env: Env, key: SocketKey, worlds: seq<World>, actions: seq<Action>, i: nat, x: EdgeId, m: Mac)
    requires Behaviour(env, key, worlds, actions) && i < |worlds| && x in worlds[i].synced
    requires m in DeliveredAll(key, RegistryOf(worlds[i], x), Inbox(worlds[i], x)).peers
    ensures var steps := Served(actions[..i]);
      var p := DeliveredAll(key, RegistryOf(worlds[i], x), Inbox(worlds[i], x)).peers[m];
      m != x.mac && Tells(env, steps, |steps|, EdgeId(x.hash, m), p.info)
  {
    var steps := Served(actions[..i]);
    ReplicaConvergence(env, key, worlds, actions, i, x);
    NodeIsRun(env, key, worlds, actions, i);
    hide Behaviour, DeliveredAll, Served, Tells, Run, RegistryOf, Inbox;
    assert steps[..|steps|] == steps;
    assert m in InfosOf(DeliveredAll(key, RegistryOf(worlds[i], x), Inbox(worlds[i], x)));
    InfoTells(env, steps, |steps|, EdgeId(x.hash, m));
  }
}
