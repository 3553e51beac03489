/** Who is online and who is offline: exactly in which runs of the supernode each community's
    members split into the live edges and the remembered offline ones, and in which no address is
    live in two communities. */
module Partition {
  import opened Bytes
  import opened Membership

  // ---------------------------------------------------------------------------
  // The invariant
  // ---------------------------------------------------------------------------

  ghost predicate CommunityOk(env: Env, hash: int, c: CommunityState) {
    && env.hash(c.name) == hash
    && c.p2p.Keys <= c.edges.Keys
    && (forall m :: m in c.edges ==>
          && c.edges[m].mac == m
          && c.edges[m].community == c.name
          && env.derive(c.name, c.edges[m].machineId) == m)
  }

  /** A name hashes to the key of its community; edges are filed under their own, derived
      address; only live edges have reported peers; and nobody remembered as offline is live. */
  ghost predicate NodeOk(env: Env, s: Node) {
    && (forall h :: h in s.communities ==> CommunityOk(env, h, s.communities[h]))
    && (forall m :: m in s.cached ==> s.cached[m].mac == m)
    && (forall h, m ::
          (h in s.communities && m in s.cached && !s.cached[m].isRegistered
           && s.cached[m].community == s.communities[h].name) ==> m !in s.communities[h].edges)
  }

  /** Finding or creating a community changes no member and no record. */
  lemma CommunityFound(env: Env, s: Node, name: string, hash: int, network: bool)
    requires NodeOk(env, s) && WithCommunity(env, s, name, hash, network).Some?
    ensures var s1 := WithCommunity(env, s, name, hash, network).value;
      && NodeOk(env, s1) && hash in s1.communities && s1.communities[hash].name == name && env.hash(name) == hash
      && s1.cached == s.cached && s1.sockets == s.sockets
      && (forall h, m :: Member(s, h, m) <==> Member(s1, h, m))
      && (forall h :: h in s.communities ==> h in s1.communities && s1.communities[h] == s.communities[h])
  {}

  lemma UpdatedEdgeIs(env: Env, c: CommunityState, hash: int, msg: RegisterMsg, id: seq<byte>)
    requires CommunityOk(env, hash, c) && c.name == msg.community && env.derive(msg.community, id) == msg.mac
    requires UpdatedEdge(c, msg, id).Some?
    ensures var e := Connected(UpdatedEdge(c, msg, id).value, msg.from);
      e.mac == msg.mac && e.community == msg.community && env.derive(msg.community, e.machineId) == msg.mac
  {}

  /** What the edge of an accepted registration satisfies, in the state with its community. */
  lemma RegisteredEdge(env: Env, s: Node, msg: RegisterMsg)
    requires NodeOk(env, s) && Register(env, s, msg).1.Some?
    ensures WithCommunity(env, s, msg.community, msg.hash, msg.network).Some?
    ensures var s1 := WithCommunity(env, s, msg.community, msg.hash, msg.network).value;
      var e := Register(env, s, msg).1.value;
      && NodeOk(env, s1) && msg.hash in s1.communities && s1.communities[msg.hash].name == msg.community
      && env.hash(msg.community) == msg.hash
      && Register(env, s, msg).0 == Enrolled(env, s1, msg.hash, e, msg.now)
      && e.mac == msg.mac && e.community == msg.community && env.derive(msg.community, e.machineId) == msg.mac
      && (forall h, m :: Member(s, h, m) <==> Member(s1, h, m))
      && s1.cached == s.cached && s1.sockets == s.sockets
  {
    CommunityFound(env, s, msg.community, msg.hash, msg.network);
    var s1 := WithCommunity(env, s, msg.community, msg.hash, msg.network).value;
    var id := Validated(env, msg.mac, msg.secret, msg.community).value;
    assert CommunityOk(env, msg.hash, s1.communities[msg.hash]);
    hide NodeOk, CommunityOk, UpdatedEdge, Connected, WithCommunity, Enrolled;
    UpdatedEdgeIs(env, s1.communities[msg.hash], msg.hash, msg, id);
  }

  lemma EnrolledKeepsOk(env: Env, s: Node, hash: int, e: EdgeState, now: int)
    requires NodeOk(env, s) && hash in s.communities
    requires e.community == s.communities[hash].name && env.derive(e.community, e.machineId) == e.mac
    ensures NodeOk(env, Enrolled(env, s, hash, e, now))
  {
    var s' := Enrolled(env, s, hash, e, now);
    assert CommunityOk(env, hash, s'.communities[hash]);
    forall h, m | h in s'.communities && m in s'.cached && !s'.cached[m].isRegistered
                  && s'.cached[m].community == s'.communities[h].name
      ensures m !in s'.communities[h].edges
    {
      assert s'.cached[m] == s.cached[m];
      assert m !in s.communities[h].edges;
      if h == hash && m == e.mac { assert s.cached[m].community == s.communities[h].name; }
    }
  }

  lemma RegisterKeepsOk(env: Env, s: Node, msg: RegisterMsg)
    requires NodeOk(env, s)
    ensures NodeOk(env, Register(env, s, msg).0)
  {
    if Register(env, s, msg).1.Some? {
      RegisteredEdge(env, s, msg);
      var s1 := WithCommunity(env, s, msg.community, msg.hash, msg.network).value;
      EnrolledKeepsOk(env, s1, msg.hash, Register(env, s, msg).1.value, msg.now);
    }
  }

  lemma WithoutKeepsOk(env: Env, s: Node, hash: int, mac: Mac, now: int)
    requires NodeOk(env, s) && Member(s, hash, mac)
    ensures NodeOk(env, Without(env, s, hash, mac, now))
  {
    var s' := Without(env, s, hash, mac, now);
    forall h, m | h in s'.communities && m in s'.cached && !s'.cached[m].isRegistered
                  && s'.cached[m].community == s'.communities[h].name
      ensures m !in s'.communities[h].edges
    {
      if m == mac {
        assert env.hash(s'.communities[h].name) == h;
        assert h == hash;
      } else {
        assert m !in s.communities[h].edges;
      }
    }
  }

  lemma StepKeepsOk(env: Env, s: Node, step: Step)
    requires NodeOk(env, s)
    ensures NodeOk(env, Next(env, s, step))
  {
    match step
    case RegisterStep(msg) => RegisterKeepsOk(env, s, msg);
    case HeartbeatStep(msg) =>
    case UnregisterStep(msg) =>
      if UnregisterOk(env, s, msg) { WithoutKeepsOk(env, s, msg.hash, msg.mac, msg.now); }
    case ExpireStep(hash, mac, now, expiry) =>
      if Member(s, hash, mac) { WithoutKeepsOk(env, s, hash, mac, now); }
    case ReportStep(hash, mac, infos) =>
  }

  lemma {:induction false} EveryRunKeepsOk(env: Env, s: Node, steps: seq<Step>)
    requires NodeOk(env, s)
    ensures NodeOk(env, Run(env, s, steps))
    decreases |steps|
  {
    if steps != [] {
      EveryRunKeepsOk(env, s, steps[..|steps| - 1]);
      StepKeepsOk(env, Run(env, s, steps[..|steps| - 1]), steps[|steps| - 1]);
    }
  }

  // ---------------------------------------------------------------------------
  // Reachable and unreachable members never overlap
  // ---------------------------------------------------------------------------

  /** The members a community remembers as offline, as the full-state answer lists them. */
  function Offline(s: Node, name: string): set<Mac> {
    set m | m in s.cached && s.cached[m].community == name && !s.cached[m].isRegistered :: s.cached[m].mac
  }

  function Live(s: Node, hash: int): set<Mac> {
    if hash in s.communities then s.communities[hash].edges.Keys else {}
  }

  /** In every reachable state, for every community: no live edge is listed offline, and the
      reachable part of the full-state answer is disjoint from the unreachable part. This needs
      no assumption on how addresses are derived. */
  lemma FullStateIsDisjoint(env: Env, steps: seq<Step>, hash: int)
    requires hash in Run(env, EMPTY_NODE, steps).communities
    ensures var s := Run(env, EMPTY_NODE, steps);
      var c := s.communities[hash];
      && env.hash(c.name) == hash
      && Live(s, hash) !! Offline(s, c.name)
      && c.p2p.Keys <= Live(s, hash)
      && c.p2p.Keys !! Offline(s, c.name)
  {
    EveryRunKeepsOk(env, EMPTY_NODE, steps);
    var s := Run(env, EMPTY_NODE, steps);
    var c := s.communities[hash];
    forall m | m in Offline(s, c.name) ensures m !in Live(s, hash) {
      var k :| k in s.cached && s.cached[k].community == c.name && !s.cached[k].isRegistered && s.cached[k].mac == m;
      assert k == m;
    }
  }

  // ---------------------------------------------------------------------------
  // Who joins, who leaves, and what is put on record
  // ---------------------------------------------------------------------------

  /** The registration this step accepts, if any. */
  function Joined(env: Env, s: Node, step: Step): Option<EdgeId> {
    if step.RegisterStep? && Register(env, s, step.reg).1.Some? then Some(EdgeId(step.reg.hash, step.reg.mac)) else None
  }

  /** The member this step removes, if any. */
  function Left(env: Env, s: Node, step: Step): Option<EdgeId> {
    match step
    case UnregisterStep(msg) => if UnregisterOk(env, s, msg) then Some(EdgeId(msg.hash, msg.mac)) else None
    case ExpireStep(hash, mac, now, expiry) =>
      if Member(s, hash, mac) && Stale(EdgeAt(s, hash, mac), now, expiry) then Some(EdgeId(hash, mac)) else None
    case _ => None
  }

  lemma NextMembers(env: Env, s: Node, step: Step, h: int, m: Mac)
    requires NodeOk(env, s)
    ensures Member(Next(env, s, step), h, m) <==>
      (Member(s, h, m) && Left(env, s, step) != Some(EdgeId(h, m))) || Joined(env, s, step) == Some(EdgeId(h, m))
    ensures Left(env, s, step).Some? ==> Member(s, Left(env, s, step).value.hash, Left(env, s, step).value.mac)
  {
    if step.RegisterStep? { RegisterMembers(env, s, step.reg, h, m); } else { OtherMembers(env, s, step, h, m); }
  }

  lemma RegisterMembers(env: Env, s: Node, msg: RegisterMsg, h: int, m: Mac)
    requires NodeOk(env, s)
    ensures Member(Next(env, s, RegisterStep(msg)), h, m) <==>
      Member(s, h, m) || Joined(env, s, RegisterStep(msg)) == Some(EdgeId(h, m))
  {
    if Register(env, s, msg).1.Some? { RegisteredEdge(env, s, msg); }
  }

  lemma OtherMembers(env: Env, s: Node, step: Step, h: int, m: Mac)
    requires !step.RegisterStep? && NodeOk(env, s)
    ensures Member(Next(env, s, step), h, m) <==> Member(s, h, m) && Left(env, s, step) != Some(EdgeId(h, m))
    ensures Left(env, s, step).Some? ==> Member(s, Left(env, s, step).value.hash, Left(env, s, step).value.mac)
  {
    hide Register;
    if step.HeartbeatStep? && HeartbeatOk(env, s, step.hb) {
      assert CommunityOk(env, step.hb.hash, s.communities[step.hb.hash]);
    }
  }

  /** Communities are never dropped or renamed; a registration's community is there under its name. */
  lemma NextNames(env: Env, s: Node, step: Step, h: int)
    requires NodeOk(env, s)
    ensures h in s.communities ==>
      h in Next(env, s, step).communities && Next(env, s, step).communities[h].name == s.communities[h].name
    ensures Joined(env, s, step).Some? && h == step.reg.hash ==>
      h in Next(env, s, step).communities && Next(env, s, step).communities[h].name == step.reg.community
  {
    if Joined(env, s, step).Some? { RegisteredEdge(env, s, step.reg); }
  }

  /** The record this step writes: its address, the community it is for, and whether it says
      registered. */
  datatype Note = Note(mac: Mac, community: string, isRegistered: bool)

  function Written(env: Env, s: Node, step: Step): Option<Note>
    requires Left(env, s, step).Some? ==> Left(env, s, step).value.hash in s.communities
  {
    var joined, left := Joined(env, s, step), Left(env, s, step);
    if joined.Some? && !Member(s, joined.value.hash, joined.value.mac) then
      Some(Note(step.reg.mac, step.reg.community, true))
    else if left.Some? then Some(Note(left.value.mac, s.communities[left.value.hash].name, false))
    else None
  }

  /** A step changes at most the one record it writes. */
  lemma NextRecords(env: Env, s: Node, step: Step, m: Mac)
    requires NodeOk(env, s)
    ensures Left(env, s, step).Some? ==> Left(env, s, step).value.hash in s.communities
    ensures var w, t := Written(env, s, step), Next(env, s, step).cached;
      if w.Some? && w.value.mac == m
      then m in t && t[m].mac == m && t[m].community == w.value.community && t[m].isRegistered == w.value.isRegistered
      else (m in t <==> m in s.cached) && (m in t ==> t[m] == s.cached[m])
  {
    if Joined(env, s, step).Some? { RegisteredEdge(env, s, step.reg); }
  }

  // ---------------------------------------------------------------------------
  // Everybody who ever registered is in exactly one of the two
  // ---------------------------------------------------------------------------

  /** The registration at this point of the run is accepted. */
  predicate Accepted(env: Env, steps: seq<Step>, i: nat)
    requires i < |steps|
  {
    Joined(env, Run(env, EMPTY_NODE, steps[..i]), steps[i]).Some?
  }

  /** Everybody whose registration in the named community was ever accepted during the run. */
  function EverRegistered(env: Env, steps: seq<Step>, name: string): set<Mac> {
    set i | 0 <= i < |steps| && Accepted(env, steps, i) && steps[i].reg.community == name :: steps[i].reg.mac
  }

  /** The live members of the community of that name. */
  function LiveIn(env: Env, s: Node, name: string): set<Mac> {
    if env.hash(name) in s.communities && s.communities[env.hash(name)].name == name then Live(s, env.hash(name)) else {}
  }

  lemma EverSnoc(env: Env, steps: seq<Step>, step: Step, name: string)
    ensures var s := Run(env, EMPTY_NODE, steps);
      EverRegistered(env, steps + [step], name)
      == EverRegistered(env, steps, name)
         + (if Joined(env, s, step).Some? && step.reg.community == name then {step.reg.mac} else {})
  {
    var all, s := steps + [step], Run(env, EMPTY_NODE, steps);
    assert all[..|steps|] == steps;
    forall i | 0 <= i < |steps| ensures all[i] == steps[i] && Accepted(env, all, i) == Accepted(env, steps, i) {
      assert all[..i] == steps[..i];
    }
    forall m | m in EverRegistered(env, all, name)
      ensures m in EverRegistered(env, steps, name)
           || (Joined(env, s, step).Some? && step.reg.community == name && m == step.reg.mac)
    {
      var i :| 0 <= i < |all| && Accepted(env, all, i) && all[i].reg.community == name && all[i].reg.mac == m;
    }
    forall m | m in EverRegistered(env, steps, name) ensures m in EverRegistered(env, all, name) {
      var i :| 0 <= i < |steps| && Accepted(env, steps, i) && steps[i].reg.community == name && steps[i].reg.mac == m;
      assert all[i].reg.mac == m;
    }
    if Joined(env, s, step).Some? { assert all[|steps|].reg == step.reg; }
  }

  /** Members and records only ever stem from accepted registrations. */
  ghost predicate Stems(env: Env, steps: seq<Step>, s: Node) {
    && (forall h, m :: Member(s, h, m) ==> m in EverRegistered(env, steps, s.communities[h].name))
    && (forall m :: m in s.cached ==> m in EverRegistered(env, steps, s.cached[m].community))
  }

  lemma StemsSnoc(env: Env, steps: seq<Step>, step: Step)
    requires NodeOk(env, Run(env, EMPTY_NODE, steps)) && Stems(env, steps, Run(env, EMPTY_NODE, steps))
    ensures Stems(env, steps + [step], Next(env, Run(env, EMPTY_NODE, steps), step))
  {
    hide NodeOk, Next, EverRegistered, Run;
    var s := Run(env, EMPTY_NODE, steps);
    var t := Next(env, s, step);
    forall h, m | Member(t, h, m) ensures m in EverRegistered(env, steps + [step], t.communities[h].name) {
      NextMembers(env, s, step, h, m);
      NextNames(env, s, step, h);
      EverSnoc(env, steps, step, t.communities[h].name);
    }
    forall m | m in t.cached ensures m in EverRegistered(env, steps + [step], t.cached[m].community) {
      NextRecords(env, s, step, m);
      EverSnoc(env, steps, step, t.cached[m].community);
      if Left(env, s, step).Some? { NextMembers(env, s, step, Left(env, s, step).value.hash, m); }
    }
  }

  lemma RunSnoc(env: Env, steps: seq<Step>, i: nat)
    requires i < |steps|
    ensures steps[..i + 1] == steps[..i] + [steps[i]]
    ensures Run(env, EMPTY_NODE, steps[..i + 1]) == Next(env, Run(env, EMPTY_NODE, steps[..i]), steps[i])
  {
    assert steps[..i + 1][..i] == steps[..i];
  }

  lemma {:induction false} EveryRunStems(env: Env, steps: seq<Step>, i: nat)
    requires i <= |steps|
    ensures Stems(env, steps[..i], Run(env, EMPTY_NODE, steps[..i]))
  {
    if i > 0 {
      EveryRunStems(env, steps, i - 1);
      EveryRunKeepsOk(env, EMPTY_NODE, steps[..i - 1]);
      RunSnoc(env, steps, i - 1);
      StemsSnoc(env, steps[..i - 1], steps[i - 1]);
    }
  }

  /** The partition: the addresses that ever registered in a community are exactly its live edges
      and its offline ones, and no address is both. */
  ghost predicate Partitioned(env: Env, steps: seq<Step>, name: string) {
    var s := Run(env, EMPTY_NODE, steps);
    && EverRegistered(env, steps, name) == LiveIn(env, s, name) + Offline(s, name)
    && LiveIn(env, s, name) !! Offline(s, name)
  }

  ghost predicate AllPartitioned(env: Env, steps: seq<Step>) {
    forall name :: Partitioned(env, steps, name)
  }

  /** The step writes over the record of an address that is offline for another community. */
  predicate Overwrites(env: Env, s: Node, step: Step)
    requires Left(env, s, step).Some? ==> Left(env, s, step).value.hash in s.communities
  {
    var w := Written(env, s, step);
    && w.Some? && w.value.mac in s.cached
    && !s.cached[w.value.mac].isRegistered && s.cached[w.value.mac].community != w.value.community
  }

  /** Who ever registered in a community and is neither live nor offline there. */
  predicate Forgotten(env: Env, steps: seq<Step>, name: string, m: Mac) {
    var s := Run(env, EMPTY_NODE, steps);
    m in EverRegistered(env, steps, name) && m !in LiveIn(env, s, name) && m !in Offline(s, name)
  }

  lemma OfflineIs(env: Env, s: Node, name: string, m: Mac)
    requires NodeOk(env, s)
    ensures m in Offline(s, name) <==> m in s.cached && s.cached[m].community == name && !s.cached[m].isRegistered
  {
    if m in s.cached && s.cached[m].community == name && !s.cached[m].isRegistered { assert s.cached[m].mac == m; }
  }

  /** After every run the partition holds except for those forgotten. */
  lemma PartitionedUnlessForgotten(env: Env, steps: seq<Step>, name: string)
    ensures Partitioned(env, steps, name) <==> forall m :: !Forgotten(env, steps, name, m)
  {
    var s := Run(env, EMPTY_NODE, steps);
    assert steps[..|steps|] == steps;
    EveryRunStems(env, steps, |steps|);
    EveryRunKeepsOk(env, EMPTY_NODE, steps);
    hide Run, EverRegistered;
    forall m | m in LiveIn(env, s, name) ensures m in EverRegistered(env, steps, name) && m !in Offline(s, name) {
      assert Member(s, env.hash(name), m);
      OfflineIs(env, s, name, m);
    }
    forall m | m in Offline(s, name) ensures m in EverRegistered(env, steps, name) { OfflineIs(env, s, name, m); }
    if Partitioned(env, steps, name) {
      forall m ensures !Forgotten(env, steps, name, m) {}
    } else if forall m :: !Forgotten(env, steps, name, m) {
      forall m ensures m in EverRegistered(env, steps, name) <==> m in LiveIn(env, s, name) + Offline(s, name) {
        assert !Forgotten(env, steps, name, m);
      }
    }
  }

  lemma LiveInNext(env: Env, s: Node, step: Step, name: string, m: Mac)
    requires NodeOk(env, s) && NodeOk(env, Next(env, s, step))
    ensures m in LiveIn(env, s, name) && Left(env, s, step) != Some(EdgeId(env.hash(name), m)) ==>
      m in LiveIn(env, Next(env, s, step), name)
    ensures Joined(env, s, step).Some? && step.reg.community == name && step.reg.mac == m ==>
      m in LiveIn(env, Next(env, s, step), name)
    ensures m in LiveIn(env, Next(env, s, step), name) ==>
      m in LiveIn(env, s, name) || (Joined(env, s, step).Some? && step.reg.community == name && step.reg.mac == m)
  {
    var h := env.hash(name);
    NextMembers(env, s, step, h, m);
    NextNames(env, s, step, h);
    if Joined(env, s, step).Some? {
      RegisteredEdge(env, s, step.reg);
      NextNames(env, s, step, step.reg.hash);
    }
  }

  /** Unless the step overwrites an offline record, nobody is forgotten by it. */
  lemma NobodyForgotten(env: Env, steps: seq<Step>, step: Step, name: string, m: Mac)
    requires var s := Run(env, EMPTY_NODE, steps);
      NodeOk(env, s) && NodeOk(env, Next(env, s, step)) && NextIs(env, steps, step)
    requires Left(env, Run(env, EMPTY_NODE, steps), step).Some? ==>
      Left(env, Run(env, EMPTY_NODE, steps), step).value.hash in Run(env, EMPTY_NODE, steps).communities
    requires !Overwrites(env, Run(env, EMPTY_NODE, steps), step) && !Forgotten(env, steps, name, m)
    ensures !Forgotten(env, steps + [step], name, m)
  {
    hide NodeOk, Next, Run, EverRegistered, LiveIn, Joined, Left, Offline;
    var s := Run(env, EMPTY_NODE, steps);
    EverSnoc(env, steps, step, name);
    LiveInNext(env, s, step, name, m);
    NextRecords(env, s, step, m);
    OfflineIs(env, s, name, m);
    OfflineIs(env, Next(env, s, step), name, m);
    if m in LiveIn(env, s, name) && Left(env, s, step) == Some(EdgeId(env.hash(name), m)) {
      LeftName(env, s, step, name, m);
    }
  }

  ghost predicate NextIs(env: Env, steps: seq<Step>, step: Step) {
    Run(env, EMPTY_NODE, steps + [step]) == Next(env, Run(env, EMPTY_NODE, steps), step)
  }

  /** Leaving the community of a name puts the address on record as offline for that name. */
  lemma LeftName(env: Env, s: Node, step: Step, name: string, m: Mac)
    requires NodeOk(env, s) && m in LiveIn(env, s, name) && Left(env, s, step) == Some(EdgeId(env.hash(name), m))
    ensures Written(env, s, step) == Some(Note(m, name, false))
  {}

  /** A step that overwrites an offline record makes somebody forgotten in that community. */
  lemma OverwriteForgets(env: Env, steps: seq<Step>, step: Step)
    requires var s := Run(env, EMPTY_NODE, steps);
      NodeOk(env, s) && NodeOk(env, Next(env, s, step)) && NextIs(env, steps, step) && Stems(env, steps, s)
    requires Left(env, Run(env, EMPTY_NODE, steps), step).Some? ==>
      Left(env, Run(env, EMPTY_NODE, steps), step).value.hash in Run(env, EMPTY_NODE, steps).communities
    requires Overwrites(env, Run(env, EMPTY_NODE, steps), step)
    ensures var s := Run(env, EMPTY_NODE, steps);
      var m := Written(env, s, step).value.mac;
      Forgotten(env, steps + [step], s.cached[m].community, m)
  {
    var s := Run(env, EMPTY_NODE, steps);
    var m := Written(env, s, step).value.mac;
    var name := s.cached[m].community;
    OfflineNotLive(env, s, name, m);
    hide NodeOk, Next, Run, EverRegistered, LiveIn, Offline;
    EverSnoc(env, steps, step, name);
    LiveInNext(env, s, step, name, m);
    NextRecords(env, s, step, m);
    OfflineIs(env, Next(env, s, step), name, m);
  }

  lemma OfflineNotLive(env: Env, s: Node, name: string, m: Mac)
    requires NodeOk(env, s) && m in s.cached && s.cached[m].community == name && !s.cached[m].isRegistered
    ensures m !in LiveIn(env, s, name)
  {}

  /** The step at this point of the run overwrites an offline record. */
  predicate OverwritesAt(env: Env, steps: seq<Step>, i: nat)
    requires i < |steps|
  {
    var s := Run(env, EMPTY_NODE, steps[..i]);
    && (Left(env, s, steps[i]).Some? ==> Left(env, s, steps[i]).value.hash in s.communities)
    && Overwrites(env, s, steps[i])
  }

  lemma StepFacts(env: Env, steps: seq<Step>, i: nat)
    requires i < |steps|
    ensures var s := Run(env, EMPTY_NODE, steps[..i]);
      && NodeOk(env, s) && NodeOk(env, Next(env, s, steps[i])) && Stems(env, steps[..i], s)
      && steps[..i + 1] == steps[..i] + [steps[i]] && NextIs(env, steps[..i], steps[i])
      && (Left(env, s, steps[i]).Some? ==> Left(env, s, steps[i]).value.hash in s.communities)
  {
    var s := Run(env, EMPTY_NODE, steps[..i]);
    EveryRunKeepsOk(env, EMPTY_NODE, steps[..i]);
    StepKeepsOk(env, s, steps[i]);
    EveryRunStems(env, steps, i);
    RunSnoc(env, steps, i);
    NextRecords(env, s, steps[i], Mac([]));
  }

  lemma {:induction false} NobodyForgottenUpTo(env: Env, steps: seq<Step>, i: nat, name: string, m: Mac)
    requires i <= |steps| && forall j :: 0 <= j < i ==> !OverwritesAt(env, steps, j)
    ensures !Forgotten(env, steps[..i], name, m)
  {
    hide Forgotten, Overwrites, NodeOk, Next, Run, Left, NextIs, Stems;
    if i == 0 {
      NobodyYet(env, name, m);
    } else {
      NobodyForgottenUpTo(env, steps, i - 1, name, m);
      StepFacts(env, steps, i - 1);
      assert !OverwritesAt(env, steps, i - 1);
      NobodyForgotten(env, steps[..i - 1], steps[i - 1], name, m);
    }
  }

  lemma NobodyYet(env: Env, name: string, m: Mac)
    ensures !Forgotten(env, [], name, m)
  {}

  /** Exactly when the partition holds: for every community at every point of a run if and only if
      no step of the run overwrites the record of an address that is offline for another
      community. */
  lemma PartitionExactly(env: Env, steps: seq<Step>)
    ensures (forall i :: 0 <= i <= |steps| ==> AllPartitioned(env, steps[..i]))
       <==> (forall i :: 0 <= i < |steps| ==> !OverwritesAt(env, steps, i))
  {
    hide Partitioned, Forgotten, Overwrites, NodeOk, Next, Run, Left, NextIs, Stems, Written;
    if forall i :: 0 <= i < |steps| ==> !OverwritesAt(env, steps, i) {
      forall i | 0 <= i <= |steps| ensures AllPartitioned(env, steps[..i]) {
        forall name ensures Partitioned(env, steps[..i], name) {
          forall m ensures !Forgotten(env, steps[..i], name, m) { NobodyForgottenUpTo(env, steps, i, name, m); }
          PartitionedUnlessForgotten(env, steps[..i], name);
        }
      }
    } else {
      var i :| 0 <= i < |steps| && OverwritesAt(env, steps, i);
      OverwriteBreaks(env, steps, i);
    }
  }

  lemma OverwriteBreaks(env: Env, steps: seq<Step>, i: nat)
    requires i < |steps| && OverwritesAt(env, steps, i)
    ensures !AllPartitioned(env, steps[..i + 1])
  {
    hide Partitioned, Forgotten, NodeOk, Next, Run, Left, NextIs, Stems;
    StepFacts(env, steps, i);
    OverwriteForgets(env, steps[..i], steps[i]);
    var s := Run(env, EMPTY_NODE, steps[..i]);
    var m := Written(env, s, steps[i]).value.mac;
    PartitionedUnlessForgotten(env, steps[..i + 1], s.cached[m].community);
  }

  // ---------------------------------------------------------------------------
  // Runs in which every address keeps to one community
  // ---------------------------------------------------------------------------

  /** No two accepted registrations of one address name different communities. */
  ghost predicate OneCommunityEach(env: Env, steps: seq<Step>) {
    forall i, j ::
      (0 <= i < |steps| && 0 <= j < |steps| && Accepted(env, steps, i) && Accepted(env, steps, j)
       && steps[i].reg.mac == steps[j].reg.mac) ==> steps[i].reg.community == steps[j].reg.community
  }

  lemma RegisteredAt(env: Env, steps: seq<Step>, i: nat, m: Mac, name: string) returns (a: nat)
    requires i <= |steps| && m in EverRegistered(env, steps[..i], name)
    ensures a < i && Accepted(env, steps, a) && steps[a].RegisterStep?
    ensures steps[a].reg.community == name && steps[a].reg.mac == m
  {
    hide Run;
    a :| 0 <= a < i && Accepted(env, steps[..i], a) && steps[..i][a].reg.community == name && steps[..i][a].reg.mac == m;
    assert steps[..i][..a] == steps[..a];
  }

  lemma EverOnce(env: Env, steps: seq<Step>, i: nat, m: Mac, name: string, other: string)
    requires OneCommunityEach(env, steps) && i <= |steps|
    requires m in EverRegistered(env, steps[..i], name) && m in EverRegistered(env, steps[..i], other)
    ensures name == other
  {
    var a := RegisteredAt(env, steps, i, m, name);
    var b := RegisteredAt(env, steps, i, m, other);
    hide Accepted, EverRegistered;
  }

  /** In such a run every address that ever registered in a community is either live or offline
      there, at every point and never both. */
  lemma OnlineOfflinePartition(env: Env, steps: seq<Step>, i: nat, name: string)
    requires OneCommunityEach(env, steps) && i <= |steps|
    ensures Partitioned(env, steps[..i], name)
  {
    hide Partitioned, OneCommunityEach, OverwritesAt;
    forall j | 0 <= j < |steps| ensures !OverwritesAt(env, steps, j) { NeverOverwrites(env, steps, j); }
    PartitionExactly(env, steps);
    assert AllPartitioned(env, steps[..i]);
  }

  lemma NeverOverwrites(env: Env, steps: seq<Step>, i: nat)
    requires OneCommunityEach(env, steps) && i < |steps|
    ensures !OverwritesAt(env, steps, i)
  {
    var s := Run(env, EMPTY_NODE, steps[..i]);
    var t := Next(env, s, steps[i]);
    StepFacts(env, steps, i);
    if OverwritesAt(env, steps, i) {
      hide Run, Next, EverRegistered, NodeOk, OneCommunityEach;
      var m := Written(env, s, steps[i]).value.mac;
      StepFacts(env, steps, i);
      EveryRunStems(env, steps, i + 1);
      EverSnoc(env, steps[..i], steps[i], s.cached[m].community);
      NextRecords(env, s, steps[i], m);
      EverOnce(env, steps, i + 1, m, s.cached[m].community, t.cached[m].community);
    }
  }

  // ---------------------------------------------------------------------------
  // Addresses live in one community only
  // ---------------------------------------------------------------------------

  /** No address is live in two communities. */
  ghost predicate Apart(s: Node) {
    forall h, k, m :: Member(s, h, m) && Member(s, k, m) ==> h == k
  }

  /** The address is live in some other community than this one. */
  predicate LiveElsewhere(s: Node, hash: int, mac: Mac) {
    exists h :: h in s.communities && h != hash && Member(s, h, mac)
  }

  /** The step accepts a registration for an address that is live in another community. */
  predicate Collides(env: Env, s: Node, step: Step) {
    Joined(env, s, step).Some? && LiveElsewhere(s, step.reg.hash, step.reg.mac)
  }

  lemma ApartStep(env: Env, s: Node, step: Step)
    requires NodeOk(env, s) && Apart(s)
    ensures Apart(Next(env, s, step)) <==> !Collides(env, s, step)
  {
    hide NodeOk, Next, Joined, Left;
    var t := Next(env, s, step);
    JoinedIs(env, s, step);
    if Collides(env, s, step) {
      var h :| h in s.communities && h != step.reg.hash && Member(s, h, step.reg.mac);
      NextMembers(env, s, step, h, step.reg.mac);
      NextMembers(env, s, step, step.reg.hash, step.reg.mac);
    } else {
      forall h, k, m | Member(t, h, m) && Member(t, k, m) ensures h == k {
        NextMembers(env, s, step, h, m);
        NextMembers(env, s, step, k, m);
      }
    }
  }

  lemma JoinedIs(env: Env, s: Node, step: Step)
    ensures Joined(env, s, step).Some? ==>
      step.RegisterStep? && Joined(env, s, step) == Some(EdgeId(step.reg.hash, step.reg.mac)) && Left(env, s, step) == None
  {}

  ghost predicate CollidesAt(env: Env, steps: seq<Step>, i: nat)
    requires i < |steps|
  {
    Collides(env, Run(env, EMPTY_NODE, steps[..i]), steps[i])
  }

  lemma {:induction false} ApartUpTo(env: Env, steps: seq<Step>, i: nat)
    requires i <= |steps| && forall j :: 0 <= j < i ==> !CollidesAt(env, steps, j)
    ensures Apart(Run(env, EMPTY_NODE, steps[..i]))
  {
    if i > 0 {
      ApartUpTo(env, steps, i - 1);
      assert !CollidesAt(env, steps, i - 1);
      EveryRunKeepsOk(env, EMPTY_NODE, steps[..i - 1]);
      RunSnoc(env, steps, i - 1);
      ApartStep(env, Run(env, EMPTY_NODE, steps[..i - 1]), steps[i - 1]);
    }
  }

  /** No address is live in two communities at any point of a run if and only if the run accepts no
      registration for an address that is live in another community. */
  lemma ApartExactly(env: Env, steps: seq<Step>)
    ensures (forall i :: 0 <= i <= |steps| ==> Apart(Run(env, EMPTY_NODE, steps[..i])))
       <==> (forall i :: 0 <= i < |steps| ==> !CollidesAt(env, steps, i))
  {
    hide Run, Apart, Collides, NodeOk;
    if forall i :: 0 <= i < |steps| ==> !CollidesAt(env, steps, i) {
      forall i | 0 <= i <= |steps| ensures Apart(Run(env, EMPTY_NODE, steps[..i])) { ApartUpTo(env, steps, i); }
    } else if forall i :: 0 <= i <= |steps| ==> Apart(Run(env, EMPTY_NODE, steps[..i])) {
      var i :| 0 <= i < |steps| && CollidesAt(env, steps, i);
      EveryRunKeepsOk(env, EMPTY_NODE, steps[..i]);
      RunSnoc(env, steps, i);
      assert Apart(Run(env, EMPTY_NODE, steps[..i])) && Apart(Run(env, EMPTY_NODE, steps[..i + 1]));
      ApartStep(env, Run(env, EMPTY_NODE, steps[..i]), steps[i]);
    }
  }

  /** When every address keeps to one community, no registration collides. */
  lemma OneCommunityNeverCollides(env: Env, steps: seq<Step>, i: nat)
    requires OneCommunityEach(env, steps) && i < |steps|
    ensures !CollidesAt(env, steps, i)
  {
    var s := Run(env, EMPTY_NODE, steps[..i]);
    if CollidesAt(env, steps, i) {
      StepFacts(env, steps, i);
      RegisteredEdge(env, s, steps[i].reg);
      var h :| h in s.communities && h != steps[i].reg.hash && Member(s, h, steps[i].reg.mac);
      hide Run, Next, EverRegistered, OneCommunityEach, Register;
      EverSnoc(env, steps[..i], steps[i], s.communities[h].name);
      EverSnoc(env, steps[..i], steps[i], steps[i].reg.community);
      EverOnce(env, steps, i + 1, steps[i].reg.mac, s.communities[h].name, steps[i].reg.community);
    }
  }
}
