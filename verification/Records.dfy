/** What the supernode has on record, read off the messages. Over every run, each field of a member's
    record, each socket on record, each offline record and each report is the one given by a certain
    message of the run, found by looking back from the end. Nothing here is stated in terms of the
    updates themselves. */
module Records {
  import opened Bytes
  import opened Peers
  import opened Membership
  import opened Partition
  import opened Cleanup

  // ---------------------------------------------------------------------------
  // Who gets in and who gets out
  // ---------------------------------------------------------------------------

  /** The secret holds a machine id for which the address is the one derived in the community. */
  ghost predicate Proves(env: Env, secret: seq<byte>, community: string, mac: Mac) {
    exists id :: env.decrypt(secret) == Some(id) && env.derive(community, id) == mac
  }

  /** A registration is accepted if and only if it proves its address, names its hash, its community
      is there under that name or can be opened, and the edge is known or gets a virtual address. */
  lemma JoinsExactly(env: Env, s: Node, msg: RegisterMsg)
    requires NodeOk(env, s)
    ensures Joined(env, s, RegisterStep(msg)) == Some(EdgeId(msg.hash, msg.mac))
       <==> && Proves(env, msg.secret, msg.community, msg.mac) && env.hash(msg.community) == msg.hash
            && (if msg.hash in s.communities then s.communities[msg.hash].name == msg.community else msg.network)
            && (Member(s, msg.hash, msg.mac) || msg.vip.Some?)
    ensures Joined(env, s, RegisterStep(msg)) in {None, Some(EdgeId(msg.hash, msg.mac))}
  {
    if msg.hash in s.communities { assert CommunityOk(env, msg.hash, s.communities[msg.hash]); }
  }

  /** A member leaves in a step if and only if the step is a removal request for it that proves the
      address, or a cleanup that finds it silent for longer than the expiry. */
  lemma LeavesExactly(env: Env, s: Node, step: Step, x: EdgeId)
    ensures Left(env, s, step) == Some(x)
       <==> && Member(s, x.hash, x.mac)
            && match step
               case UnregisterStep(msg) =>
                 EdgeId(msg.hash, msg.mac) == x && Proves(env, msg.secret, msg.community, msg.mac)
               case ExpireStep(hash, mac, now, expiry) =>
                 EdgeId(hash, mac) == x && now - EdgeAt(s, hash, mac).lastHeartbeat > expiry
               case _ => false
  {}

  // ---------------------------------------------------------------------------
  // Looking back
  // ---------------------------------------------------------------------------

  /** The state after the first `n` messages. */
  function At(env: Env, steps: seq<Step>, n: nat): Node
    requires n <= |steps|
  {
    Run(env, EMPTY_NODE, steps[..n])
  }

  predicate MemberAt(env: Env, steps: seq<Step>, n: nat, x: EdgeId)
    requires n <= |steps|
  {
    Member(At(env, steps, n), x.hash, x.mac)
  }

  /** Message `i` is an accepted registration or an accepted heartbeat of this edge. */
  predicate Contact(env: Env, steps: seq<Step>, i: nat, x: EdgeId)
    requires i < |steps|
  {
    match steps[i]
    case RegisterStep(reg) => Joined(env, At(env, steps, i), steps[i]) == Some(x)
    case HeartbeatStep(hb) => EdgeId(hb.hash, hb.mac) == x && HeartbeatOk(env, At(env, steps, i), hb)
    case _ => false
  }

  datatype Kind = Any | Address | Connection

  /** Heartbeats always say where they come from; registrations only when they come from an address.
      Connection ids come with registrations over a connection. */
  predicate OfKind(step: Step, kind: Kind) {
    match kind
    case Any => true
    case Address => step.HeartbeatStep? || (step.RegisterStep? && step.reg.from.Ip?)
    case Connection => step.RegisterStep? && step.reg.from.Conn?
  }

  predicate Speaks(env: Env, steps: seq<Step>, i: nat, x: EdgeId, kind: Kind)
    requires i < |steps|
  {
    Contact(env, steps, i, x) && OfKind(steps[i], kind)
  }

  function TimeIn(step: Step): int
    requires step.RegisterStep? || step.HeartbeatStep?
  {
    if step.RegisterStep? then step.reg.now else step.hb.now
  }

  function SequenceIn(step: Step): int
    requires step.RegisterStep? || step.HeartbeatStep?
  {
    if step.RegisterStep? then step.reg.sequence else step.hb.sequence
  }

  /** The address a message came from; over a connection there is none. */
  function AddressIn(step: Step): (string, int)
    requires step.RegisterStep? || step.HeartbeatStep?
  {
    var from := if step.RegisterStep? then step.reg.from else step.hb.from;
    if from.Ip? then (from.ip, from.port) else ("", 0)
  }

  /** Message `c` made the edge a member, and it has been one ever since. */
  ghost predicate CreatedAt(env: Env, steps: seq<Step>, n: nat, c: nat, x: EdgeId)
    requires n <= |steps|
  {
    && c < n && steps[c].RegisterStep? && Contact(env, steps, c, x) && !MemberAt(env, steps, c, x)
    && (forall j :: c < j <= n ==> MemberAt(env, steps, j, x))
  }

  /** The last message of this kind from the edge, not before `c`. */
  ghost predicate LastAt(env: Env, steps: seq<Step>, n: nat, c: nat, t: nat, x: EdgeId, kind: Kind)
    requires n <= |steps|
  {
    && c <= t < n && Speaks(env, steps, t, x, kind)
    && (forall j :: t < j < n ==> !Speaks(env, steps, j, x, kind))
  }

  ghost predicate NoneSince(env: Env, steps: seq<Step>, n: nat, c: nat, x: EdgeId, kind: Kind)
    requires n <= |steps|
  {
    forall j :: c <= j < n ==> !Speaks(env, steps, j, x, kind)
  }

  // What single fields should be.

  ghost predicate IsIdentity(env: Env, reg: RegisterMsg, e: EdgeState) {
    && e.mac == reg.mac && e.community == reg.community && e.desc == reg.desc
    && reg.vip == Some(e.virtualIp) && env.decrypt(reg.secret) == Some(e.machineId)
  }

  ghost predicate IsTiming(env: Env, steps: seq<Step>, n: nat, c: nat, x: EdgeId, e: EdgeState)
    requires n <= |steps|
  {
    exists t: nat :: LastAt(env, steps, n, c, t, x, Any)
      && e.lastHeartbeat == TimeIn(steps[t]) && e.lastSequence == SequenceIn(steps[t])
  }

  /** The address of the last message that says one since the edge came; without one, none. */
  ghost predicate IsAddress(env: Env, steps: seq<Step>, n: nat, c: nat, x: EdgeId, ip: string, port: int)
    requires n <= |steps|
  {
    || (NoneSince(env, steps, n, c, x, Address) && (ip, port) == ("", 0))
    || exists t: nat :: LastAt(env, steps, n, c, t, x, Address) && (ip, port) == AddressIn(steps[t])
  }

  ghost predicate IsConnection(env: Env, steps: seq<Step>, n: nat, c: nat, x: EdgeId, id: string)
    requires n <= |steps|
  {
    || (NoneSince(env, steps, n, c, x, Connection) && id == "")
    || exists t: nat :: LastAt(env, steps, n, c, t, x, Connection) && id == steps[t].reg.from.connId
  }

  ghost predicate IsRecord(env: Env, steps: seq<Step>, n: nat, c: nat, x: EdgeId, e: EdgeState)
    requires n <= |steps|
  {
    && CreatedAt(env, steps, n, c, x) && IsIdentity(env, steps[c].reg, e) && IsTiming(env, steps, n, c, x, e)
    && IsAddress(env, steps, n, c, x, e.publicIp, e.publicPort) && IsConnection(env, steps, n, c, x, e.connId)
  }

  // ---------------------------------------------------------------------------
  // One message
  // ---------------------------------------------------------------------------

  /** What a message of the edge changes, field by field. */
  ghost predicate Changes(step: Step, e: EdgeState, f: EdgeState)
    requires step.RegisterStep? || step.HeartbeatStep?
  {
    && f.mac == e.mac && f.community == e.community && f.desc == e.desc
    && f.virtualIp == e.virtualIp && f.machineId == e.machineId
    && f.lastHeartbeat == TimeIn(step) && f.lastSequence == SequenceIn(step)
    && (f.publicIp, f.publicPort) == (if OfKind(step, Address) then AddressIn(step) else (e.publicIp, e.publicPort))
    && f.connId == (if OfKind(step, Connection) then step.reg.from.connId else e.connId)
  }

  lemma RegisterChanges(env: Env, s: Node, step: Step, x: EdgeId)
    requires NodeOk(env, s) && step.RegisterStep? && Joined(env, s, step) == Some(x)
    ensures Member(Next(env, s, step), x.hash, x.mac)
    ensures var f := EdgeAt(Next(env, s, step), x.hash, x.mac);
      if Member(s, x.hash, x.mac) then Changes(step, EdgeAt(s, x.hash, x.mac), f)
      else && IsIdentity(env, step.reg, f) && f.lastHeartbeat == TimeIn(step) && f.lastSequence == SequenceIn(step)
           && (f.publicIp, f.publicPort) == AddressIn(step)
           && f.connId == if step.reg.from.Conn? then step.reg.from.connId else ""
  {
    RegisteredEdge(env, s, step.reg);
    if x.hash in s.communities { assert CommunityOk(env, x.hash, s.communities[x.hash]); }
  }

  lemma HeartbeatChanges(env: Env, s: Node, hb: HeartbeatMsg)
    requires NodeOk(env, s) && HeartbeatOk(env, s, hb)
    ensures var t := Next(env, s, HeartbeatStep(hb));
      Member(t, hb.hash, hb.mac)
      && Changes(HeartbeatStep(hb), EdgeAt(s, hb.hash, hb.mac), EdgeAt(t, hb.hash, hb.mac))
  {
    assert CommunityOk(env, hb.hash, s.communities[hb.hash]);
  }

  /** Any other message leaves the record of a member that stays alone. */
  lemma OthersStay(env: Env, steps: seq<Step>, i: nat, x: EdgeId)
    requires i < |steps| && MemberAt(env, steps, i, x) && MemberAt(env, steps, i + 1, x) && !Contact(env, steps, i, x)
    ensures EdgeAt(At(env, steps, i + 1), x.hash, x.mac) == EdgeAt(At(env, steps, i), x.hash, x.mac)
  {
    RunSnoc(env, steps, i);
    EveryRunKeepsOk(env, EMPTY_NODE, steps[..i]);
    OtherEdges(env, At(env, steps, i), steps[i], x);
  }

  lemma OtherEdges(env: Env, s: Node, step: Step, x: EdgeId)
    requires NodeOk(env, s) && Member(s, x.hash, x.mac) && Member(Next(env, s, step), x.hash, x.mac)
    requires step.RegisterStep? ==> Joined(env, s, step) != Some(x)
    requires step.HeartbeatStep? ==> EdgeId(step.hb.hash, step.hb.mac) != x || !HeartbeatOk(env, s, step.hb)
    ensures EdgeAt(Next(env, s, step), x.hash, x.mac) == EdgeAt(s, x.hash, x.mac)
  {
    match step
    case RegisterStep(msg) =>
      if Register(env, s, msg).1.Some? { RegisteredEdge(env, s, msg); }
    case HeartbeatStep(msg) =>
      if HeartbeatOk(env, s, msg) { assert CommunityOk(env, msg.hash, s.communities[msg.hash]); }
    case _ =>
  }

  // ---------------------------------------------------------------------------
  // Whole runs
  // ---------------------------------------------------------------------------

  lemma LastNext(env: Env, steps: seq<Step>, n: nat, c: nat, t: nat, x: EdgeId, kind: Kind)
    requires n < |steps|
    ensures LastAt(env, steps, n, c, t, x, kind) && !Speaks(env, steps, n, x, kind) ==> LastAt(env, steps, n + 1, c, t, x, kind)
    ensures NoneSince(env, steps, n, c, x, kind) && !Speaks(env, steps, n, x, kind) ==> NoneSince(env, steps, n + 1, c, x, kind)
    ensures c <= n && Speaks(env, steps, n, x, kind) ==> LastAt(env, steps, n + 1, c, n, x, kind)
  {
    hide Speaks;
  }

  lemma TimingNext(env: Env, steps: seq<Step>, n: nat, c: nat, x: EdgeId, e: EdgeState, f: EdgeState)
    requires c <= n < |steps|
    requires if Contact(env, steps, n, x) then f.lastHeartbeat == TimeIn(steps[n]) && f.lastSequence == SequenceIn(steps[n])
             else IsTiming(env, steps, n, c, x, e) && f == e
    ensures IsTiming(env, steps, n + 1, c, x, f)
  {
    hide At, Joined, HeartbeatOk;
    if Contact(env, steps, n, x) {
      LastNext(env, steps, n, c, n, x, Any);
    } else {
      var t: nat :| LastAt(env, steps, n, c, t, x, Any)
        && e.lastHeartbeat == TimeIn(steps[t]) && e.lastSequence == SequenceIn(steps[t]);
      LastNext(env, steps, n, c, t, x, Any);
    }
  }

  lemma AddressNext(env: Env, steps: seq<Step>, n: nat, c: nat, x: EdgeId, ip: string, port: int, ip': string, port': int)
    requires c <= n < |steps|
    requires if Speaks(env, steps, n, x, Address) then (ip', port') == AddressIn(steps[n])
             else IsAddress(env, steps, n, c, x, ip, port) && (ip', port') == (ip, port)
    ensures IsAddress(env, steps, n + 1, c, x, ip', port')
  {
    hide At, Joined, HeartbeatOk;
    if Speaks(env, steps, n, x, Address) {
      LastNext(env, steps, n, c, n, x, Address);
    } else if NoneSince(env, steps, n, c, x, Address) && (ip, port) == ("", 0) {
      LastNext(env, steps, n, c, n, x, Address);
    } else {
      var t: nat :| LastAt(env, steps, n, c, t, x, Address) && (ip, port) == AddressIn(steps[t]);
      LastNext(env, steps, n, c, t, x, Address);
    }
  }

  lemma ConnectionNext(env: Env, steps: seq<Step>, n: nat, c: nat, x: EdgeId, id: string, id': string)
    requires c <= n < |steps|
    requires if Speaks(env, steps, n, x, Connection) then id' == steps[n].reg.from.connId
             else IsConnection(env, steps, n, c, x, id) && id' == id
    ensures IsConnection(env, steps, n + 1, c, x, id')
  {
    hide At, Joined, HeartbeatOk;
    if Speaks(env, steps, n, x, Connection) {
      LastNext(env, steps, n, c, n, x, Connection);
    } else if NoneSince(env, steps, n, c, x, Connection) && id == "" {
      LastNext(env, steps, n, c, n, x, Connection);
    } else {
      var t: nat :| LastAt(env, steps, n, c, t, x, Connection) && id == steps[t].reg.from.connId;
      LastNext(env, steps, n, c, t, x, Connection);
    }
  }

  /** What the message whose turn it is does to the record of a member. */
  lemma MessageChanges(env: Env, steps: seq<Step>, n: nat, x: EdgeId)
    requires n < |steps| && MemberAt(env, steps, n, x) && MemberAt(env, steps, n + 1, x)
    ensures var e, f := EdgeAt(At(env, steps, n), x.hash, x.mac), EdgeAt(At(env, steps, n + 1), x.hash, x.mac);
      if Contact(env, steps, n, x) then Changes(steps[n], e, f) else f == e
  {
    hide Next, NodeOk, Changes, HeartbeatOk, Joined;
    RunSnoc(env, steps, n);
    EveryRunKeepsOk(env, EMPTY_NODE, steps[..n]);
    if !Contact(env, steps, n, x) {
      OthersStay(env, steps, n, x);
    } else if steps[n].RegisterStep? {
      RegisterChanges(env, At(env, steps, n), steps[n], x);
    } else {
      HeartbeatChanges(env, At(env, steps, n), steps[n].hb);
    }
  }

  lemma RecordKept(env: Env, steps: seq<Step>, n: nat, c: nat, x: EdgeId, e: EdgeState, f: EdgeState)
    requires n < |steps| && IsRecord(env, steps, n, c, x, e) && MemberAt(env, steps, n + 1, x)
    requires if Contact(env, steps, n, x) then Changes(steps[n], e, f) else f == e
    ensures IsRecord(env, steps, n + 1, c, x, f)
  {
    hide At, Contact, IsTiming, IsAddress, IsConnection, MemberAt, AddressIn, TimeIn, SequenceIn;
    TimingNext(env, steps, n, c, x, e, f);
    AddressNext(env, steps, n, c, x, e.publicIp, e.publicPort, f.publicIp, f.publicPort);
    ConnectionNext(env, steps, n, c, x, e.connId, f.connId);
  }

  lemma RecordStays(env: Env, steps: seq<Step>, n: nat, c: nat, x: EdgeId)
    requires n < |steps| && MemberAt(env, steps, n, x) && MemberAt(env, steps, n + 1, x)
    requires IsRecord(env, steps, n, c, x, EdgeAt(At(env, steps, n), x.hash, x.mac))
    ensures IsRecord(env, steps, n + 1, c, x, EdgeAt(At(env, steps, n + 1), x.hash, x.mac))
  {
    hide IsRecord, Contact, Changes, Run;
    MessageChanges(env, steps, n, x);
    RecordKept(env, steps, n, c, x, EdgeAt(At(env, steps, n), x.hash, x.mac), EdgeAt(At(env, steps, n + 1), x.hash, x.mac));
  }

  /** Only an accepted registration makes a member. */
  lemma NewMember(env: Env, steps: seq<Step>, n: nat, x: EdgeId)
    requires n < |steps| && !MemberAt(env, steps, n, x) && MemberAt(env, steps, n + 1, x)
    ensures steps[n].RegisterStep? && Contact(env, steps, n, x)
    ensures var f := EdgeAt(At(env, steps, n + 1), x.hash, x.mac);
      && IsIdentity(env, steps[n].reg, f) && f.lastHeartbeat == TimeIn(steps[n]) && f.lastSequence == SequenceIn(steps[n])
      && (f.publicIp, f.publicPort) == AddressIn(steps[n])
      && f.connId == if steps[n].reg.from.Conn? then steps[n].reg.from.connId else ""
  {
    hide Next, NodeOk, Joined, Left, IsIdentity, AddressIn, TimeIn, SequenceIn;
    RunSnoc(env, steps, n);
    EveryRunKeepsOk(env, EMPTY_NODE, steps[..n]);
    NextMembers(env, At(env, steps, n), steps[n], x.hash, x.mac);
    JoinedIs(env, At(env, steps, n), steps[n]);
    RegisterChanges(env, At(env, steps, n), steps[n], x);
  }

  lemma RecordMade(env: Env, steps: seq<Step>, n: nat, x: EdgeId, f: EdgeState)
    requires n < |steps| && !MemberAt(env, steps, n, x) && MemberAt(env, steps, n + 1, x)
    requires steps[n].RegisterStep? && Contact(env, steps, n, x)
    requires IsIdentity(env, steps[n].reg, f) && f.lastHeartbeat == TimeIn(steps[n]) && f.lastSequence == SequenceIn(steps[n])
    requires (f.publicIp, f.publicPort) == AddressIn(steps[n])
    requires f.connId == if steps[n].reg.from.Conn? then steps[n].reg.from.connId else ""
    ensures IsRecord(env, steps, n + 1, n, x, f)
  {
    hide At, Contact, IsTiming, IsAddress, IsConnection, MemberAt, IsIdentity;
    NobodyYetSince(env, steps, n, x);
    TimingNext(env, steps, n, n, x, f, f);
    AddressNext(env, steps, n, n, x, "", 0, f.publicIp, f.publicPort);
    ConnectionNext(env, steps, n, n, x, "", f.connId);
  }

  lemma RecordStarts(env: Env, steps: seq<Step>, n: nat, x: EdgeId)
    requires n < |steps| && !MemberAt(env, steps, n, x) && MemberAt(env, steps, n + 1, x)
    ensures IsRecord(env, steps, n + 1, n, x, EdgeAt(At(env, steps, n + 1), x.hash, x.mac))
  {
    hide IsRecord, Contact, Run, IsIdentity, AddressIn, TimeIn, SequenceIn;
    NewMember(env, steps, n, x);
    RecordMade(env, steps, n, x, EdgeAt(At(env, steps, n + 1), x.hash, x.mac));
  }

  lemma NobodyYetSince(env: Env, steps: seq<Step>, n: nat, x: EdgeId)
    requires n <= |steps|
    ensures IsAddress(env, steps, n, n, x, "", 0) && IsConnection(env, steps, n, n, x, "")
  {}

  /** In every run every member has a record that its own messages made: the registration that
      created it says who it is, its last message when it was heard of, and its last messages that
      say so where it is and by which connection. */
  lemma {:induction false} EveryRecord(env: Env, steps: seq<Step>, n: nat, x: EdgeId) returns (c: nat)
    requires n <= |steps| && MemberAt(env, steps, n, x)
    ensures IsRecord(env, steps, n, c, x, EdgeAt(At(env, steps, n), x.hash, x.mac))
  {
    hide IsRecord, Next, Contact;
    if n > 0 {
      if MemberAt(env, steps, n - 1, x) {
        c := EveryRecord(env, steps, n - 1, x);
        RecordStays(env, steps, n - 1, c, x);
      } else {
        RecordStarts(env, steps, n - 1, x);
        c := n - 1;
      }
    }
  }

  /** Only one message can have created the edge that is a member now. */
  lemma CreatedOnce(env: Env, steps: seq<Step>, n: nat, x: EdgeId, c: nat, d: nat)
    requires n <= |steps| && CreatedAt(env, steps, n, c, x) && CreatedAt(env, steps, n, d, x)
    ensures c == d
  {}

  /** The time on record is that of the edge's last accepted message, whichever kind it is. */
  lemma HeardLast(env: Env, steps: seq<Step>, n: nat, x: EdgeId, t: nat)
    requires t < n <= |steps| && MemberAt(env, steps, n, x)
    requires Contact(env, steps, t, x) && forall j :: t < j < n ==> !Contact(env, steps, j, x)
    ensures var e := EdgeAt(At(env, steps, n), x.hash, x.mac);
      e.lastHeartbeat == TimeIn(steps[t]) && e.lastSequence == SequenceIn(steps[t])
  {
    var c := EveryRecord(env, steps, n, x);
    var e := EdgeAt(At(env, steps, n), x.hash, x.mac);
    hide Contact, At, MemberAt, IsAddress, IsConnection, IsIdentity, LastAt;
    var u: nat :| LastAt(env, steps, n, c, u, x, Any)
      && e.lastHeartbeat == TimeIn(steps[u]) && e.lastSequence == SequenceIn(steps[u]);
    LastIs(env, steps, n, c, u, x, t);
  }

  lemma LastIs(env: Env, steps: seq<Step>, n: nat, c: nat, u: nat, x: EdgeId, t: nat)
    requires t < n <= |steps| && LastAt(env, steps, n, c, u, x, Any)
    requires Contact(env, steps, t, x) && forall j :: t < j < n ==> !Contact(env, steps, j, x)
    ensures u == t
  {
    hide Contact;
    assert Speaks(env, steps, u, x, Any) && Speaks(env, steps, t, x, Any);
  }

  /** A cleanup finds a member silent if and only if the last message accepted from it is older than
      the expiry. */
  lemma SilentExactly(env: Env, steps: seq<Step>, x: EdgeId, t: nat, now: int, expiry: int)
    requires t < |steps| && MemberAt(env, steps, |steps|, x)
    requires Contact(env, steps, t, x) && forall j :: t < j < |steps| ==> !Contact(env, steps, j, x)
    ensures Left(env, At(env, steps, |steps|), ExpireStep(x.hash, x.mac, now, expiry)) == Some(x)
       <==> now - TimeIn(steps[t]) > expiry
  {
    hide Contact, Left, TimeIn;
    HeardLast(env, steps, |steps|, x, t);
    LeavesExactly(env, At(env, steps, |steps|), ExpireStep(x.hash, x.mac, now, expiry), x);
  }

  /** So a whole cleanup keeps exactly the members heard of within the expiry. */
  lemma CleanupByMessages(
    env: Env, steps: seq<Step>, ids: seq<EdgeId>, x: EdgeId, t: nat, now: int, expiry: int)
    requires Apart(At(env, steps, |steps|)) && IsStaleList(At(env, steps, |steps|), now, expiry, ids)
    requires t < |steps| && MemberAt(env, steps, |steps|, x)
    requires Contact(env, steps, t, x) && forall j :: t < j < |steps| ==> !Contact(env, steps, j, x)
    ensures Member(Run(env, At(env, steps, |steps|), Expiries(ids, now, expiry)), x.hash, x.mac)
       <==> now - TimeIn(steps[t]) <= expiry
  {
    hide Contact, TimeIn, Run, Apart, IsStaleList, Purged, RemovalAnnounced;
    HeardLast(env, steps, |steps|, x, t);
    CleanupIsExact(env, At(env, steps, |steps|), ids, now, expiry);
  }

  /** A heartbeat counts if and only if its secret holds the machine id that created the member. */
  lemma HeartbeatExactly(env: Env, steps: seq<Step>, n: nat, c: nat, hb: HeartbeatMsg)
    requires n <= |steps| && CreatedAt(env, steps, n, c, EdgeId(hb.hash, hb.mac))
    ensures HeartbeatOk(env, At(env, steps, n), hb) <==> env.decrypt(hb.secret) == env.decrypt(steps[c].reg.secret)
  {
    var x := EdgeId(hb.hash, hb.mac);
    assert MemberAt(env, steps, n, x);
    hide Contact, Run, IsTiming, IsAddress, IsConnection;
    var d := EveryRecord(env, steps, n, x);
    CreatedOnce(env, steps, n, x, c, d);
  }

  // ---------------------------------------------------------------------------
  // Sockets
  // ---------------------------------------------------------------------------

  /** The sockets an edge is filed under: its address, and its connection if it has one. */
  predicate FiledUnder(env: Env, e: EdgeState, k: string) {
    k == env.socketKey(e.publicIp, e.publicPort) || (e.connId != "" && k == e.connId)
  }

  /** Message `i` is an accepted registration that files its edge under the socket. */
  predicate Files(env: Env, steps: seq<Step>, i: nat, k: string)
    requires i < |steps|
  {
    var x := Joined(env, At(env, steps, i), steps[i]);
    x.Some? && MemberAt(env, steps, i + 1, x.value)
    && FiledUnder(env, EdgeAt(At(env, steps, i + 1), x.value.hash, x.value.mac), k)
  }

  /** Message `i` removes an edge whose address is that socket. */
  predicate Frees(env: Env, steps: seq<Step>, i: nat, k: string)
    requires i < |steps|
  {
    var x := Left(env, At(env, steps, i), steps[i]);
    x.Some? && MemberAt(env, steps, i, x.value)
    && var e := EdgeAt(At(env, steps, i), x.value.hash, x.value.mac); k == env.socketKey(e.publicIp, e.publicPort)
  }

  lemma NextSockets(env: Env, s: Node, step: Step, k: string)
    requires NodeOk(env, s)
    ensures var t, x, y := Next(env, s, step), Joined(env, s, step), Left(env, s, step);
      && (x.Some? ==> step.RegisterStep? && y.None? && Member(t, x.value.hash, x.value.mac))
      && (y.Some? ==> Member(s, y.value.hash, y.value.mac))
      && if x.Some? && FiledUnder(env, EdgeAt(t, x.value.hash, x.value.mac), k)
         then k in t.sockets && t.sockets[k] == step.reg.community
         else if y.Some? && k == SocketOf(env, EdgeAt(s, y.value.hash, y.value.mac)) then k !in t.sockets
         else (k in t.sockets <==> k in s.sockets) && (k in t.sockets ==> t.sockets[k] == s.sockets[k])
  {
    if Joined(env, s, step).Some? { RegisteredEdge(env, s, step.reg); }
  }

  lemma SocketsNext(env: Env, steps: seq<Step>, i: nat, k: string)
    requires i < |steps|
    ensures Files(env, steps, i, k) ==> steps[i].RegisterStep?
    ensures var s, t := At(env, steps, i).sockets, At(env, steps, i + 1).sockets;
      if Files(env, steps, i, k) then k in t && t[k] == steps[i].reg.community
      else if Frees(env, steps, i, k) then k !in t
      else (k in t <==> k in s) && (k in t ==> t[k] == s[k])
  {
    RunSnoc(env, steps, i);
    EveryRunKeepsOk(env, EMPTY_NODE, steps[..i]);
    hide Next, Run, NodeOk, Joined, Left, FiledUnder;
    NextSockets(env, At(env, steps, i), steps[i], k);
  }

  /** Message `i` filed an edge of the community under the socket, and no message since filed another
      one or removed an edge there. */
  ghost predicate FiledSince(env: Env, steps: seq<Step>, n: nat, i: nat, k: string, name: string)
    requires n <= |steps|
  {
    && i < n && Files(env, steps, i, k) && steps[i].RegisterStep? && steps[i].reg.community == name
    && forall j :: i < j < n ==> !Files(env, steps, j, k) && !Frees(env, steps, j, k)
  }

  /** A socket is on record for a community if and only if an accepted registration of that community
      filed its edge there and nothing has happened to that socket since. */
  lemma {:induction false} SocketsExactly(env: Env, steps: seq<Step>, n: nat, k: string, name: string)
    requires n <= |steps|
    ensures (k in At(env, steps, n).sockets && At(env, steps, n).sockets[k] == name)
       <==> exists i: nat :: FiledSince(env, steps, n, i, k, name)
  {
    hide FiledSince, Files, Frees, At;
    if n == 0 {
      NoSocketsYet(env, steps, k, name);
    } else {
      var p := n - 1;
      SocketsExactly(env, steps, p, k, name);
      SocketsNext(env, steps, p, k);
      FiledNext(env, steps, p, p, k, name);
      if i: nat :| FiledSince(env, steps, n, i, k, name) { FiledNext(env, steps, p, i, k, name); }
      if i: nat :| FiledSince(env, steps, p, i, k, name) {
        FiledBefore(env, steps, p, i, k, name);
        FiledNext(env, steps, p, i, k, name);
      }
    }
  }

  lemma FiledBefore(env: Env, steps: seq<Step>, n: nat, i: nat, k: string, name: string)
    requires n <= |steps| && FiledSince(env, steps, n, i, k, name)
    ensures i < n
  {}

  lemma NoSocketsYet(env: Env, steps: seq<Step>, k: string, name: string)
    ensures k !in At(env, steps, 0).sockets && forall i: nat :: !FiledSince(env, steps, 0, i, k, name)
  {
    assert steps[..0] == [];
  }

  lemma FiledNext(env: Env, steps: seq<Step>, n: nat, i: nat, k: string, name: string)
    requires n < |steps|
    ensures FiledSince(env, steps, n + 1, i, k, name)
       <==> (if i == n then Files(env, steps, n, k) && steps[n].RegisterStep? && steps[n].reg.community == name
             else FiledSince(env, steps, n, i, k, name) && !Files(env, steps, n, k) && !Frees(env, steps, n, k))
  {
    hide Files, Frees;
  }

  /** In particular an accepted registration puts the address it came from, or the connection, on
      record for its community. */
  lemma RegistrationFiles(env: Env, steps: seq<Step>, i: nat, k: string)
    requires i < |steps| && steps[i].RegisterStep? && Joined(env, At(env, steps, i), steps[i]).Some?
    requires ComesFrom(env, steps[i].reg, k)
    ensures Files(env, steps, i, k)
  {
    var x := Joined(env, At(env, steps, i), steps[i]).value;
    RunSnoc(env, steps, i);
    EveryRunKeepsOk(env, EMPTY_NODE, steps[..i]);
    hide Next, Run, NodeOk, Joined;
    RegisterChanges(env, At(env, steps, i), steps[i], x);
  }

  /** The socket a registration comes from, by address or by connection. */
  predicate ComesFrom(env: Env, reg: RegisterMsg, k: string) {
    match reg.from
    case Ip(ip, port) => k == env.socketKey(ip, port)
    case Conn(id) => id != "" && k == id
  }

  lemma {:induction false} NameStays(env: Env, steps: seq<Step>, i: nat, n: nat, h: int)
    requires i <= n <= |steps| && h in At(env, steps, i).communities
    ensures h in At(env, steps, n).communities
    ensures At(env, steps, n).communities[h].name == At(env, steps, i).communities[h].name
    decreases n
  {
    if i < n {
      NameStays(env, steps, i, n - 1, h);
      RunSnoc(env, steps, n - 1);
      EveryRunKeepsOk(env, EMPTY_NODE, steps[..n - 1]);
      hide Next, Run, NodeOk;
      NextNames(env, At(env, steps, n - 1), steps[n - 1], h);
    }
  }

  /** From an accepted registration on, for as long as nothing happens to the socket it came from, that
      socket is on record for the community it is in. */
  lemma SocketStays(env: Env, steps: seq<Step>, n: nat, i: nat, k: string)
    requires i < n <= |steps| && steps[i].RegisterStep? && Joined(env, At(env, steps, i), steps[i]).Some?
    requires ComesFrom(env, steps[i].reg, k)
    requires forall j :: i < j < n ==> !Files(env, steps, j, k) && !Frees(env, steps, j, k)
    ensures var s, reg := At(env, steps, n), steps[i].reg;
      && k in s.sockets && s.sockets[k] == reg.community && env.hash(reg.community) == reg.hash
      && LiveIn(env, s, reg.community) == Live(s, reg.hash)
  {
    var reg := steps[i].reg;
    RunSnoc(env, steps, i);
    EveryRunKeepsOk(env, EMPTY_NODE, steps[..i]);
    hide Files, Frees, Run, NodeOk, Next, Joined;
    RegistrationFiles(env, steps, i, k);
    assert FiledSince(env, steps, n, i, k, reg.community);
    SocketsExactly(env, steps, n, k, reg.community);
    JoinedIs(env, At(env, steps, i), steps[i]);
    JoinsExactly(env, At(env, steps, i), reg);
    NextNames(env, At(env, steps, i), steps[i], reg.hash);
    NameStays(env, steps, i + 1, n, reg.hash);
  }

  // ---------------------------------------------------------------------------
  // Offline records
  // ---------------------------------------------------------------------------

  /** The record message `i` writes, if it writes one: a newcomer is noted as registered, a member
      that leaves as not, each with what the edge said of itself and the time of the message. */
  ghost predicate Notes(env: Env, steps: seq<Step>, i: nat, r: CachedInfo)
    requires i < |steps|
  {
    var s := At(env, steps, i);
    var x, y := Joined(env, s, steps[i]), Left(env, s, steps[i]);
    if x.Some? then
      && steps[i].RegisterStep? && !MemberAt(env, steps, i, x.value)
      && var reg := steps[i].reg;
         reg.vip.Some? && r == CachedInfo(reg.mac, reg.desc, reg.community, true, reg.now, reg.vip.value)
    else
      && y.Some? && MemberAt(env, steps, i, y.value)
      && var e := EdgeAt(s, y.value.hash, y.value.mac);
         r == CachedInfo(y.value.mac, e.desc, e.community, false, LeaveTime(steps[i]), e.virtualIp)
  }

  function LeaveTime(step: Step): int {
    match step
    case UnregisterStep(msg) => msg.now
    case ExpireStep(_, _, now, _) => now
    case _ => 0
  }

  ghost predicate NotesOf(env: Env, steps: seq<Step>, i: nat, m: Mac)
    requires i < |steps|
  {
    exists r :: Notes(env, steps, i, r) && r.mac == m
  }

  lemma NextCached(env: Env, s: Node, step: Step, m: Mac)
    requires NodeOk(env, s)
    ensures var t, x, y := Next(env, s, step).cached, Joined(env, s, step), Left(env, s, step);
      && (x.Some? ==> step.RegisterStep? && x.value == EdgeId(step.reg.hash, step.reg.mac) && y.None?)
      && (y.Some? ==> Member(s, y.value.hash, y.value.mac))
      && if x.Some? && !Member(s, x.value.hash, x.value.mac) && x.value.mac == m then
           && step.reg.vip.Some? && m in t
           && t[m] == CachedInfo(m, step.reg.desc, step.reg.community, true, step.reg.now, step.reg.vip.value)
         else if y.Some? && y.value.mac == m then
           var e := EdgeAt(s, y.value.hash, m);
           m in t && t[m] == CachedInfo(m, e.desc, e.community, false, LeaveTime(step), e.virtualIp)
         else (m in t <==> m in s.cached) && (m in t ==> t[m] == s.cached[m])
  {
    var x, y := Joined(env, s, step), Left(env, s, step);
    if x.Some? {
      RegisteredEdge(env, s, step.reg);
      if x.value.hash in s.communities { assert CommunityOk(env, x.value.hash, s.communities[x.value.hash]); }
    }
    if y.Some? { assert CommunityOk(env, y.value.hash, s.communities[y.value.hash]); }
  }

  lemma CachedNext(env: Env, steps: seq<Step>, i: nat, m: Mac)
    requires i < |steps|
    ensures var s, t := At(env, steps, i).cached, At(env, steps, i + 1).cached;
      if NotesOf(env, steps, i, m) then m in t && Notes(env, steps, i, t[m]) && t[m].mac == m
      else (m in t <==> m in s) && (m in t ==> t[m] == s[m])
  {
    RunSnoc(env, steps, i);
    EveryRunKeepsOk(env, EMPTY_NODE, steps[..i]);
    hide Next, Run, NodeOk, Joined, Left;
    NextCached(env, At(env, steps, i), steps[i], m);
  }

  lemma NotesOnce(env: Env, steps: seq<Step>, i: nat, r: CachedInfo, q: CachedInfo)
    requires i < |steps| && Notes(env, steps, i, r) && Notes(env, steps, i, q)
    ensures r == q
  {}

  ghost predicate NotedSince(env: Env, steps: seq<Step>, n: nat, i: nat, r: CachedInfo)
    requires n <= |steps|
  {
    i < n && Notes(env, steps, i, r) && forall j :: i < j < n ==> !NotesOf(env, steps, j, r.mac)
  }

  /** The record of an address is the one last written for it. */
  lemma {:induction false} CachedExactly(env: Env, steps: seq<Step>, n: nat, r: CachedInfo)
    requires n <= |steps|
    ensures (r.mac in At(env, steps, n).cached && At(env, steps, n).cached[r.mac] == r)
       <==> exists i: nat :: NotedSince(env, steps, n, i, r)
  {
    hide Notes, NotesOf, At;
    if n == 0 {
      NothingCached(env, steps);
    } else {
      var p := n - 1;
      CachedExactly(env, steps, p, r);
      CachedNext(env, steps, p, r.mac);
      if NotesOf(env, steps, p, r.mac) {
        var q := At(env, steps, n).cached[r.mac];
        if Notes(env, steps, p, r) {
          NotesOnce(env, steps, p, q, r);
          assert NotedSince(env, steps, n, p, r);
        }
        if i: nat :| NotedSince(env, steps, n, i, r) { assert i == p; }
      } else {
        NotesAre(env, steps, p, r);
        if i: nat :| NotedSince(env, steps, n, i, r) { assert NotedSince(env, steps, p, i, r); }
        if i: nat :| NotedSince(env, steps, p, i, r) { assert NotedSince(env, steps, n, i, r); }
      }
    }
  }

  lemma NotesAre(env: Env, steps: seq<Step>, i: nat, r: CachedInfo)
    requires i < |steps|
    ensures Notes(env, steps, i, r) ==> NotesOf(env, steps, i, r.mac)
  {}

  lemma NothingCached(env: Env, steps: seq<Step>)
    ensures At(env, steps, 0).cached == map[]
  {
    assert steps[..0] == [];
  }

  // ---------------------------------------------------------------------------
  // Reports
  // ---------------------------------------------------------------------------

  /** What is on record as reported by this edge. */
  function ReportOn(s: Node, x: EdgeId): Option<P2PInfos> {
    if x.hash in s.communities && x.mac in s.communities[x.hash].p2p then Some(s.communities[x.hash].p2p[x.mac]) else None
  }

  predicate ReportsOf(step: Step, x: EdgeId) {
    step.ReportStep? && EdgeId(step.hash, step.mac) == x
  }

  lemma ReportsOfMembers(env: Env, s: Node, x: EdgeId)
    requires NodeOk(env, s)
    ensures ReportOn(s, x).Some? ==> Member(s, x.hash, x.mac)
  {
    if x.hash in s.communities { assert CommunityOk(env, x.hash, s.communities[x.hash]); }
  }

  lemma RegisterReports(env: Env, s: Node, msg: RegisterMsg, x: EdgeId)
    requires NodeOk(env, s)
    ensures ReportOn(Register(env, s, msg).0, x) == ReportOn(s, x)
  {
    if Register(env, s, msg).1.Some? { RegisteredEdge(env, s, msg); }
  }

  lemma OtherReports(env: Env, s: Node, step: Step, x: EdgeId)
    requires NodeOk(env, s) && !step.RegisterStep?
    ensures var t := Next(env, s, step);
      ReportOn(t, x) == if !Member(s, x.hash, x.mac) || !Member(t, x.hash, x.mac) then None
                        else if ReportsOf(step, x) then Some(step.infos) else ReportOn(s, x)
  {
    hide NodeOk, Register;
    ReportsOfMembers(env, s, x);
    StepKeepsOk(env, s, step);
    ReportsOfMembers(env, Next(env, s, step), x);
  }

  lemma NextReports(env: Env, s: Node, step: Step, x: EdgeId)
    requires NodeOk(env, s)
    ensures var t := Next(env, s, step);
      ReportOn(t, x) == if !Member(s, x.hash, x.mac) || !Member(t, x.hash, x.mac) then None
                        else if ReportsOf(step, x) then Some(step.infos) else ReportOn(s, x)
  {
    hide NodeOk, Register, ReportOn, Heartbeat, Unregister, Expire, Report;
    if step.RegisterStep? {
      ReportsOfMembers(env, s, x);
      StepKeepsOk(env, s, step);
      ReportsOfMembers(env, Next(env, s, step), x);
      RegisterReports(env, s, step.reg, x);
    } else {
      OtherReports(env, s, step, x);
    }
  }

  /** Message `i` is a report of these peers by the edge, which has been a member from then on and has
      not reported since. */
  ghost predicate ReportedSince(env: Env, steps: seq<Step>, n: nat, i: nat, x: EdgeId, infos: P2PInfos)
    requires n <= |steps|
  {
    && i < n && steps[i] == ReportStep(x.hash, x.mac, infos)
    && (forall j :: i <= j <= n ==> MemberAt(env, steps, j, x))
    && (forall j :: i < j < n ==> !ReportsOf(steps[j], x))
  }

  lemma ReportedNext(env: Env, steps: seq<Step>, n: nat, i: nat, x: EdgeId, infos: P2PInfos)
    requires n < |steps|
    ensures ReportedSince(env, steps, n + 1, i, x, infos)
       <==> && MemberAt(env, steps, n, x) && MemberAt(env, steps, n + 1, x)
            && if i == n then steps[n] == ReportStep(x.hash, x.mac, infos)
               else ReportedSince(env, steps, n, i, x, infos) && !ReportsOf(steps[n], x)
  {
    hide MemberAt;
  }

  lemma NothingReported(env: Env, steps: seq<Step>, x: EdgeId, infos: P2PInfos)
    ensures ReportOn(At(env, steps, 0), x).None? && forall i: nat :: !ReportedSince(env, steps, 0, i, x, infos)
  {
    assert steps[..0] == [];
  }

  /** What a member reported is on record if and only if it is its last report since it came. */
  lemma {:induction false} ReportsExactly(env: Env, steps: seq<Step>, n: nat, x: EdgeId, infos: P2PInfos)
    requires n <= |steps|
    ensures ReportOn(At(env, steps, n), x) == Some(infos) <==> exists i: nat :: ReportedSince(env, steps, n, i, x, infos)
  {
    hide ReportedSince, ReportOn, NodeOk, Next, Run;
    if n == 0 {
      NothingReported(env, steps, x, infos);
    } else {
      var p := n - 1;
      ReportsExactly(env, steps, p, x, infos);
      RunSnoc(env, steps, p);
      EveryRunKeepsOk(env, EMPTY_NODE, steps[..p]);
      NextReports(env, At(env, steps, p), steps[p], x);
      ReportedNext(env, steps, p, p, x, infos);
      if i: nat :| ReportedSince(env, steps, n, i, x, infos) { ReportedNext(env, steps, p, i, x, infos); }
      if i: nat :| ReportedSince(env, steps, p, i, x, infos) {
        ReportedBefore(env, steps, p, i, x, infos);
        ReportedNext(env, steps, p, i, x, infos);
      }
    }
  }

  lemma ReportedBefore(env: Env, steps: seq<Step>, n: nat, i: nat, x: EdgeId, infos: P2PInfos)
    requires n <= |steps| && ReportedSince(env, steps, n, i, x, infos)
    ensures i < n
  {}
}
