/** Relaying data: which edges a packet is sent on to. Over every run, a packet only reaches live
    members of the community it came from, and a packet without a usable destination is attempted
    exactly once to each other member. */
module Relay {
  import opened Bytes
  import opened Membership
  import opened Partition
  import opened EdgeIndex
  import opened Supernode
  import opened Wire

  // ---------------------------------------------------------------------------
  // Derived addresses
  // ---------------------------------------------------------------------------

  /** A unicast, locally administered address: six bytes, the two lowest bits of the first being
      one and zero. It is never zero, multicast or broadcast. */
  predicate IsStation(m: Mac) {
    |m.bytes| == 6 && m.bytes[0] % 4 == 2
  }

  predicate IsMulticast(m: Mac) {
    |m.bytes| == 6 && m.bytes[0] % 2 == 1
  }

  /** The address made of the low six bytes of the hash, with the first byte masked in place. */
  method ShapeMac(hash: seq<byte>) returns (mac: array<byte>)
    requires |hash| == 8
    ensures fresh(mac) && mac.Length == 6 && mac[1..] == hash[1..6]
    ensures mac[0] / 4 == hash[0] / 4 && IsStation(Mac(mac[..]))
  {
    mac := new byte[6](i requires 0 <= i < 6 => hash[i]);
    if mac[0] / 2 % 2 == 0 { mac[0] := mac[0] + 2; }
    mac[0] := mac[0] - mac[0] % 2;
  }

  /** Every derived address has that shape. */
  ghost predicate DerivesStations(env: Env) {
    forall name, id :: IsStation(env.derive(name, id))
  }

  /** Registration only accepts the derived address, so every member ever has that shape. */
  lemma MembersAreStations(env: Env, steps: seq<Step>, hash: int, mac: Mac)
    requires DerivesStations(env) && Member(Run(env, EMPTY_NODE, steps), hash, mac)
    ensures IsStation(mac) && !IsMulticast(mac) && mac != Mac([])
  {
    EveryRunKeepsOk(env, EMPTY_NODE, steps);
    var s := Run(env, EMPTY_NODE, steps);
    var c := s.communities[hash];
    assert env.derive(c.name, c.edges[mac].machineId) == mac;
  }

  // ---------------------------------------------------------------------------
  // Forwarding
  // ---------------------------------------------------------------------------

  type Packet = p: seq<byte> | p != [] witness [0]

  /** What goes out for a packet: version 5 is flagged as relayed, everything else is unchanged. */
  function Outgoing(packet: Packet): Result<seq<byte>> {
    if packet[0] == VERSION then FlagFromSupernode(packet) else Ok(packet)
  }

  /** The members a version 5 packet names: its community, its sender and its destination. */
  datatype Route = Route(hash: int, src: Mac, dst: Mac)

  function RouteOf(packet: Packet): Option<Route> {
    match Unpack(packet)
    case Err(_) => None
    case Ok((h, _)) => Some(Route(h.community, MacOf(h.source), MacOf(h.dest)))
  }

  /** The route byte by byte: any packet of 30 bytes and version 5 has one; six zero bytes stand for no
      address. */
  lemma RouteByBytes(packet: Packet)
    ensures RouteOf(packet).Some? <==> |packet| >= 30 && packet[0] == 5
    ensures RouteOf(packet).Some? ==>
      var p, route := packet, RouteOf(packet).value;
      && route.hash == p[6] as int * 0x100_0000 + p[7] as int * 0x1_0000 + p[8] as int * 0x100 + p[9]
      && route.src.bytes == (if forall i :: 10 <= i < 16 ==> p[i] == 0 then [] else p[10..16])
      && route.dst.bytes == (if forall i :: 16 <= i < 22 ==> p[i] == 0 then [] else p[16..22])
  {
    if |packet| >= 30 && packet[0] == VERSION {
      var b := packet[..HEADER_SIZE];
      assert b[10..16] == packet[10..16] && b[16..22] == packet[16..22];
      NoAddress(packet, 10);
      NoAddress(packet, 16);
    }
  }

  lemma NoAddress(b: seq<byte>, at: nat)
    requires at + 6 <= |b|
    ensures MacOf(b[at..at + 6]).bytes == if forall i :: at <= i < at + 6 ==> b[i] == 0 then [] else b[at..at + 6]
  {
    var six := b[at..at + 6];
    forall i | at <= i < at + 6 ensures b[i] == six[i - at] {}
    if six != [0, 0, 0, 0, 0, 0] {
      var k :| 0 <= k < 6 && six[k] != 0;
      assert b[at + k] != 0;
    }
  }

  /** Whether a send to this edge succeeds is up to the transport. */
  type Transport = Mac -> bool

  method ForwardPacket(hash: int, packet: Packet, target: Edge, up: Transport)
    returns (out: seq<Sent<seq<byte>>>, ok: bool)
    ensures out == if Outgoing(packet).Ok? then [Sent(hash, target.mac, Outgoing(packet).value)] else []
    ensures ok <==> Outgoing(packet).Ok? && up(target.mac)
  {
    if packet[0] == VERSION {
      var flagged := FlagFromSupernode(packet);
      if flagged.Err? { return [], false; }
      return [Sent(hash, target.mac, flagged.value)], up(target.mac);
    }
    return [Sent(hash, target.mac, packet)], up(target.mac);
  }

  /** A unicast packet goes to its destination alone, if sender and destination are members. */
  ghost predicate IsUnicast(s: Node, packet: Packet, out: seq<Sent<seq<byte>>>) {
    var route := RouteOf(packet);
    if route.Some? && Member(s, route.value.hash, route.value.src) && Member(s, route.value.hash, route.value.dst)
    then Outgoing(packet).Ok? && out == [Sent(route.value.hash, route.value.dst, Outgoing(packet).value)] else out == []
  }

  method ForwardUnicast(sn: Supernode, packet: Packet, up: Transport) returns (out: seq<Sent<seq<byte>>>)
    requires sn.Linked()
    ensures IsUnicast(sn.view.node, packet, out)
  {
    hide Agree;
    PackUnpack(packet);
    FlaggingIsExact(packet);
    var route := RouteOf(packet);
    if route.None? { return []; }
    var Route(hash, src, dst) := route.value;
    AgreeFacts(sn.dir, sn.view, hash, src);
    AgreeFacts(sn.dir, sn.view, hash, dst);
    if hash !in sn.dir.communities || src !in sn.dir.communities[hash].edges { return []; }
    if dst !in sn.dir.communities[hash].edges { return []; }
    sn.MembersAreOwn(hash);
    var ok;
    out, ok := ForwardPacket(hash, packet, sn.dir.communities[hash].edges[dst], up);
  }

  /** What a data packet leads to: the destination alone when it is a member and the send works;
      otherwise everybody but the sender, after the failed attempt if there was one. */
  ghost predicate IsRelay(s: Node, packet: Packet, up: Transport, out: seq<Sent<seq<byte>>>) {
    var route := RouteOf(packet);
    if route.None? || !Member(s, route.value.hash, route.value.src) then out == []
    else
      var Route(hash, src, dst) := route.value;
      var others := Live(s, hash) - {src};
      var flagged := Outgoing(packet).value;
      if !Member(s, hash, dst) then IsFanOut(out, hash, others, flagged)
      else if up(dst) then out == [Sent(hash, dst, flagged)]
      else out != [] && out[0] == Sent(hash, dst, flagged) && IsFanOut(out[1..], hash, others, flagged)
  }

  /** A packet that can be routed can also be flagged. */
  lemma RouteFacts(packet: Packet)
    ensures RouteOf(packet).Some? ==> Outgoing(packet).Ok?
  {
    PackUnpack(packet);
    FlaggingIsExact(packet);
  }

  method ForwardWithFallback(sn: Supernode, packet: Packet, up: Transport) returns (out: seq<Sent<seq<byte>>>)
    requires sn.Linked()
    ensures IsRelay(sn.view.node, packet, up, out)
  {
    hide Agree, IsFanOut, RouteOf, Outgoing;
    var route := RouteOf(packet);
    RouteFacts(packet);
    if route.None? { return []; }
    var Route(hash, src, dst) := route.value;
    AgreeFacts(sn.dir, sn.view, hash, src);
    AgreeFacts(sn.dir, sn.view, hash, dst);
    if hash !in sn.dir.communities || src !in sn.dir.communities[hash].edges { return []; }
    sn.MembersAreOwn(hash);
    var edges := sn.dir.communities[hash].edges;
    out := [];
    if dst in edges {
      var ok;
      out, ok := ForwardPacket(hash, packet, edges[dst], up);
      if ok { return; }
    }
    var fan := FanOut(edges, hash, src, Outgoing(packet).value);
    assert (out + fan)[|out|..] == fan;
    out := out + fan;
  }

  // ---------------------------------------------------------------------------
  // The fast path
  // ---------------------------------------------------------------------------

  /** A fast-path packet goes on exactly when its destination is a live member of the community
      recorded for the socket it came from; then it goes to that member alone, unchanged. */
  ghost predicate IsFastRelay(env: Env, s: Node, packet: seq<byte>, from: string, enabled: bool, out: seq<Sent<seq<byte>>>) {
    var dst := VFuzeDest(packet);
    if enabled && dst.Ok? && from in s.sockets && Mac(dst.value) in LiveIn(env, s, s.sockets[from])
    then out == [Sent(env.hash(s.sockets[from]), Mac(dst.value), packet)] else out == []
  }

  /** The same by bytes: version 0x51, and the destination right behind it. */
  lemma FastExactly(env: Env, s: Node, packet: seq<byte>, from: string, enabled: bool, out: seq<Sent<seq<byte>>>)
    requires IsFastRelay(env, s, packet, from, enabled, out)
    ensures out != [] <==>
      && enabled && |packet| >= 7 && packet[0] == 0x51 && from in s.sockets
      && Member(s, env.hash(s.sockets[from]), Mac(packet[1..7]))
      && s.communities[env.hash(s.sockets[from])].name == s.sockets[from]
    ensures out != [] ==> out == [Sent(env.hash(s.sockets[from]), Mac(packet[1..7]), packet)]
  {}

  method HandleVFuze(sn: Supernode, packet: Packet, from: string, enabled: bool, up: Transport)
    returns (out: seq<Sent<seq<byte>>>)
    requires sn.Valid()
    ensures IsFastRelay(sn.env, sn.view.node, packet, from, enabled, out)
  {
    hide Agree, IsTrace, Run, NodeOk;
    var dst := VFuzeDest(packet);
    if dst.Err? || !enabled { return []; }
    var mac := Mac(dst.value);
    EveryRunKeepsOk(sn.env, EMPTY_NODE, sn.history);
    FastDecision(sn.env, sn.dir, sn.view, mac, from);
    if mac !in sn.dir.edgesByMac || from !in sn.dir.edgesBySocket { return []; }
    var dstEdge, srcEdge := sn.dir.edgesByMac[mac], sn.dir.edgesBySocket[from];
    sn.OwnEdge(mac);
    if dstEdge.community != srcEdge.community { return []; }
    var ok;
    out, ok := ForwardPacket(sn.env.hash(dstEdge.community), packet, dstEdge, up);
  }

  /** Comparing the communities of the two edges found is asking whether the destination is a member
      of the community recorded for the socket. */
  lemma FastDecision(env: Env, d: Directory, v: View, mac: Mac, from: string)
    requires Agree(d, v) && NodeOk(env, v.node)
    ensures v.states.Keys == d.edgesByMac.Keys
    ensures from in d.edgesBySocket <==> from in v.node.sockets
    ensures from in d.edgesBySocket ==> d.edgesBySocket[from].community == v.node.sockets[from]
    ensures from in v.node.sockets ==>
      var name := v.node.sockets[from];
      mac in LiveIn(env, v.node, name) <==> mac in v.states && v.states[mac].community == name
  {
    SocketFacts(d, v, from);
    AgreeFacts(d, v, 0, mac);
    hide Agree;
    if mac in v.states { EdgeFacts(env, d, v, mac); }
    if from in v.node.sockets {
      var name := v.node.sockets[from];
      AgreeFacts(d, v, env.hash(name), mac);
      if mac in LiveIn(env, v.node, name) { assert CommunityOk(env, env.hash(name), v.node.communities[env.hash(name)]); }
    }
  }

  lemma SocketFacts(d: Directory, v: View, k: string)
    requires Agree(d, v)
    ensures k in d.edgesBySocket <==> k in v.node.sockets
    ensures k in d.edgesBySocket ==> d.edgesBySocket[k].community == v.node.sockets[k]
  {}

  /** An indexed edge is a member of the community it names. */
  lemma EdgeFacts(env: Env, d: Directory, v: View, mac: Mac)
    requires Agree(d, v) && NodeOk(env, v.node) && mac in v.states
    ensures var name := v.states[mac].community;
      && Member(v.node, env.hash(name), mac) && v.node.communities[env.hash(name)].name == name
      && EdgeAt(v.node, env.hash(name), mac) == v.states[mac]
  {
    var h := v.home[mac];
    AgreeFacts(d, v, h, mac);
    assert CommunityOk(env, h, v.node.communities[h]);
  }

  // ---------------------------------------------------------------------------
  // Isolation and fan-out over whole runs
  // ---------------------------------------------------------------------------

  /** An edge registered from this socket, in this community, at some point of the run. */
  ghost predicate RegisteredUnder(env: Env, steps: seq<Step>, k: string, name: string) {
    exists i :: 0 <= i < |steps| && RegistersUnder(env, Run(env, EMPTY_NODE, steps[..i]), steps[i], k, name)
  }

  predicate RegistersUnder(env: Env, s: Node, step: Step, k: string, name: string) {
    && step.RegisterStep? && step.reg.community == name
    && Register(env, s, step.reg).1.Some?
    && var e := Register(env, s, step.reg).1.value;
       SocketOf(env, e) == k || (e.connId == k && k != "")
  }

  /** Every socket on record stems from an accepted registration in the recorded community. */
  lemma {:induction false} SocketProvenance(env: Env, steps: seq<Step>, k: string)
    requires k in Run(env, EMPTY_NODE, steps).sockets
    ensures RegisteredUnder(env, steps, k, Run(env, EMPTY_NODE, steps).sockets[k])
    decreases |steps|
  {
    hide Next, NodeOk, RegistersUnder;
    if steps != [] {
      var front, last := steps[..|steps| - 1], steps[|steps| - 1];
      var s := Run(env, EMPTY_NODE, front);
      EveryRunKeepsOk(env, EMPTY_NODE, front);
      SocketStep(env, s, last, k);
      if RegistersUnder(env, s, last, k, Next(env, s, last).sockets[k]) {
        assert steps[..|steps| - 1] == front;
      } else {
        SocketProvenance(env, front, k);
        var i :| 0 <= i < |front| && RegistersUnder(env, Run(env, EMPTY_NODE, front[..i]), front[i], k, s.sockets[k]);
        assert front[..i] == steps[..i] && front[i] == steps[i];
      }
    }
  }

  lemma SocketStep(env: Env, s: Node, step: Step, k: string)
    requires NodeOk(env, s) && k in Next(env, s, step).sockets
    ensures RegistersUnder(env, s, step, k, Next(env, s, step).sockets[k])
         || (k in s.sockets && s.sockets[k] == Next(env, s, step).sockets[k])
  {
    if step.RegisterStep? && Register(env, s, step.reg).1.Some? { RegisteredEdge(env, s, step.reg); }
  }

  // Messages and packets interleaved.

  /** What the supernode does, in order: it handles a message, or it relays a data packet, a ping or
      a fast-path packet, sending `out`. */
  datatype Traffic =
    | Handle(step: Step)
    | Data(packet: Packet, up: Transport, out: seq<Sent<seq<byte>>>)
    | Ping(packet: Packet, out: seq<Sent<seq<byte>>>)
    | Fast(bytes: seq<byte>, from: string, enabled: bool, out: seq<Sent<seq<byte>>>)

  /** The messages handled so far. */
  function Handled(ts: seq<Traffic>): seq<Step> {
    if ts == [] then []
    else Handled(ts[..|ts| - 1]) + (if ts[|ts| - 1].Handle? then [ts[|ts| - 1].step] else [])
  }

  /** The state the relaying decisions at this point are made in. */
  function StateAt(env: Env, ts: seq<Traffic>, i: nat): Node
    requires i <= |ts|
  {
    Run(env, EMPTY_NODE, Handled(ts[..i]))
  }

  ghost predicate Sends(env: Env, s: Node, t: Traffic) {
    match t
    case Handle(_) => true
    case Data(packet, up, out) => IsRelay(s, packet, up, out)
    case Ping(packet, out) => IsUnicast(s, packet, out)
    case Fast(bytes, from, enabled, out) => IsFastRelay(env, s, bytes, from, enabled, out)
  }

  ghost predicate IsTraffic(env: Env, ts: seq<Traffic>) {
    forall i :: 0 <= i < |ts| ==> Sends(env, StateAt(env, ts, i), ts[i])
  }

  /** The packet is for a live edge whose own record names the community filed under the hash, and
      that name hashes to it. */
  ghost predicate StaysIn(env: Env, s: Node, x: Sent<seq<byte>>, name: string) {
    && Member(s, x.hash, x.to) && s.communities[x.hash].name == name && env.hash(name) == x.hash
    && EdgeAt(s, x.hash, x.to).community == name
  }

  /** Isolation. Whatever messages and packets came before, everything relayed stays in one
      community by every record there is of it. A data packet or ping comes from a live edge on
      record for that community and goes out with the relay flag as its only change; a fast-path
      packet comes from a socket that an accepted registration in that community recorded. */
  ghost predicate Isolated(env: Env, s: Node, steps: seq<Step>, t: Traffic, x: Sent<seq<byte>>) {
    match t
    case Handle(_) => false
    case Fast(bytes, from, _, _) =>
      exists name :: StaysIn(env, s, x, name) && x.packet == bytes && RegisteredUnder(env, steps, from, name)
    case _ =>
      && RouteOf(t.packet).Some? && RouteOf(t.packet).value.hash == x.hash
      && Member(s, x.hash, RouteOf(t.packet).value.src)
      && StaysIn(env, s, x, EdgeAt(s, x.hash, RouteOf(t.packet).value.src).community)
      && |t.packet| >= 30 && x.packet == t.packet[3 := SetFromSupernode(t.packet[3])]
  }

  /** What relaying itself guarantees, in any state. */
  lemma RelayTargets(s: Node, packet: Packet, up: Transport, out: seq<Sent<seq<byte>>>, j: nat)
    requires (IsRelay(s, packet, up, out) || IsUnicast(s, packet, out)) && j < |out|
    ensures RouteOf(packet).Some? && out[j].hash == RouteOf(packet).value.hash
    ensures Member(s, out[j].hash, RouteOf(packet).value.src) && Member(s, out[j].hash, out[j].to)
    ensures |packet| >= 30 && out[j].packet == packet[3 := SetFromSupernode(packet[3])]
  {
    PackUnpack(packet);
    FlaggingIsExact(packet);
    var Route(hash, src, dst) := RouteOf(packet).value;
    if IsRelay(s, packet, up, out) && Member(s, hash, dst) && !up(dst) && j > 0 {
      assert out[j] == out[1..][j - 1];
    }
  }

  /** In a reachable state a member's own record names the community it is filed in. */
  lemma MemberStaysIn(env: Env, s: Node, x: Sent<seq<byte>>)
    requires NodeOk(env, s) && Member(s, x.hash, x.to)
    ensures StaysIn(env, s, x, s.communities[x.hash].name)
  {
    assert CommunityOk(env, x.hash, s.communities[x.hash]);
  }

  lemma SenderOf(env: Env, s: Node, hash: int, mac: Mac)
    requires NodeOk(env, s) && Member(s, hash, mac)
    ensures EdgeAt(s, hash, mac).community == s.communities[hash].name
  {
    assert CommunityOk(env, hash, s.communities[hash]);
  }

  lemma EverythingIsIsolated(env: Env, ts: seq<Traffic>, i: nat, j: nat)
    requires IsTraffic(env, ts) && i < |ts| && !ts[i].Handle? && j < |ts[i].out|
    ensures Isolated(env, StateAt(env, ts, i), Handled(ts[..i]), ts[i], ts[i].out[j])
  {
    var s, steps, t := StateAt(env, ts, i), Handled(ts[..i]), ts[i];
    assert Sends(env, s, t);
    EveryRunKeepsOk(env, EMPTY_NODE, steps);
    hide Run, NodeOk, IsTraffic, IsRelay, IsUnicast, RouteOf, StaysIn, RegisteredUnder;
    match t
    case Data(packet, up, out) =>
      RelayTargets(s, packet, up, out, j);
      MemberStaysIn(env, s, out[j]);
      SenderOf(env, s, out[j].hash, RouteOf(packet).value.src);
    case Ping(packet, out) =>
      RelayTargets(s, packet, _ => true, out, j);
      MemberStaysIn(env, s, out[j]);
      SenderOf(env, s, out[j].hash, RouteOf(packet).value.src);
    case Fast(bytes, from, enabled, out) =>
      SocketProvenance(env, steps, from);
      MemberStaysIn(env, s, out[j]);
  }

  /** Fan-out: a data packet from a live member whose destination is absent, multicast, broadcast
      or zero is attempted exactly once to each other live member and never to the sender. */
  lemma FanOutIsComplete(env: Env, steps: seq<Step>, packet: Packet, up: Transport, out: seq<Sent<seq<byte>>>)
    requires DerivesStations(env)
    requires IsRelay(Run(env, EMPTY_NODE, steps), packet, up, out) && RouteOf(packet).Some?
    requires var s := Run(env, EMPTY_NODE, steps);
      var r := RouteOf(packet).value;
      && Member(s, r.hash, r.src)
      && (!Member(s, r.hash, r.dst) || IsMulticast(r.dst) || r.dst == Mac([]))
    ensures var s := Run(env, EMPTY_NODE, steps);
      var r := RouteOf(packet).value;
      && IsFanOut(out, r.hash, Live(s, r.hash) - {r.src}, Outgoing(packet).value)
      && forall j :: 0 <= j < |out| ==> out[j].to != r.src
  {
    var r := RouteOf(packet).value;
    if Member(Run(env, EMPTY_NODE, steps), r.hash, r.dst) {
      MembersAreStations(env, steps, r.hash, r.dst);
    }
  }
}
