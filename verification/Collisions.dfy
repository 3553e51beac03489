/** The index by address along a run, on values, and the inputs at which it breaks. It holds one
    edge for an address: exactly as long as no accepted registration is for an address that is live
    in another community, it is the union of the communities. Such registrations exist whatever the
    hash is, because the address is derived from the machine id and the name written one after the
    other. */
module Collisions {
  import opened Bytes
  import opened Membership
  import opened Partition

  // ---------------------------------------------------------------------------
  // The index along a run
  // ---------------------------------------------------------------------------

  /** For each address in the index, the community of the edge it leads to. */
  type Index = map<Mac, int>

  /** An accepted registration points the address to its edge; a removal drops the address. */
  function NextIndex(env: Env, s: Node, step: Step, index: Index): Index {
    var joined, left := Joined(env, s, step), Left(env, s, step);
    if joined.Some? then index[joined.value.mac := joined.value.hash]
    else if left.Some? then index - {left.value.mac}
    else index
  }

  function IndexAfter(env: Env, steps: seq<Step>): Index
    decreases |steps|
  {
    if steps == [] then map[] else
      var front := steps[..|steps| - 1];
      NextIndex(env, Run(env, EMPTY_NODE, front), steps[|steps| - 1], IndexAfter(env, front))
  }

  /** Every member is found under its address as the edge of its own community, and nothing else
      is in the index. */
  ghost predicate IsUnionOf(s: Node, index: Index) {
    forall h, m :: Member(s, h, m) <==> m in index && index[m] == h
  }

  lemma UnionIsApart(s: Node, index: Index)
    requires IsUnionOf(s, index)
    ensures Apart(s)
  {}

  lemma UnionStep(env: Env, s: Node, step: Step, index: Index)
    requires NodeOk(env, s) && IsUnionOf(s, index) && !Collides(env, s, step)
    ensures IsUnionOf(Next(env, s, step), NextIndex(env, s, step, index))
  {
    hide NodeOk, Next, Joined, Left;
    var t, index' := Next(env, s, step), NextIndex(env, s, step, index);
    JoinedIs(env, s, step);
    forall h, m ensures Member(t, h, m) <==> m in index' && index'[m] == h {
      NextMembers(env, s, step, h, m);
    }
  }

  lemma {:induction false} UnionUpTo(env: Env, steps: seq<Step>, i: nat)
    requires i <= |steps| && forall j :: 0 <= j < i ==> !CollidesAt(env, steps, j)
    ensures UnionAt(env, steps, i)
  {
    hide Next, NextIndex, IsUnionOf, NodeOk, Collides;
    if i == 0 {
      NothingIndexed(env, steps);
    } else {
      UnionUpTo(env, steps, i - 1);
      assert !CollidesAt(env, steps, i - 1);
      EveryRunKeepsOk(env, EMPTY_NODE, steps[..i - 1]);
      RunSnoc(env, steps, i - 1);
      assert steps[..i][..i - 1] == steps[..i - 1];
      UnionStep(env, Run(env, EMPTY_NODE, steps[..i - 1]), steps[i - 1], IndexAfter(env, steps[..i - 1]));
    }
  }

  ghost predicate UnionAt(env: Env, steps: seq<Step>, i: nat)
    requires i <= |steps|
  {
    IsUnionOf(Run(env, EMPTY_NODE, steps[..i]), IndexAfter(env, steps[..i]))
  }

  lemma NothingIndexed(env: Env, steps: seq<Step>)
    ensures UnionAt(env, steps, 0)
  {
    assert steps[..0] == [];
  }

  /** The index by address is the union of the communities at every point of a run if and only if
      the run accepts no registration for an address that is live in another community. */
  lemma UnionExactly(env: Env, steps: seq<Step>)
    ensures (forall i :: 0 <= i <= |steps| ==> UnionAt(env, steps, i))
       <==> (forall i :: 0 <= i < |steps| ==> !CollidesAt(env, steps, i))
  {
    hide Run, IsUnionOf, Apart, Collides, IndexAfter;
    if forall i :: 0 <= i < |steps| ==> !CollidesAt(env, steps, i) {
      forall i | 0 <= i <= |steps| ensures UnionAt(env, steps, i) { UnionUpTo(env, steps, i); }
    } else if forall i :: 0 <= i <= |steps| ==> UnionAt(env, steps, i) {
      forall i | 0 <= i <= |steps| ensures Apart(Run(env, EMPTY_NODE, steps[..i])) {
        assert UnionAt(env, steps, i);
        UnionIsApart(Run(env, EMPTY_NODE, steps[..i]), IndexAfter(env, steps[..i]));
      }
      ApartExactly(env, steps);
    }
  }

  // ---------------------------------------------------------------------------
  // One address for two communities
  // ---------------------------------------------------------------------------

  /** The address depends on the machine id and the name only as the data they make, one after the
      other. */
  ghost predicate DerivesFromData(env: Env) {
    forall name, id, name', id' :: id + Utf8(name) == id' + Utf8(name') ==> env.derive(name, id) == env.derive(name', id')
  }

  /** Moving the beginning of a name to the end of the machine id keeps the address: community "ab"
      with id "x" and community "b" with id "xa" have the same one. */
  lemma SharedAddress(env: Env, id: seq<byte>, prefix: string, name: string)
    requires DerivesFromData(env)
    ensures env.derive(prefix + name, id) == env.derive(name, id + Utf8(prefix))
  {
    Utf8Join(prefix, name);
    Regroup(id, Utf8(prefix), Utf8(name));
  }

  /** A registration that is accepted wherever its community and a virtual address can be had. */
  function Registration(env: Env, name: string, id: seq<byte>, secret: seq<byte>, now: int): RegisterMsg {
    RegisterMsg(env.derive(name, id), env.hash(name), 0, name, "", secret, Conn(""), now, true, Some(""))
  }

  function Unregistration(env: Env, name: string, id: seq<byte>, secret: seq<byte>, now: int): UnregisterMsg {
    UnregisterMsg(env.derive(name, id), env.hash(name), name, secret, now)
  }

  /** Such a registration opens its community and makes its sender a member. */
  lemma Enters(env: Env, s: Node, name: string, id: seq<byte>, secret: seq<byte>, now: int)
    requires env.decrypt(secret) == Some(id) && env.hash(name) !in s.communities
    ensures var msg := Registration(env, name, id, secret, now);
      var t := Next(env, s, RegisterStep(msg));
      && Joined(env, s, RegisterStep(msg)) == Some(EdgeId(msg.hash, msg.mac))
      && Member(t, msg.hash, msg.mac) && !Member(s, msg.hash, msg.mac)
      && t.communities.Keys == s.communities.Keys + {msg.hash} && t.communities[msg.hash].name == name
  {}

  lemma RunTwo(env: Env, a: Step, b: Step)
    ensures [a, b][..1] == [a] && [a, b][..2] == [a, b]
    ensures Run(env, EMPTY_NODE, [a]) == Next(env, EMPTY_NODE, a)
    ensures Run(env, EMPTY_NODE, [a, b]) == Next(env, Next(env, EMPTY_NODE, a), b)
  {
    hide Next;
    assert [a][..0] == [] && [a, b][..1] == [a];
  }

  /** Two communities, one address: whatever the hash, the second registration collides, and after
      it the address is live in both and the index is not their union. */
  lemma RegistrationsCollide(
    env: Env, id: seq<byte>, prefix: string, name: string, secret: seq<byte>, secret': seq<byte>, now: int)
    requires DerivesFromData(env) && env.hash(prefix + name) != env.hash(name)
    requires env.decrypt(secret) == Some(id) && env.decrypt(secret') == Some(id + Utf8(prefix))
    ensures var steps := [RegisterStep(Registration(env, prefix + name, id, secret, now)),
                          RegisterStep(Registration(env, name, id + Utf8(prefix), secret', now))];
      CollidesAt(env, steps, 1) && !Apart(Run(env, EMPTY_NODE, steps)) && !UnionAt(env, steps, 2)
  {
    hide Next, Joined, Left, IndexAfter;
    var id' := id + Utf8(prefix);
    var a := RegisterStep(Registration(env, prefix + name, id, secret, now));
    var b := RegisterStep(Registration(env, name, id', secret', now));
    SharedAddress(env, id, prefix, name);
    RunTwo(env, a, b);
    Enters(env, EMPTY_NODE, prefix + name, id, secret, now);
    var s := Run(env, EMPTY_NODE, [a]);
    Enters(env, s, name, id', secret', now);
    assert LiveElsewhere(s, b.reg.hash, b.reg.mac);
    assert CollidesAt(env, [a, b], 1);
    NotApart(env, [a, b]);
  }

  lemma NotApart(env: Env, steps: seq<Step>)
    requires |steps| == 2 && CollidesAt(env, steps, 1) && !CollidesAt(env, steps, 0)
    ensures !Apart(Run(env, EMPTY_NODE, steps)) && !UnionAt(env, steps, 2)
  {
    hide Next, Collides, IndexAfter, IsUnionOf, Apart;
    ApartUpTo(env, steps, 1);
    EveryRunKeepsOk(env, EMPTY_NODE, steps[..1]);
    RunSnoc(env, steps, 1);
    ApartStep(env, Run(env, EMPTY_NODE, steps[..1]), steps[1]);
    assert steps[..2] == steps;
    if UnionAt(env, steps, 2) { UnionIsApart(Run(env, EMPTY_NODE, steps), IndexAfter(env, steps)); }
  }

  /** Leaving the first community and then entering the second writes over the record that the
      address is offline in the first, which is then neither live nor offline there. */
  lemma OfflineRecordLost(
    env: Env, id: seq<byte>, prefix: string, name: string, secret: seq<byte>, secret': seq<byte>, now: int)
    requires DerivesFromData(env) && env.hash(prefix + name) != env.hash(name)
    requires env.decrypt(secret) == Some(id) && env.decrypt(secret') == Some(id + Utf8(prefix))
    ensures var steps := [RegisterStep(Registration(env, prefix + name, id, secret, now)),
                          UnregisterStep(Unregistration(env, prefix + name, id, secret, now)),
                          RegisterStep(Registration(env, name, id + Utf8(prefix), secret', now))];
      OverwritesAt(env, steps, 2) && !AllPartitioned(env, steps)
  {
    hide Next, Joined, Left, AllPartitioned;
    var id' := id + Utf8(prefix);
    var a := RegisterStep(Registration(env, prefix + name, id, secret, now));
    var b := UnregisterStep(Unregistration(env, prefix + name, id, secret, now));
    var c := RegisterStep(Registration(env, name, id', secret', now));
    var steps := [a, b, c];
    assert steps[..2] == [a, b] && steps[..3] == steps;
    SharedAddress(env, id, prefix, name);
    RunTwo(env, a, b);
    Enters(env, EMPTY_NODE, prefix + name, id, secret, now);
    var s := Next(env, EMPTY_NODE, a);
    Departs(env, s, prefix + name, id, secret, now);
    Enters(env, Next(env, s, b), name, id', secret', now);
    JoinedIs(env, Next(env, s, b), c);
    OverwriteBreaks(env, steps, 2);
  }

  lemma Departs(env: Env, s: Node, name: string, id: seq<byte>, secret: seq<byte>, now: int)
    requires env.decrypt(secret) == Some(id) && Member(s, env.hash(name), env.derive(name, id))
    requires s.communities[env.hash(name)].name == name
    ensures var mac := env.derive(name, id);
      var t := Next(env, s, UnregisterStep(Unregistration(env, name, id, secret, now)));
      && t.communities.Keys == s.communities.Keys
      && mac in t.cached && !t.cached[mac].isRegistered && t.cached[mac].community == name
  {}
}
