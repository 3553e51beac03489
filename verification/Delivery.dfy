/** What the supernode sends and what an edge receives. The packets a supernode object has sent to
    an edge, and the events that reach the edge's inbox in a behaviour, are the same sequence. */
module Delivery {
  import opened Peers
  import opened Membership
  import opened Partition
  import opened Messages
  import opened Supernode
  import opened Replica

  // ---------------------------------------------------------------------------
  // What a run announces to one edge
  // ---------------------------------------------------------------------------

  function AnnouncedTo(env: Env, s: Node, step: Step, x: EdgeId): seq<PeerInfoList> {
    var ann := Announced(env, s, step);
    if ann.Some? && x in Recipients(Next(env, s, step), ann.value) then [ann.value.event] else []
  }

  function PostedTo(env: Env, steps: seq<Step>, x: EdgeId): seq<PeerInfoList>
    decreases |steps|
  {
    if steps == [] then [] else
      var front := steps[..|steps| - 1];
      PostedTo(env, front, x) + AnnouncedTo(env, Run(env, EMPTY_NODE, front), steps[|steps| - 1], x)
  }

  /** The packets sent to one edge, in order. */
  function Addressed(out: seq<Sent<PeerInfoList>>, x: EdgeId): seq<PeerInfoList>
    decreases |out|
  {
    if out == [] then [] else
      var last := out[|out| - 1];
      Addressed(out[..|out| - 1], x) + if EdgeId(last.hash, last.to) == x then [last.packet] else []
  }

  lemma {:induction false} AddressedJoin(a: seq<Sent<PeerInfoList>>, b: seq<Sent<PeerInfoList>>, x: EdgeId)
    ensures Addressed(a + b, x) == Addressed(a, x) + Addressed(b, x)
    decreases |b|
  {
    if b == [] {
      assert a + b == a;
    } else {
      assert (a + b)[..|a + b| - 1] == a + b[..|b| - 1];
      AddressedJoin(a, b[..|b| - 1], x);
    }
  }

  /** A fan-out sends an edge the packet once or not at all. */
  lemma {:induction false} AddressedFanOut(
    out: seq<Sent<PeerInfoList>>, hash: int, packet: PeerInfoList, x: EdgeId, n: nat)
    requires n <= |out| && forall i :: 0 <= i < |out| ==> out[i] == Sent(hash, out[i].to, packet)
    requires forall i, j :: 0 <= i < j < |out| ==> out[i].to != out[j].to
    ensures Addressed(out[..n], x)
         == if x.hash == hash && exists i :: 0 <= i < n && out[i].to == x.mac then [packet] else []
  {
    if n > 0 {
      AddressedFanOut(out, hash, packet, x, n - 1);
      assert out[..n][..n - 1] == out[..n - 1];
      assert out[n - 1] == Sent(hash, out[n - 1].to, packet);
    }
  }

  lemma AddressedAnnouncement(
    env: Env, s: Node, step: Step, out: seq<Sent<PeerInfoList>>, x: EdgeId)
    requires Announces(out, Next(env, s, step), Announced(env, s, step))
    ensures Addressed(out, x) == AnnouncedTo(env, s, step, x)
  {
    var ann := Announced(env, s, step);
    if ann.Some? {
      var s' := Next(env, s, step);
      var targets := Live(s', ann.value.hash) - {ann.value.about};
      AddressedFanOut(out, ann.value.hash, ann.value.event, x, |out|);
      assert out[..|out|] == out;
      RecipientsAre(s', ann.value, x);
      assert IsFanOut(out, ann.value.hash, targets, ann.value.event);
      hide Next, Announced;
      assert x.mac in targets <==> exists i :: 0 <= i < |out| && out[i].to == x.mac;
    }
  }

  lemma RecipientsAre(s: Node, a: Announcement, x: EdgeId)
    ensures x in Recipients(s, a) <==> x.hash == a.hash && x.mac in Live(s, a.hash) - {a.about}
  {
    if x.hash == a.hash && x.mac in Live(s, a.hash) - {a.about} {
      assert x == EdgeId(a.hash, x.mac);
    }
  }

  lemma AddressedNone(out: seq<Sent<PeerInfoList>>, x: EdgeId)
    ensures out == [] ==> Addressed(out, x) == []
  {}

  /** Of everything sent over a run, an edge is sent exactly the announcements meant for it, in
      order. */
  lemma {:induction false} SentIsPosted(env: Env, steps: seq<Step>, out: seq<Sent<PeerInfoList>>, x: EdgeId)
    requires IsTrace(env, steps, out)
    ensures Addressed(out, x) == PostedTo(env, steps, x)
    decreases |steps|
  {
    hide Next, Announced, Run, Announces, AnnouncedTo, Addressed;
    if steps == [] {
      AddressedNone(out, x);
    } else {
      var front, last := steps[..|steps| - 1], steps[|steps| - 1];
      var s := Run(env, EMPTY_NODE, front);
      var k :| 0 <= k <= |out| && IsTrace(env, front, out[..k])
               && Announces(out[k..], Next(env, s, last), Announced(env, s, last));
      SentIsPosted(env, front, out[..k], x);
      AddressedAnnouncement(env, s, last, out[k..], x);
      assert out == out[..k] + out[k..];
      AddressedJoin(out[..k], out[k..], x);
    }
  }

  // ---------------------------------------------------------------------------
  // What reaches the inbox
  // ---------------------------------------------------------------------------

  /** The messages the supernode handled. */
  function Served(actions: seq<Action>): seq<Step>
    decreases |actions|
  {
    if actions == [] then [] else
      var last := actions[|actions| - 1];
      Served(actions[..|actions| - 1]) + if last.Serve? then [last.step] else []
  }

  /** How many events the edge took. */
  function Taken(actions: seq<Action>, x: EdgeId): nat
    decreases |actions|
  {
    if actions == [] then 0 else
      Taken(actions[..|actions| - 1], x) + if actions[|actions| - 1] == Deliver(x) then 1 else 0
  }

  lemma ServedNext(actions: seq<Action>, j: nat)
    requires j < |actions|
    ensures Served(actions[..j + 1])
         == if actions[j].Serve? then Served(actions[..j]) + [actions[j].step] else Served(actions[..j])
  {
    assert actions[..j + 1][..j] == actions[..j];
  }

  lemma TakenNext(actions: seq<Action>, i: nat, j: nat, x: EdgeId)
    requires i <= j < |actions|
    ensures Taken(actions[i..j + 1], x) == Taken(actions[i..j], x) + if actions[j] == Deliver(x) then 1 else 0
  {
    assert actions[i..j + 1][..j - i] == actions[i..j];
  }

  lemma StepOf(env: Env, key: SocketKey, worlds: seq<World>, actions: seq<Action>, i: nat)
    requires Behaviour(env, key, worlds, actions) && i < |actions|
    ensures Enabled(env, worlds[i], actions[i])
    ensures actions[i].Deliver? ==> Inbox(worlds[i], actions[i].x) != []
    ensures worlds[i + 1] == Act(env, key, worlds[i], actions[i])
    ensures worlds[i + 1].node
         == if actions[i].Serve? then Next(env, worlds[i].node, actions[i].step) else worlds[i].node
  {
    hide Next, Announced, Delivered, EdgeStep;
  }

  lemma RunNext(env: Env, steps: seq<Step>, step: Step)
    ensures Run(env, EMPTY_NODE, steps + [step]) == Next(env, Run(env, EMPTY_NODE, steps), step)
  {
    assert (steps + [step])[..|steps|] == steps;
  }

  lemma {:induction false} NodeIsRun(env: Env, key: SocketKey, worlds: seq<World>, actions: seq<Action>, i: nat)
    requires Behaviour(env, key, worlds, actions) && i < |worlds|
    ensures worlds[i].node == Run(env, EMPTY_NODE, Served(actions[..i]))
  {
    if i == 0 {
      assert actions[..0] == [];
    } else {
      NodeIsRun(env, key, worlds, actions, i - 1);
      ServedNext(actions, i - 1);
      StepOf(env, key, worlds, actions, i - 1);
      if actions[i - 1].Serve? { RunNext(env, Served(actions[..i - 1]), actions[i - 1].step); }
      hide *;
    }
  }

  /** One action seen from one inbox. */
  lemma InboxNext(env: Env, key: SocketKey, w: World, a: Action, x: EdgeId)
    requires Enabled(env, w, a) && !(a.Answer? && a.x == x)
    ensures Inbox(Act(env, key, w, a), x)
         == if a.Serve? then Inbox(w, x) + AnnouncedTo(env, w.node, a.step, x)
            else if a == Deliver(x) then Inbox(w, x)[1..]
            else Inbox(w, x)
  {
    hide Next, Announced, Delivered, EdgeStep;
  }

  lemma PostedSnoc(env: Env, steps: seq<Step>, step: Step, x: EdgeId)
    ensures PostedTo(env, steps + [step], x)
         == PostedTo(env, steps, x) + AnnouncedTo(env, Run(env, EMPTY_NODE, steps), step, x)
  {
    assert (steps + [step])[..|steps|] == steps;
  }

  ghost predicate Queue(
    env: Env, worlds: seq<World>, actions: seq<Action>, i: nat, j: nat, x: EdgeId)
    requires i <= j < |worlds| == |actions| + 1
  {
    var before, after := PostedTo(env, Served(actions[..i]), x), PostedTo(env, Served(actions[..j]), x);
    var n := Taken(actions[i..j], x);
    && before <= after
    && n <= |Inbox(worlds[i], x) + after[|before|..]|
    && Inbox(worlds[j], x) == (Inbox(worlds[i], x) + after[|before|..])[n..]
  }

  lemma QueueNext(inbox: seq<PeerInfoList>, posted: seq<PeerInfoList>, more: seq<PeerInfoList>, k: nat, n: nat)
    requires k <= |posted| && n <= |inbox + posted[k..]|
    ensures (inbox + posted[k..])[n..] + more == (inbox + (posted + more)[k..])[n..]
    ensures more == [] ==> posted + more == posted && (inbox + posted[k..])[n..] + more == (inbox + posted[k..])[n..]
    ensures n < |inbox + posted[k..]| ==> (inbox + posted[k..])[n..][1..] == (inbox + posted[k..])[n + 1..]
  {
    assert (posted + more)[k..] == posted[k..] + more;
  }

  lemma QueueStart(env: Env, worlds: seq<World>, actions: seq<Action>, i: nat, x: EdgeId)
    requires i < |worlds| == |actions| + 1
    ensures Queue(env, worlds, actions, i, i, x)
  {
    assert actions[i..i] == [];
    var posted := PostedTo(env, Served(actions[..i]), x);
    assert posted[|posted|..] == [];
    assert Inbox(worlds[i], x) + [] == Inbox(worlds[i], x);
  }

  lemma QueueStep(
    env: Env, key: SocketKey, worlds: seq<World>, actions: seq<Action>, i: nat, j: nat, x: EdgeId)
    requires i <= j < |actions| == |worlds| - 1 && Queue(env, worlds, actions, i, j, x)
    requires Enabled(env, worlds[j], actions[j]) && !(actions[j].Answer? && actions[j].x == x)
    requires actions[j].Deliver? ==> Inbox(worlds[j], actions[j].x) != []
    requires worlds[j + 1] == Act(env, key, worlds[j], actions[j])
    requires worlds[j].node == Run(env, EMPTY_NODE, Served(actions[..j]))
    ensures Queue(env, worlds, actions, i, j + 1, x)
  {
    hide Next, Announced, Act, Enabled, Run, PostedTo, Inbox, Served, Taken, AnnouncedTo;
    var a, steps := actions[j], Served(actions[..j]);
    InboxNext(env, key, worlds[j], a, x);
    if a.Serve? { PostedSnoc(env, steps, a.step, x); }
    ServedNext(actions, j);
    TakenNext(actions, i, j, x);
    QueueNext(Inbox(worlds[i], x), PostedTo(env, steps, x),
              if a.Serve? then AnnouncedTo(env, worlds[j].node, a.step, x) else [],
              |PostedTo(env, Served(actions[..i]), x)|, Taken(actions[i..j], x));
  }

  /** Between two points of a behaviour with no peer-list answer to the edge in between, the inbox
      is a queue: what was in it, then exactly what the run announced to the edge, less what the edge
      took, in order and nothing else. */
  lemma {:induction false} InboxIsQueue(
    env: Env, key: SocketKey, worlds: seq<World>, actions: seq<Action>, i: nat, j: nat, x: EdgeId)
    requires Behaviour(env, key, worlds, actions) && i <= j < |worlds|
    requires forall k :: i <= k < j ==> !(actions[k].Answer? && actions[k].x == x)
    ensures Queue(env, worlds, actions, i, j, x)
    decreases j
  {
    if i == j {
      QueueStart(env, worlds, actions, i, x);
    } else {
      InboxIsQueue(env, key, worlds, actions, i, j - 1, x);
      StepOf(env, key, worlds, actions, j - 1);
      NodeIsRun(env, key, worlds, actions, j - 1);
      QueueStep(env, key, worlds, actions, i, j - 1, x);
    }
  }

  lemma QueueIs(
    env: Env, worlds: seq<World>, actions: seq<Action>, i: nat, j: nat, x: EdgeId,
    a: seq<PeerInfoList>, b: seq<PeerInfoList>)
    requires i <= j < |worlds| == |actions| + 1 && Queue(env, worlds, actions, i, j, x)
    requires PostedTo(env, Served(actions[..i]), x) == a && PostedTo(env, Served(actions[..j]), x) == a + b
    ensures Taken(actions[i..j], x) <= |Inbox(worlds[i], x) + b|
    ensures Inbox(worlds[j], x) == (Inbox(worlds[i], x) + b)[Taken(actions[i..j], x)..]
  {
    hide PostedTo, Served, Taken, Inbox;
    assert (a + b)[|a|..] == b;
  }

  /** Everything the supernode object sent to an edge between two points is what entered the edge's
      inbox between them. */
  lemma SentIsReceived(
    env: Env, key: SocketKey, worlds: seq<World>, actions: seq<Action>, i: nat, j: nat, x: EdgeId,
    sentThen: seq<Sent<PeerInfoList>>, sentNow: seq<Sent<PeerInfoList>>)
    requires Behaviour(env, key, worlds, actions) && i <= j < |worlds|
    requires forall k :: i <= k < j ==> !(actions[k].Answer? && actions[k].x == x)
    requires IsTrace(env, Served(actions[..i]), sentThen) && IsTrace(env, Served(actions[..j]), sentNow)
    requires sentThen <= sentNow
    ensures var all := Inbox(worlds[i], x) + Addressed(sentNow[|sentThen|..], x);
      && Taken(actions[i..j], x) <= |all|
      && Inbox(worlds[j], x) == all[Taken(actions[i..j], x)..]
  {
    InboxIsQueue(env, key, worlds, actions, i, j, x);
    SentIsPosted(env, Served(actions[..i]), sentThen, x);
    SentIsPosted(env, Served(actions[..j]), sentNow, x);
    assert sentNow == sentThen + sentNow[|sentThen|..];
    AddressedJoin(sentThen, sentNow[|sentThen|..], x);
    var a, b := Addressed(sentThen, x), Addressed(sentNow[|sentThen|..], x);
    QueueIs(env, worlds, actions, i, j, x, a, b);
    hide *;
  }

  // ---------------------------------------------------------------------------
  // The object and the inboxes
  // ---------------------------------------------------------------------------

  ghost predicate NotAnswered(actions: seq<Action>, i: nat, j: nat, x: EdgeId)
    requires i <= j <= |actions|
  {
    forall k :: i <= k < j ==> !(actions[k].Answer? && actions[k].x == x)
  }

  /** Between the two points the inbox took in what of `out` is addressed to the edge, and gave out
      as much as the edge took. */
  ghost predicate TookIn(
    worlds: seq<World>, actions: seq<Action>, i: nat, j: nat, x: EdgeId, out: seq<Sent<PeerInfoList>>)
    requires i <= j < |worlds| == |actions| + 1
  {
    var all := Inbox(worlds[i], x) + Addressed(out, x);
    Taken(actions[i..j], x) <= |all| && Inbox(worlds[j], x) == all[Taken(actions[i..j], x)..]
  }

  /** In every behaviour that goes through both histories, every inbox takes in exactly its part of
      `out` between them, apart from answers to peer-list requests. */
  ghost predicate Reaches(env: Env, before: seq<Step>, after: seq<Step>, out: seq<Sent<PeerInfoList>>) {
    forall key: SocketKey, worlds, actions, i: nat, j: nat, x ::
      (&& Behaviour(env, key, worlds, actions) && i <= j < |worlds|
       && Served(actions[..i]) == before && Served(actions[..j]) == after && NotAnswered(actions, i, j, x))
      ==> TookIn(worlds, actions, i, j, x, out)
  }

  lemma SentReaches(
    env: Env, before: seq<Step>, after: seq<Step>, sentThen: seq<Sent<PeerInfoList>>, sentNow: seq<Sent<PeerInfoList>>)
    requires IsTrace(env, before, sentThen) && IsTrace(env, after, sentNow) && sentThen <= sentNow
    ensures Reaches(env, before, after, sentNow[|sentThen|..])
  {
    hide IsTrace, Inbox, Addressed, Taken, Served;
    forall key: SocketKey, worlds, actions, i: nat, j: nat, x |
        && Behaviour(env, key, worlds, actions) && i <= j < |worlds|
        && Served(actions[..i]) == before && Served(actions[..j]) == after && NotAnswered(actions, i, j, x)
      ensures TookIn(worlds, actions, i, j, x, sentNow[|sentThen|..])
    {
      SentIsReceived(env, key, worlds, actions, i, j, x, sentThen, sentNow);
    }
  }

  /** The object handles any list of messages: what it sends meanwhile is what reaches the inboxes. */
  method HandleAndDeliver(sn: Supernode, msgs: seq<Message>) returns (ghost steps: seq<Step>)
    requires sn.Valid() && NoneCollides(sn.env, sn.view.node, msgs)
    modifies sn, sn.dir.edgesByMac.Values
    ensures sn.Valid() && sn.history == old(sn.history) + steps && old(sn.sent) <= sn.sent
    ensures HandlesAll(sn.env, old(sn.view.node), msgs, steps)
    ensures Reaches(sn.env, old(sn.history), sn.history, sn.sent[|old(sn.sent)|..])
    ensures fresh(sn.dir.edgesByMac.Values - old(sn.dir.edgesByMac.Values))
  {
    hide IsTrace, Reaches, HandlesAll, NoneCollides, Run;
    ghost var before, sentThen := sn.history, sn.sent;
    steps := sn.HandleAll(msgs);
    SentReaches(sn.env, before, sn.history, sentThen, sn.sent);
  }
}
