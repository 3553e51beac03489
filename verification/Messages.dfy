/** Whole lists of messages. What each message makes the supernode do, as steps of a run, and which
    lists never ask it to file an address that is live in another community. */
module Messages {
  import opened Bytes
  import opened Membership
  import opened Partition
  import opened Cleanup

  /** What reaches the supernode: the four messages that change it, and the tick of the cleanup. */
  datatype Message =
    | Joins(reg: RegisterMsg)
    | Beats(hb: HeartbeatMsg)
    | Leaves(unreg: UnregisterMsg)
    | Reports(hash: int, mac: Mac, infos: P2PInfos)
    | Cleans(now: int, expiry: int)

  /** The steps one message leads to; a cleanup removes the stale edges in some order. */
  ghost predicate Handles(env: Env, s: Node, msg: Message, steps: seq<Step>) {
    match msg
    case Joins(reg) => steps == [RegisterStep(reg)]
    case Beats(hb) => steps == [HeartbeatStep(hb)]
    case Leaves(unreg) => steps == [UnregisterStep(unreg)]
    case Reports(hash, mac, infos) => steps == [ReportStep(hash, mac, infos)]
    case Cleans(now, expiry) => exists ids :: IsStaleList(s, now, expiry, ids) && steps == Expiries(ids, now, expiry)
  }

  /** The steps a list of messages leads to, message by message. */
  ghost predicate HandlesAll(env: Env, s: Node, msgs: seq<Message>, steps: seq<Step>)
    decreases |msgs|
  {
    if msgs == [] then steps == []
    else
      exists k :: 0 <= k <= |steps| && HandlesAll(env, s, msgs[..|msgs| - 1], steps[..k])
                  && Handles(env, Run(env, s, steps[..k]), msgs[|msgs| - 1], steps[k..])
  }

  /** No message of the list is an accepted registration for an address that is live in another
      community when its turn comes. */
  ghost predicate NoneCollides(env: Env, s: Node, msgs: seq<Message>)
    decreases |msgs|
  {
    msgs != [] ==>
      && (msgs[0].Joins? ==> !Collides(env, s, RegisterStep(msgs[0].reg)))
      && (forall steps :: Handles(env, s, msgs[0], steps) ==> NoneCollides(env, Run(env, s, steps), msgs[1..]))
  }

  lemma NoneCollidesAt(env: Env, s: Node, msgs: seq<Message>, i: nat)
    requires i < |msgs| && NoneCollides(env, s, msgs[i..])
    ensures msgs[i].Joins? ==> !Collides(env, s, RegisterStep(msgs[i].reg))
    ensures forall steps :: Handles(env, s, msgs[i], steps) ==> NoneCollides(env, Run(env, s, steps), msgs[i + 1..])
  {
    hide Handles, Collides, Run;
    assert msgs[i..][0] == msgs[i] && msgs[i..][1..] == msgs[i + 1..];
  }

  lemma RunOne(env: Env, s: Node, step: Step)
    ensures Run(env, s, [step]) == Next(env, s, step)
  {
    hide Next;
    assert [step][..0] == [];
  }

  lemma {:induction false} RunJoin(env: Env, s: Node, steps: seq<Step>, more: seq<Step>)
    ensures Run(env, s, steps + more) == Run(env, Run(env, s, steps), more)
    decreases |more|
  {
    hide Next;
    if more == [] {
      assert steps + more == steps;
    } else {
      assert (steps + more)[..|steps + more| - 1] == steps + more[..|more| - 1];
      RunJoin(env, s, steps, more[..|more| - 1]);
    }
  }

  lemma NothingHandled(env: Env, s: Node)
    ensures HandlesAll(env, s, [], []) && Run(env, s, []) == s
  {}

  lemma HandlesSnoc(
    env: Env, s: Node, msgs: seq<Message>, steps: seq<Step>, msg: Message, more: seq<Step>)
    requires HandlesAll(env, s, msgs, steps) && Handles(env, Run(env, s, steps), msg, more)
    ensures HandlesAll(env, s, msgs + [msg], steps + more)
    ensures Run(env, s, steps + more) == Run(env, Run(env, s, steps), more)
  {
    RunJoin(env, s, steps, more);
    hide Run, Handles;
    assert (msgs + [msg])[..|msgs|] == msgs && (msgs + [msg])[|msgs|] == msg;
    assert (steps + more)[..|steps|] == steps && (steps + more)[|steps|..] == more;
  }

  // ---------------------------------------------------------------------------
  // One community for each address
  // ---------------------------------------------------------------------------

  /** Every address is live in its own community at most. */
  ghost predicate AtHome(s: Node, home: Mac -> int) {
    forall h, m :: Member(s, h, m) ==> h == home(m)
  }

  lemma AtHomeNext(env: Env, s: Node, step: Step, home: Mac -> int)
    requires NodeOk(env, s) && AtHome(s, home) && (step.RegisterStep? ==> step.reg.hash == home(step.reg.mac))
    ensures AtHome(Next(env, s, step), home)
  {
    hide NodeOk, Next, Left, Joined;
    forall h, m | Member(Next(env, s, step), h, m) ensures h == home(m) {
      NextMembers(env, s, step, h, m);
      JoinedIs(env, s, step);
    }
  }

  lemma {:induction false} AtHomeRun(env: Env, s: Node, steps: seq<Step>, home: Mac -> int)
    requires NodeOk(env, s) && AtHome(s, home)
    requires forall i :: 0 <= i < |steps| && steps[i].RegisterStep? ==> steps[i].reg.hash == home(steps[i].reg.mac)
    ensures AtHome(Run(env, s, steps), home) && NodeOk(env, Run(env, s, steps))
    decreases |steps|
  {
    hide NodeOk, Next, AtHome;
    EveryRunKeepsOk(env, s, steps);
    if steps != [] {
      var front := steps[..|steps| - 1];
      AtHomeRun(env, s, front, home);
      AtHomeNext(env, Run(env, s, front), steps[|steps| - 1], home);
    }
  }

  /** A condition that can be read off a list: if every address has one community and every
      registration names it, no message collides. */
  lemma {:induction false} HomesNeverCollide(env: Env, s: Node, msgs: seq<Message>, home: Mac -> int)
    requires NodeOk(env, s) && AtHome(s, home)
    requires forall i :: 0 <= i < |msgs| && msgs[i].Joins? ==> msgs[i].reg.hash == home(msgs[i].reg.mac)
    ensures NoneCollides(env, s, msgs)
    decreases |msgs|
  {
    if msgs != [] {
      var msg, rest := msgs[0], msgs[1..];
      assert msg.Joins? ==> !LiveElsewhere(s, msg.reg.hash, msg.reg.mac);
      hide NodeOk, Run, AtHome;
      forall steps | Handles(env, s, msg, steps) ensures NoneCollides(env, Run(env, s, steps), rest) {
        OwnSteps(env, s, msg, steps, home);
        AtHomeRun(env, s, steps, home);
        HomesNeverCollide(env, Run(env, s, steps), rest, home);
      }
    }
  }

  lemma OwnSteps(env: Env, s: Node, msg: Message, steps: seq<Step>, home: Mac -> int)
    requires Handles(env, s, msg, steps) && (msg.Joins? ==> msg.reg.hash == home(msg.reg.mac))
    ensures forall i :: 0 <= i < |steps| && steps[i].RegisterStep? ==> steps[i].reg.hash == home(steps[i].reg.mac)
  {}
}
