/** Adding, removing and sorting, as functions on the list of entries, and their meaning as set
    operations on the (address, name) pairs. */
module HostsOps {
  import opened Bytes
  import opened HostsText
  import opened HostsTable
  import opened HostsClean

  function PairSet(es: seq<Entry>): set<Pair> { Set(Flatten(es)) }

  lemma PairSetCons(e: Entry, es: seq<Entry>)
    ensures PairSet([e] + es) == (if e.active then Set(PairsOf(e.ip, e.hosts)) else {}) + PairSet(es)
  {
    ConsMeaning(e, es);
    SetAppend(if e.active then PairsOf(e.ip, e.hosts) else [], Flatten(es));
  }

  // ---------------------------------------------------------------------------
  // Adding
  // ---------------------------------------------------------------------------

  /** The given names without surrounding space, leaving out those that are nothing but space. */
  function Cleaned(hosts: seq<string>): seq<string> {
    if hosts == [] then []
    else (if Trim(hosts[0]) == "" then [] else [Trim(hosts[0])]) + Cleaned(hosts[1..])
  }

  /** The names not on the line yet go at its end; the raw line changes only if there are any. */
  function Extended(e: Entry, hosts: seq<string>): Entry {
    var more := Unique(hosts, Set(e.hosts));
    if more == [] then e else Formatted(e.ip, e.hosts + more)
  }

  /** The first active line of the address is extended; without one a new line is added. */
  function Added(es: seq<Entry>, ip: string, hosts: seq<string>): seq<Entry> {
    if es == [] then [Formatted(ip, hosts)]
    else if es[0].active && es[0].ip == ip then [Extended(es[0], hosts)] + es[1..]
    else [es[0]] + Added(es[1..], ip, hosts)
  }

  /** Adding is union. */
  lemma {:induction false} AddedIsUnion(es: seq<Entry>, ip: string, hosts: seq<string>)
    ensures PairSet(Added(es, ip, hosts)) == PairSet(es) + Set(PairsOf(ip, hosts))
    ensures Inactive(Added(es, ip, hosts)) == Inactive(es)
    decreases |es|
  {
    if es == [] {
      PairSetCons(Formatted(ip, hosts), []);
      assert [Formatted(ip, hosts)] == [Formatted(ip, hosts)] + [];
    } else {
      var e, rest := es[0], es[1..];
      assert es == [e] + rest;
      PairSetCons(e, rest);
      if e.active && e.ip == ip {
        ExtendedPairs(e, hosts);
        PairSetCons(Extended(e, hosts), rest);
        ConsMeaning(Extended(e, hosts), rest);
      } else {
        AddedIsUnion(rest, ip, hosts);
        PairSetCons(e, Added(rest, ip, hosts));
        ConsMeaning(e, Added(rest, ip, hosts));
      }
    }
  }

  lemma ExtendedPairs(e: Entry, hosts: seq<string>)
    requires e.active
    ensures Extended(e, hosts).active && Extended(e, hosts).ip == e.ip
    ensures Set(PairsOf(e.ip, Extended(e, hosts).hosts)) == Set(PairsOf(e.ip, e.hosts)) + Set(PairsOf(e.ip, hosts))
  {
    var x := Extended(e, hosts);
    UniqueSet(hosts, Set(e.hosts));
    SetAppend(e.hosts, Unique(hosts, Set(e.hosts)));
    assert Set(x.hosts) == Set(e.hosts) + Set(hosts);
    forall p: Pair ensures p in Set(PairsOf(e.ip, x.hosts)) <==>
        p in Set(PairsOf(e.ip, e.hosts)) + Set(PairsOf(e.ip, hosts))
    {
      SetPairsOf(e.ip, x.hosts, p);
      SetPairsOf(e.ip, e.hosts, p);
      SetPairsOf(e.ip, hosts, p);
    }
  }

  // ---------------------------------------------------------------------------
  // Removing
  // ---------------------------------------------------------------------------

  function Without(hosts: seq<string>, gone: set<string>): seq<string> {
    if hosts == [] then []
    else (if hosts[0] in gone then [] else [hosts[0]]) + Without(hosts[1..], gone)
  }

  /** Whether a removal is about this address; no address means all of them. */
  predicate Concerns(only: Option<string>, ip: string) {
    only.None? || only.value == ip
  }

  /** A line that has some of the names loses them; one left with none goes. */
  function RemovedLine(e: Entry, only: Option<string>, gone: set<string>): seq<Entry> {
    var left := Without(e.hosts, gone);
    if !e.active || !Concerns(only, e.ip) || left == e.hosts then [e]
    else if left == [] then []
    else [Formatted(e.ip, left)]
  }

  function Removed(es: seq<Entry>, only: Option<string>, gone: set<string>): seq<Entry> {
    if es == [] then [] else RemovedLine(es[0], only, gone) + Removed(es[1..], only, gone)
  }

  function RemovedByIp(es: seq<Entry>, ip: string): seq<Entry> {
    if es == [] then []
    else (if es[0].active && es[0].ip == ip then [] else [es[0]]) + RemovedByIp(es[1..], ip)
  }

  /** The pairs a removal leaves, in order. */
  function Left(ps: seq<Pair>, only: Option<string>, gone: set<string>): seq<Pair> {
    if ps == [] then []
    else (if Concerns(only, ps[0].0) && ps[0].1 in gone then [] else [ps[0]]) + Left(ps[1..], only, gone)
  }

  lemma {:induction false} LeftAppend(ps: seq<Pair>, qs: seq<Pair>, only: Option<string>, gone: set<string>)
    ensures Left(ps + qs, only, gone) == Left(ps, only, gone) + Left(qs, only, gone)
    decreases |ps|
  {
    if ps == [] {
      assert ps + qs == qs;
    } else {
      assert (ps + qs)[0] == ps[0] && (ps + qs)[1..] == ps[1..] + qs;
      LeftAppend(ps[1..], qs, only, gone);
      Regroup(if Concerns(only, ps[0].0) && ps[0].1 in gone then [] else [ps[0]],
              Left(ps[1..], only, gone), Left(qs, only, gone));
    }
  }

  lemma {:induction false} LeftLine(ip: string, hosts: seq<string>, only: Option<string>, gone: set<string>)
    ensures Left(PairsOf(ip, hosts), only, gone)
         == PairsOf(ip, if Concerns(only, ip) then Without(hosts, gone) else hosts)
    decreases |hosts|
  {
    if hosts != [] {
      assert PairsOf(ip, hosts)[1..] == PairsOf(ip, hosts[1..]);
      LeftLine(ip, hosts[1..], only, gone);
    }
  }

  /** Removing names is a filter: the pairs that stay are exactly the others, in the same order. */
  lemma {:induction false} RemovedIsFilter(es: seq<Entry>, only: Option<string>, gone: set<string>)
    ensures Flatten(Removed(es, only, gone)) == Left(Flatten(es), only, gone)
    ensures Inactive(Removed(es, only, gone)) == Inactive(es)
    decreases |es|
  {
    if es != [] {
      var e, rest := es[0], es[1..];
      var more := Removed(rest, only, gone);
      RemovedIsFilter(rest, only, gone);
      LeftAppend(if e.active then PairsOf(e.ip, e.hosts) else [], Flatten(rest), only, gone);
      LeftLine(e.ip, e.hosts, only, gone);
      var left := Without(e.hosts, gone);
      if !e.active || !Concerns(only, e.ip) || left == e.hosts {
        ConsMeaning(e, more);
      } else if left == [] {
        assert [] + Flatten(more) == Flatten(more) && [] + more == more;
      } else {
        ConsMeaning(Formatted(e.ip, left), more);
      }
    }
  }

  lemma {:induction false} LeftSet(ps: seq<Pair>, only: Option<string>, gone: set<string>)
    ensures Set(Left(ps, only, gone)) == set p | p in Set(ps) && !(Concerns(only, p.0) && p.1 in gone)
    decreases |ps|
  {
    if ps != [] {
      SetCons(ps);
      LeftSet(ps[1..], only, gone);
      var hit := Concerns(only, ps[0].0) && ps[0].1 in gone;
      SetAppend(if hit then [] else [ps[0]], Left(ps[1..], only, gone));
      if !hit { SetCons([ps[0]]); }
    }
  }

  function OtherIps(ps: seq<Pair>, ip: string): seq<Pair> {
    if ps == [] then [] else (if ps[0].0 == ip then [] else [ps[0]]) + OtherIps(ps[1..], ip)
  }

  lemma {:induction false} OtherIpsLine(x: string, hosts: seq<string>, rest: seq<Pair>, ip: string)
    ensures OtherIps(PairsOf(x, hosts) + rest, ip) == (if x == ip then [] else PairsOf(x, hosts)) + OtherIps(rest, ip)
    decreases |hosts|
  {
    var ps := PairsOf(x, hosts) + rest;
    if hosts == [] {
      assert ps == rest;
    } else {
      assert ps[0] == (x, hosts[0]) && ps[1..] == PairsOf(x, hosts[1..]) + rest;
      OtherIpsLine(x, hosts[1..], rest, ip);
      assert PairsOf(x, hosts) == [(x, hosts[0])] + PairsOf(x, hosts[1..]);
    }
  }

  /** Removing an address is a filter as well. */
  lemma {:induction false} RemovedByIpIsFilter(es: seq<Entry>, ip: string)
    ensures Flatten(RemovedByIp(es, ip)) == OtherIps(Flatten(es), ip)
    ensures Inactive(RemovedByIp(es, ip)) == Inactive(es)
    decreases |es|
  {
    if es != [] {
      var e, rest := es[0], es[1..];
      var more := RemovedByIp(rest, ip);
      RemovedByIpIsFilter(rest, ip);
      if e.active { OtherIpsLine(e.ip, e.hosts, Flatten(rest), ip); }
      ConsMeaning(e, more);
      assert [] + Flatten(more) == Flatten(more) && [] + Flatten(rest) == Flatten(rest) && [] + more == more;
    }
  }

  lemma {:induction false} OtherIpsSet(ps: seq<Pair>, ip: string)
    ensures Set(OtherIps(ps, ip)) == set p | p in Set(ps) && p.0 != ip
    decreases |ps|
  {
    if ps != [] {
      SetCons(ps);
      OtherIpsSet(ps[1..], ip);
      SetAppend(if ps[0].0 == ip then [] else [ps[0]], OtherIps(ps[1..], ip));
      if ps[0].0 != ip { SetCons([ps[0]]); }
    }
  }

  // ---------------------------------------------------------------------------
  // Removing given names of one address
  // ---------------------------------------------------------------------------

  predicate LineTouched(e: Entry, ip: string, gone: set<string>) {
    e.active && e.ip == ip && Without(e.hosts, gone) != e.hosts
  }

  /** Some active line of the address has one of the names. */
  predicate Touched(es: seq<Entry>, ip: string, gone: set<string>) {
    es != [] && (LineTouched(es[0], ip, gone) || Touched(es[1..], ip, gone))
  }

  /** Some active line of the address has only names that are to go. */
  predicate LineGone(es: seq<Entry>, ip: string, gone: set<string>) {
    es != [] && ((LineTouched(es[0], ip, gone) && Without(es[0].hosts, gone) == []) || LineGone(es[1..], ip, gone))
  }

  /** What is kept: the removal takes effect only when a whole line disappears. */
  function Committed(es: seq<Entry>, ip: string, gone: set<string>): seq<Entry> {
    if LineGone(es, ip, gone) then Removed(es, Some(ip), gone) else es
  }

  lemma {:induction false} WithoutSet(hosts: seq<string>, gone: set<string>)
    ensures Set(Without(hosts, gone)) == Set(hosts) - gone
    decreases |hosts|
  {
    if hosts != [] {
      var head, rest := if hosts[0] in gone then [] else [hosts[0]], Without(hosts[1..], gone);
      assert Without(hosts, gone) == head + rest;
      SetCons(hosts);
      WithoutSet(hosts[1..], gone);
      SetAppend(head, rest);
      SetFew(hosts[0]);
      hide Set, Without;
    }
  }

  lemma SetFew(h: string)
    ensures Set<string>([]) == {} && Set([h]) == {h}
  {
    assert [h][0] == h;
  }

  lemma {:induction false} WithoutKeeps(hosts: seq<string>, gone: set<string>)
    requires Set(hosts) !! gone
    ensures Without(hosts, gone) == hosts
    decreases |hosts|
  {
    if hosts != [] {
      SetCons(hosts);
      WithoutKeeps(hosts[1..], gone);
    }
  }

  lemma {:induction false} TouchedPair(es: seq<Entry>, ip: string, gone: set<string>) returns (host: string)
    requires Touched(es, ip, gone)
    ensures host in gone && (ip, host) in PairSet(es)
    decreases |es|
  {
    var e, rest := es[0], es[1..];
    assert es == [e] + rest;
    PairSetCons(e, rest);
    if e.active && e.ip == ip && Without(e.hosts, gone) != e.hosts {
      if Set(e.hosts) !! gone { WithoutKeeps(e.hosts, gone); }
      host :| host in Set(e.hosts) && host in gone;
      SetPairsOf(ip, e.hosts, (ip, host));
    } else {
      host := TouchedPair(rest, ip, gone);
    }
  }

  /** The documented effect of removing names from an address, that exactly those pairs disappear,
      holds of a removal that reports success if and only if some line of the address loses all
      its names. */
  lemma RemoveExactly(es: seq<Entry>, ip: string, gone: set<string>)
    requires Touched(es, ip, gone)
    ensures PairSet(Committed(es, ip, gone)) == (set p | p in PairSet(es) && !(p.0 == ip && p.1 in gone))
       <==> LineGone(es, ip, gone)
  {
    RemovedIsFilter(es, Some(ip), gone);
    LeftSet(Flatten(es), Some(ip), gone);
    var host := TouchedPair(es, ip, gone);
    var kept := set p | p in PairSet(es) && !(p.0 == ip && p.1 in gone);
    assert (ip, host) !in kept;
  }

  /** A removal that reports success and leaves everything as it was. */
  lemma RemoveCanDoNothing()
    ensures var es := [Formatted("10.0.0.1", ["a", "b"])];
      Touched(es, "10.0.0.1", {"a"}) && Committed(es, "10.0.0.1", {"a"}) == es
  {
    var hosts := ["a", "b"];
    assert hosts[1..] == ["b"] && Without(["b"], {"a"}) == ["b"];
    assert Without(hosts, {"a"}) == ["b"];
  }
}
