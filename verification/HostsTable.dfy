/** The operations on a list of entries, as functions, and what they mean: the ordered list of
    (address, name) pairs, the first address found for a name, and the lines kept as they are. */
module HostsTable {
  import opened Bytes
  import opened HostsText

  type Pair = (string, string)

  // ---------------------------------------------------------------------------
  // What a list of entries means
  // ---------------------------------------------------------------------------

  function PairsOf(ip: string, hosts: seq<string>): seq<Pair> {
    seq(|hosts|, i requires 0 <= i < |hosts| => (ip, hosts[i]))
  }

  /** All pairs of the active entries, in file order. */
  function Flatten(es: seq<Entry>): seq<Pair> {
    if es == [] then []
    else (if es[0].active then PairsOf(es[0].ip, es[0].hosts) else []) + Flatten(es[1..])
  }

  /** The comments, blank and malformed lines, in file order. */
  function Inactive(es: seq<Entry>): seq<Entry> {
    if es == [] then [] else (if es[0].active then [] else [es[0]]) + Inactive(es[1..])
  }

  /** The first address given for a name. */
  function Lookup(ps: seq<Pair>, host: string): (r: string)
    requires host in Names(ps)
    ensures (r, host) in ps
  {
    if ps[0].1 == host then ps[0].0 else Lookup(ps[1..], host)
  }

  function Names(ps: seq<Pair>): set<string> {
    set i | 0 <= i < |ps| :: ps[i].1
  }

  ghost predicate NamesDistinct(ps: seq<Pair>) {
    forall i, j :: 0 <= i < j < |ps| ==> ps[i].1 != ps[j].1
  }

  function Set<T>(xs: seq<T>): set<T> {
    set i | 0 <= i < |xs| :: xs[i]
  }

  function Formatted(ip: string, hosts: seq<string>): Entry {
    Entry(ip, hosts, FormatEntry(ip, hosts), true)
  }

  lemma {:induction false} FlattenAppend(es: seq<Entry>, fs: seq<Entry>)
    ensures Flatten(es + fs) == Flatten(es) + Flatten(fs)
    decreases |es|
  {
    if es == [] {
      assert es + fs == fs;
    } else {
      assert (es + fs)[0] == es[0] && (es + fs)[1..] == es[1..] + fs;
      FlattenAppend(es[1..], fs);
    }
  }

  lemma {:induction false} InactiveAppend(es: seq<Entry>, fs: seq<Entry>)
    ensures Inactive(es + fs) == Inactive(es) + Inactive(fs)
    decreases |es|
  {
    if es == [] {
      assert es + fs == fs;
    } else {
      assert (es + fs)[0] == es[0] && (es + fs)[1..] == es[1..] + fs;
      InactiveAppend(es[1..], fs);
    }
  }

  lemma ConsMeaning(e: Entry, es: seq<Entry>)
    ensures Flatten([e] + es) == (if e.active then PairsOf(e.ip, e.hosts) else []) + Flatten(es)
    ensures Inactive([e] + es) == (if e.active then [] else [e]) + Inactive(es)
  {
    assert ([e] + es)[1..] == es;
  }

  // ---------------------------------------------------------------------------
  // First occurrences
  // ---------------------------------------------------------------------------

  /** The names not seen before, each at its first occurrence. */
  function Unique(hosts: seq<string>, seen: set<string>): seq<string> {
    if hosts == [] then []
    else if hosts[0] in seen then Unique(hosts[1..], seen)
    else [hosts[0]] + Unique(hosts[1..], seen + {hosts[0]})
  }

  /** The pairs whose name was not seen before, each name at its first occurrence. */
  function FirstPerName(ps: seq<Pair>, seen: set<string>): seq<Pair> {
    if ps == [] then []
    else if ps[0].1 in seen then FirstPerName(ps[1..], seen)
    else [ps[0]] + FirstPerName(ps[1..], seen + {ps[0].1})
  }

  lemma SetCons<T>(xs: seq<T>)
    requires xs != []
    ensures Set(xs) == {xs[0]} + Set(xs[1..])
  {
    forall x | x in Set(xs) ensures x in {xs[0]} + Set(xs[1..]) {
      var i :| 0 <= i < |xs| && xs[i] == x;
      if i > 0 { assert xs[1..][i - 1] == x; }
    }
    forall x | x in Set(xs[1..]) ensures x in Set(xs) {
      var i :| 0 <= i < |xs[1..]| && xs[1..][i] == x;
      assert xs[i + 1] == x;
    }
  }

  lemma SetAppend<T>(xs: seq<T>, ys: seq<T>)
    ensures Set(xs + ys) == Set(xs) + Set(ys)
  {
    forall x | x in Set(xs + ys) ensures x in Set(xs) + Set(ys) {
      var i :| 0 <= i < |xs + ys| && (xs + ys)[i] == x;
      if i < |xs| { assert xs[i] == x; } else { assert ys[i - |xs|] == x; }
    }
    forall x | x in Set(xs) + Set(ys) ensures x in Set(xs + ys) {
      if x in Set(xs) {
        var i :| 0 <= i < |xs| && xs[i] == x;
        assert (xs + ys)[i] == x;
      } else {
        var i :| 0 <= i < |ys| && ys[i] == x;
        assert (xs + ys)[|xs| + i] == x;
      }
    }
  }

  lemma {:induction false} UniqueSet(hosts: seq<string>, seen: set<string>)
    ensures Set(Unique(hosts, seen)) == Set(hosts) - seen
    decreases |hosts|
  {
    if hosts != [] {
      SetCons(hosts);
      if hosts[0] in seen {
        UniqueSet(hosts[1..], seen);
      } else {
        UniqueSet(hosts[1..], seen + {hosts[0]});
        var u := Unique(hosts, seen);
        SetCons(u);
        assert u[1..] == Unique(hosts[1..], seen + {hosts[0]});
      }
    }
  }

  lemma {:induction false} UniqueDistinct(hosts: seq<string>, seen: set<string>)
    ensures Distinct(Unique(hosts, seen))
    decreases |hosts|
  {
    if hosts != [] {
      if hosts[0] in seen {
        UniqueDistinct(hosts[1..], seen);
      } else {
        var rest := Unique(hosts[1..], seen + {hosts[0]});
        UniqueDistinct(hosts[1..], seen + {hosts[0]});
        UniqueSet(hosts[1..], seen + {hosts[0]});
        forall i | 0 <= i < |rest| ensures rest[i] != hosts[0] { assert rest[i] in Set(rest); }
      }
    }
  }

  /** Distinct names none of which was seen are all kept. */
  lemma {:induction false} UniqueKeeps(hosts: seq<string>, seen: set<string>)
    requires Distinct(hosts) && Set(hosts) !! seen
    ensures Unique(hosts, seen) == hosts
    decreases |hosts|
  {
    if hosts != [] {
      SetCons(hosts);
      assert hosts[0] in Set(hosts);
      forall i | 0 <= i < |hosts[1..]| ensures hosts[1..][i] != hosts[0] { assert hosts[1..][i] == hosts[i + 1]; }
      UniqueKeeps(hosts[1..], seen + {hosts[0]});
    }
  }

  /** Dropping repetitions first makes no difference. */
  lemma {:induction false} UniqueTwice(hosts: seq<string>, early: set<string>, seen: set<string>)
    requires early <= seen
    ensures Unique(Unique(hosts, early), seen) == Unique(hosts, seen)
    decreases |hosts|
  {
    if hosts != [] {
      if hosts[0] in early {
        UniqueTwice(hosts[1..], early, seen);
      } else {
        var u := Unique(hosts, early);
        assert u[0] == hosts[0] && u[1..] == Unique(hosts[1..], early + {hosts[0]});
        if hosts[0] in seen {
          UniqueTwice(hosts[1..], early + {hosts[0]}, seen);
        } else {
          UniqueTwice(hosts[1..], early + {hosts[0]}, seen + {hosts[0]});
        }
      }
    }
  }

  lemma {:induction false} FirstPerNameLine(ip: string, hosts: seq<string>, rest: seq<Pair>, seen: set<string>)
    ensures FirstPerName(PairsOf(ip, hosts) + rest, seen)
         == PairsOf(ip, Unique(hosts, seen)) + FirstPerName(rest, seen + Set(hosts))
    decreases |hosts|
  {
    var ps := PairsOf(ip, hosts) + rest;
    if hosts == [] {
      assert ps == rest && seen + Set(hosts) == seen;
    } else {
      SetCons(hosts);
      assert ps[0] == (ip, hosts[0]) && ps[1..] == PairsOf(ip, hosts[1..]) + rest;
      if hosts[0] in seen {
        FirstPerNameLine(ip, hosts[1..], rest, seen);
        assert seen + Set(hosts) == seen + Set(hosts[1..]);
      } else {
        FirstPerNameLine(ip, hosts[1..], rest, seen + {hosts[0]});
        assert seen + Set(hosts) == seen + {hosts[0]} + Set(hosts[1..]);
        assert PairsOf(ip, Unique(hosts, seen)) == [(ip, hosts[0])] + PairsOf(ip, Unique(hosts[1..], seen + {hosts[0]}));
      }
    }
  }

  lemma NamesCons(ps: seq<Pair>)
    requires ps != []
    ensures Names(ps) == {ps[0].1} + Names(ps[1..])
  {
    forall x | x in Names(ps) ensures x in {ps[0].1} + Names(ps[1..]) {
      var i :| 0 <= i < |ps| && ps[i].1 == x;
      if i > 0 { assert ps[1..][i - 1].1 == x; }
    }
    forall x | x in Names(ps[1..]) ensures x in Names(ps) {
      var i :| 0 <= i < |ps[1..]| && ps[1..][i].1 == x;
      assert ps[i + 1].1 == x;
    }
  }

  /** First occurrences keep every name once, with the address that was found first. */
  lemma {:induction false} FirstPerNameMeaning(ps: seq<Pair>, seen: set<string>)
    ensures Names(FirstPerName(ps, seen)) == Names(ps) - seen
    ensures NamesDistinct(FirstPerName(ps, seen))
    ensures forall h :: h in Names(ps) && h !in seen ==>
      h in Names(FirstPerName(ps, seen)) && Lookup(FirstPerName(ps, seen), h) == Lookup(ps, h)
    decreases |ps|
  {
    if ps != [] {
      NamesCons(ps);
      var q := FirstPerName(ps, seen);
      if ps[0].1 in seen {
        FirstPerNameMeaning(ps[1..], seen);
      } else {
        FirstPerNameMeaning(ps[1..], seen + {ps[0].1});
        NamesCons(q);
        assert q[1..] == FirstPerName(ps[1..], seen + {ps[0].1});
        forall i | 0 < i < |q| ensures q[i].1 != ps[0].1 { assert q[1..][i - 1].1 in Names(q[1..]); }
      }
    }
  }

  lemma {:induction false} FirstPerNameSubset(ps: seq<Pair>, seen: set<string>)
    ensures Set(FirstPerName(ps, seen)) <= Set(ps)
    decreases |ps|
  {
    if ps != [] {
      SetCons(ps);
      if ps[0].1 in seen {
        FirstPerNameSubset(ps[1..], seen);
      } else {
        FirstPerNameSubset(ps[1..], seen + {ps[0].1});
        SetCons(FirstPerName(ps, seen));
        assert FirstPerName(ps, seen)[1..] == FirstPerName(ps[1..], seen + {ps[0].1});
      }
    }
  }

  // ---------------------------------------------------------------------------
  // Removing duplicate names
  // ---------------------------------------------------------------------------

  /** The first pass: repetitions within a line. */
  function LineDeduped(e: Entry): Entry {
    if !e.active || |e.hosts| <= 1 || Unique(e.hosts, {}) == e.hosts then e
    else Formatted(e.ip, Unique(e.hosts, {}))
  }

  function LinesDeduped(es: seq<Entry>): seq<Entry> {
    seq(|es|, i requires 0 <= i < |es| => LineDeduped(es[i]))
  }

  /** The second pass: names seen on an earlier line, and lines left without names. */
  function Deduped(es: seq<Entry>, seen: set<string>): seq<Entry> {
    if es == [] then []
    else if !es[0].active then [es[0]] + Deduped(es[1..], seen)
    else
      var u := Unique(es[0].hosts, seen);
      (if u == [] then [] else if u == es[0].hosts then [es[0]] else [Formatted(es[0].ip, u)])
      + Deduped(es[1..], seen + Set(es[0].hosts))
  }

  function RemoveDuplicates(es: seq<Entry>): seq<Entry> {
    Deduped(LinesDeduped(es), {})
  }

  lemma {:induction false} DedupedMeaning(es: seq<Entry>, seen: set<string>)
    ensures Flatten(Deduped(es, seen)) == FirstPerName(Flatten(es), seen)
    ensures Inactive(Deduped(es, seen)) == Inactive(es)
    decreases |es|
  {
    if es != [] {
      var e, rest := es[0], es[1..];
      if !e.active {
        DedupedMeaning(rest, seen);
        ConsMeaning(e, Deduped(rest, seen));
        assert [] + Flatten(rest) == Flatten(rest);
        assert Flatten(Deduped(es, seen)) == [] + Flatten(Deduped(rest, seen));
      } else {
        var ds, u := Deduped(rest, seen + Set(e.hosts)), Unique(e.hosts, seen);
        DedupedMeaning(rest, seen + Set(e.hosts));
        FirstPerNameLine(e.ip, e.hosts, Flatten(rest), seen);
        ConsMeaning(if u == e.hosts then e else Formatted(e.ip, u), ds);
        if u == [] { assert Deduped(es, seen) == [] + ds == ds; }
        assert PairsOf(e.ip, u) + Flatten(ds) == Flatten(Deduped(es, seen));
      }
    }
  }

  lemma {:induction false} LinesDedupedMeaning(es: seq<Entry>, seen: set<string>)
    ensures FirstPerName(Flatten(LinesDeduped(es)), seen) == FirstPerName(Flatten(es), seen)
    ensures Inactive(LinesDeduped(es)) == Inactive(es)
    decreases |es|
  {
    if es != [] {
      var e, rest, ds := es[0], es[1..], LinesDeduped(es);
      assert ds[0] == LineDeduped(e) && ds[1..] == LinesDeduped(rest);
      if !e.active {
        LinesDedupedMeaning(rest, seen);
        assert [] + Flatten(rest) == Flatten(rest) && [] + Flatten(ds[1..]) == Flatten(ds[1..]);
      } else {
        LinesDedupedMeaning(rest, seen + Set(e.hosts));
        FirstPerNameLine(e.ip, e.hosts, Flatten(rest), seen);
        FirstPerNameLine(ds[0].ip, ds[0].hosts, Flatten(ds[1..]), seen);
        UniqueTwice(e.hosts, {}, seen);
        UniqueSet(e.hosts, {});
        assert Set(ds[0].hosts) == Set(e.hosts) && Unique(ds[0].hosts, seen) == Unique(e.hosts, seen);
      }
    }
  }

  /** Removing duplicates leaves each name once, at its first occurrence: the address found first
      for a name stays the same, and the inactive lines stay. */
  lemma RemoveDuplicatesMeaning(es: seq<Entry>)
    ensures var rs := RemoveDuplicates(es);
      && Flatten(rs) == FirstPerName(Flatten(es), {})
      && NamesDistinct(Flatten(rs)) && Names(Flatten(rs)) == Names(Flatten(es))
      && (forall h :: h in Names(Flatten(es)) ==> Lookup(Flatten(rs), h) == Lookup(Flatten(es), h))
      && Inactive(rs) == Inactive(es)
  {
    DedupedMeaning(LinesDeduped(es), {});
    LinesDedupedMeaning(es, {});
    FirstPerNameMeaning(Flatten(es), {});
  }
}
