/** Combining lines with the same address, cleaning, and wrapping long lines. `Clean` reaches a
    normal form: names and addresses are unique, every name keeps the one of its addresses that
    appears earliest in the file, inactive lines stay, and cleaning again changes nothing. */
module HostsClean {
  import opened Bytes
  import opened HostsText
  import opened HostsTable

  // ---------------------------------------------------------------------------
  // Combining lines with the same address
  // ---------------------------------------------------------------------------

  /** All names given for an address, line after line. */
  function NamesFor(es: seq<Entry>, ip: string): seq<string> {
    if es == [] then []
    else (if es[0].active && es[0].ip == ip then es[0].hosts else []) + NamesFor(es[1..], ip)
  }

  /** Some address is on an active line after another one, or was done before. */
  predicate Repeats(es: seq<Entry>, done: set<string>) {
    es != [] && if es[0].active then es[0].ip in done || Repeats(es[1..], done + {es[0].ip}) else Repeats(es[1..], done)
  }

  /** The first line of each address takes all its names; later ones go. */
  function Merged(es: seq<Entry>, done: set<string>, all: seq<Entry>): seq<Entry> {
    if es == [] then []
    else if !es[0].active then [es[0]] + Merged(es[1..], done, all)
    else if es[0].ip in done then Merged(es[1..], done, all)
    else [Formatted(es[0].ip, Unique(NamesFor(all, es[0].ip), {}))] + Merged(es[1..], done + {es[0].ip}, all)
  }

  function Combine(es: seq<Entry>): seq<Entry> {
    if Repeats(es, {}) then Merged(es, {}, es) else es
  }

  /** The addresses of the active lines, in order of first appearance. */
  function IpOrder(es: seq<Entry>, done: set<string>): seq<string> {
    if es == [] then []
    else if !es[0].active || es[0].ip in done then IpOrder(es[1..], done)
    else [es[0].ip] + IpOrder(es[1..], done + {es[0].ip})
  }

  /** The first of these addresses that has the name. */
  function FirstOwner(ips: seq<string>, es: seq<Entry>, host: string): Option<string> {
    if ips == [] then None
    else if host in Set(NamesFor(es, ips[0])) then Some(ips[0])
    else FirstOwner(ips[1..], es, host)
  }

  /** The address found for a name, if there is one. */
  function Find(ps: seq<Pair>, host: string): Option<string> {
    if host in Names(ps) then Some(Lookup(ps, host)) else None
  }

  lemma {:induction false} FindLine(ip: string, hosts: seq<string>, rest: seq<Pair>, host: string)
    ensures Find(PairsOf(ip, hosts) + rest, host) == if host in Set(hosts) then Some(ip) else Find(rest, host)
    decreases |hosts|
  {
    var ps := PairsOf(ip, hosts) + rest;
    if hosts == [] {
      assert ps == rest;
    } else {
      SetCons(hosts);
      NamesCons(ps);
      assert ps[1..] == PairsOf(ip, hosts[1..]) + rest;
      FindLine(ip, hosts[1..], rest, host);
    }
  }

  /** In the combined list a name is found at the first address that has it. */
  lemma {:induction false} FindInMerged(es: seq<Entry>, done: set<string>, all: seq<Entry>, host: string)
    ensures Find(Flatten(Merged(es, done, all)), host) == FirstOwner(IpOrder(es, done), all, host)
    decreases |es|
  {
    if es != [] {
      var e, rest := es[0], es[1..];
      if !e.active {
        FindInMerged(rest, done, all, host);
        ConsMeaning(e, Merged(rest, done, all));
        assert [] + Flatten(Merged(rest, done, all)) == Flatten(Merged(rest, done, all));
      } else if e.ip in done {
        FindInMerged(rest, done, all, host);
      } else {
        var names := NamesFor(all, e.ip);
        var more := Merged(rest, done + {e.ip}, all);
        FindInMerged(rest, done + {e.ip}, all, host);
        ConsMeaning(Formatted(e.ip, Unique(names, {})), more);
        FindLine(e.ip, Unique(names, {}), Flatten(more), host);
        UniqueSet(names, {});
      }
    }
  }

  lemma {:induction false} NoNamesElsewhere(es: seq<Entry>, done: set<string>, ip: string)
    requires !Repeats(es, done) && ip in done
    ensures NamesFor(es, ip) == []
    decreases |es|
  {
    if es != [] {
      NoNamesElsewhere(es[1..], if es[0].active then done + {es[0].ip} else done, ip);
    }
  }

  /** When no address repeats, a name is found at the first address that has it already. `all` is
      the whole list, of which `es` is the part not yet walked. */
  lemma {:induction false} FindUnmerged(es: seq<Entry>, done: set<string>, all: seq<Entry>, host: string)
    requires !Repeats(es, done)
    requires forall ip :: ip !in done ==> NamesFor(all, ip) == NamesFor(es, ip)
    ensures Find(Flatten(es), host) == FirstOwner(IpOrder(es, done), all, host)
    decreases |es|
  {
    if es != [] {
      var e, rest := es[0], es[1..];
      if !e.active {
        forall ip | ip !in done ensures NamesFor(all, ip) == NamesFor(rest, ip) {
          assert [] + NamesFor(rest, ip) == NamesFor(rest, ip);
        }
        FindUnmerged(rest, done, all, host);
        assert [] + Flatten(rest) == Flatten(rest);
      } else {
        NoNamesElsewhere(rest, done + {e.ip}, e.ip);
        assert NamesFor(all, e.ip) == NamesFor(es, e.ip) == e.hosts + [] == e.hosts;
        forall ip | ip !in done + {e.ip} ensures NamesFor(all, ip) == NamesFor(rest, ip) {
          assert [] + NamesFor(rest, ip) == NamesFor(rest, ip);
        }
        FindUnmerged(rest, done + {e.ip}, all, host);
        FindLine(e.ip, e.hosts, Flatten(rest), host);
      }
    }
  }

  lemma FindInCombined(es: seq<Entry>, host: string)
    ensures Find(Flatten(Combine(es)), host) == FirstOwner(IpOrder(es, {}), es, host)
  {
    if Repeats(es, {}) {
      FindInMerged(es, {}, es, host);
    } else {
      FindUnmerged(es, {}, es, host);
    }
  }

  lemma {:induction false} MergedKeepsInactive(es: seq<Entry>, done: set<string>, all: seq<Entry>)
    ensures Inactive(Merged(es, done, all)) == Inactive(es)
    decreases |es|
  {
    if es != [] {
      var e, rest := es[0], es[1..];
      var done' := if e.active then done + {e.ip} else done;
      if e.active && e.ip in done {
        MergedKeepsInactive(rest, done, all);
      } else {
        MergedKeepsInactive(rest, done', all);
        var head := if e.active then Formatted(e.ip, Unique(NamesFor(all, e.ip), {})) else e;
        ConsMeaning(head, Merged(rest, done', all));
      }
    }
  }

  /** No address repeats in the combined list. */
  lemma {:induction false} MergedNoRepeats(es: seq<Entry>, done: set<string>, all: seq<Entry>)
    ensures !Repeats(Merged(es, done, all), done)
    decreases |es|
  {
    if es != [] {
      var e, rest, m := es[0], es[1..], Merged(es, done, all);
      if !e.active {
        MergedNoRepeats(rest, done, all);
        assert m[1..] == Merged(rest, done, all);
      } else if e.ip in done {
        MergedNoRepeats(rest, done, all);
      } else {
        MergedNoRepeats(rest, done + {e.ip}, all);
        assert m[1..] == Merged(rest, done + {e.ip}, all);
      }
    }
  }

  lemma CombineNoRepeats(es: seq<Entry>)
    ensures !Repeats(Combine(es), {}) && Inactive(Combine(es)) == Inactive(es)
  {
    if Repeats(es, {}) {
      MergedNoRepeats(es, {}, es);
      MergedKeepsInactive(es, {}, es);
    }
  }

  // Combining keeps the set of pairs.

  lemma SetPairsOf(ip: string, hosts: seq<string>, p: Pair)
    ensures p in Set(PairsOf(ip, hosts)) <==> p.0 == ip && p.1 in Set(hosts)
  {
    if p.0 == ip && p.1 in Set(hosts) {
      var i :| 0 <= i < |hosts| && hosts[i] == p.1;
      assert PairsOf(ip, hosts)[i] == p;
    }
    if p in Set(PairsOf(ip, hosts)) {
      var i :| 0 <= i < |hosts| && PairsOf(ip, hosts)[i] == p;
      assert hosts[i] == p.1;
    }
  }

  lemma {:induction false} NamesForPairs(es: seq<Entry>, ip: string, host: string)
    ensures host in Set(NamesFor(es, ip)) <==> (ip, host) in Set(Flatten(es))
    decreases |es|
  {
    if es != [] {
      NamesForPairs(es[1..], ip, host);
      SetPairsOf(es[0].ip, es[0].hosts, (ip, host));
      SetAppend(if es[0].active && es[0].ip == ip then es[0].hosts else [], NamesFor(es[1..], ip));
      SetAppend(if es[0].active then PairsOf(es[0].ip, es[0].hosts) else [], Flatten(es[1..]));
    }
  }

  lemma {:induction false} IpOrderHas(es: seq<Entry>, done: set<string>, ip: string)
    ensures ip !in done && NamesFor(es, ip) != [] ==> ip in Set(IpOrder(es, done))
    ensures ip in done ==> ip !in Set(IpOrder(es, done))
    decreases |es|
  {
    if es != [] {
      if !es[0].active || es[0].ip in done {
        IpOrderHas(es[1..], done, ip);
      } else {
        IpOrderHas(es[1..], done + {es[0].ip}, ip);
        SetCons(IpOrder(es, done));
        assert IpOrder(es, done)[1..] == IpOrder(es[1..], done + {es[0].ip});
      }
    }
  }

  lemma {:induction false} MergedPairs(es: seq<Entry>, done: set<string>, all: seq<Entry>, ip: string, host: string)
    ensures (ip, host) in Set(Flatten(Merged(es, done, all)))
       <==> ip in Set(IpOrder(es, done)) && host in Set(NamesFor(all, ip))
    decreases |es|
  {
    if es != [] {
      var e, rest := es[0], es[1..];
      if !e.active {
        MergedPairs(rest, done, all, ip, host);
        ConsMeaning(e, Merged(rest, done, all));
        assert [] + Flatten(Merged(rest, done, all)) == Flatten(Merged(rest, done, all));
      } else if e.ip in done {
        MergedPairs(rest, done, all, ip, host);
      } else {
        var names := NamesFor(all, e.ip);
        var more := Merged(rest, done + {e.ip}, all);
        MergedPairs(rest, done + {e.ip}, all, ip, host);
        ConsMeaning(Formatted(e.ip, Unique(names, {})), more);
        SetAppend(PairsOf(e.ip, Unique(names, {})), Flatten(more));
        SetPairsOf(e.ip, Unique(names, {}), (ip, host));
        UniqueSet(names, {});
        SetCons(IpOrder(es, done));
        assert IpOrder(es, done)[1..] == IpOrder(rest, done + {e.ip});
      }
    }
  }

  /** Combining keeps exactly the same pairs. */
  lemma CombineKeepsPairs(es: seq<Entry>)
    ensures Set(Flatten(Combine(es))) == Set(Flatten(es))
  {
    if Repeats(es, {}) {
      forall p: Pair ensures p in Set(Flatten(Combine(es))) <==> p in Set(Flatten(es)) {
        MergedPairs(es, {}, es, p.0, p.1);
        NamesForPairs(es, p.0, p.1);
        IpOrderHas(es, {}, p.0);
        assert p == (p.0, p.1);
      }
    }
  }

  lemma NamesOfSet(ps: seq<Pair>, qs: seq<Pair>)
    requires Set(ps) == Set(qs)
    ensures Names(ps) <= Names(qs)
  {
    forall h | h in Names(ps) ensures h in Names(qs) {
      var i :| 0 <= i < |ps| && ps[i].1 == h;
      assert ps[i] in Set(qs);
      var j :| 0 <= j < |qs| && qs[j] == ps[i];
      assert qs[j].1 == h;
    }
  }

  // ---------------------------------------------------------------------------
  // Cleaning
  // ---------------------------------------------------------------------------

  function NonEmpty(es: seq<Entry>): seq<Entry> {
    if es == [] then []
    else (if es[0].active && es[0].hosts == [] then [] else [es[0]]) + NonEmpty(es[1..])
  }

  function Clean(es: seq<Entry>): seq<Entry> {
    NonEmpty(RemoveDuplicates(Combine(es)))
  }

  ghost predicate NoEmptyLines(es: seq<Entry>) {
    forall i :: 0 <= i < |es| && es[i].active ==> es[i].hosts != []
  }

  /** Every active line has names, no address repeats, no name repeats. */
  ghost predicate NormalForm(es: seq<Entry>) {
    NoEmptyLines(es) && !Repeats(es, {}) && NamesDistinct(Flatten(es))
  }

  lemma {:induction false} RepeatsLess(es: seq<Entry>, less: set<string>, done: set<string>)
    requires less <= done && !Repeats(es, done)
    ensures !Repeats(es, less)
    decreases |es|
  {
    if es != [] {
      if es[0].active {
        RepeatsLess(es[1..], less + {es[0].ip}, done + {es[0].ip});
      } else {
        RepeatsLess(es[1..], less, done);
      }
    }
  }

  lemma {:induction false} DedupedShape(es: seq<Entry>, seen: set<string>, done: set<string>)
    requires !Repeats(es, done)
    ensures NoEmptyLines(Deduped(es, seen)) && !Repeats(Deduped(es, seen), done)
    decreases |es|
  {
    if es != [] {
      var e, rest, d := es[0], es[1..], Deduped(es, seen);
      if !e.active {
        DedupedShape(rest, seen, done);
        assert d[1..] == Deduped(rest, seen);
      } else {
        DedupedShape(rest, seen + Set(e.hosts), done + {e.ip});
        var more := Deduped(rest, seen + Set(e.hosts));
        if Unique(e.hosts, seen) == [] {
          assert d == [] + more == more;
          RepeatsLess(more, done, done + {e.ip});
        } else {
          assert d[1..] == more && d[0].active && d[0].ip == e.ip && d[0].hosts != [];
        }
      }
    }
  }

  lemma {:induction false} LinesDedupedRepeats(es: seq<Entry>, done: set<string>)
    ensures Repeats(LinesDeduped(es), done) == Repeats(es, done)
    decreases |es|
  {
    if es != [] {
      assert LinesDeduped(es)[1..] == LinesDeduped(es[1..]);
      LinesDedupedRepeats(es[1..], if es[0].active then done + {es[0].ip} else done);
    }
  }

  lemma {:induction false} NonEmptyKeeps(es: seq<Entry>)
    requires NoEmptyLines(es)
    ensures NonEmpty(es) == es
    decreases |es|
  {
    if es != [] { NonEmptyKeeps(es[1..]); }
  }

  lemma CleanIsDeduped(es: seq<Entry>)
    ensures Clean(es) == RemoveDuplicates(Combine(es))
    ensures NoEmptyLines(Clean(es)) && !Repeats(Clean(es), {})
  {
    var c := Combine(es);
    CombineNoRepeats(es);
    LinesDedupedRepeats(c, {});
    DedupedShape(LinesDeduped(c), {}, {});
    NonEmptyKeeps(RemoveDuplicates(c));
  }

  /** What cleaning does: the result is in normal form; a name is there exactly when it was there
      before, at that of its addresses which appears earliest in the file; and the inactive lines
      keep their content and order. */
  lemma CleanMeaning(es: seq<Entry>)
    ensures NormalForm(Clean(es)) && Inactive(Clean(es)) == Inactive(es)
    ensures Names(Flatten(Clean(es))) == Names(Flatten(es)) && Set(Flatten(Clean(es))) <= Set(Flatten(es))
    ensures forall h :: Find(Flatten(Clean(es)), h) == FirstOwner(IpOrder(es, {}), es, h)
  {
    var c := Combine(es);
    CleanIsDeduped(es);
    CombineNoRepeats(es);
    RemoveDuplicatesMeaning(c);
    CombineKeepsPairs(es);
    NamesOfSet(Flatten(es), Flatten(c));
    NamesOfSet(Flatten(c), Flatten(es));
    FirstPerNameSubset(Flatten(c), {});
    forall h ensures Find(Flatten(Clean(es)), h) == FirstOwner(IpOrder(es, {}), es, h) {
      FindInCombined(es, h);
    }
  }

  // Cleaning again.

  lemma DistinctSuffix(ps: seq<Pair>, n: nat)
    requires NamesDistinct(ps) && n <= |ps|
    ensures NamesDistinct(ps[n..])
  {
    forall i, j | 0 <= i < j < |ps[n..]| ensures ps[n..][i].1 != ps[n..][j].1 {
      assert ps[n..][i] == ps[n + i] && ps[n..][j] == ps[n + j];
    }
  }

  lemma LineDistinct(ip: string, hosts: seq<string>, rest: seq<Pair>, seen: set<string>)
    requires NamesDistinct(PairsOf(ip, hosts) + rest) && Names(PairsOf(ip, hosts) + rest) !! seen
    ensures Distinct(hosts) && Set(hosts) !! seen
    ensures NamesDistinct(rest) && Names(rest) !! seen + Set(hosts)
  {
    var ps := PairsOf(ip, hosts) + rest;
    forall i, j | 0 <= i < j < |hosts| ensures hosts[i] != hosts[j] { assert ps[i].1 == hosts[i] && ps[j].1 == hosts[j]; }
    forall h | h in Set(hosts) ensures h !in seen {
      var i :| 0 <= i < |hosts| && hosts[i] == h;
      assert ps[i].1 == h;
    }
    assert rest == ps[|hosts|..];
    DistinctSuffix(ps, |hosts|);
    forall h | h in Names(rest) ensures h !in seen + Set(hosts) {
      var j :| 0 <= j < |rest| && rest[j].1 == h;
      assert ps[|hosts| + j].1 == h;
      forall i | 0 <= i < |hosts| ensures hosts[i] != h { assert ps[i].1 == hosts[i]; }
    }
  }

  /** A list without repeated names or empty lines is left alone by both passes. */
  lemma {:induction false} DedupedKeeps(es: seq<Entry>, seen: set<string>)
    requires NoEmptyLines(es) && NamesDistinct(Flatten(es)) && Names(Flatten(es)) !! seen
    ensures LinesDeduped(es) == es && Deduped(es, seen) == es
    decreases |es|
  {
    if es != [] {
      var e, rest := es[0], es[1..];
      assert NoEmptyLines(rest);
      if !e.active {
        assert [] + Flatten(rest) == Flatten(rest);
        DedupedKeeps(rest, seen);
      } else {
        LineDistinct(e.ip, e.hosts, Flatten(rest), seen);
        UniqueKeeps(e.hosts, seen);
        UniqueKeeps(e.hosts, {});
        DedupedKeeps(rest, seen + Set(e.hosts));
      }
      assert LinesDeduped(es) == [LineDeduped(e)] + LinesDeduped(rest);
      assert es == [e] + rest;
    }
  }

  lemma NormalFormIsClean(es: seq<Entry>)
    requires NormalForm(es)
    ensures Clean(es) == es
  {
    DedupedKeeps(es, {});
    NonEmptyKeeps(es);
  }

  /** Cleaning again changes nothing; the lists cleaning leaves alone are exactly the normal
      forms. */
  lemma CleanIsIdempotent(es: seq<Entry>)
    ensures Clean(Clean(es)) == Clean(es)
    ensures Clean(es) == es <==> NormalForm(es)
  {
    CleanMeaning(es);
    NormalFormIsClean(Clean(es));
    if NormalForm(es) { NormalFormIsClean(es); }
  }

  // ---------------------------------------------------------------------------
  // Wrapping
  // ---------------------------------------------------------------------------

  function Chunks(ip: string, hosts: seq<string>, count: nat): seq<Entry>
    requires count > 0
  {
    if |hosts| <= count then [Formatted(ip, hosts)]
    else [Formatted(ip, hosts[..count])] + Chunks(ip, hosts[count..], count)
  }

  /** Lines with too many names split into several; a limit of zero or less changes nothing. */
  function Wrapped(es: seq<Entry>, count: int): seq<Entry> {
    if es == [] || count <= 0 then es
    else (if !es[0].active || |es[0].hosts| <= count then [es[0]] else Chunks(es[0].ip, es[0].hosts, count))
         + Wrapped(es[1..], count)
  }

  ghost predicate AtMost(es: seq<Entry>, count: int) {
    forall i :: 0 <= i < |es| && es[i].active ==> |es[i].hosts| <= count
  }

  lemma PairsSplit(ip: string, a: seq<string>, b: seq<string>)
    ensures PairsOf(ip, a + b) == PairsOf(ip, a) + PairsOf(ip, b)
  {}

  lemma PairsNone(ip: string)
    ensures PairsOf(ip, []) == []
  {}

  /** A first line with these names before lines with those. */
  lemma ChunkCons(ip: string, first: seq<string>, rest: seq<string>, lines: seq<Entry>, count: int)
    requires Flatten(lines) == PairsOf(ip, rest) && Inactive(lines) == [] && AtMost(lines, count) && |first| <= count
    ensures var all := [Formatted(ip, first)] + lines;
      Flatten(all) == PairsOf(ip, first + rest) && Inactive(all) == [] && AtMost(all, count)
  {
    hide Flatten, Inactive, PairsOf, FormatEntry;
    ConsMeaning(Formatted(ip, first), lines);
    PairsSplit(ip, first, rest);
  }

  lemma {:induction false} ChunksMeaning(ip: string, hosts: seq<string>, count: nat)
    requires count > 0
    ensures Flatten(Chunks(ip, hosts, count)) == PairsOf(ip, hosts)
    ensures Inactive(Chunks(ip, hosts, count)) == [] && AtMost(Chunks(ip, hosts, count), count)
    decreases |hosts|
  {
    if |hosts| <= count {
      PairsNone(ip);
      ChunkCons(ip, hosts, [], [], count);
      assert hosts + [] == hosts && Chunks(ip, hosts, count) == [Formatted(ip, hosts)] + [];
    } else {
      ChunksMeaning(ip, hosts[count..], count);
      ChunkCons(ip, hosts[..count], hosts[count..], Chunks(ip, hosts[count..], count), count);
      assert hosts[..count] + hosts[count..] == hosts;
    }
  }

  /** Wrapping keeps the ordered list of pairs and the inactive lines, with at most `count` names
      on a line. */
  lemma {:induction false} WrappedMeaning(es: seq<Entry>, count: int)
    ensures Flatten(Wrapped(es, count)) == Flatten(es) && Inactive(Wrapped(es, count)) == Inactive(es)
    ensures count > 0 ==> AtMost(Wrapped(es, count), count)
    decreases |es|
  {
    if es != [] && count > 0 {
      var e, rest := es[0], Wrapped(es[1..], count);
      WrappedMeaning(es[1..], count);
      if !e.active || |e.hosts| <= count {
        ConsMeaning(e, rest);
      } else {
        ChunksMeaning(e.ip, e.hosts, count);
        FlattenAppend(Chunks(e.ip, e.hosts, count), rest);
        InactiveAppend(Chunks(e.ip, e.hosts, count), rest);
      }
    }
  }

  // Combining after wrapping.

  ghost predicate SameMeaning(e: Entry, f: Entry) {
    if e.active then f.active && f.ip == e.ip && f.hosts == e.hosts else f == e
  }

  ghost predicate SameLines(es: seq<Entry>, fs: seq<Entry>) {
    |es| == |fs| && forall i :: 0 <= i < |es| ==> SameMeaning(es[i], fs[i])
  }

  lemma {:induction false} NamesForAppend(es: seq<Entry>, fs: seq<Entry>, ip: string)
    ensures NamesFor(es + fs, ip) == NamesFor(es, ip) + NamesFor(fs, ip)
    decreases |es|
  {
    if es == [] {
      assert es + fs == fs;
    } else {
      assert (es + fs)[0] == es[0] && (es + fs)[1..] == es[1..] + fs;
      NamesForAppend(es[1..], fs, ip);
    }
  }

  lemma NamesForCons(e: Entry, es: seq<Entry>, ip: string)
    ensures NamesFor([e] + es, ip) == (if e.active && e.ip == ip then e.hosts else []) + NamesFor(es, ip)
  {
    assert ([e] + es)[0] == e && ([e] + es)[1..] == es;
  }

  lemma {:induction false} NamesForChunks(x: string, hosts: seq<string>, count: nat, ip: string)
    requires count > 0
    ensures NamesFor(Chunks(x, hosts, count), ip) == if x == ip then hosts else []
    decreases |hosts|
  {
    if |hosts| <= count {
      NamesForCons(Formatted(x, hosts), [], ip);
      assert Chunks(x, hosts, count) == [Formatted(x, hosts)] + [] && NamesFor([], ip) == [];
      hide NamesFor, Chunks;
      assert hosts + [] == hosts;
    } else {
      NamesForChunks(x, hosts[count..], count, ip);
      assert Chunks(x, hosts, count) == [Formatted(x, hosts[..count])] + Chunks(x, hosts[count..], count);
      NamesForCons(Formatted(x, hosts[..count]), Chunks(x, hosts[count..], count), ip);
      hide NamesFor, Chunks;
      assert hosts[..count] + hosts[count..] == hosts;
    }
  }

  lemma {:induction false} NamesForWrapped(es: seq<Entry>, count: int, ip: string)
    ensures NamesFor(Wrapped(es, count), ip) == NamesFor(es, ip)
    decreases |es|
  {
    if es != [] && count > 0 {
      NamesForWrapped(es[1..], count, ip);
      var e, rest := es[0], Wrapped(es[1..], count);
      if !e.active || |e.hosts| <= count {
        assert ([e] + rest)[1..] == rest;
      } else {
        NamesForChunks(e.ip, e.hosts, count, ip);
        NamesForAppend(Chunks(e.ip, e.hosts, count), rest, ip);
      }
    }
  }

  lemma {:induction false} ChunksSkipped(ip: string, hosts: seq<string>, count: nat, rest: seq<Entry>, done: set<string>, all: seq<Entry>)
    requires count > 0 && ip in done
    ensures Merged(Chunks(ip, hosts, count) + rest, done, all) == Merged(rest, done, all)
    decreases |hosts|
  {
    var cs := Chunks(ip, hosts, count);
    assert (cs + rest)[0] == cs[0] && (cs + rest)[1..] == cs[1..] + rest;
    if |hosts| <= count {
      assert cs[1..] + rest == rest;
    } else {
      ChunksSkipped(ip, hosts[count..], count, rest, done, all);
    }
  }

  ghost predicate LinesDistinct(es: seq<Entry>) {
    forall i :: 0 <= i < |es| && es[i].active ==> Distinct(es[i].hosts)
  }

  /** One wrapped line combines back into one line with all names of its address. */
  lemma MergedLine(e: Entry, count: nat, rest: seq<Entry>, done: set<string>, all: seq<Entry>)
    requires count > 0 && e.active && e.ip !in done
    ensures var line := if |e.hosts| <= count then [e] else Chunks(e.ip, e.hosts, count);
      Merged(line + rest, done, all)
      == [Formatted(e.ip, Unique(NamesFor(all, e.ip), {}))] + Merged(rest, done + {e.ip}, all)
  {
    var line := if |e.hosts| <= count then [e] else Chunks(e.ip, e.hosts, count);
    assert (line + rest)[0] == line[0] && (line + rest)[1..] == line[1..] + rest;
    if |e.hosts| <= count {
      assert line[1..] + rest == rest;
    } else {
      ChunksSkipped(e.ip, e.hosts[count..], count, rest, done + {e.ip}, all);
    }
  }

  lemma NamesForTail(es: seq<Entry>, ip: string)
    requires es != []
    ensures !(es[0].active && es[0].ip == ip) ==> NamesFor(es, ip) == NamesFor(es[1..], ip)
    ensures es[0].active && es[0].ip == ip && NamesFor(es[1..], ip) == [] ==> NamesFor(es, ip) == es[0].hosts
  {
    assert [] + NamesFor(es[1..], ip) == NamesFor(es[1..], ip);
    assert es[0].hosts + [] == es[0].hosts;
  }

  lemma SameNone(done: set<string>, all: seq<Entry>, count: nat)
    ensures SameLines([], Merged(Wrapped([], count), done, all))
  {}

  lemma SameLinesCons(es: seq<Entry>, f: Entry, fs: seq<Entry>)
    requires es != [] && SameMeaning(es[0], f) && SameLines(es[1..], fs)
    ensures SameLines(es, [f] + fs)
  {
    var all := [f] + fs;
    forall i | 0 <= i < |es| ensures SameMeaning(es[i], all[i]) {
      if i > 0 { assert es[i] == es[1..][i - 1] && all[i] == fs[i - 1]; }
    }
  }

  lemma {:induction false} MergedWrapped(es: seq<Entry>, done: set<string>, all: seq<Entry>, count: nat)
    requires count > 0 && !Repeats(es, done) && LinesDistinct(es)
    requires forall ip :: ip !in done ==> NamesFor(all, ip) == NamesFor(es, ip)
    ensures SameLines(es, Merged(Wrapped(es, count), done, all))
    decreases |es|
  {
    hide NamesFor, SameLines, Chunks, Unique;
    if es == [] {
      SameNone(done, all, count);
    } else {
      var e, rest := es[0], es[1..];
      var w := Wrapped(rest, count);
      assert LinesDistinct(rest);
      if !e.active {
        forall ip | ip !in done ensures NamesFor(all, ip) == NamesFor(rest, ip) { NamesForTail(es, ip); }
        MergedWrapped(rest, done, all, count);
        assert ([e] + w)[0] == e && ([e] + w)[1..] == w;
        SameLinesCons(es, e, Merged(w, done, all));
      } else {
        NoNamesElsewhere(rest, done + {e.ip}, e.ip);
        NamesForTail(es, e.ip);
        assert NamesFor(all, e.ip) == e.hosts;
        forall ip | ip !in done + {e.ip} ensures NamesFor(all, ip) == NamesFor(rest, ip) { NamesForTail(es, ip); }
        MergedWrapped(rest, done + {e.ip}, all, count);
        UniqueKeeps(e.hosts, {});
        MergedLine(e, count, w, done, all);
        SameLinesCons(es, Formatted(e.ip, e.hosts), Merged(w, done + {e.ip}, all));
      }
    }
  }

  lemma SplitRepeats(ip: string, hosts: seq<string>, count: nat, rest: seq<Entry>, done: set<string>)
    requires 0 < count < |hosts|
    ensures Repeats(Chunks(ip, hosts, count) + rest, done)
  {
    var w, more := Chunks(ip, hosts, count) + rest, Chunks(ip, hosts[count..], count);
    assert w[1..] == more + rest && w[1..][0] == more[0];
  }

  /** If nothing repeats after wrapping, nothing was split. */
  lemma {:induction false} UnsplitWrapped(es: seq<Entry>, done: set<string>, count: nat)
    requires count > 0 && !Repeats(Wrapped(es, count), done)
    ensures Wrapped(es, count) == es
    decreases |es|
  {
    if es != [] {
      var e, rest, w := es[0], Wrapped(es[1..], count), Wrapped(es, count);
      if e.active && |e.hosts| > count {
        SplitRepeats(e.ip, e.hosts, count, rest, done);
      } else {
        assert w == [e] + rest && w[1..] == rest;
        UnsplitWrapped(es[1..], if e.active then done + {e.ip} else done, count);
      }
    }
  }

  lemma {:induction false} NormalLinesDistinct(es: seq<Entry>)
    requires NamesDistinct(Flatten(es))
    ensures LinesDistinct(es)
    decreases |es|
  {
    if es != [] {
      var e, rest := es[0], es[1..];
      if e.active {
        LineDistinct(e.ip, e.hosts, Flatten(rest), {});
      } else {
        assert [] + Flatten(rest) == Flatten(rest);
      }
      NormalLinesDistinct(rest);
    }
  }

  /** Wrapping a list in normal form and combining again restores the address and the names of
      every entry. */
  lemma CombineAfterWrap(es: seq<Entry>, count: int)
    requires NormalForm(es)
    ensures SameLines(es, Combine(Wrapped(es, count)))
  {
    var w := Wrapped(es, count);
    if count > 0 {
      NormalLinesDistinct(es);
      if Repeats(w, {}) {
        forall ip ensures NamesFor(w, ip) == NamesFor(es, ip) { NamesForWrapped(es, count, ip); }
        MergedWrapped(es, {}, w, count);
      } else {
        UnsplitWrapped(es, {}, count);
      }
    }
  }
}
