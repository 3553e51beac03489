/** Whole sequences of operations on a hosts file. The file stays readable: whatever was done, what
    is written and read again has the same active table. And the file refines a set of pairs. */
module HostsRuns {
  import opened Bytes
  import opened HostsText
  import opened HostsTable
  import opened HostsClean
  import opened HostsOps
  import opened HostsSort

  datatype Op =
    | Insert(lines: seq<string>)
    | Add(ip: string, hosts: seq<string>)
    | Remove(ip: string, hosts: seq<string>)
    | RemoveName(host: string)
    | RemoveIp(ip: string)
    | Dedup
    | CombineIps
    | CleanUp
    | Wrap(count: int)
    | SortNamesOp
    | SortIpsOp

  function Apply(isIp: IpTest, parse: Parser, es: seq<Entry>, op: Op): seq<Entry> {
    match op
    case Insert(lines) => es + ParseAll(isIp, lines)
    case Add(ip, hosts) => if isIp(ip) && Cleaned(hosts) != [] then Added(es, ip, Cleaned(hosts)) else es
    case Remove(ip, hosts) =>
      if isIp(ip) && Cleaned(hosts) != [] && Touched(es, ip, Set(Cleaned(hosts)))
      then Committed(es, ip, Set(Cleaned(hosts))) else es
    case RemoveName(host) => if Trim(host) == "" then es else Removed(es, None, {Trim(host)})
    case RemoveIp(ip) => RemovedByIp(es, ip)
    case Dedup => RemoveDuplicates(es)
    case CombineIps => Combine(es)
    case CleanUp => Clean(es)
    case Wrap(count) => Wrapped(es, count)
    case SortNamesOp => LinesSorted(es)
    case SortIpsOp => SortedByIp(parse, es)
  }

  function RunOps(isIp: IpTest, parse: Parser, es: seq<Entry>, ops: seq<Op>): seq<Entry>
    decreases |ops|
  {
    if ops == [] then es else Apply(isIp, parse, RunOps(isIp, parse, es, ops[..|ops| - 1]), ops[|ops| - 1])
  }

  // Entries are values here. The program's lines may share memory after a wrap, and an addition
  // writes into it; `HostsAliasing` says what that does. The lines are values to an addition as long
  // as the address is on at most one line, or no wrap has split a line since the last combining.

  ghost predicate AtMostOnce(es: seq<Entry>, ip: string) {
    forall i, j :: 0 <= i < j < |es| ==> !(es[i].active && es[j].active && es[i].ip == ip && es[j].ip == ip)
  }

  /** Whether lines may share memory after the operation. */
  predicate Shares(es: seq<Entry>, shared: bool, op: Op) {
    match op
    case Wrap(count) => shared || Wrapped(es, count) != es
    case CombineIps => false
    case CleanUp => false
    case _ => shared
  }

  ghost predicate Unshared(isIp: IpTest, parse: Parser, es: seq<Entry>, shared: bool, ops: seq<Op>)
    decreases |ops|
  {
    ops != [] ==>
      && (ops[0].Add? && shared ==> AtMostOnce(es, ops[0].ip))
      && Unshared(isIp, parse, Apply(isIp, parse, es, ops[0]), Shares(es, shared, ops[0]), ops[1..])
  }

  // ---------------------------------------------------------------------------
  // Readability
  // ---------------------------------------------------------------------------

  /** An active entry that is safe to format: an address, and at least one name, all of them words. */
  ghost predicate Sayable(isIp: IpTest, e: Entry) {
    e.active ==> isIp(e.ip) && e.hosts != [] && AreWords(e.hosts)
  }

  /** Names added hold no white space inside, inserted lines are single lines. */
  ghost predicate Harmless(op: Op) {
    match op
    case Add(_, hosts) => AreWords(Cleaned(hosts))
    case Insert(lines) => SingleLines(lines)
    case _ => true
  }

  lemma ReadableIsSayable(isIp: IpTest, e: Entry)
    requires ParsesBack(isIp, e)
    ensures Sayable(isIp, e)
  {
    if e.active { FieldsAreWords("", Trim(e.raw)); }
  }

  lemma WordsBySet(xs: seq<string>, ys: seq<string>)
    requires AreWords(ys) && Set(xs) <= Set(ys)
    ensures AreWords(xs)
  {
    forall i | 0 <= i < |xs| ensures IsWord(xs[i]) {
      assert xs[i] in Set(xs);
      var j :| 0 <= j < |ys| && ys[j] == xs[i];
    }
  }

  /** Fewer names on a readable line, but some, formatted anew. */
  lemma Reformatted(isIp: IpTest, e: Entry, hosts: seq<string>)
    requires LawfulTest(isIp) && ParsesBack(isIp, e) && e.active && hosts != [] && Set(hosts) <= Set(e.hosts)
    ensures ParsesBack(isIp, Formatted(e.ip, hosts))
  {
    ReadableIsSayable(isIp, e);
    WordsBySet(hosts, e.hosts);
    FormattedParsesBack(isIp, e.ip, hosts);
  }

  lemma ReadableTail(isIp: IpTest, es: seq<Entry>)
    requires AllParseBack(isIp, es) && es != []
    ensures ParsesBack(isIp, es[0]) && AllParseBack(isIp, es[1..])
  {
    forall i | 0 <= i < |es[1..]| ensures ParsesBack(isIp, es[1..][i]) { assert es[1..][i] == es[i + 1]; }
  }

  lemma ReadableAppend(isIp: IpTest, es: seq<Entry>, fs: seq<Entry>)
    requires AllParseBack(isIp, es) && AllParseBack(isIp, fs)
    ensures AllParseBack(isIp, es + fs)
  {}

  lemma ReadableOne(isIp: IpTest, e: Entry)
    requires ParsesBack(isIp, e)
    ensures AllParseBack(isIp, [e])
  {}

  lemma {:induction false} AddedReadable(isIp: IpTest, es: seq<Entry>, ip: string, hosts: seq<string>)
    requires LawfulTest(isIp) && AllParseBack(isIp, es) && isIp(ip) && hosts != [] && AreWords(hosts)
    ensures AllParseBack(isIp, Added(es, ip, hosts))
    decreases |es|
  {
    hide ParsesBack;
    if es == [] {
      FormattedParsesBack(isIp, ip, hosts);
      ReadableOne(isIp, Formatted(ip, hosts));
    } else {
      ReadableTail(isIp, es);
      if es[0].active && es[0].ip == ip {
        ExtendedReadable(isIp, es[0], hosts);
        ReadableOne(isIp, Extended(es[0], hosts));
        ReadableAppend(isIp, [Extended(es[0], hosts)], es[1..]);
      } else {
        AddedReadable(isIp, es[1..], ip, hosts);
        ReadableOne(isIp, es[0]);
        ReadableAppend(isIp, [es[0]], Added(es[1..], ip, hosts));
      }
    }
  }

  lemma ExtendedReadable(isIp: IpTest, e: Entry, hosts: seq<string>)
    requires LawfulTest(isIp) && ParsesBack(isIp, e) && e.active && AreWords(hosts)
    ensures ParsesBack(isIp, Extended(e, hosts))
  {
    var more := Unique(hosts, Set(e.hosts));
    if more != [] {
      ReadableIsSayable(isIp, e);
      UniqueSet(hosts, Set(e.hosts));
      WordsBySet(more, hosts);
      FormattedParsesBack(isIp, e.ip, e.hosts + more);
    }
  }

  lemma RemovedLineReadable(isIp: IpTest, e: Entry, only: Option<string>, gone: set<string>)
    requires LawfulTest(isIp) && ParsesBack(isIp, e)
    ensures AllParseBack(isIp, RemovedLine(e, only, gone))
  {
    hide ParsesBack;
    ReadableOne(isIp, e);
    var left := Without(e.hosts, gone);
    if e.active && left != [] {
      WithoutSet(e.hosts, gone);
      Reformatted(isIp, e, left);
      ReadableOne(isIp, Formatted(e.ip, left));
    }
  }

  lemma {:induction false} RemovedReadable(isIp: IpTest, es: seq<Entry>, only: Option<string>, gone: set<string>)
    requires LawfulTest(isIp) && AllParseBack(isIp, es)
    ensures AllParseBack(isIp, Removed(es, only, gone))
    decreases |es|
  {
    hide ParsesBack;
    if es != [] {
      ReadableTail(isIp, es);
      RemovedReadable(isIp, es[1..], only, gone);
      RemovedLineReadable(isIp, es[0], only, gone);
      ReadableAppend(isIp, RemovedLine(es[0], only, gone), Removed(es[1..], only, gone));
    }
  }

  /** Operations that only drop or reorder lines keep every line readable. */
  lemma SublistReadable(isIp: IpTest, es: seq<Entry>, fs: seq<Entry>)
    requires AllParseBack(isIp, es) && forall e :: e in fs ==> e in es
    ensures AllParseBack(isIp, fs)
  {
    forall i | 0 <= i < |fs| ensures ParsesBack(isIp, fs[i]) {
      assert fs[i] in fs;
      var j :| 0 <= j < |es| && es[j] == fs[i];
    }
  }

  lemma {:induction false} RemovedByIpSublist(es: seq<Entry>, ip: string)
    ensures forall e :: e in RemovedByIp(es, ip) ==> e in es
    decreases |es|
  {
    if es != [] { RemovedByIpSublist(es[1..], ip); }
  }

  lemma {:induction false} NonEmptySublist(es: seq<Entry>)
    ensures forall e :: e in NonEmpty(es) ==> e in es
    decreases |es|
  {
    if es != [] { NonEmptySublist(es[1..]); }
  }

  lemma LinesDedupedReadable(isIp: IpTest, es: seq<Entry>)
    requires LawfulTest(isIp) && AllParseBack(isIp, es)
    ensures AllParseBack(isIp, LinesDeduped(es))
  {
    hide ParsesBack;
    forall i | 0 <= i < |es| ensures ParsesBack(isIp, LineDeduped(es[i])) {
      var e := es[i];
      if e.active && |e.hosts| > 1 {
        UniqueSet(e.hosts, {});
        assert Unique(e.hosts, {}) != [];
        Reformatted(isIp, e, Unique(e.hosts, {}));
      }
    }
  }

  lemma {:induction false} DedupedReadable(isIp: IpTest, es: seq<Entry>, seen: set<string>)
    requires LawfulTest(isIp) && AllParseBack(isIp, es)
    ensures AllParseBack(isIp, Deduped(es, seen))
    decreases |es|
  {
    hide ParsesBack;
    if es != [] {
      var e, rest := es[0], es[1..];
      ReadableTail(isIp, es);
      ReadableOne(isIp, e);
      if !e.active {
        DedupedReadable(isIp, rest, seen);
        ReadableAppend(isIp, [e], Deduped(rest, seen));
      } else {
        var u, more := Unique(e.hosts, seen), Deduped(rest, seen + Set(e.hosts));
        DedupedReadable(isIp, rest, seen + Set(e.hosts));
        if u == [] {
          assert [] + more == more;
        } else {
          UniqueSet(e.hosts, seen);
          Reformatted(isIp, e, u);
          ReadableOne(isIp, Formatted(e.ip, u));
          ReadableAppend(isIp, if u == e.hosts then [e] else [Formatted(e.ip, u)], more);
        }
      }
    }
  }

  lemma {:induction false} NamesForWords(isIp: IpTest, es: seq<Entry>, ip: string)
    requires AllParseBack(isIp, es)
    ensures AreWords(NamesFor(es, ip))
    decreases |es|
  {
    hide ParsesBack;
    if es != [] {
      ReadableTail(isIp, es);
      ReadableIsSayable(isIp, es[0]);
      NamesForWords(isIp, es[1..], ip);
    }
  }

  lemma {:induction false} NamesForHas(es: seq<Entry>, e: Entry)
    requires e in es && e.active && e.hosts != []
    ensures NamesFor(es, e.ip) != []
    decreases |es|
  {
    if e != es[0] { NamesForHas(es[1..], e); }
  }

  lemma CombinedLineReadable(isIp: IpTest, all: seq<Entry>, e: Entry)
    requires LawfulTest(isIp) && AllParseBack(isIp, all) && e in all && e.active
    ensures ParsesBack(isIp, Formatted(e.ip, Unique(NamesFor(all, e.ip), {})))
  {
    var names := NamesFor(all, e.ip);
    var i :| 0 <= i < |all| && all[i] == e;
    ReadableIsSayable(isIp, all[i]);
    NamesForHas(all, e);
    NamesForWords(isIp, all, e.ip);
    UniqueSet(names, {});
    assert names[0] in Set(names);
    WordsBySet(Unique(names, {}), names);
    FormattedParsesBack(isIp, e.ip, Unique(names, {}));
  }

  lemma {:induction false} MergedReadable(isIp: IpTest, es: seq<Entry>, done: set<string>, all: seq<Entry>)
    requires LawfulTest(isIp) && AllParseBack(isIp, all) && forall e :: e in es ==> e in all
    ensures AllParseBack(isIp, Merged(es, done, all))
    decreases |es|
  {
    hide ParsesBack;
    if es != [] {
      var e, rest := es[0], es[1..];
      assert e in es && forall x :: x in rest ==> x in es;
      if !e.active {
        MergedReadable(isIp, rest, done, all);
        SublistReadable(isIp, all, [e]);
        ReadableAppend(isIp, [e], Merged(rest, done, all));
      } else if e.ip in done {
        MergedReadable(isIp, rest, done, all);
      } else {
        MergedReadable(isIp, rest, done + {e.ip}, all);
        CombinedLineReadable(isIp, all, e);
        var f := Formatted(e.ip, Unique(NamesFor(all, e.ip), {}));
        ReadableOne(isIp, f);
        ReadableAppend(isIp, [f], Merged(rest, done + {e.ip}, all));
      }
    }
  }

  lemma {:induction false} ChunksReadable(isIp: IpTest, e: Entry, hosts: seq<string>, count: nat)
    requires LawfulTest(isIp) && ParsesBack(isIp, e) && e.active && count > 0
    requires hosts != [] && Set(hosts) <= Set(e.hosts)
    ensures AllParseBack(isIp, Chunks(e.ip, hosts, count))
    decreases |hosts|
  {
    hide ParsesBack;
    if |hosts| <= count {
      Reformatted(isIp, e, hosts);
      ReadableOne(isIp, Formatted(e.ip, hosts));
    } else {
      assert hosts == hosts[..count] + hosts[count..];
      SetAppend(hosts[..count], hosts[count..]);
      Reformatted(isIp, e, hosts[..count]);
      ReadableOne(isIp, Formatted(e.ip, hosts[..count]));
      ChunksReadable(isIp, e, hosts[count..], count);
      ReadableAppend(isIp, [Formatted(e.ip, hosts[..count])], Chunks(e.ip, hosts[count..], count));
    }
  }

  lemma {:induction false} WrappedReadable(isIp: IpTest, es: seq<Entry>, count: int)
    requires LawfulTest(isIp) && AllParseBack(isIp, es)
    ensures AllParseBack(isIp, Wrapped(es, count))
    decreases |es|
  {
    hide ParsesBack;
    if es != [] && count > 0 {
      var e := es[0];
      ReadableTail(isIp, es);
      WrappedReadable(isIp, es[1..], count);
      ReadableOne(isIp, e);
      if e.active && |e.hosts| > count { ChunksReadable(isIp, e, e.hosts, count); }
      ReadableAppend(isIp, if !e.active || |e.hosts| <= count then [e] else Chunks(e.ip, e.hosts, count),
                     Wrapped(es[1..], count));
    }
  }

  lemma LinesSortedReadable(isIp: IpTest, es: seq<Entry>)
    requires LawfulTest(isIp) && AllParseBack(isIp, es)
    ensures AllParseBack(isIp, LinesSorted(es))
  {
    hide ParsesBack;
    forall i | 0 <= i < |es| ensures ParsesBack(isIp, LineSorted(es[i])) {
      var e := es[i];
      if e.active && |e.hosts| > 1 {
        var s := SortNames(e.hosts);
        SortNamesMeaning(e.hosts);
        assert |s| == |multiset(s)| == |multiset(e.hosts)| == |e.hosts|;
        forall h | h in Set(s) ensures h in Set(e.hosts) { assert h in multiset(s) && h in multiset(e.hosts); }
        Reformatted(isIp, e, s);
      }
    }
  }

  lemma SortedByIpReadable(isIp: IpTest, parse: Parser, es: seq<Entry>)
    requires AllParseBack(isIp, es)
    ensures AllParseBack(isIp, SortedByIp(parse, es))
  {
    SortedByIpMeaning(parse, es);
    var rs := SortedByIp(parse, es);
    forall e | e in rs ensures e in es { assert e in multiset(rs) && e in multiset(es); }
    SublistReadable(isIp, es, rs);
  }

  lemma ParsedReadable(isIp: IpTest, lines: seq<string>)
    requires SingleLines(lines)
    ensures AllParseBack(isIp, ParseAll(isIp, lines))
  {
    forall i | 0 <= i < |lines| ensures ParsesBack(isIp, ParseAll(isIp, lines)[i]) { ParsedParsesBack(isIp, lines[i]); }
  }

  lemma CombineReadable(isIp: IpTest, es: seq<Entry>)
    requires LawfulTest(isIp) && AllParseBack(isIp, es)
    ensures AllParseBack(isIp, Combine(es))
  {
    if Repeats(es, {}) { MergedReadable(isIp, es, {}, es); }
  }

  lemma DedupReadable(isIp: IpTest, es: seq<Entry>)
    requires LawfulTest(isIp) && AllParseBack(isIp, es)
    ensures AllParseBack(isIp, RemoveDuplicates(es))
  {
    LinesDedupedReadable(isIp, es);
    DedupedReadable(isIp, LinesDeduped(es), {});
  }

  lemma CleanReadable(isIp: IpTest, es: seq<Entry>)
    requires LawfulTest(isIp) && AllParseBack(isIp, es)
    ensures AllParseBack(isIp, Clean(es))
  {
    CombineReadable(isIp, es);
    DedupReadable(isIp, Combine(es));
    NonEmptySublist(RemoveDuplicates(Combine(es)));
    SublistReadable(isIp, RemoveDuplicates(Combine(es)), Clean(es));
  }

  /** Every operation keeps every line readable. */
  lemma ApplyReadable(isIp: IpTest, parse: Parser, es: seq<Entry>, op: Op)
    requires LawfulTest(isIp) && AllParseBack(isIp, es) && Harmless(op)
    ensures AllParseBack(isIp, Apply(isIp, parse, es, op))
  {
    hide ParsesBack, AllParseBack;
    match op
    case Insert(lines) =>
      ParsedReadable(isIp, lines);
      ReadableAppend(isIp, es, ParseAll(isIp, lines));
    case Add(ip, hosts) =>
      if isIp(ip) && Cleaned(hosts) != [] { AddedReadable(isIp, es, ip, Cleaned(hosts)); }
    case Remove(ip, hosts) => RemovedReadable(isIp, es, Some(ip), Set(Cleaned(hosts)));
    case RemoveName(host) => RemovedReadable(isIp, es, None, {Trim(host)});
    case RemoveIp(ip) =>
      RemovedByIpSublist(es, ip);
      SublistReadable(isIp, es, RemovedByIp(es, ip));
    case Dedup => DedupReadable(isIp, es);
    case CombineIps => CombineReadable(isIp, es);
    case CleanUp => CleanReadable(isIp, es);
    case Wrap(count) => WrappedReadable(isIp, es, count);
    case SortNamesOp => LinesSortedReadable(isIp, es);
    case SortIpsOp => SortedByIpReadable(isIp, parse, es);
  }

  lemma {:induction false} RunReadable(isIp: IpTest, parse: Parser, es: seq<Entry>, ops: seq<Op>)
    requires LawfulTest(isIp) && AllParseBack(isIp, es) && forall i :: 0 <= i < |ops| ==> Harmless(ops[i])
    ensures AllParseBack(isIp, RunOps(isIp, parse, es, ops))
    decreases |ops|
  {
    if ops != [] {
      RunReadable(isIp, parse, es, ops[..|ops| - 1]);
      ApplyReadable(isIp, parse, RunOps(isIp, parse, es, ops[..|ops| - 1]), ops[|ops| - 1]);
    }
  }

  lemma {:induction false} LinesAreSingle(text: string)
    ensures SingleLines(Lines(text))
    decreases |text|
  {
    if text != "" && LineEnd(text) < |text| { LinesAreSingle(text[LineEnd(text) + 1..]); }
  }

  /** Persistence over whole runs: read a file, do anything with names free of white space, write
      it and read it again: the active table is the same, unless a line grew too long to be read,
      and then reading reports an error. */
  lemma EveryRunPersists(isIp: IpTest, parse: Parser, text: string, ops: seq<Op>)
    requires LawfulTest(isIp) && forall i :: 0 <= i < |ops| ==> Harmless(ops[i])
    ensures var es := RunOps(isIp, parse, ParseFile(isIp, text), ops);
      var r := Load(isIp, Print(es));
      && AllParseBack(isIp, es)
      && (r.Ok? <==> AllFit(Raws(es)))
      && (r.Ok? ==> Active(r.value) == Active(es))
  {
    hide ParsesBack, AllParseBack, Print, ParseFile, Active, Load, AllFit;
    FileReadable(isIp, text);
    RunReadable(isIp, parse, ParseFile(isIp, text), ops);
    PrintPreservesActive(isIp, RunOps(isIp, parse, ParseFile(isIp, text), ops));
  }

  lemma FileReadable(isIp: IpTest, text: string)
    ensures AllParseBack(isIp, ParseFile(isIp, text))
  {
    LinesAreSingle(text);
    ParsedReadable(isIp, Lines(text));
  }

  // ---------------------------------------------------------------------------
  // The set of pairs
  // ---------------------------------------------------------------------------

  /** The operations that have an exact meaning on the set of pairs. */
  predicate Relational(op: Op) {
    op.Add? || op.RemoveName? || op.RemoveIp? || op.CombineIps? || op.Wrap? || op.SortNamesOp? || op.SortIpsOp?
  }

  function ApplySet(isIp: IpTest, ps: set<Pair>, op: Op): set<Pair> {
    match op
    case Add(ip, hosts) => if isIp(ip) then ps + Set(PairsOf(ip, Cleaned(hosts))) else ps
    case RemoveName(host) => set p | p in ps && !(Trim(host) != "" && p.1 == Trim(host))
    case RemoveIp(ip) => set p | p in ps && p.0 != ip
    case _ => ps
  }

  lemma RemovedPairs(es: seq<Entry>, h: string)
    ensures PairSet(Removed(es, None, {h})) == set p | p in PairSet(es) && p.1 != h
  {
    hide Set, Flatten, Left, Removed;
    RemovedIsFilter(es, None, {h});
    LeftSet(Flatten(es), None, {h});
  }

  lemma RemovedByIpPairs(es: seq<Entry>, ip: string)
    ensures PairSet(RemovedByIp(es, ip)) == set p | p in PairSet(es) && p.0 != ip
  {
    hide Set, Flatten, OtherIps, RemovedByIp;
    RemovedByIpIsFilter(es, ip);
    OtherIpsSet(Flatten(es), ip);
  }

  lemma AddedPairs(isIp: IpTest, parse: Parser, es: seq<Entry>, ip: string, hosts: seq<string>)
    ensures PairSet(Apply(isIp, parse, es, Add(ip, hosts))) == ApplySet(isIp, PairSet(es), Add(ip, hosts))
  {
    hide PairSet, Cleaned, Added, PairsOf;
    PairsNone(ip);
    if isIp(ip) && Cleaned(hosts) != [] { AddedIsUnion(es, ip, Cleaned(hosts)); }
  }

  /** Combining, wrapping and sorting keep the pairs. */
  lemma SamePairs(parse: Parser, es: seq<Entry>, count: int)
    ensures PairSet(Combine(es)) == PairSet(Wrapped(es, count)) == PairSet(es)
    ensures PairSet(LinesSorted(es)) == PairSet(SortedByIp(parse, es)) == PairSet(es)
  {
    hide Set, Flatten, Combine, Wrapped, LinesSorted, SortedByIp;
    CombineKeepsPairs(es);
    WrappedMeaning(es, count);
    LinesSortedMeaning(es);
    SortedByIpMeaning(parse, es);
  }

  /** Adding is union, the two removals are filters, and everything else is the identity. */
  lemma ApplyRefinesSet(isIp: IpTest, parse: Parser, es: seq<Entry>, op: Op)
    requires Relational(op)
    ensures PairSet(Apply(isIp, parse, es, op)) == ApplySet(isIp, PairSet(es), op)
  {
    hide PairSet, Added, Removed, RemovedByIp, Combine, Wrapped, LinesSorted, SortedByIp, Cleaned, Trim, PairsOf;
    match op
    case Add(ip, hosts) => AddedPairs(isIp, parse, es, ip, hosts);
    case RemoveName(host) => RemovedPairs(es, Trim(host));
    case RemoveIp(ip) => RemovedByIpPairs(es, ip);
    case CombineIps => SamePairs(parse, es, 0);
    case Wrap(count) => SamePairs(parse, es, count);
    case SortNamesOp => SamePairs(parse, es, 0);
    case SortIpsOp => SamePairs(parse, es, 0);
  }

  function RunSet(isIp: IpTest, ps: set<Pair>, ops: seq<Op>): set<Pair>
    decreases |ops|
  {
    if ops == [] then ps else ApplySet(isIp, RunSet(isIp, ps, ops[..|ops| - 1]), ops[|ops| - 1])
  }

  /** The hosts file refines a set of pairs, over every sequence of these operations. */
  lemma {:induction false} EveryRunRefinesSet(isIp: IpTest, parse: Parser, es: seq<Entry>, ops: seq<Op>)
    requires forall i :: 0 <= i < |ops| ==> Relational(ops[i])
    ensures PairSet(RunOps(isIp, parse, es, ops)) == RunSet(isIp, PairSet(es), ops)
    decreases |ops|
  {
    if ops != [] {
      EveryRunRefinesSet(isIp, parse, es, ops[..|ops| - 1]);
      ApplyRefinesSet(isIp, parse, RunOps(isIp, parse, es, ops[..|ops| - 1]), ops[|ops| - 1]);
    }
  }
}
