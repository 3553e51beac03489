/** The hosts file as an object. Every method is proved against its function on the list of
    entries; the loops, flags and seen-sets are those of the program. */
module Hosts {
  import opened Bytes
  import opened HostsText
  import opened HostsTable
  import opened HostsClean
  import opened HostsOps
  import opened HostsSort
  import opened HostsRuns

  // ---------------------------------------------------------------------------
  // Loops over names
  // ---------------------------------------------------------------------------

  lemma {:induction false} UniqueLength(hosts: seq<string>, seen: set<string>)
    ensures |Unique(hosts, seen)| <= |hosts| && (|Unique(hosts, seen)| == |hosts| ==> Unique(hosts, seen) == hosts)
    decreases |hosts|
  {
    if hosts != [] {
      UniqueLength(hosts[1..], if hosts[0] in seen then seen else seen + {hosts[0]});
    }
  }

  /** One more name, and the end of the loop. */
  lemma UniqueAt(done: seq<string>, hosts: seq<string>, i: nat, seen: set<string>)
    requires i <= |hosts|
    ensures i == |hosts| ==> done + Unique(hosts[i..], seen) == done
    ensures i < |hosts| ==>
      done + Unique(hosts[i..], seen)
      == if hosts[i] in seen then done + Unique(hosts[i + 1..], seen)
         else done + [hosts[i]] + Unique(hosts[i + 1..], seen + {hosts[i]})
  {
    if i == |hosts| {
      assert hosts[i..] == [] && done + [] == done;
    } else {
      assert hosts[i..][0] == hosts[i] && hosts[i..][1..] == hosts[i + 1..];
      Regroup(done, [hosts[i]], Unique(hosts[i + 1..], seen + {hosts[i]}));
    }
  }

  lemma SetAt(hosts: seq<string>, i: nat)
    requires i <= |hosts|
    ensures i == |hosts| ==> Set(hosts[i..]) == {}
    ensures i < |hosts| ==> Set(hosts[i..]) == {hosts[i]} + Set(hosts[i + 1..])
  {
    if i < |hosts| {
      SetCons(hosts[i..]);
      assert hosts[i..][1..] == hosts[i + 1..];
    }
  }

  /** Keeps the names not seen before, and remembers them. */
  method KeepNew(hosts: seq<string>, before: set<string>) returns (unique: seq<string>, seen: set<string>, changed: bool)
    ensures unique == Unique(hosts, before) && seen == before + Set(hosts)
    ensures changed <==> unique != hosts
  {
    hide Unique, Set;
    unique, seen, changed := [], before, false;
    var i := 0;
    assert hosts[0..] == hosts;
    while i < |hosts|
      invariant 0 <= i <= |hosts|
      invariant unique + Unique(hosts[i..], seen) == Unique(hosts, before)
      invariant seen + Set(hosts[i..]) == before + Set(hosts)
      invariant |unique| <= i && (changed <==> |unique| < i)
    {
      UniqueAt(unique, hosts, i, seen);
      SetAt(hosts, i);
      if hosts[i] in seen {
        changed := true;
      } else {
        unique, seen := unique + [hosts[i]], seen + {hosts[i]};
      }
      i := i + 1;
    }
    UniqueAt(unique, hosts, i, seen);
    SetAt(hosts, i);
    UniqueLength(hosts, before);
  }

  lemma {:induction false} WithoutLength(hosts: seq<string>, gone: set<string>)
    ensures |Without(hosts, gone)| <= |hosts| && (|Without(hosts, gone)| == |hosts| ==> Without(hosts, gone) == hosts)
    decreases |hosts|
  {
    if hosts != [] { WithoutLength(hosts[1..], gone); }
  }

  lemma WithoutAt(done: seq<string>, hosts: seq<string>, i: nat, gone: set<string>)
    requires i <= |hosts|
    ensures i == |hosts| ==> done + Without(hosts[i..], gone) == done
    ensures i < |hosts| ==>
      done + Without(hosts[i..], gone)
      == (if hosts[i] in gone then done else done + [hosts[i]]) + Without(hosts[i + 1..], gone)
  {
    if i == |hosts| {
      assert hosts[i..] == [] && done + [] == done;
    } else {
      assert hosts[i..][0] == hosts[i] && hosts[i..][1..] == hosts[i + 1..];
      var here := if hosts[i] in gone then [] else [hosts[i]];
      Regroup(done, here, Without(hosts[i + 1..], gone));
      assert done + [] == done;
    }
  }

  method DropNames(hosts: seq<string>, gone: set<string>) returns (left: seq<string>, changed: bool)
    ensures left == Without(hosts, gone) && (changed <==> left != hosts)
  {
    hide Without;
    left, changed := [], false;
    var i := 0;
    assert hosts[0..] == hosts;
    while i < |hosts|
      invariant 0 <= i <= |hosts|
      invariant left + Without(hosts[i..], gone) == Without(hosts, gone)
      invariant |left| <= i && (changed <==> |left| < i)
    {
      WithoutAt(left, hosts, i, gone);
      if hosts[i] in gone { changed := true; } else { left := left + [hosts[i]]; }
      i := i + 1;
    }
    WithoutAt(left, hosts, i, gone);
    WithoutLength(hosts, gone);
  }

  lemma CleanedAt(done: seq<string>, hosts: seq<string>, i: nat)
    requires i <= |hosts|
    ensures i == |hosts| ==> done + Cleaned(hosts[i..]) == done
    ensures i < |hosts| ==>
      done + Cleaned(hosts[i..])
      == (if Trim(hosts[i]) == "" then done else done + [Trim(hosts[i])]) + Cleaned(hosts[i + 1..])
  {
    hide Trim;
    if i == |hosts| {
      assert hosts[i..] == [] && done + [] == done;
    } else {
      assert hosts[i..][0] == hosts[i] && hosts[i..][1..] == hosts[i + 1..];
      Regroup(done, if Trim(hosts[i]) == "" then [] else [Trim(hosts[i])], Cleaned(hosts[i + 1..]));
      assert done + [] == done;
    }
  }

  method CleanNames(hosts: seq<string>) returns (valid: seq<string>)
    ensures valid == Cleaned(hosts)
  {
    hide Cleaned, Trim;
    valid := [];
    var i := 0;
    assert hosts[0..] == hosts;
    while i < |hosts|
      invariant 0 <= i <= |hosts| && valid + Cleaned(hosts[i..]) == Cleaned(hosts)
    {
      CleanedAt(valid, hosts, i);
      var h := Trim(hosts[i]);
      if h != "" { valid := valid + [h]; }
      i := i + 1;
    }
    CleanedAt(valid, hosts, i);
  }

  // ---------------------------------------------------------------------------
  // The object
  // ---------------------------------------------------------------------------

  class Hosts {
    const isIp: IpTest
    const parse: Parser
    var entries: seq<Entry>
    /** Whether two lines may share memory: a wrap split a line and nothing was combined since. */
    ghost var shared: bool

    constructor (isIp: IpTest, parse: Parser, entries: seq<Entry>)
      ensures this.isIp == isIp && this.parse == parse && this.entries == entries && !shared
    {
      this.isIp, this.parse, this.entries, shared := isIp, parse, entries, false;
    }

    /** Reads a file, line by line, and fails as a whole at a line that is too long. */
    static method LoadAndParse(isIp: IpTest, text: string) returns (r: Result<seq<Entry>>)
      ensures r == Load(isIp, text)
    {
      hide ParseFile, Scans, ParseLine, DropReturn, LineEnd, ByteLength;
      var found, rest := [], text;
      while rest != ""
        invariant found + ParseFile(isIp, rest) == ParseFile(isIp, text)
        invariant Scans(rest) <==> Scans(text)
        decreases |rest|
      {
        var n := LineEnd(rest);
        ParseFileStep(isIp, rest);
        if ByteLength(rest[..n]) >= MAX_LINE { return Err("token too long"); }
        var entry := ParseLine(isIp, DropReturn(rest[..n]));
        rest := if n < |rest| then rest[n + 1..] else "";
        Regroup(found, [entry], ParseFile(isIp, rest));
        found := found + [entry];
      }
      EmptyFile(isIp);
      assert found + [] == found;
      return Ok(found);
    }

    static method Open(isIp: IpTest, parse: Parser, text: string) returns (r: Result<Hosts>)
      ensures r.Ok? <==> Load(isIp, text).Ok?
      ensures r.Ok? ==> fresh(r.value) && r.value.isIp == isIp && r.value.parse == parse && !r.value.shared
      ensures r.Ok? ==> r.value.entries == Load(isIp, text).value
    {
      var loaded := LoadAndParse(isIp, text);
      if loaded.Err? { return Err(loaded.error); }
      var h := new Hosts(isIp, parse, loaded.value);
      return Ok(h);
    }

    /** A file that cannot be read leaves the entries as they were. */
    method Reload(text: string) returns (r: Result<()>)
      modifies this
      ensures r.Ok? <==> Load(isIp, text).Ok?
      ensures if r.Ok? then entries == Load(isIp, text).value && !shared
              else entries == old(entries) && shared == old(shared)
    {
      var loaded := LoadAndParse(isIp, text);
      if loaded.Err? { return Err(loaded.error); }
      entries, shared := loaded.value, false;
      return Ok(());
    }

    method Text() returns (text: string)
      ensures text == Print(entries)
    {
      var lines := [];
      var i := 0;
      while i < |entries|
        invariant 0 <= i <= |entries| && lines == Raws(entries[..i])
      {
        lines := lines + [entries[i].raw];
        i := i + 1;
      }
      assert entries[..i] == entries;
      text := Join(lines, "\n");
      if !(text != "" && text[|text| - 1] == '\n') { text := text + "\n"; }
    }

    method InsertRaw(lines: seq<string>)
      modifies `entries
      ensures entries == old(entries) + ParseAll(isIp, lines)
    {
      var i := 0;
      while i < |lines|
        invariant 0 <= i <= |lines| && entries == old(entries) + ParseAll(isIp, lines[..i])
      {
        entries := entries + [ParseLine(isIp, lines[i])];
        i := i + 1;
      }
      assert lines[..i] == lines;
    }

    // Queries.

    method Has(ip: string, host: string) returns (r: bool)
      ensures r <==> Trim(host) != "" && (ip, Trim(host)) in PairSet(entries)
    {
      var h := Trim(host);
      if h == "" { return false; }
      var i := 0;
      while i < |entries|
        invariant 0 <= i <= |entries|
        invariant forall k :: 0 <= k < i ==> !(entries[k].active && entries[k].ip == ip && h in Set(entries[k].hosts))
      {
        if entries[i].active && entries[i].ip == ip {
          var found := HasName(entries[i].hosts, h);
          if found {
            PairSetMember(entries, (ip, h));
            assert entries[i] in entries;
            return true;
          }
        }
        i := i + 1;
      }
      PairSetMember(entries, (ip, h));
      return false;
    }

    static method HasName(hosts: seq<string>, host: string) returns (r: bool)
      ensures r <==> host in Set(hosts)
    {
      var i := 0;
      while i < |hosts|
        invariant 0 <= i <= |hosts| && forall k :: 0 <= k < i ==> hosts[k] != host
      {
        if hosts[i] == host { return true; }
        i := i + 1;
      }
      return false;
    }

    method HasHostname(host: string) returns (r: bool)
      ensures r <==> Trim(host) != "" && exists ip :: (ip, Trim(host)) in PairSet(entries)
    {
      var h := Trim(host);
      if h == "" { return false; }
      var i := 0;
      while i < |entries|
        invariant 0 <= i <= |entries|
        invariant forall k :: 0 <= k < i ==> !(entries[k].active && h in Set(entries[k].hosts))
      {
        if entries[i].active {
          var found := HasName(entries[i].hosts, h);
          if found {
            PairSetMember(entries, (entries[i].ip, h));
            assert entries[i] in entries;
            assert (entries[i].ip, h) in PairSet(entries);
            return true;
          }
        }
        i := i + 1;
      }
      forall ip ensures (ip, h) !in PairSet(entries) { PairSetMember(entries, (ip, h)); }
      return false;
    }

    method HasIp(ip: string) returns (r: bool)
      ensures r <==> exists e :: e in entries && e.active && e.ip == ip
    {
      var i := 0;
      while i < |entries|
        invariant 0 <= i <= |entries| && forall k :: 0 <= k < i ==> !(entries[k].active && entries[k].ip == ip)
      {
        if entries[i].active && entries[i].ip == ip {
          assert entries[i] in entries;
          return true;
        }
        i := i + 1;
      }
      return false;
    }

    // Adding and removing.

    method Add(ip: string, hosts: seq<string>) returns (r: Result<()>)
      requires shared ==> AtMostOnce(entries, ip)
      modifies `entries
      ensures r.Ok? <==> isIp(ip) && Cleaned(hosts) != []
      ensures entries == if r.Ok? then Added(old(entries), ip, Cleaned(hosts)) else old(entries)
    {
      if !isIp(ip) { return Err("invalid IP address format"); }
      if |hosts| == 0 { return Err("at least one hostname must be provided"); }
      var valid := CleanNames(hosts);
      if |valid| == 0 { return Err("no valid hostnames provided"); }
      var i := 0;
      while i < |entries|
        invariant 0 <= i <= |entries| && entries == old(entries)
        invariant forall k :: 0 <= k < i ==> !(entries[k].active && entries[k].ip == ip)
      {
        if entries[i].active && entries[i].ip == ip {
          ghost var es := entries;
          var names := entries[i].hosts;
          var more, seen, changed := KeepNew(valid, Set(names));
          if more != [] { entries := entries[i := Formatted(ip, names + more)]; }
          AddedAt(es, ip, valid, i);
          return Ok(());
        }
        i := i + 1;
      }
      AddedAtEnd(entries, ip, valid);
      entries := entries + [Formatted(ip, valid)];
      return Ok(());
    }

    method RemoveByHostname(host: string) returns (r: Result<()>)
      modifies `entries
      ensures r.Ok? <==> Trim(host) != "" && Trim(host) in Names(Flatten(old(entries)))
      ensures entries == if r.Ok? then Removed(old(entries), None, {Trim(host)}) else old(entries)
    {
      var h := Trim(host);
      if h == "" { return Err("hostname cannot be empty"); }
      var found, newEntries := false, [];
      var i := 0;
      while i < |entries|
        invariant 0 <= i <= |entries| && entries == old(entries)
        invariant newEntries + Removed(entries[i..], None, {h}) == Removed(entries, None, {h})
        invariant found || h in Names(Flatten(entries[i..])) <==> h in Names(Flatten(entries))
      {
        var line, changed := RemoveFromLine(entries[i], None, {h});
        found := found || changed;
        RemovedStep(newEntries, entries, i, None, {h});
        NamesStep(entries, i, h);
        newEntries := newEntries + line;
        i := i + 1;
      }
      if !found { return Err("hostname not found"); }
      entries := newEntries;
      return Ok(());
    }

    /** What is left of one line, if anything, and whether it changed. */
    static method RemoveFromLine(e: Entry, only: Option<string>, gone: set<string>) returns (line: seq<Entry>, changed: bool)
      ensures line == RemovedLine(e, only, gone)
      ensures changed <==> e.active && Concerns(only, e.ip) && Without(e.hosts, gone) != e.hosts
    {
      if !e.active || !Concerns(only, e.ip) { return [e], false; }
      var left;
      left, changed := DropNames(e.hosts, gone);
      if !changed { return [e], false; }
      line := if left == [] then [] else [Formatted(e.ip, left)];
    }

    method RemoveByIp(ip: string)
      modifies `entries
      ensures entries == RemovedByIp(old(entries), ip)
    {
      hide RemovedByIp;
      var found, newEntries := false, [];
      var i := 0;
      assert entries[0..] == entries;
      while i < |entries|
        invariant 0 <= i <= |entries| && entries == old(entries)
        invariant newEntries + RemovedByIp(entries[i..], ip) == RemovedByIp(entries, ip)
        invariant !found ==> newEntries == entries[..i]
      {
        RemovedByIpAt(newEntries, entries, i, ip);
        if entries[i].active && entries[i].ip == ip { found := true; } else { newEntries := newEntries + [entries[i]]; }
        i := i + 1;
      }
      RemovedByIpAt(newEntries, entries, i, ip);
      assert entries[..i] == entries;
      if found { entries := newEntries; }
    }

    /** Takes effect only when a whole line disappears. */
    method Remove(ip: string, hosts: seq<string>) returns (r: Result<()>)
      modifies `entries
      ensures r.Ok? <==> isIp(ip) && Cleaned(hosts) != [] && Touched(old(entries), ip, Set(Cleaned(hosts)))
      ensures entries == if r.Ok? then Committed(old(entries), ip, Set(Cleaned(hosts))) else old(entries)
    {
      if !isIp(ip) { return Err("invalid IP address format"); }
      if |hosts| == 0 { return Err("at least one hostname must be provided for removal"); }
      var valid := CleanNames(hosts);
      if |valid| == 0 { return Err("no valid hostnames provided for removal"); }
      var gone := Set(valid);
      var foundIp, modified, entryRemoved, newEntries := false, false, false, [];
      var i := 0;
      while i < |entries|
        invariant 0 <= i <= |entries| && entries == old(entries) && (modified ==> foundIp)
        invariant newEntries + Removed(entries[i..], Some(ip), gone) == Removed(entries, Some(ip), gone)
        invariant modified || Touched(entries[i..], ip, gone) <==> Touched(entries, ip, gone)
        invariant entryRemoved || LineGone(entries[i..], ip, gone) <==> LineGone(entries, ip, gone)
      {
        var e := entries[i];
        if e.active && e.ip == ip { foundIp := true; }
        var line, changed := RemoveFromLine(e, Some(ip), gone);
        if changed {
          modified := true;
          if line == [] { entryRemoved := true; }
        }
        RemovedStep(newEntries, entries, i, Some(ip), gone);
        TouchedStep(entries, i, ip, gone);
        newEntries := newEntries + line;
        i := i + 1;
      }
      if !foundIp { return Err("ip address not found"); }
      if !modified { return Err("host entry (ip/hostname pair) not found"); }
      if entryRemoved { entries := newEntries; }
      return Ok(());
    }

    // Normalising.

    /** First pass: repetitions within a line, changed in place. */
    method DedupLines()
      modifies `entries
      ensures entries == LinesDeduped(old(entries))
    {
      var i := 0;
      while i < |entries|
        invariant 0 <= i <= |entries| == |old(entries)|
        invariant forall k :: 0 <= k < |entries| ==>
          entries[k] == if k < i then LineDeduped(old(entries)[k]) else old(entries)[k]
      {
        var e := entries[i];
        if e.active && |e.hosts| > 1 {
          var unique, _, changed := KeepNew(e.hosts, {});
          if changed { entries := entries[i := Formatted(e.ip, unique)]; }
        }
        i := i + 1;
      }
    }

    /** What the second pass keeps of one line, and the names seen by then. */
    static method DedupAcross(e: Entry, before: set<string>) returns (line: seq<Entry>, seen: set<string>, changed: bool)
      ensures line == DedupedLine(e, before) && seen == SeenAfter(e, before)
      ensures !changed ==> line == [e]
    {
      line, seen, changed := [e], before, false;
      if e.active {
        if |e.hosts| == 0 {
          assert Set(e.hosts) == {} && before + {} == before;
          return [], seen, true;
        }
        var unique;
        unique, seen, changed := KeepNew(e.hosts, before);
        if |unique| == 0 { return [], seen, true; }
        if changed { line := [Formatted(e.ip, unique)]; }
      }
    }

    /** Second pass: names seen on an earlier line, and lines left without names. */
    method RemoveDuplicateHosts()
      modifies `entries
      ensures entries == RemoveDuplicates(old(entries))
    {
      DedupLines();
      var es := entries;
      var seen, newEntries, modified := {}, [], false;
      var i := 0;
      while i < |es|
        invariant 0 <= i <= |es|
        invariant entries == es && newEntries + Deduped(es[i..], seen) == Deduped(es, {})
        invariant !modified ==> newEntries == es[..i]
      {
        DedupedStep(newEntries, es, i, seen);
        var line, seen', changed := DedupAcross(es[i], seen);
        newEntries, seen, modified := newEntries + line, seen', modified || changed;
        i := i + 1;
      }
      assert es[..i] == es && es[i..] == [] && newEntries == newEntries + [];
      if modified { entries := newEntries; }
    }

    /** First pass of combining: the names of each address, the lines to keep, and whether any
        address repeats. */
    static method Collect(es: seq<Entry>) returns (names: map<string, seq<string>>, keep: seq<Entry>, modified: bool)
      ensures keep == Kept(es, {}) && (modified <==> Repeats(es, {}))
      ensures forall e :: e in keep && e.active ==> e.ip in names && names[e.ip] == NamesFor(es, e.ip)
    {
      hide Kept, Repeats, NamesFor, Gathered, KeptIn;
      names, keep, modified := map[], [], false;
      var i := 0;
      CollectStart(es, names);
      while i < |es|
        invariant 0 <= i <= |es|
        invariant keep + Kept(es[i..], names.Keys) == Kept(es, {})
        invariant modified || Repeats(es[i..], names.Keys) <==> Repeats(es, {})
        invariant Gathered(es, i, names) && KeptIn(keep, names)
      {
        var e := es[i];
        ghost var was, kept := names, keep;
        KeptStep(keep, es, i, names.Keys);
        if !e.active {
          keep := keep + [e];
        } else {
          if e.ip !in names {
            names, keep := names[e.ip := []], keep + [e];
          } else {
            modified := true;
          }
          names := names[e.ip := names[e.ip] + e.hosts];
        }
        assert names.Keys == DoneAfter(e, was.Keys);
        CollectStep(es, i, was, names);
        KeptInStep(kept, was, keep, names, e);
        i := i + 1;
      }
      CollectEnd(es, keep, names);
    }

    method CombineDuplicateIps()
      modifies this
      ensures entries == Combine(old(entries)) && !shared
    {
      var es := entries;
      var names, keep, modified := Collect(es);
      if !modified {
        shared := false;
        return;
      }
      var final := [];
      var i := 0;
      while i < |keep|
        invariant 0 <= i <= |keep| && final + Finished(keep[i..], es) == Finished(keep, es)
      {
        var e := keep[i];
        FinishedStep(final, keep, i, es);
        if e.active {
          assert e in keep;
          var unique, _, _ := KeepNew(names[e.ip], {});
          e := Formatted(e.ip, unique);
        }
        final := final + [e];
        i := i + 1;
      }
      FinishedIsMerged(es, {}, es);
      assert keep[i..] == [] && final + [] == final;
      entries, shared := final, false;
    }

    method DropEmptyLines()
      modifies `entries
      ensures entries == NonEmpty(old(entries))
    {
      hide NonEmpty;
      var newEntries, modified := [], false;
      var i := 0;
      assert entries[0..] == entries;
      while i < |entries|
        invariant 0 <= i <= |entries| && entries == old(entries)
        invariant newEntries + NonEmpty(entries[i..]) == NonEmpty(entries)
        invariant !modified ==> newEntries == entries[..i]
      {
        NonEmptyAt(newEntries, entries, i);
        if entries[i].active && |entries[i].hosts| == 0 { modified := true; } else { newEntries := newEntries + [entries[i]]; }
        i := i + 1;
      }
      NonEmptyAt(newEntries, entries, i);
      assert entries[..i] == entries;
      if modified { entries := newEntries; }
    }

    method Tidy()
      modifies this
      ensures entries == Clean(old(entries)) && !shared
    {
      CombineDuplicateIps();
      RemoveDuplicateHosts();
      DropEmptyLines();
    }

    method WrapLines(count: int)
      modifies this
      ensures entries == Wrapped(old(entries), count) && (shared <==> old(shared) || entries != old(entries))
    {
      if count <= 0 { return; }
      var newEntries, modified := [], false;
      var i := 0;
      while i < |entries|
        invariant 0 <= i <= |entries| && entries == old(entries) && shared == old(shared)
        invariant newEntries + Wrapped(entries[i..], count) == Wrapped(entries, count)
        invariant !modified ==> newEntries == entries[..i]
      {
        var e := entries[i];
        WrappedStep(newEntries, entries, i, count);
        if !e.active || |e.hosts| <= count {
          newEntries := newEntries + [e];
        } else {
          modified := true;
          var lines := SplitLine(e.ip, e.hosts, count);
          newEntries := newEntries + lines;
        }
        i := i + 1;
      }
      assert entries[..i] == entries;
      if modified { entries := newEntries; }
      shared := shared || entries != old(entries);
    }

    static method SplitLine(ip: string, hosts: seq<string>, count: nat) returns (lines: seq<Entry>)
      requires 0 < count < |hosts|
      ensures lines == Chunks(ip, hosts, count)
    {
      lines := [Formatted(ip, hosts[..count])];
      var start := count;
      while start < |hosts|
        invariant count <= start
        invariant lines + ChunksFrom(ip, hosts, start, count) == Chunks(ip, hosts, count)
      {
        var end := if start + count < |hosts| then start + count else |hosts|;
        ChunksStep(lines, ip, hosts, start, end, count);
        lines := lines + [Formatted(ip, hosts[start..end])];
        start := start + count;
      }
    }

    /** Sorts the names of each line in place. */
    method SortHosts() returns (modified: bool)
      modifies `entries
      ensures entries == LinesSorted(old(entries)) && (modified <==> entries != old(entries))
    {
      modified := false;
      var i := 0;
      while i < |entries|
        invariant 0 <= i <= |entries| == |old(entries)|
        invariant forall k :: 0 <= k < |entries| ==>
          entries[k] == if k < i then LineSorted(old(entries)[k]) else old(entries)[k]
        invariant modified <==> entries != old(entries)
      {
        var e := entries[i];
        if e.active && |e.hosts| > 1 && SortNames(e.hosts) != e.hosts {
          entries, modified := entries[i := Formatted(e.ip, SortNames(e.hosts))], true;
          assert entries[i] != old(entries)[i];
        }
        i := i + 1;
      }
    }

    method SortIps()
      modifies `entries
      ensures entries == SortedByIp(parse, old(entries))
    {
      var active, inactive := [], [];
      var i := 0;
      while i < |entries|
        invariant 0 <= i <= |entries|
        invariant active + Actives(entries[i..]) == Actives(entries)
        invariant inactive + Inactive(entries[i..]) == Inactive(entries)
      {
        assert entries[i..][1..] == entries[i + 1..];
        if entries[i].active { active := active + [entries[i]]; } else { inactive := inactive + [entries[i]]; }
        i := i + 1;
      }
      assert entries[i..] == [] && active + [] == active && inactive + [] == inactive;
      entries := inactive + StableSort(parse, active);
    }

    // Any operation, and any sequence of them.

    method Perform(op: Op)
      requires op.Add? && shared ==> AtMostOnce(entries, op.ip)
      modifies this
      ensures entries == Apply(isIp, parse, old(entries), op) && shared == Shares(old(entries), old(shared), op)
    {
      match op {
        case Insert(lines) => InsertRaw(lines);
        case Add(ip, hosts) => var _ := Add(ip, hosts);
        case Remove(ip, hosts) => var _ := Remove(ip, hosts);
        case RemoveName(host) =>
          if Trim(host) !in Names(Flatten(entries)) { RemovedAbsent(entries, Trim(host)); }
          var _ := RemoveByHostname(host);
        case RemoveIp(ip) => RemoveByIp(ip);
        case Dedup => RemoveDuplicateHosts();
        case CombineIps => CombineDuplicateIps();
        case CleanUp => Tidy();
        case Wrap(count) => WrapLines(count);
        case SortNamesOp => var _ := SortHosts();
        case SortIpsOp => SortIps();
      }
    }

    method PerformAll(ops: seq<Op>)
      requires Unshared(isIp, parse, entries, shared, ops)
      modifies this
      ensures entries == RunOps(isIp, parse, old(entries), ops)
    {
      var i := 0;
      while i < |ops|
        invariant 0 <= i <= |ops| && entries == RunOps(isIp, parse, old(entries), ops[..i])
        invariant Unshared(isIp, parse, entries, shared, ops[i..])
      {
        assert ops[i..][0] == ops[i] && ops[i..][1..] == ops[i + 1..];
        Perform(ops[i]);
        assert ops[..i + 1][..i] == ops[..i];
        i := i + 1;
      }
      assert ops[..i] == ops;
    }
  }

  lemma EmptyFile(isIp: IpTest)
    ensures ParseFile(isIp, "") == [] && Scans("")
  {}

  lemma ParseFileStep(isIp: IpTest, s: string)
    requires s != ""
    ensures var n := LineEnd(s);
      var rest := if n < |s| then s[n + 1..] else "";
      && ParseFile(isIp, s) == [ParseLine(isIp, DropReturn(s[..n]))] + ParseFile(isIp, rest)
      && (Scans(s) <==> Fits(s[..n]) && Scans(rest))
  {
    hide Fits, ParseLine, LineEnd, DropReturn;
    var n := LineEnd(s);
    var rest := if n < |s| then s[n + 1..] else "";
    assert Lines(s) == [DropReturn(s[..n])] + Lines(rest);
    hide *;
    ParseAllCons(isIp, DropReturn(s[..n]), Lines(rest));
  }

  lemma ParseAllCons(isIp: IpTest, line: string, lines: seq<string>)
    ensures ParseAll(isIp, [line] + lines) == [ParseLine(isIp, line)] + ParseAll(isIp, lines)
  {}

  function DedupedLine(e: Entry, seen: set<string>): seq<Entry> {
    var u := Unique(e.hosts, seen);
    if !e.active || (u != [] && u == e.hosts) then [e] else if u == [] then [] else [Formatted(e.ip, u)]
  }

  function SeenAfter(e: Entry, seen: set<string>): set<string> {
    if e.active then seen + Set(e.hosts) else seen
  }

  lemma DedupedStep(done: seq<Entry>, es: seq<Entry>, i: nat, seen: set<string>)
    requires i < |es|
    ensures done + Deduped(es[i..], seen) == done + DedupedLine(es[i], seen) + Deduped(es[i + 1..], SeenAfter(es[i], seen))
  {
    var line, more := DedupedLine(es[i], seen), Deduped(es[i + 1..], SeenAfter(es[i], seen));
    assert Deduped(es[i..], seen) == line + more by {
      assert es[i..][0] == es[i] && es[i..][1..] == es[i + 1..];
    }
    Regroup(done, line, more);
  }

  lemma {:induction false} RemovedAbsent(es: seq<Entry>, h: string)
    requires h !in Names(Flatten(es))
    ensures Removed(es, None, {h}) == es
    decreases |es|
  {
    if es != [] {
      assert es[0..] == es;
      NamesStep(es, 0, h);
      RemovedAbsent(es[1..], h);
      assert es == [es[0]] + es[1..];
    }
  }

  /** The inactive lines and the first line of each address. */
  function Kept(es: seq<Entry>, done: set<string>): seq<Entry> {
    if es == [] then []
    else if !es[0].active then [es[0]] + Kept(es[1..], done)
    else if es[0].ip in done then Kept(es[1..], done)
    else [es[0]] + Kept(es[1..], done + {es[0].ip})
  }

  /** Each kept line takes all names of its address. */
  function Finished(keep: seq<Entry>, all: seq<Entry>): seq<Entry> {
    if keep == [] then []
    else [if keep[0].active then Formatted(keep[0].ip, Unique(NamesFor(all, keep[0].ip), {})) else keep[0]]
         + Finished(keep[1..], all)
  }

  lemma {:induction false} FinishedIsMerged(es: seq<Entry>, done: set<string>, all: seq<Entry>)
    ensures Finished(Kept(es, done), all) == Merged(es, done, all)
    decreases |es|
  {
    if es != [] {
      var rest := es[1..];
      if !es[0].active {
        FinishedIsMerged(rest, done, all);
        assert Kept(es, done)[1..] == Kept(rest, done);
      } else if es[0].ip in done {
        FinishedIsMerged(rest, done, all);
      } else {
        FinishedIsMerged(rest, done + {es[0].ip}, all);
        assert Kept(es, done)[1..] == Kept(rest, done + {es[0].ip});
      }
    }
  }

  function NamesAt(names: map<string, seq<string>>, ip: string): seq<string> {
    if ip in names then names[ip] else []
  }

  function DoneAfter(e: Entry, done: set<string>): set<string> {
    if e.active then done + {e.ip} else done
  }

  /** One more line of the first pass. */
  lemma KeptStep(keep: seq<Entry>, es: seq<Entry>, i: nat, done: set<string>)
    requires i < |es|
    ensures var line := if es[i].active && es[i].ip in done then [] else [es[i]];
      keep + Kept(es[i..], done) == keep + line + Kept(es[i + 1..], DoneAfter(es[i], done))
    ensures Repeats(es[i..], done) <==>
      (es[i].active && es[i].ip in done) || Repeats(es[i + 1..], DoneAfter(es[i], done))
  {
    assert es[i..][0] == es[i] && es[i..][1..] == es[i + 1..];
    if es[i].active && es[i].ip in done {
      assert done + {es[i].ip} == done && keep + [] == keep;
    } else {
      Regroup(keep, [es[i]], Kept(es[i + 1..], DoneAfter(es[i], done)));
    }
  }

  /** The names collected so far and those still to come are all names of the address. */
  ghost predicate Gathered(es: seq<Entry>, i: nat, names: map<string, seq<string>>)
    requires i <= |es|
  {
    forall ip :: NamesAt(names, ip) + NamesFor(es[i..], ip) == NamesFor(es, ip)
  }

  ghost predicate KeptIn(keep: seq<Entry>, names: map<string, seq<string>>) {
    forall e :: e in keep && e.active ==> e.ip in names
  }

  lemma CollectStart(es: seq<Entry>, names: map<string, seq<string>>)
    requires names == map[]
    ensures es[0..] == es && names.Keys == {} && Gathered(es, 0, names) && KeptIn([], names)
  {
    hide NamesFor;
    assert es[0..] == es;
  }

  lemma NamesForAt(es: seq<Entry>, i: nat, was: map<string, seq<string>>, names: map<string, seq<string>>, ip: string)
    requires i < |es|
    requires NamesAt(was, ip) + NamesFor(es[i..], ip) == NamesFor(es, ip)
    requires NamesAt(names, ip) == NamesAt(was, ip) + if es[i].active && es[i].ip == ip then es[i].hosts else []
    ensures NamesAt(names, ip) + NamesFor(es[i + 1..], ip) == NamesFor(es, ip)
  {
    hide NamesFor, NamesAt;
    NamesForStep(es, i, ip);
    var here := if es[i].active && es[i].ip == ip then es[i].hosts else [];
    Regroup(NamesAt(was, ip), here, NamesFor(es[i + 1..], ip));
  }

  lemma CollectStep(es: seq<Entry>, i: nat, was: map<string, seq<string>>, names: map<string, seq<string>>)
    requires i < |es| && Gathered(es, i, was)
    requires names == if es[i].active then was[es[i].ip := NamesAt(was, es[i].ip) + es[i].hosts] else was
    ensures Gathered(es, i + 1, names)
  {
    hide NamesFor;
    forall ip ensures NamesAt(names, ip) + NamesFor(es[i + 1..], ip) == NamesFor(es, ip) {
      assert NamesAt(was, ip) + [] == NamesAt(was, ip);
      NamesForAt(es, i, was, names, ip);
    }
  }

  lemma KeptInStep(
    kept: seq<Entry>, was: map<string, seq<string>>, keep: seq<Entry>, names: map<string, seq<string>>, e: Entry)
    requires KeptIn(kept, was) && names.Keys == DoneAfter(e, was.Keys) && (keep == kept || keep == kept + [e])
    ensures KeptIn(keep, names)
  {}

  lemma CollectEnd(es: seq<Entry>, keep: seq<Entry>, names: map<string, seq<string>>)
    requires Gathered(es, |es|, names) && KeptIn(keep, names)
    ensures keep + Kept(es[|es|..], names.Keys) == keep && !Repeats(es[|es|..], names.Keys)
    ensures forall e :: e in keep && e.active ==> e.ip in names && names[e.ip] == NamesFor(es, e.ip)
  {
    assert es[|es|..] == [] && keep + [] == keep;
    forall e | e in keep && e.active ensures names[e.ip] == NamesFor(es, e.ip) {
      assert NamesFor([], e.ip) == [];
      assert NamesAt(names, e.ip) + [] == NamesAt(names, e.ip);
    }
  }

  lemma NamesForStep(es: seq<Entry>, i: nat, ip: string)
    requires i < |es|
    ensures NamesFor(es[i..], ip) == (if es[i].active && es[i].ip == ip then es[i].hosts else []) + NamesFor(es[i + 1..], ip)
  {
    assert es[i..][0] == es[i] && es[i..][1..] == es[i + 1..];
  }

  lemma FinishedStep(final: seq<Entry>, keep: seq<Entry>, i: nat, all: seq<Entry>)
    requires i < |keep|
    ensures var e := keep[i];
      final + Finished(keep[i..], all)
      == final + [if e.active then Formatted(e.ip, Unique(NamesFor(all, e.ip), {})) else e] + Finished(keep[i + 1..], all)
  {
    var e := keep[i];
    assert keep[i..][0] == e && keep[i..][1..] == keep[i + 1..];
    Regroup(final, [if e.active then Formatted(e.ip, Unique(NamesFor(all, e.ip), {})) else e], Finished(keep[i + 1..], all));
  }

  lemma WrappedStep(done: seq<Entry>, es: seq<Entry>, i: nat, count: nat)
    requires i < |es| && count > 0
    ensures var e := es[i];
      done + Wrapped(es[i..], count)
      == done + (if !e.active || |e.hosts| <= count then [e] else Chunks(e.ip, e.hosts, count)) + Wrapped(es[i + 1..], count)
  {
    hide Chunks;
    var e := es[i];
    assert es[i..][0] == e && es[i..][1..] == es[i + 1..];
    Regroup(done, if !e.active || |e.hosts| <= count then [e] else Chunks(e.ip, e.hosts, count), Wrapped(es[i + 1..], count));
  }

  function ChunksFrom(ip: string, hosts: seq<string>, start: nat, count: nat): seq<Entry>
    requires count > 0
  {
    if start < |hosts| then Chunks(ip, hosts[start..], count) else []
  }

  lemma ChunksStep(lines: seq<Entry>, ip: string, hosts: seq<string>, start: nat, end: nat, count: nat)
    requires count > 0 && start < |hosts| && end == if start + count < |hosts| then start + count else |hosts|
    ensures lines + ChunksFrom(ip, hosts, start, count)
         == lines + [Formatted(ip, hosts[start..end])] + ChunksFrom(ip, hosts, start + count, count)
  {
    var rest := hosts[start..];
    var line := [Formatted(ip, hosts[start..end])];
    if start + count < |hosts| {
      assert rest[..count] == hosts[start..end] && rest[count..] == hosts[start + count..];
      Regroup(lines, line, ChunksFrom(ip, hosts, start + count, count));
    } else {
      assert rest == hosts[start..end];
      assert lines + line + [] == lines + line;
    }
  }

  lemma RemovedByIpAt(done: seq<Entry>, es: seq<Entry>, i: nat, ip: string)
    requires i <= |es|
    ensures i == |es| ==> done + RemovedByIp(es[i..], ip) == done
    ensures i < |es| ==>
      done + RemovedByIp(es[i..], ip)
      == (if es[i].active && es[i].ip == ip then done else done + [es[i]]) + RemovedByIp(es[i + 1..], ip)
  {
    if i == |es| {
      assert es[i..] == [] && done + [] == done;
    } else {
      assert es[i..][0] == es[i] && es[i..][1..] == es[i + 1..];
      Regroup(done, if es[i].active && es[i].ip == ip then [] else [es[i]], RemovedByIp(es[i + 1..], ip));
      assert done + [] == done;
    }
  }

  lemma NonEmptyAt(done: seq<Entry>, es: seq<Entry>, i: nat)
    requires i <= |es|
    ensures i == |es| ==> done + NonEmpty(es[i..]) == done
    ensures i < |es| ==>
      done + NonEmpty(es[i..])
      == (if es[i].active && es[i].hosts == [] then done else done + [es[i]]) + NonEmpty(es[i + 1..])
  {
    if i == |es| {
      assert es[i..] == [] && done + [] == done;
    } else {
      assert es[i..][0] == es[i] && es[i..][1..] == es[i + 1..];
      Regroup(done, if es[i].active && es[i].hosts == [] then [] else [es[i]], NonEmpty(es[i + 1..]));
      assert done + [] == done;
    }
  }

  /** One more line of a removal. */
  lemma RemovedStep(done: seq<Entry>, es: seq<Entry>, i: nat, only: Option<string>, gone: set<string>)
    requires i < |es|
    ensures done + Removed(es[i..], only, gone) == done + RemovedLine(es[i], only, gone) + Removed(es[i + 1..], only, gone)
  {
    assert es[i..][0] == es[i] && es[i..][1..] == es[i + 1..];
    Regroup(done, RemovedLine(es[i], only, gone), Removed(es[i + 1..], only, gone));
  }

  lemma TouchedStep(es: seq<Entry>, i: nat, ip: string, gone: set<string>)
    requires i < |es|
    ensures Touched(es[i..], ip, gone) <==> LineTouched(es[i], ip, gone) || Touched(es[i + 1..], ip, gone)
    ensures LineGone(es[i..], ip, gone) <==>
      (LineTouched(es[i], ip, gone) && Without(es[i].hosts, gone) == []) || LineGone(es[i + 1..], ip, gone)
  {
    assert es[i..][0] == es[i] && es[i..][1..] == es[i + 1..];
  }

  lemma NamesStep(es: seq<Entry>, i: nat, h: string)
    requires i < |es|
    ensures h in Names(Flatten(es[i..])) <==>
      (es[i].active && Without(es[i].hosts, {h}) != es[i].hosts) || h in Names(Flatten(es[i + 1..]))
  {
    assert es[i..] == [es[i]] + es[i + 1..];
    NamesOfLine(es[i], es[i + 1..], h);
    WithoutOne(es[i].hosts, h);
  }

  lemma {:induction false} AddedAt(es: seq<Entry>, ip: string, hosts: seq<string>, i: nat)
    requires i < |es| && es[i].active && es[i].ip == ip
    requires forall k :: 0 <= k < i ==> !(es[k].active && es[k].ip == ip)
    ensures Added(es, ip, hosts) == es[i := Extended(es[i], hosts)]
    decreases |es|
  {
    if i > 0 {
      AddedAt(es[1..], ip, hosts, i - 1);
    }
  }

  lemma {:induction false} AddedAtEnd(es: seq<Entry>, ip: string, hosts: seq<string>)
    requires forall k :: 0 <= k < |es| ==> !(es[k].active && es[k].ip == ip)
    ensures Added(es, ip, hosts) == es + [Formatted(ip, hosts)]
    decreases |es|
  {
    if es != [] { AddedAtEnd(es[1..], ip, hosts); }
  }

  lemma NamesOfLine(e: Entry, rest: seq<Entry>, h: string)
    ensures h in Names(Flatten([e] + rest)) <==> (e.active && h in Set(e.hosts)) || h in Names(Flatten(rest))
  {
    ConsMeaning(e, rest);
    if e.active {
      FindLine(e.ip, e.hosts, Flatten(rest), h);
    } else {
      assert [] + Flatten(rest) == Flatten(rest);
    }
  }

  lemma WithoutOne(hosts: seq<string>, h: string)
    ensures Without(hosts, {h}) != hosts <==> h in Set(hosts)
  {
    if h in Set(hosts) {
      WithoutSet(hosts, {h});
    } else {
      WithoutKeeps(hosts, {h});
    }
  }
}
