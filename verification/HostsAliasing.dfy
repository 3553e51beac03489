/** Wrapping a long line makes slices of one backing array, and adding appends in place. What an
    addition after a wrap does to the lines of the address, and exactly when they are still what an
    addition should make of them. */
module HostsAliasing {
  import opened HostsText
  import opened HostsTable
  import opened HostsClean
  import opened HostsOps
  import opened HostsRuns

  /** A slice: `len` names from `off` on in one backing array, which has room for `cap` of them. */
  datatype Slice = Slice(at: nat, off: nat, len: nat, cap: nat)

  /** The backing arrays. */
  type Memory = seq<seq<string>>

  predicate Fits(m: Memory, s: Slice) {
    s.at < |m| && s.len <= s.cap && s.off + s.cap <= |m[s.at]|
  }

  function Read(m: Memory, s: Slice): seq<string>
    requires Fits(m, s)
  {
    m[s.at][s.off..s.off + s.len]
  }

  /** Appending writes into the backing array while there is room, and into a new one after that;
      `spare` is the room the new one gets. */
  function Append(m: Memory, s: Slice, x: string, spare: nat): (r: (Memory, Slice))
    requires Fits(m, s)
    ensures Fits(r.0, r.1)
  {
    if s.len < s.cap then (m[s.at := m[s.at][s.off + s.len := x]], s.(len := s.len + 1))
    else (m + [Read(m, s) + [x] + seq(spare, _ => "")], Slice(|m|, 0, s.len + 1, s.len + 1 + spare))
  }

  function AppendAll(m: Memory, s: Slice, xs: seq<string>, spare: nat): (r: (Memory, Slice))
    requires Fits(m, s)
    ensures Fits(r.0, r.1)
    decreases |xs|
  {
    if xs == [] then (m, s)
    else
      var (m1, s1) := Append(m, s, xs[0], spare);
      AppendAll(m1, s1, xs[1..], spare)
  }

  /** The first chunk of a wrapped line, with the room of the whole line behind it. */
  function First(line: Slice, count: nat): Slice
    requires count <= line.len
  {
    line.(len := count)
  }

  /** The names behind the first chunk: all further chunks, one after the other. */
  function Behind(line: Slice, count: nat): Slice
    requires count <= line.len <= line.cap
  {
    Slice(line.at, line.off + count, line.len - count, line.cap - count)
  }

  function Overwritten(rest: seq<string>, xs: seq<string>): seq<string> {
    if |xs| <= |rest| then xs + rest[|xs|..] else xs[..|rest|]
  }

  /** Arrays never shrink or go away. */
  lemma {:induction false} AppendKeepsSize(m: Memory, s: Slice, xs: seq<string>, spare: nat)
    requires Fits(m, s)
    ensures var m' := AppendAll(m, s, xs, spare).0;
      |m'| >= |m| && forall a :: 0 <= a < |m| ==> |m'[a]| == |m[a]|
    decreases |xs|
  {
    if xs != [] {
      var (m1, s1) := Append(m, s, xs[0], spare);
      AppendKeepsSize(m1, s1, xs[1..], spare);
    }
  }

  /** Other arrays are not touched. */
  lemma {:induction false} AppendKeepsOthers(m: Memory, s: Slice, xs: seq<string>, spare: nat, a: nat)
    requires Fits(m, s) && a < |m| && a != s.at
    ensures var m' := AppendAll(m, s, xs, spare).0;
      |m'| >= |m| && m'[a] == m[a]
    decreases |xs|
  {
    if xs != [] {
      var (m1, s1) := Append(m, s, xs[0], spare);
      AppendKeepsOthers(m1, s1, xs[1..], spare, a);
    }
  }

  lemma AppendOne(m: Memory, s: Slice, x: string, spare: nat)
    requires Fits(m, s)
    ensures Read(Append(m, s, x, spare).0, Append(m, s, x, spare).1) == Read(m, s) + [x]
  {}

  lemma {:induction false} AppendReads(m: Memory, s: Slice, xs: seq<string>, spare: nat)
    requires Fits(m, s)
    ensures Read(AppendAll(m, s, xs, spare).0, AppendAll(m, s, xs, spare).1) == Read(m, s) + xs
    decreases |xs|
  {
    hide Read;
    if xs == [] {
      assert Read(m, s) + [] == Read(m, s);
    } else {
      var (m1, s1) := Append(m, s, xs[0], spare);
      AppendOne(m, s, xs[0], spare);
      AppendReads(m1, s1, xs[1..], spare);
      assert Read(m, s) + [xs[0]] + xs[1..] == Read(m, s) + xs;
    }
  }

  /** Where an append writes in the slice's own array: behind its end, as far as there is room. */
  lemma {:induction false} AppendAt(m: Memory, s: Slice, xs: seq<string>, spare: nat, i: nat)
    requires Fits(m, s) && i < s.off + s.cap
    ensures var m' := AppendAll(m, s, xs, spare).0;
      var end := s.off + s.len;
      && |m'| >= |m| && |m'[s.at]| == |m[s.at]|
      && m'[s.at][i] == if end <= i < end + |xs| then xs[i - end] else m[s.at][i]
    decreases |xs|
  {
    AppendKeepsSize(m, s, xs, spare);
    if xs != [] {
      var (m1, s1) := Append(m, s, xs[0], spare);
      if s.len < s.cap {
        AppendAt(m1, s1, xs[1..], spare, i);
      } else {
        AppendKeepsOthers(m1, s1, xs[1..], spare, s.at);
      }
    }
  }

  lemma OverwrittenAt(rest: seq<string>, xs: seq<string>)
    ensures |Overwritten(rest, xs)| == |rest|
    ensures forall i :: 0 <= i < |rest| ==> Overwritten(rest, xs)[i] == if i < |xs| then xs[i] else rest[i]
  {}

  /** Appending to the first chunk overwrites the names behind it. */
  lemma AppendOverwrites(m: Memory, line: Slice, count: nat, xs: seq<string>, spare: nat)
    requires Fits(m, line) && count <= line.len
    ensures var m' := AppendAll(m, First(line, count), xs, spare).0;
      && Fits(m', Behind(line, count))
      && Read(m', Behind(line, count)) == Overwritten(Read(m, line)[count..], xs)
  {
    hide AppendAll, Overwritten;
    var m' := AppendAll(m, First(line, count), xs, spare).0;
    AppendKeepsSize(m, First(line, count), xs, spare);
    var rest, r := Read(m, line)[count..], Read(m', Behind(line, count));
    forall i | 0 <= i < line.len - count ensures r[i] == if i < |xs| then xs[i] else rest[i] {
      AppendAt(m, First(line, count), xs, spare, line.off + count + i);
    }
    OverwrittenAt(rest, xs);
    SameNames(r, Overwritten(rest, xs));
  }

  lemma SameNames(a: seq<string>, b: seq<string>)
    requires |a| == |b| && forall i :: 0 <= i < |a| ==> a[i] == b[i]
    ensures a == b
  {}

  lemma FirstReads(m: Memory, line: Slice, count: nat)
    requires Fits(m, line) && count <= line.len
    ensures Read(m, First(line, count)) == Read(m, line)[..count]
  {
    var a, b := Read(m, First(line, count)), Read(m, line)[..count];
    assert |a| == |b| && forall i :: 0 <= i < count ==> a[i] == m[line.at][line.off + i] == b[i];
  }

  /** The names the addition writes over. */
  function Lost(names: seq<string>, count: nat, more: seq<string>): seq<string>
    requires count <= |names|
  {
    if |more| <= |names| - count then names[count..count + |more|] else names[count..]
  }

  lemma NamesAfter(names: seq<string>, count: nat, more: seq<string>)
    requires 0 < count < |names|
    ensures var lost := Lost(names, count, more);
      Set(names[..count] + more) + Set(Overwritten(names[count..], more)) == Set(names) + Set(more)
      <==> Set(lost) <= Set(names[..count]) + Set(more) + Set(names[count + |lost|..])
  {
    var rest := names[count..];
    var lost := Lost(names, count, more);
    var kept := names[count + |lost|..];
    SetAppend(names[..count], more);
    assert names == names[..count] + (lost + kept);
    SetAppend(names[..count], lost + kept);
    SetAppend(lost, kept);
    if |more| <= |rest| {
      assert Overwritten(rest, more) == more + kept;
      SetAppend(more, kept);
    } else {
      assert kept == [] && Overwritten(rest, more) == more[..|rest|];
      assert more == more[..|rest|] + more[|rest|..];
      SetAppend(more[..|rest|], more[|rest|..]);
    }
  }

  // ---------------------------------------------------------------------------
  // The chunks of one line
  // ---------------------------------------------------------------------------

  /** The slices a wrap makes of a line. */
  function Slices(line: Slice, count: nat): seq<Slice>
    requires 0 < count && line.len <= line.cap
    decreases line.len
  {
    if line.len <= count then [line] else [First(line, count)] + Slices(Behind(line, count), count)
  }

  lemma BehindReads(m: Memory, line: Slice, count: nat)
    requires Fits(m, line) && count <= line.len
    ensures Fits(m, Behind(line, count)) && Read(m, Behind(line, count)) == Read(m, line)[count..]
  {
    var a, b := Read(m, Behind(line, count)), Read(m, line)[count..];
    assert |a| == |b| && forall i :: 0 <= i < |a| ==> a[i] == m[line.at][line.off + count + i] == b[i];
  }

  /** Each slice reads as the names of its chunk. */
  lemma {:induction false} SlicesRead(m: Memory, line: Slice, ip: string, count: nat, i: nat)
    requires Fits(m, line) && 0 < count && i < |Slices(line, count)|
    ensures |Slices(line, count)| == |Chunks(ip, Read(m, line), count)|
    ensures Fits(m, Slices(line, count)[i])
    ensures Read(m, Slices(line, count)[i]) == Chunks(ip, Read(m, line), count)[i].hosts
    decreases line.len
  {
    if line.len > count {
      BehindReads(m, line, count);
      FirstReads(m, line, count);
      SlicesRead(m, Behind(line, count), ip, count, if i > 0 then i - 1 else 0);
    }
  }

  /** The lines after names were appended to the first chunk: that line is formatted anew, and every
      other keeps its text while its names are whatever its slice now holds. */
  ghost function Renamed(m: Memory, slices: seq<Slice>, lines: seq<Entry>): seq<Entry>
    requires |slices| == |lines| && forall i :: 0 <= i < |slices| ==> Fits(m, slices[i])
  {
    seq(|lines|, i requires 0 <= i < |lines| => lines[i].(hosts := Read(m, slices[i])))
  }

  /** Texts that say `names`, cut into lines, over the names `now`. */
  ghost function Mixed(ip: string, names: seq<string>, now: seq<string>, count: nat): seq<Entry>
    requires 0 < count && |names| == |now|
  {
    if |names| <= count then [Formatted(ip, names).(hosts := now)]
    else [Formatted(ip, names[..count]).(hosts := now[..count])] + Mixed(ip, names[count..], now[count..], count)
  }

  lemma RenamedCons(m: Memory, s: Slice, ss: seq<Slice>, e: Entry, es: seq<Entry>)
    requires |ss| == |es| && Fits(m, s) && forall i :: 0 <= i < |ss| ==> Fits(m, ss[i])
    ensures forall i :: 0 <= i < |[s] + ss| ==> Fits(m, ([s] + ss)[i])
    ensures Renamed(m, [s] + ss, [e] + es) == [e.(hosts := Read(m, s))] + Renamed(m, ss, es)
  {
    hide Fits, Read;
    var all := [s] + ss;
    forall i | 0 <= i < |all| ensures Fits(m, all[i]) { if i > 0 { assert all[i] == ss[i - 1]; } }
    assert forall i :: 0 < i < |all| ==> all[i] == ss[i - 1] && ([e] + es)[i] == es[i - 1];
  }

  lemma {:induction false} RenamedIsMixed(m: Memory, line: Slice, ip: string, names: seq<string>, count: nat)
    requires Fits(m, line) && 0 < count && |names| == line.len
    ensures |Slices(line, count)| == |Chunks(ip, names, count)|
    ensures forall i :: 0 <= i < |Slices(line, count)| ==> Fits(m, Slices(line, count)[i])
    ensures Renamed(m, Slices(line, count), Chunks(ip, names, count)) == Mixed(ip, names, Read(m, line), count)
    decreases line.len
  {
    if line.len > count {
      BehindReads(m, line, count);
      FirstReads(m, line, count);
      RenamedIsMixed(m, Behind(line, count), ip, names[count..], count);
      assert Fits(m, First(line, count));
      RenamedCons(m, First(line, count), Slices(Behind(line, count), count),
                  Formatted(ip, names[..count]), Chunks(ip, names[count..], count));
      hide Renamed, Read, Fits, Formatted, First, Behind;
    }
  }

  lemma {:induction false} MixedPairs(ip: string, names: seq<string>, now: seq<string>, count: nat)
    requires 0 < count && |names| == |now|
    ensures Flatten(Mixed(ip, names, now, count)) == PairsOf(ip, now)
    ensures PairSet(Mixed(ip, names, now, count)) == Set(PairsOf(ip, now))
    decreases |names|
  {
    var lines := Mixed(ip, names, now, count);
    if |names| <= count {
      ConsMeaning(lines[0], []);
      assert lines == [lines[0]] + [];
    } else {
      MixedPairs(ip, names[count..], now[count..], count);
      ConsMeaning(lines[0], lines[1..]);
      assert lines == [lines[0]] + lines[1..] && lines[1..] == Mixed(ip, names[count..], now[count..], count);
      assert PairsOf(ip, now[..count]) + PairsOf(ip, now[count..]) == PairsOf(ip, now);
    }
  }

  lemma {:induction false} MixedIsChunks(ip: string, names: seq<string>, now: seq<string>, count: nat)
    requires 0 < count && |names| == |now|
    ensures Mixed(ip, names, now, count) == Chunks(ip, names, count) <==> now == names
    decreases |names|
  {
    if |names| <= count {
      assert Mixed(ip, names, now, count)[0].hosts == now && Chunks(ip, names, count)[0].hosts == names;
    } else {
      MixedIsChunks(ip, names[count..], now[count..], count);
      ConsSame(Formatted(ip, names[..count]).(hosts := now[..count]), Mixed(ip, names[count..], now[count..], count),
               Formatted(ip, names[..count]), Chunks(ip, names[count..], count));
      assert names == names[..count] + names[count..] && now == now[..count] + now[count..];
    }
  }

  lemma ConsSame(e: Entry, es: seq<Entry>, f: Entry, fs: seq<Entry>)
    ensures [e] + es == [f] + fs <==> e == f && es == fs
  {
    if [e] + es == [f] + fs { assert ([e] + es)[0] == e && ([e] + es)[1..] == es && ([f] + fs)[1..] == fs; }
  }

  /** A line whose text was not updated is read back as it is only if its names are the old ones. */
  lemma StaleLine(isIp: IpTest, ip: string, names: seq<string>, now: seq<string>)
    requires LawfulTest(isIp) && isIp(ip) && names != [] && AreWords(names)
    ensures ParsesBack(isIp, Formatted(ip, names).(hosts := now)) <==> now == names
  {
    FormattedParsesBack(isIp, ip, names);
  }

  lemma {:induction false} MixedReadable(isIp: IpTest, ip: string, names: seq<string>, now: seq<string>, count: nat)
    requires LawfulTest(isIp) && isIp(ip) && names != [] && AreWords(names)
    requires 0 < count && |names| == |now|
    ensures AllParseBack(isIp, Mixed(ip, names, now, count)) <==> now == names
    decreases |names|
  {
    hide ParsesBack;
    var lines := Mixed(ip, names, now, count);
    if |names| <= count {
      StaleLine(isIp, ip, names, now);
      assert lines[0] == Formatted(ip, names).(hosts := now);
    } else {
      assert AreWords(names[..count]) && AreWords(names[count..]);
      StaleLine(isIp, ip, names[..count], now[..count]);
      MixedReadable(isIp, ip, names[count..], now[count..], count);
      assert names == names[..count] + names[count..] && now == now[..count] + now[count..];
      AllReadableCons(isIp, lines[0], Mixed(ip, names[count..], now[count..], count));
    }
  }

  lemma AllReadableCons(isIp: IpTest, e: Entry, es: seq<Entry>)
    ensures AllParseBack(isIp, [e] + es) <==> ParsesBack(isIp, e) && AllParseBack(isIp, es)
  {
    hide ParsesBack;
    var all := [e] + es;
    assert all[0] == e && forall i :: 0 <= i < |es| ==> all[i + 1] == es[i];
    if AllParseBack(isIp, all) {
      assert ParsesBack(isIp, all[0]);
      forall i | 0 <= i < |es| ensures ParsesBack(isIp, es[i]) { assert ParsesBack(isIp, all[i + 1]); }
    }
  }

  // ---------------------------------------------------------------------------
  // Adding after a wrap
  // ---------------------------------------------------------------------------

  /** The lines of one address once its line was wrapped and `hosts` were added, as the program
      leaves them: the addition appends to the slice of the first chunk. */
  ghost function AddedInPlace(m: Memory, line: Slice, ip: string, count: nat, hosts: seq<string>, spare: nat): seq<Entry>
    requires Fits(m, line) && 0 < count < line.len
  {
    var names := Read(m, line);
    var more := Unique(hosts, Set(names[..count]));
    var (m', first) := AppendAll(m, First(line, count), more, spare);
    AppendOverwrites(m, line, count, more, spare);
    RenamedIsMixed(m', Behind(line, count), ip, names[count..], count);
    [if more == [] then Chunks(ip, names, count)[0] else Formatted(ip, Read(m', first))]
    + Renamed(m', Slices(Behind(line, count), count), Chunks(ip, names[count..], count))
  }

  lemma AddedInPlaceIs(m: Memory, line: Slice, ip: string, count: nat, hosts: seq<string>, spare: nat)
    requires Fits(m, line) && 0 < count < line.len
    ensures var names := Read(m, line);
      var more := Unique(hosts, Set(names[..count]));
      AddedInPlace(m, line, ip, count, hosts, spare)
      == [Extended(Formatted(ip, names[..count]), hosts)]
         + Mixed(ip, names[count..], Overwritten(names[count..], more), count)
  {
    var names := Read(m, line);
    var more := Unique(hosts, Set(names[..count]));
    var m' := AppendAll(m, First(line, count), more, spare).0;
    AppendReads(m, First(line, count), more, spare);
    FirstReads(m, line, count);
    AppendOverwrites(m, line, count, more, spare);
    RenamedIsMixed(m', Behind(line, count), ip, names[count..], count);
    assert Chunks(ip, names, count)[0] == Formatted(ip, names[..count]);
  }

  lemma InPlaceLines(m: Memory, line: Slice, e: Entry, count: nat, hosts: seq<string>, spare: nat)
    requires e.active && Fits(m, line) && Read(m, line) == e.hosts && 0 < count < line.len
    ensures var more := Unique(hosts, Set(e.hosts[..count]));
      AddedInPlace(m, line, e.ip, count, hosts, spare) == Added(Wrapped([e], count), e.ip, hosts)
      <==> Overwritten(e.hosts[count..], more) == e.hosts[count..]
  {
    assert |e.hosts| == line.len;
    AddedInPlaceIs(m, line, e.ip, count, hosts, spare);
    WrappedLine(e, count, hosts);
    hide Read, AddedInPlace, Mixed, Chunks, Extended, Formatted, Wrapped, Added, Set, Unique;
    var rest, more := e.hosts[count..], Unique(hosts, Set(e.hosts[..count]));
    var now := Overwritten(rest, more);
    var head := Extended(Formatted(e.ip, e.hosts[..count]), hosts);
    MixedIsChunks(e.ip, rest, now, count);
    ConsSame(head, Mixed(e.ip, rest, now, count), head, Chunks(e.ip, rest, count));
  }

  lemma InPlaceReads(isIp: IpTest, m: Memory, line: Slice, e: Entry, count: nat, hosts: seq<string>, spare: nat)
    requires LawfulTest(isIp) && isIp(e.ip) && AreWords(e.hosts) && AreWords(hosts)
    requires Fits(m, line) && Read(m, line) == e.hosts && 0 < count < line.len
    ensures var more := Unique(hosts, Set(e.hosts[..count]));
      AllParseBack(isIp, AddedInPlace(m, line, e.ip, count, hosts, spare))
      <==> Overwritten(e.hosts[count..], more) == e.hosts[count..]
  {
    assert |e.hosts| == line.len;
    AddedInPlaceIs(m, line, e.ip, count, hosts, spare);
    hide Read, AddedInPlace, Mixed, ParsesBack, AllParseBack, Extended, Formatted, Set, Unique;
    var rest, more := e.hosts[count..], Unique(hosts, Set(e.hosts[..count]));
    var now := Overwritten(rest, more);
    ExtendedMeaning(isIp, e.ip, e.hosts[..count], hosts);
    MixedReadable(isIp, e.ip, rest, now, count);
    AllReadableCons(isIp, Extended(Formatted(e.ip, e.hosts[..count]), hosts), Mixed(e.ip, rest, now, count));
  }

  lemma InPlacePairs(m: Memory, line: Slice, e: Entry, count: nat, hosts: seq<string>, spare: nat)
    requires e.active && Fits(m, line) && Read(m, line) == e.hosts && 0 < count < line.len
    ensures var more := Unique(hosts, Set(e.hosts[..count]));
      var lost := Lost(e.hosts, count, more);
      PairSet(AddedInPlace(m, line, e.ip, count, hosts, spare))
        == PairSet(Wrapped([e], count)) + Set(PairsOf(e.ip, hosts))
      <==> Set(lost) <= Set(e.hosts[..count]) + Set(more) + Set(e.hosts[count + |lost|..])
  {
    hide *;
    ReadLength(m, line);
    AddedInPlaceIs(m, line, e.ip, count, hosts, spare);
    WrappedLine(e, count, hosts);
    var first, rest, more := e.hosts[..count], e.hosts[count..], Unique(hosts, Set(e.hosts[..count]));
    OverwrittenAt(rest, more);
    ExtendedNames(e.ip, first, hosts);
    MixedPairs(e.ip, rest, Overwritten(rest, more), count);
    PairsAfter(e.ip, e.hosts, count, hosts);
    PairSetCons(Extended(Formatted(e.ip, first), hosts), Mixed(e.ip, rest, Overwritten(rest, more), count));
  }

  lemma ReadLength(m: Memory, s: Slice)
    requires Fits(m, s)
    ensures |Read(m, s)| == s.len
  {}

  /** Adding to a wrapped line. The lines are what an addition makes of the wrapped line, and every
      line still reads back, exactly when the names written are the names that were there. The pairs
      are the union exactly when every name written over is still somewhere. */
  lemma AddAfterWrap(
    isIp: IpTest, m: Memory, line: Slice, e: Entry, count: nat, hosts: seq<string>, spare: nat)
    requires LawfulTest(isIp) && isIp(e.ip) && AreWords(e.hosts) && AreWords(hosts)
    requires e.active && Fits(m, line) && Read(m, line) == e.hosts && 0 < count < line.len
    ensures var wrapped := Wrapped([e], count);
      var lines := AddedInPlace(m, line, e.ip, count, hosts, spare);
      var more := Unique(hosts, Set(e.hosts[..count]));
      var lost := Lost(e.hosts, count, more);
      var same := Overwritten(e.hosts[count..], more) == e.hosts[count..];
      && (lines == Added(wrapped, e.ip, hosts) <==> same)
      && (AllParseBack(isIp, lines) <==> same)
      && (PairSet(lines) == PairSet(wrapped) + Set(PairsOf(e.ip, hosts))
          <==> Set(lost) <= Set(e.hosts[..count]) + Set(more) + Set(e.hosts[count + |lost|..]))
  {
    InPlaceLines(m, line, e, count, hosts, spare);
    InPlaceReads(isIp, m, line, e, count, hosts, spare);
    InPlacePairs(m, line, e, count, hosts, spare);
    hide *;
  }

  lemma WrappedLine(e: Entry, count: nat, hosts: seq<string>)
    requires e.active && 0 < count < |e.hosts|
    ensures PairSet(Wrapped([e], count)) == Set(PairsOf(e.ip, e.hosts))
    ensures Added(Wrapped([e], count), e.ip, hosts)
         == [Extended(Formatted(e.ip, e.hosts[..count]), hosts)] + Chunks(e.ip, e.hosts[count..], count)
  {
    var lines := Chunks(e.ip, e.hosts, count);
    assert Wrapped([e], count) == lines + [] == lines;
    ChunksMeaning(e.ip, e.hosts, count);
    assert lines[0] == Formatted(e.ip, e.hosts[..count]) && lines[1..] == Chunks(e.ip, e.hosts[count..], count);
  }

  lemma ExtendedMeaning(isIp: IpTest, ip: string, names: seq<string>, hosts: seq<string>)
    requires LawfulTest(isIp) && isIp(ip) && names != [] && AreWords(names) && AreWords(hosts)
    ensures ParsesBack(isIp, Extended(Formatted(ip, names), hosts))
  {
    FormattedParsesBack(isIp, ip, names);
    ExtendedReadable(isIp, Formatted(ip, names), hosts);
  }

  lemma ExtendedNames(ip: string, names: seq<string>, hosts: seq<string>)
    ensures var f := Extended(Formatted(ip, names), hosts);
      f.active && f.ip == ip && f.hosts == names + Unique(hosts, Set(names))
  {
    assert names + [] == names;
  }

  lemma PairsOfSet(ip: string, xs: seq<string>, h: string)
    ensures (ip, h) in Set(PairsOf(ip, xs)) <==> h in Set(xs)
  {
    if h in Set(xs) {
      var i :| 0 <= i < |xs| && xs[i] == h;
      assert PairsOf(ip, xs)[i] == (ip, h);
    }
  }

  lemma PairsAfter(ip: string, names: seq<string>, count: nat, hosts: seq<string>)
    requires 0 < count < |names|
    ensures var more := Unique(hosts, Set(names[..count]));
      var now := Overwritten(names[count..], more);
      var lost := Lost(names, count, more);
      Set(PairsOf(ip, names[..count] + more)) + Set(PairsOf(ip, now)) == Set(PairsOf(ip, names)) + Set(PairsOf(ip, hosts))
      <==> Set(lost) <= Set(names[..count]) + Set(more) + Set(names[count + |lost|..])
  {
    hide *;
    var more := Unique(hosts, Set(names[..count]));
    NamesAfter(names, count, more);
    NamesOrHosts(names, count, hosts);
    SameSets(ip, names[..count] + more, Overwritten(names[count..], more), names, hosts);
  }

  lemma NamesOrHosts(names: seq<string>, count: nat, hosts: seq<string>)
    requires count <= |names|
    ensures Set(names) + Set(Unique(hosts, Set(names[..count]))) == Set(names) + Set(hosts)
  {
    hide Set, Unique;
    UniqueSet(hosts, Set(names[..count]));
    SetAppend(names[..count], names[count..]);
    assert names == names[..count] + names[count..];
  }

  lemma SameSets(ip: string, a: seq<string>, b: seq<string>, c: seq<string>, d: seq<string>)
    ensures Set(PairsOf(ip, a)) + Set(PairsOf(ip, b)) == Set(PairsOf(ip, c)) + Set(PairsOf(ip, d))
       <==> Set(a) + Set(b) == Set(c) + Set(d)
  {
    hide Set;
    forall h ensures ((ip, h) in Set(PairsOf(ip, a)) + Set(PairsOf(ip, b)) <==> h in Set(a) + Set(b))
                     && ((ip, h) in Set(PairsOf(ip, c)) + Set(PairsOf(ip, d)) <==> h in Set(c) + Set(d)) {
      PairsOfSet(ip, a, h); PairsOfSet(ip, b, h); PairsOfSet(ip, c, h); PairsOfSet(ip, d, h);
    }
    PairsOfIp(ip, a); PairsOfIp(ip, b); PairsOfIp(ip, c); PairsOfIp(ip, d);
    var left, right := Set(PairsOf(ip, a)) + Set(PairsOf(ip, b)), Set(PairsOf(ip, c)) + Set(PairsOf(ip, d));
    if Set(a) + Set(b) == Set(c) + Set(d) {
      forall p | p in left ensures p in right { assert p == (ip, p.1); }
      forall p | p in right ensures p in left { assert p == (ip, p.1); }
    }
    if left == right {
      forall h | h in Set(a) + Set(b) ensures h in Set(c) + Set(d) { assert (ip, h) in left; }
      forall h | h in Set(c) + Set(d) ensures h in Set(a) + Set(b) { assert (ip, h) in right; }
    }
  }

  lemma PairsOfIp(ip: string, xs: seq<string>)
    ensures forall p :: p in Set(PairsOf(ip, xs)) ==> p.0 == ip
  {}

  /** A name is lost and a line no longer says what it holds: the line "a b" wrapped after one
      name, then "c" added. */
  lemma AddAfterWrapCanLose(ip: string)
    ensures var m := [["a", "b"]];
      var line := Slice(0, 0, 2, 2);
      var lines := AddedInPlace(m, line, ip, 1, ["c"], 0);
      lines == [Formatted(ip, ["a", "c"]), Formatted(ip, ["b"]).(hosts := ["c"])]
  {
    var m := [["a", "b"]];
    var line := Slice(0, 0, 2, 2);
    var names := Read(m, line);
    assert names == ["a", "b"] && names[..1] == ["a"] && names[1..] == ["b"];
    AddedInPlaceIs(m, line, ip, 1, ["c"], 0);
    NewName();
    assert Overwritten(["b"], ["c"]) == ["c"] && ["a"] + ["c"] == ["a", "c"];
    hide Formatted, AddedInPlace, Read, Overwritten, Unique, Set, FormatEntry;
    assert Mixed(ip, ["b"], ["c"], 1) == [Formatted(ip, ["b"]).(hosts := ["c"])];
    ExtendedBy(ip, ["a"], ["c"]);
  }

  lemma NewName()
    ensures Unique(["c"], Set(["a"])) == ["c"]
  {
    assert Set(["a"]) == {"a"} by { assert ["a"][0] == "a"; }
    assert "c"[0] != "a"[0];
    assert Unique(["c"][1..], {"a"} + {"c"}) == [];
  }

  lemma ExtendedBy(ip: string, names: seq<string>, hosts: seq<string>)
    requires Unique(hosts, Set(names)) == hosts != []
    ensures Extended(Formatted(ip, names), hosts) == Formatted(ip, names + hosts)
  {}

}
