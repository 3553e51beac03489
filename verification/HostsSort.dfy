/** The two sorts: names within a line, and active lines by address. */
module HostsSort {
  import opened Bytes
  import opened HostsText
  import opened HostsTable
  import opened HostsClean
  import opened HostsOps

  // ---------------------------------------------------------------------------
  // Comparing addresses
  // ---------------------------------------------------------------------------

  /** A parsed address: its 16 bytes, and whether they are an IPv4 address. */
  datatype Address = Address(is4: bool, bytes: seq<byte>)

  type Parser = string -> Option<Address>

  /** Byte-wise comparison: -1, 0 or 1. */
  function CompareBytes(a: seq<byte>, b: seq<byte>): (c: int)
    ensures -1 <= c <= 1
  {
    if a == [] && b == [] then 0
    else if a == [] then -1
    else if b == [] then 1
    else if a[0] != b[0] then (if a[0] < b[0] then -1 else 1)
    else CompareBytes(a[1..], b[1..])
  }

  /** Unparsable before parsable, IPv4 before IPv6, then byte by byte. */
  function CompareIps(parse: Parser, x: string, y: string): (c: int)
    ensures -1 <= c <= 1
  {
    var a, b := parse(x), parse(y);
    if a.None? && b.None? then 0
    else if a.None? then -1
    else if b.None? then 1
    else if a.value.is4 && !b.value.is4 then -1
    else if !a.value.is4 && b.value.is4 then 1
    else CompareBytes(a.value.bytes, b.value.bytes)
  }

  lemma {:induction false} CompareBytesOrder(a: seq<byte>, b: seq<byte>, c: seq<byte>)
    ensures CompareBytes(a, b) == -CompareBytes(b, a)
    ensures CompareBytes(a, b) <= 0 && CompareBytes(b, c) <= 0 ==> CompareBytes(a, c) <= 0
    ensures CompareBytes(a, b) == 0 <==> a == b
    decreases |a|
  {
    if a != [] && b != [] && c != [] {
      CompareBytesOrder(a[1..], b[1..], c[1..]);
      assert a == [a[0]] + a[1..] && b == [b[0]] + b[1..];
    } else if a != [] && b != [] {
      CompareBytesOrder(a[1..], b[1..], []);
      assert a == [a[0]] + a[1..] && b == [b[0]] + b[1..];
    }
  }

  /** The comparison is a total preorder, so sorting by it makes sense. */
  lemma CompareIpsOrder(parse: Parser, x: string, y: string, z: string)
    ensures CompareIps(parse, x, y) == -CompareIps(parse, y, x)
    ensures CompareIps(parse, x, y) <= 0 && CompareIps(parse, y, z) <= 0 ==> CompareIps(parse, x, z) <= 0
    ensures CompareIps(parse, x, y) == 0 <==> parse(x) == parse(y)
  {
    var a, b, c := parse(x), parse(y), parse(z);
    if a.Some? && b.Some? {
      CompareBytesOrder(a.value.bytes, b.value.bytes, if c.Some? then c.value.bytes else []);
    }
  }

  // What being smaller means, without the comparison.

  /** At the first place where the two differ, the first one is smaller or has ended. */
  ghost predicate BytesBefore(a: seq<byte>, b: seq<byte>) {
    exists k :: DifferAt(a, b, k) && (k == |a| || a[k] < b[k])
  }

  ghost predicate DifferAt(a: seq<byte>, b: seq<byte>, k: int) {
    0 <= k <= |a| && k < |b| && a[..k] == b[..k]
  }

  lemma DifferCons(a: seq<byte>, b: seq<byte>, k: nat)
    requires a != [] && b != [] && a[0] == b[0]
    ensures DifferAt(a, b, k + 1) <==> DifferAt(a[1..], b[1..], k)
  {
    if k < |a| && k + 1 < |b| {
      assert a[..k + 1] == [a[0]] + a[1..][..k] && b[..k + 1] == [b[0]] + b[1..][..k];
      assert a[..k + 1][1..] == a[1..][..k] && b[..k + 1][1..] == b[1..][..k];
    }
  }

  lemma {:induction false} CompareBytesMeans(a: seq<byte>, b: seq<byte>)
    ensures CompareBytes(a, b) < 0 <==> BytesBefore(a, b)
    decreases |a|
  {
    if a == [] || b == [] {
      assert b != [] ==> DifferAt(a, b, 0);
    } else if a[0] != b[0] {
      assert DifferAt(a, b, 0);
      forall k | 0 < k <= |a| && k < |b| ensures !DifferAt(a, b, k) {
        assert a[..k][0] == a[0] && b[..k][0] == b[0];
      }
    } else {
      CompareBytesMeans(a[1..], b[1..]);
      if BytesBefore(a[1..], b[1..]) {
        var k: nat :| DifferAt(a[1..], b[1..], k) && (k == |a[1..]| || a[1..][k] < b[1..][k]);
        DifferCons(a, b, k);
      }
      if BytesBefore(a, b) {
        var k: nat :| DifferAt(a, b, k) && (k == |a| || a[k] < b[k]);
        if k > 0 { DifferCons(a, b, k - 1); }
      }
    }
  }

  /** One address comes before another: it does not parse and the other does, or it is IPv4 and the
      other IPv6, or both are of one kind and its bytes come first. */
  ghost predicate AddressBefore(parse: Parser, x: string, y: string) {
    parse(y).Some? &&
      (|| parse(x).None?
       || (parse(x).value.is4 && !parse(y).value.is4)
       || (parse(x).value.is4 == parse(y).value.is4 && BytesBefore(parse(x).value.bytes, parse(y).value.bytes)))
  }

  lemma CompareIpsMeans(parse: Parser, x: string, y: string)
    ensures CompareIps(parse, x, y) < 0 <==> AddressBefore(parse, x, y)
  {
    if parse(x).Some? && parse(y).Some? { CompareBytesMeans(parse(x).value.bytes, parse(y).value.bytes); }
  }

  // ---------------------------------------------------------------------------
  // Sorting lines by address
  // ---------------------------------------------------------------------------

  function Actives(es: seq<Entry>): seq<Entry> {
    if es == [] then [] else (if es[0].active then [es[0]] else []) + Actives(es[1..])
  }

  /** Before the first entry that is not smaller, so that equal ones keep their order. */
  function Insert(parse: Parser, e: Entry, es: seq<Entry>): seq<Entry> {
    if es == [] || CompareIps(parse, e.ip, es[0].ip) <= 0 then [e] + es
    else [es[0]] + Insert(parse, e, es[1..])
  }

  function StableSort(parse: Parser, es: seq<Entry>): seq<Entry> {
    if es == [] then [] else Insert(parse, es[0], StableSort(parse, es[1..]))
  }

  function SortedByIp(parse: Parser, es: seq<Entry>): seq<Entry> {
    Inactive(es) + StableSort(parse, Actives(es))
  }

  ghost predicate IpsInOrder(parse: Parser, es: seq<Entry>) {
    forall i, j :: 0 <= i < j < |es| ==> CompareIps(parse, es[i].ip, es[j].ip) <= 0
  }

  /** The entries whose address compares equal to `ip`, in order. */
  function Alike(parse: Parser, es: seq<Entry>, ip: string): seq<Entry> {
    if es == [] then []
    else (if CompareIps(parse, es[0].ip, ip) == 0 then [es[0]] else []) + Alike(parse, es[1..], ip)
  }

  lemma {:induction false} InsertKeeps(parse: Parser, e: Entry, es: seq<Entry>)
    ensures multiset(Insert(parse, e, es)) == multiset(es) + multiset{e}
    decreases |es|
  {
    if es != [] && CompareIps(parse, e.ip, es[0].ip) > 0 {
      InsertKeeps(parse, e, es[1..]);
      assert es == [es[0]] + es[1..];
    }
  }

  lemma {:induction false} InsertMember(parse: Parser, e: Entry, es: seq<Entry>, x: Entry)
    requires x in Insert(parse, e, es)
    ensures x == e || x in es
    decreases |es|
  {
    if es != [] && CompareIps(parse, e.ip, es[0].ip) > 0 && x != es[0] {
      InsertMember(parse, e, es[1..], x);
    }
  }

  /** Something no greater than a list in order goes in front of it. */
  lemma InOrderCons(parse: Parser, e: Entry, es: seq<Entry>)
    requires IpsInOrder(parse, es) && forall x :: x in es ==> CompareIps(parse, e.ip, x.ip) <= 0
    ensures IpsInOrder(parse, [e] + es)
  {
    var r := [e] + es;
    forall i, j | 0 <= i < j < |r| ensures CompareIps(parse, r[i].ip, r[j].ip) <= 0 {
      assert r[j] == es[j - 1] && es[j - 1] in es;
      if i > 0 { assert r[i] == es[i - 1]; }
    }
  }

  lemma {:induction false} InsertInOrder(parse: Parser, e: Entry, es: seq<Entry>)
    requires IpsInOrder(parse, es)
    ensures IpsInOrder(parse, Insert(parse, e, es))
    decreases |es|
  {
    if es == [] || CompareIps(parse, e.ip, es[0].ip) <= 0 {
      forall x | x in es ensures CompareIps(parse, e.ip, x.ip) <= 0 {
        var k :| 0 <= k < |es| && es[k] == x;
        CompareIpsOrder(parse, e.ip, es[0].ip, x.ip);
      }
      InOrderCons(parse, e, es);
    } else {
      assert IpsInOrder(parse, es[1..]);
      InsertInOrder(parse, e, es[1..]);
      CompareIpsOrder(parse, e.ip, es[0].ip, e.ip);
      forall x | x in Insert(parse, e, es[1..]) ensures CompareIps(parse, es[0].ip, x.ip) <= 0 {
        InsertMember(parse, e, es[1..], x);
        if x != e {
          var k :| 0 <= k < |es[1..]| && es[1..][k] == x;
          assert es[k + 1] == x;
        }
      }
      InOrderCons(parse, es[0], Insert(parse, e, es[1..]));
    }
  }

  lemma {:induction false} InsertIsStable(parse: Parser, e: Entry, es: seq<Entry>, ip: string)
    requires IpsInOrder(parse, es)
    ensures Alike(parse, Insert(parse, e, es), ip) == Alike(parse, [e] + es, ip)
    decreases |es|
  {
    if es != [] && CompareIps(parse, e.ip, es[0].ip) > 0 {
      var f, rest := es[0], es[1..];
      assert IpsInOrder(parse, rest);
      InsertIsStable(parse, e, rest, ip);
      assert ([e] + es)[1..] == es && ([e] + rest)[1..] == rest;
      assert ([f] + Insert(parse, e, rest))[1..] == Insert(parse, e, rest);
      // not both of e and f compare equal to ip
      CompareIpsOrder(parse, e.ip, ip, f.ip);
      CompareIpsOrder(parse, ip, f.ip, f.ip);
    }
  }

  /** Sorting orders the entries and keeps them all. */
  lemma {:induction false} StableSortMeaning(parse: Parser, es: seq<Entry>)
    ensures IpsInOrder(parse, StableSort(parse, es)) && multiset(StableSort(parse, es)) == multiset(es)
    decreases |es|
  {
    hide IpsInOrder, Insert;
    if es != [] {
      StableSortMeaning(parse, es[1..]);
      InsertInOrder(parse, es[0], StableSort(parse, es[1..]));
      InsertKeeps(parse, es[0], StableSort(parse, es[1..]));
      assert es == [es[0]] + es[1..];
    } else {
      NoneInOrder(parse);
    }
  }

  lemma NoneInOrder(parse: Parser)
    ensures IpsInOrder(parse, [])
  {}

  /** Entries with equal addresses keep their order. */
  lemma {:induction false} StableSortIsStable(parse: Parser, es: seq<Entry>, ip: string)
    ensures Alike(parse, StableSort(parse, es), ip) == Alike(parse, es, ip)
    decreases |es|
  {
    hide IpsInOrder, Insert;
    if es != [] {
      var s := StableSort(parse, es[1..]);
      StableSortMeaning(parse, es[1..]);
      StableSortIsStable(parse, es[1..], ip);
      InsertIsStable(parse, es[0], s, ip);
      assert ([es[0]] + s)[1..] == s;
    }
  }

  lemma {:induction false} AlikeMember(parse: Parser, es: seq<Entry>, ip: string)
    requires Alike(parse, es, ip) != []
    ensures exists k :: 0 <= k < |es| && es[k] == Alike(parse, es, ip)[0] && CompareIps(parse, es[k].ip, ip) == 0
    decreases |es|
  {
    if CompareIps(parse, es[0].ip, ip) != 0 {
      AlikeMember(parse, es[1..], ip);
      var k :| 0 <= k < |es[1..]| && es[1..][k] == Alike(parse, es[1..], ip)[0] && CompareIps(parse, es[1..][k].ip, ip) == 0;
      assert es[k + 1] == es[1..][k];
    }
  }

  /** The first of a list in order is no greater than anything like something in the list. */
  lemma FirstIsLeast(parse: Parser, es: seq<Entry>, ip: string)
    requires IpsInOrder(parse, es) && Alike(parse, es, ip) != []
    ensures es != [] && CompareIps(parse, es[0].ip, ip) <= 0
  {
    AlikeMember(parse, es, ip);
    var k :| 0 <= k < |es| && es[k] == Alike(parse, es, ip)[0] && CompareIps(parse, es[k].ip, ip) == 0;
    CompareIpsOrder(parse, es[0].ip, es[k].ip, ip);
  }

  lemma AlikeItself(parse: Parser, es: seq<Entry>)
    requires es != []
    ensures Alike(parse, es, es[0].ip) != []
  {
    CompareIpsOrder(parse, es[0].ip, es[0].ip, es[0].ip);
  }

  lemma AlikeTail(parse: Parser, rs: seq<Entry>, ss: seq<Entry>, ip: string)
    requires rs != [] && ss != [] && rs[0] == ss[0] && Alike(parse, rs, ip) == Alike(parse, ss, ip)
    ensures Alike(parse, rs[1..], ip) == Alike(parse, ss[1..], ip)
  {
    var head := if CompareIps(parse, rs[0].ip, ip) == 0 then [rs[0]] else [];
    var r, s := Alike(parse, rs[1..], ip), Alike(parse, ss[1..], ip);
    assert Alike(parse, rs, ip) == head + r && Alike(parse, ss, ip) == head + s;
    hide Alike, CompareIps;
    assert r == (head + r)[|head|..] && s == (head + s)[|head|..];
  }

  lemma FirstsAgree(parse: Parser, rs: seq<Entry>, ss: seq<Entry>)
    requires rs != [] && ss != [] && IpsInOrder(parse, rs) && IpsInOrder(parse, ss)
    requires forall ip :: Alike(parse, rs, ip) == Alike(parse, ss, ip)
    ensures rs[0] == ss[0]
  {
    var r, s := rs[0], ss[0];
    CompareIpsOrder(parse, r.ip, r.ip, s.ip);
    CompareIpsOrder(parse, s.ip, s.ip, r.ip);
    FirstIsLeast(parse, ss, r.ip);
    FirstIsLeast(parse, rs, s.ip);
    CompareIpsOrder(parse, r.ip, s.ip, r.ip);
    assert Alike(parse, rs, r.ip)[0] == r && Alike(parse, ss, r.ip)[0] == s;
  }

  /** Order and stability determine the result: whatever stable sort is used, it gives this list. */
  lemma {:induction false} StableSortIsUnique(parse: Parser, rs: seq<Entry>, ss: seq<Entry>)
    requires IpsInOrder(parse, rs) && IpsInOrder(parse, ss)
    requires forall ip :: Alike(parse, rs, ip) == Alike(parse, ss, ip)
    ensures rs == ss
    decreases |rs|
  {
    if rs != [] && ss != [] {
      FirstsAgree(parse, rs, ss);
      forall ip ensures Alike(parse, rs[1..], ip) == Alike(parse, ss[1..], ip) { AlikeTail(parse, rs, ss, ip); }
      StableSortIsUnique(parse, rs[1..], ss[1..]);
      assert rs == [rs[0]] + rs[1..] && ss == [ss[0]] + ss[1..];
    } else if rs != [] {
      AlikeItself(parse, rs);
    } else if ss != [] {
      AlikeItself(parse, ss);
    }
  }

  // The set of pairs does not depend on the order of lines.

  lemma {:induction false} PairSetMember(es: seq<Entry>, p: Pair)
    ensures p in PairSet(es) <==> exists e :: e in es && e.active && p.0 == e.ip && p.1 in Set(e.hosts)
    decreases |es|
  {
    if es != [] {
      assert es == [es[0]] + es[1..];
      PairSetCons(es[0], es[1..]);
      PairSetMember(es[1..], p);
      if es[0].active { SetPairsOf(es[0].ip, es[0].hosts, p); }
    }
  }

  lemma SameLinesSamePairs(es: seq<Entry>, fs: seq<Entry>)
    requires forall e: Entry :: e.active ==> (e in es <==> e in fs)
    ensures PairSet(es) == PairSet(fs)
  {
    forall p: Pair ensures p in PairSet(es) <==> p in PairSet(fs) {
      PairSetMember(es, p);
      PairSetMember(fs, p);
    }
  }

  /** No line comes before an earlier one. */
  ghost predicate Ascending(parse: Parser, es: seq<Entry>) {
    forall i, j :: 0 <= i < j < |es| ==> !AddressBefore(parse, es[j].ip, es[i].ip)
  }

  lemma OrderMeans(parse: Parser, es: seq<Entry>)
    ensures IpsInOrder(parse, es) <==> Ascending(parse, es)
  {
    hide CompareIps, AddressBefore;
    forall x, y ensures CompareIps(parse, x, y) <= 0 <==> !AddressBefore(parse, y, x) {
      CompareIpsMeans(parse, y, x);
      CompareIpsOrder(parse, x, y, x);
    }
  }

  lemma Halves(a: seq<Entry>, b: seq<Entry>)
    ensures (a + b)[..|a|] == a && (a + b)[|a|..] == b && multiset(a + b) == multiset(a) + multiset(b)
  {}

  lemma SameBagSamePairs(rs: seq<Entry>, es: seq<Entry>)
    requires multiset(rs) == multiset(es)
    ensures PairSet(rs) == PairSet(es)
  {
    hide PairSet;
    forall e ensures e in rs <==> e in es { assert e in multiset(rs) <==> e in multiset(es); }
    SameLinesSamePairs(rs, es);
  }

  /** Sorting lines keeps the pairs, and puts the inactive lines first, in their order, before the
      active ones in order of address, with equal ones in the order they had. */
  lemma SortedByIpMeaning(parse: Parser, es: seq<Entry>)
    ensures var rs, n := SortedByIp(parse, es), |Inactive(es)|;
      && PairSet(rs) == PairSet(es) && multiset(rs) == multiset(es)
      && n <= |rs| && rs[..n] == Inactive(es)
      && IpsInOrder(parse, rs[n..]) && Ascending(parse, rs[n..])
      && (forall ip :: Alike(parse, rs[n..], ip) == Alike(parse, Actives(es), ip))
  {
    var sorted := StableSort(parse, Actives(es));
    assert SortedByIp(parse, es) == Inactive(es) + sorted;
    hide *;
    Halves(Inactive(es), sorted);
    StableSortMeaning(parse, Actives(es));
    OrderMeans(parse, sorted);
    forall ip ensures Alike(parse, sorted, ip) == Alike(parse, Actives(es), ip) {
      StableSortIsStable(parse, Actives(es), ip);
    }
    PartsTogether(es);
    SameBagSamePairs(SortedByIp(parse, es), es);
  }

  lemma {:induction false} PartsTogether(es: seq<Entry>)
    ensures multiset(Inactive(es)) + multiset(Actives(es)) == multiset(es)
    decreases |es|
  {
    if es != [] {
      PartsTogether(es[1..]);
      assert es == [es[0]] + es[1..];
      var here, there := if es[0].active then [] else [es[0]], if es[0].active then [es[0]] else [];
      assert Inactive(es) == here + Inactive(es[1..]) && Actives(es) == there + Actives(es[1..]);
    }
  }

  // ---------------------------------------------------------------------------
  // Sorting names
  // ---------------------------------------------------------------------------

  /** Lexicographic order by character. */
  predicate NameLe(a: string, b: string) {
    a == "" || (b != "" && (a[0] < b[0] || (a[0] == b[0] && NameLe(a[1..], b[1..]))))
  }

  function InsertName(h: string, hs: seq<string>): seq<string> {
    if hs == [] || NameLe(h, hs[0]) then [h] + hs else [hs[0]] + InsertName(h, hs[1..])
  }

  function SortNames(hs: seq<string>): seq<string> {
    if hs == [] then [] else InsertName(hs[0], SortNames(hs[1..]))
  }

  ghost predicate NamesInOrder(hs: seq<string>) {
    forall i, j :: 0 <= i < j < |hs| ==> NameLe(hs[i], hs[j])
  }

  lemma {:induction false} NameLeOrder(a: string, b: string, c: string)
    ensures NameLe(a, b) || NameLe(b, a)
    ensures NameLe(a, b) && NameLe(b, c) ==> NameLe(a, c)
    decreases |a|
  {
    if a != "" && b != "" && c != "" {
      NameLeOrder(a[1..], b[1..], c[1..]);
    } else if a != "" && b != "" {
      NameLeOrder(a[1..], b[1..], "");
    }
  }

  // The order of names is the order of their bytes, which is what the program compares.

  lemma {:induction false} CompareAfter(p: seq<byte>, a: seq<byte>, b: seq<byte>)
    ensures CompareBytes(p + a, p + b) == CompareBytes(a, b)
    decreases |p|
  {
    if p == [] {
      assert p + a == a && p + b == b;
    } else {
      assert (p + a)[1..] == p[1..] + a && (p + b)[1..] == p[1..] + b;
      CompareAfter(p[1..], a, b);
    }
  }

  /** Texts whose first characters differ compare as those characters do. */
  lemma CharsCompare(c: char, d: char, a: seq<byte>, b: seq<byte>)
    requires c < d
    ensures CompareBytes(Utf8Char(c) + a, Utf8Char(d) + b) == -1
  {
    hide Utf8Char;
    var x, y := Utf8Char(c) + a, Utf8Char(d) + b;
    var k := CharsDiffer(c, d);
    assert x == x[..k] + x[k..] && y == y[..k] + y[k..] && x[..k] == Utf8Char(c)[..k] == Utf8Char(d)[..k] == y[..k];
    CompareAfter(x[..k], x[k..], y[k..]);
  }

  lemma CharsDiffer(c: char, d: char) returns (k: nat)
    requires c < d
    ensures k < |Utf8Char(c)| && k < |Utf8Char(d)| && Utf8Char(c)[..k] == Utf8Char(d)[..k]
    ensures Utf8Char(c)[k] < Utf8Char(d)[k]
  {
    if |Utf8Char(c)| == |Utf8Char(d)| { k := SameSizeDiffer(c, d); } else { k := 0; }
  }

  lemma SameSizeDiffer(c: char, d: char) returns (k: nat)
    requires c < d && |Utf8Char(c)| == |Utf8Char(d)|
    ensures k < |Utf8Char(c)| && Utf8Char(c)[..k] == Utf8Char(d)[..k] && Utf8Char(c)[k] < Utf8Char(d)[k]
  {
    var m, n, size := c as int, d as int, |Utf8Char(d)|;
    assert m / 0x1000 / 0x40 == m / 0x4_0000 && n / 0x1000 / 0x40 == n / 0x4_0000;
    assert m / 0x40 / 0x40 == m / 0x1000 && n / 0x40 / 0x40 == n / 0x1000;
    assert size < 3 ==> m / 0x1000 == n / 0x1000 == 0;
    k := if size == 1 || m / 0x4_0000 != n / 0x4_0000 then 0
         else if m / 0x1000 != n / 0x1000 then size - 3
         else if m / 0x40 != n / 0x40 then size - 2
         else size - 1;
  }

  lemma {:induction false} NameLeIsBytes(a: string, b: string)
    ensures NameLe(a, b) <==> !BytesBefore(Utf8(b), Utf8(a))
    decreases |a|
  {
    CompareBytesMeans(Utf8(b), Utf8(a));
    hide BytesBefore;
    if a != "" && b != "" {
      if a[0] < b[0] {
        CharsCompare(a[0], b[0], Utf8(a[1..]), Utf8(b[1..]));
        CompareBytesOrder(Utf8(a), Utf8(b), []);
      } else if b[0] < a[0] {
        CharsCompare(b[0], a[0], Utf8(b[1..]), Utf8(a[1..]));
      } else {
        CompareAfter(Utf8Char(a[0]), Utf8(b[1..]), Utf8(a[1..]));
        NameLeIsBytes(a[1..], b[1..]);
        CompareBytesMeans(Utf8(b[1..]), Utf8(a[1..]));
      }
    }
  }

  lemma {:induction false} InsertNameKeeps(h: string, hs: seq<string>)
    ensures multiset(InsertName(h, hs)) == multiset(hs) + multiset{h}
    decreases |hs|
  {
    hide NameLe;
    if hs != [] {
      assert hs == [hs[0]] + hs[1..];
      InsertNameKeeps(h, hs[1..]);
    }
  }

  ghost predicate AllAfter(h: string, hs: seq<string>) {
    forall i :: 0 <= i < |hs| ==> NameLe(h, hs[i])
  }

  lemma OrderCons(h: string, hs: seq<string>)
    ensures NamesInOrder([h] + hs) <==> AllAfter(h, hs) && NamesInOrder(hs)
  {
    hide NameLe;
    var all := [h] + hs;
    assert all[0] == h && forall i :: 0 <= i < |hs| ==> all[i + 1] == hs[i];
    if NamesInOrder(all) {
      forall i | 0 <= i < |hs| ensures NameLe(h, hs[i]) { assert NameLe(all[0], all[i + 1]); }
      forall i, j | 0 <= i < j < |hs| ensures NameLe(hs[i], hs[j]) { assert NameLe(all[i + 1], all[j + 1]); }
    }
    if AllAfter(h, hs) && NamesInOrder(hs) {
      forall i, j | 0 <= i < j < |all| ensures NameLe(all[i], all[j]) {
        if i > 0 { assert NameLe(hs[i - 1], hs[j - 1]); }
      }
    }
  }

  lemma AllAfterSame(h: string, hs: seq<string>, x: string, rest: seq<string>)
    requires AllAfter(h, hs) && NameLe(h, x) && multiset(rest) == multiset(hs) + multiset{x}
    ensures AllAfter(h, rest)
  {
    hide NameLe;
    forall i | 0 <= i < |rest| ensures NameLe(h, rest[i]) {
      assert rest[i] in multiset(rest);
      if rest[i] != x {
        assert rest[i] in multiset(hs);
        var k :| 0 <= k < |hs| && hs[k] == rest[i];
      }
    }
  }

  lemma AllAfterBefore(h: string, first: string, hs: seq<string>)
    requires NameLe(h, first) && AllAfter(first, hs)
    ensures AllAfter(h, [first] + hs)
  {
    forall i | 0 <= i < |hs| ensures NameLe(h, hs[i]) { NameLeOrder(h, first, hs[i]); }
    hide NameLe;
    var all := [first] + hs;
    forall i | 0 <= i < |all| ensures NameLe(h, all[i]) { if i > 0 { assert all[i] == hs[i - 1]; } }
  }

  lemma {:induction false} InsertNameMeaning(h: string, hs: seq<string>)
    requires NamesInOrder(hs)
    ensures NamesInOrder(InsertName(h, hs)) && multiset(InsertName(h, hs)) == multiset(hs) + multiset{h}
    decreases |hs|
  {
    InsertNameKeeps(h, hs);
    if hs != [] {
      var rest := hs[1..];
      assert hs == [hs[0]] + rest;
      OrderCons(hs[0], rest);
      NameLeOrder(h, hs[0], h);
      hide NameLe, NamesInOrder, AllAfter;
      if NameLe(h, hs[0]) {
        AllAfterBefore(h, hs[0], rest);
        OrderCons(h, hs);
      } else {
        InsertNameMeaning(h, rest);
        AllAfterSame(hs[0], rest, h, InsertName(h, rest));
        OrderCons(hs[0], InsertName(h, rest));
      }
    }
  }

  lemma {:induction false} SortNamesMeaning(hs: seq<string>)
    ensures NamesInOrder(SortNames(hs)) && multiset(SortNames(hs)) == multiset(hs)
    decreases |hs|
  {
    if hs != [] {
      SortNamesMeaning(hs[1..]);
      InsertNameMeaning(hs[0], SortNames(hs[1..]));
      assert hs == [hs[0]] + hs[1..];
    }
  }

  /** Sorting leaves a list alone exactly when it is in order. */
  lemma {:induction false} SortNamesFixed(hs: seq<string>)
    ensures SortNames(hs) == hs <==> NamesInOrder(hs)
    decreases |hs|
  {
    SortNamesMeaning(hs);
    if hs != [] && NamesInOrder(hs) {
      assert NamesInOrder(hs[1..]);
      SortNamesFixed(hs[1..]);
      assert hs == [hs[0]] + hs[1..];
    }
  }

  /** A line out of order is sorted and formatted anew. */
  function LineSorted(e: Entry): Entry {
    if !e.active || |e.hosts| <= 1 || SortNames(e.hosts) == e.hosts then e
    else Formatted(e.ip, SortNames(e.hosts))
  }

  function LinesSorted(es: seq<Entry>): seq<Entry> {
    seq(|es|, i requires 0 <= i < |es| => LineSorted(es[i]))
  }

  /** Sorting names keeps every line's address and names and hence the pairs. */
  lemma {:induction false} LinesSortedMeaning(es: seq<Entry>)
    ensures PairSet(LinesSorted(es)) == PairSet(es) && Inactive(LinesSorted(es)) == Inactive(es)
    ensures forall i :: 0 <= i < |es| && es[i].active ==>
      && LinesSorted(es)[i].active && LinesSorted(es)[i].ip == es[i].ip
      && NamesInOrder(LinesSorted(es)[i].hosts) && multiset(LinesSorted(es)[i].hosts) == multiset(es[i].hosts)
    decreases |es|
  {
    if es != [] {
      var e, rest, s := es[0], es[1..], LinesSorted(es);
      LinesSortedMeaning(rest);
      assert s[1..] == LinesSorted(rest) && es == [e] + rest && s == [s[0]] + s[1..];
      SortNamesMeaning(e.hosts);
      PairSetCons(e, rest);
      PairSetCons(s[0], s[1..]);
      ConsMeaning(e, rest);
      ConsMeaning(s[0], s[1..]);
      if e.active { SameNamesSamePairs(e.ip, e.hosts, s[0].hosts); }
      forall i | 0 <= i < |es| && es[i].active
        ensures s[i].active && s[i].ip == es[i].ip
        ensures NamesInOrder(s[i].hosts) && multiset(s[i].hosts) == multiset(es[i].hosts)
      {
        if i > 0 { assert es[i] == rest[i - 1] && s[i] == LinesSorted(rest)[i - 1]; }
      }
    }
  }

  lemma SameNamesSamePairs(ip: string, hs: seq<string>, gs: seq<string>)
    requires multiset(hs) == multiset(gs)
    ensures Set(PairsOf(ip, hs)) == Set(PairsOf(ip, gs))
  {
    forall p: Pair ensures p in Set(PairsOf(ip, hs)) <==> p in Set(PairsOf(ip, gs)) {
      SetPairsOf(ip, hs, p);
      SetPairsOf(ip, gs, p);
      assert p.1 in Set(hs) <==> p.1 in multiset(hs);
      assert p.1 in Set(gs) <==> p.1 in multiset(gs);
    }
  }
}
