/** Echo packets rewritten in place in one buffer: Ethernet (14 bytes), IPv4 header (20 bytes),
    ICMP echo header (8 bytes) and data. Each method is proved against a function on the bytes,
    and the functions keep both checksums right and the request's identity intact. */
module Ping {
  import opened Bytes
  import opened Checksum

  // ---------------------------------------------------------------------------
  // The packets as values
  // ---------------------------------------------------------------------------

  /** `s` written over the bytes from `at` on. */
  function Splice(b: seq<byte>, at: nat, s: seq<byte>): (r: seq<byte>)
    requires at + |s| <= |b|
    ensures |r| == |b|
    ensures forall i :: 0 <= i < |b| ==> r[i] == if at <= i < at + |s| then s[i - at] else b[i]
  {
    b[..at] + s + b[at + |s|..]
  }

  /** The field at `at` zeroed, then filled with the checksum of the bytes from `lo` to `hi`. */
  function Summed(b: seq<byte>, at: nat, lo: nat, hi: nat): (r: seq<byte>)
    requires lo <= hi <= |b| && at + 1 < |b|
    ensures |r| == |b|
  {
    var z := Store(b, at, 0);
    Store(z, at, Code(z[lo..hi]))
  }

  /** An address of another length is copied as far as it goes; the rest keeps the old bytes. */
  function Address(old6: seq<byte>, mac: seq<byte>): (r: seq<byte>)
    requires |old6| == 6
    ensures |r| == 6
  {
    if |mac| >= 6 then mac[..6] else mac + old6[|mac|..]
  }

  function EthernetHeader(old6: seq<byte>, mac: seq<byte>): (r: seq<byte>)
    requires |old6| == 6
    ensures |r| == 14
  {
    [255, 255, 255, 255, 255, 255] + Address(old6, mac) + [0x08, 0x00]
  }

  /** Version and length, the total length in 16 bits, identification, lifetime and protocol. */
  function IpHeader(total: nat, src: seq<byte>, dst: seq<byte>): (r: seq<byte>)
    requires |src| == 4 && |dst| == 4
    ensures |r| == 20
  {
    [0x45, 0, total / 256 % 256, total % 256, 0x12, 0x34, 0, 0, 64, 1, 0, 0] + src + dst
  }

  function IcmpHeader(sequence: int): (r: seq<byte>)
    requires 0 <= sequence < 65536
    ensures |r| == 8
  {
    [0x08, 0, 0, 0, 0x42, 0x42, sequence / 256, sequence % 256]
  }

  function Blank(b: seq<byte>, mac: seq<byte>, src: seq<byte>, dst: seq<byte>, sequence: int): (r: seq<byte>)
    requires |b| >= 42 && |src| == 4 && |dst| == 4 && 0 <= sequence < 65536
    ensures |r| == |b|
  {
    var e := Splice(b, 0, EthernetHeader(b[6..12], mac));
    var i := Splice(e, 14, IpHeader(|b| - 14, src, dst));
    Splice(i, 34, IcmpHeader(sequence))[..42] + seq(|b| - 42, k => (k + 42) % 256)
  }

  /** The echo request built in a buffer that held `b`. */
  function EchoRequest(b: seq<byte>, mac: seq<byte>, src: seq<byte>, dst: seq<byte>, sequence: int): (r: seq<byte>)
    requires |b| >= 42 && |src| == 4 && |dst| == 4 && 0 <= sequence < 65536
    ensures |r| == |b|
  {
    Summed(Summed(Blank(b, mac, src, dst, sequence), 24, 14, 34), 36, 34, |b|)
  }

  /** Another sequence number, with the ICMP checksum brought up to date. */
  function Resequenced(b: seq<byte>, sequence: int): (r: seq<byte>)
    requires |b| >= 42 && 0 <= sequence < 65536
    ensures |r| == |b|
  {
    Summed(Store(b, 40, sequence), 36, 34, |b|)
  }

  function SwappedIps(b: seq<byte>): (r: seq<byte>)
    requires |b| >= 42
    ensures |r| == |b|
  {
    Splice(b, 26, b[30..34] + b[26..30])
  }

  /** Both addresses swapped, and a request's type turned into a reply's. */
  function Swapped(b: seq<byte>): (r: seq<byte>)
    requires |b| >= 42
    ensures |r| == |b|
  {
    SwappedIps(Splice(b, 0, b[6..12] + b[..6]))[34 := 0][35 := 0]
  }

  function EchoReply(b: seq<byte>): (r: seq<byte>)
    requires |b| >= 42
    ensures |r| == |b|
  {
    Summed(Summed(Swapped(b), 24, 14, 34), 36, 34, |b|)
  }

  /** The variant that answers from the given address; it leaves the ICMP code alone. */
  function SwappedFrom(b: seq<byte>, mac: seq<byte>): (r: seq<byte>)
    requires |b| >= 42
    ensures |r| == |b|
  {
    SwappedIps(Splice(b, 0, b[6..12] + Address(b[6..12], mac)))[34 := 0]
  }

  function EchoReplyFrom(b: seq<byte>, mac: seq<byte>): (r: seq<byte>)
    requires |b| >= 42
    ensures |r| == |b|
  {
    Summed(Summed(SwappedFrom(b, mac), 24, 14, 34), 36, 34, |b|)
  }

  predicate IsEchoRequest(b: seq<byte>) {
    |b| >= 42 && b[12] == 0x08 && b[13] == 0 && b[23] == 1 && b[34] == 0x08
  }

  predicate IsEchoReply(b: seq<byte>, expected: int) {
    && |b| >= 42 && b[12] == 0x08 && b[13] == 0 && b[23] == 1 && b[34] == 0 && b[35] == 0
    && Word(b[38], b[39]) == 0x4242 && Word(b[40], b[41]) == expected
  }

  // ---------------------------------------------------------------------------
  // The methods on the buffer
  // ---------------------------------------------------------------------------

  method Copy(buf: array<byte>, at: nat, s: seq<byte>)
    requires at + |s| <= buf.Length
    modifies buf
    ensures buf[..] == Splice(old(buf[..]), at, s)
  {
    var i := 0;
    while i < |s|
      invariant 0 <= i <= |s|
      invariant forall k :: 0 <= k < buf.Length ==> buf[k] == if at <= k < at + i then s[k - at] else old(buf[k])
    {
      buf[at + i] := s[i];
      i := i + 1;
    }
  }

  method Store16(buf: array<byte>, at: nat, w: int)
    requires at + 1 < buf.Length && 0 <= w < 65536
    modifies buf
    ensures buf[..] == Store(old(buf[..]), at, w)
  {
    buf[at] := w / 256;
    buf[at + 1] := w % 256;
  }

  /** Recomputes the checksum in place. */
  method UpdateChecksum(buf: array<byte>, at: nat, lo: nat, hi: nat)
    requires lo <= hi <= buf.Length && at + 1 < buf.Length
    modifies buf
    ensures buf[..] == Summed(old(buf[..]), at, lo, hi)
  {
    Store16(buf, at, 0);
    assert buf[lo..hi] == buf[..][lo..hi];
    var c := CalculateChecksum(buf[lo..hi]);
    Store16(buf, at, c);
  }

  method CreatePingPacket(buf: array<byte>, mac: seq<byte>, src: seq<byte>, dst: seq<byte>, sequence: int)
    requires buf.Length >= 42 && |src| == 4 && |dst| == 4 && 0 <= sequence < 65536
    modifies buf
    ensures buf[..] == EchoRequest(old(buf[..]), mac, src, dst, sequence)
  {
    FillEthernet(buf, mac);
    FillIp(buf, src, dst);
    FillIcmp(buf, sequence);
    FillData(buf);
    UpdateChecksum(buf, 24, 14, 34);
    UpdateChecksum(buf, 36, 34, buf.Length);
  }

  method FillEthernet(buf: array<byte>, mac: seq<byte>)
    requires buf.Length >= 42
    modifies buf
    ensures buf[..] == Splice(old(buf[..]), 0, EthernetHeader(old(buf[6..12]), mac))
  {
    hide Splice, EthernetHeader;
    var i := 0;
    while i < 6
      invariant 0 <= i <= 6
      invariant forall k :: 0 <= k < buf.Length ==> buf[k] == if k < i then 255 else old(buf[k])
    {
      buf[i] := 255;
      i := i + 1;
    }
    EthernetIs(old(buf[..]), buf[..], mac);
    assert old(buf[6..12]) == old(buf[..])[6..12];
    Copy(buf, 6, if |mac| >= 6 then mac[..6] else mac);
    buf[12] := 0x08;
    buf[13] := 0x00;
  }

  lemma EthernetIs(b: seq<byte>, mid: seq<byte>, mac: seq<byte>)
    requires |b| == |mid| >= 42 && forall k :: 0 <= k < |b| ==> mid[k] == if k < 6 then 255 else b[k]
    ensures Splice(mid, 6, if |mac| >= 6 then mac[..6] else mac)[12 := 0x08][13 := 0x00]
         == Splice(b, 0, EthernetHeader(b[6..12], mac))
  {}

  method FillIp(buf: array<byte>, src: seq<byte>, dst: seq<byte>)
    requires buf.Length >= 42 && |src| == 4 && |dst| == 4
    modifies buf
    ensures buf[..] == Splice(old(buf[..]), 14, IpHeader(buf.Length - 14, src, dst))
  {
    var total := buf.Length - 14;
    Copy(buf, 14, [0x45, 0, total / 256 % 256, total % 256, 0x12, 0x34, 0, 0, 64, 1, 0, 0]);
    Copy(buf, 26, src);
    Copy(buf, 30, dst);
  }

  method FillIcmp(buf: array<byte>, sequence: int)
    requires buf.Length >= 42 && 0 <= sequence < 65536
    modifies buf
    ensures buf[..] == Splice(old(buf[..]), 34, IcmpHeader(sequence))
  {
    Copy(buf, 34, [0x08, 0, 0, 0, 0x42, 0x42]);
    Store16(buf, 40, sequence);
  }

  method FillData(buf: array<byte>)
    requires buf.Length >= 42
    modifies buf
    ensures buf[..] == old(buf[..42]) + seq(buf.Length - 42, k => (k + 42) % 256)
  {
    var i := 42;
    while i < buf.Length
      invariant 42 <= i <= buf.Length && buf[..42] == old(buf[..42])
      invariant forall k :: 42 <= k < i ==> buf[k] == k % 256
    {
      buf[i] := i % 256;
      i := i + 1;
    }
  }

  method UpdateSequence(buf: array<byte>, sequence: int)
    requires buf.Length >= 42 && 0 <= sequence < 65536
    modifies buf
    ensures buf[..] == Resequenced(old(buf[..]), sequence)
  {
    Store16(buf, 40, sequence);
    UpdateChecksum(buf, 36, 34, buf.Length);
  }

  /** The IPv4 source and destination addresses change places. */
  method SwapIps(buf: array<byte>)
    requires buf.Length >= 42
    modifies buf
    ensures buf[..] == SwappedIps(old(buf[..]))
  {
    var srcIp, dstIp := buf[26..30], buf[30..34];
    Copy(buf, 26, dstIp);
    Copy(buf, 30, srcIp);
  }

  method ConvertToEchoReply(buf: array<byte>)
    requires buf.Length >= 42
    modifies buf
    ensures buf[..] == EchoReply(old(buf[..]))
  {
    var srcMac, dstMac := buf[6..12], buf[..6];
    Copy(buf, 0, srcMac + dstMac);
    SwapIps(buf);
    buf[34] := 0;
    buf[35] := 0;
    UpdateChecksum(buf, 24, 14, 34);
    UpdateChecksum(buf, 36, 34, buf.Length);
  }

  lemma SpliceTwice(b: seq<byte>, src: seq<byte>, mac: seq<byte>)
    requires |b| >= 42 && src == b[6..12]
    ensures Splice(Splice(b, 0, src), 6, if |mac| >= 6 then mac[..6] else mac) == Splice(b, 0, src + Address(src, mac))
  {}

  method ConvertToEchoReplyWithMac(buf: array<byte>, mac: seq<byte>)
    requires buf.Length >= 42
    modifies buf
    ensures buf[..] == EchoReplyFrom(old(buf[..]), mac)
  {
    hide Splice, SwappedIps, Summed, Address;
    var srcMac := buf[6..12];
    assert srcMac == buf[..][6..12];
    SpliceTwice(buf[..], srcMac, mac);
    Copy(buf, 0, srcMac);
    Copy(buf, 6, if |mac| >= 6 then mac[..6] else mac);
    SwapIps(buf);
    buf[34] := 0;
    UpdateChecksum(buf, 24, 14, 34);
    UpdateChecksum(buf, 36, 34, buf.Length);
  }

  // ---------------------------------------------------------------------------
  // Checksums after rewriting
  // ---------------------------------------------------------------------------

  /** Both checksums verify: over its own range each gives zero. */
  ghost predicate Verifies(b: seq<byte>) {
    |b| >= 42 && Code(b[14..34]) == 0 && Code(b[34..]) == 0
  }

  /** Up to 131108 bytes that is what section 1 of RFC 1071 asks for; the header, always. */
  lemma VerifiesStandard(b: seq<byte>)
    requires |b| >= 42
    ensures Code(b[14..34]) == Rfc1071(b[14..34])
    ensures |b| <= 131108 ==> (Verifies(b) <==> Rfc1071(b[14..34]) == 0 && Rfc1071(b[34..]) == 0)
  {
    NoWrap(b[14..34]);
    if |b| <= 131108 { NoWrap(b[34..]); }
  }

  /** The checksum the IPv4 header should carry. */
  function IpSum(b: seq<byte>): int
    requires |b| >= 42
  {
    Code(Store(b, 24, 0)[14..34])
  }

  lemma SummedVerifies(b: seq<byte>, at: nat, lo: nat, hi: nat)
    requires lo <= at && (at - lo) % 2 == 0 && at + 1 < hi <= |b|
    ensures Code(Summed(b, at, lo, hi)[lo..hi]) == 0
  {
    var z := Store(b, at, 0);
    var d := z[lo..hi];
    StoreVerifies(d, at - lo, Code(d));
    assert Summed(b, at, lo, hi)[lo..hi] == Store(d, at - lo, Code(d));
  }

  /** Filling in both checksums makes both verify and touches nothing else. */
  lemma BothSums(b: seq<byte>)
    requires |b| >= 42
    ensures var r := Summed(Summed(b, 24, 14, 34), 36, 34, |b|);
      && Verifies(r) && Word(r[24], r[25]) == IpSum(b)
      && (forall i :: 0 <= i < |b| && i != 24 && i != 25 && i != 36 && i != 37 ==> r[i] == b[i])
  {
    hide Code;
    var s := Summed(b, 24, 14, 34);
    var r := Summed(s, 36, 34, |b|);
    SummedVerifies(b, 24, 14, 34);
    SummedVerifies(s, 36, 34, |b|);
    assert r[14..34] == s[14..34];
    assert r[34..|b|] == r[34..];
  }

  /** The one's complement sum does not see the two addresses change places (section 2 of
      RFC 1071). */
  lemma SwapKeepsSum(b: seq<byte>, c: seq<byte>)
    requires |b| >= 42 && |c| == |b| && c[14..24] == b[14..24] && c[26..30] == b[30..34] && c[30..34] == b[26..30]
    ensures IpSum(c) == IpSum(b)
  {
    HeaderParts(b);
    HeaderParts(c);
    var pre, x, y := b[14..24] + [0, 0], b[26..30], b[30..34];
    WordSumAppend(pre, x + y);
    WordSumAppend(pre, y + x);
    WordSumAppend(x, y);
    WordSumAppend(y, x);
  }

  lemma HeaderParts(b: seq<byte>)
    requires |b| >= 42
    ensures Store(b, 24, 0)[14..34] == b[14..24] + [0, 0] + (b[26..30] + b[30..34])
  {}

  // ---------------------------------------------------------------------------
  // Replies
  // ---------------------------------------------------------------------------

  /** A reply turns the request round: addresses swapped, type and code zero, identifier, sequence
      number and data kept, both checksums right. */
  ghost predicate Answers(b: seq<byte>, r: seq<byte>) {
    && |r| == |b| >= 42
    && r[..6] == b[6..12] && r[12..24] == b[12..24]
    && r[26..30] == b[30..34] && r[30..34] == b[26..30]
    && r[34] == 0 && r[38..] == b[38..]
    && Verifies(r)
  }

  /** Turned round byte by byte, with `mac` as the new source address. */
  ghost predicate TurnedRound(b: seq<byte>, r: seq<byte>, mac: seq<byte>) {
    && |r| == |b| >= 42 && |mac| == 6
    && (forall i :: 0 <= i < 6 ==> r[i] == b[i + 6])
    && (forall i :: 6 <= i < 12 ==> r[i] == mac[i - 6])
    && (forall i :: 12 <= i < 24 ==> r[i] == b[i])
    && (forall i :: 26 <= i < 30 ==> r[i] == b[i + 4] && r[i + 4] == b[i])
    && r[34] == 0
    && (forall i :: 38 <= i < |b| ==> r[i] == b[i])
  }

  lemma TurnedFields(b: seq<byte>, r: seq<byte>, mac: seq<byte>)
    requires TurnedRound(b, r, mac)
    ensures r[..6] == b[6..12] && r[6..12] == mac && r[12..24] == b[12..24] && r[14..24] == b[14..24]
    ensures r[26..30] == b[30..34] && r[30..34] == b[26..30] && r[38..] == b[38..]
  {
    assert r[12..24][2..] == b[12..24][2..];
  }

  lemma AddressesTurned(b: seq<byte>, mac: seq<byte>)
    requires |b| >= 42 && |mac| == 6
    ensures var t := SwappedIps(Splice(b, 0, b[6..12] + mac));
      |t| == |b| && TurnedRound(b, t[34 := 0], mac) && t[35..] == b[35..]
  {
    var s := Splice(b, 0, b[6..12] + mac);
    assert s[..6] == b[6..12] && s[6..12] == mac && s[12..] == b[12..];
    var t := SwappedIps(s);
    assert t[..26] == s[..26] && t[26..30] == s[30..34] && t[30..34] == s[26..30] && t[34..] == s[34..];
  }

  lemma SwappedTurns(b: seq<byte>)
    requires |b| >= 42
    ensures TurnedRound(b, Swapped(b), b[..6]) && Swapped(b)[35] == 0
  {
    hide Splice, SwappedIps;
    AddressesTurned(b, b[..6]);
  }

  lemma SwappedFromTurns(b: seq<byte>, mac: seq<byte>)
    requires |b| >= 42
    ensures TurnedRound(b, SwappedFrom(b, mac), Address(b[6..12], mac)) && SwappedFrom(b, mac)[35] == b[35]
  {
    hide Splice, SwappedIps, Address;
    AddressesTurned(b, Address(b[6..12], mac));
  }

  /** Filling in the checksums of a packet turned round. */
  lemma TurnedAnswers(b: seq<byte>, s: seq<byte>, mac: seq<byte>)
    requires |b| >= 42 && TurnedRound(b, s, mac)
    ensures var r := Summed(Summed(s, 24, 14, 34), 36, 34, |b|);
      && Answers(b, r) && r[6..12] == mac && r[35] == s[35]
      && (r[24..26] == b[24..26] <==> Word(b[24], b[25]) == IpSum(b))
  {
    hide Code, IpSum, Verifies, Summed;
    var r := Summed(Summed(s, 24, 14, 34), 36, 34, |b|);
    BothSums(s);
    TurnedFields(b, s, mac);
    SwapKeepsSum(b, s);
    assert TurnedRound(b, r, mac);
    TurnedFields(b, r, mac);
    WordsDiffer(r, b);
  }

  /** Any buffer becomes a packet that answers it. The header checksum bytes
      stay as they were exactly when they were right. */
  lemma ReplyAnswers(b: seq<byte>)
    requires |b| >= 42
    ensures var r := EchoReply(b);
      && Answers(b, r) && r[6..12] == b[..6] && r[35] == 0
      && (r[24..26] == b[24..26] <==> Word(b[24], b[25]) == IpSum(b))
  {
    hide Code, IpSum, Verifies, Summed, Swapped, Answers;
    SwappedTurns(b);
    TurnedAnswers(b, Swapped(b), b[..6]);
  }

  lemma ReplyFromAnswers(b: seq<byte>, mac: seq<byte>)
    requires |b| >= 42
    ensures var r := EchoReplyFrom(b, mac);
      && Answers(b, r) && r[6..12] == Address(b[6..12], mac) && r[35] == b[35]
      && (r[24..26] == b[24..26] <==> Word(b[24], b[25]) == IpSum(b))
  {
    hide Code, IpSum, Verifies, Summed, SwappedFrom, Answers;
    SwappedFromTurns(b, mac);
    TurnedAnswers(b, SwappedFrom(b, mac), Address(b[6..12], mac));
  }

  lemma WordsDiffer(r: seq<byte>, b: seq<byte>)
    requires |r| == |b| >= 42
    ensures r[24..26] == b[24..26] <==> Word(r[24], r[25]) == Word(b[24], b[25])
  {
    if r[24..26] == b[24..26] {
      assert r[24] == r[24..26][0] && r[25] == r[24..26][1];
    } else {
      assert r[24..26] == [r[24], r[25]] && b[24..26] == [b[24], b[25]];
    }
  }

  // ---------------------------------------------------------------------------
  // A whole exchange
  // ---------------------------------------------------------------------------

  /** An IPv4 header of five words without options or fragments: total length in 16 bits, lifetime 64,
      carrying ICMP; in an Ethernet frame to everybody, with data that counts up. */
  ghost predicate IsFrame(b: seq<byte>) {
    && |b| >= 42 && (forall i :: 0 <= i < 6 ==> b[i] == 255) && b[12] == 0x08 && b[13] == 0
    && b[14] == 0x45 && b[15] == 0 && Word(b[16], b[17]) == (|b| - 14) % 65536
    && b[18] == 0x12 && b[19] == 0x34 && b[20] == 0 && b[21] == 0 && b[22] == 64 && b[23] == 1
    && (forall i :: 42 <= i < |b| ==> b[i] == i % 256)
  }

  /** A request of this exchange, with this sequence number. */
  ghost predicate GoodRequest(b: seq<byte>, sequence: int) {
    && IsEchoRequest(b) && IsFrame(b) && Verifies(b) && Word(b[24], b[25]) == IpSum(b)
    && b[35] == 0 && Word(b[38], b[39]) == 0x4242 && Word(b[40], b[41]) == sequence
  }

  function Updated(b: seq<byte>, updates: seq<int>): (r: seq<byte>)
    requires |b| >= 42 && forall i :: 0 <= i < |updates| ==> 0 <= updates[i] < 65536
    ensures |r| == |b|
    decreases |updates|
  {
    if updates == [] then b
    else Resequenced(Updated(b, updates[..|updates| - 1]), updates[|updates| - 1])
  }

  lemma BlankAt(b: seq<byte>, mac: seq<byte>, src: seq<byte>, dst: seq<byte>, sequence: int, i: nat)
    requires |b| >= 42 && |src| == 4 && |dst| == 4 && 0 <= sequence < 65536 && i < |b|
    ensures Blank(b, mac, src, dst, sequence)[i]
         == if i < 14 then EthernetHeader(b[6..12], mac)[i]
            else if i < 34 then IpHeader(|b| - 14, src, dst)[i - 14]
            else if i < 42 then IcmpHeader(sequence)[i - 34] else i % 256
  {
    hide Address, EthernetHeader, IpHeader, IcmpHeader;
  }

  lemma TotalLength(total: nat)
    ensures Word(total / 256 % 256, total % 256) == total % 65536
  {}

  lemma IpHeaderIs(total: nat, src: seq<byte>, dst: seq<byte>, h: seq<byte>)
    requires |src| == 4 && |dst| == 4 && h == IpHeader(total, src, dst)
    ensures h[0] == 0x45 && h[1] == 0 && Word(h[2], h[3]) == total % 65536
    ensures h[4] == 0x12 && h[5] == 0x34 && h[6] == 0 && h[7] == 0 && h[8] == 64 && h[9] == 1
    ensures h[12..16] == src && h[16..20] == dst
  {
    TotalLength(total);
  }

  lemma BlankIsFrame(b: seq<byte>, mac: seq<byte>, src: seq<byte>, dst: seq<byte>, sequence: int)
    requires |b| >= 42 && |src| == 4 && |dst| == 4 && 0 <= sequence < 65536
    ensures var s := Blank(b, mac, src, dst, sequence);
      && IsFrame(s) && s[34] == 0x08 && s[35] == 0
      && Word(s[38], s[39]) == 0x4242 && Word(s[40], s[41]) == sequence
      && s[26..30] == src && s[30..34] == dst && s[6..12] == Address(b[6..12], mac)
  {
    hide Address, Blank, IpHeader;
    var s, h := Blank(b, mac, src, dst, sequence), IpHeader(|b| - 14, src, dst);
    forall i | 0 <= i < |b|
      ensures s[i] == if i < 14 then EthernetHeader(b[6..12], mac)[i] else if i < 34 then h[i - 14]
                      else if i < 42 then IcmpHeader(sequence)[i - 34] else i % 256
    {
      BlankAt(b, mac, src, dst, sequence, i);
    }
    IpHeaderIs(|b| - 14, src, dst, h);
    var e := EthernetHeader(b[6..12], mac);
    assert e[6..12] == Address(b[6..12], mac);
    SliceMoved(s, 6, e, 6, 6);
    SliceMoved(s, 26, h, 12, 4);
    SliceMoved(s, 30, h, 16, 4);
  }

  lemma SliceMoved(b: seq<byte>, i: nat, c: seq<byte>, j: nat, n: nat)
    requires i + n <= |b| && j + n <= |c| && forall k :: i <= k < i + n ==> b[k] == c[k - i + j]
    ensures b[i..i + n] == c[j..j + n]
  {}

  /** Changing checksums and sequence number leaves a frame a frame. */
  lemma FrameKept(b: seq<byte>, r: seq<byte>)
    requires |r| == |b| && IsFrame(b)
    requires forall i :: 0 <= i < |b| && i != 24 && i != 25 && i != 36 && i != 37 && i != 40 && i != 41 ==> r[i] == b[i]
    ensures IsFrame(r)
  {}

  lemma RequestIsGood(b: seq<byte>, mac: seq<byte>, src: seq<byte>, dst: seq<byte>, sequence: int)
    requires |b| >= 42 && |src| == 4 && |dst| == 4 && 0 <= sequence < 65536
    ensures var r := EchoRequest(b, mac, src, dst, sequence);
      && GoodRequest(r, sequence)
      && r[26..30] == src && r[30..34] == dst && r[6..12] == Address(b[6..12], mac)
  {
    hide Code, Blank, IsFrame, IpSum, Verifies, Address;
    var s, r := Blank(b, mac, src, dst, sequence), EchoRequest(b, mac, src, dst, sequence);
    BlankIsFrame(b, mac, src, dst, sequence);
    BothSums(s);
    FrameKept(s, r);
    FrameType(s);
    SameIpSum(s, r);
    SliceKept(s, r, 6, 12);
    SliceKept(s, r, 26, 30);
    SliceKept(s, r, 30, 34);
  }

  lemma FrameType(b: seq<byte>)
    requires IsFrame(b)
    ensures b[12] == 0x08 && b[13] == 0 && b[23] == 1
  {}

  lemma SameIpSum(b: seq<byte>, c: seq<byte>)
    requires |b| == |c| >= 42 && (forall i :: 14 <= i < 34 && i != 24 && i != 25 ==> b[i] == c[i])
    ensures IpSum(b) == IpSum(c)
  {
    assert Store(b, 24, 0)[14..34] == Store(c, 24, 0)[14..34];
  }

  lemma ResequencedIsGood(b: seq<byte>, was: int, sequence: int)
    requires GoodRequest(b, was) && 0 <= sequence < 65536
    ensures var r := Resequenced(b, sequence);
      && GoodRequest(r, sequence)
      && (forall i :: 0 <= i < |b| && i != 36 && i != 37 && i != 40 && i != 41 ==> r[i] == b[i])
  {
    hide Code;
    var s := Store(b, 40, sequence);
    SummedVerifies(s, 36, 34, |b|);
    var r := Resequenced(b, sequence);
    FrameKept(b, r);
    FrameType(b);
    hide IsFrame;
    assert r[34..|b|] == r[34..];
    assert r[14..34] == b[14..34];
    SameIpSum(b, r);
  }

  lemma {:induction false} UpdatedIsGood(b: seq<byte>, first: int, updates: seq<int>)
    requires GoodRequest(b, first)
    requires forall i :: 0 <= i < |updates| ==> 0 <= updates[i] < 65536
    ensures var r := Updated(b, updates);
      && GoodRequest(r, if updates == [] then first else updates[|updates| - 1])
      && (forall i :: 0 <= i < |b| && i != 36 && i != 37 && i != 40 && i != 41 ==> r[i] == b[i])
    decreases |updates|
  {
    if updates != [] {
      var front := updates[..|updates| - 1];
      UpdatedIsGood(b, first, front);
      ResequencedIsGood(Updated(b, front), if front == [] then first else front[|front| - 1], updates[|updates| - 1]);
    }
  }

  /** A whole exchange: the request is built, takes any number of new sequence numbers and is
      turned into a reply. The request is a proper frame, both packets verify, the reply's header
      checksum is the request's, identifier, sequence number and data are kept, and the reply is accepted for the last
      sequence number and no other. */
  lemma PingExchange(
    b: seq<byte>, mac: seq<byte>, src: seq<byte>, dst: seq<byte>, first: int, updates: seq<int>, expected: int)
    requires |b| >= 42 && |src| == 4 && |dst| == 4 && 0 <= first < 65536
    requires forall i :: 0 <= i < |updates| ==> 0 <= updates[i] < 65536
    ensures var request := Updated(EchoRequest(b, mac, src, dst, first), updates);
      var last := if updates == [] then first else updates[|updates| - 1];
      var reply := EchoReply(request);
      && Verifies(request) && IsEchoRequest(request) && IsFrame(request)
      && (|mac| == 6 ==> request[6..12] == reply[..6] == mac)
      && request[26..30] == src && request[30..34] == dst
      && Answers(request, reply) && reply[24..26] == request[24..26]
      && reply[26..30] == dst && reply[30..34] == src
      && (IsEchoReply(reply, expected) <==> expected == last)
      && !IsEchoRequest(reply) && !IsEchoReply(request, expected)
  {
    hide Code, IpSum, Verifies, EchoRequest, EchoReply, Updated, Answers, GoodRequest, IsFrame, IsEchoRequest, IsEchoReply;
    ExchangeRequest(b, mac, src, dst, first, updates);
    var request := Updated(EchoRequest(b, mac, src, dst, first), updates);
    GoodReply(request, if updates == [] then first else updates[|updates| - 1], expected);
  }

  lemma ExchangeRequest(b: seq<byte>, mac: seq<byte>, src: seq<byte>, dst: seq<byte>, first: int, updates: seq<int>)
    requires |b| >= 42 && |src| == 4 && |dst| == 4 && 0 <= first < 65536
    requires forall i :: 0 <= i < |updates| ==> 0 <= updates[i] < 65536
    ensures var request := Updated(EchoRequest(b, mac, src, dst, first), updates);
      && GoodRequest(request, if updates == [] then first else updates[|updates| - 1])
      && request[26..30] == src && request[30..34] == dst && (|mac| == 6 ==> request[6..12] == mac)
  {
    hide Code, IpSum, Verifies, EchoRequest, Updated, GoodRequest;
    var made := EchoRequest(b, mac, src, dst, first);
    RequestIsGood(b, mac, src, dst, first);
    UpdatedIsGood(made, first, updates);
    var request := Updated(made, updates);
    SliceKept(made, request, 6, 12);
    SliceKept(made, request, 26, 30);
    SliceKept(made, request, 30, 34);
  }

  lemma SliceKept(b: seq<byte>, r: seq<byte>, lo: nat, hi: nat)
    requires lo <= hi <= |b| == |r| && forall i :: lo <= i < hi ==> r[i] == b[i]
    ensures r[lo..hi] == b[lo..hi]
  {}

  lemma GoodReply(request: seq<byte>, sequence: int, expected: int)
    requires GoodRequest(request, sequence)
    ensures var reply := EchoReply(request);
      && Verifies(request) && IsEchoRequest(request) && IsFrame(request)
      && Answers(request, reply) && reply[24..26] == request[24..26]
      && reply[..6] == request[6..12] && reply[26..30] == request[30..34] && reply[30..34] == request[26..30]
      && (IsEchoReply(reply, expected) <==> expected == sequence)
      && !IsEchoRequest(reply) && !IsEchoReply(request, expected)
  {
    hide Code, IpSum, Verifies, EchoReply;
    ReplyAnswers(request);
    AcceptedFor(request, EchoReply(request), expected);
  }

  /** The same exchange answered by the responder that puts in its own address. */
  lemma PingExchangeWithMac(
    b: seq<byte>, mac: seq<byte>, src: seq<byte>, dst: seq<byte>, first: int, updates: seq<int>,
    responder: seq<byte>, expected: int)
    requires |b| >= 42 && |src| == 4 && |dst| == 4 && 0 <= first < 65536
    requires forall i :: 0 <= i < |updates| ==> 0 <= updates[i] < 65536
    ensures var request := Updated(EchoRequest(b, mac, src, dst, first), updates);
      var last := if updates == [] then first else updates[|updates| - 1];
      var reply := EchoReplyFrom(request, responder);
      && Answers(request, reply) && reply[24..26] == request[24..26]
      && (|responder| == 6 ==> reply[6..12] == responder)
      && (IsEchoReply(reply, expected) <==> expected == last)
  {
    hide Code, IpSum, Verifies, EchoRequest, EchoReplyFrom, Updated, Answers, GoodRequest, IsFrame, IsEchoReply;
    ExchangeRequest(b, mac, src, dst, first, updates);
    var request := Updated(EchoRequest(b, mac, src, dst, first), updates);
    GoodReplyFrom(request, if updates == [] then first else updates[|updates| - 1], responder, expected);
  }

  lemma GoodReplyFrom(request: seq<byte>, sequence: int, responder: seq<byte>, expected: int)
    requires GoodRequest(request, sequence)
    ensures var reply := EchoReplyFrom(request, responder);
      && Answers(request, reply) && reply[24..26] == request[24..26]
      && (|responder| == 6 ==> reply[6..12] == responder)
      && (IsEchoReply(reply, expected) <==> expected == sequence)
  {
    hide Code, IpSum, Verifies, EchoReplyFrom, IsFrame, Answers;
    ReplyFromAnswers(request, responder);
    AcceptedFor(request, EchoReplyFrom(request, responder), expected);
  }

  lemma AcceptedFor(b: seq<byte>, r: seq<byte>, expected: int)
    requires Answers(b, r) && r[35] == 0 && IsEchoRequest(b) && Word(b[38], b[39]) == 0x4242
    ensures IsEchoReply(r, expected) <==> expected == Word(b[40], b[41])
    ensures !IsEchoRequest(r)
  {
    assert r[12] == r[12..24][0] && r[13] == r[12..24][1] && r[23] == r[12..24][11];
    assert b[12] == b[12..24][0] && b[13] == b[12..24][1] && b[23] == b[12..24][11];
    assert r[38] == r[38..][0] && r[39] == r[38..][1] && r[40] == r[38..][2] && r[41] == r[38..][3];
    assert b[38] == b[38..][0] && b[39] == b[38..][1] && b[40] == b[38..][2] && b[41] == b[38..][3];
  }
}
