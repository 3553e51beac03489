/** The two datagram formats: the 30-byte header, and the 7-byte fast-path header that carries
    only a destination. Packing and unpacking are inverse to each other, and flagging a packet as
    relayed changes one bit of one byte. */
module Wire {
  import opened Bytes

  type u16 = x: int | 0 <= x < 0x1_0000
  type u32 = x: int | 0 <= x < 0x1_0000_0000

  const HEADER_SIZE: int := 30
  const VERSION: byte := 5
  const TYPE_DATA: byte := 4
  const FLAG_FROM_SUPERNODE: byte := 2
  const VFUZE_SIZE: int := 7
  const VFUZE_VERSION: byte := 0x51

  datatype Header = Header(
    version: byte, ttl: byte, packetType: byte, flags: byte, sequence: u16, community: u32,
    source: seq<byte>, dest: seq<byte>, timestamp: u32, checksum: u32)

  /** The two address fields have six bytes. */
  predicate Sized(h: Header) {
    |h.source| == 6 && |h.dest| == 6
  }

  // ---------------------------------------------------------------------------
  // Big-endian numbers
  // ---------------------------------------------------------------------------

  function Put16(x: u16): (r: seq<byte>)
    ensures |r| == 2
  {
    [x / 256, x % 256]
  }

  function Get16(b: seq<byte>): u16
    requires |b| == 2
  {
    b[0] as int * 256 + b[1]
  }

  function Put32(x: u32): (r: seq<byte>)
    ensures |r| == 4
  {
    Put16(x / 0x1_0000) + Put16(x % 0x1_0000)
  }

  function Get32(b: seq<byte>): u32
    requires |b| == 4
  {
    Get16(b[..2]) as int * 0x1_0000 + Get16(b[2..])
  }

  lemma Get16Put16(x: u16)
    ensures Get16(Put16(x)) == x
  {}

  lemma Put16Get16(b: seq<byte>)
    requires |b| == 2
    ensures Put16(Get16(b)) == b
  {
    assert (b[0] as int * 256 + b[1]) / 256 == b[0];
  }

  lemma Get32Put32(x: u32)
    ensures Get32(Put32(x)) == x
  {
    assert Put32(x)[..2] == Put16(x / 0x1_0000) && Put32(x)[2..] == Put16(x % 0x1_0000);
    Get16Put16(x / 0x1_0000);
    Get16Put16(x % 0x1_0000);
  }

  lemma Put32Get32(b: seq<byte>)
    requires |b| == 4
    ensures Put32(Get32(b)) == b
  {
    var hi, lo := Get16(b[..2]), Get16(b[2..]);
    assert (hi as int * 0x1_0000 + lo) / 0x1_0000 == hi && (hi as int * 0x1_0000 + lo) % 0x1_0000 == lo;
    Put16Get16(b[..2]);
    Put16Get16(b[2..]);
    assert b == b[..2] + b[2..];
  }

  // ---------------------------------------------------------------------------
  // The 30-byte header
  // ---------------------------------------------------------------------------

  function PackHeader(h: Header): (r: seq<byte>)
    requires Sized(h)
    ensures |r| == HEADER_SIZE
  {
    [h.version, h.ttl, h.packetType, h.flags] + Put16(h.sequence) + Put32(h.community)
    + h.source + h.dest + Put32(h.timestamp) + Put32(h.checksum)
  }

  function Pack(h: Header, payload: seq<byte>): seq<byte>
    requires Sized(h)
  {
    PackHeader(h) + payload
  }

  function UnpackHeader(b: seq<byte>): (h: Header)
    requires |b| == HEADER_SIZE
    ensures Sized(h)
  {
    Header(b[0], b[1], b[2], b[3], Get16(b[4..6]), Get32(b[6..10]), b[10..16], b[16..22],
           Get32(b[22..26]), Get32(b[26..30]))
  }

  function Unpack(packet: seq<byte>): Result<(Header, seq<byte>)> {
    if |packet| < HEADER_SIZE then Err("packet too short")
    else if packet[0] != VERSION then Err("not a VersionV packet")
    else Ok((UnpackHeader(packet[..HEADER_SIZE]), packet[HEADER_SIZE..]))
  }

  lemma Slice(b: seq<byte>, at: nat, part: seq<byte>)
    requires at + |part| <= |b| && forall i :: 0 <= i < |part| ==> b[at + i] == part[i]
    ensures b[at..at + |part|] == part
  {}

  /** Where each field is on the wire, most significant byte first. */
  lemma Layout(h: Header)
    requires Sized(h)
    ensures var b := PackHeader(h);
      && b[0] == h.version && b[1] == h.ttl && b[2] == h.packetType && b[3] == h.flags
      && b[4] as int * 0x100 + b[5] == h.sequence
      && b[6] as int * 0x100_0000 + b[7] as int * 0x1_0000 + b[8] as int * 0x100 + b[9] == h.community
      && b[10..16] == h.source && b[16..22] == h.dest
      && b[22] as int * 0x100_0000 + b[23] as int * 0x1_0000 + b[24] as int * 0x100 + b[25] == h.timestamp
      && b[26] as int * 0x100_0000 + b[27] as int * 0x1_0000 + b[28] as int * 0x100 + b[29] == h.checksum
  {
    var b := PackHeader(h);
    Slice(b, 10, h.source);
    Slice(b, 16, h.dest);
    BigEndian(h.community);
    BigEndian(h.timestamp);
    BigEndian(h.checksum);
    assert b[6..10] == Put32(h.community) by { Slice(b, 6, Put32(h.community)); }
    assert b[22..26] == Put32(h.timestamp) by { Slice(b, 22, Put32(h.timestamp)); }
    assert b[26..30] == Put32(h.checksum) by { Slice(b, 26, Put32(h.checksum)); }
  }

  lemma BigEndian(x: u32)
    ensures var b := Put32(x);
      b[0] as int * 0x100_0000 + b[1] as int * 0x1_0000 + b[2] as int * 0x100 + b[3] == x
  {
    var hi, lo := x / 0x1_0000, x % 0x1_0000;
    assert Put32(x) == [hi / 256, hi % 256, lo / 256, lo % 256];
  }

  lemma UnpackPackHeader(h: Header)
    requires Sized(h)
    ensures UnpackHeader(PackHeader(h)) == h
  {
    var b := PackHeader(h);
    Slice(b, 4, Put16(h.sequence));
    Slice(b, 6, Put32(h.community));
    Slice(b, 10, h.source);
    Slice(b, 16, h.dest);
    Slice(b, 22, Put32(h.timestamp));
    Slice(b, 26, Put32(h.checksum));
    Get16Put16(h.sequence);
    Get32Put32(h.community);
    Get32Put32(h.timestamp);
    Get32Put32(h.checksum);
  }

  lemma PackUnpackHeader(b: seq<byte>)
    requires |b| == HEADER_SIZE
    ensures PackHeader(UnpackHeader(b)) == b
  {
    Put16Get16(b[4..6]);
    Put32Get32(b[6..10]);
    Put32Get32(b[22..26]);
    Put32Get32(b[26..30]);
    assert b == [b[0], b[1], b[2], b[3]] + b[4..6] + b[6..10] + b[10..16] + b[16..22] + b[22..26] + b[26..30];
  }

  /** What is packed is unpacked again, and only version 5 is accepted. */
  lemma UnpackPack(h: Header, payload: seq<byte>)
    requires Sized(h)
    ensures Unpack(Pack(h, payload)) == if h.version == VERSION then Ok((h, payload)) else Err("not a VersionV packet")
  {
    var p := Pack(h, payload);
    assert p[..HEADER_SIZE] == PackHeader(h) && p[HEADER_SIZE..] == payload;
    UnpackPackHeader(h);
  }

  /** Exactly the packets of at least 30 bytes and version 5 unpack, and packing gives the very
      same bytes back. */
  lemma PackUnpack(packet: seq<byte>)
    ensures Unpack(packet).Ok? <==> |packet| >= HEADER_SIZE && packet[0] == VERSION
    ensures Unpack(packet).Ok? ==>
      var (h, payload) := Unpack(packet).value;
      Sized(h) && h.version == VERSION && Pack(h, payload) == packet
  {
    if Unpack(packet).Ok? {
      PackUnpackHeader(packet[..HEADER_SIZE]);
      assert packet == packet[..HEADER_SIZE] + packet[HEADER_SIZE..];
    }
  }

  // ---------------------------------------------------------------------------
  // Flags
  // ---------------------------------------------------------------------------

  /** The flag is the second-lowest bit; setting it leaves the bit below and the bits above. */
  function SetFromSupernode(flags: byte): (r: byte)
    ensures r / 4 == flags / 4 && r % 2 == flags % 2 && r / 2 % 2 == 1
  {
    if flags / FLAG_FROM_SUPERNODE % 2 == 1 then flags else flags + FLAG_FROM_SUPERNODE
  }

  function FlagFromSupernode(packet: seq<byte>): Result<seq<byte>> {
    match Unpack(packet)
    case Err(e) => Err(e)
    case Ok((h, payload)) => Ok(Pack(h.(flags := SetFromSupernode(h.flags)), payload))
  }

  /** Flagging changes one bit of the fourth byte and nothing else, does so for exactly the packets
      that unpack, and a second flagging changes nothing. */
  lemma FlaggingIsExact(packet: seq<byte>)
    ensures FlagFromSupernode(packet).Ok? <==> |packet| >= HEADER_SIZE && packet[0] == VERSION
    ensures FlagFromSupernode(packet).Ok? ==>
      var flagged := FlagFromSupernode(packet).value;
      && flagged == packet[3 := SetFromSupernode(packet[3])]
      && FlagFromSupernode(flagged) == Ok(flagged)
  {
    PackUnpack(packet);
    if Unpack(packet).Ok? { FlaggedBytes(packet); }
  }

  lemma FlaggedBytes(packet: seq<byte>)
    requires |packet| >= HEADER_SIZE && packet[0] == VERSION
    ensures var flagged := packet[3 := SetFromSupernode(packet[3])];
      FlagFromSupernode(packet) == Ok(flagged) && FlagFromSupernode(flagged) == Ok(flagged)
  {
    FlaggedOnce(packet);
    FlaggedOnce(packet[3 := SetFromSupernode(packet[3])]);
  }

  lemma FlaggedOnce(packet: seq<byte>)
    requires |packet| >= HEADER_SIZE && packet[0] == VERSION
    ensures FlagFromSupernode(packet) == Ok(packet[3 := SetFromSupernode(packet[3])])
  {
    var flagged := packet[3 := SetFromSupernode(packet[3])];
    PackUnpack(packet);
    PackUnpack(flagged);
    var b, c := packet[..HEADER_SIZE], flagged[..HEADER_SIZE];
    assert c == b[3 := flagged[3]] && flagged[HEADER_SIZE..] == packet[HEADER_SIZE..];
    assert forall i, j :: 4 <= i <= j <= 30 ==> c[i..j] == b[i..j];
    assert UnpackHeader(c) == UnpackHeader(b).(flags := flagged[3]);
  }

  // ---------------------------------------------------------------------------
  // Addresses and the fast path
  // ---------------------------------------------------------------------------

  /** Six zero bytes stand for no address. */
  function MacOf(six: seq<byte>): Mac
    requires |six| == 6
  {
    if six == [0, 0, 0, 0, 0, 0] then Mac([]) else Mac(six)
  }

  function VFuzePacket(dst: seq<byte>, payload: seq<byte>): seq<byte>
    requires |dst| >= 6
  {
    [VFUZE_VERSION] + dst[..6] + payload
  }

  function VFuzeDest(packet: seq<byte>): Result<seq<byte>> {
    if |packet| < VFUZE_SIZE then Err("short packet not vFuze")
    else if packet[0] != VFUZE_VERSION then Err("packet is not VersionVFuze")
    else Ok(packet[1..7])
  }

  lemma VFuzeRoundTrip(dst: seq<byte>, payload: seq<byte>)
    requires |dst| >= 6
    ensures VFuzeDest(VFuzePacket(dst, payload)) == Ok(dst[..6])
    ensures VFuzePacket(dst, payload)[VFUZE_SIZE..] == payload
    ensures Unpack(VFuzePacket(dst, payload)).Err?
  {
    var p := VFuzePacket(dst, payload);
    assert p[1..7] == dst[..6];
  }
}
