/** A frame's way from one TAP device to another: through the transform pipeline, into a datagram,
    possibly past the supernode, into a reused receive buffer, and back through the pipeline. */
module DataPath {
  import opened Bytes
  import opened Membership
  import opened Partition
  import opened Messages
  import opened Records
  import opened Supernode
  import opened Wire
  import opened Relay

  // ---------------------------------------------------------------------------
  // Pipelines
  // ---------------------------------------------------------------------------

  /** A reversible step; `apply` may use fresh randomness, given as a seed. */
  datatype Transform = Transform(
    apply: (seq<byte>, nat) -> Result<seq<byte>>,
    reverse: seq<byte> -> Result<seq<byte>>)

  /** What reversing promises: it gives back what was applied. */
  ghost predicate Lawful(t: Transform) {
    forall x, seed :: t.apply(x, seed).Ok? ==> t.reverse(t.apply(x, seed).value) == Ok(x)
  }

  ghost predicate AllLawful(ts: seq<Transform>) {
    forall i :: 0 <= i < |ts| ==> Lawful(ts[i])
  }

  /** Authenticated encryption in the shape of section 5.2 of RFC 5116: a 12-byte nonce in front
      and a 16-byte tag in the ciphertext. */
  ghost predicate IsAead(t: Transform) {
    Lawful(t) && forall x, seed :: t.apply(x, seed).Ok? ==> |t.apply(x, seed).value| == |x| + 28
  }

  const NO_OP: Transform := Transform((x, _) => Ok(x), x => Ok(x))

  /** Applied first to last. `seeds` supplies each step with its randomness. */
  function Forward(ts: seq<Transform>, x: seq<byte>, seeds: nat -> nat): Result<seq<byte>>
    decreases |ts|
  {
    if ts == [] then Ok(x)
    else
      var y := Forward(ts[..|ts| - 1], x, seeds);
      if y.Err? then y else ts[|ts| - 1].apply(y.value, seeds(|ts| - 1))
  }

  /** Reversed last to first. */
  function Backward(ts: seq<Transform>, y: seq<byte>): Result<seq<byte>>
    decreases |ts|
  {
    if ts == [] then Ok(y)
    else
      var x := ts[|ts| - 1].reverse(y);
      if x.Err? then x else Backward(ts[..|ts| - 1], x.value)
  }

  method PrepareOutput(ts: seq<Transform>, payload: seq<byte>, seeds: nat -> nat) returns (r: Result<seq<byte>>)
    ensures r == Forward(ts, payload, seeds)
  {
    var current := payload;
    var i := 0;
    while i < |ts|
      invariant 0 <= i <= |ts|
      invariant Forward(ts[..i], payload, seeds) == Ok(current)
    {
      assert ts[..i + 1][..i] == ts[..i];
      r := ts[i].apply(current, seeds(i));
      if r.Err? {
        FailsOnwards(ts, payload, seeds, i + 1);
        return;
      }
      current := r.value;
      i := i + 1;
    }
    assert ts[..i] == ts;
    r := Ok(current);
  }

  lemma {:induction false} FailsOnwards(ts: seq<Transform>, x: seq<byte>, seeds: nat -> nat, n: nat)
    requires n <= |ts| && Forward(ts[..n], x, seeds).Err?
    ensures Forward(ts, x, seeds) == Forward(ts[..n], x, seeds)
    decreases |ts|
  {
    if n == |ts| {
      assert ts[..n] == ts;
    } else {
      var front := ts[..|ts| - 1];
      assert front[..n] == ts[..n];
      FailsOnwards(front, x, seeds, n);
    }
  }

  method ParseInput(ts: seq<Transform>, payload: seq<byte>) returns (r: Result<seq<byte>>)
    ensures r == Backward(ts, payload)
  {
    var current := payload;
    var i := |ts|;
    assert ts[..i] == ts;
    while i > 0
      invariant 0 <= i <= |ts|
      invariant Backward(ts, payload) == Backward(ts[..i], current)
    {
      assert ts[..i][..i - 1] == ts[..i - 1];
      r := ts[i - 1].reverse(current);
      if r.Err? { return; }
      current := r.value;
      i := i - 1;
    }
    r := Ok(current);
  }

  /** A lawful pipeline is undone by parsing what it prepared. */
  lemma {:induction false} PipelineRoundTrip(ts: seq<Transform>, x: seq<byte>, seeds: nat -> nat)
    requires AllLawful(ts) && Forward(ts, x, seeds).Ok?
    ensures Backward(ts, Forward(ts, x, seeds).value) == Ok(x)
    decreases |ts|
  {
    if ts != [] {
      var front, last := ts[..|ts| - 1], ts[|ts| - 1];
      var y := Forward(front, x, seeds);
      PipelineRoundTrip(front, x, seeds);
      assert last.reverse(last.apply(y.value, seeds(|ts| - 1)).value) == Ok(y.value);
    }
  }

  // ---------------------------------------------------------------------------
  // The last hop: from payload to TAP
  // ---------------------------------------------------------------------------

  /** Frames shorter than the Ethernet minimum are filled up with zeros. */
  function Pad60(frame: seq<byte>): (r: seq<byte>)
    ensures frame <= r && |r| == (if |frame| < 60 then 60 else |frame|)
    ensures forall i :: |frame| <= i < |r| ==> r[i] == 0
  {
    if |frame| < 60 then frame + seq(60 - |frame|, _ => 0) else frame
  }

  /** Payloads too short to be ciphertext skip the pipeline. */
  function DataToTap(ts: seq<Transform>, payload: seq<byte>): Result<seq<byte>> {
    if |payload| < 28 then Ok(Pad60(payload))
    else
      var x := Backward(ts, payload);
      if x.Err? then x else Ok(Pad60(x.value))
  }

  method HandleDataPayload(ts: seq<Transform>, input: seq<byte>) returns (r: Result<seq<byte>>)
    ensures r == DataToTap(ts, input)
  {
    var payload := input;
    if |payload| >= 28 {
      var parsed := ParseInput(ts, payload);
      if parsed.Err? { return parsed; }
      payload := parsed.value;
    }
    if |payload| < 60 {
      var padded := new byte[60](_ => 0);
      var i := 0;
      while i < |payload|
        invariant 0 <= i <= |payload|
        invariant forall k :: 0 <= k < 60 ==> padded[k] == if k < i then payload[k] else 0
      {
        padded[i] := payload[i];
        i := i + 1;
      }
      assert padded[..] == Pad60(payload);
      payload := padded[..];
    }
    r := Ok(payload);
  }

  /** Pipelines for which the shortcut is harmless. */
  ghost predicate Robust(ts: seq<Transform>) {
    ts == [NO_OP] || (ts != [] && AllLawful(ts) && IsAead(ts[|ts| - 1]))
  }

  /** The shortcut never skips a needed decryption: a payload prepared by a pipeline that does
      nothing or ends in authenticated encryption arrives as the frame, padded. */
  lemma RobustDelivers(ts: seq<Transform>, frame: seq<byte>, seeds: nat -> nat)
    requires Robust(ts) && Forward(ts, frame, seeds).Ok?
    ensures DataToTap(ts, Forward(ts, frame, seeds).value) == Ok(Pad60(frame))
  {
    if ts == [NO_OP] {
      assert ts[..0] == [];
      assert Forward([], frame, seeds) == Ok(frame);
      assert Backward(ts, frame) == Backward([], frame);
    } else {
      PipelineRoundTrip(ts, frame, seeds);
    }
  }

  /** Every output starts with the same bytes, as compressed data starts with its magic number. */
  ghost predicate Tagged(t: Transform, tag: seq<byte>) {
    forall x, seed :: t.apply(x, seed).Ok? ==> tag <= t.apply(x, seed).value
  }

  /** When the last transform tags its output, a frame that does not look tagged itself arrives if
      and only if the prepared payload is long enough not to take the shortcut. */
  lemma TaggedDeliversExactly(ts: seq<Transform>, frame: seq<byte>, seeds: nat -> nat, tag: seq<byte>)
    requires ts != [] && AllLawful(ts) && Tagged(ts[|ts| - 1], tag) && Forward(ts, frame, seeds).Ok?
    requires |tag| <= |frame| && !(tag <= frame)
    ensures var y := Forward(ts, frame, seeds).value;
      DataToTap(ts, y) == Ok(Pad60(frame)) <==> |y| >= 28
  {
    var y := Forward(ts, frame, seeds).value;
    PipelineRoundTrip(ts, frame, seeds);
    if |y| < 28 {
      assert tag <= y <= Pad60(y) && frame <= Pad60(frame);
      assert Pad60(y)[..|tag|] == tag && Pad60(frame)[..|tag|] == frame[..|tag|];
    }
  }

  /** The magic number of compressed frames, section 3.1.1 of RFC 8878. */
  const ZSTD_MAGIC: seq<byte> := [0x28, 0xB5, 0x2F, 0xFD]

  /** The pipelines the program builds from its configuration. */
  function Built(zstd: Option<Transform>, aes: Option<Transform>): seq<Transform> {
    var ts := (if zstd.Some? then [zstd.value] else []) + (if aes.Some? then [aes.value] else []);
    if ts == [] then [NO_OP] else ts
  }

  lemma StationsAreUntagged(frame: seq<byte>)
    requires |frame| >= 4 && (frame[0] % 4 == 2 || frame[0] == 255)
    ensures !(ZSTD_MAGIC <= frame)
  {
    assert ZSTD_MAGIC[0] != frame[0];
  }

  /** For every pipeline the program can build, a frame that does not start with the magic number,
      as none to a station or to everybody does, arrives if and only if it is not the case that it
      was compressed, not encrypted, and came out shorter than 28 bytes. */
  lemma BuiltDeliversExactly(zstd: Option<Transform>, aes: Option<Transform>, frame: seq<byte>, seeds: nat -> nat)
    requires zstd.Some? ==> Lawful(zstd.value) && Tagged(zstd.value, ZSTD_MAGIC)
    requires aes.Some? ==> IsAead(aes.value)
    requires |frame| >= 14 && !(ZSTD_MAGIC <= frame)
    requires Forward(Built(zstd, aes), frame, seeds).Ok?
    ensures var ts := Built(zstd, aes);
      var y := Forward(ts, frame, seeds).value;
      DataToTap(ts, y) == Ok(Pad60(frame)) <==> !(zstd.Some? && aes.None? && |y| < 28)
  {
    var ts := Built(zstd, aes);
    if zstd.Some? && aes.None? {
      assert ts == [zstd.value];
      TaggedDeliversExactly(ts, frame, seeds, ZSTD_MAGIC);
    } else {
      assert aes.Some? ==> ts[|ts| - 1] == aes.value && AllLawful(ts);
      RobustDelivers(ts, frame, seeds);
    }
  }

  function Untagged(y: seq<byte>): Result<seq<byte>> {
    if ZSTD_MAGIC <= y then Ok(y[4..]) else Err("no magic number")
  }

  /** A lawful, tagged transform that adds nothing but the tag. */
  const TAGGING: Transform := Transform((x, _) => Ok(ZSTD_MAGIC + x), y => Untagged(y))

  lemma TaggingIsLawful()
    ensures Lawful(TAGGING) && Tagged(TAGGING, ZSTD_MAGIC)
  {
    forall x: seq<byte> ensures Untagged(ZSTD_MAGIC + x) == Ok(x) { assert (ZSTD_MAGIC + x)[4..] == x; }
  }

  /** Compression without encryption can fail: a frame of 14 bytes, tagged to 18, arrives as the
      compressed bytes. */
  lemma ShortcutCanAlter(seeds: nat -> nat)
    ensures var ts := Built(Some(TAGGING), None);
      var frame: seq<byte> := [2, 0, 0, 0, 0, 0, 0, 0, 0, 0, 0, 0, 8, 0];
      Lawful(TAGGING) && Tagged(TAGGING, ZSTD_MAGIC)
      && Forward(ts, frame, seeds).Ok? && DataToTap(ts, Forward(ts, frame, seeds).value) != Ok(Pad60(frame))
  {
    var ts := Built(Some(TAGGING), None);
    var frame: seq<byte> := [2, 0, 0, 0, 0, 0, 0, 0, 0, 0, 0, 0, 8, 0];
    TaggingIsLawful();
    StationsAreUntagged(frame);
    assert ts == [TAGGING] && ts[..0] == [];
    assert Forward(ts[..0], frame, seeds) == Ok(frame);
    assert Forward(ts, frame, seeds) == Ok(ZSTD_MAGIC + frame);
    BuiltDeliversExactly(Some(TAGGING), None, frame, seeds);
  }

  // ---------------------------------------------------------------------------
  // Receiving into a reused buffer
  // ---------------------------------------------------------------------------

  /** The receiving edge: its address, its pipeline, and whether the fast path is on. The check of
      the sender's socket on the fast path is switched off by a constant in the program. */
  datatype Receiver = Receiver(mac: seq<byte>, ts: seq<Transform>, vfuze: bool)

  /** What one received datagram leads to: a frame for TAP, a control message for another handler,
      nothing, or a slice out of range. */
  datatype Outcome = ToTap(frame: seq<byte>) | Control(header: Header, payload: seq<byte>) | Dropped | OutOfRange

  function FromData(r: Result<seq<byte>>): Outcome {
    if r.Ok? then ToTap(r.value) else Dropped
  }

  /** The first `n` bytes of the buffer are the datagram; the rest is left over from earlier ones. */
  function Demux(e: Receiver, buf: seq<byte>, n: nat): Outcome
    requires |buf| >= 30 && n <= |buf|
  {
    if buf[0] == VFUZE_VERSION then
      var dst := VFuzeDest(buf);
      if !e.vfuze || dst.Err? || dst.value != e.mac then Dropped
      else if n < VFUZE_SIZE then OutOfRange
      else FromData(DataToTap(e.ts, buf[VFUZE_SIZE..n]))
    else if n < HEADER_SIZE then Dropped
    else
      match Unpack(buf[..n])
      case Err(_) => Dropped
      case Ok((h, payload)) => if h.packetType == TYPE_DATA then FromData(DataToTap(e.ts, payload)) else Control(h, payload)
  }

  /** The buffer after reading a datagram; what does not fit is cut off. */
  function Filled(buf: seq<byte>, datagram: seq<byte>): (r: (seq<byte>, nat))
    ensures |r.0| == |buf| && r.1 <= |buf|
  {
    if |datagram| <= |buf| then (datagram + buf[|datagram|..], |datagram|) else (datagram[..|buf|], |buf|)
  }

  /** The same decision from the datagram alone, with no buffer. */
  function DemuxAlone(e: Receiver, d: seq<byte>): Outcome {
    if |d| >= VFUZE_SIZE && d[0] == VFUZE_VERSION then
      if !e.vfuze || d[1..7] != e.mac then Dropped else FromData(DataToTap(e.ts, d[VFUZE_SIZE..]))
    else
      match Unpack(d)
      case Err(_) => Dropped
      case Ok((h, payload)) => if h.packetType == TYPE_DATA then FromData(DataToTap(e.ts, payload)) else Control(h, payload)
  }

  function Cut(d: seq<byte>, size: nat): seq<byte> {
    if |d| <= size then d else d[..size]
  }

  /** What a datagram leads to, given what the buffer held before. */
  function Received(e: Receiver, buf: seq<byte>, d: seq<byte>): Outcome
    requires |buf| >= 30
  {
    Demux(e, Filled(buf, d).0, Filled(buf, d).1)
  }

  /** A datagram that ends before the payload of a fast-path packet and is, as far as it goes, the
      beginning of one to this edge. */
  predicate CutShort(e: Receiver, d: seq<byte>) {
    && e.vfuze && |e.mac| == 6 && |d| < VFUZE_SIZE
    && (d == [] || (d[0] == VFUZE_VERSION && d[1..] == e.mac[..|d| - 1]))
  }

  /** Any other datagram, cut to what fits, is handled as if it had a buffer of its own. */
  lemma NoLeftovers(e: Receiver, buf: seq<byte>, d: seq<byte>)
    requires |buf| >= 30 && !CutShort(e, d)
    ensures Received(e, buf, d) == DemuxAlone(e, Cut(d, |buf|)) != OutOfRange
  {
    var (b, n) := Filled(buf, d);
    var c := Cut(d, |buf|);
    assert b[..n] == c;
    if |d| >= VFUZE_SIZE {
      assert b[0] == d[0] && b[1..7] == c[1..7] && b[VFUZE_SIZE..n] == c[VFUZE_SIZE..];
    } else if d != [] {
      assert b[0] == d[0];
      assert b[1..7][..|d| - 1] == d[1..];
    }
  }

  /** With a datagram that is cut short the outcome depends on the buffer. */
  lemma CutShortSeesLeftovers(e: Receiver, d: seq<byte>, size: nat) returns (buf: seq<byte>, buf': seq<byte>)
    requires size >= 30 && CutShort(e, d)
    ensures |buf| == |buf'| == size && Received(e, buf, d) == OutOfRange && Received(e, buf', d) == Dropped
  {
    buf := [VFUZE_VERSION] + e.mac + seq(size - 7, _ => 0);
    var last: byte := if e.mac[5] == 0 then 1 else 0;
    buf' := buf[6 := last];
    assert Filled(buf, d).0 == buf by { assert buf[..|d|] == d; }
    assert Filled(buf', d).0 == buf' by { assert buf'[..|d|] == d; }
    assert buf[1..7] == e.mac;
    assert buf'[1..7][5] == last;
  }

  /** Exactly which datagrams see what the buffer held before: the outcome is the same for all
      buffers of a size if and only if the datagram is not cut short. */
  lemma LeftoversExactly(e: Receiver, d: seq<byte>, size: nat)
    requires size >= 30
    ensures (forall buf: seq<byte>, buf': seq<byte> :: |buf| == size && |buf'| == size ==>
               Received(e, buf, d) == Received(e, buf', d))
       <==> !CutShort(e, d)
  {
    if CutShort(e, d) {
      var buf, buf' := CutShortSeesLeftovers(e, d, size);
      assert Received(e, buf, d) != Received(e, buf', d);
    } else {
      forall buf: seq<byte>, buf': seq<byte> | |buf| == size && |buf'| == size
        ensures Received(e, buf, d) == Received(e, buf', d)
      {
        NoLeftovers(e, buf, d);
        NoLeftovers(e, buf', d);
      }
    }
  }

  method Read(buf: array<byte>, datagram: seq<byte>) returns (n: nat)
    modifies buf
    ensures (buf[..], n) == Filled(old(buf[..]), datagram)
  {
    n := if |datagram| <= buf.Length then |datagram| else buf.Length;
    var i := 0;
    while i < n
      invariant 0 <= i <= n
      invariant forall k :: 0 <= k < buf.Length ==> buf[k] == if k < i then datagram[k] else old(buf[k])
    {
      buf[i] := datagram[i];
      i := i + 1;
    }
    assert buf[..] == Filled(old(buf[..]), datagram).0;
  }

  /** One turn of the receive loop. */
  method Receive(e: Receiver, buf: array<byte>, datagram: seq<byte>) returns (o: Outcome)
    requires buf.Length >= 30
    modifies buf
    ensures o == Received(e, old(buf[..]), datagram)
  {
    var n := Read(buf, datagram);
    if buf[0] == VFUZE_VERSION {
      var dst := VFuzeDest(buf[..]);
      if !e.vfuze || dst.Err? || dst.value != e.mac { return Dropped; }
      if n < VFUZE_SIZE { return OutOfRange; }
      var r := HandleDataPayload(e.ts, buf[VFUZE_SIZE..n]);
      assert buf[VFUZE_SIZE..n] == buf[..][VFUZE_SIZE..n];
      return FromData(r);
    }
    if n < HEADER_SIZE { return Dropped; }
    assert buf[..n] == buf[..][..n];
    match Unpack(buf[..n]) {
      case Err(_) => return Dropped;
      case Ok((h, payload)) =>
        if h.packetType != TYPE_DATA { return Control(h, payload); }
        var r := HandleDataPayload(e.ts, payload);
        return FromData(r);
    }
  }

  /** The receive loop over a whole list of datagrams, one buffer for all; a slice out of range
      ends it. Every datagram that is not cut short is handled as if it had a buffer of its own. */
  method ReceiveAll(e: Receiver, buf: array<byte>, datagrams: seq<seq<byte>>) returns (outcomes: seq<Outcome>)
    requires buf.Length >= 30
    modifies buf
    ensures |outcomes| <= |datagrams|
    ensures |outcomes| < |datagrams| ==>
      outcomes != [] && outcomes[|outcomes| - 1] == OutOfRange && CutShort(e, datagrams[|outcomes| - 1])
    ensures forall i :: 0 <= i < |outcomes| && !CutShort(e, datagrams[i]) ==>
      outcomes[i] == DemuxAlone(e, Cut(datagrams[i], buf.Length))
  {
    hide Received, DemuxAlone;
    outcomes := [];
    while |outcomes| < |datagrams|
      invariant |outcomes| <= |datagrams|
      invariant forall i :: 0 <= i < |outcomes| && !CutShort(e, datagrams[i]) ==>
        outcomes[i] == DemuxAlone(e, Cut(datagrams[i], buf.Length))
    {
      var d := datagrams[|outcomes|];
      if !CutShort(e, d) { NoLeftovers(e, buf[..], d); }
      var o := Receive(e, buf, d);
      outcomes := outcomes + [o];
      if o == OutOfRange { return; }
    }
  }

  // ---------------------------------------------------------------------------
  // End to end
  // ---------------------------------------------------------------------------

  /** The sending edge's header fields. */
  datatype Sender = Sender(mac: seq<byte>, community: u32, sequence: u16, timestamp: u32)

  function DataHeader(s: Sender, dst: seq<byte>): Header
    requires |s.mac| >= 6 && |dst| >= 6
  {
    Header(VERSION, 64, TYPE_DATA, 0, s.sequence, s.community, s.mac[..6], dst[..6], s.timestamp, 0)
  }

  predicate IsBroadcast(dst: seq<byte>) {
    |dst| >= 6 && dst[..6] == [255, 255, 255, 255, 255, 255]
  }

  /** The datagram for a frame: the fast path when it is on and the destination is not broadcast,
      the full header otherwise. */
  function Datagram(s: Sender, vfuze: bool, frame: seq<byte>, payload: seq<byte>): Packet
    requires |s.mac| >= 6 && |frame| >= 14
  {
    var dst := frame[..6];
    if vfuze && !IsBroadcast(dst) then VFuzePacket(dst, payload) else Pack(DataHeader(s, dst), payload)
  }

  /** The datagram byte by byte. The fast path is taken if and only if it is on and some byte of the
      destination is not 255. */
  lemma DatagramExactly(s: Sender, vfuze: bool, frame: seq<byte>, payload: seq<byte>)
    requires |s.mac| >= 6 && |frame| >= 14
    ensures var d := Datagram(s, vfuze, frame, payload);
      if vfuze && exists i :: 0 <= i < 6 && frame[i] != 255 then d == [0x51] + frame[..6] + payload
      else && |d| == 30 + |payload| && d[30..] == payload
           && d[0] == 5 && d[1] == 64 && d[2] == 4 && d[3] == 0
           && d[4] as int * 0x100 + d[5] == s.sequence
           && d[6] as int * 0x100_0000 + d[7] as int * 0x1_0000 + d[8] as int * 0x100 + d[9] == s.community
           && d[10..16] == s.mac[..6] && d[16..22] == frame[..6]
           && d[22] as int * 0x100_0000 + d[23] as int * 0x1_0000 + d[24] as int * 0x100 + d[25] == s.timestamp
           && d[26] == d[27] == d[28] == d[29] == 0
  {
    var dst := frame[..6];
    assert dst[..6] == dst;
    BroadcastIs(dst);
    if !vfuze || IsBroadcast(dst) {
      var h := DataHeader(s, dst);
      var b := PackHeader(h);
      assert Datagram(s, vfuze, frame, payload) == b + payload;
      Layout(h);
      hide PackHeader, IsBroadcast;
      assert (b + payload)[10..16] == b[10..16] && (b + payload)[16..22] == b[16..22];
    }
  }

  lemma BroadcastIs(dst: seq<byte>)
    requires |dst| == 6
    ensures IsBroadcast(dst) <==> forall i :: 0 <= i < 6 ==> dst[i] == 255
  {
    assert dst[..6] == dst;
  }

  /** What arrives for what was sent: the same bytes, or what the supernode makes of them. */
  function OnTheWire(p: Packet, relayed: bool): Result<seq<byte>> {
    if relayed then Outgoing(p) else Ok(p)
  }

  /** A frame sent through a robust pipeline, directly or as the supernode relays it, arrives at the
      edge it is meant for as the original frame padded to 60 bytes, whatever the receive buffer
      held before. */
  lemma WireToTap(
    s: Sender, vfuze: bool, ts: seq<Transform>, frame: seq<byte>, seeds: nat -> nat, relayed: bool,
    e: Receiver, buf: seq<byte>)
    requires |s.mac| >= 6 && |frame| >= 14 && Robust(ts) && Forward(ts, frame, seeds).Ok?
    requires e.ts == ts && (vfuze && !IsBroadcast(frame[..6]) ==> e.vfuze && e.mac == frame[..6])
    requires |buf| >= 30
    requires |Datagram(s, vfuze, frame, Forward(ts, frame, seeds).value)| <= |buf|
    ensures var w := OnTheWire(Datagram(s, vfuze, frame, Forward(ts, frame, seeds).value), relayed);
      w.Ok? && Received(e, buf, w.value) == ToTap(Pad60(frame))
  {
    var payload := Forward(ts, frame, seeds).value;
    RobustDelivers(ts, frame, seeds);
    var p := Datagram(s, vfuze, frame, payload);
    if vfuze && !IsBroadcast(frame[..6]) {
      VFuzeRoundTrip(frame[..6], payload);
      assert OnTheWire(p, relayed) == Ok(p);
      assert p[1..7] == frame[..6];
      NoLeftovers(e, buf, p);
    } else {
      RelayedKeepsPayload(DataHeader(s, frame[..6]), payload, relayed);
      NoLeftovers(e, buf, OnTheWire(p, relayed).value);
    }
  }

  lemma RelayedKeepsPayload(h: Header, payload: seq<byte>, relayed: bool)
    requires Sized(h) && h.version == VERSION && h.packetType == TYPE_DATA
    ensures var w := OnTheWire(Pack(h, payload), relayed);
      && w.Ok? && |w.value| == |Pack(h, payload)| && w.value[0] == VERSION
      && Unpack(w.value).Ok? && Unpack(w.value).value.0.packetType == TYPE_DATA && Unpack(w.value).value.1 == payload
  {
    UnpackPack(h, payload);
    var h' := h.(flags := SetFromSupernode(h.flags));
    UnpackPack(h', payload);
  }

  /** Some packet sent goes to this member and arrives there as the frame. */
  ghost predicate Reaches(out: seq<Sent<seq<byte>>>, to: Mac, e: Receiver, buf: seq<byte>, frame: seq<byte>)
    requires |buf| >= 30
  {
    exists i :: 0 <= i < |out| && out[i].to == to && Received(e, buf, out[i].packet) == ToTap(Pad60(frame))
  }

  /** End to end past the supernode. In every reachable state, a frame that a live member sends with
      the full header reaches its destination if that is a live member, and otherwise every other
      live member, as the original frame padded to 60 bytes. */
  lemma EndToEnd(
    env: Env, steps: seq<Step>, node: Node, s: Sender, ts: seq<Transform>, frame: seq<byte>, seeds: nat -> nat,
    payload: seq<byte>, up: Transport, out: seq<Sent<seq<byte>>>, to: Mac, e: Receiver, buf: seq<byte>)
    requires DerivesStations(env) && node == Run(env, EMPTY_NODE, steps)
    requires |s.mac| == 6 && Member(node, s.community, Mac(s.mac))
    requires |frame| >= 14 && Robust(ts) && Forward(ts, frame, seeds) == Ok(payload)
    requires IsRelay(node, Datagram(s, false, frame, payload), up, out)
    requires if Member(node, s.community, MacOf(frame[..6])) then to == MacOf(frame[..6])
             else to in Live(node, s.community) && to != Mac(s.mac)
    requires e.ts == ts && |buf| >= 30 && |Datagram(s, false, frame, payload)| <= |buf|
    ensures Reaches(out, to, e, buf, frame)
  {
    hide *;
    MembersAreStations(env, steps, s.community, Mac(s.mac));
    StationMac(s.mac);
    WireToTap(s, false, ts, frame, seeds, true, e, buf);
    Through(node, s, frame, payload, up, out, to, e, buf);
  }

  lemma StationMac(six: seq<byte>)
    requires IsStation(Mac(six))
    ensures MacOf(six) == Mac(six)
  {}

  /** What relaying adds to the way from wire to TAP. */
  lemma Through(
    node: Node, s: Sender, frame: seq<byte>, payload: seq<byte>, up: Transport, out: seq<Sent<seq<byte>>>, to: Mac,
    e: Receiver, buf: seq<byte>)
    requires |s.mac| == 6 && MacOf(s.mac) == Mac(s.mac) && Member(node, s.community, Mac(s.mac)) && |frame| >= 14
    requires IsRelay(node, Datagram(s, false, frame, payload), up, out)
    requires if Member(node, s.community, MacOf(frame[..6])) then to == MacOf(frame[..6])
             else to in Live(node, s.community) && to != Mac(s.mac)
    requires |buf| >= 30
    requires var w := OnTheWire(Datagram(s, false, frame, payload), true);
      w.Ok? && Received(e, buf, w.value) == ToTap(Pad60(frame))
    ensures Reaches(out, to, e, buf, frame)
  {
    var packet := Datagram(s, false, frame, payload);
    hide Received, Datagram, RouteOf, IsRelay, Outgoing;
    DatagramRoute(s, frame, payload);
    var i := RelayReaches(node, packet, up, out, to);
  }

  /** A relayed packet is among those sent to each of its targets. */
  lemma RelayReaches(node: Node, packet: Packet, up: Transport, out: seq<Sent<seq<byte>>>, to: Mac) returns (i: nat)
    requires IsRelay(node, packet, up, out) && RouteOf(packet).Some?
    requires var r := RouteOf(packet).value;
      && Member(node, r.hash, r.src)
      && (if Member(node, r.hash, r.dst) then to == r.dst else to in Live(node, r.hash) && to != r.src)
    ensures i < |out| && out[i].to == to && Outgoing(packet).Ok? && out[i].packet == Outgoing(packet).value
  {
    PackUnpack(packet);
    FlaggingIsExact(packet);
    var r := RouteOf(packet).value;
    if Member(node, r.hash, r.dst) {
      i := 0;
    } else {
      var others := Live(node, r.hash) - {r.src};
      assert IsFanOut(out, r.hash, others, Outgoing(packet).value) && to in others;
      i :| 0 <= i < |out| && out[i].to == to;
    }
  }

  lemma DatagramRoute(s: Sender, frame: seq<byte>, payload: seq<byte>)
    requires |s.mac| == 6 && |frame| >= 14
    ensures RouteOf(Datagram(s, false, frame, payload)) == Some(Route(s.community, MacOf(s.mac), MacOf(frame[..6])))
  {
    UnpackPack(DataHeader(s, frame[..6]), payload);
    assert s.mac[..6] == s.mac && frame[..6][..6] == frame[..6];
  }

  /** End to end on the fast path. After an accepted registration, as long as nothing happens to the
      socket it came from, a frame sent from that socket to a live member of that community reaches
      the member. */
  lemma EndToEndFast(
    env: Env, steps: seq<Step>, i: nat, s: Sender, ts: seq<Transform>, frame: seq<byte>, seeds: nat -> nat,
    from: string, out: seq<Sent<seq<byte>>>, e: Receiver, buf: seq<byte>)
    requires i < |steps| && steps[i].RegisterStep? && Joined(env, At(env, steps, i), steps[i]).Some?
    requires ComesFrom(env, steps[i].reg, from)
    requires forall j :: i < j < |steps| ==> !Files(env, steps, j, from) && !Frees(env, steps, j, from)
    requires |s.mac| >= 6 && |frame| >= 14 && Robust(ts) && Forward(ts, frame, seeds).Ok? && !IsBroadcast(frame[..6])
    requires MemberAt(env, steps, |steps|, EdgeId(steps[i].reg.hash, Mac(frame[..6])))
    requires IsFastRelay(env, At(env, steps, |steps|),
                         Datagram(s, true, frame, Forward(ts, frame, seeds).value), from, true, out)
    requires e.ts == ts && e.vfuze && e.mac == frame[..6]
    requires |buf| >= 30 && |Datagram(s, true, frame, Forward(ts, frame, seeds).value)| <= |buf|
    ensures Reaches(out, Mac(frame[..6]), e, buf, frame)
  {
    hide Run, Joined, Files, Frees, Received;
    SocketStays(env, steps, |steps|, i, from);
    FastReaches(env, At(env, steps, |steps|), s, ts, frame, seeds, from, out, e, buf);
  }

  lemma FastReaches(
    env: Env, node: Node, s: Sender, ts: seq<Transform>, frame: seq<byte>, seeds: nat -> nat,
    from: string, out: seq<Sent<seq<byte>>>, e: Receiver, buf: seq<byte>)
    requires |s.mac| >= 6 && |frame| >= 14 && Robust(ts) && Forward(ts, frame, seeds).Ok? && !IsBroadcast(frame[..6])
    requires IsFastRelay(env, node, Datagram(s, true, frame, Forward(ts, frame, seeds).value), from, true, out)
    requires from in node.sockets && Mac(frame[..6]) in LiveIn(env, node, node.sockets[from])
    requires e.ts == ts && e.vfuze && e.mac == frame[..6]
    requires |buf| >= 30 && |Datagram(s, true, frame, Forward(ts, frame, seeds).value)| <= |buf|
    ensures Reaches(out, Mac(frame[..6]), e, buf, frame)
  {
    WireToTap(s, true, ts, frame, seeds, false, e, buf);
    var packet := Datagram(s, true, frame, Forward(ts, frame, seeds).value);
    VFuzeRoundTrip(frame[..6], Forward(ts, frame, seeds).value);
    assert frame[..6][..6] == frame[..6];
    hide Received;
    assert out[0].to == Mac(frame[..6]) && out[0].packet == packet;
  }

  /** Who a frame is for, and what it takes to receive it. */
  ghost predicate Expects(
    node: Node, s: Sender, ts: seq<Transform>, frame: seq<byte>, size: nat, to: Mac, e: Receiver, buf: seq<byte>)
    requires |frame| >= 14
  {
    && (if Member(node, s.community, MacOf(frame[..6])) then to == MacOf(frame[..6])
        else to in Live(node, s.community) && to != Mac(s.mac))
    && e.ts == ts && |buf| >= 30 && size <= |buf|
  }

  /** The object from any valid state: it handles any list of messages and then relays the datagram
      of a member, and every edge the frame is for receives it. */
  method HandleThenRelay(
    sn: Supernode, msgs: seq<Message>, s: Sender, ts: seq<Transform>, frame: seq<byte>, ghost seeds: nat -> nat,
    payload: seq<byte>, up: Transport) returns (out: seq<Sent<seq<byte>>>)
    requires sn.Valid() && NoneCollides(sn.env, sn.view.node, msgs) && DerivesStations(sn.env)
    requires |s.mac| == 6 && |frame| >= 14 && Robust(ts) && Forward(ts, frame, seeds) == Ok(payload)
    modifies sn, sn.dir.edgesByMac.Values
    ensures sn.Valid()
    ensures Member(sn.view.node, s.community, Mac(s.mac)) ==>
      forall to, e, buf :: Expects(sn.view.node, s, ts, frame, |Datagram(s, false, frame, payload)|, to, e, buf) ==>
        Reaches(out, to, e, buf, frame)
  {
    hide IsTrace, HandlesAll, NoneCollides, Run, IsRelay, Robust, Forward, Datagram, Reaches, DerivesStations;
    ghost var _ := sn.HandleAll(msgs);
    var packet := Datagram(s, false, frame, payload);
    out := ForwardWithFallback(sn, packet, up);
    if Member(sn.view.node, s.community, Mac(s.mac)) {
      forall to, e, buf | Expects(sn.view.node, s, ts, frame, |packet|, to, e, buf)
        ensures Reaches(out, to, e, buf, frame)
      {
        EndToEnd(sn.env, sn.history, sn.view.node, s, ts, frame, seeds, payload, up, out, to, e, buf);
      }
    }
  }
}
