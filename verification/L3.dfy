/** The synthetic L3 path: packets, their frames, the client's and the gateway's
    route checks (`labztna/l3.py` and `_handle_l3`). */
module L3Path {
  import opened Wrappers
  import opened Bytes
  import opened Frames
  import opened StreamMachine
  import opened FrameCodecs
  import opened Ipv4
  import opened RoutePlans
  import opened ResourceIds
  import opened Exchange

  const PACKET_HEADER := 12
  const MAX_PACKET := MAX_PAYLOAD - PACKET_HEADER
  const L3_FRAMES := 2

  datatype L3Packet = L3Packet(source: RawAddress, destination: RawAddress, payload: bytes)

  datatype L3Error = Protocol(error: ProtocolError) | InvalidAddress | OutsidePlan | WrongSource | PlanViolation

  predicate ParsedAddress(a: RawAddress) { a.V4? || a.V6? }

  function EncodePacket(p: L3Packet): Result<bytes, L3Error> {
    if |p.payload| > MAX_PACKET then Err(Protocol(PacketTooLarge))
    else if !ParsedAddress(p.source) || !ParsedAddress(p.destination) then Err(InvalidAddress)
    else if !p.source.V4? || !p.destination.V4? then Err(Protocol(NotIpv4))
    else Ok(ToBE(p.source.n, 4) + ToBE(p.destination.n, 4) + ToBE(|p.payload|, 4) + p.payload)
  }

  function AddressAt(b: bytes): RawAddress
    requires |b| == 4
  {
    Widths();
    V4(FromBE(b))
  }

  function DecodePacket(b: bytes): (r: Result<L3Packet, L3Error>)
    ensures r.Ok? ==> r.value.source.V4? && r.value.destination.V4?
  {
    if |b| < PACKET_HEADER then Err(Protocol(TruncatedPacket))
    else
      var length := FromBE(b[8..12]);
      if length > MAX_PACKET || length != |b| - PACKET_HEADER then Err(Protocol(InvalidPacketLength))
      else Ok(L3Packet(AddressAt(b[..4]), AddressAt(b[4..8]), b[PACKET_HEADER..]))
  }

  /** Every packet that encodes fits a frame, and decoding undoes the encoding. */
  lemma DecodeEncodePacket(p: L3Packet)
    requires EncodePacket(p).Ok?
    ensures |EncodePacket(p).value| <= MAX_PAYLOAD
    ensures DecodePacket(EncodePacket(p).value) == Ok(p)
  {
    var b := EncodePacket(p).value;
    Widths();
    var (source, destination, length) := (ToBE(p.source.n, 4), ToBE(p.destination.n, 4), ToBE(|p.payload|, 4));
    FromToBE(p.source.n, 4); FromToBE(p.destination.n, 4); FromToBE(|p.payload|, 4);
    assert b == source + destination + length + p.payload;
    assert b[..4] == source && b[4..8] == destination && b[8..12] == length && b[12..] == p.payload;
  }

  lemma EncodeDecodePacket(b: bytes)
    requires DecodePacket(b).Ok?
    ensures EncodePacket(DecodePacket(b).value) == Ok(b)
  {
    ToFromBE(b[..4]); ToFromBE(b[4..8]); ToFromBE(b[8..12]);
    assert b == b[..4] + b[4..8] + b[8..12] + b[12..];
  }

  /** A packet on the wire: source, destination and length, most significant byte
      first, then the payload; and exactly which packets encode. */
  lemma PacketLayout(p: L3Packet)
    ensures EncodePacket(p).Ok? <==> |p.payload| <= 65_524 && p.source.V4? && p.destination.V4?
    ensures EncodePacket(p).Ok? ==>
      var b := EncodePacket(p).value;
      && |b| == 12 + |p.payload| && b[12..] == p.payload
      && Digits(b[..4], p.source.n) && Digits(b[4..8], p.destination.n) && Digits(b[8..12], |p.payload|)
  {
    if EncodePacket(p).Ok? {
      var b := EncodePacket(p).value;
      var (source, destination, length) := (ToBE(p.source.n, 4), ToBE(p.destination.n, 4), ToBE(|p.payload|, 4));
      assert b == source + destination + length + p.payload;
      assert b[..4] == source && b[4..8] == destination && b[8..12] == length;
      hide Digits, EncodePacket;
      FieldDigits(p.source.n, 4);
      FieldDigits(p.destination.n, 4);
      FieldDigits(|p.payload|, 4);
    }
  }

  function PacketToFrame(sequence: int, p: L3Packet, plan: RoutePlan): Result<Frame, L3Error> {
    if !ParsedAddress(p.destination) then Err(InvalidAddress)
    else if LongestMatch(plan.routes, p.destination) == None then Err(OutsidePlan)
    else if p.source != V4(plan.virtualIp) then Err(WrongSource)
    else match EncodePacket(p)
      case Err(e) => Err(e)
      case Ok(b) => Ok(Frame(L3Data, sequence, b, 1, 0))
  }

  function FrameToPacket(f: Frame, plan: RoutePlan): Result<L3Packet, L3Error> {
    if f.kind != L3Data then Err(Protocol(ExpectedL3))
    else match DecodePacket(f.payload)
      case Err(e) => Err(e)
      case Ok(p) =>
        if LongestMatch(plan.routes, p.destination) == None || p.source != V4(plan.virtualIp)
        then Err(PlanViolation) else Ok(p)
  }

  /** The frame of an accepted packet encodes for every 64-bit sequence number,
      and `frame_to_packet` gives the packet back from the decoded frame. */
  lemma PacketFrameRoundTrip(sequence: int, p: L3Packet, plan: RoutePlan)
    requires PacketToFrame(sequence, p, plan).Ok? && 0 <= sequence <= 0xFFFF_FFFF_FFFF_FFFF
    ensures var f := PacketToFrame(sequence, p, plan).value;
      Valid(f) && Decode(Encoded(f)) == Ok(f) && FrameToPacket(f, plan) == Ok(p)
  {
    hide LongestMatch, EncodePacket, DecodePacket;
    var f := PacketToFrame(sequence, p, plan).value;
    DecodeEncodePacket(p);
    L3FrameValid(f);
    DecodeEncode(f);
  }

  lemma L3FrameValid(f: Frame)
    requires f.kind == L3Data && f.streamId == 1 && f.flags == 0 && |f.payload| <= MAX_PAYLOAD
    requires 0 <= f.sequence <= 0xFFFF_FFFF_FFFF_FFFF
    ensures Valid(f)
  {
  }

  /** And a frame that yields a packet is one that this packet makes. */
  lemma FramePacketRoundTrip(f: Frame, plan: RoutePlan)
    requires FrameToPacket(f, plan).Ok? && f.streamId == 1 && f.flags == 0
    ensures PacketToFrame(f.sequence, FrameToPacket(f, plan).value, plan) == Ok(f)
  {
    hide LongestMatch, EncodePacket;
    EncodeDecodePacket(f.payload);
  }

  /** Exactly which packets the plan lets out, and which frames it lets in. */
  lemma PermittedExact(sequence: int, p: L3Packet, f: Frame, plan: RoutePlan)
    ensures PacketToFrame(sequence, p, plan).Ok? <==>
      && |p.payload| <= 65_524 && p.source == V4(plan.virtualIp) && p.destination.V4?
      && exists r <- plan.routes :: Contains(r.prefix, p.destination.n)
    ensures FrameToPacket(f, plan).Ok? <==>
      && f.kind == L3Data && DecodePacket(f.payload).Ok?
      && DecodePacket(f.payload).value.source == V4(plan.virtualIp)
      && exists r <- plan.routes :: Contains(r.prefix, DecodePacket(f.payload).value.destination.n)
  {
    hide LongestMatch, Contains, DecodePacket;
    PacketLayout(p);
    if p.destination.V4? {
      LongestMatchBest(plan.routes, p.destination.n);
    }
    var decoded := DecodePacket(f.payload);
    if decoded.Ok? {
      LongestMatchBest(plan.routes, decoded.value.destination.n);
    }
  }

  /** The gateway's own test, against the routes of the one resource it serves. */
  predicate ResourceRoutes(raws: seq<RawRoute>, target: RawAddress) {
    exists raw <- raws :: raw.V4Route? && raw.len <= 32 && target.V4? && Contains(Cut(raw.address, raw.len), target.n)
  }

  method FindRoute(raws: seq<RawRoute>, target: RawAddress) returns (found: bool)
    ensures found == ResourceRoutes(raws, target)
  {
    for i := 0 to |raws|
      invariant !ResourceRoutes(raws[..i], target)
    {
      assert raws[..i + 1] == raws[..i] + [raws[i]];
      var raw := raws[i];
      if raw.V4Route? && raw.len <= 32 && target.V4? && Contains(Cut(raw.address, raw.len), target.n) { return true; }
    }
    assert raws[..|raws|] == raws;
    return false;
  }

  /** What the gateway answers to an L3 connection: an acknowledgement with the
      destination and the payload size, or nothing. */
  datatype L3Answer = NoAnswer | Denied | Acknowledged(destination: Addr, size: nat)

  function AnswerFrame(f: Frame, raws: seq<RawRoute>, virtualIp: Addr): (answer: L3Answer)
    ensures answer.Acknowledged? ==> answer.size <= MAX_PACKET
  {
    if f.kind != L3Data || f.streamId != 1 then NoAnswer
    else match DecodePacket(f.payload)
      case Err(_) => NoAnswer
      case Ok(p) =>
        if ResourceRoutes(raws, p.destination) && p.source == V4(virtualIp)
        then Acknowledged(p.destination.n, |p.payload|) else Denied
  }

  /** The loop of `_handle_l3`: the first complete frame decides. */
  function Answer(d: Decoder, turns: seq<bytes>, raws: seq<RawRoute>, virtualIp: Addr): (answer: L3Answer)
    ensures answer.Acknowledged? ==> answer.size <= MAX_PACKET
    decreases |turns|
  {
    if turns == [] || turns[0] == [] then NoAnswer
    else match FeedResult(d, turns[0], L3_FRAMES)
      case Err(_) => NoAnswer
      case Ok((fs, next)) =>
        if fs == [] then Answer(next, turns[1..], raws, virtualIp) else AnswerFrame(fs[0], raws, virtualIp)
  }

  function Decimal(n: nat): bytes {
    if n < 10 then [0x30 + n] else Decimal(n / 10) + [0x30 + n % 10]
  }

  /** The number that decimal digits stand for. */
  function NumberOf(digits: bytes): int {
    if digits == [] then 0 else 10 * NumberOf(digits[..|digits| - 1]) + digits[|digits| - 1] - 0x30
  }

  /** The text of a number: its decimal digits, without leading zeros. */
  lemma {:induction false} DecimalExact(n: nat)
    ensures var text := Decimal(n);
      && NumberOf(text) == n && (forall c <- text :: 0x30 <= c <= 0x39)
      && |text| >= 1 && (|text| > 1 ==> text[0] != 0x30)
  {
    if n >= 10 {
      DecimalExact(n / 10);
      assert Decimal(n)[..|Decimal(n)| - 1] == Decimal(n / 10);
      assert NumberOf(Decimal(n / 10)) > 0;
      assert Decimal(n / 10) != [0x30] by { assert NumberOf([0x30]) == 0; }
    } else {
      assert Decimal(n)[..0] == [];
    }
  }

  /** The dotted quad of an address. */
  function Dotted(a: Addr): bytes {
    Decimal(a / 0x100_0000) + [0x2E] + Decimal(a / 0x1_0000 % 0x100) + [0x2E]
    + Decimal(a / 0x100 % 0x100) + [0x2E] + Decimal(a % 0x100)
  }

  /** The object of the acknowledgement, and its JSON text with sorted keys. */
  datatype L3Ack = L3Ack(resource: bytes, destination: Addr, size: nat)

  function L3AckText(k: L3Ack): bytes {
    Text("{\"bytes\":") + Decimal(k.size) + Text(",\"destination\":\"") + Dotted(k.destination)
    + Text("\",\"mode\":\"l3\",\"ok\":true,\"resource\":\"") + k.resource + Text("\"}")
  }

  /** All that is used of `json.loads` here: it reads back what `json.dumps` wrote. */
  ghost predicate ReadsAcks(loads: bytes -> Option<L3Ack>) {
    forall k: L3Ack | ResourceId(k.resource) :: loads(L3AckText(k)) == Some(k)
  }

  function AckFrame(k: L3Ack): Frame { Frame(Pong, 0, L3AckText(k), 0, 0) }

  lemma ShortDecimal(n: nat)
    requires n < 100_000
    ensures |Decimal(n)| <= 5
  {
    var (a, b, c) := (n / 10, n / 100, n / 1000);
    assert |Decimal(c)| <= 2 by { assert c / 10 < 10; }
    assert |Decimal(b)| <= 3 by { assert b / 10 == c; }
    assert |Decimal(a)| <= 4 by { assert a / 10 == b; }
  }

  /** The acknowledgement is within the control limit and encodes. */
  lemma AckEncodes(k: L3Ack)
    requires ResourceId(k.resource) && k.size <= MAX_PACKET
    ensures EncodeControl(Pong, 0, L3AckText(k), 0) == Ok(AckFrame(k)) && Valid(AckFrame(k))
  {
    hide Decimal;
    ShortDecimal(k.size);
    var a := k.destination;
    ShortDecimal(a / 0x100_0000); ShortDecimal(a / 0x1_0000 % 0x100); ShortDecimal(a / 0x100 % 0x100); ShortDecimal(a % 0x100);
  }

  /** The bytes the gateway sends. */
  function Reply(answer: L3Answer, id: bytes): bytes
    requires ResourceId(id) && (answer.Acknowledged? ==> answer.size <= MAX_PACKET)
  {
    match answer
    case Acknowledged(destination, size) =>
      var k := L3Ack(id, destination, size);
      AckEncodes(k);
      Encoded(AckFrame(k))
    case _ => []
  }

  method HandleL3(turns: seq<bytes>, raws: seq<RawRoute>, virtualIp: Addr, id: bytes) returns (sent: bytes)
    requires ResourceId(id)
    ensures sent == Reply(Answer(NEW, turns, raws, virtualIp), id)
  {
    hide FeedResult, DecodePacket, ResourceRoutes, L3AckText, Encode;
    var codec := new FrameCodec(L3_FRAMES);
    for i := 0 to |turns|
      invariant codec.maxFrames == L3_FRAMES && fresh(codec)
      invariant Answer(NEW, turns, raws, virtualIp) == Answer(codec.State(), turns[i..], raws, virtualIp)
    {
      var data := turns[i];
      assert turns[i..][0] == data && turns[i..][1..] == turns[i + 1..];
      if data == [] { return []; }
      var frames := codec.Feed(data);
      if frames.Err? { return []; }
      if frames.value == [] { continue; }
      var f := frames.value[0];
      if f.kind != L3Data || f.streamId != 1 { return []; }
      var packet := DecodePacket(f.payload);
      if packet.Err? { return []; }
      var found := FindRoute(raws, packet.value.destination);
      if !found || packet.value.source != V4(virtualIp) { return []; }
      ghost var answer := AnswerFrame(f, raws, virtualIp);
      var k := L3Ack(id, packet.value.destination.n, |packet.value.payload|);
      assert answer == Acknowledged(k.destination, k.size);
      AckEncodes(k);
      return Encoded(EncodeControl(Pong, 0, L3AckText(k), 0).value);
    }
    return [];
  }

  datatype L3ReplyError = TooLarge | BadFraming(error: ProtocolError) | InvalidL3Response

  /** What `send_l3` makes of the gateway's bytes. */
  function AckFrom(framed: bytes, loads: bytes -> Option<L3Ack>): Result<L3Ack, L3ReplyError> {
    if |framed| > MAX_HTTP_RESPONSE then Err(TooLarge)
    else match FeedResult(NEW, framed, L3_FRAMES)
      case Err(e) => Err(BadFraming(e))
      case Ok((fs, d)) =>
        if FinishError(d).Some? then Err(BadFraming(FinishError(d).value))
        else if |fs| != 1 || fs[0].kind != Pong then Err(InvalidL3Response)
        else match DecodeControl(fs[0], loads)
          case Err(e) => Err(BadFraming(e))
          case Ok(k) => Ok(k)
  }

  method ReceiveAck(received: seq<bytes>, loads: bytes -> Option<L3Ack>) returns (r: Result<L3Ack, L3ReplyError>)
    ensures r == AckFrom(Concat(received), loads)
  {
    hide FeedResult, FinishError;
    var all := ReadAll(received);
    if all == None { return Err(TooLarge); }
    var codec := new FrameCodec(L3_FRAMES);
    var frames := codec.Feed(all.value);
    if frames.Err? { return Err(BadFraming(frames.error)); }
    var unfinished := codec.Finish();
    if unfinished.Some? { return Err(BadFraming(unfinished.value)); }
    if |frames.value| != 1 || frames.value[0].kind != Pong { return Err(InvalidL3Response); }
    var k := DecodeControl(frames.value[0], loads);
    return match k case Err(e) => Err(BadFraming(e)) case Ok(v) => Ok(v);
  }

  lemma {:induction false} AnswerOfOne(
    d: Decoder, turns: seq<bytes>, later: seq<bytes>, f: Frame, end: Decoder, raws: seq<RawRoute>, virtualIp: Addr)
    requires [] !in turns && FeedAll(d, turns, L3_FRAMES) == Ok(([f], end))
    ensures Answer(d, turns + later, raws, virtualIp) == AnswerFrame(f, raws, virtualIp)
    decreases |turns|
  {
    hide AnswerFrame, FeedResult;
    assert turns != [];
    assert (turns + later)[0] == turns[0] && (turns + later)[1..] == turns[1..] + later;
    var (fs, next) := FeedResult(d, turns[0], L3_FRAMES).value;
    var rest := FeedAll(next, turns[1..], L3_FRAMES).value;
    assert [f] == fs + rest.0;
    if fs == [] {
      assert [] + rest.0 == rest.0;
      AnswerOfOne(next, turns[1..], later, f, end, raws, virtualIp);
    } else {
      assert fs[0] == (fs + rest.0)[0];
    }
  }

  /** Exactly when the gateway acknowledges a packet, from whatever source and however
      cut: when the resource's routes contain the destination and the source is the
      address of the session. */
  lemma AnswerExact(p: L3Packet, turns: seq<bytes>, later: seq<bytes>, raws: seq<RawRoute>, virtualIp: Addr)
    requires EncodePacket(p).Ok? && [] !in turns
    ensures var f := Frame(L3Data, 0, EncodePacket(p).value, 1, 0);
      && Valid(f)
      && (Concat(turns) == Encoded(f) ==>
          Answer(NEW, turns + later, raws, virtualIp) ==
            if ResourceRoutes(raws, p.destination) && p.source == V4(virtualIp)
            then Acknowledged(p.destination.n, |p.payload|) else Denied)
  {
    hide ResourceRoutes, Encode, Drain, EncodePacket, DecodePacket;
    var f := Frame(L3Data, 0, EncodePacket(p).value, 1, 0);
    PacketLayout(p);
    DecodeEncodePacket(p);
    L3FrameValid(f);
    OneL3Frame(f);
    assert EncodeAll([f]) == Encoded(f) by { assert [f][1..] == []; }
    if Concat(turns) == Encoded(f) {
      AcceptsExactly(turns, L3_FRAMES, [f]);
      AnswerOfOne(NEW, turns, later, f, FeedAll(NEW, turns, L3_FRAMES).value.1, raws, virtualIp);
    }
  }

  /** And a first frame that is no packet on stream 1 gets no answer. */
  lemma OnlyPacketsAnswered(f: Frame, turns: seq<bytes>, later: seq<bytes>, raws: seq<RawRoute>, virtualIp: Addr)
    requires InLanguage([f], L3_FRAMES) && [] !in turns && Valid(f) && Concat(turns) == Encoded(f)
    requires Answer(NEW, turns + later, raws, virtualIp) != NoAnswer
    ensures f.kind == L3Data && f.streamId == 1 && exists p :: EncodePacket(p) == Ok(f.payload)
  {
    hide ResourceRoutes, Encode, Drain, EncodePacket, DecodePacket;
    assert EncodeAll([f]) == Encoded(f) by { assert [f][1..] == []; }
    AcceptsExactly(turns, L3_FRAMES, [f]);
    AnswerOfOne(NEW, turns, later, f, FeedAll(NEW, turns, L3_FRAMES).value.1, raws, virtualIp);
    EncodeDecodePacket(f.payload);
  }

  /** A peer that hangs up before its first frame is complete gets no answer. */
  lemma {:induction false} HangUp(d: Decoder, turns: seq<bytes>, later: seq<bytes>, raws: seq<RawRoute>, virtualIp: Addr)
    requires FeedAll(d, turns, L3_FRAMES).Ok? && FeedAll(d, turns, L3_FRAMES).value.0 == []
    ensures Answer(d, turns + [[]] + later, raws, virtualIp) == NoAnswer
    decreases |turns|
  {
    hide AnswerFrame, FeedResult;
    var all := turns + [[]] + later;
    if turns != [] && turns[0] != [] {
      assert all[0] == turns[0] && all[1..] == turns[1..] + [[]] + later;
      var (fs, next) := FeedResult(d, turns[0], L3_FRAMES).value;
      var rest := FeedAll(next, turns[1..], L3_FRAMES).value;
      assert fs + rest.0 == [];
      HangUp(next, turns[1..], later, raws, virtualIp);
    } else {
      assert all[0] == [];
    }
  }

  /** Exactly what the client takes for an acknowledgement: one PONG frame and nothing
      else, with a text that reads as one. */
  lemma AckExact(framed: bytes, loads: bytes -> Option<L3Ack>, k: L3Ack)
    ensures AckFrom(framed, loads) == Ok(k) <==>
      exists text :: |text| <= 65_536 && loads(text) == Some(k) && framed == Wire(Frame(Pong, 0, text, 0, 0))
  {
    hide Drain, FeedResult;
    OneChunk(framed, L3_FRAMES);
    ConcatOne(framed);
    if AckFrom(framed, loads) == Ok(k) {
      var fs := FeedResult(NEW, framed, L3_FRAMES).value.0;
      AcceptsExactly([framed], L3_FRAMES, fs);
      var f := fs[0];
      assert fs == [f] && f in fs;
      ValidExact(f);
      FirstSequence(f);
      assert f == Frame(Pong, 0, f.payload, 0, 0);
      assert EncodeAll([f]) == Wire(f) by { assert [f][1..] == []; }
    }
    forall text | |text| <= 65_536 && loads(text) == Some(k) && framed == Wire(Frame(Pong, 0, text, 0, 0))
      ensures AckFrom(framed, loads) == Ok(k)
    {
      var f := Frame(Pong, 0, text, 0, 0);
      ValidExact(f);
      OnePong(f);
      assert EncodeAll([f]) == framed by { assert [f][1..] == []; }
      AcceptsExactly([framed], L3_FRAMES, [f]);
    }
  }

  /** The encoding of a frame, if it has one. */
  function Wire(f: Frame): bytes { if Valid(f) then Encoded(f) else [] }

  lemma FirstSequence(f: Frame)
    requires InLanguage([f], L3_FRAMES)
    ensures f.sequence == 0
  {
    hide Encode;
    ProjectSnoc([], f, f.streamId);
    assert [] + [f] == [f] && Project([f], f.streamId) == [f];
    assert StreamComplete(f.streamId, Project([f], f.streamId));
  }

  /** What the client reads from what the gateway sends: the acknowledgement, or
      nothing it accepts. */
  lemma ReplyRead(answer: L3Answer, id: bytes, loads: bytes -> Option<L3Ack>)
    requires ResourceId(id) && (answer.Acknowledged? ==> answer.size <= MAX_PACKET) && ReadsAcks(loads)
    ensures var r := AckFrom(Reply(answer, id), loads);
      if answer.Acknowledged? then r == Ok(L3Ack(id, answer.destination, answer.size)) else r.Err?
  {
    hide Encode, Drain, L3AckText;
    var framed := Reply(answer, id);
    OneChunk(framed, L3_FRAMES);
    ConcatOne(framed);
    if answer.Acknowledged? {
      var k := L3Ack(id, answer.destination, answer.size);
      AckEncodes(k);
      OnePong(AckFrame(k));
      assert EncodeAll([AckFrame(k)]) == framed by { assert [AckFrame(k)][1..] == []; }
      AcceptsExactly([framed], L3_FRAMES, [AckFrame(k)]);
    } else if AckFrom(framed, loads).Ok? {
      AcceptsExactly([framed], L3_FRAMES, FeedResult(NEW, framed, L3_FRAMES).value.0);
    }
  }

  lemma OnePong(f: Frame)
    requires Valid(f) && f.kind == Pong && f.streamId == 0 && f.sequence == 0
    ensures InLanguage([f], L3_FRAMES)
  {
    hide Encode;
    assert [f][..0] == [];
    forall s ensures StreamComplete(s, Project([f], s)) {
    }
  }

  /** End to end: the frame of a packet the client's plan lets through encodes, and
      however it is cut in transit the client gets an acknowledgement exactly when
      the resource's routes contain the destination; then it names the resource,
      the packet's own destination and its size. */
  lemma L3Delivered(
    p: L3Packet, plan: RoutePlan, turns: seq<bytes>, later: seq<bytes>, raws: seq<RawRoute>, id: bytes,
    received: seq<bytes>, loads: bytes -> Option<L3Ack>)
    requires PacketToFrame(0, p, plan).Ok? && [] !in turns && ResourceId(id) && ReadsAcks(loads)
    ensures Valid(PacketToFrame(0, p, plan).value) && p.destination.V4?
    ensures (&& Concat(turns) == Encoded(PacketToFrame(0, p, plan).value)
             && Concat(received) == Reply(Answer(NEW, turns + later, raws, plan.virtualIp), id)) ==>
      var r := AckFrom(Concat(received), loads);
      if ResourceRoutes(raws, p.destination) then r == Ok(L3Ack(id, p.destination.n, |p.payload|)) else r.Err?
  {
    assert p.destination.V4?;
    hide LongestMatch, ResourceRoutes, Encode, Drain, EncodePacket, DecodePacket, AckFrom, Reply;
    PacketFrameRoundTrip(0, p, plan);
    if Concat(turns) == Encoded(PacketToFrame(0, p, plan).value) {
      AnswerExact(p, turns, later, raws, plan.virtualIp);
      ReplyRead(Answer(NEW, turns + later, raws, plan.virtualIp), id, loads);
    }
  }

  lemma OneL3Frame(f: Frame)
    requires Valid(f) && f.kind == L3Data && f.streamId == 1 && f.sequence == 0
    ensures InLanguage([f], L3_FRAMES)
  {
    hide Encode;
    forall s ensures StreamComplete(s, Project([f], s)) {
      ProjectAll([f], s);
    }
  }

  /** For a plan built from a manifest that lists the resource, the gateway's test
      on the resource's routes implies that the client has a route. */
  lemma GatewayRouteImpliesPlanRoute(m: RawManifest, r: RawResource, a: Addr)
    requires Planned(m).Ok? && r in m.resources.value && r.Entry? && r.routes.Some?
    requires ResourceRoutes(r.routes.value, V4(a))
    ensures LongestMatch(Planned(m).value.routes, V4(a)).Some?
  {
    hide Planned, LongestMatch, Contains, Claims;
    PlannedParts(m);
    PlannedExact(m);
    var raw :| raw in r.routes.value && raw.V4Route? && raw.len <= 32 && Contains(Cut(raw.address, raw.len), a);
    ClaimOfRoute(m.resources.value, r, raw);
    var plan := Planned(m).value;
    var route := Route(Cut(raw.address, raw.len), r.id.value, plan.virtualIp);
    assert route in plan.routes;
    LongestMatchBest(plan.routes, a);
  }

  lemma ClaimOfRoute(rs: seq<RawResource>, r: RawResource, raw: RawRoute)
    requires r in rs && WellFormed(r) && raw in r.routes.value && raw.V4Route? && raw.len <= 32
    ensures (Cut(raw.address, raw.len), r.id.value) in Claims(rs)
  {
    hide Multicast, Unspecified, Cut;
    var c := (Cut(raw.address, raw.len), r.id.value);
    assert ParseRoute(raw).Ok?;
    assert c in RouteClaim(raw, r.id.value);
    assert c in RouteClaims(r.routes.value, r.id.value);
    assert c in ResourceClaims(r);
  }

  /** With a single resource the two tests agree. */
  lemma SingleResourceRoutesAgree(m: RawManifest, r: RawResource, a: Addr)
    requires Planned(m).Ok? && m.resources == Some([r]) && r.Entry? && r.routes.Some?
    ensures ResourceRoutes(r.routes.value, V4(a)) <==> LongestMatch(Planned(m).value.routes, V4(a)).Some?
  {
    var plan := Planned(m).value;
    if ResourceRoutes(r.routes.value, V4(a)) {
      GatewayRouteImpliesPlanRoute(m, r, a);
    }
    if LongestMatch(plan.routes, V4(a)).Some? {
      PlannedParts(m);
      PlannedExact(m);
      LongestMatchBest(plan.routes, a);
      var route := LongestMatch(plan.routes, V4(a)).value;
      assert (route.prefix, route.resourceId) in Claims([r]);
      var raw :| raw in r.routes.value && (route.prefix, route.resourceId) in RouteClaim(raw, r.id.value);
      assert Contains(Cut(raw.address, raw.len), a);
    }
  }

  lemma PlannedParts(m: RawManifest)
    requires Planned(m).Ok?
    ensures HeadError(m) == None && PlanDns(m).Ok?
  {
  }
}
