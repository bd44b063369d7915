/** The 24-byte frame header and the frame codec of `labztna/protocol.py`. */
module Frames {
  import opened Wrappers
  import opened Bytes

  const MAGIC: bytes := [0x5A, 0x54, 0x4C, 0x31] // "ZTL1"
  const VERSION: byte := 1
  const HEADER_SIZE := 24
  const MAX_PAYLOAD := 64 * 1024
  const MAX_FRAME := HEADER_SIZE + MAX_PAYLOAD
  const FLAG_FIN := 1
  const FLAG_RST := 2

  datatype FrameType = TcpOpen | TcpData | L3Data | Ping | Pong | Close

  /** One constructor for each `ProtocolError` message of the source. */
  datatype ProtocolError =
    | PayloadExceedsLimit | SequenceOutOfRange | StreamIdOutOfRange | UnsupportedFlags
    | ControlOffStreamZero | DataOnStreamZero | FlagsNotPermitted | FinWithRst | ResetWithPayload
    | TruncatedFrame | UnsupportedFrame | InvalidLength | UnknownType
    | SequenceGap | AfterClose | StreamClosed | AlreadyOpen | NotOpen | MixedStream
    | FrameLimit | BufferLimit | TruncatedEnd | UnclosedStream
    | ControlPayloadLimit | NotControl | InvalidControl
    | PacketTooLarge | NotIpv4 | TruncatedPacket | InvalidPacketLength | ExpectedL3

  /** The fields hold whatever the caller supplied; `Encode` checks their ranges. */
  datatype Frame = Frame(kind: FrameType, sequence: int, payload: bytes, streamId: int, flags: int) {
    /** `flags & FLAG_FIN` and `flags & FLAG_RST`, for the flags `Encode` lets through. */
    predicate Fin() { flags % 2 == 1 }
    predicate Rst() { flags / 2 % 2 == 1 }
    predicate Ends() { Fin() || Rst() }
    predicate Control() { kind in {Ping, Pong, Close} }
  }

  function TypeCode(k: FrameType): byte {
    match k
    case TcpOpen => 1
    case TcpData => 2
    case L3Data => 3
    case Ping => 4
    case Pong => 5
    case Close => 6
  }

  function TypeOf(code: byte): Option<FrameType> {
    match code
    case 1 => Some(TcpOpen)
    case 2 => Some(TcpData)
    case 3 => Some(L3Data)
    case 4 => Some(Ping)
    case 5 => Some(Pong)
    case 6 => Some(Close)
    case _ => None
  }

  function SemanticError(f: Frame): Option<ProtocolError> {
    if f.Control() then
      if f.streamId != 0 || f.flags != 0 then Some(ControlOffStreamZero) else None
    else if f.streamId == 0 then Some(DataOnStreamZero)
    else if f.kind in {TcpOpen, L3Data} && f.flags != 0 then Some(FlagsNotPermitted)
    else if f.kind == TcpData && f.flags == FLAG_FIN + FLAG_RST then Some(FinWithRst)
    else if f.kind == TcpData && f.Rst() && f.payload != [] then Some(ResetWithPayload)
    else None
  }

  function Header(kind: FrameType, flags: nat, streamId: nat, sequence: nat, length: nat): (h: bytes)
    ensures |h| == HEADER_SIZE
  {
    MAGIC + [VERSION, TypeCode(kind)] + ToBE(flags, 2) + ToBE(streamId, 4) + ToBE(sequence, 8) + ToBE(length, 4)
  }

  function Encode(f: Frame): Result<bytes, ProtocolError> {
    if |f.payload| > MAX_PAYLOAD then Err(PayloadExceedsLimit)
    else if !(0 <= f.sequence <= 0xFFFF_FFFF_FFFF_FFFF) then Err(SequenceOutOfRange)
    else if !(0 <= f.streamId <= 0xFFFF_FFFF) then Err(StreamIdOutOfRange)
    else if !(0 <= f.flags <= 3) then Err(UnsupportedFlags)
    else if SemanticError(f).Some? then Err(SemanticError(f).value)
    else Ok(Header(f.kind, f.flags, f.streamId, f.sequence, |f.payload|) + f.payload)
  }

  /** A frame `Encode` accepts. */
  predicate Valid(f: Frame) { Encode(f).Ok? }

  function Encoded(f: Frame): (b: bytes)
    requires Valid(f)
    ensures |b| == HEADER_SIZE + |f.payload|
  {
    Encode(f).value
  }

  /** Exactly which frames encode, kind by kind. */
  lemma ValidExact(f: Frame)
    ensures Valid(f) <==>
      && |f.payload| <= 65_536
      && 0 <= f.sequence < 0x1_0000_0000_0000_0000 && 0 <= f.streamId < 0x1_0000_0000
      && match f.kind
         case TcpOpen => f.streamId != 0 && f.flags == 0
         case L3Data => f.streamId != 0 && f.flags == 0
         case TcpData => f.streamId != 0 && (f.flags == 0 || f.flags == 1 || (f.flags == 2 && f.payload == []))
         case _ => f.streamId == 0 && f.flags == 0
  {
  }

  /** The base-256 digits of `n`, most significant first. */
  predicate Digits(b: bytes, n: nat) { forall i | 0 <= i < |b| :: b[i] == n / Pow256(|b| - 1 - i) % 256 }

  /** The header on the wire, byte by byte: `ZTL1`, version 1, type, and flags, stream,
      sequence and length, each most significant byte first; then the payload. */
  lemma WireLayout(f: Frame)
    requires Valid(f)
    ensures var b := Encoded(f);
      && b[..5] == [0x5A, 0x54, 0x4C, 0x31, 1]
      && b[5] == (match f.kind case TcpOpen => 1 case TcpData => 2 case L3Data => 3 case Ping => 4 case Pong => 5 case Close => 6)
      && Digits(b[6..8], f.flags) && Digits(b[8..12], f.streamId)
      && Digits(b[12..20], f.sequence) && Digits(b[20..24], |f.payload|)
      && b[24..] == f.payload
  {
    EncodedParts(f);
    hide Encode, Digits;
    FieldDigits(f.flags, 2);
    FieldDigits(f.streamId, 4);
    FieldDigits(f.sequence, 8);
    FieldDigits(|f.payload|, 4);
    assert Encoded(f)[..5] == Encoded(f)[..4] + [Encoded(f)[4]];
  }

  lemma FieldDigits(n: nat, width: nat)
    ensures Digits(ToBE(n, width), n)
  {
    forall i | 0 <= i < width ensures ToBE(n, width)[i] == n / Pow256(width - 1 - i) % 256 {
      ToBEDigit(n, width, i);
    }
  }

  lemma EncodedParts(f: Frame)
    requires Valid(f)
    ensures var b := Encoded(f);
      && b[..4] == MAGIC && b[4] == VERSION && b[5] == TypeCode(f.kind) && b[24..] == f.payload
      && b[6..8] == ToBE(f.flags, 2) && b[8..12] == ToBE(f.streamId, 4)
      && b[12..20] == ToBE(f.sequence, 8) && b[20..24] == ToBE(|f.payload|, 4)
  {
    hide ToBE;
    var (flags, stream, sequence, length) :=
      (ToBE(f.flags, 2), ToBE(f.streamId, 4), ToBE(f.sequence, 8), ToBE(|f.payload|, 4));
    HeaderParts(MAGIC, [VERSION, TypeCode(f.kind)], flags, stream, sequence, length, f.payload);
    assert Encoded(f) == MAGIC + [VERSION, TypeCode(f.kind)] + flags + stream + sequence + length + f.payload;
  }

  /** The header fields at the front of a buffer, as `HEADER.unpack` reads them. */
  predicate Supported(b: bytes) requires |b| >= HEADER_SIZE { b[..4] == MAGIC && b[4] == VERSION }
  function FlagsAt(b: bytes): nat requires |b| >= HEADER_SIZE { FromBE(b[6..8]) }
  function StreamAt(b: bytes): nat requires |b| >= HEADER_SIZE { FromBE(b[8..12]) }
  function SequenceAt(b: bytes): nat requires |b| >= HEADER_SIZE { FromBE(b[12..20]) }
  function LengthAt(b: bytes): nat requires |b| >= HEADER_SIZE { FromBE(b[20..24]) }

  function Decode(b: bytes): Result<Frame, ProtocolError> {
    if |b| < HEADER_SIZE then Err(TruncatedFrame)
    else if !Supported(b) then Err(UnsupportedFrame)
    else if LengthAt(b) > MAX_PAYLOAD || |b| != HEADER_SIZE + LengthAt(b) then Err(InvalidLength)
    else if TypeOf(b[5]).None? then Err(UnknownType)
    else
      var f := Frame(TypeOf(b[5]).value, SequenceAt(b), b[HEADER_SIZE..], StreamAt(b), FlagsAt(b));
      match Encode(f)
      case Ok(_) => Ok(f)
      case Err(e) => Err(e)
  }

  /** Where the parts of a header lie in a buffer that starts with one. */
  lemma HeaderParts(magic: bytes, two: bytes, flags: bytes, stream: bytes, sequence: bytes, length: bytes, tail: bytes)
    requires |magic| == 4 && |two| == 2 && |flags| == 2 && |stream| == 4 && |sequence| == 8 && |length| == 4
    ensures var b := magic + two + flags + stream + sequence + length + tail;
      && b[..4] == magic && b[4] == two[0] && b[5] == two[1] && b[6..8] == flags && b[8..12] == stream
      && b[12..20] == sequence && b[20..24] == length && b[24..] == tail
  {
  }

  lemma HeaderPartsJoin(b: bytes)
    requires |b| >= HEADER_SIZE
    ensures b[..4] + [b[4], b[5]] + b[6..8] + b[8..12] + b[12..20] + b[20..24] + b[24..] == b
  {
  }

  /** Reading the header of an encoding gives back the frame's own fields,
      whatever follows the encoding in the buffer. */
  lemma HeaderRoundTrip(f: Frame, tail: bytes)
    requires Valid(f)
    ensures var b := Encoded(f) + tail;
      && Supported(b) && TypeOf(b[5]) == Some(f.kind) && FlagsAt(b) == f.flags && StreamAt(b) == f.streamId
      && SequenceAt(b) == f.sequence && LengthAt(b) == |f.payload| <= MAX_PAYLOAD
  {
    var (flags, stream, sequence, length) :=
      (ToBE(f.flags, 2), ToBE(f.streamId, 4), ToBE(f.sequence, 8), ToBE(|f.payload|, 4));
    assert FromBE(flags) == f.flags && FromBE(stream) == f.streamId
        && FromBE(sequence) == f.sequence && FromBE(length) == |f.payload| by {
      Widths();
      FromToBE(f.flags, 2); FromToBE(f.streamId, 4); FromToBE(f.sequence, 8); FromToBE(|f.payload|, 4);
    }
    HeaderParts(MAGIC, [VERSION, TypeCode(f.kind)], flags, stream, sequence, length, f.payload + tail);
    assert Encoded(f) + tail ==
      MAGIC + [VERSION, TypeCode(f.kind)] + flags + stream + sequence + length + (f.payload + tail);
  }

  /** Decoding undoes encoding on every frame that `Encode` accepts. */
  lemma DecodeEncode(f: Frame)
    requires Encode(f).Ok?
    ensures Decode(Encode(f).value) == Ok(f)
  {
    var b := Encoded(f);
    HeaderRoundTrip(f, []);
    assert b + [] == b;
    assert b[HEADER_SIZE..] == f.payload;
  }

  /** Encoding undoes decoding on every byte string that `Decode` accepts. */
  lemma EncodeDecode(b: bytes)
    requires Decode(b).Ok?
    ensures Encode(Decode(b).value) == Ok(b)
  {
    var f := Decode(b).value;
    var (flags, stream, sequence, length) := (b[6..8], b[8..12], b[12..20], b[20..24]);
    assert ToBE(f.flags, 2) == flags && ToBE(f.streamId, 4) == stream
        && ToBE(f.sequence, 8) == sequence && ToBE(|f.payload|, 4) == length by {
      ToFromBE(flags); ToFromBE(stream); ToFromBE(sequence); ToFromBE(length);
    }
    hide ToBE, FromBE, FlagsAt, StreamAt, SequenceAt, LengthAt, SemanticError;
    HeaderPartsJoin(b);
    assert TypeCode(f.kind) == b[5];
  }

  /** No encoding is a prefix of another, except of itself. */
  lemma PrefixFree(f: Frame, g: Frame)
    requires Valid(f) && Valid(g)
    ensures Encoded(f) <= Encoded(g) ==> f == g
  {
    if Encoded(f) <= Encoded(g) {
      var tail := Encoded(g)[|Encoded(f)|..];
      HeaderRoundTrip(f, tail);
      HeaderRoundTrip(g, []);
      assert Encoded(f) + tail == Encoded(g) + [];
      DecodeEncode(f);
      DecodeEncode(g);
    }
  }

  predicate AllValid(fs: seq<Frame>) { forall f <- fs :: Valid(f) }

  function EncodeAll(fs: seq<Frame>): bytes
    requires AllValid(fs)
  {
    if fs == [] then [] else Encoded(fs[0]) + EncodeAll(fs[1..])
  }

  /** A concatenation of encodings can be cut into frames in one way only. */
  lemma {:induction false} UniqueParse(fs: seq<Frame>, gs: seq<Frame>)
    requires AllValid(fs) && AllValid(gs) && EncodeAll(fs) == EncodeAll(gs)
    ensures fs == gs
  {
    if fs != [] && gs != [] {
      var (a, b) := (Encoded(fs[0]), Encoded(gs[0]));
      var whole := EncodeAll(fs);
      assert a == whole[..|a|] && b == whole[..|b|];
      PrefixFree(fs[0], gs[0]);
      PrefixFree(gs[0], fs[0]);
      assert EncodeAll(fs[1..]) == whole[|a|..] == EncodeAll(gs[1..]);
      UniqueParse(fs[1..], gs[1..]);
      assert fs == [fs[0]] + fs[1..] && gs == [gs[0]] + gs[1..];
    }
  }

  lemma {:induction false} EncodeAllAppend(fs: seq<Frame>, gs: seq<Frame>)
    requires AllValid(fs) && AllValid(gs)
    ensures AllValid(fs + gs) && EncodeAll(fs + gs) == EncodeAll(fs) + EncodeAll(gs)
  {
    if fs == [] {
      assert fs + gs == gs;
    } else {
      EncodeAllAppend(fs[1..], gs);
      assert (fs + gs)[1..] == fs[1..] + gs;
    }
  }
}
