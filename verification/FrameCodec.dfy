/** `FrameCodec`: the incremental decoder, its one-shot reference parse, and the
    proof that cutting the input into chunks changes nothing. */
module FrameCodecs {
  import opened Wrappers
  import opened Bytes
  import opened Frames
  import opened StreamMachine

  /** `_buffer` together with the stream state. */
  datatype Decoder = Decoder(buffer: bytes, machine: Machine)

  type Outcome = Result<(seq<Frame>, Decoder), ProtocolError>

  const NEW := Decoder([], FRESH)

  function Prepend(fs: seq<Frame>, r: Outcome): Outcome {
    match r
    case Err(e) => Err(e)
    case Ok((gs, d)) => Ok((fs + gs, d))
  }

  /** The one-shot reference: cut frames off the front until less than one is left. */
  function Drain(buffer: bytes, m: Machine, maxFrames: int): Outcome
    decreases |buffer|
  {
    if |buffer| < HEADER_SIZE then Ok(([], Decoder(buffer, m)))
    else if !Supported(buffer) then Err(UnsupportedFrame)
    else if LengthAt(buffer) > MAX_PAYLOAD then Err(PayloadExceedsLimit)
    else
      var total := HEADER_SIZE + LengthAt(buffer);
      if |buffer| < total then Ok(([], Decoder(buffer, m)))
      else match Decode(buffer[..total])
        case Err(e) => Err(e)
        case Ok(f) =>
          match Step(m, f, maxFrames)
          case Err(e) => Err(e)
          case Ok(n) => Prepend([f], Drain(buffer[total..], n, maxFrames))
  }

  function FeedResult(d: Decoder, data: bytes, maxFrames: int): Outcome {
    match Drain(d.buffer + data, d.machine, maxFrames)
    case Err(e) => Err(e)
    case Ok((fs, rest)) => if |rest.buffer| > MAX_FRAME then Err(BufferLimit) else Ok((fs, rest))
  }

  function FinishError(d: Decoder): Option<ProtocolError> {
    if d.buffer != [] then Some(TruncatedEnd)
    else if !AllEnded(d.machine) then Some(UnclosedStream)
    else None
  }

  class FrameCodec {
    var buffer: bytes
    var nextSequence: map<int, int>
    var streamKind: map<int, StreamKind>
    var closedStreams: set<int>
    var connectionClosed: bool
    var frames: int
    const maxFrames: int

    function MachineState(): Machine
      reads this
    {
      Machine(nextSequence, streamKind, closedStreams, connectionClosed, frames)
    }

    function State(): Decoder
      reads this
    {
      Decoder(buffer, MachineState())
    }

    constructor (maxFrames: int)
      requires maxFrames > 0
      ensures State() == NEW && this.maxFrames == maxFrames
    {
      buffer := [];
      nextSequence, streamKind, closedStreams := map[], map[], {};
      connectionClosed := false;
      frames := 0;
      this.maxFrames := maxFrames;
    }

    method AdvanceStreamState(f: Frame) returns (error: Option<ProtocolError>)
      modifies this`streamKind, this`closedStreams, this`connectionClosed
      ensures match Advance(old(MachineState()), f)
        case Err(e) => error == Some(e) && MachineState() == old(MachineState())
        case Ok(m) => error == None && MachineState() == m
    {
      if connectionClosed { return Some(AfterClose); }
      if f.streamId == 0 {
        if f.kind == Close {
          connectionClosed := true;
        }
        return None;
      }
      if f.streamId in closedStreams { return Some(StreamClosed); }
      var kind := if f.streamId in streamKind then Some(streamKind[f.streamId]) else None;
      if f.kind == TcpOpen {
        if kind != None || f.sequence != 0 { return Some(AlreadyOpen); }
        streamKind := streamKind[f.streamId := Tcp];
        return None;
      }
      if f.kind == TcpData {
        if kind != Some(Tcp) { return Some(NotOpen); }
        if f.Fin() || f.Rst() {
          closedStreams := closedStreams + {f.streamId};
        }
        return None;
      }
      if f.kind == L3Data {
        if kind != None && kind != Some(L3) { return Some(MixedStream); }
        streamKind := streamKind[f.streamId := L3];
      }
      return None;
    }

    /** The checks and updates of one decoded frame, inside the loop of `feed`. */
    method TakeIn(f: Frame, streamId: int) returns (error: Option<ProtocolError>)
      requires streamId == f.streamId
      modifies this`nextSequence, this`streamKind, this`closedStreams, this`connectionClosed, this`frames
      ensures error == match Step(old(MachineState()), f, maxFrames) case Err(e) => Some(e) case Ok(_) => None
      ensures error == None ==> Step(old(MachineState()), f, maxFrames) == Ok(MachineState())
    {
      var expected := NextSequence(MachineState(), streamId);
      if f.sequence != expected { return Some(SequenceGap); }
      error := AdvanceStreamState(f);
      if error.Some? { return; }
      nextSequence := nextSequence[streamId := expected + 1];
      frames := frames + 1;
      if frames > maxFrames { return Some(FrameLimit); }
    }

    /** After an error the codec is spent: the contract says nothing about its fields. */
    method Feed(data: bytes) returns (r: Result<seq<Frame>, ProtocolError>)
      modifies this
      ensures match FeedResult(old(State()), data, maxFrames)
        case Err(e) => r == Err(e)
        case Ok((fs, d)) => r == Ok(fs) && State() == d
    {
      hide Decode, Step;
      buffer := buffer + data;
      var out: seq<Frame> := [];
      ghost var whole := Drain(buffer, MachineState(), maxFrames);
      PrependNothing(whole);
      while |buffer| >= HEADER_SIZE
        invariant whole == Prepend(out, Drain(buffer, MachineState(), maxFrames))
        decreases |buffer|
      {
        if !Supported(buffer) { return Err(UnsupportedFrame); }
        if LengthAt(buffer) > MAX_PAYLOAD { return Err(PayloadExceedsLimit); }
        var streamId := StreamAt(buffer);
        var total := HEADER_SIZE + LengthAt(buffer);
        if |buffer| < total { break; }
        var raw := buffer[..total];
        DecodedStream(buffer, total);
        buffer := buffer[total..];
        var decoded := Decode(raw);
        if decoded.Err? { return Err(decoded.error); }
        var f := decoded.value;
        var error := TakeIn(f, streamId);
        if error.Some? { return Err(error.value); }
        PrependTwice(out, [f], Drain(buffer, MachineState(), maxFrames));
        out := out + [f];
      }
      assert Drain(buffer, MachineState(), maxFrames) == Ok(([], State()));
      assert out + [] == out;
      assert whole == Ok((out, State()));
      if |buffer| > MAX_FRAME { return Err(BufferLimit); }
      return Ok(out);
    }

    method Finish() returns (error: Option<ProtocolError>)
      ensures error == FinishError(State())
    {
      if buffer != [] { return Some(TruncatedEnd); }
      if exists s <- streamKind :: streamKind[s] == Tcp && s !in closedStreams { return Some(UnclosedStream); }
      return None;
    }
  }

  lemma PrependTwice(fs: seq<Frame>, gs: seq<Frame>, r: Outcome)
    ensures Prepend(fs, Prepend(gs, r)) == Prepend(fs + gs, r)
  {
    if r.Ok? {
      assert fs + (gs + r.value.0) == fs + gs + r.value.0;
    }
  }

  lemma DecodedStream(b: bytes, n: nat)
    requires HEADER_SIZE <= n <= |b|
    ensures Decode(b[..n]).Ok? ==> Decode(b[..n]).value.streamId == StreamAt(b)
  {
    assert b[..n][8..12] == b[8..12];
  }

  /** What a successful drain can leave behind: less than the frame it announces. */
  predicate Partial(b: bytes) {
    |b| < HEADER_SIZE || (Supported(b) && LengthAt(b) <= MAX_PAYLOAD && |b| < HEADER_SIZE + LengthAt(b))
  }

  lemma {:induction false} RemainderIsPartial(b: bytes, m: Machine, maxFrames: int)
    requires Drain(b, m, maxFrames).Ok?
    ensures Partial(Drain(b, m, maxFrames).value.1.buffer)
    decreases |b|
  {
    if |b| >= HEADER_SIZE && |b| >= HEADER_SIZE + LengthAt(b) {
      var total := HEADER_SIZE + LengthAt(b);
      RemainderIsPartial(b[total..], Step(m, Decode(b[..total]).value, maxFrames).value, maxFrames);
    }
  }

  /** The final buffer check of `feed` never fires. */
  lemma BufferLimitNeverReached(d: Decoder, data: bytes, maxFrames: int)
    ensures FeedResult(d, data, maxFrames) == Drain(d.buffer + data, d.machine, maxFrames)
    ensures FeedResult(d, data, maxFrames).Ok? ==>
      Partial(FeedResult(d, data, maxFrames).value.1.buffer) && |FeedResult(d, data, maxFrames).value.1.buffer| < MAX_FRAME
  {
    if Drain(d.buffer + data, d.machine, maxFrames).Ok? {
      RemainderIsPartial(d.buffer + data, d.machine, maxFrames);
    }
  }

  lemma HeaderOfLonger(b: bytes, more: bytes)
    requires |b| >= HEADER_SIZE
    ensures Supported(b + more) == Supported(b) && LengthAt(b + more) == LengthAt(b)
  {
    assert (b + more)[..4] == b[..4];
    assert (b + more)[20..24] == b[20..24];
  }

  /** Goes on with `more` bytes after a drain. */
  function Resume(r: Outcome, more: bytes, maxFrames: int): Outcome {
    if r.Err? then r
    else Prepend(r.value.0, Drain(r.value.1.buffer + more, r.value.1.machine, maxFrames))
  }

  /** Goes on with `tail` after the frames `fs` have left the machine in state `r`. */
  function DrainAfter(r: Result<Machine, ProtocolError>, fs: seq<Frame>, tail: bytes, maxFrames: int): Outcome {
    if r.Err? then Err(r.error) else Prepend(fs, Drain(tail, r.value, maxFrames))
  }

  /** Draining a longer buffer resumes where draining the shorter one stopped. */
  lemma {:induction false} DrainResumes(b: bytes, more: bytes, m: Machine, maxFrames: int)
    ensures Drain(b + more, m, maxFrames) == Resume(Drain(b, m, maxFrames), more, maxFrames)
    decreases |b|
  {
    PrependNothing(Drain(b + more, m, maxFrames));
    if |b| >= HEADER_SIZE {
      HeaderOfLonger(b, more);
      var total := HEADER_SIZE + LengthAt(b);
      if Supported(b) && LengthAt(b) <= MAX_PAYLOAD && |b| >= total {
        assert (b + more)[..total] == b[..total];
        assert (b + more)[total..] == b[total..] + more;
        var f := Decode(b[..total]);
        if f.Ok? && Step(m, f.value, maxFrames).Ok? {
          var n := Step(m, f.value, maxFrames).value;
          DrainResumes(b[total..], more, n, maxFrames);
          var rest := Drain(b[total..], n, maxFrames);
          if rest.Ok? {
            var d := rest.value.1;
            PrependTwice([f.value], rest.value.0, Drain(d.buffer + more, d.machine, maxFrames));
          }
        }
      }
    }
  }

  /** One `feed` per chunk. */
  function FeedAll(d: Decoder, chunks: seq<bytes>, maxFrames: int): Outcome
    decreases |chunks|
  {
    if chunks == [] then Ok(([], d))
    else match FeedResult(d, chunks[0], maxFrames)
      case Err(e) => Err(e)
      case Ok((fs, n)) => Prepend(fs, FeedAll(n, chunks[1..], maxFrames))
  }

  /** Chunking invariance: the frames, the final state and the error, if any,
      are those of a single `feed` of the whole input. */
  lemma {:induction false} ChunkingInvariance(d: Decoder, chunks: seq<bytes>, maxFrames: int)
    requires Partial(d.buffer)
    ensures FeedAll(d, chunks, maxFrames) == FeedResult(d, Concat(chunks), maxFrames)
    decreases |chunks|
  {
    BufferLimitNeverReached(d, Concat(chunks), maxFrames);
    if chunks == [] {
      assert d.buffer + [] == d.buffer;
    } else {
      var (first, rest) := (chunks[0], Concat(chunks[1..]));
      BufferLimitNeverReached(d, first, maxFrames);
      DrainResumes(d.buffer + first, rest, d.machine, maxFrames);
      assert d.buffer + first + rest == d.buffer + Concat(chunks);
      var step := FeedResult(d, first, maxFrames);
      if step.Ok? {
        ChunkingInvariance(step.value.1, chunks[1..], maxFrames);
        BufferLimitNeverReached(step.value.1, rest, maxFrames);
      }
    }
  }

  lemma PrependNothing(r: Outcome)
    ensures Prepend([], r) == r
  {
    if r.Ok? {
      assert [] + r.value.0 == r.value.0;
    }
  }

  lemma DrainOne(f: Frame, rest: bytes, m: Machine, maxFrames: int)
    requires Valid(f)
    ensures Drain(Encoded(f) + rest, m, maxFrames) == DrainAfter(Step(m, f, maxFrames), [f], rest, maxFrames)
  {
    var b := Encoded(f) + rest;
    HeaderRoundTrip(f, rest);
    DecodeEncode(f);
    var total := HEADER_SIZE + LengthAt(b);
    assert b[..total] == Encoded(f) && b[total..] == rest;
  }

  /** The decoder on a concatenation of encodings runs the stream machine on the frames. */
  lemma {:induction false} DrainEncoded(fs: seq<Frame>, tail: bytes, m: Machine, maxFrames: int)
    requires AllValid(fs)
    ensures Drain(EncodeAll(fs) + tail, m, maxFrames) == DrainAfter(RunFrom(m, fs, maxFrames), fs, tail, maxFrames)
    decreases |fs|
  {
    hide Encode, Step, Decode;
    if fs == [] {
      assert EncodeAll(fs) + tail == tail;
      PrependNothing(Drain(tail, m, maxFrames));
    } else {
      var f := fs[0];
      DrainOne(f, EncodeAll(fs[1..]) + tail, m, maxFrames);
      assert EncodeAll(fs) + tail == Encoded(f) + (EncodeAll(fs[1..]) + tail);
      DrainAfterFirst(m, fs, tail, maxFrames);
      if Step(m, f, maxFrames).Ok? {
        DrainEncoded(fs[1..], tail, Step(m, f, maxFrames).value, maxFrames);
      }
    }
  }

  lemma DrainAfterFirst(m: Machine, fs: seq<Frame>, tail: bytes, maxFrames: int)
    requires fs != []
    ensures DrainAfter(RunFrom(m, fs, maxFrames), fs, tail, maxFrames) ==
      var n := Step(m, fs[0], maxFrames);
      if n.Err? then Err(n.error)
      else Prepend([fs[0]], DrainAfter(RunFrom(n.value, fs[1..], maxFrames), fs[1..], tail, maxFrames))
  {
    var end := RunFrom(m, fs, maxFrames);
    if end.Ok? {
      PrependTwice([fs[0]], fs[1..], Drain(tail, end.value, maxFrames));
      assert [fs[0]] + fs[1..] == fs;
    }
  }

  /** The first frame a drain hands out was encoded at the front of its input. */
  lemma DrainFirst(b: bytes, m: Machine, maxFrames: int) returns (f: Frame, n: Machine, rest: bytes)
    requires Drain(b, m, maxFrames).Ok? && Drain(b, m, maxFrames).value.0 != []
    ensures Valid(f) && b == Encoded(f) + rest && Step(m, f, maxFrames) == Ok(n)
    ensures Drain(b, m, maxFrames) == Prepend([f], Drain(rest, n, maxFrames))
  {
    var total := HEADER_SIZE + LengthAt(b);
    f, rest := Decode(b[..total]).value, b[total..];
    n := Step(m, f, maxFrames).value;
    EncodeDecode(b[..total]);
    assert b == b[..total] + b[total..];
  }

  /** Everything the decoder hands out was encoded at the front of its input. */
  lemma {:induction false} DrainSound(b: bytes, m: Machine, maxFrames: int)
    requires Drain(b, m, maxFrames).Ok?
    ensures var (fs, d) := Drain(b, m, maxFrames).value;
      AllValid(fs) && b == EncodeAll(fs) + d.buffer && RunFrom(m, fs, maxFrames) == Ok(d.machine)
    decreases |b|
  {
    hide Drain, Step, Encode;
    var (fs, d) := Drain(b, m, maxFrames).value;
    if fs == [] {
      NothingDrained(b, m, maxFrames);
      assert EncodeAll(fs) + d.buffer == b;
    } else {
      var f, n, rest := DrainFirst(b, m, maxFrames);
      DrainSound(rest, n, maxFrames);
      var later := Drain(rest, n, maxFrames).value.0;
      assert fs == [f] + later;
      EncodeCons(f, later, d.buffer);
      assert fs[0] == f && fs[1..] == later;
    }
  }

  lemma EncodeCons(f: Frame, fs: seq<Frame>, tail: bytes)
    requires Valid(f) && AllValid(fs)
    ensures AllValid([f] + fs) && EncodeAll([f] + fs) + tail == Encoded(f) + (EncodeAll(fs) + tail)
  {
    hide Encode;
    assert ([f] + fs)[1..] == fs;
  }

  lemma NothingDrained(b: bytes, m: Machine, maxFrames: int)
    requires Drain(b, m, maxFrames).Ok? && Drain(b, m, maxFrames).value.0 == []
    ensures Drain(b, m, maxFrames).value.1 == Decoder(b, m)
  {
  }

  /** A fresh codec takes in the chunks, hands out `fs`, and `finish` succeeds. */
  predicate Accepts(chunks: seq<bytes>, maxFrames: int, fs: seq<Frame>) {
    var r := FeedAll(NEW, chunks, maxFrames);
    r.Ok? && r.value.0 == fs && FinishError(r.value.1) == None
  }

  /** The wire language: a byte stream, however cut, is accepted as `fs` exactly
      when it is the concatenated encoding of `fs` and `fs` is in the language. */
  lemma AcceptsExactly(chunks: seq<bytes>, maxFrames: int, fs: seq<Frame>)
    requires maxFrames > 0
    ensures Accepts(chunks, maxFrames, fs) <==> InLanguage(fs, maxFrames) && Concat(chunks) == EncodeAll(fs)
  {
    var b := Concat(chunks);
    ChunkingInvariance(NEW, chunks, maxFrames);
    BufferLimitNeverReached(NEW, b, maxFrames);
    assert [] + b == b;
    RunFromFresh(fs, maxFrames);
    if Accepts(chunks, maxFrames, fs) {
      DrainSound(b, FRESH, maxFrames);
      AcceptedLanguage(fs, maxFrames);
    }
    if InLanguage(fs, maxFrames) && b == EncodeAll(fs) {
      AcceptedLanguage(fs, maxFrames);
      DrainEncoded(fs, [], FRESH, maxFrames);
      assert EncodeAll(fs) + [] == b;
    }
  }
}
