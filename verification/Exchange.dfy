/** One framed HTTP exchange on stream 1: the frame script both peers write,
    and the proof that the codec's own rules leave no other accepted script. */
module Exchange {
  import opened Wrappers
  import opened Bytes
  import opened ResourceIds
  import opened Frames
  import opened StreamMachine
  import opened FrameCodecs
  import opened HttpRequest

  const MAX_CONTROL := 8 * 1024
  const MAX_HTTP_RESPONSE := 1024 * 1024

  /** The JSON objects the two peers exchange, as `decode_control` returns them. */
  datatype Control = OpenRequest(resource: bytes) | OpenAck(resource: bytes) | OtherObject(tag: nat)

  function Text(s: string): (b: bytes)
    ensures |b| == |s|
  {
    seq(|s|, i requires 0 <= i < |s| => s[i] as int % 256)
  }

  /** `json.dumps` with sorted keys; a resource id needs no escapes. */
  function RequestText(id: bytes): bytes {
    Text("{\"protocol\":\"http/1.1\",\"resource\":\"") + id + Text("\"}")
  }

  function AckText(id: bytes): bytes { Text("{\"ok\":true,\"resource\":\"") + id + Text("\"}") }

  /** All that is used of `json.loads`: it reads back what `json.dumps` wrote. */
  ghost predicate Lawful(loads: bytes -> Option<Control>) {
    forall id: bytes | ResourceId(id) ::
      loads(RequestText(id)) == Some(OpenRequest(id)) && loads(AckText(id)) == Some(OpenAck(id))
  }

  function EncodeControl(kind: FrameType, sequence: int, text: bytes, streamId: int): Result<Frame, ProtocolError> {
    if kind !in {TcpOpen, Ping, Pong, Close} then Err(NotControl)
    else if |text| > MAX_CONTROL then Err(ControlPayloadLimit)
    else if kind == TcpOpen && streamId == 0 then Err(DataOnStreamZero)
    else if kind != TcpOpen && streamId != 0 then Err(ControlOffStreamZero)
    else Ok(Frame(kind, sequence, text, streamId, 0))
  }

  /** `decode_control`; `loads` yields the JSON objects, as far as the caller tells them apart. */
  function DecodeControl<T>(f: Frame, loads: bytes -> Option<T>): Result<T, ProtocolError> {
    if f.kind !in {TcpOpen, Ping, Pong, Close} then Err(NotControl)
    else match loads(f.payload) case None => Err(InvalidControl) case Some(c) => Ok(c)
  }

  function OpenFrame(text: bytes): Frame { Frame(TcpOpen, 0, text, 1, 0) }

  /** What `encode_control` makes encodes, whatever the text within its limit, on the
      one kind of stream its kind belongs to, and reads back; and it makes nothing else. */
  lemma ControlExact<T>(kind: FrameType, sequence: int, text: bytes, streamId: int, loads: bytes -> Option<T>)
    requires 0 <= sequence < 0x1_0000_0000_0000_0000 && 0 <= streamId < 0x1_0000_0000
    ensures var r := EncodeControl(kind, sequence, text, streamId);
      && (r.Ok? <==> |text| <= 8_192 && kind !in {TcpData, L3Data} && Valid(Frame(kind, sequence, text, streamId, 0)))
      && (r.Ok? ==> Decode(Encoded(r.value)) == Ok(Frame(kind, sequence, text, streamId, 0)))
      && (kind in {TcpData, L3Data} ==> DecodeControl(Frame(kind, sequence, text, streamId, 0), loads) == Err(NotControl))
      && (r.Ok? ==> DecodeControl(r.value, loads) == if loads(text).Some? then Ok(loads(text).value) else Err(InvalidControl))
  {
    var f := Frame(kind, sequence, text, streamId, 0);
    ValidExact(f);
    hide Encode;
    if Valid(f) {
      DecodeEncode(f);
    }
  }

  /** Both texts of an id are within the control limit, so both peers can open. */
  lemma OpenEncodes(id: bytes)
    requires ResourceId(id)
    ensures EncodeControl(TcpOpen, 0, RequestText(id), 1) == Ok(OpenFrame(RequestText(id))) && Valid(OpenFrame(RequestText(id)))
    ensures EncodeControl(TcpOpen, 0, AckText(id), 1) == Ok(OpenFrame(AckText(id))) && Valid(OpenFrame(AckText(id)))
  {
    ExchangeFrameValid(OpenFrame(RequestText(id)));
    ExchangeFrameValid(OpenFrame(AckText(id)));
  }

  function DataFrame(chunks: seq<bytes>, i: nat, flags: nat): Frame
    requires i < |chunks|
  {
    Frame(TcpData, i + 1, chunks[i], 1, flags)
  }

  function ScriptFrame(chunks: seq<bytes>, i: nat): Frame
    requires i < |chunks|
  {
    DataFrame(chunks, i, if i == |chunks| - 1 then FLAG_FIN else 0)
  }

  /** TCP_OPEN and then one TCP_DATA for each chunk, none of them final. */
  function Unfinished(text: bytes, chunks: seq<bytes>): seq<Frame> {
    [OpenFrame(text)] + seq(|chunks|, i requires 0 <= i < |chunks| => DataFrame(chunks, i, 0))
  }

  function DataFrames(chunks: seq<bytes>): (fs: seq<Frame>)
    ensures |fs| == |chunks|
  {
    seq(|chunks|, i requires 0 <= i < |chunks| => ScriptFrame(chunks, i))
  }

  /** The same with FIN on the last frame. */
  function Script(text: bytes, chunks: seq<bytes>): seq<Frame> {
    [OpenFrame(text)] + DataFrames(chunks)
  }

  predicate Sized(chunks: seq<bytes>) { forall c <- chunks :: |c| <= MAX_PAYLOAD }

  function Payloads(fs: seq<Frame>): seq<bytes> { seq(|fs|, i requires 0 <= i < |fs| => fs[i].payload) }

  lemma {:induction false} ProjectAll(fs: seq<Frame>, s: int)
    requires forall f <- fs :: f.streamId == 1
    ensures Project(fs, s) == if s == 1 then fs else []
  {
    if fs != [] {
      ProjectAll(fs[..|fs| - 1], s);
      assert fs == fs[..|fs| - 1] + [fs[|fs| - 1]];
    }
  }

  lemma ExchangeFrameValid(f: Frame)
    requires f.kind in {TcpOpen, TcpData} && f.streamId == 1 && 0 <= f.sequence <= 0xFFFF_FFFF
    requires |f.payload| <= MAX_PAYLOAD && (f.flags == 0 || (f.flags == FLAG_FIN && f.kind == TcpData))
    ensures Valid(f)
  {
  }

  /** Both scripts are encodable. */
  lemma ScriptsValid(text: bytes, chunks: seq<bytes>)
    requires |text| <= MAX_PAYLOAD && Sized(chunks) && |chunks| < 0xFFFF_FFFF
    ensures AllValid(Script(text, chunks)) && AllValid(Unfinished(text, chunks))
  {
    var (script, plain) := (Script(text, chunks), Unfinished(text, chunks));
    ExchangeFrameValid(OpenFrame(text));
    forall i | 1 <= i <= |chunks| ensures Valid(script[i]) && Valid(plain[i]) {
      assert chunks[i - 1] in chunks;
      ExchangeFrameValid(script[i]);
      ExchangeFrameValid(plain[i]);
    }
    assert forall i | 0 <= i < |script| :: Valid(script[i]);
    assert forall i | 0 <= i < |plain| :: Valid(plain[i]);
  }

  lemma ScriptInLanguage(text: bytes, chunks: seq<bytes>, maxFrames: int)
    requires |text| <= MAX_PAYLOAD && Sized(chunks) && chunks != [] && |chunks| < maxFrames < 0xFFFF_FFFF
    ensures AllValid(Script(text, chunks)) && InLanguage(Script(text, chunks), maxFrames)
  {
    var fs := Script(text, chunks);
    ScriptsValid(text, chunks);
    assert forall i | 0 <= i < |fs| :: fs[i].streamId == 1 && fs[i].sequence == i;
    assert TcpComplete(fs) by {
      assert forall i | 1 <= i < |fs| :: fs[i].kind == TcpData && (fs[i].Ends() <==> i == |fs| - 1);
    }
    forall s ensures StreamComplete(s, Project(fs, s)) {
      ProjectAll(fs, s);
    }
  }

  lemma UnfinishedNotInLanguage(text: bytes, chunks: seq<bytes>, maxFrames: int)
    ensures !InLanguage(Unfinished(text, chunks), maxFrames)
  {
    hide Encode;
    var fs := Unfinished(text, chunks);
    forall i | 0 <= i < |fs| ensures fs[i].streamId == 1 && !fs[i].Ends() {
      if i > 0 {
        assert fs[i] == DataFrame(chunks, i - 1, 0);
      }
    }
    ProjectAll(fs, 1);
    assert fs[0] in fs;
    assert !Last(fs).Ends();
    assert !StreamComplete(1, Project(fs, 1));
  }

  predicate DataOnStreamOne(ds: seq<Frame>) {
    forall f <- ds :: f.kind == TcpData && f.streamId == 1 && !f.Rst()
  }

  predicate AnyFin(ds: seq<Frame>) { exists f <- ds :: f.Fin() }

  lemma ScriptData(text: bytes, chunks: seq<bytes>)
    requires chunks != []
    ensures var data := Script(text, chunks)[1..];
      data == DataFrames(chunks) && DataOnStreamOne(data) && AnyFin(data) && Last(data).Fin() && Payloads(data) == chunks
  {
    var data := DataFrames(chunks);
    assert Script(text, chunks)[1..] == data;
    assert Last(data) in data;
    assert Payloads(data) == chunks;
  }

  lemma OnlyLastFin(chunks: seq<bytes>, i: nat)
    requires i < |chunks|
    ensures !AnyFin(DataFrames(chunks)[..i])
  {
    forall f <- DataFrames(chunks)[..i] ensures !f.Fin() {
      var j :| 0 <= j < i && DataFrames(chunks)[j] == f;
      assert f == ScriptFrame(chunks, j);
    }
  }

  /** A data frame needs an open stream, and only stream 1 was opened. */
  lemma OneStream(fs: seq<Frame>, maxFrames: int)
    requires InLanguage(fs, maxFrames) && fs != []
    requires fs[0].kind == TcpOpen && fs[0].streamId == 1
    requires forall f <- fs[1..] :: f.kind == TcpData
    ensures forall f <- fs :: f.streamId == 1
  {
    hide Encode;
    assert fs == [fs[0]] + fs[1..];
    forall f <- fs ensures f.streamId == 1 {
      var p := Project(fs, f.streamId);
      ValidKindFits(f);
      OpenedOnStream(fs, f);
      ProjectMembers(fs, f.streamId);
      assert StreamComplete(f.streamId, p);
      assert p[0] in fs && f in p && f.kind in {TcpOpen, TcpData};
      assert p[0].kind == TcpOpen;
    }
  }

  /** The only frame lists in the language that start with TCP_OPEN on stream 1,
      go on with TCP_DATA without RST, and end with FIN, are the scripts: every
      data frame is on stream 1, numbered 1..n, and only the last carries FIN. */
  lemma OnlyScripts(fs: seq<Frame>, maxFrames: int)
    requires InLanguage(fs, maxFrames) && |fs| >= 2
    requires fs[0].kind == TcpOpen && fs[0].streamId == 1
    requires forall f <- fs[1..] :: f.kind == TcpData && !f.Rst()
    requires Last(fs).Fin()
    ensures fs == Script(fs[0].payload, Payloads(fs[1..]))
  {
    hide Encode, Script;
    OneStream(fs, maxFrames);
    ProjectAll(fs, 1);
    assert StreamComplete(1, fs);
    assert !L3Only(fs) by { assert fs[0] in fs; }
    assert TcpComplete(fs);
    forall i | 0 <= i < |fs|
      ensures InPlace(fs, i)
    {
      ValidFlags(fs[i]);
      assert i > 0 ==> fs[i] == fs[1..][i - 1];
    }
    ScriptFromShape(fs);
  }

  predicate InPlace(fs: seq<Frame>, i: nat)
    requires i < |fs|
  {
    var flags := if i == |fs| - 1 then FLAG_FIN else 0;
    fs[i] == Frame(if i == 0 then TcpOpen else TcpData, i, fs[i].payload, 1, flags)
  }

  lemma ScriptFromShape(fs: seq<Frame>)
    requires |fs| >= 2
    requires forall i | 0 <= i < |fs| :: InPlace(fs, i)
    ensures fs == Script(fs[0].payload, Payloads(fs[1..]))
  {
    var chunks := Payloads(fs[1..]);
    assert fs[1..] == DataFrames(chunks) by {
      forall i | 0 <= i < |chunks| ensures fs[1..][i] == DataFrames(chunks)[i] {
        assert fs[1..][i] == fs[i + 1] && InPlace(fs, i + 1);
      }
    }
    assert InPlace(fs, 0);
    assert fs == [fs[0]] + fs[1..];
  }

  lemma ValidFlags(f: Frame)
    requires Valid(f)
    ensures 0 <= f.flags <= 3 && (f.kind != TcpData ==> f.flags == 0)
    ensures !f.Rst() ==> f.flags == if f.Fin() then FLAG_FIN else 0
  {
  }

  lemma {:induction false} OpenedOnStream(fs: seq<Frame>, f: Frame)
    requires f in fs
    ensures f in Project(fs, f.streamId)
  {
    if f != fs[|fs| - 1] {
      assert fs == fs[..|fs| - 1] + [fs[|fs| - 1]];
      OpenedOnStream(fs[..|fs| - 1], f);
    }
  }

  /** The bytes of a script, so that limits on bytes become limits on chunks. */
  function TotalLength(chunks: seq<bytes>): nat {
    if chunks == [] then 0 else |chunks[0]| + TotalLength(chunks[1..])
  }

  lemma {:induction false} ConcatLength(chunks: seq<bytes>)
    ensures |Concat(chunks)| == TotalLength(chunks)
  {
    if chunks != [] {
      ConcatLength(chunks[1..]);
    }
  }

  lemma {:induction false} EncodedLength(fs: seq<Frame>)
    requires AllValid(fs)
    ensures |EncodeAll(fs)| == HEADER_SIZE * |fs| + TotalLength(Payloads(fs))
  {
    if fs != [] {
      EncodedLength(fs[1..]);
      assert Payloads(fs)[1..] == Payloads(fs[1..]);
    }
  }

  lemma {:induction false} ConcatAppend(a: seq<bytes>, b: seq<bytes>)
    ensures Concat(a + b) == Concat(a) + Concat(b)
  {
    if a == [] {
      assert a + b == b;
    } else {
      ConcatAppend(a[1..], b);
      assert (a + b)[1..] == a[1..] + b;
      assert Concat(a + b) == a[0] + (Concat(a[1..]) + Concat(b));
    }
  }

  lemma ConcatOne(c: bytes)
    ensures Concat([c]) == c
  {
    assert Concat([c]) == c + Concat([]);
  }

  lemma OneChunk(b: bytes, maxFrames: int)
    ensures FeedAll(NEW, [b], maxFrames) == FeedResult(NEW, b, maxFrames)
  {
    ChunkingInvariance(NEW, [b], maxFrames);
    ConcatOne(b);
  }

  /** `_read_all`, on the chunks received before the connection ended. */
  method ReadAll(received: seq<bytes>) returns (r: Option<bytes>)
    ensures r == if |Concat(received)| > MAX_HTTP_RESPONSE then None else Some(Concat(received))
  {
    var framed: bytes := [];
    for i := 0 to |received|
      invariant framed == Concat(received[..i]) && |framed| <= MAX_HTTP_RESPONSE
    {
      assert received[..i + 1] == received[..i] + [received[i]];
      ConcatAppend(received[..i], [received[i]]);
      ConcatOne(received[i]);
      framed := framed + received[i];
      if |framed| > MAX_HTTP_RESPONSE {
        ConcatAppend(received[..i + 1], received[i + 1..]);
        assert received == received[..i + 1] + received[i + 1..];
        return None;
      }
    }
    assert received[..|received|] == received;
    return Some(framed);
  }
}
