/** The gateway's request reader: the loop over received chunks at the start of
    `_handle_tcp`, and the exact byte streams from which it takes a request. */
module Request {
  import opened Wrappers
  import opened Bytes
  import opened ResourceIds
  import opened Frames
  import opened StreamMachine
  import opened FrameCodecs
  import opened HttpRequest
  import opened Exchange

  const GATEWAY_FRAMES := 64

  /** `opened`, `complete`, `request_bytes`. */
  datatype Reading = Reading(isOpen: bool, complete: bool, body: bytes)

  const START := Reading(false, false, [])

  /** One frame of the inner loop; `None` where the handler gives up. */
  function TakeFrame(st: Reading, f: Frame, id: bytes, loads: bytes -> Option<Control>): Option<Reading> {
    if !st.isOpen then
      if f.kind != TcpOpen || f.streamId != 1 then None
      else if DecodeControl(f, loads) != Ok(OpenRequest(id)) then None
      else Some(st.(isOpen := true))
    else if f.kind != TcpData || f.streamId != 1 || f.Rst() then None
    else if |st.body + f.payload| > MAX_HTTP_REQUEST then None
    else Some(Reading(true, st.complete || f.Fin(), st.body + f.payload))
  }

  function TakeFrames(st: Reading, fs: seq<Frame>, id: bytes, loads: bytes -> Option<Control>): Option<Reading>
    decreases |fs|
  {
    if fs == [] then Some(st)
    else match TakeFrame(st, fs[0], id, loads)
      case None => None
      case Some(next) => TakeFrames(next, fs[1..], id, loads)
  }

  /** The checks after the loop. */
  function Taken(d: Decoder, st: Reading, id: bytes): Option<bytes> {
    if FinishError(d) == None && st.isOpen && st.complete && ValidRequest(st.body, id) then Some(st.body) else None
  }

  /** The outer loop: one `recv` per turn until the request is complete. An
      empty chunk is a peer that hung up; the list ends at the deadline. */
  function Received(d: Decoder, st: Reading, turns: seq<bytes>, id: bytes, loads: bytes -> Option<Control>): Option<bytes>
    decreases |turns|
  {
    if turns == [] || st.complete then Taken(d, st, id)
    else if turns[0] == [] then None
    else match FeedResult(d, turns[0], GATEWAY_FRAMES)
      case Err(_) => None
      case Ok((fs, next)) =>
        match TakeFrames(st, fs, id, loads)
        case None => None
        case Some(st') => Received(next, st', turns[1..], id, loads)
  }

  method ReadFrames(frames: seq<Frame>, st: Reading, id: bytes, loads: bytes -> Option<Control>)
    returns (r: Option<Reading>)
    ensures r == TakeFrames(st, frames, id, loads)
  {
    var isOpen, complete, body := st.isOpen, st.complete, st.body;
    for i := 0 to |frames|
      invariant TakeFrames(st, frames, id, loads) == TakeFrames(Reading(isOpen, complete, body), frames[i..], id, loads)
    {
      var f := frames[i];
      assert frames[i..][0] == f && frames[i..][1..] == frames[i + 1..];
      if !isOpen {
        if f.kind != TcpOpen || f.streamId != 1 { return None; }
        var options := DecodeControl(f, loads);
        if options.Err? { return None; }
        if options.value != OpenRequest(id) { return None; }
        isOpen := true;
        continue;
      }
      if f.kind != TcpData || f.streamId != 1 { return None; }
      if f.Rst() { return None; }
      body := body + f.payload;
      if |body| > MAX_HTTP_REQUEST { return None; }
      if f.Fin() {
        complete := true;
      }
    }
    return Some(Reading(isOpen, complete, body));
  }

  method ReadRequest(turns: seq<bytes>, id: bytes, loads: bytes -> Option<Control>) returns (r: Option<bytes>)
    ensures r == Received(NEW, START, turns, id, loads)
  {
    hide FeedResult, TakeFrames, ValidRequest;
    var codec := new FrameCodec(GATEWAY_FRAMES);
    var st := START;
    var i := 0;
    while i < |turns| && !st.complete
      invariant i <= |turns|
      invariant codec.maxFrames == GATEWAY_FRAMES && fresh(codec)
      invariant Received(NEW, START, turns, id, loads) == Received(codec.State(), st, turns[i..], id, loads)
    {
      var data := turns[i];
      assert turns[i..][0] == data && turns[i..][1..] == turns[i + 1..];
      if data == [] { return None; }
      var frames := codec.Feed(data);
      if frames.Err? { return None; }
      var next := ReadFrames(frames.value, st, id, loads);
      if next == None { return None; }
      st := next.value;
      i := i + 1;
    }
    var error := codec.Finish();
    if error.Some? || !st.isOpen || !st.complete { return None; }
    var valid := IsValidRequest(st.body, id);
    return if valid then Some(st.body) else None;
  }

  lemma {:induction false} TakeFramesAppend(st: Reading, a: seq<Frame>, b: seq<Frame>, id: bytes, loads: bytes -> Option<Control>)
    ensures TakeFrames(st, a + b, id, loads) ==
      var r := TakeFrames(st, a, id, loads);
      if r == None then None else TakeFrames(r.value, b, id, loads)
    decreases |a|
  {
    if a == [] {
      assert a + b == b;
    } else {
      assert (a + b)[1..] == a[1..] + b;
      var next := TakeFrame(st, a[0], id, loads);
      if next.Some? {
        TakeFramesAppend(next.value, a[1..], b, id, loads);
      }
    }
  }

  /** Once open, the reader takes data frames of stream 1 and nothing else, and
      its body is their payloads. */
  lemma {:induction false} TakeData(st: Reading, ds: seq<Frame>, id: bytes, loads: bytes -> Option<Control>)
    requires st.isOpen && |st.body| <= MAX_HTTP_REQUEST
    ensures TakeFrames(st, ds, id, loads).Some? <==>
      DataOnStreamOne(ds) && |st.body + Concat(Payloads(ds))| <= MAX_HTTP_REQUEST
    ensures TakeFrames(st, ds, id, loads).Some? ==>
      TakeFrames(st, ds, id, loads).value ==
        Reading(true, st.complete || AnyFin(ds), st.body + Concat(Payloads(ds)))
    decreases |ds|
  {
    if ds != [] {
      var (f, rest) := (ds[0], ds[1..]);
      assert ds == [f] + rest;
      assert Payloads(ds)[1..] == Payloads(rest);
      assert st.body + Concat(Payloads(ds)) == st.body + f.payload + Concat(Payloads(rest));
      assert DataOnStreamOne(ds) <==> DataOnStreamOne([f]) && DataOnStreamOne(rest);
      assert AnyFin(ds) <==> f.Fin() || AnyFin(rest);
      var next := TakeFrame(st, f, id, loads);
      if next.Some? {
        TakeData(next.value, rest, id, loads);
      }
    }
  }

  /** The first `k` turns carry, in nonempty chunks, exactly one framed request. */
  ghost predicate CarriesRequest(
    turns: seq<bytes>, k: nat, text: bytes, chunks: seq<bytes>, id: bytes, loads: bytes -> Option<Control>)
  {
    && k <= |turns| && [] !in turns[..k]
    && AllValid(Script(text, chunks)) && Concat(turns[..k]) == EncodeAll(Script(text, chunks))
    && loads(text) == Some(OpenRequest(id))
    && 1 <= |chunks| < GATEWAY_FRAMES
    && |Concat(chunks)| <= MAX_HTTP_REQUEST && ValidRequest(Concat(chunks), id)
  }

  /** What the outer loop has read when it stops, as one feed after the other. */
  lemma {:induction false} ReceivedRun(d: Decoder, st: Reading, turns: seq<bytes>, id: bytes, loads: bytes -> Option<Control>)
    returns (k: nat, fs: seq<Frame>, end: Decoder)
    requires Received(d, st, turns, id, loads).Some?
    ensures k <= |turns| && [] !in turns[..k]
    ensures FeedAll(d, turns[..k], GATEWAY_FRAMES) == Ok((fs, end)) && FinishError(end) == None
    ensures TakeFrames(st, fs, id, loads).Some?
    ensures Taken(end, TakeFrames(st, fs, id, loads).value, id) == Received(d, st, turns, id, loads)
    decreases |turns|
  {
    hide FeedResult, TakeFrame, ValidRequest;
    if turns == [] || st.complete {
      k, fs, end := 0, [], d;
    } else {
      var (first, next) := FeedResult(d, turns[0], GATEWAY_FRAMES).value;
      var st' := TakeFrames(st, first, id, loads).value;
      var k', rest, e := ReceivedRun(next, st', turns[1..], id, loads);
      k, fs, end := k' + 1, first + rest, e;
      assert turns[..k] == [turns[0]] + turns[1..][..k'];
      assert turns[..k][1..] == turns[1..][..k'];
      TakeFramesAppend(st, first, rest, id, loads);
    }
  }

  /** The reader goes on until the last chunk and no further. */
  lemma {:induction false} ReceivesAll(
    d: Decoder, st: Reading, turns: seq<bytes>, later: seq<bytes>, id: bytes, loads: bytes -> Option<Control>,
    fs: seq<Frame>, end: Decoder)
    requires Partial(d.buffer) && [] !in turns
    requires FeedAll(d, turns, GATEWAY_FRAMES) == Ok((fs, end)) && end.buffer == []
    requires TakeFrames(st, fs, id, loads).Some? && TakeFrames(st, fs, id, loads).value.complete
    requires forall i | 0 <= i < |fs| :: TakeFrames(st, fs[..i], id, loads).Some? ==> !TakeFrames(st, fs[..i], id, loads).value.complete
    ensures Received(d, st, turns + later, id, loads) == Taken(end, TakeFrames(st, fs, id, loads).value, id)
    decreases |turns|
  {
    hide TakeFrame, ValidRequest, Drain;
    if turns == [] {
      assert turns + later == later;
    } else {
      SomethingRead(d, turns, fs, end);
      assert fs[..0] == [];
      assert !st.complete;
      var (first, next) := FeedResult(d, turns[0], GATEWAY_FRAMES).value;
      var rest := FeedAll(next, turns[1..], GATEWAY_FRAMES).value.0;
      assert fs == first + rest;
      BufferLimitNeverReached(d, turns[0], GATEWAY_FRAMES);
      TakeFramesAppend(st, first, rest, id, loads);
      assert (turns + later)[0] == turns[0] && (turns + later)[1..] == turns[1..] + later;
      var st' := TakeFrames(st, first, id, loads).value;
      forall i | 0 <= i < |rest|
        ensures TakeFrames(st', rest[..i], id, loads).Some? ==> !TakeFrames(st', rest[..i], id, loads).value.complete
      {
        TakeFramesAppend(st, first, rest[..i], id, loads);
        assert fs[..|first| + i] == first + rest[..i];
      }
      ReceivesAll(next, st', turns[1..], later, id, loads, rest, end);
    }
  }

  lemma SomethingRead(d: Decoder, turns: seq<bytes>, fs: seq<Frame>, end: Decoder)
    requires Partial(d.buffer) && [] !in turns && turns != []
    requires FeedAll(d, turns, GATEWAY_FRAMES) == Ok((fs, end)) && end.buffer == []
    ensures fs != []
  {
    hide Encode;
    ChunkingInvariance(d, turns, GATEWAY_FRAMES);
    BufferLimitNeverReached(d, Concat(turns), GATEWAY_FRAMES);
    DrainSound(d.buffer + Concat(turns), d.machine, GATEWAY_FRAMES);
    assert Concat(turns) != [] by { assert turns[0] in turns; }
  }

  lemma RequestFrames(fs: seq<Frame>, id: bytes, loads: bytes -> Option<Control>)
    requires InLanguage(fs, GATEWAY_FRAMES)
    requires TakeFrames(START, fs, id, loads).Some? && TakeFrames(START, fs, id, loads).value.complete
    ensures fs != [] && fs == Script(fs[0].payload, Payloads(fs[1..])) && |fs| > 1
    ensures loads(fs[0].payload) == Some(OpenRequest(id))
    ensures TakeFrames(START, fs, id, loads).value.body == Concat(Payloads(fs[1..]))
    ensures |Concat(Payloads(fs[1..]))| <= MAX_HTTP_REQUEST
  {
    hide Encode;
    assert fs != [];
    var data := fs[1..];
    assert fs == [fs[0]] + data;
    TakeData(START.(isOpen := true), data, id, loads);
    assert fs[0] in fs && data != [];
    ProjectAll(fs, 1);
    assert StreamComplete(1, fs);
    assert TcpComplete(fs);
    assert Last(fs) in data;
    OnlyScripts(fs, GATEWAY_FRAMES);
  }

  lemma TakeScript(text: bytes, chunks: seq<bytes>, id: bytes, loads: bytes -> Option<Control>)
    requires chunks != [] && loads(text) == Some(OpenRequest(id)) && |Concat(chunks)| <= MAX_HTTP_REQUEST
    ensures TakeFrames(START, Script(text, chunks), id, loads) == Some(Reading(true, true, Concat(chunks)))
  {
    hide DataOnStreamOne, AnyFin, Payloads, DataFrames;
    var fs := Script(text, chunks);
    ScriptData(text, chunks);
    assert fs[0] == OpenFrame(text);
    TakeData(START.(isOpen := true), fs[1..], id, loads);
    assert [] + Concat(chunks) == Concat(chunks);
  }

  lemma TakeScriptPrefix(text: bytes, chunks: seq<bytes>, i: nat, id: bytes, loads: bytes -> Option<Control>)
    requires i <= |chunks| && chunks != []
    ensures var r := TakeFrames(START, Script(text, chunks)[..i], id, loads); r.Some? ==> !r.value.complete
  {
    hide DataOnStreamOne, AnyFin, Payloads;
    var fs := Script(text, chunks);
    if i > 0 {
      ScriptData(text, chunks);
      OnlyLastFin(chunks, i - 1);
      assert fs[..i][0] == fs[0] == OpenFrame(text) && fs[..i][1..] == fs[1..][..i - 1];
      TakeData(START.(isOpen := true), fs[1..][..i - 1], id, loads);
    }
  }

  /** The exact request language: the gateway takes `body` as the request if and
      only if its first turns carry, however cut, one framed exchange whose
      TCP_OPEN names the resource and whose payload is a valid request. */
  lemma RequestExact(turns: seq<bytes>, id: bytes, loads: bytes -> Option<Control>, body: bytes)
    ensures Received(NEW, START, turns, id, loads) == Some(body) <==>
      exists k, text, chunks :: CarriesRequest(turns, k, text, chunks, id, loads) && body == Concat(chunks)
  {
    hide Encode, Drain, ValidRequest, TakeFrame;
    if Received(NEW, START, turns, id, loads) == Some(body) {
      var k, fs, end := ReceivedRun(NEW, START, turns, id, loads);
      AcceptsExactly(turns[..k], GATEWAY_FRAMES, fs);
      RequestFrames(fs, id, loads);
      assert CarriesRequest(turns, k, fs[0].payload, Payloads(fs[1..]), id, loads);
    }
    forall k, text, chunks | CarriesRequest(turns, k, text, chunks, id, loads) && body == Concat(chunks)
      ensures Received(NEW, START, turns, id, loads) == Some(body)
    {
      RequestTaken(turns, k, text, chunks, id, loads);
    }
  }

  lemma RequestTaken(turns: seq<bytes>, k: nat, text: bytes, chunks: seq<bytes>, id: bytes, loads: bytes -> Option<Control>)
    requires CarriesRequest(turns, k, text, chunks, id, loads)
    ensures Received(NEW, START, turns, id, loads) == Some(Concat(chunks))
  {
    hide Encode, Drain, ValidRequest, TakeFrame;
    var fs := Script(text, chunks);
    ValidScriptSized(text, chunks);
    ScriptInLanguage(text, chunks, GATEWAY_FRAMES);
    AcceptsExactly(turns[..k], GATEWAY_FRAMES, fs);
    var end := FeedAll(NEW, turns[..k], GATEWAY_FRAMES).value.1;
    TakeScript(text, chunks, id, loads);
    forall i | 0 <= i < |fs|
      ensures var r := TakeFrames(START, fs[..i], id, loads); r.Some? ==> !r.value.complete
    {
      TakeScriptPrefix(text, chunks, i, id, loads);
    }
    ReceivesAll(NEW, START, turns[..k], turns[k..], id, loads, fs, end);
    assert turns[..k] + turns[k..] == turns;
  }

  lemma ValidScriptSized(text: bytes, chunks: seq<bytes>)
    requires AllValid(Script(text, chunks))
    ensures |text| <= MAX_PAYLOAD && Sized(chunks)
  {
    var fs := Script(text, chunks);
    assert fs[0] in fs;
    forall c <- chunks ensures |c| <= MAX_PAYLOAD {
      var i :| 0 <= i < |chunks| && chunks[i] == c;
      assert fs[i + 1] in fs && fs[i + 1] == ScriptFrame(chunks, i);
    }
  }

  /** `fetch`, up to its reading of the response: nothing is sent for a path that
      is not allowed. */
  method SendRequest(path: bytes, id: bytes) returns (sent: Option<bytes>)
    requires ResourceId(id)
    ensures sent.Some? <==> path != [] && path[0] == 0x2F && |path| <= 2_048 && forall c <- path :: 0x21 <= c <= 0x7E
    ensures sent.Some? ==>
      AllValid(Script(RequestText(id), [Print(path, id)])) && sent.value == EncodeAll(Script(RequestText(id), [Print(path, id)]))
  {
    hide Encode, Print;
    if !PathAllowed(path) { return None; }
    OpenEncodes(id);
    PrintedIsValid(path, id);
    var open := EncodeControl(TcpOpen, 0, RequestText(id), 1).value;
    var data := Frame(TcpData, 1, Print(path, id), 1, FLAG_FIN);
    ExchangeFrameValid(data);
    assert Script(RequestText(id), [Print(path, id)]) == [open, data];
    EncodeTwo(open, data);
    return Some(Encoded(open) + Encoded(data));
  }

  lemma EncodeTwo(f: Frame, g: Frame)
    requires Valid(f) && Valid(g)
    ensures EncodeAll([f, g]) == Encoded(f) + Encoded(g)
  {
    hide Encode;
    assert [f, g][1..] == [g] && [g][1..] == [];
    assert EncodeAll([g]) == Encoded(g);
  }

  /** End to end: the two frames `fetch` sends encode, and however cut in transit
      and whatever follows them, give the gateway exactly the printed request. */
  lemma FetchRequestDelivered(
    path: bytes, id: bytes, received: seq<bytes>, later: seq<bytes>, loads: bytes -> Option<Control>)
    requires PathAllowed(path) && ResourceId(id) && Lawful(loads) && [] !in received
    ensures AllValid(Script(RequestText(id), [Print(path, id)]))
    ensures Concat(received) == EncodeAll(Script(RequestText(id), [Print(path, id)])) ==>
      Received(NEW, START, received + later, id, loads) == Some(Print(path, id))
  {
    hide Encode, Drain, Print, ValidRequest, PathAllowed, Received, Target, RequestLines, Hosts, Script;
    var turns := received + later;
    assert turns[..|received|] == received;
    PrintedIsValid(path, id);
    ScriptsValid(RequestText(id), [Print(path, id)]);
    hide RequestText;
    assert Concat([Print(path, id)]) == Print(path, id) by {
      assert [Print(path, id)][1..] == [];
    }
    if Concat(received) == EncodeAll(Script(RequestText(id), [Print(path, id)])) {
      assert CarriesRequest(turns, |received|, RequestText(id), [Print(path, id)], id, loads);
      RequestTaken(turns, |received|, RequestText(id), [Print(path, id)], id, loads);
    }
  }
}
