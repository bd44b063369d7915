/** A response on the data plane: the gateway's relay loop over what `recv`
    returned, the client's reader, and what gets from one to the other. */
module Relay {
  import opened Wrappers
  import opened Bytes
  import opened ResourceIds
  import opened Frames
  import opened StreamMachine
  import opened FrameCodecs
  import opened HttpRequest
  import opened Exchange

  const RECV_SIZE := 65_536
  const MAX_RELAY_BYTES := 4 * 1024 * 1024
  const CLIENT_FRAMES := 1_024

  /** One turn of the gateway's relay loop. An empty chunk is the end of the
      upstream; the list of turns ends when the relay deadline passes. */
  datatype Turn = SessionGone | RecvTimeout | Chunk(data: bytes)

  predicate RecvSized(turns: seq<Turn>) { forall t <- turns :: t.Chunk? ==> |t.data| <= RECV_SIZE }

  /** The chunks that are passed on, and whether the relay saw the upstream end. */
  function Relayed(turns: seq<Turn>, transferred: nat): (r: (seq<bytes>, bool))
    ensures transferred <= MAX_RELAY_BYTES ==> |r.0| + transferred <= MAX_RELAY_BYTES
  {
    if turns == [] || turns[0].SessionGone? then ([], false)
    else if turns[0].RecvTimeout? then Relayed(turns[1..], transferred)
    else
      var chunk := turns[0].data;
      if chunk == [] then ([], true)
      else if transferred + |chunk| > MAX_RELAY_BYTES then ([], false)
      else
        var rest := Relayed(turns[1..], transferred + |chunk|);
        ([chunk] + rest.0, rest.1)
  }

  lemma {:induction false} RelayedSized(turns: seq<Turn>, transferred: nat)
    requires RecvSized(turns)
    ensures Sized(Relayed(turns, transferred).0)
  {
    if turns != [] && !turns[0].SessionGone? {
      RelayedSized(turns[1..], if turns[0].Chunk? then transferred + |turns[0].data| else transferred);
      assert turns[0] in turns;
    }
  }

  /** The data of the first `k` turns. */
  function DataOf(turns: seq<Turn>, k: nat): bytes
    requires k <= |turns|
  {
    if k == 0 then []
    else DataOf(turns, k - 1) + if turns[k - 1].Chunk? then turns[k - 1].data else []
  }

  /** The relay goes on after the first `k` turns: the session is there, the upstream
      has not ended, and no more than 4 MiB have come. */
  predicate GoesOn(turns: seq<Turn>, k: nat)
    requires k <= |turns|
  {
    && (forall i | 0 <= i < k :: !turns[i].SessionGone? && turns[i] != Chunk([]))
    && |DataOf(turns, k)| <= 4_194_304
  }

  /** The relay stops after exactly `k` turns; at the end of the upstream or otherwise. */
  predicate StopsAfter(turns: seq<Turn>, k: nat) {
    k <= |turns| && GoesOn(turns, k) && (k < |turns| ==> !GoesOn(turns, k + 1))
  }

  /** What is passed on is what the upstream sent, all of it and in order, until the
      relay stops, and it counts as ended only if the upstream ended there. */
  lemma RelayedExact(turns: seq<Turn>, k: nat)
    requires StopsAfter(turns, k)
    ensures var (chunks, ended) := Relayed(turns, 0);
      Concat(chunks) == DataOf(turns, k) && [] !in chunks && (ended <==> k < |turns| && turns[k] == Chunk([]))
  {
    hide Relayed;
    RelayedFrom(turns, k, 0);
    assert turns[0..] == turns;
    assert DataOf(turns, 0) == [];
    assert [] + Concat(Relayed(turns, 0).0) == Concat(Relayed(turns, 0).0);
  }

  /** There is always one such place. */
  lemma StopExists(turns: seq<Turn>) returns (k: nat)
    ensures StopsAfter(turns, k)
  {
    k := 0;
    while k < |turns| && GoesOn(turns, k + 1)
      invariant k <= |turns| && GoesOn(turns, k)
    {
      k := k + 1;
    }
  }

  lemma {:induction false} DataGrows(turns: seq<Turn>, i: nat, k: nat)
    requires i <= k <= |turns|
    ensures |DataOf(turns, i)| <= |DataOf(turns, k)|
    decreases k
  {
    if i < k {
      DataGrows(turns, i, k - 1);
    }
  }

  lemma DataNext(turns: seq<Turn>, i: nat, rest: seq<bytes>)
    requires i < |turns|
    ensures !turns[i].Chunk? ==> DataOf(turns, i + 1) == DataOf(turns, i)
    ensures turns[i].Chunk? ==>
      && DataOf(turns, i + 1) == DataOf(turns, i) + turns[i].data
      && DataOf(turns, i) + Concat([turns[i].data] + rest) == DataOf(turns, i + 1) + Concat(rest)
  {
    if turns[i].Chunk? {
      assert ([turns[i].data] + rest)[1..] == rest;
    } else {
      assert DataOf(turns, i) + [] == DataOf(turns, i);
    }
  }

  lemma {:induction false} RelayedFrom(turns: seq<Turn>, k: nat, i: nat)
    requires StopsAfter(turns, k) && i <= k
    ensures var (chunks, ended) := Relayed(turns[i..], |DataOf(turns, i)|);
      && DataOf(turns, i) + Concat(chunks) == DataOf(turns, k) && [] !in chunks
      && (ended <==> k < |turns| && turns[k] == Chunk([]))
    decreases k - i
  {
    hide Relayed, DataOf, Concat;
    if i == k {
      StopsHere(turns, k);
    } else {
      RelayedFrom(turns, k, i + 1);
      GoesOnHere(turns, k, i);
    }
  }

  lemma StopsHere(turns: seq<Turn>, k: nat)
    requires StopsAfter(turns, k)
    ensures var (chunks, ended) := Relayed(turns[k..], |DataOf(turns, k)|);
      chunks == [] && DataOf(turns, k) + Concat(chunks) == DataOf(turns, k) && (ended <==> k < |turns| && turns[k] == Chunk([]))
  {
    assert DataOf(turns, k) + [] == DataOf(turns, k);
    if k == |turns| {
      assert turns[k..] == [];
    } else {
      DataNext(turns, k, []);
      assert turns[k..] == [turns[k]] + turns[k + 1..];
      hide DataOf, Relayed;
      RelayedCons(turns[k], turns[k + 1..], |DataOf(turns, k)|);
    }
  }

  lemma GoesOnHere(turns: seq<Turn>, k: nat, i: nat)
    requires StopsAfter(turns, k) && i < k
    ensures var (n, next) := (|DataOf(turns, i)|, Relayed(turns[i + 1..], |DataOf(turns, i + 1)|));
      && Relayed(turns[i..], n) == (if turns[i].Chunk? then [turns[i].data] + next.0 else next.0, next.1)
      && DataOf(turns, i) + Concat(Relayed(turns[i..], n).0) == DataOf(turns, i + 1) + Concat(next.0)
      && (turns[i].Chunk? ==> turns[i].data != [])
  {
    var next := Relayed(turns[i + 1..], |DataOf(turns, i + 1)|);
    DataNext(turns, i, next.0);
    DataGrows(turns, i + 1, k);
    assert turns[i..] == [turns[i]] + turns[i + 1..];
    hide DataOf, Relayed, Concat;
    RelayedCons(turns[i], turns[i + 1..], |DataOf(turns, i)|);
  }

  /** The frames the gateway sends: complete only if the upstream ended. */
  function RelayFrames(turns: seq<Turn>, id: bytes): seq<Frame> {
    var (chunks, ended) := Relayed(turns, 0);
    if ended then Script(AckText(id), chunks + [[]]) else Unfinished(AckText(id), chunks)
  }

  lemma UnfinishedAppend(text: bytes, chunks: seq<bytes>, c: bytes)
    ensures Unfinished(text, chunks + [c]) ==
      Unfinished(text, chunks) + [Frame(TcpData, |chunks| + 1, c, 1, 0)]
    ensures Script(text, chunks + [c]) ==
      Unfinished(text, chunks) + [Frame(TcpData, |chunks| + 1, c, 1, FLAG_FIN)]
  {
  }

  /** `chunks` have been passed on in the first `i` turns, and the relay goes on. */
  predicate PassedOn(turns: seq<Turn>, i: nat, transferred: nat, chunks: seq<bytes>)
    requires i <= |turns|
  {
    var rest := Relayed(turns[i..], transferred);
    Relayed(turns, 0) == (chunks + rest.0, rest.1)
  }

  lemma PassedOnStart(turns: seq<Turn>)
    ensures PassedOn(turns, 0, 0, [])
  {
    assert turns[0..] == turns;
    assert [] + Relayed(turns, 0).0 == Relayed(turns, 0).0;
  }

  lemma PassedOnNext(turns: seq<Turn>, i: nat, transferred: nat, chunks: seq<bytes>)
    requires i <= |turns| && PassedOn(turns, i, transferred, chunks)
    ensures i == |turns| || turns[i].SessionGone? ==> Relayed(turns, 0) == (chunks, false)
    ensures i < |turns| && turns[i].RecvTimeout? ==> PassedOn(turns, i + 1, transferred, chunks)
    ensures i < |turns| && turns[i].Chunk? ==>
      var c := turns[i].data;
      if c == [] then Relayed(turns, 0) == (chunks, true)
      else if transferred + |c| > MAX_RELAY_BYTES then Relayed(turns, 0) == (chunks, false)
      else PassedOn(turns, i + 1, transferred + |c|, chunks + [c])
  {
    hide Relayed;
    assert chunks + [] == chunks;
    RelayedNil(transferred);
    if i < |turns| {
      var later := turns[i + 1..];
      assert turns[i..] == [turns[i]] + later;
      RelayedCons(turns[i], later, transferred);
      if turns[i].Chunk? {
        var rest := Relayed(later, transferred + |turns[i].data|).0;
        assert chunks + ([turns[i].data] + rest) == chunks + [turns[i].data] + rest;
      }
    }
  }

  lemma RelayedNil(transferred: nat)
    ensures Relayed([], transferred) == ([], false)
  {
  }

  lemma RelayedCons(turn: Turn, later: seq<Turn>, transferred: nat)
    ensures Relayed([turn] + later, transferred) ==
      match turn
      case SessionGone => ([], false)
      case RecvTimeout => Relayed(later, transferred)
      case Chunk(c) =>
        if c == [] then ([], true)
        else if transferred + |c| > MAX_RELAY_BYTES then ([], false)
        else ([c] + Relayed(later, transferred + |c|).0, Relayed(later, transferred + |c|).1)
  {
    assert ([turn] + later)[1..] == later;
  }

  /** The gateway's response: TCP_OPEN, then a frame for each turn that yields one. */
  method RelayResponse(turns: seq<Turn>, id: bytes) returns (sent: bytes)
    requires ResourceId(id) && RecvSized(turns)
    ensures AllValid(RelayFrames(turns, id)) && sent == EncodeAll(RelayFrames(turns, id))
  {
    hide Encode, Unfinished, Script, Relayed, PassedOn;
    OpenEncodes(id);
    var open := EncodeControl(TcpOpen, 0, AckText(id), 1).value;
    ghost var chunks: seq<bytes> := [];
    NothingSent(AckText(id));
    PassedOnStart(turns);
    sent := Encoded(open);
    var sequence, transferred := 1, 0;
    for i := 0 to |turns|
      invariant sequence == |chunks| + 1 && |chunks| <= transferred <= MAX_RELAY_BYTES
      invariant AllValid(Unfinished(AckText(id), chunks)) && sent == EncodeAll(Unfinished(AckText(id), chunks))
      invariant PassedOn(turns, i, transferred, chunks)
    {
      PassedOnNext(turns, i, transferred, chunks);
      assert turns[i] in turns;
      match turns[i]
      case SessionGone => return;
      case RecvTimeout =>
      case Chunk(chunk) =>
        if chunk == [] {
          var last := Frame(TcpData, sequence, [], 1, FLAG_FIN);
          ExchangeFrameValid(last);
          SentOneMore(AckText(id), chunks, [], last);
          sent := sent + Encoded(last);
          return;
        }
        transferred := transferred + |chunk|;
        if transferred > MAX_RELAY_BYTES { return; }
        var f := Frame(TcpData, sequence, chunk, 1, 0);
        ExchangeFrameValid(f);
        SentOneMore(AckText(id), chunks, chunk, f);
        sent := sent + Encoded(f);
        sequence := sequence + 1;
        chunks := chunks + [chunk];
    }
    PassedOnNext(turns, |turns|, transferred, chunks);
  }

  lemma NothingSent(text: bytes)
    requires Valid(OpenFrame(text))
    ensures AllValid(Unfinished(text, [])) && EncodeAll(Unfinished(text, [])) == Encoded(OpenFrame(text))
  {
    hide Encode;
    var open := OpenFrame(text);
    assert Unfinished(text, []) == [open];
    assert [open][1..] == [];
    assert EncodeAll([open]) == Encoded(open) + EncodeAll([]);
  }

  lemma SentOneMore(text: bytes, chunks: seq<bytes>, c: bytes, f: Frame)
    requires AllValid(Unfinished(text, chunks)) && Valid(f)
    requires f == Frame(TcpData, |chunks| + 1, c, 1, f.flags) && f.flags in {0, FLAG_FIN}
    ensures var fs := if f.flags == 0 then Unfinished(text, chunks + [c]) else Script(text, chunks + [c]);
      AllValid(fs) && EncodeAll(fs) == EncodeAll(Unfinished(text, chunks)) + Encoded(f)
  {
    hide Encode;
    UnfinishedAppend(text, chunks, c);
    assert [f][1..] == [];
    assert EncodeAll([f]) == Encoded(f) + EncodeAll([]);
    EncodeAllAppend(Unfinished(text, chunks), [f]);
  }

  /** Why `fetch` gives up on a response. */
  datatype FetchError = ResponseTooLarge | InvalidFraming | NoOpenFrame | BadAcknowledgement | Incomplete

  /** The last check of `fetch`, on the frames it got. */
  function Accepted(fs: seq<Frame>, id: bytes, loads: bytes -> Option<Control>): Result<bytes, FetchError> {
    if fs == [] || fs[0].kind != TcpOpen || fs[0].streamId != 1 then Err(NoOpenFrame)
    else if DecodeControl(fs[0], loads) != Ok(OpenAck(id)) then Err(BadAcknowledgement)
    else
      var data := fs[1..];
      if data == [] || !Last(data).Fin() || exists f <- data :: f.kind != TcpData || f.Rst() then Err(Incomplete)
      else Ok(Concat(Payloads(data)))
  }

  function Fetched(framed: bytes, id: bytes, loads: bytes -> Option<Control>): Result<bytes, FetchError> {
    if |framed| > MAX_HTTP_RESPONSE then Err(ResponseTooLarge)
    else match FeedResult(NEW, framed, CLIENT_FRAMES)
      case Err(_) => Err(InvalidFraming)
      case Ok((fs, d)) => if FinishError(d).Some? then Err(InvalidFraming) else Accepted(fs, id, loads)
  }

  /** What `fetch` does after its request, on the chunks received before the
      connection ended. */
  method FetchResponse(received: seq<bytes>, id: bytes, loads: bytes -> Option<Control>)
    returns (r: Result<bytes, FetchError>)
    ensures r == Fetched(Concat(received), id, loads)
  {
    var all := ReadAll(received);
    if all == None { return Err(ResponseTooLarge); }
    var codec := new FrameCodec(CLIENT_FRAMES);
    var frames := codec.Feed(all.value);
    if frames.Err? { return Err(InvalidFraming); }
    var unfinished := codec.Finish();
    if unfinished.Some? { return Err(InvalidFraming); }
    return Accepted(frames.value, id, loads);
  }

  /** What the client accepts: exactly one framed exchange on stream 1, numbered
      0..n, FIN on the last frame only, and nothing on any other stream. */
  lemma FetchAcceptsOnlyScripts(framed: bytes, id: bytes, loads: bytes -> Option<Control>)
    requires Fetched(framed, id, loads).Ok?
    ensures exists text, chunks ::
      && AllValid(Script(text, chunks)) && framed == EncodeAll(Script(text, chunks))
      && loads(text) == Some(OpenAck(id)) && 1 <= |chunks| < CLIENT_FRAMES
      && Fetched(framed, id, loads).value == Concat(chunks)
  {
    hide Encode, Drain;
    var fs := FeedResult(NEW, framed, CLIENT_FRAMES).value.0;
    OneChunk(framed, CLIENT_FRAMES);
    AcceptsExactly([framed], CLIENT_FRAMES, fs);
    ConcatOne(framed);
    assert Last(fs) == Last(fs[1..]);
    OnlyScripts(fs, CLIENT_FRAMES);
  }

  lemma ScriptAccepted(text: bytes, chunks: seq<bytes>, id: bytes, loads: bytes -> Option<Control>)
    requires chunks != [] && loads(text) == Some(OpenAck(id))
    ensures Accepted(Script(text, chunks), id, loads) == Ok(Concat(chunks))
  {
    hide DataFrames, AnyFin, Payloads;
    ScriptData(text, chunks);
    assert Script(text, chunks)[0] == OpenFrame(text);
  }

  /** A script within the client's limits is accepted, and read back. */
  lemma FetchAcceptsScript(text: bytes, chunks: seq<bytes>, id: bytes, loads: bytes -> Option<Control>)
    requires |text| <= MAX_PAYLOAD && Sized(chunks) && 1 <= |chunks| < 0xFFFF_FFFF && loads(text) == Some(OpenAck(id))
    ensures AllValid(Script(text, chunks))
    ensures var framed := EncodeAll(Script(text, chunks));
      && (Fetched(framed, id, loads).Ok? <==> |framed| <= MAX_HTTP_RESPONSE && |chunks| < CLIENT_FRAMES)
      && (Fetched(framed, id, loads).Ok? ==> Fetched(framed, id, loads).value == Concat(chunks))
  {
    hide Encode, Drain, Accepted;
    ScriptsValid(text, chunks);
    var fs := Script(text, chunks);
    var framed := EncodeAll(fs);
    ScriptAccepted(text, chunks, id, loads);
    FetchedExactly(framed, fs, id, loads);
    if |chunks| < CLIENT_FRAMES {
      ScriptInLanguage(text, chunks, CLIENT_FRAMES);
    }
  }

  /** `fetch` on an encoded frame list: the codec's language and then the final check. */
  lemma FetchedExactly(framed: bytes, fs: seq<Frame>, id: bytes, loads: bytes -> Option<Control>)
    requires AllValid(fs) && framed == EncodeAll(fs)
    ensures Fetched(framed, id, loads).Ok? <==>
      |framed| <= MAX_HTTP_RESPONSE && InLanguage(fs, CLIENT_FRAMES) && Accepted(fs, id, loads).Ok?
    ensures Fetched(framed, id, loads).Ok? ==> Fetched(framed, id, loads) == Accepted(fs, id, loads)
  {
    hide Encode, Drain, Accepted, InLanguage;
    OneChunk(framed, CLIENT_FRAMES);
    ConcatOne(framed);
    AcceptsExactly([framed], CLIENT_FRAMES, fs);
    if Fetched(framed, id, loads).Ok? {
      var gs := FeedResult(NEW, framed, CLIENT_FRAMES).value.0;
      AcceptsExactly([framed], CLIENT_FRAMES, gs);
      InLanguageValid(gs, CLIENT_FRAMES);
      UniqueParse(fs, gs);
    }
  }

  lemma InLanguageValid(fs: seq<Frame>, maxFrames: int)
    requires InLanguage(fs, maxFrames)
    ensures AllValid(fs)
  {
  }

  /** The client's own limits, on the chunks it is sent. */
  predicate FitsClient(chunks: seq<bytes>, id: bytes) {
    && |chunks| + 2 <= CLIENT_FRAMES
    && HEADER_SIZE * (|chunks| + 2) + |AckText(id)| + |Concat(chunks)| <= MAX_HTTP_RESPONSE
  }

  /** End to end: whatever the upstream does and however the stream is cut in
      transit, the client accepts exactly when the relay saw the upstream end and
      the response fits the client's own limits, and then it has the upstream's
      bytes, all of them, in order. */
  lemma ResponseDelivered(turns: seq<Turn>, id: bytes, received: seq<bytes>, loads: bytes -> Option<Control>)
    requires ResourceId(id) && RecvSized(turns) && Lawful(loads)
    ensures AllValid(RelayFrames(turns, id))
    ensures Concat(received) == EncodeAll(RelayFrames(turns, id)) ==>
      var (chunks, ended) := Relayed(turns, 0);
      var r := Fetched(Concat(received), id, loads);
      && (r.Ok? <==> ended && FitsClient(chunks, id))
      && (r.Ok? ==> r.value == Concat(chunks))
  {
    hide Encode, Drain, Fetched;
    var (chunks, ended) := Relayed(turns, 0);
    var framed := Concat(received);
    RelayedSized(turns, 0);
    RelayFramesValid(turns, id);
    if framed == EncodeAll(RelayFrames(turns, id)) {
      if ended {
        assert Sized(chunks + [[]]);
        FetchAcceptsScript(AckText(id), chunks + [[]], id, loads);
        ScriptLength(AckText(id), chunks + [[]]);
        ConcatAppend(chunks, [[]]);
        ConcatOne([]);
      } else if Fetched(framed, id, loads).Ok? {
        UnfinishedRejected(AckText(id), chunks, id, loads);
      }
    }
  }

  lemma RelayFramesValid(turns: seq<Turn>, id: bytes)
    requires ResourceId(id) && RecvSized(turns)
    ensures AllValid(RelayFrames(turns, id))
  {
    var (chunks, ended) := Relayed(turns, 0);
    RelayedSized(turns, 0);
    ScriptsValid(AckText(id), if ended then chunks + [[]] else chunks);
  }

  lemma ScriptLength(text: bytes, chunks: seq<bytes>)
    requires AllValid(Script(text, chunks))
    ensures |EncodeAll(Script(text, chunks))| == HEADER_SIZE * (|chunks| + 1) + |text| + |Concat(chunks)|
  {
    hide Encode;
    var fs := Script(text, chunks);
    EncodedLength(fs);
    ConcatLength(chunks);
    assert Payloads(fs) == [text] + chunks;
    assert ([text] + chunks)[1..] == chunks;
  }

  /** A relay that stopped early is never taken for a complete response. */
  lemma UnfinishedRejected(text: bytes, chunks: seq<bytes>, id: bytes, loads: bytes -> Option<Control>)
    requires AllValid(Unfinished(text, chunks))
    ensures Fetched(EncodeAll(Unfinished(text, chunks)), id, loads).Err?
  {
    hide Encode;
    UnfinishedNotInLanguage(text, chunks, CLIENT_FRAMES);
    FetchedExactly(EncodeAll(Unfinished(text, chunks)), Unfinished(text, chunks), id, loads);
  }
}
