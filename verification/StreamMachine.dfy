/** The sequence and per-stream rules of `FrameCodec`, on frames already cut out
    of the buffer, and the exact language of frame lists they accept. */
module StreamMachine {
  import opened Wrappers
  import opened Frames

  datatype StreamKind = Tcp | L3

  /** `_next_sequence`, `_stream_kind`, `_closed_streams`, `_connection_closed`, `_frames`. */
  datatype Machine = Machine(
    next: map<int, int>,
    kind: map<int, StreamKind>,
    closed: set<int>,
    connectionClosed: bool,
    frames: int)

  const FRESH := Machine(map[], map[], {}, false, 0)

  function NextSequence(m: Machine, streamId: int): int {
    if streamId in m.next then m.next[streamId] else 0
  }

  function Advance(m: Machine, f: Frame): Result<Machine, ProtocolError> {
    if m.connectionClosed then Err(AfterClose)
    else if f.streamId == 0 then Ok(if f.kind == Close then m.(connectionClosed := true) else m)
    else if f.streamId in m.closed then Err(StreamClosed)
    else
      var kind := if f.streamId in m.kind then Some(m.kind[f.streamId]) else None;
      match f.kind
      case TcpOpen =>
        if kind.Some? || f.sequence != 0 then Err(AlreadyOpen) else Ok(m.(kind := m.kind[f.streamId := Tcp]))
      case TcpData =>
        if kind != Some(Tcp) then Err(NotOpen)
        else Ok(if f.Ends() then m.(closed := m.closed + {f.streamId}) else m)
      case L3Data =>
        if kind.Some? && kind != Some(L3) then Err(MixedStream) else Ok(m.(kind := m.kind[f.streamId := L3]))
      case _ => Ok(m)
  }

  /** What one decoded frame does to the decoder: lines 200-207 of the loop in `feed`. */
  function Step(m: Machine, f: Frame, maxFrames: int): Result<Machine, ProtocolError> {
    var expected := NextSequence(m, f.streamId);
    if f.sequence != expected then Err(SequenceGap)
    else match Advance(m, f)
      case Err(e) => Err(e)
      case Ok(a) =>
        var counted := a.(next := a.next[f.streamId := expected + 1], frames := a.frames + 1);
        if counted.frames > maxFrames then Err(FrameLimit) else Ok(counted)
  }

  /** The stream half of `finish`: every TCP stream has ended. */
  predicate AllEnded(m: Machine) {
    forall s <- m.kind :: m.kind[s] == Tcp ==> s in m.closed
  }

  /** The frames of a list, one after the other, from a fresh decoder. */
  function Run(fs: seq<Frame>, maxFrames: int): Result<Machine, ProtocolError> {
    if fs == [] then Ok(FRESH)
    else match Run(fs[..|fs| - 1], maxFrames)
      case Err(e) => Err(e)
      case Ok(m) => Step(m, fs[|fs| - 1], maxFrames)
  }

  /** The accepted language, stated without the decoder's state: per stream, on
      the subsequence of frames that carry its id. */
  function Project(fs: seq<Frame>, streamId: int): seq<Frame> {
    if fs == [] then []
    else
      var rest := Project(fs[..|fs| - 1], streamId);
      if fs[|fs| - 1].streamId == streamId then rest + [fs[|fs| - 1]] else rest
  }

  predicate Numbered(p: seq<Frame>) { forall i | 0 <= i < |p| :: p[i].sequence == i }

  /** TCP_OPEN, then TCP_DATA, of which only the last may carry FIN or RST. */
  predicate TcpSoFar(p: seq<Frame>) {
    && p != [] && p[0].kind == TcpOpen
    && forall i | 1 <= i < |p| :: p[i].kind == TcpData && (p[i].Ends() ==> i == |p| - 1)
  }

  predicate TcpComplete(p: seq<Frame>) { TcpSoFar(p) && |p| > 1 && p[|p| - 1].Ends() }

  predicate L3Only(p: seq<Frame>) { forall f <- p :: f.kind == L3Data }

  predicate StreamSoFar(s: int, p: seq<Frame>) { Numbered(p) && (s != 0 ==> TcpSoFar(p) || L3Only(p)) }

  predicate StreamComplete(s: int, p: seq<Frame>) { Numbered(p) && (s != 0 ==> TcpComplete(p) || L3Only(p)) }

  ghost predicate StreamsSoFar(fs: seq<Frame>) { forall s :: StreamSoFar(s, Project(fs, s)) }

  ghost predicate StreamsComplete(fs: seq<Frame>) { forall s :: StreamComplete(s, Project(fs, s)) }

  predicate CloseOnlyLast(fs: seq<Frame>) {
    forall i | 0 <= i < |fs| :: fs[i].kind == Close ==> i == |fs| - 1
  }

  /** Every stream so far follows one of the two shapes, and nothing follows a CLOSE. */
  ghost predicate Shaped(fs: seq<Frame>) {
    StreamsSoFar(fs) && CloseOnlyLast(fs)
  }

  /** The frame lists a fresh decoder takes in and `finish` then accepts. */
  ghost predicate InLanguage(fs: seq<Frame>, maxFrames: int) {
    |fs| <= maxFrames && AllValid(fs) && CloseOnlyLast(fs) && StreamsComplete(fs)
  }

  /** The decoder's fields, read off the frames it has taken in. */
  ghost predicate Describes(m: Machine, fs: seq<Frame>) {
    && m.frames == |fs|
    && (m.connectionClosed <==> fs != [] && fs[|fs| - 1].kind == Close)
    && forall s :: DescribesStream(m, s, Project(fs, s))
  }

  predicate DescribesStream(m: Machine, s: int, p: seq<Frame>) {
    && NextSequence(m, s) == |p|
    && (s in m.kind <==> s != 0 && p != [])
    && (s in m.kind ==> m.kind[s] == (if p[0].kind == TcpOpen then Tcp else L3))
    && (s in m.closed <==> s != 0 && p != [] && Last(p).Ends())
  }

  function Last<T>(s: seq<T>): T
    requires s != []
  {
    s[|s| - 1]
  }

  lemma ProjectSnoc(fs: seq<Frame>, f: Frame, s: int)
    ensures Project(fs + [f], s) == if f.streamId == s then Project(fs, s) + [f] else Project(fs, s)
  {
    assert (fs + [f])[..|fs|] == fs;
  }

  lemma {:induction false} ProjectMembers(fs: seq<Frame>, s: int)
    ensures forall f <- Project(fs, s) :: f in fs && f.streamId == s
  {
    if fs != [] {
      ProjectMembers(fs[..|fs| - 1], s);
    }
  }

  /** What `Encode` guarantees about kinds, streams and flags. */
  predicate KindFits(f: Frame) {
    && (f.Control() <==> f.streamId == 0)
    && (f.Ends() ==> f.kind == TcpData)
  }

  lemma ValidKindFits(f: Frame)
    requires Valid(f)
    ensures KindFits(f)
  {
    assert SemanticError(f) == None;
  }

  lemma ShapeShrinks(fs: seq<Frame>, f: Frame)
    requires Shaped(fs + [f])
    ensures Shaped(fs)
  {
    var gs := fs + [f];
    forall s ensures StreamSoFar(s, Project(fs, s)) {
      ProjectSnoc(fs, f, s);
      var (p, q) := (Project(fs, s), Project(gs, s));
      assert StreamSoFar(s, q);
      assert forall i | 0 <= i < |p| :: p[i] == q[i];
    }
    assert forall i | 0 <= i < |fs| :: fs[i] == gs[i];
  }

  /** When one more frame keeps the shape of a nonzero stream. */
  predicate Extends(p: seq<Frame>, f: Frame) {
    && f.sequence == |p|
    && (p != [] ==> !Last(p).Ends())
    && (f.kind == TcpOpen ==> p == [])
    && (f.kind == TcpData ==> p != [] && p[0].kind == TcpOpen)
    && (f.kind == L3Data ==> p == [] || p[0].kind != TcpOpen)
  }

  lemma StreamExtends(s: int, p: seq<Frame>, f: Frame)
    requires s != 0 && StreamSoFar(s, p) && KindFits(f) && f.streamId == s
    requires forall g <- p :: KindFits(g) && g.streamId == s
    ensures StreamSoFar(s, p + [f]) <==> Extends(p, f)
  {
    var q := p + [f];
    assert q[|p|] == f && forall i | 0 <= i < |p| :: q[i] == p[i];
    if Extends(p, f) {
      assert p == [] || p[0].kind != TcpOpen ==> L3Only(q) || f.kind == TcpOpen;
    }
    if StreamSoFar(s, q) && p != [] {
      assert q[0] == p[0] && q[|p| - 1] == Last(p);
      assert p[0] in q && f in q && Last(p) in q;
    }
  }

  /** The decoder's own test for one frame is the test on the stream's past. */
  lemma AdvanceExact(m: Machine, fs: seq<Frame>, f: Frame)
    requires Shaped(fs) && Describes(m, fs) && KindFits(f) && (forall g <- fs :: KindFits(g))
    ensures f.sequence == NextSequence(m, f.streamId) && Advance(m, f).Ok? <==>
      && f.sequence == |Project(fs, f.streamId)|
      && (fs != [] ==> Last(fs).kind != Close)
      && (f.streamId != 0 ==> Extends(Project(fs, f.streamId), f))
  {
    var p := Project(fs, f.streamId);
    ProjectMembers(fs, f.streamId);
    assert StreamSoFar(f.streamId, p);
    assert DescribesStream(m, f.streamId, p);
    assert f.streamId != 0 && p != [] ==> p[0].kind == TcpOpen || p[0].kind == L3Data;
    assert p != [] && p[0].kind != TcpOpen && f.streamId != 0 ==> L3Only(p) && KindFits(Last(p));
  }

  lemma ShapeExtends(fs: seq<Frame>, f: Frame)
    requires Shaped(fs) && KindFits(f) && (forall g <- fs :: KindFits(g))
    ensures Shaped(fs + [f]) <==>
      && f.sequence == |Project(fs, f.streamId)|
      && (fs != [] ==> Last(fs).kind != Close)
      && (f.streamId != 0 ==> Extends(Project(fs, f.streamId), f))
  {
    var gs := fs + [f];
    var p := Project(fs, f.streamId);
    ProjectMembers(fs, f.streamId);
    ProjectSnoc(fs, f, f.streamId);
    assert StreamSoFar(f.streamId, p);
    if f.streamId != 0 {
      StreamExtends(f.streamId, p, f);
    } else {
      assert StreamSoFar(0, p + [f]) <==> f.sequence == |p| by {
        assert (p + [f])[|p|] == f;
      }
    }
    assert CloseOnlyLast(gs) <==> (fs != [] ==> Last(fs).kind != Close) by {
      assert fs != [] ==> gs[|fs| - 1] == Last(fs);
    }
    if StreamSoFar(f.streamId, p + [f]) {
      forall s ensures StreamSoFar(s, Project(gs, s)) {
        ProjectSnoc(fs, f, s);
        assert StreamSoFar(s, Project(fs, s));
      }
    }
  }

  lemma StepOwnStream(m: Machine, p: seq<Frame>, f: Frame, maxFrames: int)
    requires DescribesStream(m, f.streamId, p) && KindFits(f) && Step(m, f, maxFrames).Ok?
    ensures DescribesStream(Step(m, f, maxFrames).value, f.streamId, p + [f])
  {
    assert Last(p + [f]) == f;
    assert p != [] ==> (p + [f])[0] == p[0];
  }

  lemma StepOtherStream(m: Machine, s: int, p: seq<Frame>, f: Frame, maxFrames: int)
    requires DescribesStream(m, s, p) && f.streamId != s && Step(m, f, maxFrames).Ok?
    ensures DescribesStream(Step(m, f, maxFrames).value, s, p)
  {
  }

  /** The machine `n` describes whatever `m` described, with `f` appended. */
  ghost predicate Moves(m: Machine, n: Machine, f: Frame) {
    && n.frames == m.frames + 1
    && (n.connectionClosed <==> f.kind == Close)
    && forall s, p | DescribesStream(m, s, p) :: DescribesStream(n, s, if s == f.streamId then p + [f] else p)
  }

  lemma StepMoves(m: Machine, f: Frame, maxFrames: int)
    requires KindFits(f) && Step(m, f, maxFrames).Ok?
    ensures Moves(m, Step(m, f, maxFrames).value, f)
  {
    var n := Step(m, f, maxFrames).value;
    forall s, p | DescribesStream(m, s, p)
      ensures DescribesStream(n, s, if s == f.streamId then p + [f] else p)
    {
      if s == f.streamId {
        StepOwnStream(m, p, f, maxFrames);
      } else {
        StepOtherStream(m, s, p, f, maxFrames);
      }
    }
  }

  lemma MovesDescribes(m: Machine, n: Machine, fs: seq<Frame>, f: Frame)
    requires Describes(m, fs) && Moves(m, n, f)
    ensures Describes(n, fs + [f])
  {
    forall s ensures DescribesStream(n, s, Project(fs + [f], s)) {
      ProjectSnoc(fs, f, s);
      assert DescribesStream(m, s, Project(fs, s));
    }
  }

  /** One more frame is taken in exactly when it keeps every shape and the count. */
  lemma StepExact(m: Machine, fs: seq<Frame>, f: Frame, maxFrames: int)
    requires Shaped(fs) && Describes(m, fs) && KindFits(f) && (forall g <- fs :: KindFits(g))
    ensures Step(m, f, maxFrames).Ok? <==> |fs| < maxFrames && Shaped(fs + [f])
    ensures Step(m, f, maxFrames).Ok? ==> Describes(Step(m, f, maxFrames).value, fs + [f])
  {
    AdvanceExact(m, fs, f);
    ShapeExtends(fs, f);
    assert Advance(m, f).Ok? ==> Advance(m, f).value.frames == |fs|;
    if Step(m, f, maxFrames).Ok? {
      hide Step, Shaped;
      StepMoves(m, f, maxFrames);
      MovesDescribes(m, Step(m, f, maxFrames).value, fs, f);
    }
  }

  lemma NothingYet()
    ensures Shaped([]) && Describes(FRESH, [])
  {
  }

  /** How a stream of a list in the language ends: a TCP stream by FIN, or by RST
      without payload, on its last frame and on no other. */
  lemma EndedStreams(fs: seq<Frame>, maxFrames: int, s: int)
    requires InLanguage(fs, maxFrames) && Project(fs, s) != [] && Project(fs, s)[0].kind == TcpOpen
    ensures var p := Project(fs, s);
      && |p| > 1 && p[0].flags == 0 && s != 0
      && (p[|p| - 1].flags == 1 || (p[|p| - 1].flags == 2 && p[|p| - 1].payload == []))
      && forall i | 1 <= i < |p| - 1 :: p[i].kind == TcpData && p[i].flags == 0
  {
    hide Encode;
    var p := Project(fs, s);
    ProjectMembers(fs, s);
    assert StreamComplete(s, p);
    forall i | 0 <= i < |p| ensures Valid(p[i]) && p[i].streamId == s {
      assert p[i] in p;
    }
    forall i | 0 <= i < |p| ensures p[i].flags == 0 || p[i].Ends() {
      ValidExact(p[i]);
    }
    ValidExact(p[0]);
    ValidExact(p[|p| - 1]);
    assert !L3Only(p) by { assert p[0] in p; }
  }

  /** The decoder takes in a list of valid frames exactly when every stream has
      its shape, nothing follows a CLOSE, and the list is not too long. */
  lemma {:induction false} RunExact(fs: seq<Frame>, maxFrames: int)
    requires (forall f <- fs :: KindFits(f)) && maxFrames > 0
    ensures Run(fs, maxFrames).Ok? <==> |fs| <= maxFrames && Shaped(fs)
    ensures Run(fs, maxFrames).Ok? ==> Describes(Run(fs, maxFrames).value, fs)
  {
    hide Step, Shaped, Describes, KindFits;
    if fs == [] {
      NothingYet();
    } else {
      var (init, f) := (fs[..|fs| - 1], fs[|fs| - 1]);
      assert fs == init + [f];
      RunExact(init, maxFrames);
      if Shaped(fs) {
        ShapeShrinks(init, f);
      }
      if Run(init, maxFrames).Ok? {
        StepExact(Run(init, maxFrames).value, init, f, maxFrames);
      }
    }
  }

  lemma StreamEnded(m: Machine, s: int, p: seq<Frame>)
    requires StreamSoFar(s, p) && DescribesStream(m, s, p) && (forall f <- p :: KindFits(f))
    ensures (s in m.kind && m.kind[s] == Tcp ==> s in m.closed) <==> StreamComplete(s, p)
  {
    if p != [] && p[0].kind == TcpOpen {
      assert !L3Only(p) by { assert p[0] in p; }
      assert Last(p).Ends() ==> |p| > 1 by { assert KindFits(p[0]); }
    }
  }

  /** What `finish` asks of the streams, on the frames taken in. */
  lemma EndedExact(m: Machine, fs: seq<Frame>)
    requires Shaped(fs) && Describes(m, fs) && (forall f <- fs :: KindFits(f))
    ensures AllEnded(m) <==> StreamsComplete(fs)
  {
    forall s ensures (s in m.kind && m.kind[s] == Tcp ==> s in m.closed) <==> StreamComplete(s, Project(fs, s)) {
      ProjectMembers(fs, s);
      assert StreamSoFar(s, Project(fs, s)) && DescribesStream(m, s, Project(fs, s));
      StreamEnded(m, s, Project(fs, s));
    }
  }

  /** Exact language: the decoder takes in the list and `finish` accepts, if and
      only if the list is in the language. */
  lemma AcceptedLanguage(fs: seq<Frame>, maxFrames: int)
    requires AllValid(fs) && maxFrames > 0
    ensures Run(fs, maxFrames).Ok? && AllEnded(Run(fs, maxFrames).value) <==> InLanguage(fs, maxFrames)
  {
    forall f <- fs ensures KindFits(f) {
      ValidKindFits(f);
    }
    RunExact(fs, maxFrames);
    if Run(fs, maxFrames).Ok? {
      EndedExact(Run(fs, maxFrames).value, fs);
    }
    if InLanguage(fs, maxFrames) {
      forall s ensures StreamSoFar(s, Project(fs, s)) {
        assert StreamComplete(s, Project(fs, s));
      }
    }
  }

  /** Two lists that agree stream by stream hold the same frames. */
  lemma {:induction false} ProjectCounts(fs: seq<Frame>, f: Frame)
    ensures multiset(Project(fs, f.streamId))[f] == multiset(fs)[f]
  {
    if fs != [] {
      ProjectCounts(fs[..|fs| - 1], f);
      assert fs == fs[..|fs| - 1] + [fs[|fs| - 1]];
    }
  }

  lemma ReorderedInLanguage(fs: seq<Frame>, gs: seq<Frame>, maxFrames: int)
    requires forall s :: Project(fs, s) == Project(gs, s)
    requires InLanguage(fs, maxFrames) && CloseOnlyLast(gs)
    ensures InLanguage(gs, maxFrames)
  {
    forall f ensures multiset(fs)[f] == multiset(gs)[f] {
      ProjectCounts(fs, f);
      ProjectCounts(gs, f);
    }
    assert multiset(fs) == multiset(gs);
    assert |fs| == |multiset(fs)| && |gs| == |multiset(gs)|;
    forall g <- gs ensures Valid(g) {
      assert g in multiset(gs);
      assert g in fs;
    }
    forall s ensures StreamComplete(s, Project(gs, s)) {
      assert StreamComplete(s, Project(fs, s));
    }
  }

  /** Acceptance depends only on the order within each stream, and on CLOSE staying last. */
  lemma ReorderingKeepsAcceptance(fs: seq<Frame>, gs: seq<Frame>, maxFrames: int)
    requires forall s :: Project(fs, s) == Project(gs, s)
    requires CloseOnlyLast(fs) && CloseOnlyLast(gs)
    ensures InLanguage(fs, maxFrames) <==> InLanguage(gs, maxFrames)
  {
    if InLanguage(fs, maxFrames) {
      ReorderedInLanguage(fs, gs, maxFrames);
    }
    if InLanguage(gs, maxFrames) {
      ReorderedInLanguage(gs, fs, maxFrames);
    }
  }

  /** The same run, frame by frame from any state. */
  function RunFrom(m: Machine, fs: seq<Frame>, maxFrames: int): Result<Machine, ProtocolError>
    decreases |fs|
  {
    if fs == [] then Ok(m)
    else match Step(m, fs[0], maxFrames)
      case Err(e) => Err(e)
      case Ok(n) => RunFrom(n, fs[1..], maxFrames)
  }

  lemma {:induction false} RunFromSnoc(m: Machine, fs: seq<Frame>, f: Frame, maxFrames: int)
    ensures RunFrom(m, fs + [f], maxFrames) == match RunFrom(m, fs, maxFrames)
      case Err(e) => Err(e)
      case Ok(n) => Step(n, f, maxFrames)
    decreases |fs|
  {
    if fs == [] {
      assert fs + [f] == [f];
    } else {
      assert (fs + [f])[1..] == fs[1..] + [f];
      if Step(m, fs[0], maxFrames).Ok? {
        RunFromSnoc(Step(m, fs[0], maxFrames).value, fs[1..], f, maxFrames);
      }
    }
  }

  lemma {:induction false} RunFromFresh(fs: seq<Frame>, maxFrames: int)
    ensures RunFrom(FRESH, fs, maxFrames) == Run(fs, maxFrames)
  {
    if fs != [] {
      var (init, f) := (fs[..|fs| - 1], fs[|fs| - 1]);
      assert fs == init + [f];
      RunFromFresh(init, maxFrames);
      RunFromSnoc(FRESH, init, f, maxFrames);
    }
  }
}
