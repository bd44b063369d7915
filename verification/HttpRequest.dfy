/** The HTTP request text that `LabClient.fetch` prints and
    `_GatewayHandler._valid_http_request` checks. Text is ASCII bytes. */
module HttpRequest {
  import opened Wrappers
  import opened Bytes
  import opened ResourceIds

  const CR: byte := 13
  const LF: byte := 10
  const SPACE: byte := 32
  const COLON: byte := 58
  const CRLF: bytes := [CR, LF]
  const TERMINATOR: bytes := [CR, LF, CR, LF]
  const GET: bytes := [0x47, 0x45, 0x54, SPACE]                                          // "GET "
  const HTTP11: bytes := [SPACE, 0x48, 0x54, 0x54, 0x50, 0x2F, 0x31, 0x2E, 0x31]         // " HTTP/1.1"
  const HOST: bytes := [0x68, 0x6F, 0x73, 0x74]                                          // "host"
  const HOST_PREFIX: bytes := [0x48, 0x6F, 0x73, 0x74, COLON, SPACE]                     // "Host: "
  const CONNECTION_CLOSE: bytes :=                                                       // "Connection: close"
    [0x43, 0x6F, 0x6E, 0x6E, 0x65, 0x63, 0x74, 0x69, 0x6F, 0x6E, COLON, SPACE, 0x63, 0x6C, 0x6F, 0x73, 0x65]
  const CONTENT_LENGTH: bytes :=                                                         // "content-length"
    [0x63, 0x6F, 0x6E, 0x74, 0x65, 0x6E, 0x74, 0x2D, 0x6C, 0x65, 0x6E, 0x67, 0x74, 0x68]
  const TRANSFER_ENCODING: bytes :=                                                      // "transfer-encoding"
    [0x74, 0x72, 0x61, 0x6E, 0x73, 0x66, 0x65, 0x72, 0x2D, 0x65, 0x6E, 0x63, 0x6F, 0x64, 0x69, 0x6E, 0x67]
  const MAX_HTTP_REQUEST := 16 * 1024
  const MAX_PATH_LENGTH := 2_048

  /** The paths `fetch` lets through. */
  predicate PathAllowed(path: bytes) {
    path != [] && path[0] == 0x2F && |path| <= MAX_PATH_LENGTH && forall c <- path :: 0x21 <= c <= 0x7E
  }

  function Print(path: bytes, id: bytes): bytes {
    (GET + path + HTTP11) + CRLF + ((HOST_PREFIX + id) + CRLF + (CONNECTION_CLOSE + CRLF + CRLF))
  }

  /** The first CRLF at or after `from`, or the length. */
  function NextCrlf(b: bytes, from: nat): (k: nat)
    requires from <= |b|
    ensures from <= k <= |b|
    ensures k < |b| ==> k + 1 < |b| && b[k] == CR && b[k + 1] == LF
    ensures forall j | from <= j < k && j + 1 < |b| :: !(b[j] == CR && b[j + 1] == LF)
    decreases |b| - from
  {
    if from + 1 >= |b| then |b|
    else if b[from] == CR && b[from + 1] == LF then from
    else NextCrlf(b, from + 1)
  }

  /** `b.split(b"\r\n")`. */
  function Lines(b: bytes): (lines: seq<bytes>)
    ensures lines != []
    decreases |b|
  {
    var k := NextCrlf(b, 0);
    if k == |b| then [b] else [b[..k]] + Lines(b[k + 2..])
  }

  function Whitespace(): set<int> { {9, 10, 11, 12, 13, 32} }

  function StripLeft(b: bytes): bytes {
    if b != [] && b[0] in Whitespace() then StripLeft(b[1..]) else b
  }

  function StripRight(b: bytes): bytes {
    if b != [] && b[|b| - 1] in Whitespace() then StripRight(b[..|b| - 1]) else b
  }

  function Strip(b: bytes): bytes { StripRight(StripLeft(b)) }

  /** ASCII white space, as `bytes.strip` takes it. */
  predicate White(c: byte) { 9 <= c <= 13 || c == 32 }

  predicate Blank(b: bytes) { forall c <- b :: White(c) }

  /** `b` is `s` with white space around it, and `s` has none at its ends. */
  predicate Padded(b: bytes, left: bytes, s: bytes, right: bytes) {
    && b == left + s + right && Blank(left) && Blank(right)
    && (s != [] ==> !White(s[0]) && !White(s[|s| - 1]))
  }

  lemma {:induction false} StripLeftPart(b: bytes) returns (left: bytes)
    ensures b == left + StripLeft(b) && Blank(left)
    ensures StripLeft(b) != [] ==> !White(StripLeft(b)[0])
  {
    if b != [] && b[0] in Whitespace() {
      var rest := StripLeftPart(b[1..]);
      left := [b[0]] + rest;
      assert b == [b[0]] + b[1..];
    } else {
      left := [];
    }
  }

  lemma {:induction false} StripRightPart(b: bytes)
    ensures var n := |StripRight(b)|;
      n <= |b| && StripRight(b) == b[..n] && Blank(b[n..]) && (n > 0 ==> !White(b[n - 1]))
  {
    if b != [] && b[|b| - 1] in Whitespace() {
      StripRightPart(b[..|b| - 1]);
      var n := |StripRight(b)|;
      assert b[n..] == b[..|b| - 1][n..] + [b[|b| - 1]];
    }
  }

  lemma {:induction false} StripLeftDrops(left: bytes, b: bytes)
    requires Blank(left)
    ensures StripLeft(left + b) == StripLeft(b)
  {
    if left == [] {
      assert left + b == b;
    } else {
      assert White(left[0]) by { assert left[0] in left; }
      assert left == [left[0]] + left[1..] && (left + b)[1..] == left[1..] + b;
      StripLeftDrops(left[1..], b);
    }
  }

  lemma {:induction false} StripRightDrops(b: bytes, right: bytes)
    requires Blank(right) && (b != [] ==> !White(b[|b| - 1]))
    ensures StripRight(b + right) == b
  {
    if right == [] {
      assert b + right == b;
    } else {
      var last := right[|right| - 1];
      assert White(last) by { assert last in right; }
      assert right == right[..|right| - 1] + [last] && (b + right)[..|b + right| - 1] == b + right[..|right| - 1];
      StripRightDrops(b, right[..|right| - 1]);
    }
  }

  lemma StripParts(b: bytes) returns (left: bytes, right: bytes)
    ensures Padded(b, left, Strip(b), right)
  {
    left := StripLeftPart(b);
    var rest := StripLeft(b);
    StripRightPart(rest);
    hide StripLeft, StripRight, Blank, White, Padded;
    var n := |Strip(b)|;
    right := rest[n..];
    PaddedParts(left, rest, n);
  }

  lemma PaddedParts(left: bytes, rest: bytes, n: nat)
    requires n <= |rest| && Blank(left) && Blank(rest[n..]) && (n > 0 ==> !White(rest[0]) && !White(rest[n - 1]))
    ensures Padded(left + rest, left, rest[..n], rest[n..])
  {
    hide Blank, White;
    assert left + rest == left + rest[..n] + rest[n..];
  }

  lemma StripPadded(b: bytes, left: bytes, s: bytes, right: bytes)
    requires Padded(b, left, s, right)
    ensures Strip(b) == s
  {
    assert b == left + (s + right);
    StripLeftDrops(left, s + right);
    if s == [] {
      assert s + right == right + [];
      StripLeftDrops(right, []);
    } else {
      assert (s + right)[0] == s[0];
      StripRightDrops(s, right);
    }
  }

  /** `Strip` takes the white space off both ends, all of it and nothing else. */
  lemma StripExact(b: bytes, s: bytes)
    ensures Strip(b) == s <==> exists left, right :: Padded(b, left, s, right)
  {
    hide Strip, Padded;
    var left, right := StripParts(b);
    forall l, r | Padded(b, l, s, r) ensures Strip(b) == s {
      StripPadded(b, l, s, r);
    }
  }

  function LowerByte(c: byte): byte { if 0x41 <= c <= 0x5A then c + 32 else c }

  function Lower(b: bytes): (l: bytes)
    ensures |l| == |b| && forall i | 0 <= i < |b| :: l[i] == if 0x41 <= b[i] <= 0x5A then b[i] + 32 else b[i]
  {
    if b == [] then [] else [LowerByte(b[0])] + Lower(b[1..])
  }

  function FirstColon(line: bytes): (k: nat)
    ensures k <= |line|
    ensures k < |line| ==> line[k] == COLON
    ensures forall j | 0 <= j < k :: line[j] != COLON
  {
    if line == [] || line[0] == COLON then 0 else 1 + FirstColon(line[1..])
  }

  function Name(line: bytes): bytes { Lower(Strip(line[..FirstColon(line)])) }

  function Value(line: bytes): bytes
    requires COLON in line
  {
    Strip(line[FirstColon(line) + 1..])
  }

  predicate Ascii(b: bytes) { forall c <- b :: c < 128 }

  predicate HeaderAllowed(line: bytes) {
    && COLON in line
    && Name(line) !in {CONTENT_LENGTH, TRANSFER_ENCODING}
    && (Name(line) == HOST ==> Ascii(Value(line)))
  }

  function Collect<T, U>(f: T -> Option<U>, s: seq<T>): seq<U> {
    if s == [] then []
    else if f(s[0]).Some? then [f(s[0]).value] + Collect(f, s[1..])
    else Collect(f, s[1..])
  }

  function HostOf(line: bytes): Option<bytes> {
    if COLON in line && Name(line) == HOST then Some(Value(line)) else None
  }

  /** The Host values, in order. */
  function Hosts(headers: seq<bytes>): seq<bytes> { Collect(HostOf, headers) }

  predicate EndsWith(b: bytes, suffix: bytes) { |b| >= |suffix| && b[|b| - |suffix|..] == suffix }

  /** The lines of a request that ends with the terminator. */
  function RequestLines(payload: bytes): (lines: seq<bytes>)
    ensures lines != []
  {
    Lines(if |payload| >= 4 then payload[..|payload| - 4] else payload)
  }

  /** `line[4:-9]`. */
  function Target(line: bytes): bytes {
    if |line| >= 13 then line[4..|line| - 9] else []
  }

  predicate RequestLineAllowed(line: bytes) {
    && GET <= line && EndsWith(line, HTTP11)
    && Target(line) != [] && Target(line)[0] == 0x2F
    && forall c <- Target(line) :: 0x21 <= c <= 0x7E
  }

  predicate ValidRequest(payload: bytes, id: bytes) {
    && EndsWith(payload, TERMINATOR) && 0 !in payload
    && var lines := RequestLines(payload);
    && RequestLineAllowed(lines[0])
    && (forall line <- lines[1..] :: HeaderAllowed(line))
    && Hosts(lines[1..]) == [id]
  }

  /** The body of the gateway's loop over the header lines. */
  method CheckHeader(line: bytes) returns (allowed: bool, host: Option<bytes>)
    ensures allowed == HeaderAllowed(line)
    ensures allowed ==> host == HostOf(line)
  {
    host := None;
    if COLON !in line { return false, None; }
    var lowered := Name(line);
    if lowered == HOST {
      if !Ascii(Value(line)) { return false, None; }
      host := Some(Value(line));
    }
    return lowered !in {CONTENT_LENGTH, TRANSFER_ENCODING}, host;
  }

  /** The gateway's loop over the header lines; `None` where it answers false. */
  method CheckHeaders(headers: seq<bytes>) returns (hosts: Option<seq<bytes>>)
    ensures hosts.Some? <==> forall line <- headers :: HeaderAllowed(line)
    ensures hosts.Some? ==> hosts.value == Hosts(headers)
  {
    hide HeaderAllowed, HostOf;
    var hostValues: seq<bytes> := [];
    for i := 0 to |headers|
      invariant forall line <- headers[..i] :: HeaderAllowed(line)
      invariant hostValues == Hosts(headers[..i])
    {
      var line := headers[i];
      assert headers[..i + 1] == headers[..i] + [line];
      CollectAppend(HostOf, headers[..i], [line]);
      assert line in headers;
      var allowed, host := CheckHeader(line);
      if !allowed { return None; }
      if host.Some? {
        hostValues := hostValues + [host.value];
      }
    }
    assert headers[..|headers|] == headers;
    return Some(hostValues);
  }

  /** The gateway's check, line by line. */
  method IsValidRequest(payload: bytes, id: bytes) returns (ok: bool)
    ensures ok == ValidRequest(payload, id)
  {
    if !EndsWith(payload, TERMINATOR) || 0 in payload { return false; }
    var lines := RequestLines(payload);
    if !(GET <= lines[0]) || !EndsWith(lines[0], HTTP11) { return false; }
    var target := Target(lines[0]);
    if target == [] || target[0] != 0x2F || exists c <- target :: c < 0x21 || c > 0x7E { return false; }
    var hostValues := CheckHeaders(lines[1..]);
    return hostValues == Some([id]);
  }

  lemma {:induction false} CollectAppend<T, U>(f: T -> Option<U>, a: seq<T>, b: seq<T>)
    ensures Collect(f, a + b) == Collect(f, a) + Collect(f, b)
  {
    if a == [] {
      assert a + b == b;
    } else {
      CollectAppend(f, a[1..], b);
      assert (a + b)[0] == a[0] && (a + b)[1..] == a[1..] + b;
      var first := if f(a[0]).Some? then [f(a[0]).value] else [];
      assert first + (Collect(f, a[1..]) + Collect(f, b)) == first + Collect(f, a[1..]) + Collect(f, b);
    }
  }

  predicate NoCrlf(b: bytes) { forall j | 0 <= j < |b| - 1 :: !(b[j] == CR && b[j + 1] == LF) }

  lemma LinesOfOne(line: bytes)
    requires NoCrlf(line)
    ensures Lines(line) == [line]
  {
  }

  lemma LinesCons(line: bytes, rest: bytes)
    requires NoCrlf(line)
    ensures Lines(line + CRLF + rest) == [line] + Lines(rest)
  {
    var b := line + CRLF + rest;
    var k := NextCrlf(b, 0);
    assert b[|line|] == CR && b[|line| + 1] == LF;
    assert forall j | 0 <= j < |line| :: b[j] == line[j];
    assert k == |line|;
    assert b[..k] == line && b[k + 2..] == rest;
  }

  lemma ConnectionLine()
    ensures HeaderAllowed(CONNECTION_CLOSE) && HostOf(CONNECTION_CLOSE) == None
  {
    var k := FirstColon(CONNECTION_CLOSE);
    assert CONNECTION_CLOSE[10] == COLON;
    assert k == 10 by {
      assert k <= 10;
      assert forall j | 0 <= j < 10 :: CONNECTION_CLOSE[j] != COLON;
    }
    var name := CONNECTION_CLOSE[..10];
    assert name[0] == 0x43 && name[9] == 0x6E;
    assert Strip(name) == name;
    assert |Name(CONNECTION_CLOSE)| == 10;
  }

  lemma HostLine(id: bytes)
    requires ResourceId(id)
    ensures var line := HOST_PREFIX + id; HeaderAllowed(line) && HostOf(line) == Some(id)
  {
    var line := HOST_PREFIX + id;
    assert line[4] == COLON && FirstColon(line) == 4 by {
      assert line[..6] == HOST_PREFIX;
      assert forall j | 0 <= j < 4 :: line[j] == HOST_PREFIX[j] != COLON;
    }
    assert line[..4] == HOST_PREFIX[..4];
    assert Strip(line[..4]) == line[..4];
    assert Lower(line[..4]) == HOST;
    assert line[5..] == [SPACE] + id;
    assert StripLeft([SPACE] + id) == id by {
      assert ([SPACE] + id)[1..] == id;
      assert id[0] in id;
    }
    assert id[|id| - 1] in id;
  }

  /** Every request `fetch` can print fits the gateway's limit and passes its
      check, which reads back exactly the path and the one Host value. */
  lemma PrintedIsValid(path: bytes, id: bytes)
    requires PathAllowed(path) && ResourceId(id)
    ensures |Print(path, id)| <= MAX_HTTP_REQUEST
    ensures ValidRequest(Print(path, id), id)
    ensures Target(RequestLines(Print(path, id))[0]) == path
    ensures Hosts(RequestLines(Print(path, id))[1..]) == [id]
  {
    var (first, host) := (GET + path + HTTP11, HOST_PREFIX + id);
    PrintedText(path, id);
    PrintedLines(path, id);
    PrintedTarget(path);
    HostLine(id);
    ConnectionLine();
    ThreeLines(Print(path, id), id, first, host, CONNECTION_CLOSE);
  }

  lemma PrintedTarget(path: bytes)
    requires PathAllowed(path)
    ensures RequestLineAllowed(GET + path + HTTP11) && Target(GET + path + HTTP11) == path
  {
    var first := GET + path + HTTP11;
    assert first[4..|first| - 9] == path;
    assert path[0] in path;
  }

  lemma ThreeLines(payload: bytes, id: bytes, first: bytes, host: bytes, other: bytes)
    requires EndsWith(payload, TERMINATOR) && 0 !in payload && RequestLines(payload) == [first, host, other]
    requires RequestLineAllowed(first) && HeaderAllowed(host) && HeaderAllowed(other)
    requires HostOf(host) == Some(id) && HostOf(other) == None
    ensures ValidRequest(payload, id) && Hosts(RequestLines(payload)[1..]) == [id]
  {
    var headers := RequestLines(payload)[1..];
    assert headers == [host] + [other];
    CollectAppend(HostOf, [host], [other]);
    assert Collect(HostOf, [host]) == [id] && Collect(HostOf, [other]) == [];
  }

  lemma PrintedText(path: bytes, id: bytes)
    requires PathAllowed(path) && ResourceId(id)
    ensures var p := Print(path, id);
      && |p| == 44 + |path| + |id| && 0 !in p && EndsWith(p, TERMINATOR)
      && p[..|p| - 4] == GET + path + HTTP11 + CRLF + (HOST_PREFIX + id + CRLF + CONNECTION_CLOSE)
  {
    var p := Print(path, id);
    var text := GET + path + HTTP11 + CRLF + (HOST_PREFIX + id + CRLF + CONNECTION_CLOSE);
    assert p == text + TERMINATOR;
    assert forall c <- text :: c in GET || c in path || c in HTTP11 || c in CRLF || c in HOST_PREFIX || c in id
                               || c in CONNECTION_CLOSE;
    assert 0 !in path && 0 !in id;
  }

  lemma PrintedLines(path: bytes, id: bytes)
    requires PathAllowed(path) && ResourceId(id)
    ensures Lines(GET + path + HTTP11 + CRLF + (HOST_PREFIX + id + CRLF + CONNECTION_CLOSE)) ==
      [GET + path + HTTP11, HOST_PREFIX + id, CONNECTION_CLOSE]
  {
    var (first, host) := (GET + path + HTTP11, HOST_PREFIX + id);
    assert CR !in first && CR !in host && CR !in CONNECTION_CLOSE;
    assert NoCrlf(first) && NoCrlf(host) && NoCrlf(CONNECTION_CLOSE);
    LinesCons(first, host + CRLF + CONNECTION_CLOSE);
    LinesCons(host, CONNECTION_CLOSE);
    LinesOfOne(CONNECTION_CLOSE);
  }

  /** Cutting into lines loses nothing, and no line holds a CRLF. */
  function JoinLines(lines: seq<bytes>): bytes
    requires lines != []
  {
    if |lines| == 1 then lines[0] else lines[0] + CRLF + JoinLines(lines[1..])
  }

  lemma {:induction false} LinesJoin(b: bytes)
    ensures JoinLines(Lines(b)) == b
    ensures forall line <- Lines(b) :: NoCrlf(line)
    decreases |b|
  {
    var k := NextCrlf(b, 0);
    if k < |b| {
      LinesJoin(b[k + 2..]);
      assert b == b[..k] + CRLF + b[k + 2..];
    }
  }

  /** `name` stands, in any case and with white space around it, before the first
      colon of the line, which is at `k`. */
  predicate NameAt(line: bytes, k: int, name: bytes) {
    0 <= k < |line| && line[k] == COLON && COLON !in line[..k] && Lower(Strip(line[..k])) == name
  }

  lemma NameAtFirstColon(line: bytes, k: int, name: bytes)
    ensures NameAt(line, k, name) <==> COLON in line && k == FirstColon(line) && Name(line) == name
  {
    if NameAt(line, k, name) {
      assert forall j | 0 <= j < k :: line[j] == line[..k][j];
    }
    if COLON in line && k == FirstColon(line) {
      assert k < |line| by {
        var j :| 0 <= j < |line| && line[j] == COLON;
      }
    }
  }

  /** GET, a target of visible characters that starts with a slash, and HTTP/1.1. */
  predicate RequestLine(line: bytes, target: bytes) {
    && line == GET + target + HTTP11
    && target != [] && target[0] == 0x2F && forall c <- target :: 0x21 <= c <= 0x7E
  }

  /** The one Host line of a request is line `h`, its colon at `k`, its value `id`. */
  ghost predicate OneHostLine(lines: seq<bytes>, h: int, k: int, id: bytes) {
    && 1 <= h < |lines| && NameAt(lines[h], k, HOST) && Strip(lines[h][k + 1..]) == id && (forall c <- id :: c < 128)
    && forall i, j | 1 <= i < |lines| && NameAt(lines[i], j, HOST) :: i == h
  }

  /** Exactly which payloads the gateway lets through: with their terminator, without
      a NUL byte; a GET line; only header lines, none of which announces a body; and
      one Host line, for the resource. */
  lemma ValidRequestExact(payload: bytes, id: bytes)
    ensures ValidRequest(payload, id) <==>
      && |payload| >= 4 && payload[|payload| - 4..] == [13, 10, 13, 10] && 0 !in payload
      && var lines := Lines(payload[..|payload| - 4]);
      && (exists target :: RequestLine(lines[0], target))
      && (forall i | 1 <= i < |lines| :: COLON in lines[i])
      && (forall i, k | 1 <= i < |lines| :: !NameAt(lines[i], k, CONTENT_LENGTH) && !NameAt(lines[i], k, TRANSFER_ENCODING))
      && (exists h, k :: OneHostLine(lines, h, k, id))
  {
    hide Lines;
    if |payload| >= 4 && payload[|payload| - 4..] == [13, 10, 13, 10] && 0 !in payload {
      var lines := Lines(payload[..|payload| - 4]);
      RequestLineExact(lines[0]);
      HeadersExact(lines, id);
    }
  }

  lemma RequestLineExact(line: bytes)
    ensures RequestLineAllowed(line) <==> exists target :: RequestLine(line, target)
  {
    if RequestLineAllowed(line) {
      assert line == GET + Target(line) + HTTP11 by {
        assert line[..4] == GET && line[4..|line| - 9] == Target(line) && line[|line| - 9..] == HTTP11;
      }
      assert RequestLine(line, Target(line));
    }
    forall target | RequestLine(line, target) ensures RequestLineAllowed(line) {
      assert line[4..|line| - 9] == target;
    }
  }

  /** `s[i]` is the only element that `f` maps to anything, and it maps it to `x`. */
  predicate OnlyOne<T, U(==)>(f: T -> Option<U>, s: seq<T>, i: int, x: U) {
    0 <= i < |s| && f(s[i]) == Some(x) && forall j | 0 <= j < |s| && f(s[j]).Some? :: j == i
  }

  lemma {:induction false} CollectNone<T, U>(f: T -> Option<U>, s: seq<T>)
    ensures Collect(f, s) == [] <==> forall i | 0 <= i < |s| :: f(s[i]).None?
  {
    if s != [] {
      CollectNone(f, s[1..]);
      assert forall i | 1 <= i < |s| :: s[1..][i - 1] == s[i];
    }
  }

  lemma {:induction false} CollectOne<T, U>(f: T -> Option<U>, s: seq<T>, x: U)
    ensures Collect(f, s) == [x] <==> exists i :: OnlyOne(f, s, i, x)
  {
    if s != [] {
      assert forall i | 1 <= i < |s| :: s[1..][i - 1] == s[i];
      if f(s[0]).Some? {
        CollectNone(f, s[1..]);
        assert OnlyOne(f, s, 0, x) <==> Collect(f, s) == [x];
      } else {
        CollectOne(f, s[1..], x);
        forall i | OnlyOne(f, s, i, x) ensures OnlyOne(f, s[1..], i - 1, x) {
        }
        forall i | OnlyOne(f, s[1..], i, x) ensures OnlyOne(f, s, i + 1, x) {
        }
      }
    }
  }

  /** Every line but the first is a header, none announces a body, one is the Host. */
  ghost predicate HeaderLines(lines: seq<bytes>, id: bytes) {
    && (forall i | 1 <= i < |lines| :: COLON in lines[i])
    && (forall i, k | 1 <= i < |lines| :: !NameAt(lines[i], k, CONTENT_LENGTH) && !NameAt(lines[i], k, TRANSFER_ENCODING))
    && (exists h, k :: OneHostLine(lines, h, k, id))
  }

  lemma HeadersExact(lines: seq<bytes>, id: bytes)
    requires lines != []
    ensures (forall line <- lines[1..] :: HeaderAllowed(line)) && Hosts(lines[1..]) == [id] <==> HeaderLines(lines, id)
  {
    hide NameAt, Name, Strip, Collect;
    var headers := lines[1..];
    CollectOne(HostOf, headers, id);
    if (forall line <- headers :: HeaderAllowed(line)) && Hosts(headers) == [id] {
      var i :| OnlyOne(HostOf, headers, i, id);
      assert headers[i] in headers;
      HeadersRead(lines, id, i);
    }
    if HeaderLines(lines, id) {
      HeadersAllowed(lines, id);
    }
  }

  lemma HeadersRead(lines: seq<bytes>, id: bytes, i: int)
    requires lines != [] && (forall line <- lines[1..] :: HeaderAllowed(line)) && OnlyOne(HostOf, lines[1..], i, id)
    ensures HeaderLines(lines, id)
  {
    hide NameAt, Name, Strip;
    var headers := lines[1..];
    forall x | 1 <= x < |lines| ensures HeaderAllowed(lines[x]) {
      assert headers[x - 1] in headers;
    }
    forall x, k | 1 <= x < |lines|
      ensures !NameAt(lines[x], k, CONTENT_LENGTH) && !NameAt(lines[x], k, TRANSFER_ENCODING)
      ensures NameAt(lines[x], k, HOST) ==> x == i + 1
    {
      NameAtFirstColon(lines[x], k, CONTENT_LENGTH);
      NameAtFirstColon(lines[x], k, TRANSFER_ENCODING);
      NameAtFirstColon(lines[x], k, HOST);
      assert headers[x - 1] == lines[x];
    }
    var line := lines[i + 1];
    NameAtFirstColon(line, FirstColon(line), HOST);
    assert OneHostLine(lines, i + 1, FirstColon(line), id);
  }

  lemma HeadersAllowed(lines: seq<bytes>, id: bytes)
    requires lines != [] && HeaderLines(lines, id)
    ensures forall line <- lines[1..] :: HeaderAllowed(line)
    ensures exists i :: OnlyOne(HostOf, lines[1..], i, id)
  {
    hide NameAt, Name, Strip;
    var headers := lines[1..];
    var h, k :| OneHostLine(lines, h, k, id);
    NameAtFirstColon(lines[h], k, HOST);
    forall j | 0 <= j < |headers|
      ensures HeaderAllowed(headers[j]) && (HostOf(headers[j]).Some? ==> j == h - 1)
    {
      var (line, first) := (lines[j + 1], FirstColon(lines[j + 1]));
      NameAtFirstColon(line, first, CONTENT_LENGTH);
      NameAtFirstColon(line, first, TRANSFER_ENCODING);
      NameAtFirstColon(line, first, HOST);
      assert headers[j] == line;
    }
    assert OnlyOne(HostOf, headers, h - 1, id);
  }

  predicate TerminatorAt(b: bytes, p: nat) {
    p + 4 <= |b| && b[p] == CR && b[p + 1] == LF && b[p + 2] == CR && b[p + 3] == LF
  }

  /** Two CRLF in a row make a blank line. */
  lemma {:induction false} NoEarlyTerminator(b: bytes, p: nat)
    requires [] !in Lines(b)
    requires TerminatorAt(b + TERMINATOR, p)
    ensures p == |b|
    decreases |b|
  {
    var c := b + TERMINATOR;
    var k := NextCrlf(b, 0);
    assert forall j | 0 <= j < |b| :: c[j] == b[j];
    assert c[|b|] == CR;
    if k < |b| {
      var rest := b[k + 2..];
      assert Lines(b) == [b[..k]] + Lines(rest);
      assert forall j | 0 <= j < |rest| + 4 :: (rest + TERMINATOR)[j] == c[k + 2 + j];
      BlankLine(rest);
      if p > k {
        NoEarlyTerminator(rest, p - k - 2);
      }
    }
  }

  lemma BlankLine(rest: bytes)
    ensures (rest + TERMINATOR)[0] == CR && (rest + TERMINATOR)[1] == LF ==> [] in Lines(rest)
  {
    assert |rest| >= 2 ==> (rest + TERMINATOR)[..2] == rest[..2];
    assert |rest| == 1 ==> (rest + TERMINATOR)[1] == CR;
    if |rest| == 0 || (|rest| >= 2 && rest[0] == CR && rest[1] == LF) {
      assert Lines(rest)[0] == [];
    }
  }

  /** Every accepted request holds the header terminator once, at its end. */
  lemma TerminatorOnlyAtEnd(payload: bytes, id: bytes, p: nat)
    requires ValidRequest(payload, id)
    ensures TerminatorAt(payload, p) <==> p == |payload| - 4
  {
    var b := payload[..|payload| - 4];
    assert payload == b + TERMINATOR;
    var lines := RequestLines(payload);
    assert lines == Lines(b);
    assert [] !in lines by {
      assert lines == [lines[0]] + lines[1..];
      assert forall line <- lines[1..] :: HeaderAllowed(line);
    }
    if TerminatorAt(payload, p) {
      NoEarlyTerminator(b, p);
    }
  }
}
