/** Grants and the checks both planes make on them: the token's own lifetime, then
    the two regions of `get_active` with any other threads in between, then the
    session it found. A signed token is its content: it verifies only if issued. */
module Grants {
  import opened Wrappers
  import opened Collections
  import opened Ipv4
  import opened Pools
  import opened Sessions
  import opened Interleaving

  /** The constants a plane was started with. */
  datatype Plane = Plane(resourceId: string, manifestHash: string, manifestVersion: int)

  datatype Claims = Claims(
    subject: string, resource: string, sid: Id, deviceId: string, deviceKeyHash: string,
    manifestHash: string, manifestVersion: int, virtualIp: Addr, generation: nat)

  datatype Token = Token(claims: Claims, issuedAt: int, expiresAt: int)

  const GRANT_TTL := 120

  /** `grant_for`. */
  function GrantFor(s: Lease, plane: Plane, now: int): Token {
    Token(Claims(s.subject, plane.resourceId, s.id, s.posture.deviceId, s.posture.keyFingerprint,
                 plane.manifestHash, plane.manifestVersion, s.virtualIp, s.generation), now, now + GRANT_TTL)
  }

  /** `TokenVerifier.verify` on a signed token; `expected` is the resource asked for, if any. */
  predicate TokenVerifies(k: Token, expected: Option<string>, now: int) {
    && k.claims.subject != "" && k.claims.resource != ""
    && (expected.Some? ==> k.claims.resource == expected.value)
    && k.issuedAt <= k.expiresAt <= k.issuedAt + 600 && now < k.expiresAt && k.issuedAt <= now + 30
  }

  /** One check of a token: the thread that makes it, the clock readings of `verify`
      and of `get_active`, and the regions other threads take between its two. */
  datatype Visit = Visit(t: nat, verifiedAt: int, lookedAt: real, others: seq<Action>)

  ghost predicate IsVisit(w: World, v: Visit, id: Id, cfg: Config) {
    var look := LookStep(v.t, id, v.lookedAt);
    Enabled(w, look) && IsRun(Next(w, look, cfg), v.others, cfg) && forall a <- v.others :: a.t != v.t
  }

  /** The world in which `get_active` comes to its second region. */
  ghost function AtReread(w: World, v: Visit, id: Id, cfg: Config): World
    requires IsVisit(w, v, id, cfg)
  {
    WorldAfter(Next(w, LookStep(v.t, id, v.lookedAt), cfg), v.others, cfg)
  }

  /** What `get_active` returns. */
  ghost function Found(w: World, v: Visit, id: Id, cfg: Config): Option<Lease>
    requires IsVisit(w, v, id, cfg)
  {
    var r := AtReread(w, v, id, cfg);
    if PcOf(r, v.t).Rereading? then Current(r.store, id) else None
  }

  /** The control plane on a bearer token, up to the proof of possession. */
  ghost predicate ControlAccepts(w: World, v: Visit, cfg: Config, plane: Plane, k: Token)
    requires IsVisit(w, v, k.claims.sid, cfg)
  {
    var (c, found) := (k.claims, Found(w, v, k.claims.sid, cfg));
    && TokenVerifies(k, None, v.verifiedAt)
    && found.Some? &&
    var s := found.value;
    && s.subject == c.subject && c.resource == plane.resourceId
    && c.deviceId == s.posture.deviceId && c.deviceKeyHash == s.posture.keyFingerprint
    && c.virtualIp == s.virtualIp && c.generation == s.generation
    && c.manifestHash == plane.manifestHash && c.manifestVersion == plane.manifestVersion
  }

  /** The gateway, on a connection that names a resource and a device, up to the
      proof of possession. */
  ghost predicate GatewayAccepts(
    w: World, v: Visit, cfg: Config, plane: Plane, registered: set<string>, k: Token, resource: string, device: string)
    requires IsVisit(w, v, k.claims.sid, cfg)
  {
    var (c, found) := (k.claims, Found(w, v, k.claims.sid, cfg));
    && TokenVerifies(k, Some(resource), v.verifiedAt) && resource in registered
    && found.Some? &&
    var s := found.value;
    && s.subject == c.subject
    && c.manifestHash == plane.manifestHash && c.manifestVersion == plane.manifestVersion
    && c.deviceId == s.posture.deviceId && device == s.posture.deviceId
    && c.deviceKeyHash == s.posture.keyFingerprint
    && c.virtualIp == s.virtualIp && c.generation == s.generation
  }

  /** A stored session is, field by field, the one that was inserted under its id. */
  lemma StoredAsInserted(w: World, s: Lease)
    requires Owned(w) && Counted(w) && s in w.inserted && s.id in w.store.sessions
    ensures SameGrant(s, w.store.sessions[s.id]) && !w.store.sessions[s.id].revoked
  {
    hide LeaseOrder, Generations;
    var held := w.store.sessions[s.id];
    assert Stored(w, s.id) && Inserted(w.inserted, held);
    var r :| r in w.inserted && SameGrant(r, held);
    var k :| 0 <= k < |w.inserted| && w.inserted[k] == r;
    var l :| 0 <= l < |w.inserted| && w.inserted[l] == s;
    assert k == l;
  }

  lemma {:induction false} OthersRun(w: World, actions: seq<Action>, cfg: Config, t: nat, s: Lease)
    requires IsRun(w, actions, cfg) && s in w.inserted && forall a <- actions :: a.t != t
    ensures PcOf(WorldAfter(w, actions, cfg), t) == PcOf(w, t) && s in WorldAfter(w, actions, cfg).inserted
    decreases |actions|
  {
    if actions != [] {
      assert actions[0] in actions;
      var next := Next(w, actions[0], cfg);
      assert PcOf(next, t) == PcOf(w, t) && s in next.inserted;
      hide Next, Enabled;
      OthersRun(next, actions[1..], cfg, t, s);
    }
  }

  /** `get_active` finds the session: stored and not expired at the look, and still
      stored at the second look. */
  ghost predicate Active(w: World, v: Visit, id: Id, cfg: Config)
    requires IsVisit(w, v, id, cfg)
  {
    && id in w.store.sessions && !Expired(w.store.sessions[id], v.lookedAt, cfg)
    && id in AtReread(w, v, id, cfg).store.sessions
  }

  lemma FoundExact(w: World, v: Visit, hosts: seq<Addr>, cfg: Config, s: Lease)
    requires Reachable(w, hosts, cfg) && s in w.inserted && IsVisit(w, v, s.id, cfg)
    ensures var found := Found(w, v, s.id, cfg);
      (found.Some? <==> Active(w, v, s.id, cfg)) && (found.Some? ==> SameGrant(s, found.value))
  {
    hide Invariant, Enabled, Expired, Next;
    var look := LookStep(v.t, s.id, v.lookedAt);
    var next := Next(w, look, cfg);
    ReachableInvariant(w, hosts, cfg);
    NextKeeps(w, look, cfg, Elements(hosts));
    LookMoves(w, v, s.id, cfg);
    OthersRun(next, v.others, cfg, v.t, s);
    RunKeeps(next, v.others, cfg, Elements(hosts));
    InvariantParts(AtReread(w, v, s.id, cfg), Elements(hosts));
    if s.id !in w.store.sessions {
      GoneForever(next, v.others, cfg, Elements(hosts), s);
    } else if s.id in AtReread(w, v, s.id, cfg).store.sessions {
      StoredAsInserted(AtReread(w, v, s.id, cfg), s);
    }
  }

  lemma LookMoves(w: World, v: Visit, id: Id, cfg: Config)
    requires Enabled(w, LookStep(v.t, id, v.lookedAt))
    ensures var next := Next(w, LookStep(v.t, id, v.lookedAt), cfg);
      var expired := id in w.store.sessions && Expired(w.store.sessions[id], v.lookedAt, cfg);
      && next.inserted == w.inserted && PcOf(next, v.t) == (if expired then Releasing(id) else Rereading(id))
      && (id !in w.store.sessions ==> id !in next.store.sessions)
  {
  }

  lemma InvariantParts(w: World, hosts: set<Addr>)
    requires Invariant(w, hosts)
    ensures Owned(w) && Counted(w)
  {
  }

  /** At any point of any run, with any regions of other threads inside the check,
      the grant of a created session passes exactly within its 120 seconds (and 30
      for skew), while `get_active` finds the session, at planes of the same
      resource and manifest. */
  lemma GrantExact(
    w: World, v: Visit, hosts: seq<Addr>, cfg: Config, s: Lease, issuer: Plane, issuedAt: int, plane: Plane,
    registered: set<string>, resource: string, device: string)
    requires Reachable(w, hosts, cfg) && s in w.inserted && IsVisit(w, v, s.id, cfg)
    ensures var k := GrantFor(s, issuer, issuedAt);
      var passes := && s.subject != "" && issuer.resourceId != "" && issuedAt - 30 <= v.verifiedAt < issuedAt + 120
        && Active(w, v, s.id, cfg)
        && issuer.manifestHash == plane.manifestHash && issuer.manifestVersion == plane.manifestVersion;
      && (ControlAccepts(w, v, cfg, plane, k) <==> passes && issuer.resourceId == plane.resourceId)
      && (GatewayAccepts(w, v, cfg, plane, registered, k, resource, device) <==>
          passes && resource == issuer.resourceId && resource in registered && device == s.posture.deviceId)
  {
    hide Found, Active, IsVisit, Reachable;
    FoundExact(w, v, hosts, cfg, s);
  }

  /** What either plane accepts, of all signed tokens: exactly, within its lifetime, a
      token with the claims that the grant of the session it finds would carry. */
  lemma TokensExact(
    w: World, v: Visit, hosts: seq<Addr>, cfg: Config, k: Token, plane: Plane, registered: set<string>, resource: string, device: string)
    requires Reachable(w, hosts, cfg) && IsVisit(w, v, k.claims.sid, cfg)
    ensures var found := Found(w, v, k.claims.sid, cfg);
      var live := k.issuedAt - 30 <= v.verifiedAt < k.expiresAt && 0 <= k.expiresAt - k.issuedAt <= 600
        && k.claims.subject != "" && k.claims.resource != "";
      && (ControlAccepts(w, v, cfg, plane, k) <==>
          live && found.Some? && k.claims == GrantFor(found.value, plane, k.issuedAt).claims)
      && (GatewayAccepts(w, v, cfg, plane, registered, k, resource, device) <==>
          && live && found.Some? && resource in registered && device == found.value.posture.deviceId
          && k.claims == GrantFor(found.value, plane.(resourceId := resource), k.issuedAt).claims)
  {
    FoundFiled(w, v, k.claims.sid, hosts, cfg);
    hide Found, IsVisit, Reachable;
  }

  /** `get_active` returns the session of the id it was asked for. */
  lemma FoundFiled(w: World, v: Visit, id: Id, hosts: seq<Addr>, cfg: Config)
    requires Reachable(w, hosts, cfg) && IsVisit(w, v, id, cfg)
    ensures var found := Found(w, v, id, cfg); found.Some? ==> found.value.id == id
  {
    hide Invariant, Enabled, Expired, Next;
    var look := LookStep(v.t, id, v.lookedAt);
    var next := Next(w, look, cfg);
    ReachableInvariant(w, hosts, cfg);
    NextKeeps(w, look, cfg, Elements(hosts));
    RunKeeps(next, v.others, cfg, Elements(hosts));
    var r := AtReread(w, v, id, cfg);
    InvariantParts(r, Elements(hosts));
    assert id in r.store.sessions ==> Stored(r, id);
  }

  /** Once its session is gone a grant passes neither plane ever again, whatever
      the threads do, and the new holder of its address has a later generation. */
  lemma RemovedGrantStaysDead(
    w: World, actions: seq<Action>, cfg: Config, hosts: seq<Addr>, s: Lease, v: Visit, issuer: Plane, issuedAt: int,
    plane: Plane, registered: set<string>, resource: string, device: string)
    requires Reachable(w, hosts, cfg) && IsRun(w, actions, cfg) && Gone(w, s)
    requires IsVisit(WorldAfter(w, actions, cfg), v, s.id, cfg)
    ensures var (x, k) := (WorldAfter(w, actions, cfg), GrantFor(s, issuer, issuedAt));
      && !ControlAccepts(x, v, cfg, plane, k)
      && !GatewayAccepts(x, v, cfg, plane, registered, k, resource, device)
      && forall id <- x.store.sessions ::
           x.store.sessions[id].virtualIp == s.virtualIp ==> x.store.sessions[id].generation > s.generation
  {
    hide Invariant;
    var x := WorldAfter(w, actions, cfg);
    ReachableInvariant(w, hosts, cfg);
    GoneForever(w, actions, cfg, Elements(hosts), s);
    RunKeeps(w, actions, cfg, Elements(hosts));
    forall id <- x.store.sessions | x.store.sessions[id].virtualIp == s.virtualIp
      ensures x.store.sessions[id].generation > s.generation
    {
      LaterHolder(x, Elements(hosts), s, id);
    }
    ReachableRun(w, actions, hosts, cfg);
    hide IsVisit, Reachable, Found;
    FoundExact(x, v, hosts, cfg, s);
  }
}
