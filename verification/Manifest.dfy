/** From the resource registry to the client's route plan: the manifest, its
    digest, the signed envelope, the binding and the plan built from it. Digests
    and signatures are symbolic. */
module Manifests {
  import opened Wrappers
  import opened Collections
  import opened ResourceIds
  import opened Ipv4
  import opened Pools
  import opened Sessions
  import opened RoutePlans
  import opened PlanRules
  import opened DnsMaps

  const MANIFEST_VERSION := 1

  datatype ResourceDefinition = ResourceDefinition(
    id: string, domains: seq<string>, routes: seq<RawRoute>, actions: set<string>)

  /** The route check of a definition; unlike the plan's it lets 0.0.0.0/32 through. */
  predicate LabRoute(raw: RawRoute) {
    raw.V4Route? && 0 < raw.len <= 32 && !Multicast(Cut(raw.address, raw.len))
  }

  function Network(raw: RawRoute): (p: Prefix)
    ensures p.len <= 32
  {
    if raw.V4Route? && raw.len <= 32 then Cut(raw.address, raw.len) else Prefix(0, 32)
  }

  function Networks(raws: seq<RawRoute>): seq<Prefix> {
    seq(|raws|, i requires 0 <= i < |raws| => Network(raws[i]))
  }

  /** `ResourceDefinition.__post_init__`, after its checks of host and port, which no
      manifest carries. */
  ghost predicate DefinitionValid(d: ResourceDefinition) {
    && ResourceIdText(d.id)
    && (forall raw <- d.routes :: LabRoute(raw))
    && !CoversAll(Elements(Networks(d.routes)))
    && (forall domain <- d.domains :: DomainAllowed(domain))
  }

  method CheckDefinition(host: string, port: int, d: ResourceDefinition) returns (ok: bool)
    ensures ok == (host == "127.0.0.1" && 1 <= port <= 65_535 && DefinitionValid(d))
  {
    if host != "127.0.0.1" { return false; }
    if !(1 <= port <= 65_535) { return false; }
    if !ResourceIdText(d.id) { return false; }
    var parsed: seq<Prefix> := [];
    for i := 0 to |d.routes|
      invariant forall raw <- d.routes[..i] :: LabRoute(raw)
      invariant parsed == Networks(d.routes[..i]) && forall p <- parsed :: IsPrefix(p)
    {
      assert d.routes[..i + 1] == d.routes[..i] + [d.routes[i]];
      var raw := d.routes[i];
      assert raw in d.routes;
      if !LabRoute(raw) { return false; }
      CutIsPrefix(raw.address, raw.len);
      parsed := parsed + [Network(raw)];
    }
    assert d.routes[..|d.routes|] == d.routes;
    var covers := CoversEntireIpv4(parsed);
    if covers { return false; }
    return forall domain <- d.domains :: DomainAllowed(domain);
  }

  function AllRoutes(defs: seq<ResourceDefinition>): seq<RawRoute> {
    if defs == [] then [] else defs[0].routes + AllRoutes(defs[1..])
  }

  predicate DistinctIds(defs: seq<ResourceDefinition>) {
    forall i, j | 0 <= i < j < |defs| :: defs[i].id != defs[j].id
  }

  /** `ResourceRegistry.__init__`. */
  ghost predicate RegistryValid(defs: seq<ResourceDefinition>) {
    && defs != [] && DistinctIds(defs)
    && (forall d <- defs :: DefinitionValid(d))
    && !CoversAll(Elements(Networks(AllRoutes(defs))))
  }

  method MakeRegistry(defs: seq<ResourceDefinition>) returns (ok: bool)
    requires forall d <- defs :: DefinitionValid(d)
    ensures ok == RegistryValid(defs)
  {
    var table: set<string> := {};
    for i := 0 to |defs|
      invariant DistinctIds(defs[..i]) && table == set d | d in defs[..i] :: d.id
    {
      assert defs[..i + 1] == defs[..i] + [defs[i]];
      if defs[i].id in table {
        var j :| 0 <= j < i && defs[j].id == defs[i].id;
        return false;
      }
      assert forall j | 0 <= j < i :: defs[j] in defs[..i];
      table := table + {defs[i].id};
    }
    assert defs[..|defs|] == defs;
    assert defs != [] ==> defs[0].id in table;
    if table == {} { return false; }
    NetworksArePrefixes(defs);
    var covers := CoversEntireIpv4(Networks(AllRoutes(defs)));
    return !covers;
  }

  predicate Letter(c: char) { '0' <= c <= '9' || 'A' <= c <= 'Z' || 'a' <= c <= 'z' }

  /** No route of the list contains the address. */
  predicate LeftOut(raws: seq<RawRoute>, a: Addr) {
    forall raw <- raws :: !InRoute(raw, a)
  }

  ghost predicate AllLeftOut(defs: seq<ResourceDefinition>, a: Addr) { forall d <- defs :: LeftOut(d.routes, a) }

  /** Exactly which definitions are valid: an id of 1 to 128 letters, digits, dots,
      underscores and hyphens that starts with a letter or digit; routes that fit and
      leave some address out; domains that fit. */
  lemma DefinitionExact(d: ResourceDefinition)
    ensures DefinitionValid(d) <==>
      && 1 <= |d.id| <= 128 && Letter(d.id[0]) && (forall c <- d.id :: Letter(c) || c == '.' || c == '_' || c == '-')
      && (forall raw <- d.routes :: LabRouteFits(raw)) && (exists a: Addr :: LeftOut(d.routes, a))
      && (forall domain <- d.domains :: DomainFits(domain))
  {
    IdExact(d.id);
    forall raw ensures LabRoute(raw) <==> LabRouteFits(raw) {
      LabRouteExact(raw);
    }
    assert forall domain <- d.domains :: DomainAllowed(domain) <==> DomainFits(domain);
    hide LabRouteFits, ResourceIdText, DomainAllowed, DomainFits;
    if forall raw <- d.routes :: LabRoute(raw) {
      LeftOutExact(d.routes);
    }
  }

  /** Exactly which registries are valid: at least one definition, all valid, with ids
      of their own, which together leave some address out. */
  lemma RegistryExact(defs: seq<ResourceDefinition>)
    ensures RegistryValid(defs) <==>
      && |defs| >= 1 && (forall i, j | 0 <= i < |defs| && 0 <= j < |defs| && defs[i].id == defs[j].id :: i == j)
      && (forall d <- defs :: DefinitionValid(d))
      && (exists a: Addr :: AllLeftOut(defs, a))
  {
    var raws := AllRoutes(defs);
    forall raw ensures raw in raws <==> exists d <- defs :: raw in d.routes {
      AllRoutesMembers(defs, raw);
    }
    hide DefinitionValid, LeftOut, AllLeftOut, AllRoutes, CoversAll;
    if forall d <- defs :: DefinitionValid(d) {
      forall raw <- raws ensures LabRoute(raw) {
        var d :| d in defs && raw in d.routes;
        DefinitionRoutes(d, raw);
      }
      LeftOutExact(raws);
      forall a: Addr ensures LeftOut(raws, a) <==> AllLeftOut(defs, a) {
        LeftOutTogether(defs, raws, a);
      }
    }
  }

  lemma DefinitionRoutes(d: ResourceDefinition, raw: RawRoute)
    requires DefinitionValid(d) && raw in d.routes
    ensures LabRoute(raw)
  {
  }

  lemma LeftOutTogether(defs: seq<ResourceDefinition>, raws: seq<RawRoute>, a: Addr)
    requires forall raw :: raw in raws <==> exists d <- defs :: raw in d.routes
    ensures LeftOut(raws, a) <==> AllLeftOut(defs, a)
  {
    hide Contains, Cut;
  }

  lemma LeftOutExact(raws: seq<RawRoute>)
    requires forall raw <- raws :: LabRoute(raw)
    ensures !CoversAll(Elements(Networks(raws))) <==> exists a: Addr :: LeftOut(raws, a)
  {
    hide Contains, Cut, Multicast;
    forall a: Addr ensures LeftOut(raws, a) <==> !Covered(Elements(Networks(raws)), a) {
      if Covered(Elements(Networks(raws)), a) {
        var p :| p in Networks(raws) && Contains(p, a);
        var i :| 0 <= i < |raws| && Networks(raws)[i] == p;
        assert raws[i] in raws;
      }
      forall raw <- raws | Contains(Network(raw), a) ensures Covered(Elements(Networks(raws)), a) {
        var i :| 0 <= i < |raws| && raws[i] == raw;
        assert Networks(raws)[i] in Networks(raws);
      }
    }
  }

  lemma LabRouteExact(raw: RawRoute)
    ensures LabRoute(raw) <==> LabRouteFits(raw)
  {
    hide Multicast, Contains, Cut;
    if raw.V4Route? && 1 <= raw.len <= 32 {
      var p := Cut(raw.address, raw.len);
      CutIsPrefix(raw.address, raw.len);
      MulticastExact(p);
      assert forall a: Addr :: InRoute(raw, a) <==> Contains(p, a);
    }
  }

  lemma IdExact(id: string)
    ensures ResourceIdText(id) <==>
      1 <= |id| <= 128 && Letter(id[0]) && (forall c <- id :: Letter(c) || c == '.' || c == '_' || c == '-')
  {
    var codes := seq(|id|, i requires 0 <= i < |id| => id[i] as int);
    assert forall c: char :: AlphaNumeric(c as int) <==> Letter(c);
    assert forall i | 0 <= i < |id| :: codes[i] in codes && id[i] in id;
  }

  lemma {:induction false} AllRoutesMembers(defs: seq<ResourceDefinition>, raw: RawRoute)
    ensures raw in AllRoutes(defs) <==> exists d <- defs :: raw in d.routes
  {
    if defs != [] {
      AllRoutesMembers(defs[1..], raw);
      assert defs == [defs[0]] + defs[1..];
    }
  }

  lemma NetworksArePrefixes(defs: seq<ResourceDefinition>)
    requires forall d <- defs :: DefinitionValid(d)
    ensures forall p <- Networks(AllRoutes(defs)) :: IsPrefix(p)
  {
    hide CoversAll;
    var raws := AllRoutes(defs);
    forall i | 0 <= i < |raws| ensures IsPrefix(Networks(raws)[i]) {
      AllRoutesMembers(defs, raws[i]);
      assert LabRoute(raws[i]);
      CutIsPrefix(raws[i].address, raws[i].len);
    }
  }

  /** The manifest without its hash and session: what the digest covers. The
      `dns` object is the dictionary of the DNS map. */
  datatype Base = Base(version: int, resources: seq<ResourceDefinition>, splitTunnel: bool, clientMemoryOnly: bool,
                       dns: map<string, Addr>)

  function BaseOf(defs: seq<ResourceDefinition>, dns: DnsState): Base {
    Base(MANIFEST_VERSION, defs, true, true, dns.mapping)
  }

  function AllDomains(defs: seq<ResourceDefinition>): seq<string> {
    if defs == [] then [] else defs[0].domains + AllDomains(defs[1..])
  }

  datatype SessionPart = SessionPart(id: Id, virtualIp: Addr, generation: nat, expiresAt: int, deviceId: string)

  datatype Manifest = Manifest(base: Base, hash: string, session: SessionPart)

  /** `int(session.expires_at)`. */
  function Truncate(x: real): int { if x >= 0.0 then x.Floor else -(-x).Floor }

  /** `manifest_for`. */
  function ManifestFor(base: Base, digest: Base -> string, s: Lease): Manifest {
    Manifest(base, digest(base), SessionPart(s.id, s.virtualIp, s.generation, Truncate(s.expiresAt), s.posture.deviceId))
  }

  datatype Signed = Signed(alg: string, kid: string, issuedAt: int, expiresAt: int, manifest: Manifest)

  /** A signature verifies under a key exactly on the message it was made on. */
  datatype Signature = Signature(key: nat, message: Signed)

  datatype Envelope = Envelope(signed: Signed, signature: Signature)

  datatype EnvelopeError = UnsupportedSignature | InvalidLifetime | InvalidSignature | UnsupportedManifest | DigestMismatch

  datatype Verifier = Verifier(key: nat, keyId: string)

  /** `issue`, for a TTL the signer allows. */
  function Issue(v: Verifier, m: Manifest, ttl: int, now: int): Option<Envelope> {
    if !(1 <= ttl <= 600) then None
    else
      var signed := Signed("Ed25519", v.keyId, now, now + ttl, m);
      Some(Envelope(signed, Signature(v.key, signed)))
  }

  function Verify(v: Verifier, e: Envelope, digest: Base -> string, now: int): Result<Manifest, EnvelopeError> {
    var s := e.signed;
    if s.alg != "Ed25519" || s.kid != v.keyId then Err(UnsupportedSignature)
    else if s.expiresAt < s.issuedAt || s.expiresAt - s.issuedAt > 600 || s.issuedAt > now + 30 || s.expiresAt <= now
    then Err(InvalidLifetime)
    else if e.signature != Signature(v.key, s) then Err(InvalidSignature)
    else if s.manifest.base.version != MANIFEST_VERSION then Err(UnsupportedManifest)
    else if digest(s.manifest.base) != s.manifest.hash then Err(DigestMismatch)
    else Ok(s.manifest)
  }

  datatype Binding = Binding(sessionId: Id, virtualIp: Addr, deviceId: string, generation: nat, resourceId: string)

  predicate Offers(base: Base, resourceId: string) { exists d <- base.resources :: d.id == resourceId }

  /** `require_manifest_binding`. */
  predicate Bound(m: Manifest, b: Binding) {
    && m.session.id == b.sessionId && m.session.virtualIp == b.virtualIp
    && m.session.deviceId == b.deviceId && m.session.generation == b.generation
    && Offers(m.base, b.resourceId)
  }

  /** The stack registers every domain and the gateway hashes the result; the
      control plane registers them all again and then hashes. The stack starts
      exactly when the canonical names are allowed and fit the pool, and then both
      have the same map, hence the same hash. */
  lemma SameHash(defs: seq<ResourceDefinition>, empty: DnsState, digest: Base -> string)
    ensures RegisterAll(empty, AllDomains(defs)).Ok? <==>
      && (forall d <- AllDomains(defs) :: DomainAllowed(CanonicalDomain(d)))
      && |NewNames(empty, AllDomains(defs))| <= |empty.rest|
    ensures RegisterAll(empty, AllDomains(defs)).Ok? ==>
      var first := RegisterAll(empty, AllDomains(defs)).value;
      var second := RegisterAll(first, AllDomains(defs));
      second.Ok? && digest(BaseOf(defs, first)) == digest(BaseOf(defs, second.value))
  {
    RegisterAllExact(empty, AllDomains(defs));
    if RegisterAll(empty, AllDomains(defs)).Ok? {
      RegisterAllTwice(empty, AllDomains(defs));
    }
  }

  /** An issued envelope verifies exactly from 30 seconds before its issue until its
      expiry, and binds exactly to the session it was made for. */
  lemma IssuedVerifies(v: Verifier, base: Base, digest: Base -> string, s: Lease, ttl: int, now: int, later: int, b: Binding)
    requires 1 <= ttl <= 600 && base.version == MANIFEST_VERSION
    ensures var m := ManifestFor(base, digest, s);
      && Issue(v, m, ttl, now).Some?
      && var (e, r) := (Issue(v, m, ttl, now).value, Verify(v, Issue(v, m, ttl, now).value, digest, later));
      && e.signed.manifest == m && e.signature == Signature(v.key, e.signed)
      && (r.Ok? <==> now - 30 <= later < now + ttl) && (r.Ok? ==> r.value == m)
      && (Bound(m, b) <==> b == Binding(s.id, s.virtualIp, s.posture.deviceId, s.generation, b.resourceId) && Offers(base, b.resourceId))
  {
  }

  /** What verifies was signed under the key as it stands, within its lifetime, and
      carries its own digest. */
  lemma VerifiedIsSigned(v: Verifier, e: Envelope, digest: Base -> string, now: int)
    requires Verify(v, e, digest, now).Ok?
    ensures e.signature == Signature(v.key, e.signed) && Verify(v, e, digest, now).value == e.signed.manifest
    ensures e.signed.issuedAt - 30 <= now < e.signed.expiresAt <= e.signed.issuedAt + 600
    ensures digest(e.signed.manifest.base) == e.signed.manifest.hash
  {
  }

  /** An envelope as the signer seals it, for any time of issue and of expiry. */
  function Sealed(v: Verifier, m: Manifest, issuedAt: int, expiresAt: int): Envelope {
    var signed := Signed("Ed25519", v.keyId, issuedAt, expiresAt, m);
    Envelope(signed, Signature(v.key, signed))
  }

  /** Exactly which envelopes verify: those the signer sealed, for 0 to 600 seconds, over
      a manifest of version 1 that carries its own digest, from 30 seconds before their
      issue until they expire. What it issues is sealed for 1 to 600 seconds. */
  lemma VerifiesExactly(v: Verifier, e: Envelope, digest: Base -> string, now: int, m: Manifest, ttl: int, issuedAt: int)
    ensures Verify(v, e, digest, now) == Ok(m) <==>
      && m == e.signed.manifest && e == Sealed(v, m, e.signed.issuedAt, e.signed.expiresAt)
      && 0 <= e.signed.expiresAt - e.signed.issuedAt <= 600 && e.signed.issuedAt - 30 <= now < e.signed.expiresAt
      && m.base.version == 1 && m.hash == digest(m.base)
    ensures Issue(v, m, ttl, issuedAt) == if 1 <= ttl <= 600 then Some(Sealed(v, m, issuedAt, issuedAt + ttl)) else None
  {
  }

  /** What a manifest says of its session; the expiry is cut to whole
      seconds, towards zero. */
  lemma ManifestSession(base: Base, digest: Base -> string, s: Lease)
    ensures var m := ManifestFor(base, digest, s);
      && m.base == base && m.hash == digest(base)
      && m.session.id == s.id && m.session.virtualIp == s.virtualIp && m.session.generation == s.generation
      && m.session.deviceId == s.posture.deviceId
      && (s.expiresAt >= 0.0 ==> m.session.expiresAt as real <= s.expiresAt < m.session.expiresAt as real + 1.0)
      && (s.expiresAt <= 0.0 ==> m.session.expiresAt as real - 1.0 < s.expiresAt <= m.session.expiresAt as real)
  {
  }

  function RawEntry(d: ResourceDefinition): RawResource { Entry(Some(d.id), Some(d.routes)) }

  function RawEntries(defs: seq<ResourceDefinition>): seq<RawResource> {
    seq(|defs|, i requires 0 <= i < |defs| => RawEntry(defs[i]))
  }

  /** The manifest as the client's plan builder reads it: `names` is the order of
      the `dns` object's keys. */
  function RawOf(m: Manifest, names: seq<string>): RawManifest
    requires ListsKeys(names, m.base.dns)
  {
    assert forall n <- names :: n in Elements(names);
    RawManifest(Some(m.base.version), m.base.splitTunnel, m.base.clientMemoryOnly,
      SessionEntry(V4(m.session.virtualIp)), Some(RawEntries(m.base.resources)),
      Some(DnsItems(m.base.dns, names)))
  }

  lemma LabPools()
    ensures IsPrefix(LAB_POOL) && IsPrefix(DNS_POOL)
  {
    assert Pow2(8) == 0x100;
    assert Pow2(16) == 0x1_0000;
    assert Pow2(24) == 0x100_0000;
  }

  /** The host addresses of the default pools. */
  function LabHosts(): seq<Addr> { LabPools(); Hosts(LAB_POOL) }
  function DnsHosts(): seq<Addr> { LabPools(); Hosts(DNS_POOL) }

  lemma HostInPool(pool: Prefix, a: Addr)
    requires IsPrefix(pool) && 24 <= pool.len <= 30 && a in Hosts(pool)
    ensures Contains(pool, a)
  {
    PrefixInSpace(pool);
    ContainsRange(pool, a);
  }

  lemma DnsEntryFits(dns: DnsState, name: string)
    requires DnsValid(dns, DnsHosts()) && name in dns.mapping
    ensures Contains(DNS_POOL, dns.mapping[name]) && CanonicalDomain(name) == name && DomainAllowed(name)
  {
    hide Contains, CanonicalDomain, DomainAllowed, Hosts;
    LabPools();
    HostsDistinct(DNS_POOL);
    ValidIsInjective(dns, DnsHosts(), name, name);
    HostInPool(DNS_POOL, dns.mapping[name]);
    assert name in Elements(dns.order);
    var k :| 0 <= k < |dns.order| && dns.order[k] == name;
    assert Registered(dns, k);
  }

  function DnsItems(dns: map<string, Addr>, names: seq<string>): seq<(string, RawAddress)>
    requires forall n <- names :: n in dns
  {
    seq(|names|, i requires 0 <= i < |names| => assert names[i] in names; (names[i], V4(dns[names[i]])))
  }

  function Restrict(dns: map<string, Addr>, names: set<string>): map<string, Addr> {
    map n | n in names && n in dns :: dns[n]
  }

  lemma {:induction false} DnsItemsNormalized(dns: map<string, Addr>, names: seq<string>, i: nat)
    requires Distinct(names) && i <= |names| && forall n <- names :: n in dns
    requires forall n <- names :: CanonicalDomain(n) == n && DomainAllowed(n)
    ensures forall d <- DnsItems(dns, names)[i..] :: d.1.V4?
    ensures NormalizeDns(Restrict(dns, Elements(names[..i])), DnsItems(dns, names)[i..]) ==
      Ok(Restrict(dns, Elements(names)))
    decreases |names| - i
  {
    hide CanonicalDomain, DomainAllowed;
    var (items, done) := (DnsItems(dns, names), Elements(names[..i]));
    if i == |names| {
      assert names[..i] == names;
    } else {
      assert names[i] in names && names[i] !in done;
      assert items[i..] == [items[i]] + items[i + 1..] && items[i] == (names[i], V4(dns[names[i]]));
      assert names[..i + 1] == names[..i] + [names[i]];
      assert Restrict(dns, done)[names[i] := dns[names[i]]] == Restrict(dns, Elements(names[..i + 1]));
      DnsItemsNormalized(dns, names, i + 1);
    }
  }

  /** The DNS part of a manifest made from a valid map is taken in as it is. */
  lemma DnsUnchanged(m: Manifest, dns: DnsState, names: seq<string>)
    requires DnsValid(dns, DnsHosts()) && m.base.dns == dns.mapping
    requires ListsKeys(names, m.base.dns)
    ensures PlanDns(RawOf(m, names)) == Ok(dns.mapping)
  {
    hide CanonicalDomain, DomainAllowed, Contains, DnsValid, DnsHosts;
    assert forall n <- names :: n in Elements(names);
    var items := DnsItems(dns.mapping, names);
    forall i | 0 <= i < |items| ensures items[i].1.V4? && Contains(DNS_POOL, items[i].1.n) {
      assert names[i] in names;
      DnsEntryFits(dns, names[i]);
    }
    forall n <- names ensures CanonicalDomain(n) == n && DomainAllowed(n) {
      DnsEntryFits(dns, n);
    }
    AllInPool(items);
    DnsItemsNormalized(dns.mapping, names, 0);
    assert items[0..] == items && Restrict(dns.mapping, Elements(names[..0])) == map[];
    assert Restrict(dns.mapping, Elements(names)) == dns.mapping;
  }

  lemma {:induction false} AllInPool(items: seq<(string, RawAddress)>)
    requires forall i | 0 <= i < |items| :: items[i].1.V4? && Contains(DNS_POOL, items[i].1.n)
    ensures CheckDnsValues(items) == None
  {
    if items != [] {
      assert forall i | 0 <= i < |items| - 1 :: items[1..][i] == items[i + 1];
      AllInPool(items[1..]);
    }
  }

  lemma HostsDistinct(pool: Prefix)
    requires IsPrefix(pool) && 24 <= pool.len <= 30
    ensures Distinct(Hosts(pool))
  {
  }

  /** The extra check of the plan builder on a registered route. */
  predicate NoUnspecified(defs: seq<ResourceDefinition>) {
    forall raw <- AllRoutes(defs) :: !Unspecified(Network(raw))
  }

  lemma EntriesWellFormed(defs: seq<ResourceDefinition>)
    requires RegistryValid(defs)
    ensures (forall r <- RawEntries(defs) :: WellFormed(r)) <==> NoUnspecified(defs)
  {
    hide CoversAll, Multicast, Unspecified, Cut;
    forall d <- defs ensures WellFormed(RawEntry(d)) <==> forall raw <- d.routes :: !Unspecified(Network(raw)) {
      assert forall raw <- d.routes :: LabRoute(raw) && (ParseRoute(raw).Ok? <==> !Unspecified(Network(raw)));
    }
    assert forall i | 0 <= i < |defs| :: RawEntries(defs)[i] == RawEntry(defs[i]);
    forall raw ensures raw in AllRoutes(defs) <==> exists d <- defs :: raw in d.routes {
      AllRoutesMembers(defs, raw);
    }
    assert forall d <- defs :: RawEntry(d) in RawEntries(defs) by {
      forall d <- defs ensures RawEntry(d) in RawEntries(defs) {
        var i :| 0 <= i < |defs| && defs[i] == d;
        assert RawEntries(defs)[i] == RawEntry(d);
      }
    }
  }

  lemma PlannedPrefixesOfRegistry(defs: seq<ResourceDefinition>)
    requires RegistryValid(defs) && NoUnspecified(defs)
    ensures ClaimedPrefixes(RawEntries(defs)) <= Elements(Networks(AllRoutes(defs)))
  {
    hide CoversAll, Multicast, Unspecified, Cut;
    var raws := AllRoutes(defs);
    forall p <- ClaimedPrefixes(RawEntries(defs)) ensures p in Networks(raws) {
      var c :| c in Claims(RawEntries(defs)) && c.0 == p;
      var raw := ClaimSource(defs, c);
      var i :| 0 <= i < |raws| && raws[i] == raw;
      assert Networks(raws)[i] == p;
    }
  }

  lemma ClaimSource(defs: seq<ResourceDefinition>, c: (Prefix, string)) returns (raw: RawRoute)
    requires c in Claims(RawEntries(defs))
    ensures raw in AllRoutes(defs) && Network(raw) == c.0
  {
    hide Multicast, Unspecified, Cut;
    var r :| r in RawEntries(defs) && c in ResourceClaims(r);
    var k :| 0 <= k < |defs| && RawEntries(defs)[k] == r;
    assert r == RawEntry(defs[k]) && defs[k] in defs;
    raw :| raw in r.routes.value && c in RouteClaim(raw, r.id.value);
    AllRoutesMembers(defs, raw);
  }

  lemma FewerCoverLess(x: set<Prefix>, y: set<Prefix>)
    requires x <= y && !CoversAll(y)
    ensures !CoversAll(x)
  {
    var a: Addr :| !Covered(y, a);
    assert !Covered(x, a);
  }

  /** From manifest to plan: for a valid registry, a DNS map of the default pool and
      a session of the default pool, the client can build a plan from the manifest
      if and only if every canonical prefix has one owner and none is 0.0.0.0/32;
      the plan has the session's address and the DNS map unchanged. */
  lemma PipelineExact(
    defs: seq<ResourceDefinition>, dns: DnsState, names: seq<string>, digest: Base -> string, s: Lease)
    requires RegistryValid(defs)
    requires DnsValid(dns, DnsHosts())
    requires s.virtualIp in LabHosts()
    requires ListsKeys(names, dns.mapping)
    ensures var raw := RawOf(ManifestFor(BaseOf(defs, dns), digest, s), names);
      && (Planned(raw).Ok? <==> OneOwner(Claims(RawEntries(defs))) && NoUnspecified(defs))
      && (Planned(raw).Ok? ==> Planned(raw).value.virtualIp == s.virtualIp && Planned(raw).value.fakeDns == dns.mapping)
  {
    var m := ManifestFor(BaseOf(defs, dns), digest, s);
    var raw := RawOf(m, names);
    DnsUnchanged(m, dns, names);
    LabPools();
    HostInPool(LAB_POOL, s.virtualIp);
    EntriesWellFormed(defs);
    if NoUnspecified(defs) {
      PlannedPrefixesOfRegistry(defs);
      FewerCoverLess(ClaimedPrefixes(RawEntries(defs)), Elements(Networks(AllRoutes(defs))));
    }
    assert raw.resources == Some(RawEntries(defs));
    hide WellFormed, Claims, ClaimedPrefixes, CoversAll, PlanDns, Planned, OneOwner, DnsValid, RegistryValid;
    assert HeadError(raw) == None;
    PlannedExact(raw);
  }
}
