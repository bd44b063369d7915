/** The manifest pipeline as a whole: from the registry and an empty DNS map, through
    registration, both planes' manifests, the signed envelope and its binding, to the
    plan of the client and of the network helper. */
module Pipeline {
  import opened Wrappers
  import opened Collections
  import opened ResourceIds
  import opened Ipv4
  import opened Pools
  import opened Sessions
  import opened Interleaving
  import opened RoutePlans
  import opened DnsMaps
  import opened Manifests
  import opened NetworkHelpers

  function EmptyDns(): DnsState { DnsState(DnsHosts(), map[], []) }

  /** The DNS map once the stack has registered every domain. */
  function StackDns(defs: seq<ResourceDefinition>): Result<DnsState, DnsError> { RegisterAll(EmptyDns(), AllDomains(defs)) }

  /** The DNS map once the control plane has registered them again. */
  function ControlDns(defs: seq<ResourceDefinition>): Result<DnsState, DnsError>
    requires StackDns(defs).Ok?
  {
    RegisterAll(StackDns(defs).value, AllDomains(defs))
  }

  /** `manifest_for` on the control plane. */
  function ControlManifest(defs: seq<ResourceDefinition>, digest: Base -> string, s: Lease): Manifest
    requires StackDns(defs).Ok? && ControlDns(defs).Ok?
  {
    ManifestFor(BaseOf(defs, ControlDns(defs).value), digest, s)
  }

  lemma ControlDnsValid(defs: seq<ResourceDefinition>)
    requires StackDns(defs).Ok?
    ensures ControlDns(defs) == StackDns(defs) && DnsValid(StackDns(defs).value, DnsHosts())
    ensures forall domain <- AllDomains(defs) :: Settled(StackDns(defs).value, domain)
  {
    hide DnsHosts, CanonicalDomain, DomainAllowed;
    RegisterAllTwice(EmptyDns(), AllDomains(defs));
    assert DnsValid(EmptyDns(), DnsHosts()) by {
      assert Assigned(EmptyDns()) == [];
    }
    RegisterAllKeepsValid(EmptyDns(), AllDomains(defs), DnsHosts());
    forall domain <- AllDomains(defs) ensures Settled(StackDns(defs).value, domain) {
      RegisterAllSettles(EmptyDns(), AllDomains(defs), domain);
    }
  }

  /** When a valid registry makes plans. */
  predicate Plannable(defs: seq<ResourceDefinition>) { OneOwner(Claims(RawEntries(defs))) && NoUnspecified(defs) }

  /** End to end: once the stack has started, the envelope issued for any session in
      the store, at any point of any run, yields a plan exactly within its lifetime,
      for the binding of that session and a listed resource, if the registry makes
      plans at all. The hash is the gateway's; the plan has the session's address,
      the claims of the registry as its routes, and the address of every domain; it
      leaves some address out; and the envelope's signature is good for nothing else. */
  lemma EndToEnd(
    defs: seq<ResourceDefinition>, digest: Base -> string, w: World, cfg: Config, id: Id,
    v: Verifier, ttl: int, now: int, later: int, b: Binding, names: seq<string>)
    requires RegistryValid(defs) && StackDns(defs).Ok?
    requires Reachable(w, LabHosts(), cfg) && id in w.store.sessions && 1 <= ttl <= 600
    requires ListsKeys(names, StackDns(defs).value.mapping)
    ensures ControlDns(defs).Ok?
    ensures var (s, m) := (w.store.sessions[id], ControlManifest(defs, digest, w.store.sessions[id]));
      && m.hash == digest(BaseOf(defs, StackDns(defs).value))
      && Issue(v, m, ttl, now).Some?
      && var e := Issue(v, m, ttl, now).value;
      && NamesOf(names, e)
      && var plan := VerifiedPlan(v, digest, b, e, names, later);
      && (plan.Ok? <==>
          && now - 30 <= later < now + ttl
          && b == Binding(id, s.virtualIp, s.posture.deviceId, s.generation, b.resourceId)
          && (exists d <- defs :: d.id == b.resourceId)
          && Plannable(defs))
      && (plan.Ok? ==>
          && plan.value.virtualIp == s.virtualIp
          && (forall r :: r in plan.value.routes <==>
                (r.prefix, r.resourceId) in Claims(RawEntries(defs)) && r.nextHop == s.virtualIp)
          && (exists a: Addr :: LongestMatch(plan.value.routes, V4(a)) == None)
          && plan.value.fakeDns == StackDns(defs).value.mapping
          && forall domain <- AllDomains(defs) :: CanonicalDomain(domain) in plan.value.fakeDns)
      && forall x: Envelope | x.signature == e.signature && x != e :: Verify(v, x, digest, later).Err?
  {
    var (s, dns) := (w.store.sessions[id], StackDns(defs).value);
    ControlDnsValid(defs);
    var m := ControlManifest(defs, digest, s);
    var e := Issue(v, m, ttl, now).value;
    assert s.virtualIp in LabHosts() && s.id == id by {
      SessionInPool(w, cfg, id);
    }
    assert forall domain <- AllDomains(defs) :: CanonicalDomain(domain) in dns.mapping by {
      forall domain <- AllDomains(defs) ensures CanonicalDomain(domain) in dns.mapping {
        assert Settled(dns, domain);
      }
    }
    hide RegistryValid, Reachable, DnsValid, StackDns, ControlDns, LabHosts, DnsHosts, Claims, OneOwner, NoUnspecified;
    hide CanonicalDomain, DomainAllowed, Verify, Bound, Issue, Planned, LongestMatch, RawOf;
    IssuedVerifies(v, m.base, digest, s, ttl, now, later, b);
    PipelineExact(defs, dns, names, digest, s);
    PlanRoutes(defs, dns, names, digest, s);
    forall x: Envelope | x.signature == e.signature && x != e ensures Verify(v, x, digest, later).Err? {
      if Verify(v, x, digest, later).Ok? {
        VerifiedIsSigned(v, x, digest, later);
      }
    }
  }

  lemma SessionInPool(w: World, cfg: Config, id: Id)
    requires Reachable(w, LabHosts(), cfg) && id in w.store.sessions
    ensures w.store.sessions[id].virtualIp in LabHosts() && w.store.sessions[id].id == id
  {
    Exclusive(w, LabHosts(), cfg, id, id);
    ReachableInvariant(w, LabHosts(), cfg);
    hide Partition, Logged, Counted;
    assert Stored(w, id);
  }

  lemma PlanRoutes(defs: seq<ResourceDefinition>, dns: DnsState, names: seq<string>, digest: Base -> string, s: Lease)
    requires ListsKeys(names, dns.mapping)
    ensures var raw := RawOf(ManifestFor(BaseOf(defs, dns), digest, s), names);
      Planned(raw).Ok? ==>
        && (forall r :: r in Planned(raw).value.routes <==>
              (r.prefix, r.resourceId) in Claims(RawEntries(defs)) && r.nextHop == s.virtualIp)
        && exists a: Addr :: LongestMatch(Planned(raw).value.routes, V4(a)) == None
  {
    var raw := RawOf(ManifestFor(BaseOf(defs, dns), digest, s), names);
    if Planned(raw).Ok? {
      assert HeadError(raw) == None && PlanDns(raw).Ok?;
      hide Planned, LongestMatch, Claims;
      PlannedExact(raw);
      var a := PlanLeavesAddressOut(raw);
    }
  }

  function Host(a: Addr): RawRoute { V4Route(a, 32) }

  function OneHost(id: string, a: Addr, domains: seq<string>): ResourceDefinition {
    ResourceDefinition(id, domains, [Host(a)], {"read"})
  }

  lemma HostNetwork(a: Addr)
    requires a < 2
    ensures Network(Host(a)) == Prefix(a, 32) && LabRoute(Host(a)) && (Unspecified(Prefix(a, 32)) <==> a == 0)
  {
    assert Pow2(0) == 1;
    assert Quotient(a, 1) == a;
  }

  lemma HostsCoverLittle(raws: seq<RawRoute>)
    requires forall raw <- raws :: raw == Host(0) || raw == Host(1)
    ensures !CoversAll(Elements(Networks(raws)))
  {
    HostNetwork(0);
    HostNetwork(1);
    assert Cut(2, 32) == Prefix(2, 32) by { assert Pow2(0) == 1; }
    assert forall i | 0 <= i < |raws| :: Networks(raws)[i] == Network(raws[i]);
    forall p <- Networks(raws) ensures !Contains(p, 2) {
      var i :| 0 <= i < |raws| && Networks(raws)[i] == p;
      assert raws[i] in raws;
    }
    assert !Covered(Elements(Networks(raws)), 2);
  }

  lemma HostDefinition(id: string, a: Addr, domains: seq<string>)
    requires a < 2 && id in {"a", "b"} && domains in {[], ["."]}
    ensures DefinitionValid(OneHost(id, a, domains))
  {
    hide CoversAll, Multicast;
    HostNetwork(a);
    HostsCoverLittle([Host(a)]);
    assert ResourceIdText(id);
  }

  /** Both conditions of `Plannable`, and the one for starting, can fail on valid
      registries: a route 0.0.0.0/32; one prefix with two owners; a domain ".". */
  lemma ValidRegistriesThatFail()
    ensures exists defs :: RegistryValid(defs) && OneOwner(Claims(RawEntries(defs))) && !NoUnspecified(defs)
    ensures exists defs :: RegistryValid(defs) && NoUnspecified(defs) && !OneOwner(Claims(RawEntries(defs)))
    ensures exists defs :: RegistryValid(defs) && StackDns(defs).Err?
  {
    hide CoversAll, DefinitionValid, Multicast, Unspecified, LabRoute, StackDns;
    HostNetwork(0);
    HostNetwork(1);
    UnspecifiedHost();
    TwoOwners();
    DotDomain();
  }

  lemma UnspecifiedHost()
    ensures var defs := [OneHost("a", 0, [])];
      RegistryValid(defs) && OneOwner(Claims(RawEntries(defs))) && !NoUnspecified(defs)
  {
    hide CoversAll, DefinitionValid, Unspecified, LabRoute;
    var defs := [OneHost("a", 0, [])];
    HostNetwork(0);
    HostDefinition("a", 0, []);
    assert AllRoutes(defs) == [Host(0)];
    HostsCoverLittle(AllRoutes(defs));
    assert Host(0) in AllRoutes(defs);
    assert ParseRoute(Host(0)).Err? && Host(0) in defs[0].routes;
    assert RawEntries(defs) == [RawEntry(defs[0])] && !WellFormed(RawEntry(defs[0]));
    assert Claims(RawEntries(defs)) == {};
  }

  lemma TwoOwners()
    ensures var defs := [OneHost("a", 1, []), OneHost("b", 1, [])];
      RegistryValid(defs) && NoUnspecified(defs) && !OneOwner(Claims(RawEntries(defs)))
  {
    hide CoversAll, DefinitionValid, Unspecified, LabRoute;
    var defs := [OneHost("a", 1, []), OneHost("b", 1, [])];
    HostNetwork(1);
    HostDefinition("a", 1, []);
    HostDefinition("b", 1, []);
    assert AllRoutes(defs[1..]) == [Host(1)];
    assert AllRoutes(defs) == [Host(1), Host(1)];
    HostsCoverLittle(AllRoutes(defs));
    forall d <- defs ensures (Prefix(1, 32), d.id) in Claims(RawEntries(defs)) {
      HostClaim(defs, d);
    }
    assert defs[0] in defs && defs[1] in defs;
  }

  lemma HostClaim(defs: seq<ResourceDefinition>, d: ResourceDefinition)
    requires d in defs && d.routes == [Host(1)] && 1 <= |d.id| <= 128
    ensures (Prefix(1, 32), d.id) in Claims(RawEntries(defs))
  {
    HostNetwork(1);
    var i :| 0 <= i < |defs| && defs[i] == d;
    assert RawEntries(defs)[i] == RawEntry(d);
    assert (Prefix(1, 32), d.id) in RouteClaim(Host(1), d.id);
    assert Host(1) in d.routes;
    assert (Prefix(1, 32), d.id) in ResourceClaims(RawEntry(d));
  }

  lemma DotDomain()
    ensures RegistryValid([OneHost("a", 1, ["."])]) && StackDns([OneHost("a", 1, ["."])]).Err?
  {
    hide CoversAll, DefinitionValid, LabRoute, RegisterAll;
    var defs := [OneHost("a", 1, ["."])];
    HostDefinition("a", 1, ["."]);
    assert AllRoutes(defs) == [Host(1)];
    HostsCoverLittle(AllRoutes(defs));
    assert AllDomains(defs) == ["."];
    assert CanonicalDomain(".") == "" by {
      assert RstripDots(".") == RstripDots("");
    }
    assert "." in AllDomains(defs);
    RegisterAllExact(EmptyDns(), AllDomains(defs));
  }
}
