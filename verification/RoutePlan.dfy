/** `labztna/routeplan.py`: building a route plan from a manifest and looking
    addresses up in it. Text is already parsed: a raw value says what
    `ipaddress` made of it. */
module RoutePlans {
  import opened Wrappers
  import opened Collections
  import opened Ipv4

  /** What `ip_address` makes of a JSON value. */
  datatype RawAddress = NotText | BadText | V4(n: Addr) | V6(bits: nat)

  /** What `ip_network(text, strict=False)` makes of a JSON value. */
  datatype RawRoute = RouteNotText | RouteBadText | V6Route(length: nat) | V4Route(address: Addr, len: nat)

  /** An entry of `resources`; `None` stands for a field of the wrong JSON type.
      A missing `routes` field is the empty list. */
  datatype RawResource = NotObject | Entry(id: Option<string>, routes: Option<seq<RawRoute>>)

  datatype RawSession = NoSession | SessionEntry(virtualIp: RawAddress)

  /** The items of a JSON object come with distinct keys. */
  datatype RawManifest = RawManifest(
    version: Option<int>,
    splitTunnel: bool,
    clientMemoryOnly: bool,
    session: RawSession,
    resources: Option<seq<RawResource>>,
    dns: Option<seq<(string, RawAddress)>>)

  datatype Route = Route(prefix: Prefix, resourceId: string, nextHop: Addr)

  datatype RoutePlan = RoutePlan(virtualIp: Addr, routes: seq<Route>, fakeDns: map<string, Addr>)

  datatype PlanError =
    | UnsupportedVersion | NotSplitTunnel | MissingSession | VirtualIpNotText | InvalidVirtualIp | VirtualIpOutside
    | MissingResources | InvalidResource | InvalidResourceId | InvalidRoutes | PrefixNotText | InvalidPrefix
    | PrefixNotPermitted | AmbiguousOwnership | FullTunnel | InvalidDnsMap | InvalidDnsAddress | DnsOutside | InvalidDnsName

  const LAB_POOL := Prefix(0x64_4000, 24)      // 100.64.0.0/24
  const DNS_POOL := Prefix(0xC6_1200, 24)      // 198.18.0.0/24

  /** The checks on one prefix, up to the ownership check. */
  function ParseRoute(raw: RawRoute): Result<Prefix, PlanError> {
    match raw
    case RouteNotText => Err(PrefixNotText)
    case RouteBadText => Err(InvalidPrefix)
    case V6Route(_) => Err(PrefixNotPermitted)
    case V4Route(address, len) =>
      if len > 32 then Err(InvalidPrefix)
      else
        var network := Cut(address, len);
        if len == 0 || Unspecified(network) || Multicast(network) then Err(PrefixNotPermitted) else Ok(network)
  }

  /** `owners` and `routes` while the loop runs. */
  datatype Table = Table(owners: map<Prefix, string>, routes: seq<Route>)

  function TakeRoute(t: Table, raw: RawRoute, id: string, hop: Addr): Result<Table, PlanError> {
    match ParseRoute(raw)
    case Err(e) => Err(e)
    case Ok(p) =>
      if p in t.owners && t.owners[p] != id then Err(AmbiguousOwnership)
      else if p in t.owners then Ok(t)
      else Ok(Table(t.owners[p := id], t.routes + [Route(p, id, hop)]))
  }

  function TakeRoutes(t: Table, raws: seq<RawRoute>, id: string, hop: Addr): Result<Table, PlanError>
    decreases |raws|
  {
    if raws == [] then Ok(t)
    else match TakeRoute(t, raws[0], id, hop)
      case Err(e) => Err(e)
      case Ok(next) => TakeRoutes(next, raws[1..], id, hop)
  }

  function TakeResource(t: Table, r: RawResource, hop: Addr): Result<Table, PlanError> {
    if r.NotObject? then Err(InvalidResource)
    else if r.id == None || !(1 <= |r.id.value| <= 128) then Err(InvalidResourceId)
    else if r.routes == None then Err(InvalidRoutes)
    else TakeRoutes(t, r.routes.value, r.id.value, hop)
  }

  function TakeResources(t: Table, rs: seq<RawResource>, hop: Addr): Result<Table, PlanError>
    decreases |rs|
  {
    if rs == [] then Ok(t)
    else match TakeResource(t, rs[0], hop)
      case Err(e) => Err(e)
      case Ok(next) => TakeResources(next, rs[1..], hop)
  }

  function Prefixes(routes: seq<Route>): seq<Prefix> {
    seq(|routes|, i requires 0 <= i < |routes| => routes[i].prefix)
  }

  function LowerChar(c: char): char { if 'A' <= c <= 'Z' then c + 32 as char else c }

  function RstripDots(s: string): string {
    if s != [] && s[|s| - 1] == '.' then RstripDots(s[..|s| - 1]) else s
  }

  /** `domain.lower().rstrip(".")` on ASCII names. */
  function CanonicalDomain(s: string): string {
    RstripDots(seq(|s|, i requires 0 <= i < |s| => LowerChar(s[i])))
  }

  predicate DomainAllowed(s: string) {
    s != [] && |s| <= 253 && forall c <- s :: c !in {' ', '/', '\\', '\r', '\n'}
  }

  function CheckDnsValues(dns: seq<(string, RawAddress)>): Option<PlanError> {
    if dns == [] then None
    else match dns[0].1
      case V4(n) => if Contains(DNS_POOL, n) then CheckDnsValues(dns[1..]) else Some(DnsOutside)
      case V6(_) => Some(DnsOutside)
      case _ => Some(InvalidDnsAddress)
  }

  function NormalizeDns(done: map<string, Addr>, dns: seq<(string, RawAddress)>): Result<map<string, Addr>, PlanError>
    requires forall d <- dns :: d.1.V4?
    decreases |dns|
  {
    if dns == [] then Ok(done)
    else
      var name := CanonicalDomain(dns[0].0);
      if !DomainAllowed(name) || name in done then Err(InvalidDnsName)
      else NormalizeDns(done[name := dns[0].1.n], dns[1..])
  }

  /** The checks before the loops. */
  function HeadError(m: RawManifest): Option<PlanError> {
    if m.version != Some(1) then Some(UnsupportedVersion)
    else if !m.splitTunnel || !m.clientMemoryOnly then Some(NotSplitTunnel)
    else if m.session.NoSession? then Some(MissingSession)
    else match m.session.virtualIp
      case NotText => Some(VirtualIpNotText)
      case BadText => Some(InvalidVirtualIp)
      case V6(_) => Some(VirtualIpOutside)
      case V4(n) =>
        if !Contains(LAB_POOL, n) then Some(VirtualIpOutside)
        else if m.resources == None || m.resources.value == [] then Some(MissingResources)
        else None
  }

  lemma CheckedDns(dns: seq<(string, RawAddress)>)
    requires CheckDnsValues(dns) == None
    ensures forall d <- dns :: d.1.V4? && Contains(DNS_POOL, d.1.n)
  {
  }

  function PlanDns(m: RawManifest): Result<map<string, Addr>, PlanError> {
    if m.dns == None || exists d <- m.dns.value :: d.1.NotText? then Err(InvalidDnsMap)
    else if CheckDnsValues(m.dns.value).Some? then Err(CheckDnsValues(m.dns.value).value)
    else
      CheckedDns(m.dns.value);
      NormalizeDns(map[], m.dns.value)
  }

  predicate DistinctNames(dns: seq<(string, RawAddress)>) {
    forall i, j | 0 <= i < j < |dns| :: CanonicalDomain(dns[i].0) != CanonicalDomain(dns[j].0)
  }

  /** Which DNS maps the plan takes in, and what it makes of them. */
  lemma {:induction false} NormalizeExact(done: map<string, Addr>, dns: seq<(string, RawAddress)>)
    requires forall d <- dns :: d.1.V4?
    ensures NormalizeDns(done, dns).Ok? <==>
      (forall d <- dns :: DomainAllowed(CanonicalDomain(d.0)) && CanonicalDomain(d.0) !in done) && DistinctNames(dns)
    ensures NormalizeDns(done, dns).Ok? ==>
      var r := NormalizeDns(done, dns).value;
      && r.Keys == done.Keys + (set d | d in dns :: CanonicalDomain(d.0))
      && (forall n <- done :: r[n] == done[n])
      && (forall d <- dns :: r[CanonicalDomain(d.0)] == d.1.n)
    decreases |dns|
  {
    hide CanonicalDomain, DomainAllowed;
    if dns != [] {
      var (d, rest) := (dns[0], dns[1..]);
      assert dns == [d] + rest;
      DistinctNamesCons(d, rest);
      hide DistinctNames;
      NormalizeExact(done[CanonicalDomain(d.0) := d.1.n], rest);
    }
  }

  lemma DistinctNamesCons(d: (string, RawAddress), rest: seq<(string, RawAddress)>)
    ensures DistinctNames([d] + rest) <==>
      DistinctNames(rest) && forall e <- rest :: CanonicalDomain(e.0) != CanonicalDomain(d.0)
  {
    hide CanonicalDomain;
    var dns := [d] + rest;
    assert forall j | 1 <= j < |dns| :: dns[j] == rest[j - 1];
    if DistinctNames(dns) {
      forall i, j | 0 <= i < j < |rest| ensures CanonicalDomain(rest[i].0) != CanonicalDomain(rest[j].0) {
        assert dns[i + 1] == rest[i] && dns[j + 1] == rest[j];
      }
      forall e <- rest ensures CanonicalDomain(e.0) != CanonicalDomain(d.0) {
        var j :| 0 <= j < |rest| && rest[j] == e;
        assert dns[0] == d && dns[j + 1] == e;
      }
    }
  }

  const EMPTY := Table(map[], [])

  /** `build_route_plan`. */
  ghost function Planned(m: RawManifest): Result<RoutePlan, PlanError> {
    if HeadError(m).Some? then Err(HeadError(m).value)
    else
      var hop := m.session.virtualIp.n;
      match TakeResources(EMPTY, m.resources.value, hop)
      case Err(e) => Err(e)
      case Ok(t) =>
        if CoversAll(Elements(Prefixes(t.routes))) then Err(FullTunnel)
        else match PlanDns(m)
          case Err(e) => Err(e)
          case Ok(dns) => Ok(RoutePlan(hop, t.routes, dns))
  }

  method BuildRoutePlan(m: RawManifest) returns (r: Result<RoutePlan, PlanError>)
    ensures r == Planned(m)
  {
    var error := HeadError(m);
    if error.Some? { return Err(error.value); }
    var hop := m.session.virtualIp.n;
    var table := BuildTable(m.resources.value, hop);
    if table.Err? { return Err(table.error); }
    PlannedPrefixes(m.resources.value, hop);
    var covers := CoversEntireIpv4(Prefixes(table.value.routes));
    if covers { return Err(FullTunnel); }
    var dns := BuildDns(m);
    if dns.Err? { return Err(dns.error); }
    return Ok(RoutePlan(hop, table.value.routes, dns.value));
  }

  /** The nested loops over resources and their routes. */
  method BuildTable(resources: seq<RawResource>, hop: Addr) returns (r: Result<Table, PlanError>)
    ensures r == TakeResources(EMPTY, resources, hop)
  {
    var routes: seq<Route> := [];
    var owners: map<Prefix, string> := map[];
    for i := 0 to |resources|
      invariant TakeResources(EMPTY, resources, hop) == TakeResources(Table(owners, routes), resources[i..], hop)
    {
      var resource := resources[i];
      assert resources[i..][0] == resource && resources[i..][1..] == resources[i + 1..];
      if resource.NotObject? { return Err(InvalidResource); }
      if resource.id == None || !(1 <= |resource.id.value| <= 128) { return Err(InvalidResourceId); }
      if resource.routes == None { return Err(InvalidRoutes); }
      var id, raws := resource.id.value, resource.routes.value;
      ghost var before := Table(owners, routes);
      for j := 0 to |raws|
        invariant TakeRoutes(before, raws, id, hop) == TakeRoutes(Table(owners, routes), raws[j..], id, hop)
      {
        assert raws[j..][0] == raws[j] && raws[j..][1..] == raws[j + 1..];
        var network := ParseRoute(raws[j]);
        if network.Err? { return Err(network.error); }
        var canonical := network.value;
        if canonical in owners {
          if owners[canonical] != id { return Err(AmbiguousOwnership); }
          continue;
        }
        owners := owners[canonical := id];
        routes := routes + [Route(canonical, id, hop)];
      }
    }
    return Ok(Table(owners, routes));
  }

  /** The loops over the DNS map. */
  method BuildDns(m: RawManifest) returns (r: Result<map<string, Addr>, PlanError>)
    ensures r == PlanDns(m)
  {
    if m.dns == None || exists d <- m.dns.value :: d.1.NotText? { return Err(InvalidDnsMap); }
    var dns := m.dns.value;
    for i := 0 to |dns|
      invariant CheckDnsValues(dns) == CheckDnsValues(dns[i..])
    {
      assert dns[i..][0] == dns[i] && dns[i..][1..] == dns[i + 1..];
      var value := dns[i].1;
      if value.NotText? || value.BadText? { return Err(InvalidDnsAddress); }
      if value.V6? || !Contains(DNS_POOL, value.n) { return Err(DnsOutside); }
    }
    CheckedDns(dns);
    var normalized: map<string, Addr> := map[];
    for i := 0 to |dns|
      invariant NormalizeDns(map[], dns) == NormalizeDns(normalized, dns[i..])
    {
      assert dns[i..][0] == dns[i] && dns[i..][1..] == dns[i + 1..];
      assert dns[i] in dns;
      var canonical := CanonicalDomain(dns[i].0);
      if !DomainAllowed(canonical) || canonical in normalized { return Err(InvalidDnsName); }
      normalized := normalized[canonical := dns[i].1.n];
    }
    return Ok(normalized);
  }

  /** `RoutePlan.lookup`: collect the matches, keep the first of the longest. */
  method Lookup(routes: seq<Route>, target: RawAddress) returns (r: Option<Route>)
    requires target.V4? || target.V6?
    ensures r == LongestMatch(routes, target)
  {
    r := None;
    for i := 0 to |routes|
      invariant r == LongestMatch(routes[..i], target)
    {
      assert routes[..i + 1][..i] == routes[..i];
      var route := routes[i];
      if target.V4? && Contains(route.prefix, target.n) && (r == None || route.prefix.len > r.value.prefix.len) {
        r := Some(route);
      }
    }
    assert routes[..|routes|] == routes;
  }

  function LongestMatch(routes: seq<Route>, target: RawAddress): Option<Route> {
    if routes == [] then None
    else
      var best := LongestMatch(routes[..|routes| - 1], target);
      var route := routes[|routes| - 1];
      if target.V4? && Contains(route.prefix, target.n) && (best == None || route.prefix.len > best.value.prefix.len)
      then Some(route) else best
  }

  /** Longest match, stated on the set of routes (section 5.2.4.3 of RFC 1812). */
  ghost predicate MostSpecific(routes: seq<Route>, a: Addr, r: Route) {
    && r in routes && Contains(r.prefix, a)
    && forall q <- routes | Contains(q.prefix, a) && q != r :: q.prefix.len < r.prefix.len
  }

  ghost predicate AmongLongest(routes: seq<Route>, a: Addr, r: Route) {
    && r in routes && Contains(r.prefix, a)
    && forall q <- routes | Contains(q.prefix, a) :: q.prefix.len <= r.prefix.len
  }

  predicate FirstAmongLongest(routes: seq<Route>, a: Addr, i: int) {
    && 0 <= i < |routes| && Contains(routes[i].prefix, a)
    && forall j | 0 <= j < |routes| && Contains(routes[j].prefix, a) ::
         if j < i then routes[j].prefix.len < routes[i].prefix.len else routes[j].prefix.len <= routes[i].prefix.len
  }

  predicate DistinctPrefixes(routes: seq<Route>) {
    forall i, j | 0 <= i < j < |routes| :: routes[i].prefix != routes[j].prefix
  }

  lemma {:induction false} LongestMatchBest(routes: seq<Route>, a: Addr)
    ensures LongestMatch(routes, V4(a)) == None <==> forall q <- routes :: !Contains(q.prefix, a)
    ensures LongestMatch(routes, V4(a)).Some? ==> AmongLongest(routes, a, LongestMatch(routes, V4(a)).value)
  {
    if routes != [] {
      LongestMatchBest(routes[..|routes| - 1], a);
      assert routes == routes[..|routes| - 1] + [routes[|routes| - 1]];
    }
  }

  /** Of several longest matches, in whatever list, the first. */
  lemma {:induction false} FirstOfLongest(routes: seq<Route>, a: Addr)
    requires LongestMatch(routes, V4(a)).Some?
    ensures exists i :: 0 <= i < |routes| && LongestMatch(routes, V4(a)) == Some(routes[i]) && FirstAmongLongest(routes, a, i)
  {
    var (init, n) := (routes[..|routes| - 1], |routes| - 1);
    if LongestMatch(init, V4(a)).Some? {
      FirstOfLongest(init, a);
      var i :| 0 <= i < |init| && LongestMatch(init, V4(a)) == Some(init[i]) && FirstAmongLongest(init, a, i);
      assert forall j | 0 <= j < n :: init[j] == routes[j];
      assert FirstAmongLongest(routes, a, i) || FirstAmongLongest(routes, a, n);
    } else {
      LongestMatchBest(init, a);
      assert forall j | 0 <= j < n :: routes[j] in init;
      assert FirstAmongLongest(routes, a, n);
    }
  }

  /** The prefixes that contain one address have one of each length at most. */
  lemma SameLengthSamePrefix(p: Prefix, q: Prefix, a: Addr)
    requires Contains(p, a) && Contains(q, a) && p.len == q.len
    ensures p == q
  {
  }

  /** With distinct prefixes, a lookup finds the unique most specific route, and
      finds none exactly when no route contains the address. */
  lemma {:induction false} LookupExact(routes: seq<Route>, a: Addr)
    requires DistinctPrefixes(routes)
    ensures forall r :: LongestMatch(routes, V4(a)) == Some(r) <==> MostSpecific(routes, a, r)
    ensures LongestMatch(routes, V4(a)) == None <==> forall q <- routes :: !Contains(q.prefix, a)
  {
    LongestMatchBest(routes, a);
    var found := LongestMatch(routes, V4(a));
    forall q, r | q in routes && r in routes && Contains(q.prefix, a) && Contains(r.prefix, a)
                  && q.prefix.len == r.prefix.len
      ensures q == r
    {
      SameLengthSamePrefix(q.prefix, r.prefix, a);
      var i :| 0 <= i < |routes| && routes[i] == q;
      var j :| 0 <= j < |routes| && routes[j] == r;
    }
    forall r ensures found == Some(r) <==> MostSpecific(routes, a, r) {
      if MostSpecific(routes, a, r) {
        assert found.Some?;
        assert found.value == r;
      }
    }
  }

  /** What the resources ask for, as a set: which prefix for which resource. */
  function RouteClaim(raw: RawRoute, id: string): set<(Prefix, string)> {
    if ParseRoute(raw).Ok? then {(ParseRoute(raw).value, id)} else {}
  }

  function RouteClaims(raws: seq<RawRoute>, id: string): set<(Prefix, string)> {
    set raw, c | raw in raws && c in RouteClaim(raw, id) :: c
  }

  predicate WellFormed(r: RawResource) {
    r.Entry? && r.id.Some? && 1 <= |r.id.value| <= 128 && r.routes.Some?
    && forall raw <- r.routes.value :: ParseRoute(raw).Ok?
  }

  function ResourceClaims(r: RawResource): set<(Prefix, string)> {
    if WellFormed(r) then RouteClaims(r.routes.value, r.id.value) else {}
  }

  function Claims(rs: seq<RawResource>): set<(Prefix, string)> {
    set r, c | r in rs && c in ResourceClaims(r) :: c
  }

  /** Every prefix has one owner. */
  predicate OneOwner(claims: set<(Prefix, string)>) {
    forall c <- claims, d <- claims :: c.0 == d.0 ==> c == d
  }

  /** The table holds exactly the claims made so far. */
  predicate Holds(t: Table, claims: set<(Prefix, string)>, hop: Addr) {
    && OneOwner(claims)
    && (forall p <- t.owners :: (p, t.owners[p]) in claims)
    && (forall c <- claims :: c.0 in t.owners && t.owners[c.0] == c.1)
    && (forall r <- t.routes :: (r.prefix, r.resourceId) in claims && r.nextHop == hop)
    && (forall c <- claims :: Route(c.0, c.1, hop) in t.routes)
    && DistinctPrefixes(t.routes)
  }

  /** A claim on a prefix nobody owns yet adds one owner and one route. */
  lemma NewOwner(t: Table, p: Prefix, id: string, hop: Addr, claims: set<(Prefix, string)>)
    requires Holds(t, claims, hop) && p !in t.owners
    ensures Holds(Table(t.owners[p := id], t.routes + [Route(p, id, hop)]), claims + {(p, id)}, hop)
  {
    var routes := t.routes + [Route(p, id, hop)];
    forall i | 0 <= i < |t.routes| ensures routes[i].prefix != p {
      assert t.routes[i] in t.routes;
      assert (t.routes[i].prefix, t.routes[i].resourceId) in claims;
    }
    assert DistinctPrefixes(routes);
    forall c <- claims ensures c.0 != p && Route(c.0, c.1, hop) in routes {
      assert Route(c.0, c.1, hop) in t.routes;
    }
    assert routes[|t.routes|] == Route(p, id, hop);
    assert OneOwner(claims + {(p, id)});
  }

  lemma OldOwner(t: Table, p: Prefix, id: string, hop: Addr, claims: set<(Prefix, string)>)
    requires Holds(t, claims, hop) && p in t.owners
    ensures OneOwner(claims + {(p, id)}) <==> t.owners[p] == id
    ensures t.owners[p] == id ==> claims + {(p, id)} == claims
  {
    assert (p, t.owners[p]) in claims + {(p, id)} && (p, id) in claims + {(p, id)};
  }

  lemma TakeRouteExact(t: Table, raw: RawRoute, id: string, hop: Addr, claims: set<(Prefix, string)>)
    requires Holds(t, claims, hop)
    ensures TakeRoute(t, raw, id, hop).Ok? <==> ParseRoute(raw).Ok? && OneOwner(claims + RouteClaim(raw, id))
    ensures TakeRoute(t, raw, id, hop).Ok? ==>
      Holds(TakeRoute(t, raw, id, hop).value, claims + RouteClaim(raw, id), hop)
  {
    HoldsOneOwner(t, hop, claims);
    hide ParseRoute, Holds, OneOwner;
    if ParseRoute(raw).Ok? {
      var p := ParseRoute(raw).value;
      if p in t.owners {
        OldOwner(t, p, id, hop, claims);
      } else {
        NewOwner(t, p, id, hop, claims);
        HoldsOneOwner(TakeRoute(t, raw, id, hop).value, hop, claims + {(p, id)});
      }
    }
  }

  lemma HoldsOneOwner(t: Table, hop: Addr, claims: set<(Prefix, string)>)
    requires Holds(t, claims, hop)
    ensures OneOwner(claims)
  {
  }

  lemma {:induction false} TakeRoutesExact(t: Table, raws: seq<RawRoute>, id: string, hop: Addr, claims: set<(Prefix, string)>)
    requires Holds(t, claims, hop)
    ensures TakeRoutes(t, raws, id, hop).Ok? <==>
      (forall raw <- raws :: ParseRoute(raw).Ok?) && OneOwner(claims + RouteClaims(raws, id))
    ensures TakeRoutes(t, raws, id, hop).Ok? ==>
      Holds(TakeRoutes(t, raws, id, hop).value, claims + RouteClaims(raws, id), hop)
    decreases |raws|
  {
    HoldsOneOwner(t, hop, claims);
    hide ParseRoute, TakeRoute, Holds, OneOwner;
    if raws == [] {
      assert claims + RouteClaims([], id) == claims;
    } else {
      var first := RouteClaim(raws[0], id);
      assert raws == [raws[0]] + raws[1..];
      assert claims + RouteClaims(raws, id) == claims + first + RouteClaims(raws[1..], id);
      TakeRouteExact(t, raws[0], id, hop, claims);
      if TakeRoute(t, raws[0], id, hop).Ok? {
        TakeRoutesExact(TakeRoute(t, raws[0], id, hop).value, raws[1..], id, hop, claims + first);
      }
    }
  }

  /** The loops accept exactly the well-formed resources whose claims give every
      canonical prefix one owner, and leave exactly one route for each claim. */
  lemma {:induction false} TakeResourcesExact(t: Table, rs: seq<RawResource>, hop: Addr, claims: set<(Prefix, string)>)
    requires Holds(t, claims, hop)
    ensures TakeResources(t, rs, hop).Ok? <==>
      (forall r <- rs :: WellFormed(r)) && OneOwner(claims + Claims(rs))
    ensures TakeResources(t, rs, hop).Ok? ==>
      Holds(TakeResources(t, rs, hop).value, claims + Claims(rs), hop)
    decreases |rs|
  {
    HoldsOneOwner(t, hop, claims);
    hide ParseRoute, TakeRoutes, RouteClaims, Holds, OneOwner;
    if rs == [] {
      assert claims + Claims([]) == claims;
    } else {
      var (r, first) := (rs[0], ResourceClaims(rs[0]));
      assert rs == [r] + rs[1..];
      assert claims + Claims(rs) == claims + first + Claims(rs[1..]);
      if r.Entry? && r.id.Some? && r.routes.Some? {
        TakeRoutesExact(t, r.routes.value, r.id.value, hop, claims);
      }
      if TakeResource(t, r, hop).Ok? {
        TakeResourcesExact(TakeResource(t, r, hop).value, rs[1..], hop, claims + first);
      }
    }
  }

  lemma TableExact(rs: seq<RawResource>, hop: Addr)
    ensures TakeResources(EMPTY, rs, hop).Ok? <==> (forall r <- rs :: WellFormed(r)) && OneOwner(Claims(rs))
    ensures TakeResources(EMPTY, rs, hop).Ok? ==> Holds(TakeResources(EMPTY, rs, hop).value, Claims(rs), hop)
  {
    TakeResourcesExact(EMPTY, rs, hop, {});
    assert {} + Claims(rs) == Claims(rs);
  }

  lemma ClaimedPrefix(rs: seq<RawResource>, c: (Prefix, string))
    requires c in Claims(rs)
    ensures IsPrefix(c.0) && c.0.len > 0 && !Unspecified(c.0) && !Multicast(c.0)
  {
    hide Unspecified, Multicast;
    var r :| r in rs && c in ResourceClaims(r);
    var raw :| raw in r.routes.value && c in RouteClaim(raw, r.id.value);
    CutIsPrefix(raw.address, raw.len);
  }

  lemma PlannedPrefixes(rs: seq<RawResource>, hop: Addr)
    requires TakeResources(EMPTY, rs, hop).Ok?
    ensures forall p <- Prefixes(TakeResources(EMPTY, rs, hop).value.routes) :: IsPrefix(p)
  {
    TableExact(rs, hop);
    var t := TakeResources(EMPTY, rs, hop).value;
    forall p <- Prefixes(t.routes) ensures IsPrefix(p) {
      var i :| 0 <= i < |t.routes| && Prefixes(t.routes)[i] == p;
      assert t.routes[i] in t.routes;
      ClaimedPrefix(rs, (p, t.routes[i].resourceId));
    }
  }

  function ClaimedPrefixes(rs: seq<RawResource>): set<Prefix> { set c | c in Claims(rs) :: c.0 }

  lemma PrefixesOfTable(t: Table, rs: seq<RawResource>, hop: Addr)
    requires Holds(t, Claims(rs), hop)
    ensures Elements(Prefixes(t.routes)) == ClaimedPrefixes(rs)
  {
    forall p ensures p in Prefixes(t.routes) <==> p in ClaimedPrefixes(rs) {
      if p in Prefixes(t.routes) {
        var i :| 0 <= i < |t.routes| && Prefixes(t.routes)[i] == p;
        assert t.routes[i] in t.routes;
        assert (p, t.routes[i].resourceId) in Claims(rs);
      }
      if p in ClaimedPrefixes(rs) {
        var c :| c in Claims(rs) && c.0 == p;
        var i :| 0 <= i < |t.routes| && t.routes[i] == Route(p, c.1, hop);
        assert Prefixes(t.routes)[i] == p;
      }
    }
  }

  /** When a plan can be built, and what is in it: decided by the set of claims. */
  lemma PlannedExact(m: RawManifest)
    requires HeadError(m) == None && PlanDns(m).Ok?
    ensures var rs := m.resources.value;
      Planned(m).Ok? <==> (forall r <- rs :: WellFormed(r)) && OneOwner(Claims(rs)) && !CoversAll(ClaimedPrefixes(rs))
    ensures Planned(m).Ok? ==>
      var (plan, claims) := (Planned(m).value, Claims(m.resources.value));
      && DistinctPrefixes(plan.routes)
      && (forall r :: r in plan.routes <==> (r.prefix, r.resourceId) in claims && r.nextHop == plan.virtualIp)
      && plan.virtualIp == m.session.virtualIp.n && plan.fakeDns == PlanDns(m).value
  {
    hide WellFormed, Claims, TakeResources, CoversAll;
    var (rs, hop) := (m.resources.value, m.session.virtualIp.n);
    TableExact(rs, hop);
    if TakeResources(EMPTY, rs, hop).Ok? {
      var t := TakeResources(EMPTY, rs, hop).value;
      PrefixesOfTable(t, rs, hop);
    }
  }

  /** No plan is a full tunnel: some address has no route. */
  lemma PlanLeavesAddressOut(m: RawManifest) returns (a: Addr)
    requires Planned(m).Ok?
    ensures LongestMatch(Planned(m).value.routes, V4(a)) == None
  {
    var routes := Planned(m).value.routes;
    a :| !Covered(Elements(Prefixes(routes)), a);
    forall q <- routes ensures !Contains(q.prefix, a) {
      var i :| 0 <= i < |routes| && routes[i] == q;
      assert Prefixes(routes)[i] == q.prefix;
    }
    LongestMatchBest(routes, a);
  }

  /** Two resource lists with the same entries, up to the order of the entries,
      the order of the routes inside an entry, and repetitions. */
  predicate SameEntry(r: RawResource, s: RawResource) {
    r == s || (r.Entry? && s.Entry? && r.id == s.id && r.routes.Some? && s.routes.Some?
               && Elements(r.routes.value) == Elements(s.routes.value))
  }

  predicate Matched(r: RawResource, ss: seq<RawResource>) { exists s <- ss :: SameEntry(r, s) }

  predicate SameContents(rs: seq<RawResource>, ss: seq<RawResource>) {
    (forall r <- rs :: Matched(r, ss)) && (forall s <- ss :: Matched(s, rs))
  }

  lemma SameEntrySameClaims(r: RawResource, s: RawResource)
    requires SameEntry(r, s)
    ensures WellFormed(r) == WellFormed(s) && ResourceClaims(r) == ResourceClaims(s)
  {
    hide ParseRoute;
    if r != s {
      assert forall raw :: raw in r.routes.value <==> raw in Elements(r.routes.value);
      assert forall raw :: raw in s.routes.value <==> raw in Elements(s.routes.value);
      if WellFormed(r) {
        assert RouteClaims(r.routes.value, r.id.value) == RouteClaims(s.routes.value, s.id.value);
      }
    }
  }

  lemma ContentsIncluded(rs: seq<RawResource>, ss: seq<RawResource>)
    requires forall r <- rs :: Matched(r, ss)
    ensures (forall s <- ss :: WellFormed(s)) ==> (forall r <- rs :: WellFormed(r))
    ensures Claims(rs) <= Claims(ss)
  {
    hide WellFormed, ResourceClaims, SameEntry;
    forall r <- rs ensures (exists s <- ss :: WellFormed(s) == WellFormed(r)) && ResourceClaims(r) <= Claims(ss) {
      var s :| s in ss && SameEntry(r, s);
      SameEntrySameClaims(r, s);
      assert forall c <- ResourceClaims(s) :: c in Claims(ss);
    }
  }

  lemma SameContentsSameClaims(rs: seq<RawResource>, ss: seq<RawResource>)
    requires SameContents(rs, ss)
    ensures (forall r <- rs :: WellFormed(r)) <==> (forall s <- ss :: WellFormed(s))
    ensures Claims(rs) == Claims(ss)
  {
    hide WellFormed, Claims, Matched;
    ContentsIncluded(rs, ss);
    ContentsIncluded(ss, rs);
  }

  /** Rearranging resources and routes changes neither whether the plan can be
      built nor the result of any lookup in it. */
  lemma RearrangementInvariance(m: RawManifest, n: RawManifest, target: RawAddress)
    requires m.resources.Some? && n.resources.Some? && n == m.(resources := n.resources)
    requires SameContents(m.resources.value, n.resources.value)
    requires target.V4? || target.V6?
    ensures Planned(m).Ok? <==> Planned(n).Ok?
    ensures Planned(m).Ok? ==>
      LongestMatch(Planned(m).value.routes, target) == LongestMatch(Planned(n).value.routes, target)
  {
    assert PlanDns(m) == PlanDns(n);
    hide WellFormed, Claims, Planned, SameContents, PlanDns, DistinctPrefixes, LongestMatch;
    var (rs, ss) := (m.resources.value, n.resources.value);
    SameContentsSameClaims(rs, ss);
    assert rs == [] <==> ss == [] by { EmptySameContents(rs, ss); }
    assert HeadError(m) == HeadError(n);
    if HeadError(m) == None && PlanDns(m).Ok? {
      PlannedExact(m);
      PlannedExact(n);
      if Planned(m).Ok? {
        var (p, q) := (Planned(m).value.routes, Planned(n).value.routes);
        assert forall r :: r in p <==> r in q;
        if target.V4? {
          LookupExact(p, target.n);
          LookupExact(q, target.n);
          SameRoutesSameLookup(p, q, target.n);
        } else {
          NoV6Route(p, target);
          NoV6Route(q, target);
        }
      }
    } else {
      PlannedFails(m);
      PlannedFails(n);
    }
  }

  lemma EmptySameContents(rs: seq<RawResource>, ss: seq<RawResource>)
    requires SameContents(rs, ss)
    ensures rs == [] <==> ss == []
  {
    hide SameEntry;
    assert forall r <- rs :: Matched(r, ss) ==> ss != [];
    if rs != [] {
      assert rs[0] in rs;
    }
    if ss != [] {
      assert ss[0] in ss;
    }
  }

  lemma PlannedFails(m: RawManifest)
    requires HeadError(m).Some? || PlanDns(m).Err?
    ensures Planned(m).Err?
  {
  }

  lemma {:induction false} NoV6Route(routes: seq<Route>, target: RawAddress)
    requires target.V6?
    ensures LongestMatch(routes, target) == None
  {
    if routes != [] {
      NoV6Route(routes[..|routes| - 1], target);
    }
  }

  lemma SameRoutesSameLookup(p: seq<Route>, q: seq<Route>, a: Addr)
    requires DistinctPrefixes(p) && DistinctPrefixes(q) && forall r :: r in p <==> r in q
    ensures LongestMatch(p, V4(a)) == LongestMatch(q, V4(a))
  {
    LookupExact(p, a);
    LookupExact(q, a);
    var found := LongestMatch(p, V4(a));
    if found.Some? {
      assert MostSpecific(p, a, found.value);
      assert MostSpecific(q, a, found.value);
    }
  }
}
