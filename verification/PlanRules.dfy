/** What a plan requires of a manifest and what is in it, stated on addresses, owners
    and letters instead of through the builder's own tables and tests. */
module PlanRules {
  import opened Wrappers
  import opened Collections
  import opened Ipv4
  import opened RoutePlans

  /** The same letter, in either ASCII case. */
  predicate SameLetter(c: char, d: char) {
    c == d || ('A' <= c <= 'Z' && d as int == c as int + 32) || ('A' <= d <= 'Z' && c as int == d as int + 32)
  }

  predicate Dots(s: string) { forall c <- s :: c == '.' }

  /** The first `n` letters are the same, and only dots follow them. */
  predicate SameUpTo(s: string, t: string, n: int) {
    && 0 <= n <= |s| && n <= |t| && Dots(s[n..]) && Dots(t[n..])
    && forall i | 0 <= i < n :: SameLetter(s[i], t[i])
  }

  function Lowered(s: string): (l: string)
    ensures |l| == |s|
  {
    seq(|s|, i requires 0 <= i < |s| => LowerChar(s[i]))
  }

  lemma {:induction false} RstripPart(s: string)
    ensures var n := |RstripDots(s)|;
      n <= |s| && RstripDots(s) == s[..n] && Dots(s[n..]) && (n > 0 ==> s[n - 1] != '.')
  {
    if s != [] && s[|s| - 1] == '.' {
      RstripPart(s[..|s| - 1]);
      var n := |RstripDots(s)|;
      assert s[n..] == s[..|s| - 1][n..] + ['.'];
    }
  }

  lemma {:induction false} RstripDrops(s: string, dots: string)
    requires Dots(dots)
    ensures RstripDots(s + dots) == RstripDots(s)
  {
    if dots == [] {
      assert s + dots == s;
    } else {
      var rest := dots[..|dots| - 1];
      assert (s + dots)[..|s + dots| - 1] == s + rest;
      assert dots[|dots| - 1] in dots;
      forall c <- rest ensures c == '.' {
        assert c in dots;
      }
      RstripDrops(s, rest);
    }
  }

  /** A canonical name has no upper-case letter and no trailing dot, and is the name
      itself up to case and trailing dots. */
  lemma CanonicalShape(s: string)
    ensures var name := CanonicalDomain(s);
      && (forall c <- name :: !('A' <= c <= 'Z')) && (name != [] ==> name[|name| - 1] != '.')
      && SameUpTo(s, name, |name|)
  {
    RstripPart(Lowered(s));
    var (l, name) := (Lowered(s), CanonicalDomain(s));
    assert name == l[..|name|];
    forall i | |name| <= i < |s| ensures s[i] == '.' {
      assert l[i] == l[|name|..][i - |name|];
      assert l[i] in l[|name|..];
    }
    forall i | 0 <= i < |name| ensures SameLetter(s[i], name[i]) && !('A' <= name[i] <= 'Z') {
      assert name[i] == l[i] == LowerChar(s[i]);
    }
  }

  /** Two names are one domain exactly when they are equal up to ASCII case and
      trailing dots. */
  lemma CanonicalExact(s: string, t: string)
    ensures CanonicalDomain(s) == CanonicalDomain(t) <==> exists n :: SameUpTo(s, t, n)
  {
    hide CanonicalDomain;
    if CanonicalDomain(s) == CanonicalDomain(t) {
      CanonicalShape(s);
      CanonicalShape(t);
      assert SameUpTo(s, t, |CanonicalDomain(s)|);
    }
    forall n | SameUpTo(s, t, n) ensures CanonicalDomain(s) == CanonicalDomain(t) {
      CanonicalUpTo(s, n);
      CanonicalUpTo(t, n);
      assert Lowered(s[..n]) == Lowered(t[..n]);
    }
  }

  lemma CanonicalUpTo(s: string, n: int)
    requires 0 <= n <= |s| && Dots(s[n..])
    ensures CanonicalDomain(s) == RstripDots(Lowered(s[..n]))
  {
    var l := Lowered(s);
    forall c <- l[n..] ensures c == '.' {
      var i :| 0 <= i < |l| - n && l[n..][i] == c;
      assert s[n..][i] in s[n..];
    }
    assert l == Lowered(s[..n]) + l[n..];
    RstripDrops(Lowered(s[..n]), l[n..]);
  }

  /** Some entry lists the prefix for the resource, in whatever spelling. */
  ghost predicate Owns(rs: seq<RawResource>, id: string, p: Prefix) {
    exists r <- rs, raw | r.Entry? && r.id == Some(id) && r.routes.Some? && raw in r.routes.value ::
      raw.V4Route? && raw.len <= 32 && Cut(raw.address, raw.len) == p
  }

  ghost predicate Unrouted(rs: seq<RawResource>, a: Addr) { forall p, x | Owns(rs, x, p) :: !Contains(p, a) }

  /** An address of a route: `address` and `len` as they stand in the manifest. */
  predicate InRoute(raw: RawRoute, a: Addr) { raw.V4Route? && raw.len <= 32 && Contains(Cut(raw.address, raw.len), a) }

  /** A route of the lab: IPv4, not 0.0.0.0/0, and not all multicast. */
  ghost predicate LabRouteFits(raw: RawRoute) {
    raw.V4Route? && 1 <= raw.len <= 32 && exists a: Addr :: InRoute(raw, a) && !(0xE000_0000 <= a <= 0xEFFF_FFFF)
  }

  /** A route a plan takes: not 0.0.0.0/32 either. */
  ghost predicate RouteFits(raw: RawRoute) { LabRouteFits(raw) && !(raw.len == 32 && raw.address == 0) }

  ghost predicate EntryFits(r: RawResource) {
    r.Entry? && r.id.Some? && 1 <= |r.id.value| <= 128 && r.routes.Some? && forall raw <- r.routes.value :: RouteFits(raw)
  }

  predicate DomainFits(name: string) {
    1 <= |name| <= 253 && ' ' !in name && '/' !in name && '\\' !in name && '\r' !in name && '\n' !in name
  }

  predicate NameFits(domain: string) { DomainFits(CanonicalDomain(domain)) }

  lemma RouteFitsExact(raw: RawRoute)
    ensures ParseRoute(raw).Ok? <==> RouteFits(raw)
    ensures ParseRoute(raw).Ok? ==> ParseRoute(raw).value == Cut(raw.address, raw.len)
  {
    hide Multicast, Unspecified, Contains, Cut;
    if raw.V4Route? && 1 <= raw.len <= 32 {
      var p := Cut(raw.address, raw.len);
      CutIsPrefix(raw.address, raw.len);
      MulticastExact(p);
      UnspecifiedExact(p);
      HostCut(raw.address, raw.len);
      assert forall a: Addr :: InRoute(raw, a) <==> Contains(p, a);
    }
  }

  lemma HostCut(a: Addr, len: nat)
    requires len <= 32
    ensures Cut(a, len) == Prefix(0, 32) <==> len == 32 && a == 0
  {
    assert Pow2(0) == 1;
  }

  lemma ClaimsExact(rs: seq<RawResource>, id: string, p: Prefix)
    requires forall r <- rs :: WellFormed(r)
    ensures (p, id) in Claims(rs) <==> Owns(rs, id, p)
  {
    hide Multicast, Unspecified, Cut;
    if (p, id) in Claims(rs) {
      var r :| r in rs && (p, id) in ResourceClaims(r);
      var raw :| raw in r.routes.value && (p, id) in RouteClaim(raw, r.id.value);
      assert Owns(rs, id, p);
    }
    if Owns(rs, id, p) {
      var r, raw :| r in rs && r.Entry? && r.id == Some(id) && r.routes.Some? && raw in r.routes.value
        && raw.V4Route? && raw.len <= 32 && Cut(raw.address, raw.len) == p;
      assert ParseRoute(raw).Ok?;
      assert (p, id) in RouteClaim(raw, id);
      assert (p, id) in RouteClaims(r.routes.value, id);
      assert (p, id) in ResourceClaims(r);
    }
  }

  /** Exactly which manifests give a plan: version 1, split tunnel and memory only; a
      session address in 100.64.0.0/24; resources whose ids and routes fit, no prefix
      of which has two owners, and which leave some address out; and a DNS map into
      198.18.0.0/24 whose names fit and stay distinct. */
  lemma PlannedWhen(m: RawManifest)
    ensures Planned(m).Ok? <==>
      && m.version == Some(1) && m.splitTunnel && m.clientMemoryOnly
      && m.session.SessionEntry? && m.session.virtualIp.V4? && 0x6440_0000 <= m.session.virtualIp.n <= 0x6440_00FF
      && m.resources.Some? && m.resources.value != [] && (forall r <- m.resources.value :: EntryFits(r))
      && (forall p, x, y | Owns(m.resources.value, x, p) && Owns(m.resources.value, y, p) :: x == y)
      && (exists a: Addr :: Unrouted(m.resources.value, a))
      && m.dns.Some? && (forall d <- m.dns.value :: d.1.V4? && 0xC612_0000 <= d.1.n <= 0xC612_00FF && NameFits(d.0))
      && forall i, j | 0 <= i < j < |m.dns.value| :: CanonicalDomain(m.dns.value[i].0) != CanonicalDomain(m.dns.value[j].0)
  {
    HeadExact(m);
    DnsExact(m);
    hide HeadError, PlanDns, Unrouted, Owns, EntryFits, NameFits, CanonicalDomain;
    if HeadError(m) == None && PlanDns(m).Ok? {
      ResourcesExact(m);
    } else {
      assert Planned(m).Err?;
    }
  }

  lemma PoolRange(p: Prefix, first: nat, a: Addr)
    requires p.len == 24 && p.bits * 0x100 == first
    ensures Contains(p, a) <==> first <= a <= first + 0xFF
  {
    assert Pow2(8) == 0x100;
    ContainsRange(p, a);
  }

  lemma HeadExact(m: RawManifest)
    ensures HeadError(m) == None <==>
      && m.version == Some(1) && m.splitTunnel && m.clientMemoryOnly
      && m.session.SessionEntry? && m.session.virtualIp.V4? && 0x6440_0000 <= m.session.virtualIp.n <= 0x6440_00FF
      && m.resources.Some? && m.resources.value != []
  {
    if m.session.SessionEntry? && m.session.virtualIp.V4? {
      PoolRange(LAB_POOL, 0x6440_0000, m.session.virtualIp.n);
    }
    hide Contains;
  }

  lemma {:induction false} DnsValuesExact(dns: seq<(string, RawAddress)>)
    ensures CheckDnsValues(dns) == None <==> forall d <- dns :: d.1.V4? && 0xC612_0000 <= d.1.n <= 0xC612_00FF
  {
    hide Contains;
    if dns != [] {
      if dns[0].1.V4? {
        PoolRange(DNS_POOL, 0xC612_0000, dns[0].1.n);
      }
      DnsValuesExact(dns[1..]);
      assert dns == [dns[0]] + dns[1..];
    }
  }

  lemma DnsExact(m: RawManifest)
    ensures PlanDns(m).Ok? <==>
      && m.dns.Some? && (forall d <- m.dns.value :: d.1.V4? && 0xC612_0000 <= d.1.n <= 0xC612_00FF && NameFits(d.0))
      && forall i, j | 0 <= i < j < |m.dns.value| :: CanonicalDomain(m.dns.value[i].0) != CanonicalDomain(m.dns.value[j].0)
  {
    if m.dns.Some? {
      var dns := m.dns.value;
      DnsValuesExact(dns);
      forall d <- dns ensures NameFits(d.0) <==> DomainAllowed(CanonicalDomain(d.0)) {
      }
      hide CanonicalDomain, DomainAllowed, CheckDnsValues, NameFits;
      if CheckDnsValues(dns) == None {
        NormalizeExact(map[], dns);
      }
    }
  }

  lemma ResourcesExact(m: RawManifest)
    requires HeadError(m) == None && PlanDns(m).Ok?
    ensures Planned(m).Ok? <==>
      && (forall r <- m.resources.value :: EntryFits(r))
      && (forall p, x, y | Owns(m.resources.value, x, p) && Owns(m.resources.value, y, p) :: x == y)
      && (exists a: Addr :: Unrouted(m.resources.value, a))
  {
    var rs := m.resources.value;
    PlannedExact(m);
    hide Planned, HeadError, PlanDns, Contains, Claims, Owns;
    forall r <- rs ensures WellFormed(r) <==> EntryFits(r) {
      EntryFitsExact(r);
    }
    hide WellFormed, EntryFits;
    if forall r <- rs :: WellFormed(r) {
      forall p, x ensures (p, x) in Claims(rs) <==> Owns(rs, x, p) {
        ClaimsExact(rs, x, p);
      }
      UnroutedExact(rs);
    }
  }

  lemma EntryFitsExact(r: RawResource)
    ensures WellFormed(r) <==> EntryFits(r)
  {
    hide ParseRoute, RouteFits;
    forall raw ensures ParseRoute(raw).Ok? <==> RouteFits(raw) {
      RouteFitsExact(raw);
    }
  }

  lemma UnroutedExact(rs: seq<RawResource>)
    requires forall p, x :: (p, x) in Claims(rs) <==> Owns(rs, x, p)
    ensures !CoversAll(ClaimedPrefixes(rs)) <==> exists a: Addr :: Unrouted(rs, a)
  {
    hide Claims, Owns, Contains;
    forall a: Addr ensures Unrouted(rs, a) <==> !Covered(ClaimedPrefixes(rs), a) {
      if Covered(ClaimedPrefixes(rs), a) {
        var p :| p in ClaimedPrefixes(rs) && Contains(p, a);
        var c :| c in Claims(rs) && c.0 == p;
        assert Owns(rs, c.1, p);
      }
      forall p, x | Owns(rs, x, p) && Contains(p, a) ensures Covered(ClaimedPrefixes(rs), a) {
        assert (p, x) in Claims(rs) && p in ClaimedPrefixes(rs);
      }
    }
  }

  /** What is in a plan: the session's address; a route for each prefix, to its owner,
      and no other; and under each canonical name the address of its domain. */
  lemma PlannedWhat(m: RawManifest, r: Route, d: (string, RawAddress))
    requires Planned(m).Ok?
    ensures var plan := Planned(m).value;
      && plan.virtualIp == m.session.virtualIp.n
      && (r in plan.routes <==> r.nextHop == plan.virtualIp && Owns(m.resources.value, r.resourceId, r.prefix))
      && (d in m.dns.value ==> d.1.V4? && CanonicalDomain(d.0) in plan.fakeDns && plan.fakeDns[CanonicalDomain(d.0)] == d.1.n)
      && forall name <- plan.fakeDns :: exists e <- m.dns.value :: CanonicalDomain(e.0) == name
  {
    assert HeadError(m) == None && PlanDns(m).Ok?;
    PlannedExact(m);
    hide Planned, HeadError, Contains, Claims, Owns, WellFormed;
    ClaimsExact(m.resources.value, r.resourceId, r.prefix);
    CheckedDns(m.dns.value);
    hide CanonicalDomain;
    NormalizeExact(map[], m.dns.value);
  }
}
