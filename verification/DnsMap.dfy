/** `FakeDNSMap`: one address of the pool for each canonical domain, in the order
    of registration. */
module DnsMaps {
  import opened Wrappers
  import opened Collections
  import opened Ipv4
  import opened Pools
  import opened RoutePlans

  datatype DnsError = InvalidDomain | Exhausted

  /** The addresses the iterator has yet to yield, and the dictionary with its order. */
  datatype DnsState = DnsState(rest: seq<Addr>, mapping: map<string, Addr>, order: seq<string>)

  function Register(s: DnsState, domain: string): (DnsState, Result<Addr, DnsError>) {
    var name := CanonicalDomain(domain);
    if !DomainAllowed(name) then (s, Err(InvalidDomain))
    else if name in s.mapping then (s, Ok(s.mapping[name]))
    else if s.rest == [] then (s, Err(Exhausted))
    else (DnsState(s.rest[1..], s.mapping[name := s.rest[0]], s.order + [name]), Ok(s.rest[0]))
  }

  class FakeDNSMap {
    var addresses: seq<Addr>
    var mapping: map<string, Addr>
    var order: seq<string>

    function State(): DnsState
      reads this
    {
      DnsState(addresses, mapping, order)
    }

    constructor (network: Prefix)
      requires IsPrefix(network) && 24 <= network.len <= 30
      ensures State() == DnsState(Hosts(network), map[], [])
    {
      addresses, mapping, order := Hosts(network), map[], [];
    }

    method RegisterDomain(domain: string) returns (r: Result<Addr, DnsError>)
      modifies this
      ensures (State(), r) == Register(old(State()), domain)
    {
      var name := CanonicalDomain(domain);
      if !DomainAllowed(name) { return Err(InvalidDomain); }
      if name in mapping { return Ok(mapping[name]); }
      if addresses == [] { return Err(Exhausted); }
      var address := addresses[0];
      addresses := addresses[1..];
      mapping := mapping[name := address];
      order := order + [name];
      return Ok(address);
    }
  }

  predicate Registered(s: DnsState, i: nat)
    requires i < |s.order|
  {
    s.order[i] in s.mapping && DomainAllowed(s.order[i]) && CanonicalDomain(s.order[i]) == s.order[i]
  }

  /** The addresses given out so far, in order. */
  function Assigned(s: DnsState): seq<Addr>
    requires forall i | 0 <= i < |s.order| :: Registered(s, i)
  {
    seq(|s.order|, i requires 0 <= i < |s.order| => assert Registered(s, i); s.mapping[s.order[i]])
  }

  /** The names are canonical and distinct, and the hosts are given out in order. */
  ghost predicate DnsValid(s: DnsState, hosts: seq<Addr>) {
    && Distinct(s.order) && Elements(s.order) == s.mapping.Keys
    && (forall i | 0 <= i < |s.order| :: Registered(s, i))
    && hosts == Assigned(s) + s.rest
  }

  lemma {:induction false} RstripIdempotent(s: string)
    ensures RstripDots(RstripDots(s)) == RstripDots(s)
    ensures forall c <- RstripDots(s) :: c in s
  {
    if s != [] && s[|s| - 1] == '.' {
      RstripIdempotent(s[..|s| - 1]);
    }
  }

  lemma CanonicalIdempotent(s: string)
    ensures CanonicalDomain(CanonicalDomain(s)) == CanonicalDomain(s)
  {
    var lower := seq(|s|, i requires 0 <= i < |s| => LowerChar(s[i]));
    var name := RstripDots(lower);
    RstripIdempotent(lower);
    forall i | 0 <= i < |name| ensures LowerChar(name[i]) == name[i] {
      assert name[i] in name;
      var j :| 0 <= j < |lower| && lower[j] == name[i];
    }
    assert seq(|name|, i requires 0 <= i < |name| => LowerChar(name[i])) == name;
  }

  lemma RegisterKeepsValid(s: DnsState, domain: string, hosts: seq<Addr>)
    requires DnsValid(s, hosts)
    ensures DnsValid(Register(s, domain).0, hosts)
    ensures var (t, r) := Register(s, domain);
      && (forall n <- s.mapping :: n in t.mapping && t.mapping[n] == s.mapping[n])
      && (r.Err? ==> t == s)
      && (r.Ok? ==> t.mapping.Keys == s.mapping.Keys + {CanonicalDomain(domain)} && t.mapping[CanonicalDomain(domain)] == r.value)
  {
    var (name, t) := (CanonicalDomain(domain), Register(s, domain).0);
    CanonicalIdempotent(domain);
    hide CanonicalDomain, DomainAllowed;
    if t != s {
      assert name !in Elements(s.order);
      assert t.order[|s.order|] == name;
      forall i | 0 <= i < |t.order| ensures Registered(t, i) {
        assert i < |s.order| ==> Registered(s, i) && t.order[i] == s.order[i];
      }
      assert Elements(t.order) == Elements(s.order) + {name};
      forall i | 0 <= i < |s.order| ensures Assigned(t)[i] == Assigned(s)[i] {
        assert Registered(s, i) && t.order[i] == s.order[i] && s.order[i] in Elements(s.order);
      }
      assert Assigned(t) == Assigned(s) + [s.rest[0]];
      assert s.rest == [s.rest[0]] + t.rest;
    }
  }

  /** Distinct hosts make the map injective, and all its values are hosts. */
  lemma ValidIsInjective(s: DnsState, hosts: seq<Addr>, x: string, y: string)
    requires DnsValid(s, hosts) && Distinct(hosts) && x in s.mapping && y in s.mapping
    ensures s.mapping[x] in hosts
    ensures s.mapping[x] == s.mapping[y] ==> x == y
  {
    assert x in Elements(s.order) && y in Elements(s.order);
    var i :| 0 <= i < |s.order| && s.order[i] == x;
    var j :| 0 <= j < |s.order| && s.order[j] == y;
    assert hosts[i] == Assigned(s)[i] && hosts[j] == Assigned(s)[j];
  }

  /** The registration loops of the stack and of the control plane: the first
      error ends them. */
  function RegisterAll(s: DnsState, domains: seq<string>): Result<DnsState, DnsError>
    decreases |domains|
  {
    if domains == [] then Ok(s)
    else
      var r := Register(s, domains[0]);
      if r.1.Err? then Err(r.1.error) else RegisterAll(r.0, domains[1..])
  }

  /** The names that a list of domains adds to the map. */
  function NewNames(s: DnsState, domains: seq<string>): set<string> {
    set d | d in domains && CanonicalDomain(d) !in s.mapping :: CanonicalDomain(d)
  }

  lemma NewNamesStep(s: DnsState, domains: seq<string>)
    requires domains != [] && Register(s, domains[0]).1.Ok?
    ensures var (name, next) := (CanonicalDomain(domains[0]), Register(s, domains[0]).0);
      && NewNames(s, domains) == NewNames(next, domains[1..]) + (if name in s.mapping then {} else {name})
      && (name !in s.mapping ==> name !in NewNames(next, domains[1..]))
  {
    hide CanonicalDomain, DomainAllowed;
    assert domains == [domains[0]] + domains[1..];
  }

  /** When every registration succeeds: all canonical names are allowed and there
      are enough addresses for the new ones. */
  lemma {:induction false} RegisterAllExact(s: DnsState, domains: seq<string>)
    ensures RegisterAll(s, domains).Ok? <==>
      (forall d <- domains :: DomainAllowed(CanonicalDomain(d))) && |NewNames(s, domains)| <= |s.rest|
    decreases |domains|
  {
    hide CanonicalDomain, DomainAllowed;
    if domains != [] {
      assert domains == [domains[0]] + domains[1..];
      var (name, r) := (CanonicalDomain(domains[0]), Register(s, domains[0]));
      if r.1.Ok? {
        NewNamesStep(s, domains);
        RegisterAllExact(r.0, domains[1..]);
      } else if DomainAllowed(name) {
        assert name in NewNames(s, domains);
      }
    }
  }

  predicate Settled(s: DnsState, domain: string) {
    DomainAllowed(CanonicalDomain(domain)) && CanonicalDomain(domain) in s.mapping
  }

  lemma {:induction false} RegisterAllSettles(s: DnsState, domains: seq<string>, domain: string)
    requires RegisterAll(s, domains).Ok? && (domain in domains || Settled(s, domain))
    ensures Settled(RegisterAll(s, domains).value, domain)
    decreases |domains|
  {
    hide CanonicalDomain, DomainAllowed;
    if domains != [] {
      assert domains == [domains[0]] + domains[1..];
      RegisterAllSettles(Register(s, domains[0]).0, domains[1..], domain);
    }
  }

  lemma {:induction false} SettledUnchanged(s: DnsState, domains: seq<string>)
    requires forall d <- domains :: Settled(s, d)
    ensures RegisterAll(s, domains) == Ok(s)
    decreases |domains|
  {
    hide CanonicalDomain, DomainAllowed;
    if domains != [] {
      assert Settled(s, domains[0]);
      SettledUnchanged(s, domains[1..]);
    }
  }

  /** Registering the same domains again succeeds and leaves the map as it is. */
  lemma RegisterAllTwice(s: DnsState, domains: seq<string>)
    requires RegisterAll(s, domains).Ok?
    ensures RegisterAll(RegisterAll(s, domains).value, domains) == RegisterAll(s, domains)
  {
    forall d <- domains ensures Settled(RegisterAll(s, domains).value, d) {
      RegisterAllSettles(s, domains, d);
    }
    SettledUnchanged(RegisterAll(s, domains).value, domains);
  }

  lemma {:induction false} RegisterAllKeepsValid(s: DnsState, domains: seq<string>, hosts: seq<Addr>)
    requires DnsValid(s, hosts) && RegisterAll(s, domains).Ok?
    ensures DnsValid(RegisterAll(s, domains).value, hosts)
    decreases |domains|
  {
    hide DnsValid, Register;
    if domains != [] {
      RegisterKeepsValid(s, domains[0], hosts);
      RegisterAllKeepsValid(Register(s, domains[0]).0, domains[1..], hosts);
    }
  }
}
