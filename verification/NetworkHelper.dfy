/** Sorted listings of finite sets: `sorted(a_set)`. */
module Listings {
  import opened Collections
  import opened Ipv4

  /** A strict total order, on the elements of `s`. */
  ghost predicate StrictTotal<T(!new)>(below: (T, T) -> bool, s: set<T>) {
    && (forall x <- s :: !below(x, x))
    && (forall x <- s, y <- s :: x != y ==> below(x, y) || below(y, x))
    && (forall x <- s, y <- s, z <- s :: below(x, y) && below(y, z) ==> below(x, z))
  }

  predicate Least<T(==)>(m: T, below: (T, T) -> bool, s: set<T>) {
    m in s && forall x <- s :: x == m || below(m, x)
  }

  lemma {:induction false} LeastExists<T(!new)>(below: (T, T) -> bool, s: set<T>) returns (m: T)
    requires StrictTotal(below, s) && s != {}
    ensures Least(m, below, s)
  {
    var x :| x in s;
    if s == {x} {
      m := x;
    } else {
      var rest := s - {x};
      var n := LeastExists(below, rest);
      m := if below(x, n) then x else n;
    }
  }

  ghost function Sorted<T(!new)>(s: set<T>, below: (T, T) -> bool): (xs: seq<T>)
    requires StrictTotal(below, s)
    ensures Elements(xs) == s && |xs| == |s|
  {
    if s == {} then []
    else
      HasLeast(below, s);
      var m :| Least(m, below, s);
      assert s == {m} + (s - {m});
      [m] + Sorted(s - {m}, below)
  }

  predicate Ascending<T>(xs: seq<T>, below: (T, T) -> bool) {
    forall i, j | 0 <= i < j < |xs| :: below(xs[i], xs[j])
  }

  lemma {:induction false} SortedAscending<T(!new)>(s: set<T>, below: (T, T) -> bool)
    requires StrictTotal(below, s)
    ensures Ascending(Sorted(s, below), below)
  {
    if s != {} {
      var m := SortedFirst(s, below);
      var rest := Sorted(s - {m}, below);
      SortedAscending(s - {m}, below);
      forall x <- rest ensures below(m, x) {
        assert x in Elements(rest);
      }
      hide Sorted;
      assert Ascending([m] + rest, below);
    }
  }

  lemma SortedFirst<T(!new)>(s: set<T>, below: (T, T) -> bool) returns (m: T)
    requires StrictTotal(below, s) && s != {}
    ensures Least(m, below, s) && StrictTotal(below, s - {m}) && Sorted(s, below) == [m] + Sorted(s - {m}, below)
  {
    HasLeast(below, s);
    m :| Least(m, below, s) && Sorted(s, below) == [m] + Sorted(s - {m}, below);
  }

  lemma HasLeast<T(!new)>(below: (T, T) -> bool, s: set<T>)
    requires StrictTotal(below, s) && s != {}
    ensures exists m :: Least(m, below, s)
  {
    var m := LeastExists(below, s);
  }

  /** An ascending listing of a set is the sorted listing: there is only one. */
  lemma {:induction false} AscendingUnique<T(!new)>(xs: seq<T>, s: set<T>, below: (T, T) -> bool)
    requires StrictTotal(below, s) && Elements(xs) == s && Ascending(xs, below)
    ensures xs == Sorted(s, below)
    decreases |xs|
  {
    if xs == [] {
      assert s == {};
    } else {
      assert xs[0] in s;
      var rest := xs[1..];
      assert xs == [xs[0]] + rest;
      forall x <- rest ensures below(xs[0], x) {
        var i :| 0 <= i < |rest| && rest[i] == x;
        assert xs[i + 1] == x;
      }
      assert forall x <- rest :: x in Elements(xs);
      assert Elements(rest) == s - {xs[0]};
      AscendingUnique(rest, s - {xs[0]}, below);
      assert forall m | Least(m, below, s) :: m == xs[0];
      assert Least(xs[0], below, s);
    }
  }

  /** `xs` lists, in order, the elements of `s` that are not in `rest`, and all
      that is in `rest` comes after them. */
  ghost predicate PartlySorted<T(!new)>(xs: seq<T>, rest: set<T>, s: set<T>, below: (T, T) -> bool) {
    && rest <= s && Elements(xs) + rest == s
    && (forall x <- xs, y <- rest :: below(x, y))
    && Ascending(xs, below)
  }

  lemma TakeLeast<T(!new)>(xs: seq<T>, rest: set<T>, s: set<T>, below: (T, T) -> bool, m: T)
    requires PartlySorted(xs, rest, s, below) && Least(m, below, rest)
    ensures PartlySorted(xs + [m], rest - {m}, s, below)
  {
    assert Elements(xs + [m]) == Elements(xs) + {m};
    assert rest == rest - {m} + {m};
  }

  method Sort<T(==, !new)>(s: set<T>, below: (T, T) -> bool) returns (xs: seq<T>)
    requires StrictTotal(below, s)
    ensures xs == Sorted(s, below)
  {
    xs := [];
    var rest := s;
    assert PartlySorted(xs, rest, s, below);
    while rest != {}
      invariant PartlySorted(xs, rest, s, below)
      decreases |rest|
    {
      assert StrictTotal(below, rest);
      HasLeast(below, rest);
      var m :| m in rest && Least(m, below, rest);
      TakeLeast(xs, rest, s, below, m);
      xs := xs + [m];
      rest := rest - {m};
    }
    assert Elements(xs) == s;
    AscendingUnique(xs, s, below);
  }
}

/** `DryRunNetworkHelper`: in-memory state replaced as a whole, with the change
    reported as sorted tuples of added and removed routes and DNS entries. */
module NetworkHelpers {
  import opened Wrappers
  import opened Collections
  import opened Ipv4
  import opened RoutePlans
  import opened Listings
  import opened Manifests

  type DnsEntry = (string, Addr)

  datatype NetworkState = NetworkState(generation: nat, virtualIp: Option<Addr>, routes: seq<Route>, fakeDns: seq<DnsEntry>)

  datatype NetworkChange = NetworkChange(
    before: NetworkState, after: NetworkState,
    addedRoutes: seq<Route>, removedRoutes: seq<Route>, addedDns: seq<DnsEntry>, removedDns: seq<DnsEntry>)

  const INITIAL := NetworkState(0, None, [], [])

  /** Everything but the generation is the same. */
  predicate SameNetwork(s: NetworkState, t: NetworkState) { s == t.(generation := s.generation) }

  /** The order of Python strings. */
  predicate TextBelow(s: string, t: string) {
    t != [] && (s == [] || s[0] < t[0] || (s[0] == t[0] && TextBelow(s[1..], t[1..])))
  }

  lemma {:induction false} TextBelowTotal(s: string, t: string)
    ensures s == t || TextBelow(s, t) || TextBelow(t, s)
    ensures !TextBelow(s, s)
  {
    if s != [] {
      TextBelowTotal(s[1..], s[1..]);
    }
    if s != [] && t != [] && s[0] == t[0] {
      TextBelowTotal(s[1..], t[1..]);
      assert s == [s[0]] + s[1..] && t == [t[0]] + t[1..];
    }
  }

  lemma {:induction false} TextBelowTransitive(s: string, t: string, u: string)
    requires TextBelow(s, t) && TextBelow(t, u)
    ensures TextBelow(s, u)
  {
    if s != [] && s[0] == t[0] == u[0] {
      TextBelowTransitive(s[1..], t[1..], u[1..]);
    }
  }

  /** A text is below another when it is a proper prefix of it, or has the smaller
      character where they first differ. */
  lemma {:induction false} TextBelowExact(s: string, t: string)
    ensures TextBelow(s, t) <==> exists k :: FirstDifference(s, t, k) && (k == |s| || s[k] < t[k])
  {
    if s != [] && t != [] && s[0] == t[0] {
      TextBelowExact(s[1..], t[1..]);
      assert s == [s[0]] + s[1..] && t == [t[0]] + t[1..];
      forall k | FirstDifference(s, t, k) ensures FirstDifference(s[1..], t[1..], k - 1) {
        assert k > 0 && s[1..][..k - 1] == s[..k][1..] && t[1..][..k - 1] == t[..k][1..];
      }
      forall k | FirstDifference(s[1..], t[1..], k) ensures FirstDifference(s, t, k + 1) {
        assert s[..k + 1] == [s[0]] + s[1..][..k] && t[..k + 1] == [t[0]] + t[1..][..k];
      }
    } else if s == [] {
      assert t != [] ==> FirstDifference(s, t, 0);
    } else {
      assert t != [] ==> FirstDifference(s, t, 0);
      forall k | 0 < k <= |s| && k < |t| ensures s[..k] == t[..k] ==> s[0] == t[0] {
        SameStart(s, t, k);
      }
    }
  }

  lemma SameStart(s: string, t: string, k: int)
    requires 0 < k <= |s| && k <= |t|
    ensures s[..k] == t[..k] ==> s[0] == t[0]
  {
    assert s[..k][0] == s[0] && t[..k][0] == t[0];
  }

  predicate FirstDifference(s: string, t: string, k: int) {
    0 <= k <= |s| && k < |t| && s[..k] == t[..k] && (k < |s| ==> s[k] != t[k])
  }

  /** The sort keys: `(prefix, resource_id)` for a route, where `text` orders the
      prefixes by their text, and the whole pair for a DNS entry. */
  function RouteBelow(text: (Prefix, Prefix) -> bool): (Route, Route) -> bool {
    (r: Route, q: Route) => text(r.prefix, q.prefix) || (r.prefix == q.prefix && TextBelow(r.resourceId, q.resourceId))
  }

  function DnsBelow(): (DnsEntry, DnsEntry) -> bool {
    (d: DnsEntry, e: DnsEntry) => TextBelow(d.0, e.0) || (d.0 == e.0 && d.1 < e.1)
  }

  /** The text of a prefix determines it, so its order is a strict total order. */
  ghost predicate PrefixOrder(text: (Prefix, Prefix) -> bool) {
    && (forall p :: !text(p, p))
    && (forall p, q :: p != q ==> text(p, q) || text(q, p))
    && (forall p, q, r :: text(p, q) && text(q, r) ==> text(p, r))
  }

  lemma DnsOrder(s: set<DnsEntry>)
    ensures StrictTotal(DnsBelow(), s)
  {
    var below := DnsBelow();
    forall d <- s, e <- s ensures !below(d, d) && (d != e ==> below(d, e) || below(e, d)) {
      TextBelowTotal(d.0, e.0);
    }
    forall d <- s, e <- s, f <- s | below(d, e) && below(e, f) ensures below(d, f) {
      if TextBelow(d.0, e.0) && TextBelow(e.0, f.0) {
        TextBelowTransitive(d.0, e.0, f.0);
      }
    }
  }

  /** Distinct prefixes make the key a strict total order on the routes. */
  lemma RouteOrder(text: (Prefix, Prefix) -> bool, routes: seq<Route>, s: set<Route>)
    requires PrefixOrder(text) && DistinctPrefixes(routes) && s <= Elements(routes)
    ensures StrictTotal(RouteBelow(text), s)
  {
    var below := RouteBelow(text);
    forall r <- s, q <- s | r != q ensures r.prefix != q.prefix {
      var i :| 0 <= i < |routes| && routes[i] == r;
      var j :| 0 <= j < |routes| && routes[j] == q;
    }
    forall r <- s ensures !below(r, r) {
      TextBelowTotal(r.resourceId, r.resourceId);
    }
  }

  predicate ValidState(s: NetworkState) { DistinctPrefixes(s.routes) }

  /** `_delta`. */
  ghost function Delta(before: NetworkState, after: NetworkState, text: (Prefix, Prefix) -> bool): NetworkChange
    requires PrefixOrder(text) && ValidState(before) && ValidState(after)
  {
    var (oldRoutes, newRoutes) := (Elements(before.routes), Elements(after.routes));
    var (oldDns, newDns) := (Elements(before.fakeDns), Elements(after.fakeDns));
    RouteOrder(text, after.routes, newRoutes - oldRoutes);
    RouteOrder(text, before.routes, oldRoutes - newRoutes);
    DnsOrder(newDns - oldDns);
    DnsOrder(oldDns - newDns);
    NetworkChange(before, after,
      Sorted(newRoutes - oldRoutes, RouteBelow(text)), Sorted(oldRoutes - newRoutes, RouteBelow(text)),
      Sorted(newDns - oldDns, DnsBelow()), Sorted(oldDns - newDns, DnsBelow()))
  }

  function NoChange(s: NetworkState): NetworkChange { NetworkChange(s, s, [], [], [], []) }

  /** The network a plan asks for. */
  ghost function Target(plan: RoutePlan, generation: nat): NetworkState {
    DnsOrder(plan.fakeDns.Items);
    NetworkState(generation, Some(plan.virtualIp), plan.routes, Sorted(plan.fakeDns.Items, DnsBelow()))
  }

  /** `_change`. */
  ghost function Change(before: NetworkState, plan: RoutePlan, text: (Prefix, Prefix) -> bool): NetworkChange
    requires PrefixOrder(text) && ValidState(before) && DistinctPrefixes(plan.routes)
  {
    if SameNetwork(before, Target(plan, 0)) then NoChange(before)
    else Delta(before, Target(plan, before.generation + 1), text)
  }

  ghost function Rollback(before: NetworkState, text: (Prefix, Prefix) -> bool): NetworkChange
    requires PrefixOrder(text) && ValidState(before)
  {
    if before.virtualIp == None && before.routes == [] && before.fakeDns == [] then NoChange(before)
    else Delta(before, NetworkState(before.generation + 1, None, [], []), text)
  }

  datatype HelperError = BadEnvelope(error: EnvelopeError) | OtherSession | BadManifest(plan: PlanError)

  /** `names` is the order of the `dns` object's keys. */
  predicate NamesOf(names: seq<string>, e: Envelope) { ListsKeys(names, e.signed.manifest.base.dns) }

  /** `_verified_plan`. */
  ghost function VerifiedPlan(
    v: Verifier, digest: Base -> string, b: Binding, e: Envelope, names: seq<string>, now: int): Result<RoutePlan, HelperError>
    requires NamesOf(names, e)
  {
    match Verify(v, e, digest, now)
    case Err(error) => Err(BadEnvelope(error))
    case Ok(m) =>
      if !Bound(m, b) then Err(OtherSession)
      else match Planned(RawOf(m, names))
        case Err(error) => Err(BadManifest(error))
        case Ok(plan) => Ok(plan)
  }

  lemma VerifiedPlanDistinct(
    v: Verifier, digest: Base -> string, b: Binding, e: Envelope, names: seq<string>, now: int)
    requires NamesOf(names, e) && VerifiedPlan(v, digest, b, e, names, now).Ok?
    ensures DistinctPrefixes(VerifiedPlan(v, digest, b, e, names, now).value.routes)
  {
    hide WellFormed, Claims, OneOwner, CoversAll;
    var m := RawOf(e.signed.manifest, names);
    assert HeadError(m) == None && PlanDns(m).Ok?;
    PlannedExact(m);
  }

  class DryRunNetworkHelper {
    const verifier: Verifier
    const digest: Base -> string
    const binding: Binding
    const text: (Prefix, Prefix) -> bool
    var state: NetworkState

    ghost predicate Valid()
      reads this
    {
      PrefixOrder(text) && ValidState(state)
    }

    constructor (verifier: Verifier, digest: Base -> string, binding: Binding, text: (Prefix, Prefix) -> bool)
      requires PrefixOrder(text)
      ensures Valid() && state == INITIAL
      ensures this.verifier == verifier && this.digest == digest && this.binding == binding && this.text == text
    {
      this.verifier, this.digest, this.binding, this.text := verifier, digest, binding, text;
      state := INITIAL;
    }

    ghost function PlanFrom(e: Envelope, names: seq<string>, now: int): Result<RoutePlan, HelperError>
      requires NamesOf(names, e)
    {
      VerifiedPlan(verifier, digest, binding, e, names, now)
    }

    method MakePlan(e: Envelope, names: seq<string>, now: int) returns (r: Result<RoutePlan, HelperError>)
      requires NamesOf(names, e)
      ensures r == PlanFrom(e, names, now)
      ensures r.Ok? ==> DistinctPrefixes(r.value.routes)
    {
      hide Planned;
      var m := Verify(verifier, e, digest, now);
      if m.Err? { return Err(BadEnvelope(m.error)); }
      if !Bound(m.value, binding) { return Err(OtherSession); }
      var plan := BuildRoutePlan(RawOf(m.value, names));
      if plan.Err? { return Err(BadManifest(plan.error)); }
      VerifiedPlanDistinct(verifier, digest, binding, e, names, now);
      return Ok(plan.value);
    }

    method MakeDelta(before: NetworkState, after: NetworkState) returns (c: NetworkChange)
      requires PrefixOrder(text) && ValidState(before) && ValidState(after)
      ensures c == Delta(before, after, text)
    {
      var oldRoutes, newRoutes := Elements(before.routes), Elements(after.routes);
      var oldDns, newDns := Elements(before.fakeDns), Elements(after.fakeDns);
      RouteOrder(text, after.routes, newRoutes - oldRoutes);
      RouteOrder(text, before.routes, oldRoutes - newRoutes);
      DnsOrder(newDns - oldDns);
      DnsOrder(oldDns - newDns);
      var addedRoutes := Sort(newRoutes - oldRoutes, RouteBelow(text));
      var removedRoutes := Sort(oldRoutes - newRoutes, RouteBelow(text));
      var addedDns := Sort(newDns - oldDns, DnsBelow());
      var removedDns := Sort(oldDns - newDns, DnsBelow());
      c := NetworkChange(before, after, addedRoutes, removedRoutes, addedDns, removedDns);
    }

    method MakeChange(before: NetworkState, plan: RoutePlan) returns (c: NetworkChange)
      requires PrefixOrder(text) && ValidState(before) && DistinctPrefixes(plan.routes)
      ensures c == Change(before, plan, text)
    {
      DnsOrder(plan.fakeDns.Items);
      var dns := Sort(plan.fakeDns.Items, DnsBelow());
      if before.virtualIp == Some(plan.virtualIp) && before.routes == plan.routes && before.fakeDns == dns {
        return NoChange(before);
      }
      c := MakeDelta(before, NetworkState(before.generation + 1, Some(plan.virtualIp), plan.routes, dns));
    }

    method Preview(e: Envelope, names: seq<string>, now: int) returns (r: Result<NetworkChange, HelperError>)
      requires Valid() && NamesOf(names, e)
      ensures var plan := PlanFrom(e, names, now);
        if plan.Err? then r == Err(plan.error)
        else DistinctPrefixes(plan.value.routes) && r == Ok(Change(state, plan.value, text))
    {
      hide VerifiedPlan, Change;
      var plan := MakePlan(e, names, now);
      if plan.Err? { return Err(plan.error); }
      var c := MakeChange(state, plan.value);
      return Ok(c);
    }

    /** Commits the change that `Preview` shows; an envelope that is turned down
        changes nothing. */
    method Apply(e: Envelope, names: seq<string>, now: int) returns (r: Result<NetworkChange, HelperError>)
      requires Valid() && NamesOf(names, e)
      modifies this`state
      ensures Valid()
      ensures var plan := PlanFrom(e, names, now);
        if plan.Err? then r == Err(plan.error) && state == old(state)
        else DistinctPrefixes(plan.value.routes) && r == Ok(Change(old(state), plan.value, text)) && state == r.value.after
    {
      hide VerifiedPlan;
      var plan := MakePlan(e, names, now);
      if plan.Err? { return Err(plan.error); }
      var c := MakeChange(state, plan.value);
      state := c.after;
      return Ok(c);
    }

    method RollBack() returns (c: NetworkChange)
      requires Valid()
      modifies this`state
      ensures Valid() && c == Rollback(old(state), text) && state == c.after
    {
      var before := state;
      if before.virtualIp == None && before.routes == [] && before.fakeDns == [] { return NoChange(before); }
      var after := NetworkState(before.generation + 1, None, [], []);
      c := MakeDelta(before, after);
      state := after;
    }
  }

  /** Whole runs. */
  datatype Command = Apply(plan: RoutePlan) | RollBack

  predicate ValidRun(commands: seq<Command>) {
    forall c <- commands :: c.Apply? ==> DistinctPrefixes(c.plan.routes)
  }

  ghost function Execute(s: NetworkState, command: Command, text: (Prefix, Prefix) -> bool): NetworkChange
    requires PrefixOrder(text) && ValidState(s) && ValidRun([command])
  {
    match command
    case Apply(plan) => assert command in [command]; Change(s, plan, text)
    case RollBack => Rollback(s, text)
  }

  ghost function StateAfter(commands: seq<Command>, text: (Prefix, Prefix) -> bool): (s: NetworkState)
    requires PrefixOrder(text) && ValidRun(commands)
    ensures ValidState(s)
  {
    if commands == [] then INITIAL
    else Execute(StateAfter(commands[..|commands| - 1], text), commands[|commands| - 1], text).after
  }

  /** The change the last command of a run reports. */
  ghost function LastChange(commands: seq<Command>, text: (Prefix, Prefix) -> bool): NetworkChange
    requires PrefixOrder(text) && ValidRun(commands) && commands != []
  {
    Execute(StateAfter(commands[..|commands| - 1], text), commands[|commands| - 1], text)
  }

  /** What a reader of the reports alone believes: removed entries out, added ones in. */
  ghost function FoldedRoutes(commands: seq<Command>, text: (Prefix, Prefix) -> bool): set<Route>
    requires PrefixOrder(text) && ValidRun(commands)
  {
    if commands == [] then {}
    else
      var c := LastChange(commands, text);
      FoldedRoutes(commands[..|commands| - 1], text) - Elements(c.removedRoutes) + Elements(c.addedRoutes)
  }

  ghost function FoldedDns(commands: seq<Command>, text: (Prefix, Prefix) -> bool): set<DnsEntry>
    requires PrefixOrder(text) && ValidRun(commands)
  {
    if commands == [] then {}
    else
      var c := LastChange(commands, text);
      FoldedDns(commands[..|commands| - 1], text) - Elements(c.removedDns) + Elements(c.addedDns)
  }

  /** One report: the sets differ by exactly the reported tuples, which are in
      order, and the generation rises by one exactly when something changed. */
  lemma ReportExact(s: NetworkState, command: Command, text: (Prefix, Prefix) -> bool)
    requires PrefixOrder(text) && ValidState(s) && ValidRun([command])
    ensures var c := Execute(s, command, text);
      && c.before == s
      && Elements(c.addedRoutes) == Elements(c.after.routes) - Elements(s.routes)
      && Elements(c.removedRoutes) == Elements(s.routes) - Elements(c.after.routes)
      && Elements(c.addedDns) == Elements(c.after.fakeDns) - Elements(s.fakeDns)
      && Elements(c.removedDns) == Elements(s.fakeDns) - Elements(c.after.fakeDns)
      && c.after.generation == (if SameNetwork(s, c.after) then s.generation else s.generation + 1)
      && (SameNetwork(s, c.after) ==> c == NoChange(s))
  {
    hide Sorted;
    var c := Execute(s, command, text);
  }

  /** Folding the reports of any run from nothing gives the current routes and
      DNS entries, as sets. */
  lemma {:induction false} ReportsReproduceState(commands: seq<Command>, text: (Prefix, Prefix) -> bool)
    requires PrefixOrder(text) && ValidRun(commands)
    ensures FoldedRoutes(commands, text) == Elements(StateAfter(commands, text).routes)
    ensures FoldedDns(commands, text) == Elements(StateAfter(commands, text).fakeDns)
  {
    hide Execute;
    if commands != [] {
      var init := commands[..|commands| - 1];
      assert forall c <- init :: c in commands;
      ReportsReproduceState(init, text);
      ReportExact(StateAfter(init, text), commands[|commands| - 1], text);
    }
  }

  /** The commands of a run that changed something. */
  ghost function Effective(commands: seq<Command>, text: (Prefix, Prefix) -> bool): nat
    requires PrefixOrder(text) && ValidRun(commands)
  {
    if commands == [] then 0
    else
      var init := commands[..|commands| - 1];
      Effective(init, text) + if SameNetwork(StateAfter(init, text), StateAfter(commands, text)) then 0 else 1
  }

  lemma Prefixes(commands: seq<Command>, i: nat)
    requires ValidRun(commands) && i < |commands|
    ensures ValidRun(commands[..i]) && ValidRun(commands[..i + 1]) && ValidRun([commands[i]])
    ensures commands[..i + 1] == commands[..i] + [commands[i]] && commands[..i + 1][..i] == commands[..i]
  {
  }

  /** The generation counts the commands that changed something; within one run it
      never falls, and states of one generation are one and the same. */
  lemma {:induction false} GenerationExact(commands: seq<Command>, text: (Prefix, Prefix) -> bool, i: nat)
    requires PrefixOrder(text) && ValidRun(commands) && i <= |commands|
    ensures var (s, t) := (StateAfter(commands[..i], text), StateAfter(commands, text));
      && t.generation == Effective(commands, text) && s.generation <= t.generation
      && (s.generation == t.generation ==> s == t)
  {
    hide Execute;
    if commands == [] || i == |commands| {
      assert commands[..i] == commands;
    }
    if commands != [] {
      var n := |commands| - 1;
      Prefixes(commands, n);
      ReportExact(StateAfter(commands[..n], text), commands[n], text);
      var j := if i <= n then i else n;
      assert commands[..n][..j] == commands[..j];
      GenerationExact(commands[..n], text, j);
    }
  }

  /** In any run, a command that repeats the one before it changes nothing and
      reports nothing, and a plan is applied in full. */
  lemma CommandsTakeHold(commands: seq<Command>, text: (Prefix, Prefix) -> bool)
    requires PrefixOrder(text) && ValidRun(commands) && commands != []
    ensures var t := StateAfter(commands, text);
      match commands[|commands| - 1]
      case Apply(plan) =>
        && t.virtualIp == Some(plan.virtualIp) && t.routes == plan.routes
        && Elements(t.fakeDns) == plan.fakeDns.Items && |t.fakeDns| == |plan.fakeDns.Items| && Ascending(t.fakeDns, DnsBelow())
      case RollBack => t.virtualIp == None && t.routes == [] && t.fakeDns == []
    ensures |commands| > 1 && commands[|commands| - 2] == commands[|commands| - 1] ==>
      LastChange(commands, text) == NoChange(StateAfter(commands[..|commands| - 1], text))
  {
    var n := |commands| - 1;
    Prefixes(commands, n);
    TakesHold(StateAfter(commands[..n], text), commands[n], text);
    if commands[n].Apply? {
      var items := commands[n].plan.fakeDns.Items;
      DnsOrder(items);
      SortedAscending(items, DnsBelow());
    }
    if n > 0 && commands[n - 1] == commands[n] {
      Prefixes(commands[..n], n - 1);
      assert commands[..n][n - 1] == commands[n - 1];
      TakesHold(StateAfter(commands[..n][..n - 1], text), commands[n], text);
    }
  }

  lemma TakesHold(s: NetworkState, command: Command, text: (Prefix, Prefix) -> bool)
    requires PrefixOrder(text) && ValidState(s) && ValidRun([command])
    ensures var t := Execute(s, command, text).after;
      && ValidState(t) && Execute(t, command, text) == NoChange(t)
      && match command
         case Apply(plan) => SameNetwork(t, Target(plan, 0))
         case RollBack => SameNetwork(t, INITIAL)
  {
    hide Sorted;
  }

  /** Every report, a report of nothing too, lists its differences in sorted order. */
  lemma ReportSorted(s: NetworkState, command: Command, text: (Prefix, Prefix) -> bool)
    requires PrefixOrder(text) && ValidState(s) && ValidRun([command])
    ensures var c := Execute(s, command, text);
      && StrictTotal(RouteBelow(text), Elements(c.addedRoutes)) && StrictTotal(RouteBelow(text), Elements(c.removedRoutes))
      && c.addedRoutes == Sorted(Elements(c.addedRoutes), RouteBelow(text))
      && c.removedRoutes == Sorted(Elements(c.removedRoutes), RouteBelow(text))
      && StrictTotal(DnsBelow(), Elements(c.addedDns)) && StrictTotal(DnsBelow(), Elements(c.removedDns))
      && c.addedDns == Sorted(Elements(c.addedDns), DnsBelow())
      && c.removedDns == Sorted(Elements(c.removedDns), DnsBelow())
  {
    var c := Execute(s, command, text);
    RouteOrder(text, c.after.routes, Elements(c.addedRoutes));
    RouteOrder(text, s.routes, Elements(c.removedRoutes));
    DnsOrder(Elements(c.addedDns));
    DnsOrder(Elements(c.removedDns));
  }

  /** The one ascending listing of a set. */
  ghost predicate OnlyListing<T(!new)>(xs: seq<T>, below: (T, T) -> bool) {
    Ascending(xs, below) && forall ys | Ascending(ys, below) && Elements(ys) == Elements(xs) :: ys == xs
  }

  lemma SortedOnly<T(!new)>(xs: seq<T>, below: (T, T) -> bool)
    requires StrictTotal(below, Elements(xs)) && xs == Sorted(Elements(xs), below)
    ensures OnlyListing(xs, below)
  {
    SortedAscending(Elements(xs), below);
    forall ys | Ascending(ys, below) && Elements(ys) == Elements(xs) ensures ys == xs {
      AscendingUnique(ys, Elements(xs), below);
    }
  }

  /** The four reported tuples are in ascending order, and no other tuple of the
      same entries is. */
  lemma ReportedTuplesUnique(s: NetworkState, command: Command, text: (Prefix, Prefix) -> bool)
    requires PrefixOrder(text) && ValidState(s) && ValidRun([command])
    ensures var c := Execute(s, command, text);
      && OnlyListing(c.addedRoutes, RouteBelow(text)) && OnlyListing(c.removedRoutes, RouteBelow(text))
      && OnlyListing(c.addedDns, DnsBelow()) && OnlyListing(c.removedDns, DnsBelow())
  {
    hide Sorted, StrictTotal, Execute, OnlyListing;
    var c := Execute(s, command, text);
    ReportSorted(s, command, text);
    SortedOnly(c.addedRoutes, RouteBelow(text));
    SortedOnly(c.removedRoutes, RouteBelow(text));
    SortedOnly(c.addedDns, DnsBelow());
    SortedOnly(c.removedDns, DnsBelow());
  }
}
