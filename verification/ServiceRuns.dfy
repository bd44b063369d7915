/** The session store and its pool together, over whole operations run one after the
    other: what each operation answers, what all of them keep, and that each is a
    run of its own lock regions. */
module ServiceRuns {
  import opened Wrappers
  import opened Collections
  import opened Ipv4
  import opened Pools
  import opened Sessions
  import opened Interleaving

  /** A session filed under its id, with the pool's address for that id. */
  predicate Filed(v: Service, id: Id)
    requires id in v.store.sessions
  {
    var s := v.store.sessions[id];
    s.id == id && !s.revoked && id in v.pool.inUse && s.virtualIp == v.pool.inUse[id]
  }

  /** Between operations: the hosts are partitioned into free and leased, and the
      leased ids are the ids of the sessions. */
  ghost predicate AtRest(v: Service, hosts: set<Addr>) {
    && Partition(v.pool, hosts) && v.pool.inUse.Keys == v.store.sessions.Keys
    && forall id <- v.store.sessions :: Filed(v, id)
  }

  lemma {:induction false} ReleaseAllExact(p: Pool, ids: seq<Id>, hosts: set<Addr>)
    requires Partition(p, hosts)
    ensures Partition(ReleaseAll(p, ids), hosts) && ReleaseAll(p, ids).inUse == p.inUse - Elements(ids)
    decreases |ids|
  {
    if ids == [] {
      assert p.inUse - {} == p.inUse;
    } else {
      ReleaseKeepsPartition(p, ids[0], hosts);
      hide Release, Partition;
      ReleaseAllExact(Release(p, ids[0]), ids[1..], hosts);
      assert ids == [ids[0]] + ids[1..];
      assert p.inUse - Elements(ids) == p.inUse - {ids[0]} - Elements(ids[1..]);
    }
  }

  lemma ScavengeKeepsAtRest(v: Service, listing: seq<Id>, now: real, cfg: Config, hosts: set<Addr>)
    requires AtRest(v, hosts) && ListsKeys(listing, v.store.sessions)
    ensures var (clean, ids) := Scavenged(v, listing, now, cfg);
      && AtRest(clean, hosts) && clean.store.generation == v.store.generation
      && (forall id :: id in clean.store.sessions <==> id in v.store.sessions && !Expired(v.store.sessions[id], now, cfg))
      && (forall id <- clean.store.sessions :: clean.store.sessions[id] == v.store.sessions[id])
      && Distinct(ids) && Elements(ids) == v.store.sessions.Keys - clean.store.sessions.Keys
  {
    assert forall id <- v.store.sessions :: Filed(v, id);
    SweepExact(v.store, listing, now, cfg);
    var ids := Sweep(v.store, listing, now, cfg).1;
    hide Partition, Sweep;
    ReleaseAllExact(v.pool, ids, hosts);
    var clean := Scavenged(v, listing, now, cfg).0;
    assert forall id :: id in listing <==> id in Elements(listing);
    forall id <- clean.store.sessions ensures Filed(clean, id) {
      assert Filed(v, id);
    }
  }

  lemma DropKeepsAtRest(v: Service, id: Id, hosts: set<Addr>)
    requires AtRest(v, hosts) && id in v.store.sessions
    ensures AtRest(Service(v.store.(sessions := v.store.sessions - {id}), Release(v.pool, id)), hosts)
  {
    ReleaseKeepsPartition(v.pool, id, hosts);
    hide Release, Partition;
    var w := Service(v.store.(sessions := v.store.sessions - {id}), Release(v.pool, id));
    forall j <- w.store.sessions ensures Filed(w, j) {
      assert Filed(v, j);
    }
  }

  lemma InsertKeepsAtRest(v: Service, s: Lease, p: Pool, hosts: set<Addr>)
    requires AtRest(v, hosts) && s.id !in v.store.sessions && !s.revoked
    requires (p, Some(s.virtualIp)) == Allocate(v.pool, s.id)
    ensures AtRest(Service(Insert(v.store, s), p), hosts)
  {
    AllocateKeepsPartition(v.pool, s.id, hosts);
    hide Allocate, Partition;
    var w := Service(Insert(v.store, s), p);
    forall j <- w.store.sessions ensures Filed(w, j) {
      assert j != s.id ==> Filed(v, j);
    }
  }

  /** A create needs a new id. */
  predicate Proper(v: Service, op: Op) { Listed(op, v) && (op.Create? ==> op.id !in v.store.sessions) }

  /** Every operation keeps leased ids and sessions together. */
  lemma DoKeepsAtRest(v: Service, op: Op, cfg: Config, hosts: set<Addr>)
    requires AtRest(v, hosts) && Proper(v, op)
    ensures AtRest(Do(v, op, cfg).0, hosts)
  {
    hide Partition, Release, Allocate, Scavenged;
    match op
    case Create(id, subject, posture, listing, sweptAt, now) =>
      ScavengeKeepsAtRest(v, listing, sweptAt, cfg, hosts);
      var clean := Scavenged(v, listing, sweptAt, cfg).0;
      var (p, got) := Allocate(clean.pool, id);
      if got.Some? {
        InsertKeepsAtRest(clean, NewLease(clean.store, id, subject, posture, got.value, now, cfg), p, hosts);
      } else {
        AllocateKeepsPartition(clean.pool, id, hosts);
      }
    case GetActive(id, now) =>
      if id in v.store.sessions && Expired(v.store.sessions[id], now, cfg) {
        DropKeepsAtRest(v, id, hosts);
      }
    case Heartbeat(id, now) =>
      if id in v.store.sessions {
        if Expired(v.store.sessions[id], now, cfg) {
          DropKeepsAtRest(v, id, hosts);
        } else {
          var w := Do(v, op, cfg).0;
          forall j <- w.store.sessions ensures Filed(w, j) {
            assert Filed(v, j);
          }
        }
      }
    case Revoke(id) =>
      if id in v.store.sessions {
        DropKeepsAtRest(v, id, hosts);
      }
    case Scavenge(listing, now) => ScavengeKeepsAtRest(v, listing, now, cfg, hosts);
  }

  ghost predicate ProperRun(v: Service, ops: seq<Op>, cfg: Config)
    decreases |ops|
  {
    ops == [] || (Proper(v, ops[0]) && ProperRun(Do(v, ops[0], cfg).0, ops[1..], cfg))
  }

  /** Over whole runs: no address is ever lost or leased twice. */
  lemma {:induction false} RunKeepsAtRest(v: Service, ops: seq<Op>, cfg: Config, hosts: set<Addr>)
    requires AtRest(v, hosts) && ProperRun(v, ops, cfg)
    ensures AtRest(Final(v, ops, cfg), hosts)
    decreases |ops|
  {
    hide AtRest, Proper, Do;
    if ops != [] {
      DoKeepsAtRest(v, ops[0], cfg, hosts);
      RunKeepsAtRest(Do(v, ops[0], cfg).0, ops[1..], cfg, hosts);
    }
  }

  /** The sessions that a sweep leaves. */
  function Unexpired(v: Service, now: real, cfg: Config): set<Id> {
    set id | id in v.store.sessions && !Expired(v.store.sessions[id], now, cfg)
  }

  lemma OneAddressEach(m: map<Id, Addr>)
    requires OneHolder(m)
    ensures |m.Values| == |m.Keys|
    decreases |m|
  {
    if m != map[] {
      var id :| id in m;
      var n := m - {id};
      ValuesRemove(m, id);
      OneAddressEach(n);
      assert n.Keys == m.Keys - {id};
      assert m[id] in m.Values;
    } else {
      assert m.Keys == {} && m.Values == {};
    }
  }

  /** A create succeeds exactly when the sessions that are not expired leave a host
      free, and then the session is the caller's, with a host of its own. */
  lemma CreateExact(v: Service, op: Op, cfg: Config, hosts: set<Addr>)
    requires AtRest(v, hosts) && op.Create? && Proper(v, op)
    ensures var (w, r) := Do(v, op, cfg);
      && (r.Some? <==> |Unexpired(v, op.sweptAt, cfg)| < |hosts|)
      && w.store.sessions.Keys == Unexpired(v, op.sweptAt, cfg) + (if r.Some? then {op.id} else {})
      && (r.Some? ==>
          && EntryOf(w.store, op.id) == r && r.value.id == op.id
          && r.value.subject == op.subject && r.value.posture == op.posture
          && r.value.virtualIp in hosts && r.value.generation == v.store.generation + 1 == w.store.generation
          && r.value.lastSeen == op.at && r.value.expiresAt == op.at + cfg.ttl
          && r.value.absoluteExpiresAt == op.at + cfg.absoluteTtl && !r.value.revoked)
  {
    hide Scavenged, AtRest, Allocate, Expired;
    ScavengeKeepsAtRest(v, op.listing, op.sweptAt, cfg, hosts);
    var clean := Scavenged(v, op.listing, op.sweptAt, cfg).0;
    assert clean.store.sessions.Keys == Unexpired(v, op.sweptAt, cfg);
    FreeHost(clean, op.id, hosts);
  }

  /** There is an address for a new id exactly when there are fewer sessions than hosts. */
  lemma FreeHost(v: Service, id: Id, hosts: set<Addr>)
    requires AtRest(v, hosts) && id !in v.store.sessions
    ensures var got := Allocate(v.pool, id).1;
      (got.Some? <==> |v.store.sessions.Keys| < |hosts|) && (got.Some? ==> got.value in hosts)
  {
    AllocateKeepsPartition(v.pool, id, hosts);
    OneAddressEach(v.pool.inUse);
    FewerThanAll(v.pool.inUse.Values, hosts);
    var (p, got) := Allocate(v.pool, id);
    assert got.Some? ==> got.value in p.inUse.Values;
  }

  lemma FewerThanAll(some: set<Addr>, all: set<Addr>)
    requires some <= all
    ensures |some| < |all| <==> some != all
  {
    assert all == some + (all - some);
  }

  /** What a look and a heartbeat return: the session when it is stored and not
      expired, as it stands or refreshed, and otherwise nothing. */
  lemma AnswersExact(v: Service, id: Id, now: real, cfg: Config, hosts: set<Addr>)
    requires AtRest(v, hosts)
    ensures var active := id in v.store.sessions &&
        var s := v.store.sessions[id];
        now <= s.expiresAt && now <= s.absoluteExpiresAt && now <= s.lastSeen + cfg.idle;
      var (looked, beaten) := (Do(v, GetActive(id, now), cfg).1, Do(v, Heartbeat(id, now), cfg).1);
      && looked == (if active then Some(v.store.sessions[id]) else None)
      && (beaten.Some? <==> active)
      && (active ==> var s := v.store.sessions[id];
          beaten == Some(s.(lastSeen := now, expiresAt :=
            if now + cfg.ttl <= s.absoluteExpiresAt then now + cfg.ttl else s.absoluteExpiresAt)))
  {
    assert id in v.store.sessions ==> Filed(v, id);
  }

  /** The shared state as one service. */
  function ServiceOf(w: World): Service { Service(w.store, w.pool) }

  /** `actions` are regions of thread `t` only, which ends idle, in a world of service `end`. */
  ghost predicate Runs(w: World, t: nat, actions: seq<Action>, cfg: Config, end: Service) {
    && IsRun(w, actions, cfg) && (forall a <- actions :: a.t == t)
    && ServiceOf(WorldAfter(w, actions, cfg)) == end && PcOf(WorldAfter(w, actions, cfg), t) == Idle
  }

  lemma RunsNothing(w: World, t: nat, cfg: Config)
    requires PcOf(w, t) == Idle
    ensures Runs(w, t, [], cfg, ServiceOf(w))
  {
  }

  lemma RunsFirst(w: World, a: Action, t: nat, rest: seq<Action>, cfg: Config, end: Service)
    requires Enabled(w, a) && a.t == t && Runs(Next(w, a, cfg), t, rest, cfg, end)
    ensures Runs(w, t, [a] + rest, cfg, end)
  {
    hide Enabled, Next;
    assert ([a] + rest)[1..] == rest;
  }

  lemma {:induction false} ReclaimRuns(w: World, t: nat, cfg: Config) returns (actions: seq<Action>)
    requires PcOf(w, t).Reclaiming? && !PcOf(w, t).creating
    ensures Runs(w, t, actions, cfg, Service(w.store, ReleaseAll(w.pool, PcOf(w, t).ids)))
    decreases |PcOf(w, t).ids|
  {
    hide Release, Runs;
    var a := if PcOf(w, t).ids == [] then SweptStep(t) else ReclaimStep(t);
    var next := Next(w, a, cfg);
    var rest;
    if PcOf(w, t).ids == [] {
      rest := [];
      RunsNothing(next, t, cfg);
    } else {
      rest := ReclaimRuns(next, t, cfg);
    }
    RunsFirst(w, a, t, rest, cfg, Service(w.store, ReleaseAll(w.pool, PcOf(w, t).ids)));
    actions := [a] + rest;
  }

  /** What `create` does once it has swept: the service it ends in. */
  function CreatedIn(v: Service, op: Op, cfg: Config): Service
    requires op.Create?
  {
    var got := Allocate(v.pool, op.id);
    if got.1 == None then Service(v.store, got.0)
    else Service(Insert(v.store, NewLease(v.store, op.id, op.subject, op.posture, got.1.value, op.at, cfg)), got.0)
  }

  lemma AllocateRuns(w: World, t: nat, op: Op, cfg: Config) returns (actions: seq<Action>)
    requires op.Create? && PcOf(w, t).Allocating? && op.id !in w.drawn
    ensures Runs(w, t, actions, cfg, CreatedIn(ServiceOf(w), op, cfg))
  {
    hide Runs, Insert, NewLease;
    var a := AllocateStep(t, op.id, op.at);
    var next := Next(w, a, cfg);
    var rest;
    if Allocate(w.pool, op.id).1 == None {
      rest := [];
      RunsNothing(next, t, cfg);
    } else {
      var b := InsertStep(t, op.subject, op.posture);
      var last := Next(next, b, cfg);
      RunsNothing(last, t, cfg);
      RunsFirst(next, b, t, [], cfg, ServiceOf(last));
      rest := [b] + [];
    }
    RunsFirst(w, a, t, rest, cfg, CreatedIn(ServiceOf(w), op, cfg));
    actions := [a] + rest;
  }

  lemma {:induction false} CreateRuns(w: World, t: nat, op: Op, cfg: Config) returns (actions: seq<Action>)
    requires op.Create? && PcOf(w, t).Reclaiming? && PcOf(w, t).creating && op.id !in w.drawn
    ensures Runs(w, t, actions, cfg, CreatedIn(Service(w.store, ReleaseAll(w.pool, PcOf(w, t).ids)), op, cfg))
    decreases |PcOf(w, t).ids|
  {
    hide Release, Runs, CreatedIn;
    var a := if PcOf(w, t).ids == [] then SweptStep(t) else ReclaimStep(t);
    var next := Next(w, a, cfg);
    var rest;
    if PcOf(w, t).ids == [] {
      rest := AllocateRuns(next, t, op, cfg);
    } else {
      rest := CreateRuns(next, t, op, cfg);
    }
    RunsFirst(w, a, t, rest, cfg, CreatedIn(Service(w.store, ReleaseAll(w.pool, PcOf(w, t).ids)), op, cfg));
    actions := [a] + rest;
  }

  /** Two regions: the first takes the session out or leaves it, the second releases or rereads. */
  lemma TwoRegions(w: World, a: Action, t: nat, cfg: Config) returns (actions: seq<Action>)
    requires Enabled(w, a) && a.t == t && (PcOf(Next(w, a, cfg), t).Releasing? || PcOf(Next(w, a, cfg), t).Rereading?)
    ensures var next := Next(w, a, cfg);
      Runs(w, t, actions, cfg, if PcOf(next, t).Releasing? then Service(next.store, Release(next.pool, PcOf(next, t).id)) else ServiceOf(next))
  {
    hide Runs, Release;
    var next := Next(w, a, cfg);
    var b := if PcOf(next, t).Releasing? then ReleaseStep(t) else RereadStep(t);
    var last := Next(next, b, cfg);
    RunsNothing(last, t, cfg);
    RunsFirst(next, b, t, [], cfg, ServiceOf(last));
    RunsFirst(w, a, t, [b] + [], cfg, ServiceOf(last));
    actions := [a] + ([b] + []);
  }

  /** Every operation, run to its end without interference, is a run of its lock
      regions by one thread: the sequential store is the threaded one with one thread. */
  lemma DoIsRun(w: World, t: nat, op: Op, cfg: Config) returns (actions: seq<Action>)
    requires PcOf(w, t) == Idle && Listed(op, ServiceOf(w)) && (op.Create? ==> op.id !in w.drawn)
    ensures Runs(w, t, actions, cfg, Do(ServiceOf(w), op, cfg).0)
  {
    hide Runs, Release, Sweep;
    match op
    case Create(_, _, _, listing, sweptAt, _) =>
      var a := SweepStep(t, listing, sweptAt, true);
      var rest := CreateRuns(Next(w, a, cfg), t, op, cfg);
      RunsFirst(w, a, t, rest, cfg, Do(ServiceOf(w), op, cfg).0);
      actions := [a] + rest;
    case GetActive(id, now) =>
      actions := TwoRegions(w, LookStep(t, id, now), t, cfg);
    case Heartbeat(id, now) =>
      actions := TwoRegions(w, BeatStep(t, id, now), t, cfg);
    case Revoke(id) =>
      var a := RevokeStep(t, id);
      if id in w.store.sessions {
        actions := TwoRegions(w, a, t, cfg);
      } else {
        RunsNothing(Next(w, a, cfg), t, cfg);
        RunsFirst(w, a, t, [], cfg, ServiceOf(w));
        actions := [a] + [];
      }
    case Scavenge(listing, now) =>
      var a := SweepStep(t, listing, now, false);
      var rest := ReclaimRuns(Next(w, a, cfg), t, cfg);
      RunsFirst(w, a, t, rest, cfg, Do(ServiceOf(w), op, cfg).0);
      actions := [a] + rest;
  }
}
