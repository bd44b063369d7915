/** `SessionStore` on values: one function for each region its lock protects, the
    public operations as their composition, and the exact lifetime of a session. */
module Sessions {
  import opened Wrappers
  import opened Collections
  import opened Ipv4
  import opened Pools

  datatype Posture = Posture(deviceId: string, keyFingerprint: string)

  /** The fields of a `Session`. Clock readings are real numbers. */
  datatype Lease = Lease(
    id: Id, subject: string, posture: Posture, virtualIp: Addr, generation: nat,
    expiresAt: real, absoluteExpiresAt: real, lastSeen: real, revoked: bool)

  datatype Config = Config(ttl: real, absoluteTtl: real, idle: real)

  /** The ranges `SessionStore.__init__` enforces. */
  predicate ValidConfig(c: Config) {
    30.0 <= c.ttl <= 3_600.0 && c.ttl <= c.absoluteTtl <= 86_400.0 && 15.0 <= c.idle <= c.ttl
  }

  /** `_sessions` and `_lease_generation`. */
  datatype Store = Store(sessions: map<Id, Lease>, generation: nat)

  const NO_SESSIONS := Store(map[], 0)

  function Min(x: real, y: real): real { if x <= y then x else y }

  predicate Expired(s: Lease, now: real, cfg: Config) {
    s.revoked || s.expiresAt < now || s.absoluteExpiresAt < now || s.lastSeen + cfg.idle < now
  }

  function NewLease(st: Store, id: Id, subject: string, posture: Posture, a: Addr, now: real, cfg: Config): Lease {
    Lease(id, subject, posture, a, st.generation + 1, now + cfg.ttl, now + cfg.absoluteTtl, now, false)
  }

  /** The locked part of `create`. */
  function Insert(st: Store, s: Lease): Store { Store(st.sessions[s.id := s], st.generation + 1) }

  /** The first locked part of `get_active`; the flag asks for the release. */
  function DropExpired(st: Store, id: Id, now: real, cfg: Config): (Store, bool) {
    if id in st.sessions && Expired(st.sessions[id], now, cfg)
    then (st.(sessions := st.sessions - {id}), true) else (st, false)
  }

  function Refreshed(s: Lease, now: real, cfg: Config): Lease {
    s.(lastSeen := now, expiresAt := Min(now + cfg.ttl, s.absoluteExpiresAt))
  }

  /** The first locked part of `heartbeat`. */
  function DropOrRefresh(st: Store, id: Id, now: real, cfg: Config): (Store, bool) {
    if id !in st.sessions then (st, false)
    else if Expired(st.sessions[id], now, cfg) then (st.(sessions := st.sessions - {id}), true)
    else (st.(sessions := st.sessions[id := Refreshed(st.sessions[id], now, cfg)]), false)
  }

  /** The second locked part of `get_active` and `heartbeat`. */
  function Current(st: Store, id: Id): Option<Lease> {
    if id in st.sessions && !st.sessions[id].revoked then Some(st.sessions[id]) else None
  }

  /** The locked part of `revoke`. */
  function Drop(st: Store, id: Id): (Store, bool) {
    if id in st.sessions then (st.(sessions := st.sessions - {id}), true) else (st, false)
  }

  /** The locked part of `scavenge`, over the dictionary's items in the order
      `listing`; the second component is `reclaimed_ids`. */
  function Sweep(st: Store, listing: seq<Id>, now: real, cfg: Config): (Store, seq<Id>)
    decreases |listing|
  {
    if listing == [] then (st, [])
    else
      var id := listing[0];
      var dropped := DropExpired(st, id, now, cfg);
      var rest := Sweep(dropped.0, listing[1..], now, cfg);
      (rest.0, if dropped.1 && !st.sessions[id].revoked then [id] + rest.1 else rest.1)
  }

  function ReleaseAll(p: Pool, ids: seq<Id>): Pool
    decreases |ids|
  {
    if ids == [] then p else ReleaseAll(Release(p, ids[0]), ids[1..])
  }

  /** The store and its pool. */
  datatype Service = Service(store: Store, pool: Pool)

  /** The public operations, each run to its end without interference. */
  datatype Op =
    | Create(id: Id, subject: string, posture: Posture, listing: seq<Id>, sweptAt: real, at: real)
    | GetActive(id: Id, at: real)
    | Heartbeat(id: Id, at: real)
    | Revoke(id: Id)
    | Scavenge(listing: seq<Id>, at: real)

  function Scavenged(v: Service, listing: seq<Id>, now: real, cfg: Config): (Service, seq<Id>) {
    var swept := Sweep(v.store, listing, now, cfg);
    (Service(swept.0, ReleaseAll(v.pool, swept.1)), swept.1)
  }

  /** The state after an operation, and the session it returns, if any. */
  function Do(v: Service, op: Op, cfg: Config): (Service, Option<Lease>) {
    match op
    case Create(id, subject, posture, listing, sweptAt, now) =>
      var clean := Scavenged(v, listing, sweptAt, cfg).0;
      var got := Allocate(clean.pool, id);
      if got.1 == None then (Service(clean.store, got.0), None)
      else
        var s := NewLease(clean.store, id, subject, posture, got.1.value, now, cfg);
        (Service(Insert(clean.store, s), got.0), Some(s))
    case GetActive(id, now) =>
      var dropped := DropExpired(v.store, id, now, cfg);
      if dropped.1 then (Service(dropped.0, Release(v.pool, id)), None) else (v, Current(v.store, id))
    case Heartbeat(id, now) =>
      var beaten := DropOrRefresh(v.store, id, now, cfg);
      if beaten.1 then (Service(beaten.0, Release(v.pool, id)), None)
      else (Service(beaten.0, v.pool), Current(beaten.0, id))
    case Revoke(id) =>
      var dropped := Drop(v.store, id);
      (Service(dropped.0, if dropped.1 then Release(v.pool, id) else v.pool), None)
    case Scavenge(listing, now) => (Scavenged(v, listing, now, cfg).0, None)
  }

  /** The entry of one id in the store. */
  function EntryOf(st: Store, id: Id): Option<Lease> { if id in st.sessions then Some(st.sessions[id]) else None }

  function UnlessExpired(s: Option<Lease>, now: real, cfg: Config): Option<Lease> {
    if s.Some? && Expired(s.value, now, cfg) then None else s
  }

  /** What an operation does to the entry of one session that it does not create. */
  function Fate(s: Option<Lease>, id: Id, op: Op, cfg: Config): Option<Lease> {
    match op
    case Create(_, _, _, _, sweptAt, _) => UnlessExpired(s, sweptAt, cfg)
    case GetActive(i, now) => if i == id then UnlessExpired(s, now, cfg) else s
    case Heartbeat(i, now) =>
      if i != id || s == None then s
      else if Expired(s.value, now, cfg) then None
      else Some(Refreshed(s.value, now, cfg))
    case Revoke(i) => if i == id then None else s
    case Scavenge(_, now) => UnlessExpired(s, now, cfg)
  }

  /** A sweep takes out, and lists, exactly the expired sessions of the listing. */
  lemma {:induction false} SweepExact(st: Store, listing: seq<Id>, now: real, cfg: Config)
    requires Distinct(listing) && forall id <- st.sessions :: !st.sessions[id].revoked
    ensures var (swept, ids) := Sweep(st, listing, now, cfg);
      && Distinct(ids) && Elements(ids) <= st.sessions.Keys && Elements(ids) <= Elements(listing)
      && swept == st.(sessions := st.sessions - Elements(ids))
      && forall id :: id in ids <==> id in listing && id in st.sessions && Expired(st.sessions[id], now, cfg)
    decreases |listing|
  {
    if listing == [] {
      assert st.sessions - {} == st.sessions;
    } else {
      var (id, tail) := (listing[0], listing[1..]);
      assert listing == [id] + tail;
      assert id !in tail;
      var dropped := DropExpired(st, id, now, cfg);
      SweepExact(dropped.0, tail, now, cfg);
      var (swept, ids) := Sweep(dropped.0, tail, now, cfg);
      if dropped.1 {
        assert Elements([id] + ids) == {id} + Elements(ids);
        assert st.sessions - Elements([id] + ids) == st.sessions - {id} - Elements(ids);
      }
    }
  }

  lemma {:induction false} SweepEntry(st: Store, listing: seq<Id>, now: real, cfg: Config, id: Id)
    requires Distinct(listing)
    ensures EntryOf(Sweep(st, listing, now, cfg).0, id) ==
      if id in listing then UnlessExpired(EntryOf(st, id), now, cfg) else EntryOf(st, id)
    decreases |listing|
  {
    if listing != [] {
      var first := listing[0];
      assert listing == [first] + listing[1..];
      assert first !in listing[1..];
      SweepEntry(DropExpired(st, first, now, cfg).0, listing[1..], now, cfg, id);
    }
  }

  predicate Listed(op: Op, v: Service) {
    (op.Create? || op.Scavenge?) ==> ListsKeys(op.listing, v.store.sessions)
  }

  /** One operation, seen from one session: `Fate` is all that happens to it. */
  lemma FateExact(v: Service, op: Op, cfg: Config, id: Id)
    requires Listed(op, v) && (op.Create? ==> op.id != id)
    ensures EntryOf(Do(v, op, cfg).0.store, id) == Fate(EntryOf(v.store, id), id, op, cfg)
  {
    if op.Create? || op.Scavenge? {
      assert id in op.listing <==> id in Elements(op.listing);
      SweepEntry(v.store, op.listing, if op.Create? then op.sweptAt else op.at, cfg, id);
    }
  }

  /** Clock readings of an operation: each at or after the last one. */
  predicate After(op: Op, last: real) {
    match op
    case Create(_, _, _, _, sweptAt, now) => last <= sweptAt <= now
    case GetActive(_, now) => last <= now
    case Heartbeat(_, now) => last <= now
    case Revoke(_) => true
    case Scavenge(_, now) => last <= now
  }

  function ClockAfter(op: Op, last: real): real { if op.Revoke? then last else op.at }

  /** A run of operations on a store that already holds the session, none of
      which creates it again or revokes it, under a clock that never goes back. */
  ghost predicate UnrevokedRun(v: Service, ops: seq<Op>, id: Id, last: real, cfg: Config)
    decreases |ops|
  {
    ops == [] || (
      && Listed(ops[0], v) && After(ops[0], last)
      && (ops[0].Create? || ops[0].Revoke? ==> ops[0].id != id)
      && UnrevokedRun(Do(v, ops[0], cfg).0, ops[1..], id, ClockAfter(ops[0], last), cfg))
  }

  function Final(v: Service, ops: seq<Op>, cfg: Config): Service
    decreases |ops|
  {
    if ops == [] then v else Final(Do(v, ops[0], cfg).0, ops[1..], cfg)
  }

  function FinalClock(ops: seq<Op>, last: real): real
    decreases |ops|
  {
    if ops == [] then last else FinalClock(ops[1..], ClockAfter(ops[0], last))
  }

  /** The times of the heartbeats for one session. */
  function Beats(ops: seq<Op>, id: Id): seq<real>
    decreases |ops|
  {
    if ops == [] then []
    else if ops[0].Heartbeat? && ops[0].id == id then [ops[0].at] + Beats(ops[1..], id)
    else Beats(ops[1..], id)
  }

  /** From `since`, through every beat, up to `until`, no gap is over `idle`. */
  predicate NoLongGap(since: real, beats: seq<real>, until: real, idle: real)
    decreases |beats|
  {
    if beats == [] then until - since <= idle
    else beats[0] - since <= idle && NoLongGap(beats[0], beats[1..], until, idle)
  }

  /** The entry of a live session whose last heartbeat, or creation, was at `seen`. */
  predicate Live(s: Option<Lease>, seen: real, absolute: real, cfg: Config) {
    s.Some? && !s.value.revoked && s.value.lastSeen == seen && s.value.absoluteExpiresAt == absolute
    && s.value.expiresAt == Min(seen + cfg.ttl, absolute)
  }

  /** With `expires_at = min(last_seen + ttl, absolute)` the four-way test is this one. */
  lemma ExpiryTest(s: Lease, now: real, cfg: Config)
    requires ValidConfig(cfg) && Live(Some(s), s.lastSeen, s.absoluteExpiresAt, cfg)
    ensures Expired(s, now, cfg) <==> now > Min(s.lastSeen + cfg.idle, s.absoluteExpiresAt)
  {
  }

  lemma {:induction false} DeadStaysDead(v: Service, ops: seq<Op>, id: Id, last: real, cfg: Config)
    requires UnrevokedRun(v, ops, id, last, cfg) && EntryOf(v.store, id) == None
    ensures EntryOf(Final(v, ops, cfg).store, id) == None
    decreases |ops|
  {
    if ops != [] {
      FateExact(v, ops[0], cfg, id);
      DeadStaysDead(Do(v, ops[0], cfg).0, ops[1..], id, ClockAfter(ops[0], last), cfg);
    }
  }

  lemma {:induction false} FinalClockLater(v: Service, ops: seq<Op>, id: Id, last: real, cfg: Config)
    requires UnrevokedRun(v, ops, id, last, cfg)
    ensures FinalClock(ops, last) >= last
    decreases |ops|
  {
    if ops != [] {
      FinalClockLater(Do(v, ops[0], cfg).0, ops[1..], id, ClockAfter(ops[0], last), cfg);
    }
  }

  /** A gap that was too long at some time is too long ever after. */
  lemma {:induction false} LongGapStays(v: Service, ops: seq<Op>, id: Id, last: real, cfg: Config, since: real, until: real)
    requires UnrevokedRun(v, ops, id, last, cfg)
    requires last - since > cfg.idle && until >= FinalClock(ops, last)
    ensures !NoLongGap(since, Beats(ops, id), until, cfg.idle)
    decreases |ops|
  {
    FinalClockLater(v, ops, id, last, cfg);
    if ops != [] && !(ops[0].Heartbeat? && ops[0].id == id) {
      LongGapStays(Do(v, ops[0], cfg).0, ops[1..], id, ClockAfter(ops[0], last), cfg, since, until);
    }
  }

  /** The lifetime of a session, over any run: a look at time `until` finds it
      exactly when no gap between successive heartbeats, nor up to the look, was
      over the idle limit, and the absolute limit has not passed. */
  lemma {:induction false} LifetimeExact(
    v: Service, ops: seq<Op>, id: Id, last: real, cfg: Config, seen: real, absolute: real, until: real)
    requires ValidConfig(cfg) && UnrevokedRun(v, ops, id, last, cfg)
    requires Live(EntryOf(v.store, id), seen, absolute, cfg) && seen <= last
    requires until >= FinalClock(ops, last)
    ensures UnlessExpired(EntryOf(Final(v, ops, cfg).store, id), until, cfg).Some? <==>
      NoLongGap(seen, Beats(ops, id), until, cfg.idle) && until <= absolute
    decreases |ops|
  {
    var s := EntryOf(v.store, id);
    if ops == [] {
      ExpiryTest(s.value, until, cfg);
    } else {
      var (op, next) := (ops[0], Do(v, ops[0], cfg).0);
      var clock := ClockAfter(op, last);
      FateExact(v, op, cfg, id);
      FinalClockLater(next, ops[1..], id, clock, cfg);
      if EntryOf(next.store, id) == None {
        DeadStaysDead(next, ops[1..], id, clock, cfg);
        ExpiryTest(s.value, if op.Create? then op.sweptAt else op.at, cfg);
        if !(op.Heartbeat? && op.id == id) && clock - seen > cfg.idle {
          LongGapStays(next, ops[1..], id, clock, cfg, seen, until);
        }
      } else if op.Heartbeat? && op.id == id {
        LifetimeExact(next, ops[1..], id, clock, cfg, op.at, absolute, until);
      } else {
        LifetimeExact(next, ops[1..], id, clock, cfg, seen, absolute, until);
      }
    }
  }

  /** The same from the creation of the session: what `get_active` answers. */
  lemma CreatedLifetime(v: Service, create: Op, ops: seq<Op>, last: real, cfg: Config, until: real)
    requires ValidConfig(cfg) && create.Create? && Listed(create, v) && After(create, last)
    requires Do(v, create, cfg).1.Some?
    requires UnrevokedRun(Do(v, create, cfg).0, ops, create.id, create.at, cfg)
    requires until >= FinalClock(ops, create.at)
    ensures Do(Final(Do(v, create, cfg).0, ops, cfg), GetActive(create.id, until), cfg).1.Some? <==>
      NoLongGap(create.at, Beats(ops, create.id), until, cfg.idle) && until <= create.at + cfg.absoluteTtl
  {
    var (first, id) := (Do(v, create, cfg).0, create.id);
    LifetimeExact(first, ops, id, create.at, cfg, create.at, create.at + cfg.absoluteTtl, until);
    NeverRevokedInside(first, ops, id, create.at, cfg);
  }

  lemma {:induction false} NeverRevokedInside(v: Service, ops: seq<Op>, id: Id, last: real, cfg: Config)
    requires UnrevokedRun(v, ops, id, last, cfg)
    requires EntryOf(v.store, id).Some? ==> !EntryOf(v.store, id).value.revoked
    ensures var s := EntryOf(Final(v, ops, cfg).store, id); s.Some? ==> !s.value.revoked
    decreases |ops|
  {
    if ops != [] {
      FateExact(v, ops[0], cfg, id);
      NeverRevokedInside(Do(v, ops[0], cfg).0, ops[1..], id, ClockAfter(ops[0], last), cfg);
    }
  }
}
