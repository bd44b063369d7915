/** `SessionStore` as the object it is: a table of shared, mutable sessions, each
    public method proved against the value-level operation of `Sessions`. */
module SessionStores {
  import opened Wrappers
  import opened Collections
  import opened Ipv4
  import opened Pools
  import opened Sessions

  class Session {
    const id: Id
    const subject: string
    const posture: Posture
    const virtualIp: Addr
    const generation: nat
    const absoluteExpiresAt: real
    var expiresAt: real
    var lastSeen: real
    var revoked: bool

    function Value(): Lease
      reads this
    {
      Lease(id, subject, posture, virtualIp, generation, expiresAt, absoluteExpiresAt, lastSeen, revoked)
    }

    constructor (s: Lease)
      ensures Value() == s
    {
      id, subject, posture, virtualIp, generation := s.id, s.subject, s.posture, s.virtualIp, s.generation;
      expiresAt, absoluteExpiresAt, lastSeen, revoked := s.expiresAt, s.absoluteExpiresAt, s.lastSeen, s.revoked;
    }
  }

  class SessionStore {
    const pool: VirtualIPPool
    const cfg: Config
    var sessions: map<Id, Session>
    var leaseGeneration: nat

    /** Every session is filed under its own id, so no two ids share a session. */
    ghost predicate Valid()
      reads this, sessions.Values
    {
      forall id <- sessions :: sessions[id].id == id
    }

    function StoreView(): Store
      reads this, sessions.Values
    {
      Store(map id | id in sessions :: sessions[id].Value(), leaseGeneration)
    }

    function View(): Service
      reads this, sessions.Values, pool
    {
      Service(StoreView(), pool.State())
    }

    constructor (pool: VirtualIPPool, cfg: Config)
      requires ValidConfig(cfg)
      ensures Valid() && this.pool == pool && this.cfg == cfg && View() == Service(NO_SESSIONS, pool.State())
    {
      this.pool, this.cfg := pool, cfg;
      sessions, leaseGeneration := map[], 0;
    }

    /** Takes an expired session out of the table, marks it, and says so. */
    method TakeOut(id: Id)
      requires Valid() && id in sessions
      modifies this`sessions, sessions[id]
      ensures Valid() && sessions == old(sessions) - {id} && old(sessions)[id].revoked
      ensures StoreView() == old(StoreView()).(sessions := old(StoreView()).sessions - {id})
    {
      var session := sessions[id];
      session.revoked := true;
      sessions := sessions - {id};
    }

    method GetActive(id: Id, now: real) returns (found: Session?)
      requires Valid()
      modifies this`sessions, sessions.Values, pool
      ensures Valid() && sessions.Values <= old(sessions.Values)
      ensures (View(), if found == null then None else Some(found.Value())) ==
              Do(old(View()), Op.GetActive(id, now), cfg)
      ensures found != null ==> found in sessions.Values
    {
      var release := false;
      if id in sessions && Expired(sessions[id].Value(), now, cfg) {
        TakeOut(id);
        release := true;
      }
      if release {
        pool.ReleaseOf(id);
        return null;
      }
      if id !in sessions || sessions[id].revoked { return null; }
      return sessions[id];
    }

    method Heartbeat(id: Id, now: real) returns (found: Session?)
      requires Valid()
      modifies this`sessions, sessions.Values, pool
      ensures Valid() && sessions.Values <= old(sessions.Values)
      ensures (View(), if found == null then None else Some(found.Value())) ==
              Do(old(View()), Op.Heartbeat(id, now), cfg)
      ensures found != null ==> found in sessions.Values
    {
      var release := false;
      if id in sessions {
        var session := sessions[id];
        if Expired(session.Value(), now, cfg) {
          TakeOut(id);
          release := true;
        } else {
          session.lastSeen := now;
          session.expiresAt := Min(now + cfg.ttl, session.absoluteExpiresAt);
          assert StoreView().sessions == old(StoreView()).sessions[id := session.Value()];
        }
      }
      if release {
        pool.ReleaseOf(id);
        return null;
      }
      if id !in sessions || sessions[id].revoked { return null; }
      return sessions[id];
    }

    method Revoke(id: Id) returns (found: bool)
      requires Valid()
      modifies this`sessions, sessions.Values, pool
      ensures Valid() && sessions.Values <= old(sessions.Values)
      ensures View() == Do(old(View()), Op.Revoke(id), cfg).0 && found == (id in old(sessions))
    {
      if id !in sessions { return false; }
      TakeOut(id);
      pool.ReleaseOf(id);
      return true;
    }

    /** The locked part of `scavenge`; `listing` is the order in which the
        dictionary yields its items. */
    method SweepTable(listing: seq<Id>, now: real) returns (reclaimed: seq<Id>)
      requires Valid()
      modifies this`sessions, sessions.Values
      ensures Valid() && sessions.Values <= old(sessions.Values)
      ensures (StoreView(), reclaimed) == Sweep(old(StoreView()), listing, now, cfg)
    {
      reclaimed := [];
      ghost var whole := Sweep(StoreView(), listing, now, cfg);
      JoinNothing(whole);
      assert listing[0..] == listing;
      for i := 0 to |listing|
        invariant Valid() && sessions.Values <= old(sessions.Values)
        invariant whole == Join(reclaimed, Sweep(StoreView(), listing[i..], now, cfg))
      {
        var id := listing[i];
        assert listing[i..] == [id] + listing[i + 1..];
        SweepFirst(StoreView(), id, listing[i + 1..], now, cfg, reclaimed);
        if id in sessions && Expired(sessions[id].Value(), now, cfg) {
          var unrevoked := !sessions[id].revoked;
          TakeOut(id);
          if unrevoked {
            reclaimed := reclaimed + [id];
          }
        }
      }
      assert listing[|listing|..] == [];
      assert reclaimed + [] == reclaimed;
    }

    method ReleaseEach(ids: seq<Id>)
      modifies pool
      ensures pool.State() == ReleaseAll(old(pool.State()), ids)
    {
      for i := 0 to |ids|
        invariant ReleaseAll(old(pool.State()), ids) == ReleaseAll(pool.State(), ids[i..])
      {
        assert ids[i..][0] == ids[i] && ids[i..][1..] == ids[i + 1..];
        pool.ReleaseOf(ids[i]);
      }
    }

    method Scavenge(listing: seq<Id>, now: real) returns (count: nat)
      requires Valid() && ListsKeys(listing, StoreView().sessions)
      modifies this`sessions, sessions.Values, pool
      ensures Valid() && sessions.Values <= old(sessions.Values)
      ensures View() == Scavenged(old(View()), listing, now, cfg).0
      ensures count == |Scavenged(old(View()), listing, now, cfg).1|
    {
      hide Sweep, ReleaseAll;
      var reclaimed := SweepTable(listing, now);
      ReleaseEach(reclaimed);
      return |reclaimed|;
    }

    /** The locked part of `create`. */
    method InsertNew(s: Lease) returns (session: Session)
      requires Valid() && s.generation == leaseGeneration + 1
      modifies this
      ensures Valid() && fresh(session) && session in sessions.Values && session.Value() == s
      ensures sessions == old(sessions)[s.id := session]
      ensures StoreView() == Insert(old(StoreView()), s)
    {
      leaseGeneration := leaseGeneration + 1;
      session := new Session(s);
      sessions := sessions[s.id := session];
      assert sessions[s.id] == session;
      assert StoreView().sessions == old(StoreView()).sessions[s.id := s];
    }

    /** `id` is the fresh random id; a null result is the exhausted pool. */
    method Create(id: Id, subject: string, posture: Posture, listing: seq<Id>, sweptAt: real, now: real)
      returns (created: Session?)
      requires Valid() && ListsKeys(listing, StoreView().sessions)
      modifies this, sessions.Values, pool
      ensures Valid() && fresh(sessions.Values - old(sessions.Values))
      ensures (View(), if created == null then None else Some(created.Value())) ==
              Do(old(View()), Op.Create(id, subject, posture, listing, sweptAt, now), cfg)
      ensures created != null ==> fresh(created) && created in sessions.Values
    {
      hide Sweep, ReleaseAll, Allocate, Insert;
      var _ := Scavenge(listing, sweptAt);
      var address := pool.AllocateFor(id);
      if address == None { return null; }
      var s := Lease(id, subject, posture, address.value, leaseGeneration + 1,
                     now + cfg.ttl, now + cfg.absoluteTtl, now, false);
      created := InsertNew(s);
    }
  }

  function Join(ids: seq<Id>, r: (Store, seq<Id>)): (Store, seq<Id>) { (r.0, ids + r.1) }

  lemma JoinNothing(r: (Store, seq<Id>))
    ensures Join([], r) == r
  {
    assert [] + r.1 == r.1;
  }

  lemma SweepFirst(st: Store, id: Id, rest: seq<Id>, now: real, cfg: Config, ids: seq<Id>)
    ensures Join(ids, Sweep(st, [id] + rest, now, cfg)) ==
      var dropped := DropExpired(st, id, now, cfg);
      var taken := dropped.1 && !st.sessions[id].revoked;
      Join(if taken then ids + [id] else ids, Sweep(dropped.0, rest, now, cfg))
  {
    assert ([id] + rest)[1..] == rest;
    var later := Sweep(DropExpired(st, id, now, cfg).0, rest, now, cfg).1;
    assert ids + ([id] + later) == ids + [id] + later;
  }
}
