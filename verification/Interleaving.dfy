/** The session store and the address pool under threads. Each has its own lock,
    so an operation is a chain of regions, and anything may run between two. */
module Interleaving {
  import opened Wrappers
  import opened Collections
  import opened Ipv4
  import opened Pools
  import opened Sessions

  /** Where a thread stands between two regions, with its local variables. */
  datatype Pc =
    | Idle
    | Reclaiming(ids: seq<Id>, creating: bool)              // scavenge has taken these out; on its own or for create
    | Allocating                                            // create, swept
    | Inserting(id: Id, address: Addr, now: real)           // create, holding an address
    | Releasing(id: Id)                                     // get_active, heartbeat, revoke: taken out
    | Rereading(id: Id)                                     // get_active, heartbeat: still there

  /** The shared state and the threads, and for the proofs only: the ids drawn,
      the addresses leased, the sessions inserted and the ids released, in order. */
  datatype World = World(
    store: Store, pool: Pool, threads: map<nat, Pc>,
    drawn: set<Id>, leased: seq<(Id, Addr)>, inserted: seq<Lease>, freed: seq<Id>)

  datatype Action =
    | SweepStep(t: nat, listing: seq<Id>, now: real, creating: bool)
    | ReclaimStep(t: nat)
    | SweptStep(t: nat)
    | AllocateStep(t: nat, id: Id, now: real)
    | InsertStep(t: nat, subject: string, posture: Posture)
    | LookStep(t: nat, id: Id, now: real)
    | BeatStep(t: nat, id: Id, now: real)
    | RevokeStep(t: nat, id: Id)
    | ReleaseStep(t: nat)
    | RereadStep(t: nat)

  function PcOf(w: World, t: nat): Pc { if t in w.threads then w.threads[t] else Idle }

  /** A thread may take a region it has come to; session ids are never drawn twice. */
  predicate Enabled(w: World, a: Action) {
    var pc := PcOf(w, a.t);
    match a
    case SweepStep(_, listing, _, _) => pc.Idle? && ListsKeys(listing, w.store.sessions)
    case ReclaimStep(_) => pc.Reclaiming? && pc.ids != []
    case SweptStep(_) => pc.Reclaiming? && pc.ids == []
    case AllocateStep(_, id, _) => pc.Allocating? && id !in w.drawn
    case InsertStep(_, _, _) => pc.Inserting?
    case LookStep(_, _, _) => pc.Idle?
    case BeatStep(_, _, _) => pc.Idle?
    case RevokeStep(_, _) => pc.Idle?
    case ReleaseStep(_) => pc.Releasing?
    case RereadStep(_) => pc.Rereading?
  }

  function Next(w: World, a: Action, cfg: Config): World
    requires Enabled(w, a)
  {
    var pc := PcOf(w, a.t);
    match a
    case SweepStep(t, listing, now, creating) =>
      var swept := Sweep(w.store, listing, now, cfg);
      w.(store := swept.0, threads := w.threads[t := Reclaiming(swept.1, creating)])
    case ReclaimStep(t) =>
      w.(pool := Release(w.pool, pc.ids[0]), freed := w.freed + [pc.ids[0]],
         threads := w.threads[t := Reclaiming(pc.ids[1..], pc.creating)])
    case SweptStep(t) =>
      w.(threads := w.threads[t := if pc.creating then Allocating else Idle])
    case AllocateStep(t, id, now) =>
      var got := Allocate(w.pool, id);
      if got.1 == None then w.(drawn := w.drawn + {id}, threads := w.threads[t := Idle])
      else
        w.(pool := got.0, drawn := w.drawn + {id}, leased := w.leased + [(id, got.1.value)],
           threads := w.threads[t := Inserting(id, got.1.value, now)])
    case InsertStep(t, subject, posture) =>
      var s := NewLease(w.store, pc.id, subject, posture, pc.address, pc.now, cfg);
      w.(store := Insert(w.store, s), inserted := w.inserted + [s], threads := w.threads[t := Idle])
    case LookStep(t, id, now) =>
      var dropped := DropExpired(w.store, id, now, cfg);
      w.(store := dropped.0, threads := w.threads[t := if dropped.1 then Releasing(id) else Rereading(id)])
    case BeatStep(t, id, now) =>
      var beaten := DropOrRefresh(w.store, id, now, cfg);
      w.(store := beaten.0, threads := w.threads[t := if beaten.1 then Releasing(id) else Rereading(id)])
    case RevokeStep(t, id) =>
      var dropped := Drop(w.store, id);
      w.(store := dropped.0, threads := w.threads[t := if dropped.1 then Releasing(id) else Idle])
    case ReleaseStep(t) =>
      w.(pool := Release(w.pool, pc.id), freed := w.freed + [pc.id], threads := w.threads[t := Idle])
    case RereadStep(t) =>
      w.(threads := w.threads[t := Idle])
  }

  /** The ids a thread has yet to insert or to release. */
  function Pending(pc: Pc): seq<Id> {
    match pc
    case Reclaiming(ids, _) => ids
    case Inserting(id, _, _) => [id]
    case Releasing(id) => [id]
    case _ => []
  }

  predicate Pends(w: World, t: nat, id: Id) { id in Pending(PcOf(w, t)) }

  /** Every id in the pool is in the store or in the hands of exactly one thread. */
  ghost predicate Owned(w: World) {
    && (forall t :: Distinct(Pending(PcOf(w, t))))
    && (forall t, id :: Pends(w, t, id) ==> id in w.pool.inUse && id !in w.store.sessions)
    && (forall t, u, id :: Pends(w, t, id) && Pends(w, u, id) ==> t == u)
    && (forall id <- w.pool.inUse :: id in w.store.sessions || Held(w, id))
    && (forall id <- w.store.sessions :: Stored(w, id))
    && (forall t :: Carries(w, t))
  }

  ghost predicate Held(w: World, id: Id) { exists t :: Pends(w, t, id) }

  predicate Stored(w: World, id: Id)
    requires id in w.store.sessions
  {
    var s := w.store.sessions[id];
    id in w.pool.inUse && s.virtualIp == w.pool.inUse[id] && s.id == id && !s.revoked
  }

  predicate Carries(w: World, t: nat) {
    var pc := PcOf(w, t);
    pc.Inserting? ==> pc.id in w.pool.inUse && w.pool.inUse[pc.id] == pc.address
  }

  /** The lease log, oldest lease first. Ids are new; of the leases of one address
      only the last can be in use; a lease out of use has been released, once. */
  predicate InUseLeased(inUse: map<Id, Addr>, leased: seq<(Id, Addr)>) {
    forall id <- inUse :: (id, inUse[id]) in leased
  }

  predicate NewIds(leased: seq<(Id, Addr)>) {
    forall i, j | 0 <= i < j < |leased| :: leased[i].0 != leased[j].0
  }

  predicate OnlyLastInUse(leased: seq<(Id, Addr)>, inUse: map<Id, Addr>) {
    forall i, j | 0 <= i < j < |leased| :: leased[i].1 == leased[j].1 ==> leased[i].0 !in inUse
  }

  ghost predicate Logged(w: World) {
    && InUseLeased(w.pool.inUse, w.leased) && NewIds(w.leased) && OnlyLastInUse(w.leased, w.pool.inUse)
    && (forall e <- w.leased :: e.0 in w.drawn && (e.0 in w.pool.inUse || e.0 in w.freed))
    && Distinct(w.freed)
    && (forall id <- w.freed :: id in w.drawn && id !in w.pool.inUse)
  }

  predicate SameGrant(s: Lease, r: Lease) {
    s.id == r.id && s.subject == r.subject && s.posture == r.posture
    && s.virtualIp == r.virtualIp && s.generation == r.generation
  }

  predicate NotInserted(inserted: seq<Lease>, id: Id) { forall s <- inserted :: s.id != id }

  predicate InsertedBefore(inserted: seq<Lease>, x: Id, y: Id) {
    forall k, l | 0 <= k < |inserted| && 0 <= l < |inserted| :: inserted[k].id == x && inserted[l].id == y ==> k < l
  }

  /** Leases of one address are inserted in the order they were taken. */
  predicate LeaseOrder(leased: seq<(Id, Addr)>, inserted: seq<Lease>) {
    forall i, j | 0 <= i < j < |leased| :: leased[i].1 == leased[j].1 ==>
      InsertedBefore(inserted, leased[i].0, leased[j].0)
  }

  predicate Generations(inserted: seq<Lease>) {
    forall k | 0 <= k < |inserted| :: inserted[k].generation == k + 1
  }

  predicate InsertedOnce(inserted: seq<Lease>) {
    forall k, l | 0 <= k < l < |inserted| :: inserted[k].id != inserted[l].id
  }

  predicate Inserted(inserted: seq<Lease>, s: Lease) { exists r <- inserted :: SameGrant(r, s) }

  /** The insertion log: generations count insertions, and a session in the store
      is one that was inserted. */
  ghost predicate Counted(w: World) {
    && |w.inserted| == w.store.generation && Generations(w.inserted) && InsertedOnce(w.inserted)
    && (forall s <- w.inserted :: (s.id, s.virtualIp) in w.leased)
    && (forall id <- w.store.sessions :: Inserted(w.inserted, w.store.sessions[id]))
    && (forall t :: PcOf(w, t).Inserting? ==> NotInserted(w.inserted, PcOf(w, t).id))
    && LeaseOrder(w.leased, w.inserted)
  }

  ghost predicate Invariant(w: World, hosts: set<Addr>) {
    Partition(w.pool, hosts) && Owned(w) && Logged(w) && Counted(w)
  }

  function Start(hosts: seq<Addr>): World { World(NO_SESSIONS, Pool(hosts, map[], {}), map[], {}, [], [], []) }

  /** A thread moves, the others stay. */
  predicate Moved(w: World, v: World, t: nat, pc: Pc) { v.threads == w.threads[t := pc] }

  lemma PcAfter(w: World, v: World, t: nat, pc: Pc, u: nat)
    requires Moved(w, v, t, pc)
    ensures PcOf(v, u) == if u == t then pc else PcOf(w, u)
  {
  }

  /** What a region that takes sessions out of the store keeps. */
  lemma TakeOutKeepsOwned(w: World, v: World, t: nat, ids: seq<Id>, pc: Pc)
    requires Owned(w) && Moved(w, v, t, pc) && v.pool == w.pool
    requires Pending(PcOf(w, t)) == [] && Pending(pc) == ids && !pc.Inserting?
    requires Distinct(ids) && Elements(ids) <= w.store.sessions.Keys
    requires v.store.sessions == w.store.sessions - Elements(ids)
    ensures Owned(v)
  {
    forall u ensures PcOf(v, u) == if u == t then pc else PcOf(w, u) {
      PcAfter(w, v, t, pc, u);
    }
    forall u, id ensures Pends(v, u, id) <==> (u == t && id in ids) || (u != t && Pends(w, u, id)) {
    }
    assert forall id <- ids :: id in Elements(ids);
    forall id <- v.pool.inUse | id !in v.store.sessions ensures Held(v, id) {
      if id in w.store.sessions {
        assert Pends(v, t, id);
      } else {
        var u :| Pends(w, u, id);
        assert Pends(v, u, id);
      }
    }
    forall id <- v.store.sessions ensures Stored(v, id) {
      assert Stored(w, id);
    }
    forall u ensures Carries(v, u) {
      assert Carries(w, u);
    }
  }

  /** The thread that releases `id` is the only one that pends it, and drops it. */
  lemma ReleasePends(w: World, v: World, t: nat, id: Id, pc: Pc)
    requires Owned(w) && Moved(w, v, t, pc) && Pending(PcOf(w, t)) == [id] + Pending(pc)
    ensures forall u :: Distinct(Pending(PcOf(v, u)))
    ensures forall u, j :: Pends(v, u, j) <==> Pends(w, u, j) && j != id
    ensures id in w.pool.inUse && id !in w.store.sessions
  {
    assert Pends(w, t, id);
    var all := Pending(PcOf(w, t));
    assert Distinct(all) && all[0] == id && forall i | 0 <= i < |Pending(pc)| :: all[i + 1] == Pending(pc)[i];
    forall u ensures PcOf(v, u) == if u == t then pc else PcOf(w, u) {
      PcAfter(w, v, t, pc, u);
    }
    forall u, j ensures Pends(v, u, j) <==> Pends(w, u, j) && j != id {
      assert Pends(w, u, id) ==> u == t;
    }
  }

  lemma HeldUnless(w: World, v: World, id: Id)
    requires forall u, j :: Pends(v, u, j) <==> Pends(w, u, j) && j != id
    requires v.store == w.store && v.pool.inUse == w.pool.inUse - {id}
    requires forall j <- w.pool.inUse :: j in w.store.sessions || Held(w, j)
    ensures forall j <- v.pool.inUse :: j in v.store.sessions || Held(v, j)
  {
    hide Pends;
    forall j <- v.pool.inUse | j !in v.store.sessions ensures Held(v, j) {
      var u :| Pends(w, u, j);
      assert Pends(v, u, j);
    }
  }

  lemma CarriesUnless(w: World, v: World, t: nat, id: Id, pc: Pc, u: nat)
    requires Moved(w, v, t, pc) && !pc.Inserting? && Carries(w, u)
    requires forall j :: Pends(v, u, j) <==> Pends(w, u, j) && j != id
    requires v.pool.inUse == w.pool.inUse - {id}
    ensures Carries(v, u)
  {
    PcAfter(w, v, t, pc, u);
    assert PcOf(v, u).Inserting? ==> Pends(v, u, PcOf(v, u).id);
  }

  lemma ReleaseKeepsOwned(w: World, v: World, t: nat, id: Id, pc: Pc)
    requires Owned(w) && Moved(w, v, t, pc) && v.store == w.store && v.pool == Release(w.pool, id)
    requires Pending(PcOf(w, t)) == [id] + Pending(pc) && !pc.Inserting? && !PcOf(w, t).Inserting?
    ensures Owned(v) && v.pool.inUse == w.pool.inUse - {id} && id in w.pool.inUse
  {
    ReleasePends(w, v, t, id, pc);
    assert v.pool.inUse == w.pool.inUse - {id};
    hide Release, Distinct, Held, Pends, Pending, Carries;
    HeldUnless(w, v, id);
    forall u ensures Carries(v, u) {
      CarriesUnless(w, v, t, id, pc, u);
    }
    forall j <- v.store.sessions ensures Stored(v, j) {
      assert Stored(w, j);
    }
  }

  lemma AllocateKeepsOwned(w: World, v: World, t: nat, id: Id, a: Addr, pc: Pc)
    requires Owned(w) && Moved(w, v, t, pc) && v.store == w.store
    requires id !in w.pool.inUse && v.pool.inUse == w.pool.inUse[id := a]
    requires Pending(PcOf(w, t)) == [] && pc.Inserting? && pc.id == id && pc.address == a
    ensures Owned(v)
  {
    forall u ensures PcOf(v, u) == if u == t then pc else PcOf(w, u) {
      PcAfter(w, v, t, pc, u);
    }
    forall u, j ensures Pends(v, u, j) <==> (u == t && j == id) || Pends(w, u, j) {
    }
    forall j <- v.pool.inUse | j !in v.store.sessions ensures Held(v, j) {
      if j == id {
        assert Pends(v, t, j);
      } else {
        var u :| Pends(w, u, j);
        assert Pends(v, u, j);
      }
    }
    forall j <- v.store.sessions ensures Stored(v, j) {
      assert Stored(w, j);
    }
    forall u ensures Carries(v, u) {
      assert Carries(w, u);
    }
  }

  lemma InsertKeepsOwned(w: World, v: World, t: nat, s: Lease)
    requires Owned(w) && Moved(w, v, t, Idle) && v.pool == w.pool
    requires PcOf(w, t).Inserting? && s.id == PcOf(w, t).id && s.virtualIp == PcOf(w, t).address && !s.revoked
    requires v.store.sessions == w.store.sessions[s.id := s]
    ensures Owned(v)
  {
    assert Pends(w, t, s.id) && Carries(w, t);
    forall u ensures PcOf(v, u) == if u == t then Idle else PcOf(w, u) {
      PcAfter(w, v, t, Idle, u);
    }
    forall u, j ensures Pends(v, u, j) <==> Pends(w, u, j) && j != s.id {
      assert Pends(w, u, s.id) ==> u == t;
    }
    forall j <- v.pool.inUse | j !in v.store.sessions ensures Held(v, j) {
      var u :| Pends(w, u, j);
      assert Pends(v, u, j);
    }
    forall j <- v.store.sessions ensures Stored(v, j) {
      assert j != s.id ==> Stored(w, j);
    }
    forall u ensures Carries(v, u) {
      assert Carries(w, u);
    }
  }

  /** A region that leaves addresses and ownership alone; it may refresh a session. */
  lemma QuietKeepsOwned(w: World, v: World, t: nat, pc: Pc)
    requires Owned(w) && Moved(w, v, t, pc) && v.pool == w.pool
    requires Pending(PcOf(w, t)) == [] == Pending(pc)
    requires v.store.sessions.Keys == w.store.sessions.Keys
    requires forall id <- v.store.sessions ::
      SameGrant(v.store.sessions[id], w.store.sessions[id]) && !v.store.sessions[id].revoked
    ensures Owned(v)
  {
    forall u ensures PcOf(v, u) == if u == t then pc else PcOf(w, u) {
      PcAfter(w, v, t, pc, u);
    }
    forall u, j ensures Pends(v, u, j) <==> Pends(w, u, j) {
    }
    forall j <- v.pool.inUse | j !in v.store.sessions ensures Held(v, j) {
      var u :| Pends(w, u, j);
      assert Pends(v, u, j);
    }
    forall j <- v.store.sessions ensures Stored(v, j) {
      assert Stored(w, j);
    }
    forall u ensures Carries(v, u) {
      assert Carries(w, u);
    }
  }

  lemma ReleaseKeepsLogged(w: World, v: World, id: Id)
    requires Logged(w) && id in w.pool.inUse && v.pool.inUse == w.pool.inUse - {id}
    requires v.leased == w.leased && v.drawn == w.drawn && v.freed == w.freed + [id]
    ensures Logged(v)
  {
    assert forall f <- v.freed :: f in w.freed || f == id;
    assert v.freed[|w.freed|] == id && forall f <- w.freed :: f in v.freed;
  }

  /** A new lease of an address nobody holds. */
  lemma NewLeaseLogged(leased: seq<(Id, Addr)>, inUse: map<Id, Addr>, id: Id, a: Addr)
    requires InUseLeased(inUse, leased) && NewIds(leased) && OnlyLastInUse(leased, inUse)
    requires a !in inUse.Values && forall e <- leased :: e.0 != id
    ensures var (more, used) := (leased + [(id, a)], inUse[id := a]);
      InUseLeased(used, more) && NewIds(more) && OnlyLastInUse(more, used)
  {
    var (more, used) := (leased + [(id, a)], inUse[id := a]);
    assert more[|leased|] == (id, a);
    forall i | 0 <= i < |leased|
      ensures more[i] == leased[i] && more[i].0 != id && (more[i].1 == a ==> more[i].0 !in used)
    {
      assert leased[i] in leased;
      var j := leased[i].0;
      if j in inUse {
        assert (j, inUse[j]) in leased;
        var k :| 0 <= k < |leased| && leased[k] == (j, inUse[j]);
        assert k == i;
      }
    }
    assert forall e <- leased :: e in more;
  }

  lemma AllocateKeepsLogged(w: World, v: World, hosts: set<Addr>, id: Id)
    requires Logged(w) && Partition(w.pool, hosts) && id !in w.drawn && w.pool.available != []
    requires var a := w.pool.available[0];
      v.pool.inUse == w.pool.inUse[id := a] && v.leased == w.leased + [(id, a)]
    requires v.drawn == w.drawn + {id} && v.freed == w.freed
    ensures Logged(v)
  {
    var a := w.pool.available[0];
    hide InUseLeased, NewIds, OnlyLastInUse;
    assert a in Elements(w.pool.available);
    NewLeaseLogged(w.leased, w.pool.inUse, id, a);
  }

  lemma LeaseOrderNewLease(leased: seq<(Id, Addr)>, inserted: seq<Lease>, id: Id, a: Addr)
    requires LeaseOrder(leased, inserted) && NotInserted(inserted, id)
    ensures LeaseOrder(leased + [(id, a)], inserted)
  {
    var more := leased + [(id, a)];
    forall i, j | 0 <= i < j < |more| && more[i].1 == more[j].1
      ensures InsertedBefore(inserted, more[i].0, more[j].0)
    {
      if j < |leased| {
        assert InsertedBefore(inserted, leased[i].0, leased[j].0);
      } else {
        assert forall l | 0 <= l < |inserted| :: inserted[l] in inserted;
      }
    }
  }

  /** Inserting a session whose address it alone holds keeps the order: an earlier
      lease of the address is out of use, so it is not the one inserted now. */
  lemma LeaseOrderInserted(leased: seq<(Id, Addr)>, inserted: seq<Lease>, inUse: map<Id, Addr>, s: Lease)
    requires LeaseOrder(leased, inserted) && NewIds(leased) && OnlyLastInUse(leased, inUse) && s.id in inUse
    ensures LeaseOrder(leased, inserted + [s])
  {
    var more := inserted + [s];
    forall i, j | 0 <= i < j < |leased| && leased[i].1 == leased[j].1
      ensures InsertedBefore(more, leased[i].0, leased[j].0)
    {
      assert InsertedBefore(inserted, leased[i].0, leased[j].0);
      assert leased[i].0 != s.id && leased[i].0 != leased[j].0;
      assert forall k | 0 <= k < |inserted| :: more[k] == inserted[k];
    }
  }

  /** A region that inserts nothing: sessions may leave or be refreshed, and a
      thread may take a lease for a new id. */
  lemma OthersKeepCounted(w: World, v: World, t: nat, pc: Pc)
    requires Counted(w) && Logged(w) && Moved(w, v, t, pc)
    requires v.inserted == w.inserted && v.store.generation == w.store.generation
    requires forall id <- v.store.sessions ::
      id in w.store.sessions && SameGrant(v.store.sessions[id], w.store.sessions[id])
    requires if pc.Inserting? then pc.id !in w.drawn && v.leased == w.leased + [(pc.id, pc.address)]
             else v.leased == w.leased
    ensures Counted(v)
  {
    hide LeaseOrder, Generations, InsertedOnce;
    forall id <- v.store.sessions ensures Inserted(v.inserted, v.store.sessions[id]) {
      assert Inserted(w.inserted, w.store.sessions[id]);
      var r :| r in w.inserted && SameGrant(r, w.store.sessions[id]);
      assert SameGrant(r, v.store.sessions[id]);
    }
    if pc.Inserting? {
      forall s <- w.inserted ensures s.id != pc.id {
        assert (s.id, s.virtualIp) in w.leased;
      }
      LeaseOrderNewLease(w.leased, w.inserted, pc.id, pc.address);
    }
    forall u ensures PcOf(v, u).Inserting? ==> NotInserted(v.inserted, PcOf(v, u).id) {
      PcAfter(w, v, t, pc, u);
      assert PcOf(w, u).Inserting? ==> NotInserted(w.inserted, PcOf(w, u).id);
    }
  }

  lemma InsertedMore(inserted: seq<Lease>, s: Lease)
    requires Generations(inserted) && InsertedOnce(inserted)
    requires s.generation == |inserted| + 1 && NotInserted(inserted, s.id)
    ensures Generations(inserted + [s]) && InsertedOnce(inserted + [s])
  {
    var more := inserted + [s];
    assert more[|inserted|] == s;
    assert forall k | 0 <= k < |inserted| :: more[k] == inserted[k] && inserted[k] in inserted;
  }

  lemma InsertKeepsCounted(w: World, v: World, t: nat, s: Lease)
    requires Counted(w) && Logged(w) && Owned(w) && Moved(w, v, t, Idle)
    requires PcOf(w, t).Inserting? && s.id == PcOf(w, t).id && s.virtualIp == PcOf(w, t).address
    requires s.generation == w.store.generation + 1
    requires v.store == Insert(w.store, s) && v.inserted == w.inserted + [s] && v.leased == w.leased
    ensures Counted(v)
  {
    assert Pends(w, t, s.id) && Carries(w, t) && NotInserted(w.inserted, s.id);
    assert (s.id, s.virtualIp) in w.leased;
    LeaseOrderInserted(w.leased, w.inserted, w.pool.inUse, s);
    InsertedMore(w.inserted, s);
    hide LeaseOrder, Generations, InsertedOnce;
    assert forall r <- v.inserted :: r in w.inserted || r == s;
    forall id <- v.store.sessions ensures Inserted(v.inserted, v.store.sessions[id]) {
      if id == s.id {
        assert SameGrant(s, v.store.sessions[id]) && s in v.inserted;
      } else {
        assert Inserted(w.inserted, w.store.sessions[id]);
        var r :| r in w.inserted && SameGrant(r, w.store.sessions[id]);
        assert r in v.inserted;
      }
    }
    forall u ensures PcOf(v, u).Inserting? ==> NotInserted(v.inserted, PcOf(v, u).id) {
      OtherNotInserted(w, v, t, s, u);
    }
  }

  lemma OtherNotInserted(w: World, v: World, t: nat, s: Lease, u: nat)
    requires Owned(w) && Moved(w, v, t, Idle) && PcOf(w, t).Inserting? && s.id == PcOf(w, t).id
    requires v.inserted == w.inserted + [s]
    requires PcOf(w, u).Inserting? ==> NotInserted(w.inserted, PcOf(w, u).id)
    ensures PcOf(v, u).Inserting? ==> NotInserted(v.inserted, PcOf(v, u).id)
  {
    PcAfter(w, v, t, Idle, u);
    assert Pends(w, t, s.id) && (PcOf(w, u).Inserting? ==> Pends(w, u, PcOf(w, u).id));
  }

  lemma NothingRevoked(w: World)
    requires Owned(w)
    ensures forall id <- w.store.sessions :: !w.store.sessions[id].revoked
  {
    assert forall id <- w.store.sessions :: Stored(w, id);
  }

  lemma LoggedElsewhere(w: World, v: World)
    requires Logged(w) && v.pool.inUse == w.pool.inUse && v.leased == w.leased && v.freed == w.freed
    requires w.drawn <= v.drawn
    ensures Logged(v)
  {
    hide InUseLeased, NewIds, OnlyLastInUse;
  }

  /** Regions that take sessions out of the store. */
  lemma TakeOutKeeps(w: World, v: World, t: nat, ids: seq<Id>, pc: Pc, hosts: set<Addr>)
    requires Invariant(w, hosts) && Pending(PcOf(w, t)) == [] && Pending(pc) == ids && !pc.Inserting?
    requires v == w.(store := w.store.(sessions := w.store.sessions - Elements(ids)), threads := w.threads[t := pc])
    requires Distinct(ids) && Elements(ids) <= w.store.sessions.Keys
    ensures Invariant(v, hosts)
  {
    TakeOutKeepsOwned(w, v, t, ids, pc);
    hide Owned, Partition;
    LoggedElsewhere(w, v);
    OthersKeepCounted(w, v, t, pc);
  }

  /** Regions that release an address. */
  lemma ReleaseKeeps(w: World, v: World, t: nat, id: Id, pc: Pc, hosts: set<Addr>)
    requires Invariant(w, hosts)
    requires Pending(PcOf(w, t)) == [id] + Pending(pc) && !pc.Inserting? && !PcOf(w, t).Inserting?
    requires v == w.(pool := Release(w.pool, id), freed := w.freed + [id], threads := w.threads[t := pc])
    ensures Invariant(v, hosts)
  {
    ReleaseKeepsPartition(w.pool, id, hosts);
    ReleaseKeepsOwned(w, v, t, id, pc);
    hide Owned, Partition, Release;
    ReleaseKeepsLogged(w, v, id);
    OthersKeepCounted(w, v, t, pc);
  }

  /** Regions that move a thread, and at most refresh a session. */
  lemma QuietKeeps(w: World, v: World, t: nat, pc: Pc, hosts: set<Addr>)
    requires Invariant(w, hosts) && Moved(w, v, t, pc)
    requires v == w.(store := v.store, drawn := v.drawn, threads := v.threads) && w.drawn <= v.drawn
    requires Pending(PcOf(w, t)) == [] == Pending(pc)
    requires v.store.sessions.Keys == w.store.sessions.Keys && v.store.generation == w.store.generation
    requires forall id <- v.store.sessions ::
      SameGrant(v.store.sessions[id], w.store.sessions[id]) && !v.store.sessions[id].revoked
    ensures Invariant(v, hosts)
  {
    QuietKeepsOwned(w, v, t, pc);
    hide Owned, Partition;
    LoggedElsewhere(w, v);
    OthersKeepCounted(w, v, t, pc);
  }

  lemma AllocateKeeps(w: World, a: Action, cfg: Config, hosts: set<Addr>)
    requires Invariant(w, hosts) && a.AllocateStep? && Enabled(w, a)
    ensures Invariant(Next(w, a, cfg), hosts)
  {
    var (v, id) := (Next(w, a, cfg), a.id);
    assert id !in w.pool.inUse by {
      hide NewIds, OnlyLastInUse;
      assert forall j <- w.pool.inUse :: (j, w.pool.inUse[j]) in w.leased && j in w.drawn;
    }
    if w.pool.available == [] {
      NothingRevoked(w);
      QuietKeeps(w, v, a.t, Idle, hosts);
    } else {
      var address := w.pool.available[0];
      var pc := Inserting(id, address, a.now);
      AllocateKeepsPartition(w.pool, id, hosts);
      AllocateKeepsOwned(w, v, a.t, id, address, pc);
      AllocateKeepsLogged(w, v, hosts, id);
      hide Owned, Partition;
      OthersKeepCounted(w, v, a.t, pc);
    }
  }

  lemma InsertKeeps(w: World, a: Action, cfg: Config, hosts: set<Addr>)
    requires Invariant(w, hosts) && a.InsertStep? && Enabled(w, a)
    ensures Invariant(Next(w, a, cfg), hosts)
  {
    var (v, pc) := (Next(w, a, cfg), PcOf(w, a.t));
    var s := NewLease(w.store, pc.id, a.subject, a.posture, pc.address, pc.now, cfg);
    InsertKeepsOwned(w, v, a.t, s);
    InsertKeepsCounted(w, v, a.t, s);
    hide Owned, Counted, Partition;
    LoggedElsewhere(w, v);
  }

  lemma DropKeeps(w: World, v: World, t: nat, id: Id, hosts: set<Addr>)
    requires Invariant(w, hosts) && id in w.store.sessions && Pending(PcOf(w, t)) == []
    requires v == w.(store := w.store.(sessions := w.store.sessions - {id}), threads := w.threads[t := Releasing(id)])
    ensures Invariant(v, hosts)
  {
    assert Elements([id]) == {id};
    TakeOutKeeps(w, v, t, [id], Releasing(id), hosts);
  }

  /** The first region of `get_active` and `heartbeat`, and the one of `revoke`. */
  lemma SessionStepKeeps(w: World, a: Action, cfg: Config, hosts: set<Addr>)
    requires Invariant(w, hosts) && (a.LookStep? || a.BeatStep? || a.RevokeStep?) && Enabled(w, a)
    ensures Invariant(Next(w, a, cfg), hosts)
  {
    NothingRevoked(w);
    hide Invariant, Expired, Refreshed;
    var v := Next(w, a, cfg);
    if PcOf(v, a.t).Releasing? {
      DropKeeps(w, v, a.t, a.id, hosts);
    } else {
      StepKeepsGrants(w, a, cfg);
      QuietKeeps(w, v, a.t, PcOf(v, a.t), hosts);
    }
  }

  lemma StepKeepsGrants(w: World, a: Action, cfg: Config)
    requires (a.LookStep? || a.BeatStep? || a.RevokeStep?) && Enabled(w, a)
    requires !PcOf(Next(w, a, cfg), a.t).Releasing? && forall id <- w.store.sessions :: !w.store.sessions[id].revoked
    ensures var v := Next(w, a, cfg);
      && v.store.sessions.Keys == w.store.sessions.Keys && v.store.generation == w.store.generation
      && forall id <- v.store.sessions ::
           SameGrant(v.store.sessions[id], w.store.sessions[id]) && !v.store.sessions[id].revoked
  {
    hide Expired;
  }

  /** Every region keeps the invariant. */
  lemma NextKeeps(w: World, a: Action, cfg: Config, hosts: set<Addr>)
    requires Invariant(w, hosts) && Enabled(w, a)
    ensures Invariant(Next(w, a, cfg), hosts)
  {
    NothingRevoked(w);
    hide Invariant, Sweep, Allocate, Release;
    var (v, pc) := (Next(w, a, cfg), PcOf(w, a.t));
    match a
    case SweepStep(t, listing, now, creating) =>
      SweepExact(w.store, listing, now, cfg);
      TakeOutKeeps(w, v, t, Sweep(w.store, listing, now, cfg).1, PcOf(v, t), hosts);
    case ReclaimStep(t) =>
      assert pc.ids == [pc.ids[0]] + pc.ids[1..];
      ReleaseKeeps(w, v, t, pc.ids[0], PcOf(v, t), hosts);
    case SweptStep(t) => QuietKeeps(w, v, t, PcOf(v, t), hosts);
    case AllocateStep(_, _, _) => AllocateKeeps(w, a, cfg, hosts);
    case InsertStep(_, _, _) => InsertKeeps(w, a, cfg, hosts);
    case LookStep(_, _, _) => SessionStepKeeps(w, a, cfg, hosts);
    case BeatStep(_, _, _) => SessionStepKeeps(w, a, cfg, hosts);
    case RevokeStep(_, _) => SessionStepKeeps(w, a, cfg, hosts);
    case ReleaseStep(t) => ReleaseKeeps(w, v, t, pc.id, Idle, hosts);
    case RereadStep(t) => QuietKeeps(w, v, t, Idle, hosts);
  }

  lemma StartInvariant(hosts: seq<Addr>)
    requires Distinct(hosts)
    ensures Invariant(Start(hosts), Elements(hosts))
  {
    var w := Start(hosts);
    assert w.pool.inUse.Values == {};
  }

  /** A run: any regions of any threads, one after the other. */
  ghost predicate IsRun(w: World, actions: seq<Action>, cfg: Config)
    decreases |actions|
  {
    actions == [] || (Enabled(w, actions[0]) && IsRun(Next(w, actions[0], cfg), actions[1..], cfg))
  }

  ghost function WorldAfter(w: World, actions: seq<Action>, cfg: Config): World
    requires IsRun(w, actions, cfg)
    decreases |actions|
  {
    if actions == [] then w else WorldAfter(Next(w, actions[0], cfg), actions[1..], cfg)
  }

  lemma {:induction false} RunKeeps(w: World, actions: seq<Action>, cfg: Config, hosts: set<Addr>)
    requires Invariant(w, hosts) && IsRun(w, actions, cfg)
    ensures Invariant(WorldAfter(w, actions, cfg), hosts)
    decreases |actions|
  {
    hide Invariant;
    if actions != [] {
      NextKeeps(w, actions[0], cfg, hosts);
      RunKeeps(Next(w, actions[0], cfg), actions[1..], cfg, hosts);
    }
  }

  /** The world after some run of some threads on a fresh pool. */
  ghost predicate Reachable(w: World, hosts: seq<Addr>, cfg: Config) {
    Distinct(hosts) && exists actions :: IsRun(Start(hosts), actions, cfg) && w == WorldAfter(Start(hosts), actions, cfg)
  }

  lemma ReachableInvariant(w: World, hosts: seq<Addr>, cfg: Config)
    requires Reachable(w, hosts, cfg)
    ensures Invariant(w, Elements(hosts))
  {
    StartInvariant(hosts);
    var actions :| IsRun(Start(hosts), actions, cfg) && w == WorldAfter(Start(hosts), actions, cfg);
    RunKeeps(Start(hosts), actions, cfg, Elements(hosts));
  }

  lemma {:induction false} RunExtends(w: World, actions: seq<Action>, a: Action, cfg: Config)
    requires IsRun(w, actions, cfg) && Enabled(WorldAfter(w, actions, cfg), a)
    ensures IsRun(w, actions + [a], cfg)
    ensures WorldAfter(w, actions + [a], cfg) == Next(WorldAfter(w, actions, cfg), a, cfg)
    decreases |actions|
  {
    hide Enabled, Next;
    if actions == [] {
      assert [a][1..] == [] && [] + [a] == [a];
    } else {
      assert (actions + [a])[1..] == actions[1..] + [a];
      RunExtends(Next(w, actions[0], cfg), actions[1..], a, cfg);
    }
  }

  /** Taking one more region stays reachable. */
  lemma ReachableNext(w: World, hosts: seq<Addr>, cfg: Config, a: Action)
    requires Reachable(w, hosts, cfg) && Enabled(w, a)
    ensures Reachable(Next(w, a, cfg), hosts, cfg)
  {
    hide Enabled, Next;
    var actions :| IsRun(Start(hosts), actions, cfg) && w == WorldAfter(Start(hosts), actions, cfg);
    RunExtends(Start(hosts), actions, a, cfg);
  }

  lemma {:induction false} ReachableRun(w: World, actions: seq<Action>, hosts: seq<Addr>, cfg: Config)
    requires Reachable(w, hosts, cfg) && IsRun(w, actions, cfg)
    ensures Reachable(WorldAfter(w, actions, cfg), hosts, cfg)
    decreases |actions|
  {
    hide Enabled, Next, Reachable;
    if actions != [] {
      ReachableNext(w, hosts, cfg, actions[0]);
      ReachableRun(Next(w, actions[0], cfg), actions[1..], hosts, cfg);
    }
  }

  /** A thread on an empty store goes through `create` up to its insertion. */
  lemma TakesAddress(w: World, hosts: seq<Addr>, cfg: Config, t: nat, id: Id) returns (v: World)
    requires Reachable(w, hosts, cfg) && w.store == NO_SESSIONS && PcOf(w, t) == Idle
    requires id !in w.drawn && id !in w.pool.inUse && w.pool.available != []
    ensures Reachable(v, hosts, cfg) && v.store == NO_SESSIONS && v.inserted == w.inserted
    ensures v.pool == Allocate(w.pool, id).0 && v.drawn == w.drawn + {id}
    ensures v.leased == w.leased + [(id, w.pool.available[0])]
    ensures v.threads == w.threads[t := Inserting(id, w.pool.available[0], 0.0)]
  {
    hide Reachable;
    assert Elements<Id>([]) == w.store.sessions.Keys;
    ReachableNext(w, hosts, cfg, SweepStep(t, [], 0.0, true));
    var swept := Next(w, SweepStep(t, [], 0.0, true), cfg);
    ReachableNext(swept, hosts, cfg, SweptStep(t));
    var ready := Next(swept, SweptStep(t), cfg);
    ReachableNext(ready, hosts, cfg, AllocateStep(t, id, 0.0));
    v := Next(ready, AllocateStep(t, id, 0.0), cfg);
    assert v.threads == w.threads[t := Inserting(id, w.pool.available[0], 0.0)];
  }

  /** Generations follow the insertions, which need not follow the leases: of two
      threads the one that took its address first may insert second. */
  lemma GenerationsNeedNotFollowLeases(p: Posture, cfg: Config)
    ensures exists w :: Reachable(w, [10, 11], cfg) && InsertedOutOfOrder(w)
  {
    var (hosts, start) := ([10, 11], Start([10, 11]));
    assert IsRun(start, [], cfg) && WorldAfter(start, [], cfg) == start;
    assert Reachable(start, hosts, cfg);
    hide Reachable;
    var first := TakesAddress(start, hosts, cfg, 0, "a");
    var both := TakesAddress(first, hosts, cfg, 1, "b");
    ReachableNext(both, hosts, cfg, InsertStep(1, "user", p));
    var one := Next(both, InsertStep(1, "user", p), cfg);
    ReachableNext(one, hosts, cfg, InsertStep(0, "user", p));
    assert InsertedOutOfOrder(Next(one, InsertStep(0, "user", p), cfg));
  }

  predicate InsertedOutOfOrder(w: World) {
    |w.leased| == 2 == |w.inserted| && w.leased[0].0 == w.inserted[1].id && w.leased[1].0 == w.inserted[0].id
  }

  /** Exclusivity: no two sessions share an address, each holds the pool's entry
      for its id, and no free address is anyone's. */
  lemma Exclusive(w: World, hosts: seq<Addr>, cfg: Config, x: Id, y: Id)
    requires Reachable(w, hosts, cfg) && x in w.store.sessions && y in w.store.sessions
    ensures x in w.pool.inUse && w.store.sessions[x].virtualIp == w.pool.inUse[x]
    ensures w.store.sessions[x].virtualIp == w.store.sessions[y].virtualIp ==> x == y
    ensures w.store.sessions[x].virtualIp in hosts && w.store.sessions[x].virtualIp !in w.pool.available
  {
    ReachableInvariant(w, hosts, cfg);
    assert Stored(w, x) && Stored(w, y);
    assert w.pool.inUse[x] in w.pool.inUse.Values && w.pool.inUse[x] in Elements(hosts);
  }

  /** Conservation: free and leased addresses partition the hosts; what is leased
      but not stored is in the hands of one thread; when no thread holds any, the
      stored ids are the leased ids. */
  lemma Conserved(w: World, hosts: seq<Addr>, cfg: Config)
    requires Reachable(w, hosts, cfg)
    ensures Partition(w.pool, Elements(hosts))
    ensures forall id :: id in w.pool.inUse <==> id in w.store.sessions || Held(w, id)
    ensures (forall t :: Pending(PcOf(w, t)) == []) ==> w.pool.inUse.Keys == w.store.sessions.Keys
  {
    ReachableInvariant(w, hosts, cfg);
    assert forall id <- w.store.sessions :: Stored(w, id);
  }

  /** Each id is released at most once, and only after its lease. */
  lemma ReleasedOnce(w: World, hosts: seq<Addr>, cfg: Config)
    requires Reachable(w, hosts, cfg)
    ensures Distinct(w.freed)
    ensures forall id <- w.freed :: id !in w.pool.inUse && id !in w.store.sessions
  {
    ReachableInvariant(w, hosts, cfg);
    assert forall id <- w.store.sessions :: Stored(w, id);
  }

  /** Successive holders of one address have strictly increasing generations. */
  lemma GenerationsIncrease(w: World, hosts: seq<Addr>, cfg: Config, i: nat, j: nat, r: Lease, s: Lease)
    requires Reachable(w, hosts, cfg) && i < j < |w.leased| && w.leased[i].1 == w.leased[j].1
    requires r in w.inserted && r.id == w.leased[i].0 && s in w.inserted && s.id == w.leased[j].0
    ensures r.generation < s.generation
  {
    ReachableInvariant(w, hosts, cfg);
    assert InsertedBefore(w.inserted, w.leased[i].0, w.leased[j].0);
    BeforeMeansLess(w.inserted, r, s);
  }

  /** Of two inserted sessions the one inserted first has the lower generation, so a
      generation names one insertion. */
  lemma GenerationsFollowInsertions(w: World, hosts: seq<Addr>, cfg: Config, k: nat, l: nat)
    requires Reachable(w, hosts, cfg) && k < |w.inserted| && l < |w.inserted|
    ensures w.inserted[k].generation < w.inserted[l].generation <==> k < l
    ensures w.inserted[k].generation == w.inserted[l].generation <==> w.inserted[k].id == w.inserted[l].id
  {
    ReachableInvariant(w, hosts, cfg);
  }

  lemma BeforeMeansLess(inserted: seq<Lease>, r: Lease, s: Lease)
    requires Generations(inserted) && r in inserted && s in inserted && InsertedBefore(inserted, r.id, s.id)
    ensures r.generation < s.generation
  {
    var k :| 0 <= k < |inserted| && inserted[k] == r;
    var l :| 0 <= l < |inserted| && inserted[l] == s;
  }

  /** An id that was inserted and is gone from the store. */
  predicate Gone(w: World, s: Lease) { s in w.inserted && s.id !in w.store.sessions }

  lemma NextKeepsGone(w: World, a: Action, cfg: Config, s: Lease)
    requires Owned(w) && Counted(w) && Enabled(w, a) && Gone(w, s)
    ensures Gone(Next(w, a, cfg), s)
  {
    if a.SweepStep? {
      NothingRevoked(w);
      SweepExact(w.store, a.listing, a.now, cfg);
    }
    assert PcOf(w, a.t).Inserting? ==> NotInserted(w.inserted, PcOf(w, a.t).id);
  }

  /** A session that is gone never comes back, whatever the threads do. */
  lemma {:induction false} GoneForever(w: World, actions: seq<Action>, cfg: Config, hosts: set<Addr>, s: Lease)
    requires Invariant(w, hosts) && IsRun(w, actions, cfg) && Gone(w, s)
    ensures Gone(WorldAfter(w, actions, cfg), s)
    decreases |actions|
  {
    if actions != [] {
      NextKeepsGone(w, actions[0], cfg, s);
      NextKeeps(w, actions[0], cfg, hosts);
      GoneForever(Next(w, actions[0], cfg), actions[1..], cfg, hosts, s);
    }
  }

  /** The address of a gone session is held, if at all, by a later generation. */
  lemma LaterHolder(w: World, hosts: set<Addr>, s: Lease, id: Id)
    requires Invariant(w, hosts) && Gone(w, s)
    requires id in w.store.sessions && w.store.sessions[id].virtualIp == s.virtualIp
    ensures w.store.sessions[id].generation > s.generation
  {
    var held := w.store.sessions[id];
    assert Stored(w, id) && Inserted(w.inserted, held);
    var r :| r in w.inserted && SameGrant(r, held);
    LeaseIndexes(w, s, r);
    BeforeMeansLess(w.inserted, s, r);
  }

  lemma LeaseIndexes(w: World, s: Lease, r: Lease)
    requires Logged(w) && Counted(w) && s in w.inserted && r in w.inserted
    requires s.virtualIp == r.virtualIp && s.id != r.id && r.id in w.pool.inUse
    ensures InsertedBefore(w.inserted, s.id, r.id)
  {
    hide InUseLeased, Generations, InsertedOnce, InsertedBefore;
    assert (s.id, s.virtualIp) in w.leased && (r.id, r.virtualIp) in w.leased;
    var i :| 0 <= i < |w.leased| && w.leased[i] == (s.id, s.virtualIp);
    var j :| 0 <= j < |w.leased| && w.leased[j] == (r.id, r.virtualIp);
    assert i < j;
  }
}
