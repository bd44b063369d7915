/** `VirtualIPPool`: a FIFO of free host addresses, the addresses in use by
    session id, and the set of addresses given back. */
module Pools {
  import opened Wrappers
  import opened Collections
  import opened Ipv4

  type Id = string

  datatype Pool = Pool(available: seq<Addr>, inUse: map<Id, Addr>, released: set<Addr>)

  predicate OneHolder(m: map<Id, Addr>) { forall i <- m, j <- m :: m[i] == m[j] ==> i == j }

  /** The body of `allocate` under its lock; `None` is the exhausted pool. */
  function Allocate(p: Pool, id: Id): (Pool, Option<Addr>) {
    if id in p.inUse then (p, Some(p.inUse[id]))
    else if p.available == [] then (p, None)
    else
      var a := p.available[0];
      (Pool(p.available[1..], p.inUse[id := a], p.released - {a}), Some(a))
  }

  /** The body of `release` under its lock. */
  function Release(p: Pool, id: Id): Pool {
    if id !in p.inUse then p
    else
      var a := p.inUse[id];
      var rest := p.inUse - {id};
      if a in p.released then p.(inUse := rest)
      else Pool(p.available + [a], rest, p.released + {a})
  }

  /** Free and allocated addresses partition the hosts, nobody shares an address,
      and every address given back is free. */
  ghost predicate Partition(p: Pool, hosts: set<Addr>) {
    && Distinct(p.available) && OneHolder(p.inUse)
    && Elements(p.available) + p.inUse.Values == hosts
    && Elements(p.available) !! p.inUse.Values
    && p.released <= Elements(p.available)
  }

  lemma ValuesRemove(m: map<Id, Addr>, id: Id)
    requires id in m && OneHolder(m)
    ensures (m - {id}).Values == m.Values - {m[id]} && OneHolder(m - {id})
  {
    var n := m - {id};
    assert n.Keys == m.Keys - {id};
    assert forall j <- n :: n[j] == m[j];
  }

  lemma AllocateKeepsPartition(p: Pool, id: Id, hosts: set<Addr>)
    requires Partition(p, hosts)
    ensures Partition(Allocate(p, id).0, hosts)
    ensures var (q, got) := Allocate(p, id);
      && (got.None? <==> id !in p.inUse && p.inUse.Values == hosts)
      && (got.None? ==> q == p)
      && (got.Some? ==> q.inUse.Keys == p.inUse.Keys + {id} && q.inUse[id] == got.value)
      && forall j <- p.inUse :: j in q.inUse && q.inUse[j] == p.inUse[j]
  {
    if p.available != [] {
      assert p.available[0] in Elements(p.available);
    }
    if id !in p.inUse && p.available != [] {
      var a := p.available[0];
      assert p.available == [a] + p.available[1..];
      ValuesStored(p.inUse, id, a);
      assert a !in p.inUse.Values;
      assert a !in p.available[1..];
      assert Elements(p.available) == {a} + Elements(p.available[1..]);
    }
  }

  /** The guard of `release` is always true: an allocated address is not among
      the released ones, so it always goes back to the end of the queue. */
  lemma ReleaseKeepsPartition(p: Pool, id: Id, hosts: set<Addr>)
    requires Partition(p, hosts)
    ensures Partition(Release(p, id), hosts)
    ensures Release(p, id).inUse == p.inUse - {id}
    ensures id in p.inUse ==> Release(p, id).available == p.available + [p.inUse[id]]
  {
    if id in p.inUse {
      var a := p.inUse[id];
      assert a in p.inUse.Values && a !in Elements(p.available);
      ValuesRemove(p.inUse, id);
      assert Elements(p.available + [a]) == Elements(p.available) + {a};
    }
  }

  /** The answers to a list of allocations. */
  function Addresses(p: Pool, ids: seq<Id>): (r: seq<Option<Addr>>)
    ensures |r| == |ids|
    decreases |ids|
  {
    if ids == [] then [] else [Allocate(p, ids[0]).1] + Addresses(Allocate(p, ids[0]).0, ids[1..])
  }

  /** New ids get the free addresses in the order of the queue, and none when it is
      empty. An address given back goes to the end, so it is leased again last. */
  lemma {:induction false} FirstFreeFirstLeased(p: Pool, ids: seq<Id>, k: nat)
    requires Distinct(ids) && (forall id <- ids :: id !in p.inUse) && k < |ids|
    ensures Addresses(p, ids)[k] == if k < |p.available| then Some(p.available[k]) else None
    decreases |ids|
  {
    assert ids == [ids[0]] + ids[1..];
    assert ids[0] !in ids[1..];
    if k > 0 {
      FirstFreeFirstLeased(Allocate(p, ids[0]).0, ids[1..], k - 1);
    }
  }

  /** `network.hosts()` for a /24 to /30. */
  function Hosts(network: Prefix): seq<Addr>
    requires IsPrefix(network) && 24 <= network.len <= 30
  {
    PrefixInSpace(network);
    seq(Pow2(32 - network.len) - 2, i requires 0 <= i < Pow2(32 - network.len) - 2 => NetworkAddress(network) + 1 + i)
  }

  /** The hosts are, in ascending order, all addresses of the prefix but its first
      and its last. */
  lemma HostsExact(network: Prefix)
    requires IsPrefix(network) && 24 <= network.len <= 30
    ensures var hosts := Hosts(network);
      && (forall i, j | 0 <= i < j < |hosts| :: hosts[i] < hosts[j])
      && forall a: Addr :: a in hosts <==>
           Contains(network, a) && a != NetworkAddress(network) && a != BroadcastAddress(network)
  {
    PrefixInSpace(network);
    hide Contains, Pow2, NetworkAddress, IsPrefix;
    var hosts := Hosts(network);
    forall a: Addr ensures a in hosts <==>
      Contains(network, a) && a != NetworkAddress(network) && a != BroadcastAddress(network)
    {
      ContainsRange(network, a);
      if NetworkAddress(network) < a < BroadcastAddress(network) {
        assert hosts[a - NetworkAddress(network) - 1] == a;
      }
    }
  }

  class VirtualIPPool {
    var available: seq<Addr>
    var inUse: map<Id, Addr>
    var released: set<Addr>

    function State(): Pool
      reads this
    {
      Pool(available, inUse, released)
    }

    constructor (network: Prefix)
      requires IsPrefix(network) && 24 <= network.len <= 30
      ensures State() == Pool(Hosts(network), map[], {})
      ensures Partition(State(), Elements(Hosts(network)))
    {
      available := Hosts(network);
      inUse := map[];
      released := {};
    }

    method AllocateFor(id: Id) returns (address: Option<Addr>)
      modifies this
      ensures (State(), address) == Allocate(old(State()), id)
    {
      if id in inUse { return Some(inUse[id]); }
      if available == [] { return None; }
      var a := available[0];
      available := available[1..];
      inUse := inUse[id := a];
      released := released - {a};
      return Some(a);
    }

    method ReleaseOf(id: Id)
      modifies this
      ensures State() == Release(old(State()), id)
    {
      if id in inUse {
        var address := inUse[id];
        inUse := inUse - {id};
        if address !in released {
          available := available + [address];
          released := released + {address};
        }
      }
    }
  }
}
