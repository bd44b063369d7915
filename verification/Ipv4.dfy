/** IPv4 prefixes as nodes of the binary tree of addresses, and the decision
    whether a set of prefixes is a default route (`covers_entire_ipv4`). */
module Ipv4 {
  import opened Collections
  import opened Division

  const ADDRESSES := 0x1_0000_0000
  type Addr = a: int | 0 <= a < ADDRESSES

  /** The first `len` bits of an address; the host bits are gone. */
  datatype Prefix = Prefix(bits: nat, len: nat)

  function Pow2(n: nat): (p: nat)
    ensures p > 0
  {
    if n == 0 then 1 else 2 * Pow2(n - 1)
  }

  predicate IsPrefix(p: Prefix) { p.len <= 32 && p.bits < Pow2(p.len) }

  function Quotient(a: nat, b: nat): nat
    requires b > 0
  {
    a / b
  }

  /** The prefix of length `len` that contains `a`: `ip_network((a, len), strict=False)`. */
  function Cut(a: Addr, len: nat): Prefix
    requires len <= 32
  {
    Prefix(Quotient(a, Pow2(32 - len)), len)
  }

  predicate Contains(p: Prefix, a: Addr) { p.len <= 32 && Cut(a, p.len) == p }

  function NetworkAddress(p: Prefix): nat
    requires p.len <= 32
  {
    p.bits * Pow2(32 - p.len)
  }

  function BroadcastAddress(p: Prefix): int
    requires p.len <= 32
  {
    NetworkAddress(p) + Pow2(32 - p.len) - 1
  }

  /** Python's `is_multicast` and `is_unspecified` of a network test both of its ends. */
  predicate Multicast(p: Prefix)
    requires p.len <= 32
  {
    0xE000_0000 <= NetworkAddress(p) < 0xF000_0000 && 0xE000_0000 <= BroadcastAddress(p) < 0xF000_0000
  }

  predicate Unspecified(p: Prefix)
    requires p.len <= 32
  {
    NetworkAddress(p) == 0 && BroadcastAddress(p) == 0
  }

  /** The parent in the tree; the root is its own parent. */
  function Supernet(p: Prefix): Prefix {
    if p.len == 0 then p else Prefix(p.bits / 2, p.len - 1)
  }

  ghost predicate Covered(nets: set<Prefix>, a: Addr) { exists p <- nets :: Contains(p, a) }

  /** Every one of the 2^32 addresses lies in some network of the set. */
  ghost predicate CoversAll(nets: set<Prefix>) { forall a: Addr :: Covered(nets, a) }

  lemma PowersOfTwo()
    ensures Pow2(32) == ADDRESSES
  {
    assert Pow2(8) == 0x100;
    assert Pow2(16) == 0x1_0000;
    assert Pow2(24) == 0x100_0000;
  }

  /** A prefix contains exactly the addresses from its network address to its
      broadcast address. */
  lemma ContainsRange(p: Prefix, a: Addr)
    requires p.len <= 32
    ensures Contains(p, a) <==> NetworkAddress(p) <= a <= BroadcastAddress(p)
  {
    QuotientRange(a, Pow2(32 - p.len), p.bits);
  }

  lemma QuotientRange(a: nat, b: nat, q: nat)
    requires b > 0
    ensures Quotient(a, b) == q <==> q * b <= a <= q * b + b - 1
  {
    assert a == b * Quotient(a, b) + a % b;
    if q * b <= a <= q * b + b - 1 {
      QuotientUnique(a, b, q, a - q * b);
    }
  }

  /** One step up the tree. */
  lemma CutSupernet(a: Addr, len: nat)
    requires 0 < len <= 32
    ensures Supernet(Cut(a, len)) == Cut(a, len - 1)
  {
    assert Pow2(32 - (len - 1)) == 2 * Pow2(32 - len);
    DivideAgain(a, Pow2(32 - len), 2);
  }

  lemma {:induction false} CutIsPrefix(a: Addr, len: nat)
    requires len <= 32
    ensures IsPrefix(Cut(a, len))
    decreases len
  {
    if len == 0 {
      PowersOfTwo();
      assert a / ADDRESSES == 0;
    } else {
      CutIsPrefix(a, len - 1);
      CutSupernet(a, len);
      assert Pow2(len) == 2 * Pow2(len - 1);
    }
  }

  /** Containment follows the tree upwards: a prefix lies inside its parent. */
  lemma SupernetContains(p: Prefix, a: Addr)
    requires Contains(p, a)
    ensures Contains(Supernet(p), a)
  {
    if p.len > 0 {
      CutSupernet(a, p.len);
    }
  }

  /** A parent is the union of its two children. */
  lemma SiblingsCover(p: Prefix, q: Prefix, a: Addr)
    requires IsPrefix(p) && IsPrefix(q) && p != q && Supernet(p) == Supernet(q)
    ensures Contains(Supernet(p), a) <==> Contains(p, a) || Contains(q, a)
  {
    var s := Supernet(p);
    PowersOfTwo();
    if p.len == 0 || q.len == 0 {
      assert Cut(a, 0).bits == 0 by { CutIsPrefix(a, 0); }
      assert p == Prefix(0, 0) || q == Prefix(0, 0);
    } else {
      CutSupernet(a, p.len);
      var c := Cut(a, p.len);
      assert c.bits == 2 * Cut(a, p.len - 1).bits || c.bits == 2 * Cut(a, p.len - 1).bits + 1;
    }
    if Contains(p, a) {
      SupernetContains(p, a);
    }
    if Contains(q, a) {
      SupernetContains(q, a);
    }
  }

  /** Where no node has both children in the set, an address under a node can be
      found that no network below the node contains. */
  lemma {:induction false} Escape(nets: set<Prefix>, node: Prefix) returns (a: Addr)
    requires IsPrefix(node)
    requires forall p <- nets, q <- nets | p != q && p.len > 0 && q.len > 0 :: Supernet(p) != Supernet(q)
    ensures Cut(a, node.len) == node
    ensures forall l | node.len < l <= 32 :: Cut(a, l) !in nets
    decreases 32 - node.len
  {
    PowersOfTwo();
    if node.len == 32 {
      a := node.bits;
    } else {
      var left, right := Prefix(2 * node.bits, node.len + 1), Prefix(2 * node.bits + 1, node.len + 1);
      assert Pow2(node.len + 1) == 2 * Pow2(node.len);
      assert Supernet(left) == node == Supernet(right);
      var child := if left in nets then right else left;
      assert child !in nets;
      a := Escape(nets, child);
      CutSupernet(a, child.len);
    }
  }

  /** Merged sets cover everything only through the root. */
  lemma MergedCoversAll(nets: set<Prefix>)
    requires forall p <- nets, q <- nets | p != q && p.len > 0 && q.len > 0 :: Supernet(p) != Supernet(q)
    requires forall p <- nets :: IsPrefix(p)
    ensures CoversAll(nets) <==> Prefix(0, 0) in nets
  {
    PowersOfTwo();
    if Prefix(0, 0) in nets {
      forall a: Addr ensures Covered(nets, a) {
        CutIsPrefix(a, 0);
        assert Contains(Prefix(0, 0), a);
      }
    } else {
      var a := Escape(nets, Prefix(0, 0));
      assert !Covered(nets, a);
    }
  }

  ghost predicate SameCover(x: set<Prefix>, y: set<Prefix>) {
    forall a: Addr :: Covered(x, a) <==> Covered(y, a)
  }

  /** Merging two siblings keeps what is covered. */
  lemma MergeKeepsCover(rest: set<Prefix>, p: Prefix, q: Prefix)
    requires IsPrefix(p) && IsPrefix(q) && p != q && Supernet(p) == Supernet(q)
    ensures SameCover(rest + {p, q}, rest + {Supernet(p)})
  {
    forall a: Addr ensures Covered(rest + {p, q}, a) <==> Covered(rest + {Supernet(p)}, a) {
      SiblingsCover(p, q, a);
      assert Covered(rest + {p, q}, a) <==> Covered(rest, a) || Contains(p, a) || Contains(q, a);
      assert Covered(rest + {Supernet(p)}, a) <==> Covered(rest, a) || Contains(Supernet(p), a);
    }
  }

  /** The worklist and the merge table, together, cover what the input covers. */
  ghost predicate Merging(networks: seq<Prefix>, toMerge: seq<Prefix>, subnets: map<Prefix, Prefix>) {
    && (forall p <- toMerge :: IsPrefix(p))
    && (forall k <- subnets :: IsPrefix(subnets[k]) && Supernet(subnets[k]) == k)
    && SameCover(Elements(networks), Elements(toMerge) + subnets.Values)
  }

  lemma MergingStored(networks: seq<Prefix>, toMerge: seq<Prefix>, net: Prefix, subnets: map<Prefix, Prefix>)
    requires Merging(networks, toMerge + [net], subnets)
    ensures Supernet(net) !in subnets ==> Merging(networks, toMerge, subnets[Supernet(net) := net])
    ensures Supernet(net) in subnets && subnets[Supernet(net)] == net ==> Merging(networks, toMerge, subnets)
  {
    var k := Supernet(net);
    assert IsPrefix(net) by { assert net in toMerge + [net]; }
    assert forall p <- toMerge :: p in toMerge + [net];
    assert Elements(toMerge + [net]) == Elements(toMerge) + {net};
    if k !in subnets {
      ValuesStored(subnets, k, net);
      assert Elements(toMerge + [net]) + subnets.Values == Elements(toMerge) + subnets[k := net].Values;
    } else if subnets[k] == net {
      assert Elements(toMerge + [net]) + subnets.Values == Elements(toMerge) + subnets.Values;
    }
  }

  lemma MergingMerged(networks: seq<Prefix>, toMerge: seq<Prefix>, net: Prefix, subnets: map<Prefix, Prefix>)
    requires Merging(networks, toMerge + [net], subnets)
    requires Supernet(net) in subnets && subnets[Supernet(net)] != net
    ensures Merging(networks, toMerge + [Supernet(net)], subnets - {Supernet(net)})
    ensures |subnets - {Supernet(net)}| == |subnets| - 1
  {
    var k := Supernet(net);
    var fewer := subnets - {k};
    TableRemoved(subnets, k);
    assert IsPrefix(net) by { assert net in toMerge + [net]; }
    assert forall p <- toMerge :: p in toMerge + [net];
    SupernetIsPrefix(net);
    var rest := Elements(toMerge) + fewer.Values;
    MergeKeepsCover(rest, subnets[k], net);
    ElementsAppend(toMerge, net);
    ElementsAppend(toMerge, k);
    Regroup(Elements(toMerge), fewer.Values, subnets[k], net, k);
  }

  lemma ElementsAppend<T>(s: seq<T>, x: T)
    ensures Elements(s + [x]) == Elements(s) + {x}
  {
  }

  lemma Regroup<T>(s: set<T>, values: set<T>, p: T, q: T, k: T)
    ensures s + {q} + (values + {p}) == s + values + {p, q} && s + {k} + values == s + values + {k}
  {
  }

  /** `covers_entire_ipv4`: the worklist of `collapse_addresses`, which merges
      siblings into their parent until no two are left. */
  method CoversEntireIpv4(networks: seq<Prefix>) returns (covers: bool)
    requires forall p <- networks :: IsPrefix(p)
    ensures covers <==> CoversAll(Elements(networks))
  {
    var toMerge, subnets := networks, map[];
    hide Merging, Supernet, CoversAll;
    assert Merging(networks, toMerge, subnets) by { MergingStart(networks); }
    while toMerge != []
      invariant Merging(networks, toMerge, subnets)
      decreases |toMerge| + |subnets|, |toMerge|
    {
      var net := toMerge[|toMerge| - 1];
      var rest := toMerge[..|toMerge| - 1];
      assert toMerge == rest + [net];
      toMerge := rest;
      var supernet := Supernet(net);
      MergingStored(networks, rest, net, subnets);
      if supernet !in subnets {
        subnets := subnets[supernet := net];
      } else if subnets[supernet] != net {
        MergingMerged(networks, rest, net, subnets);
        subnets := subnets - {supernet};
        toMerge := toMerge + [supernet];
      }
    }
    covers := exists k <- subnets :: subnets[k].len == 0;
    MergedDecision(networks, subnets);
  }

  lemma MergingStart(networks: seq<Prefix>)
    requires forall p <- networks :: IsPrefix(p)
    ensures Merging(networks, networks, map[])
  {
    var none: map<Prefix, Prefix> := map[];
    assert Elements(networks) + none.Values == Elements(networks);
  }

  lemma TableRemoved(m: map<Prefix, Prefix>, k: Prefix)
    requires k in m
    ensures m.Values == (m - {k}).Values + {m[k]} && |m - {k}| == |m| - 1
  {
    var n := m - {k};
    assert n.Keys == m.Keys - {k};
    assert forall j <- n :: n[j] == m[j];
    assert forall v <- m.Values :: exists j <- m :: m[j] == v;
  }

  lemma SupernetIsPrefix(p: Prefix)
    requires IsPrefix(p)
    ensures IsPrefix(Supernet(p))
  {
  }

  lemma MergedDecision(networks: seq<Prefix>, subnets: map<Prefix, Prefix>)
    requires Merging(networks, [], subnets)
    ensures CoversAll(Elements(networks)) <==> exists k <- subnets :: subnets[k].len == 0
  {
    assert Elements<Prefix>([]) + subnets.Values == subnets.Values;
    MergedCoversAll(subnets.Values);
    assert forall k <- subnets | subnets[k].len == 0 :: subnets[k] == Prefix(0, 0);
  }

  lemma PrefixInSpace(p: Prefix)
    requires IsPrefix(p)
    ensures BroadcastAddress(p) < ADDRESSES
    ensures 24 <= p.len <= 30 ==> Pow2(32 - p.len) >= 4
  {
    var b := Pow2(32 - p.len);
    assert Pow2(p.len) * b == ADDRESSES by {
      PowersOfTwo();
      PowSum(p.len, 32 - p.len);
    }
    MulMonotone(p.bits + 1, Pow2(p.len), b);
    assert (p.bits + 1) * b == p.bits * b + b;
    if p.len <= 30 {
      assert b == 2 * Pow2(31 - p.len) && Pow2(31 - p.len) == 2 * Pow2(30 - p.len);
    }
  }

  lemma MulMonotone(x: nat, y: nat, b: nat)
    requires x <= y
    ensures x * b <= y * b
  {
  }

  lemma {:induction false} PowSum(m: nat, n: nat)
    ensures Pow2(m) * Pow2(n) == Pow2(m + n)
  {
    if m > 0 {
      PowSum(m - 1, n);
    }
  }

  /** A multicast prefix is one inside 224.0.0.0/4. */
  lemma MulticastExact(p: Prefix)
    requires IsPrefix(p)
    ensures Multicast(p) <==> forall a: Addr | Contains(p, a) :: 0xE000_0000 <= a <= 0xEFFF_FFFF
  {
    PrefixInSpace(p);
    assert NetworkAddress(p) <= BroadcastAddress(p);
    hide Contains, Pow2, NetworkAddress, IsPrefix;
    forall a: Addr ensures Contains(p, a) <==> NetworkAddress(p) <= a <= BroadcastAddress(p) {
      ContainsRange(p, a);
    }
    var first: Addr, last: Addr := NetworkAddress(p), BroadcastAddress(p);
    assert Contains(p, first) && Contains(p, last);
  }

  /** The unspecified prefix is 0.0.0.0/32 and no other. */
  lemma UnspecifiedExact(p: Prefix)
    requires IsPrefix(p)
    ensures Unspecified(p) <==> p == Prefix(0, 32)
  {
    assert Pow2(0) == 1;
    if p.len < 32 {
      assert Pow2(32 - p.len) == 2 * Pow2(31 - p.len);
    }
    if p.len == 32 {
      assert NetworkAddress(p) == p.bits;
    }
  }
}
