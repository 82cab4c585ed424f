/** Point-to-point subnet allocation: link number `index` gets the `index`-th
    /30 block of 10.0.0.0/16, and the block's first two host addresses. */
module Addressing {

  /** An IPv4 address as its four dotted-decimal octets, most significant
      first. The octets are unbounded on purpose: the allocator formats the
      quotient `index / 64` without checking it, so a large index yields a
      "third octet" above 255, which `WellFormed` rejects. */
  datatype Ipv4 = Ipv4(a: nat, b: nat, c: nat, d: nat)

  predicate WellFormed(ip: Ipv4) {
    ip.a <= 255 && ip.b <= 255 && ip.c <= 255 && ip.d <= 255
  }

  /** The numeric (big-endian) value of an address. */
  function ToNat(ip: Ipv4): nat {
    ((ip.a * 256 + ip.b) * 256 + ip.c) * 256 + ip.d
  }

  /** Two to the power `n`. */
  function Pow2(n: nat): nat {
    if n == 0 then 1 else 2 * Pow2(n - 1)
  }

  /** A CIDR block `base/prefixLen`. */
  datatype Cidr = Cidr(base: Ipv4, prefixLen: nat)

  /** Whether `ip` lies in the block `c`, i.e. among the `2^(32 - prefixLen)`
      consecutive addresses starting at `c.base`. */
  predicate InBlock(c: Cidr, ip: Ipv4)
    requires c.prefixLen <= 32
  {
    ToNat(c.base) <= ToNat(ip) < ToNat(c.base) + Pow2(32 - c.prefixLen)
  }

  /** What one allocation returns: the /30 block and its two host addresses. */
  datatype P2pSubnet = P2pSubnet(cidr: Cidr, host1: Ipv4, host2: Ipv4)

  /** Number of /30 blocks per value of the third octet. */
  const BlocksPerOctet: nat := 64

  /** Number of /30 blocks in 10.0.0.0/16. */
  const Capacity: nat := 256 * BlocksPerOctet

  /** The address space the allocator carves up: 10.0.0.0/16. */
  const Space: Cidr := Cidr(Ipv4(10, 0, 0, 0), 16)

  lemma {:induction false} Pow2Values()
    ensures Pow2(2) == 4 && Pow2(16) == 65536
  {
    assert Pow2(2) == 4;
    assert Pow2(8) == 256;
    assert Pow2(16) == 256 * 256 by {
      Pow2Add(8, 8);
    }
  }

  lemma {:induction false} Pow2Add(m: nat, n: nat)
    ensures Pow2(m + n) == Pow2(m) * Pow2(n)
    decreases m
  {
    if m > 0 {
      Pow2Add(m - 1, n);
      assert Pow2(m + n) == 2 * Pow2(m - 1 + n);
    }
  }

  /** `third * 256 + fourth` packs the block number back into the low
      sixteen bits: it equals four times the index. */
  lemma BlockOffset(index: nat)
    ensures (index / 64) * 256 + (index % 64) * 4 == 4 * index
  {
    var q, r := index / 64, index % 64;
    assert index == 64 * q + r;
    assert q * 256 + r * 4 == 4 * (64 * q + r);
  }

  lemma ThirdOctetBound(index: nat)
    ensures index / 64 <= 255 <==> index < Capacity
  {
    var q, r := index / 64, index % 64;
    assert index == 64 * q + r && r < 64;
    if q <= 255 {
      assert index <= 64 * 255 + 63;
    } else {
      assert index >= 64 * 256;
    }
  }

  /** Allocation of the `index`-th point-to-point subnet
      (`_alloc_p2p_subnet`): base `10.0.(index / 64).(4 * (index % 64))`,
      hosts base+1 and base+2, prefix length 30. Its numeric layout is
      stated by `AllocLayout`. */
  function AllocP2pSubnet(index: nat): (s: P2pSubnet)
    ensures s.cidr.prefixLen == 30
    ensures s.cidr.base.a == 10 && s.cidr.base.b == 0
    ensures s.host1.a == s.host2.a == 10 && s.host1.b == s.host2.b == 0
    ensures s.host1.c == s.host2.c == s.cidr.base.c
  {
    var third := index / 64;
    var fourth := (index % 64) * 4;
    P2pSubnet(Cidr(Ipv4(10, 0, third, fourth), 30),
              Ipv4(10, 0, third, fourth + 1),
              Ipv4(10, 0, third, fourth + 2))
  }

  /** The `index`-th block starts `4 * index` addresses into 10.0.0.0/16,
      its hosts are the next two addresses, and all three addresses are
      well-formed exactly when the index is below the capacity. */
  lemma AllocLayout(index: nat)
    ensures var s := AllocP2pSubnet(index);
      && ToNat(s.cidr.base) == ToNat(Space.base) + 4 * index
      && ToNat(s.host1) == ToNat(s.cidr.base) + 1
      && ToNat(s.host2) == ToNat(s.cidr.base) + 2
      && (WellFormed(s.cidr.base) && WellFormed(s.host1) && WellFormed(s.host2)
          <==> index < Capacity)
  {
    BlockOffset(index);
    ThirdOctetBound(index);
  }

  /** Inverse of the allocation: the block number an address falls in,
      read off its third and fourth octets. */
  function IndexOf(ip: Ipv4): nat {
    ip.c * BlocksPerOctet + ip.d / 4
  }

  /** The allocation is injective: the index is recovered from the base
      address and from either host address. */
  lemma AllocRoundTrip(index: nat)
    ensures IndexOf(AllocP2pSubnet(index).cidr.base) == index
    ensures IndexOf(AllocP2pSubnet(index).host1) == index
    ensures IndexOf(AllocP2pSubnet(index).host2) == index
  {
    var s := AllocP2pSubnet(index);
    var r := index % 64;
    assert s.cidr.base.d == r * 4 && s.host1.d == r * 4 + 1 && s.host2.d == r * 4 + 2;
    assert (r * 4) / 4 == r && (r * 4 + 1) / 4 == r && (r * 4 + 2) / 4 == r;
  }

  /** Each allocated block lies inside 10.0.0.0/16 (while the index is below
      the capacity), and holds its base and both hosts; the hosts differ
      from each other, from the base and from the last (broadcast) address. */
  lemma AllocWithinSpace(index: nat)
    requires index < Capacity
    ensures var s := AllocP2pSubnet(index);
      && InBlock(Space, s.cidr.base) && InBlock(Space, s.host1) && InBlock(Space, s.host2)
      && InBlock(s.cidr, s.cidr.base) && InBlock(s.cidr, s.host1) && InBlock(s.cidr, s.host2)
      && ToNat(s.host1) != ToNat(s.host2)
      && ToNat(s.cidr.base) < ToNat(s.host1) && ToNat(s.host2) < ToNat(s.cidr.base) + 3
  {
    AllocLayout(index);
    Pow2Values();
  }

  /** Distinct indices give disjoint /30 blocks: no address lies in both. */
  lemma AllocDisjoint(i: nat, j: nat)
    requires i != j
    ensures forall ip :: !(InBlock(AllocP2pSubnet(i).cidr, ip) && InBlock(AllocP2pSubnet(j).cidr, ip))
  {
    AllocLayout(i);
    AllocLayout(j);
    Pow2Values();
  }
}
