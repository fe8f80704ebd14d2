/** IPv4 addresses as unsigned 32-bit integers, and CIDR blocks over them in the
    sense of section 3.1 of RFC 4632, with the host-range convention of Python's
    ipaddress module. */
module Ipv4 {

  /** Number of IPv4 addresses, 2^32. */
  const AddressSpace: nat := 0x1_0000_0000

  /** An IPv4 address as the integer its four octets spell, most significant first. */
  type Addr = a: nat | a < AddressSpace

  /** A prefix length of a CIDR block. */
  type PrefixLen = p: nat | p <= 32

  function Pow2(n: nat): (r: nat)
    ensures r >= 1
  {
    if n == 0 then 1 else 2 * Pow2(n - 1)
  }

  lemma {:induction false} Pow2Add(a: nat, b: nat)
    ensures Pow2(a + b) == Pow2(a) * Pow2(b)
    decreases a
  {
    if a > 0 {
      Pow2Add(a - 1, b);
      assert Pow2(a + b) == 2 * Pow2(a - 1 + b);
    }
  }

  lemma {:induction false} Pow2Le(a: nat, b: nat)
    requires a <= b
    ensures Pow2(a) <= Pow2(b)
    decreases b
  {
    if a < b {
      Pow2Le(a, b - 1);
    }
  }

  lemma Pow2AtLeastTwo(n: nat)
    requires n >= 1
    ensures Pow2(n) >= 2
  {
  }

  /** Integer division is determined by quotient and remainder. */
  lemma DivUnique(x: int, d: int, q: int, r: int)
    requires d > 0 && 0 <= r < d && x == q * d + r
    ensures x / d == q && x % d == r
  {
    var q', r' := x / d, x % d;
    assert (q - q') * d == r' - r;
    SmallMultiple(q - q', d);
  }

  /** A multiple of `d` strictly between `-d` and `d` is zero. */
  lemma SmallMultiple(k: int, d: int)
    requires d > 0 && -d < k * d < d
    ensures k == 0
  {
  }

  lemma MulMono(a: int, b: int, d: nat)
    requires a <= b
    ensures a * d <= b * d
  {
  }

  /** An aligned block of `t` addresses ends inside a space of `t * blocks`. */
  lemma AlignedBlockArith(n: nat, t: nat, blocks: nat)
    requires t > 0 && n < t * blocks && n % t == 0
    ensures n + t <= t * blocks
  {
    var q := n / t;
    assert n == q * t;
    if q >= blocks {
      MulMono(blocks, q, t);
      assert false;
    }
    MulMono(q, blocks - 1, t);
  }

  lemma Pow2Space()
    ensures Pow2(32) == AddressSpace
  {
    assert Pow2(4) == 16;
    Pow2Add(4, 4);
    assert Pow2(8) == 256;
    Pow2Add(8, 8);
    assert Pow2(16) == 65536;
    Pow2Add(16, 16);
  }

  /** Bit `i` of `x` (bit 0 is the least significant). */
  function Bit(x: nat, i: nat): nat
  {
    (x / Pow2(i)) % 2
  }

  /** An address block: a network address and a prefix length. The network
      address may have host bits set; `Aligned` says it does not. */
  datatype Cidr = Cidr(network: Addr, prefix: PrefixLen) {

    /** Number of addresses in the block (ipaddress `num_addresses`). */
    function Total(): nat
    {
      Pow2(32 - prefix)
    }

    /** The host bits of the network address are all zero, as a strict parse
        guarantees. */
    predicate Aligned()
    {
      network % Total() == 0
    }

    /** The last address of the block. */
    function Broadcast(): (b: Addr)
      requires Aligned()
      ensures b == network + Total() - 1
    {
      AlignedBlockFits(this);
      network + Total() - 1
    }

    /** Lowest address `hosts()` yields: the network address itself for /31
        and /32, the address after it otherwise. */
    function HostLo(): Addr
      requires Aligned()
    {
      AlignedBlockFits(this);
      if prefix >= 31 then network
      else
        Pow2AtLeastTwo(32 - prefix);
        network + 1
    }

    /** Highest address `hosts()` yields: the broadcast address for /31 and
        /32, the address before it otherwise. */
    function HostHi(): Addr
      requires Aligned()
    {
      if prefix >= 31 then Broadcast() else Broadcast() - 1
    }

    /** `a` is one of the addresses `hosts()` yields. */
    predicate IsHost(a: int)
      requires Aligned()
    {
      HostLo() <= a <= HostHi()
    }

    /** `a` lies inside the block. */
    predicate Contains(a: int)
      requires Aligned()
    {
      network <= a <= Broadcast()
    }
  }

  /** An aligned block ends inside the address space. */
  lemma AlignedBlockFits(c: Cidr)
    requires c.Aligned()
    ensures c.network + c.Total() <= AddressSpace
  {
    Pow2Add(32 - c.prefix, c.prefix);
    Pow2Space();
    AlignedBlockArith(c.network, c.Total(), Pow2(c.prefix));
  }

  /** The host range as `hosts()` yields it: everything strictly between the
      network and broadcast addresses up to /30, the whole block for /31 and
      the single address for /32. */
  lemma HostRangeShape(c: Cidr)
    requires c.Aligned()
    ensures c.prefix <= 30 ==>
              forall a :: c.IsHost(a) <==> c.Contains(a) && a != c.network && a != c.Broadcast()
    ensures c.prefix == 31 ==> forall a :: c.IsHost(a) <==> a == c.network || a == c.network + 1
    ensures c.prefix == 32 ==> forall a :: c.IsHost(a) <==> a == c.network
    ensures forall a :: c.IsHost(a) ==> c.Contains(a)
  {
    if c.prefix <= 30 {
      BlockOfFour(c.prefix);
    }
  }

  /** A block of prefix length at most 30 has at least four addresses. */
  lemma BlockOfFour(prefix: PrefixLen)
    requires prefix <= 30
    ensures Pow2(32 - prefix) >= 4
  {
    Pow2Le(2, 32 - prefix);
    assert Pow2(2) == 4;
  }

  /** The netmask of a prefix length: `prefix` leading one-bits. */
  function Netmask(prefix: PrefixLen): (m: Addr)
  {
    Pow2Space();
    Pow2Le(32 - prefix, 32);
    AddressSpace - Pow2(32 - prefix)
  }

  /** Bit 0 of a quotient is bit 0 of the quotient's known value. */
  lemma QuotientParity(x: int, d: int, q: int, r: int)
    requires d > 0 && 0 <= r < d && x == q * d + r
    ensures (x / d) % 2 == q % 2
  {
    DivUnique(x, d, q, r);
  }

  /** `x - y` over `d` is even when both are even multiples of `d`. */
  lemma EvenQuotient(x: int, y: int, d: int, a: int, b: int)
    requires d > 0 && x == d * (2 * a) && y == d * (2 * b)
    ensures ((x - y) / d) % 2 == 0
  {
    assert x - y == (2 * (a - b)) * d;
    QuotientParity(x - y, d, 2 * (a - b), 0);
  }

  /** `x - y` over `d` is odd when `x` is an even multiple of `d` and `0 < y <= d`. */
  lemma OddQuotient(x: int, y: int, d: int, a: int)
    requires 0 < y <= d && x == d * (2 * a)
    ensures ((x - y) / d) % 2 == 1
  {
    assert x - y == (2 * a - 1) * d + (d - y);
    QuotientParity(x - y, d, 2 * a - 1, d - y);
  }

  /** Below the prefix the netmask is an even multiple of 2^i. */
  lemma NetmaskLowBit(prefix: PrefixLen, i: nat)
    requires i < 32 - prefix
    ensures Bit(Netmask(prefix), i) == 0
  {
    var z := 32 - prefix;
    var d := Pow2(i);
    assert AddressSpace == d * (2 * Pow2(31 - i)) by {
      Pow2Space();
      Pow2Add(i, 32 - i);
    }
    assert Pow2(z) == d * (2 * Pow2(z - i - 1)) by {
      Pow2Add(i, z - i);
    }
    EvenQuotient(AddressSpace, Pow2(z), d, Pow2(31 - i), Pow2(z - i - 1));
  }

  /** Within the prefix the netmask is an odd multiple of 2^i plus less than 2^i. */
  lemma NetmaskHighBit(prefix: PrefixLen, i: nat)
    requires 32 - prefix <= i < 32
    ensures Bit(Netmask(prefix), i) == 1
  {
    var z := 32 - prefix;
    var d := Pow2(i);
    assert AddressSpace == d * (2 * Pow2(31 - i)) by {
      Pow2Space();
      Pow2Add(i, 32 - i);
    }
    Pow2Le(z, i);
    OddQuotient(AddressSpace, Pow2(z), d, Pow2(31 - i));
  }

  /** The netmask has exactly its `prefix` most significant bits set. */
  lemma NetmaskBits(prefix: PrefixLen)
    ensures forall i: nat :: i < 32 ==> Bit(Netmask(prefix), i) == if i >= 32 - prefix then 1 else 0
  {
    forall i: nat | i < 32
      ensures Bit(Netmask(prefix), i) == if i >= 32 - prefix then 1 else 0
    {
      if i < 32 - prefix {
        NetmaskLowBit(prefix, i);
      } else {
        NetmaskHighBit(prefix, i);
      }
    }
  }
}
