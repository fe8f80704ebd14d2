/** The address-allocation arithmetic of netcontroller/utils.py: the single
    allocator, the raw enumerator, the range calculator and the two validators.
    Occupied addresses arrive as the texts stored on ports, so occupancy is a
    set of strings compared against the compressed text of each candidate. */
module Utils {
  import opened Wrappers
  import opened Ipv4
  import opened AddrText

  /** Python's `set(iterable)` of the given texts. */
  function AsSet(ips: seq<string>): set<string>
  {
    set s | s in ips
  }

  // ---------------------------------------------------------------------------
  // allocate_ip

  /** The first address `a`, `a + 1`, ... up to the last host whose text is
      not occupied. */
  function LowestFreeFrom(c: Cidr, occupied: seq<string>, a: nat): (r: Option<Addr>)
    requires c.Aligned() && c.HostLo() <= a
    ensures r.Some? ==> a <= r.value && c.IsHost(r.value) && Render(r.value) !in occupied
    ensures r.Some? ==> forall h: Addr :: a <= h < r.value ==> Render(h) in occupied
    ensures r.None? <==> forall h: Addr :: a <= h <= c.HostHi() ==> Render(h) in occupied
    decreases c.HostHi() + 1 - a
  {
    if a > c.HostHi() then None
    else if Render(a) !in occupied then Some(a)
    else LowestFreeFrom(c, occupied, a + 1)
  }

  /** The lowest host of `c` whose text is not occupied, or None when every
      host is taken. */
  function LowestFreeHost(c: Cidr, occupied: seq<string>): (r: Option<Addr>)
    requires c.Aligned()
    ensures r.Some? ==> c.IsHost(r.value) && Render(r.value) !in occupied
    ensures r.Some? ==> forall h: Addr :: c.IsHost(h) && h < r.value ==> Render(h) in occupied
    ensures r.None? <==> forall h: Addr :: c.IsHost(h) ==> Render(h) in occupied
  {
    LowestFreeFrom(c, occupied, c.HostLo())
  }

  /** `allocate_ip(cidr, allocated_ips)`: parses `cidr` strictly (a ValueError
      otherwise), then returns the text of the lowest free host, or "" when
      every host is taken. */
  function AllocateIp(cidr: string, allocatedIps: seq<string>): (r: Result<string, NetError>)
    ensures r.Err? <==> ParseNetwork(cidr, true).Err?
    ensures r.Ok? ==>
              var c := ParseNetwork(cidr, true).value;
              (r.value == "" <==> forall h: Addr :: c.IsHost(h) ==> Render(h) in allocatedIps)
    ensures r.Ok? && r.value != "" ==>
              var c := ParseNetwork(cidr, true).value;
              && ParseAddr(r.value).Some?
              && c.IsHost(ParseAddr(r.value).value)
              && r.value !in allocatedIps
              && forall h: Addr :: c.IsHost(h) && h < ParseAddr(r.value).value ==> Render(h) in allocatedIps
  {
    match ParseNetwork(cidr, true)
    case Err(e) => Err(e)
    case Ok(c) =>
      match LowestFreeHost(c, allocatedIps)
      case None => Ok("")
      case Some(a) =>
        RenderShape(a);
        ParseRender(a);
        Ok(Render(a))
  }

  /** The lowest free host depends only on which texts are occupied: it is
      the least host whose text is not among them. */
  lemma LowestFreeHostSetOnly(c: Cidr, occ: seq<string>, occ': seq<string>)
    requires c.Aligned() && forall t :: t in occ <==> t in occ'
    ensures LowestFreeHost(c, occ) == LowestFreeHost(c, occ')
  {
    var r, r' := LowestFreeHost(c, occ), LowestFreeHost(c, occ');
    if r.Some? && r'.Some? && r.value != r'.value {
      assert false;
    }
  }

  /** `allocate_ip` turns its input into a set first: the answer depends only
      on which texts are allocated. */
  lemma AllocateIpSetOnly(cidr: string, allocatedIps: seq<string>, allocatedIps': seq<string>)
    requires AsSet(allocatedIps) == AsSet(allocatedIps')
    ensures AllocateIp(cidr, allocatedIps) == AllocateIp(cidr, allocatedIps')
  {
    forall t
      ensures t in allocatedIps <==> t in allocatedIps'
    {
      assert t in allocatedIps <==> t in AsSet(allocatedIps);
      assert t in allocatedIps' <==> t in AsSet(allocatedIps');
    }
    if ParseNetwork(cidr, true).Ok? {
      LowestFreeHostSetOnly(ParseNetwork(cidr, true).value, allocatedIps, allocatedIps');
    }
  }

  // ---------------------------------------------------------------------------
  // allocate_ip_many

  /** The texts of `network + 1`, ..., `network + n`, with no look at
      occupancy. */
  function HostTexts(c: Cidr, n: nat): (r: seq<string>)
    requires c.network + n < AddressSpace
    ensures |r| == n
  {
    seq(n, i requires 0 <= i < n => Render(c.network + i + 1))
  }

  /** The texts `allocate_ip_many` yields for a parsed network: those of
      `network + 1` ... `network + n`. The generator raises once an address
      would pass 255.255.255.255; this model reports that eagerly. */
  function EnumerateHosts(c: Cidr, n: nat): (r: Result<seq<string>, NetError>)
    ensures r.Err? <==> c.network + n >= AddressSpace
    ensures r.Ok? ==> |r.value| == n
    ensures r.Ok? ==> forall i :: 0 <= i < n ==> r.value[i] == Render(c.network + i + 1)
  {
    if c.network + n >= AddressSpace then Err(AddressOutOfRange)
    else
      Ok(HostTexts(c, n))
  }

  /** The enumerated texts are pairwise distinct. */
  lemma EnumerateDistinct(c: Cidr, n: nat)
    requires c.network + n < AddressSpace
    ensures forall i, j :: 0 <= i < j < n ==> HostTexts(c, n)[i] != HostTexts(c, n)[j]
  {
    forall i, j | 0 <= i < j < n
      ensures HostTexts(c, n)[i] != HostTexts(c, n)[j]
    {
      RenderInjective(c.network + i + 1, c.network + j + 1);
    }
  }

  /** `allocate_ip_many(cidr, n)`: parses `cidr` strictly, then enumerates. */
  function AllocateIpMany(cidr: string, n: nat): (r: Result<seq<string>, NetError>)
    ensures ParseNetwork(cidr, true).Err? ==> r == Err(ParseNetwork(cidr, true).error)
    ensures ParseNetwork(cidr, true).Ok? ==> r == EnumerateHosts(ParseNetwork(cidr, true).value, n)
    ensures var p := ParseNetwork(cidr, true);
            r.Err? <==> p.Err? || p.value.network + n >= AddressSpace
    ensures var p := ParseNetwork(cidr, true);
            r.Ok? ==> p.Ok? && p.value.network + n < AddressSpace && |r.value| == n && forall i :: 0 <= i < n ==> r.value[i] == Render(p.value.network + i + 1)
  {
    var p := ParseNetwork(cidr, true);
    if p.Err? then Err(p.error) else EnumerateHosts(p.value, n)
  }

  // ---------------------------------------------------------------------------
  // compute_ips

  /** A run of free addresses, both ends inclusive (`{'start', 'end'}`). */
  datatype IpRange = IpRange(start: Addr, end: Addr)

  /** The result of `compute_ips`. */
  datatype Usage = Usage(total: nat, available: int, ips: seq<IpRange>, netmask: Addr)

  /** The test the scan applies to each visited address: its compressed text
      is not among the occupied texts. */
  function FreeIn(occupied: set<string>): Addr -> bool
  {
    (a: Addr) => Render(a) !in occupied
  }

  /** The scan loop of `compute_ips` over the block of `total` addresses
      starting at `network`, from `x` on: `open` is the start of the current
      free run (the `flag`/`start` pair), `acc` the runs closed so far. The
      loop visits `network + x` for `x` from 1 to `total`, one address past
      the broadcast address, and then closes a trailing run at
      `broadcast - 1`. Address arithmetic outside the IPv4 space raises. */
  function ScanFrom(network: Addr, total: nat, free: Addr -> bool, x: nat, open: Option<Addr>, acc: seq<IpRange>)
    : Result<seq<IpRange>, NetError>
    requires 1 <= total && network + total <= AddressSpace && 1 <= x <= total + 1
    decreases total + 1 - x
  {
    if x > total then
      match open
      case None => Ok(acc)
      case Some(s) =>
        var broadcast: Addr := network + total - 1;
        if broadcast == 0 then Err(AddressOutOfRange)
        else Ok(acc + [IpRange(s, broadcast - 1)])
    else if network + x >= AddressSpace then Err(AddressOutOfRange)
    else
      var curr: Addr := network + x;
      if free(curr) then
        ScanFrom(network, total, free, x + 1, if open.None? then Some(curr) else open, acc)
      else
        ScanFrom(network, total, free, x + 1, None, if open.Some? then acc + [IpRange(open.value, curr - 1)] else acc)
  }

  /** The body of `compute_ips` once the network is parsed. */
  function Utilisation(c: Cidr, occupied: seq<string>): (r: Result<Usage, NetError>)
    requires c.Aligned()
    ensures r.Ok? ==> r.value.total == Pow2(32 - c.prefix) && r.value.netmask == Netmask(c.prefix)
    ensures r.Ok? ==> r.value.available == r.value.total - |AsSet(occupied)| - 2
  {
    AlignedBlockFits(c);
    match ScanFrom(c.network, c.Total(), FreeIn(AsSet(occupied)), 1, None, [])
    case Err(e) => Err(e)
    case Ok(ips) => Ok(Usage(c.Total(), c.Total() - |AsSet(occupied)| - 2, ips, Netmask(c.prefix)))
  }

  /** `Utilisation` once the scan's runs are known. */
  lemma UtilisationOfRuns(c: Cidr, occupied: seq<string>, ips: seq<IpRange>)
    requires c.Aligned() && c.network + c.Total() <= AddressSpace
    requires ScanFrom(c.network, c.Total(), FreeIn(AsSet(occupied)), 1, None, []) == Ok(ips)
    ensures Utilisation(c, occupied) == Ok(Usage(c.Total(), c.Total() - |AsSet(occupied)| - 2, ips, Netmask(c.prefix)))
  {
  }

  /** `compute_ips(cidr, occupied)`: parses `cidr` strictly, then reports the
      block size, the free count, the free runs and the netmask. */
  function ComputeIps(cidr: string, occupied: seq<string>): (r: Result<Usage, NetError>)
    ensures ParseNetwork(cidr, true).Err? ==> r == Err(ParseNetwork(cidr, true).error)
    ensures ParseNetwork(cidr, true).Ok? ==> r == Utilisation(ParseNetwork(cidr, true).value, occupied)
    ensures r.Ok? ==> ParseNetwork(cidr, true).Ok?
    ensures r.Ok? ==> var c := ParseNetwork(cidr, true).value;
      r.value.total == Pow2(32 - c.prefix) && r.value.netmask == Netmask(c.prefix)
      && r.value.available == r.value.total - |AsSet(occupied)| - 2
  {
    var p := ParseNetwork(cidr, true);
    if p.Err? then Err(p.error) else Utilisation(p.value, occupied)
  }

  // ---------------------------------------------------------------------------
  // valid_cidr, valid_ip

  /** `valid_cidr(cidr)`: the text reads as a network under a lenient parse. */
  predicate ValidCidr(cidr: string)
  {
    ParseNetwork(cidr, false).Ok?
  }

  /** `valid_ip(ip)`: the text reads as an address. */
  predicate ValidIp(ip: string)
  {
    ParseAddr(ip).Some?
  }

  /** The texts `valid_ip` accepts are exactly the compressed texts of
      addresses. */
  lemma ValidIpRendered(s: string)
    ensures ValidIp(s) <==> exists a: Addr :: Render(a) == s
  {
    if ValidIp(s) {
      RenderParse(s);
    }
    if exists a: Addr :: Render(a) == s {
      var a: Addr :| Render(a) == s;
      ParseRender(a);
    }
  }

  /** A network text with host bits set passes `valid_cidr`, yet every
      function that parses strictly raises on it. */
  lemma HostBitsPassValidation(c: Cidr, occupied: seq<string>, n: nat)
    requires !c.Aligned()
    ensures ValidCidr(CidrText(c))
    ensures AllocateIp(CidrText(c), occupied) == Err(HostBitsSet)
    ensures AllocateIpMany(CidrText(c), n) == Err(HostBitsSet)
    ensures ComputeIps(CidrText(c), occupied) == Err(HostBitsSet)
  {
    ParseCidrText(c, true);
    ParseCidrText(c, false);
  }
}
