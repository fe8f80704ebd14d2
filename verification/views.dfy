/** The decisions the request handlers of netcontroller/views.py take around
    address allocation: validating a subnet's CIDR text, giving a new port an
    address, moving a port to another subnet, re-addressing a subnet's ports
    when its CIDR text changes, and reporting a subnet's utilisation. The
    store is the subnet and port rows those handlers read and write; what the
    serializer decides about a request body arrives as a flag. */
module Views {
  import opened Wrappers
  import opened Ipv4
  import opened AddrText
  import opened Utils
  import opened Ports

  /** The rows the handlers read and write: the CIDR text of each subnet,
      and the port rows in the store's order (a port is named by its
      position). */
  datatype Store = Store(subnets: map<SubnetId, string>, ports: seq<Port>)

  /** Why a request is answered with an error instead of a change. */
  datatype Refusal =
    | NotFound              // no row has the id in the URL (404)
    | MissingSubnet         // the body names a subnet no row has (`Subnet.DoesNotExist`)
    | InvalidCidr           // `valid_cidr` refused the CIDR text
    | CannotFitPorts        // the new block has fewer addresses than the subnet has ports
    | PoolExhausted         // `allocate_ip` found no free host
    | Raised(error: NetError) // ipaddress raised while the handler ran
    | Duplicate             // the store refused a save under the (ip, subnet_id) constraint
    | Rejected              // the serializer refused the body or its save

  /** The store after a request and the refusal it was answered with, if
      any. A refused request can still have changed the store. */
  datatype Outcome = Outcome(store: Store, refusal: Option<Refusal>)

  // ---------------------------------------------------------------------------
  // Creating a subnet

  /** `post` on the subnet list: the CIDR text must pass `valid_cidr`; the
      serializer then decides (`accepted`) and the row is stored under its
      fresh key `s`. */
  function PostSubnet(st: Store, s: SubnetId, cidr: string, accepted: bool): (r: Outcome)
    requires s !in st.subnets
    ensures r.refusal.None? <==> ValidCidr(cidr) && accepted
    ensures !ValidCidr(cidr) ==> r.refusal == Some(InvalidCidr)
    ensures r.refusal.Some? ==> r.store == st
    ensures r.refusal.None? ==> r.store.ports == st.ports && r.store.subnets == st.subnets[s := cidr]
  {
    if !ValidCidr(cidr) then Outcome(st, Some(InvalidCidr))
    else if !accepted then Outcome(st, Some(Rejected))
    else Outcome(st.(subnets := st.subnets[s := cidr]), None)
  }

  // ---------------------------------------------------------------------------
  // Creating a port

  /** `post` on the port list: the new port of subnet `s` gets
      `allocate_ip(cidr of s, addresses of the ports of s)`; an exhausted
      subnet refuses the request. */
  function PostPort(st: Store, s: SubnetId, accepted: bool): (r: Outcome)
    ensures r.refusal.Some? ==> r.store == st
    ensures r.refusal.None? ==> r.store.subnets == st.subnets
  {
    if s !in st.subnets then Outcome(st, Some(MissingSubnet))
    else
      match AllocateIp(st.subnets[s], IpsOf(st.ports, s))
      case Err(e) => Outcome(st, Some(Raised(e)))
      case Ok(ip) =>
        if ip == "" then Outcome(st, Some(PoolExhausted))
        else if !accepted then Outcome(st, Some(Rejected))
        else
          match AddPort(st.ports, Port(ip, s))
          case None => Outcome(st, Some(Duplicate))
          case Some(ports) => Outcome(st.(ports := ports), None)
  }

  /** Port creation on a subnet whose CIDR text parses strictly: it is
      refused as exhausted exactly when every host is held by a port of the
      subnet, the store's constraint never refuses it, and on success the new
      port holds the lowest host no port of the subnet holds. */
  lemma PostPortAllocates(st: Store, s: SubnetId, accepted: bool, c: Cidr)
    requires s in st.subnets && ParseNetwork(st.subnets[s], true) == Ok(c)
    ensures var r := PostPort(st, s, accepted);
            && (r.refusal == Some(PoolExhausted) <==> forall h: Addr :: c.IsHost(h) ==> Render(h) in IpsOf(st.ports, s))
            && r.refusal != Some(Duplicate)
            && (r.refusal.None? <==> accepted && LowestFreeHost(c, IpsOf(st.ports, s)).Some?)
            && (r.refusal.None? ==>
                  r.store.ports == st.ports + [Port(Render(LowestFreeHost(c, IpsOf(st.ports, s)).value), s)])
  {
    var lowest := LowestFreeHost(c, IpsOf(st.ports, s));
    AllocatesLowest(st.subnets[s], IpsOf(st.ports, s), c);
    if lowest.Some? {
      IpsOfMembers(st.ports, s, Render(lowest.value));
    }
  }

  /** `allocate_ip` on a text that parses strictly answers with the text of
      the lowest free host, or "" when there is none. */
  lemma AllocatesLowest(cidr: string, occupied: seq<string>, c: Cidr)
    requires ParseNetwork(cidr, true) == Ok(c)
    ensures var lowest := LowestFreeHost(c, occupied);
            AllocateIp(cidr, occupied) == Ok(if lowest.Some? then Render(lowest.value) else "")
    ensures LowestFreeHost(c, occupied).Some? ==> Render(LowestFreeHost(c, occupied).value) != ""
  {
    if LowestFreeHost(c, occupied).Some? {
      RenderShape(LowestFreeHost(c, occupied).value);
    }
  }

  /** A CIDR text with host bits set is accepted for a new subnet, and every
      later port creation on that subnet raises. */
  lemma HostBitsSubnetUnusable(st: Store, s: SubnetId, c: Cidr, accepted: bool)
    requires s !in st.subnets && !c.Aligned()
    ensures PostSubnet(st, s, CidrText(c), true).refusal.None?
    ensures PostPort(PostSubnet(st, s, CidrText(c), true).store, s, accepted) ==
            Outcome(PostSubnet(st, s, CidrText(c), true).store, Some(Raised(HostBitsSet)))
  {
    HostBitsPassValidation(c, IpsOf(st.ports, s), 0);
  }

  // ---------------------------------------------------------------------------
  // Reading a subnet

  /** `get` on one subnet: its utilisation is `compute_ips(cidr of s,
      addresses of the ports of s)`. */
  function SubnetUsage(st: Store, s: SubnetId): (r: Result<Usage, Refusal>)
    ensures s !in st.subnets ==> r == Err(NotFound)
    ensures s in st.subnets && ParseNetwork(st.subnets[s], true).Err? ==>
              r == Err(Raised(ParseNetwork(st.subnets[s], true).error))
  {
    if s !in st.subnets then Err(NotFound)
    else
      match ComputeIps(st.subnets[s], IpsOf(st.ports, s))
      case Err(e) => Err(Raised(e))
      case Ok(u) => Ok(u)
  }

  /** Distinct texts make a set of the same size. */
  lemma {:induction false} DistinctSetSize(q: seq<string>)
    requires Distinct(q)
    ensures |AsSet(q)| == |q|
    decreases |q|
  {
    if |q| > 0 {
      var init := q[..|q| - 1];
      assert Distinct(init);
      DistinctSetSize(init);
      assert AsSet(q) == AsSet(init) + {q[|q| - 1]};
      assert q[|q| - 1] !in AsSet(init);
    }
  }

  /** Under the store's constraint the addresses of one subnet's ports are
      distinct. */
  lemma {:induction false} IpsUpToDistinct(ports: seq<Port>, s: SubnetId, i: nat)
    requires UniqueIps(ports) && i <= |ports|
    ensures Distinct(IpsUpTo(ports, s, i))
    decreases i
  {
    if i > 0 {
      IpsUpToDistinct(ports, s, i - 1);
      if ports[i - 1].subnet == s && ports[i - 1].ip in IpsUpTo(ports, s, i - 1) {
        IpsUpToFrom(ports, s, i - 1, ports[i - 1].ip);
        assert false;
      }
    }
  }

  /** Under the store's constraint a subnet's free count is its block size
      less its port count less two. */
  lemma SubnetUsageCounts(st: Store, s: SubnetId, c: Cidr)
    requires UniqueIps(st.ports) && s in st.subnets && ParseNetwork(st.subnets[s], true) == Ok(c)
    requires SubnetUsage(st, s).Ok?
    ensures SubnetUsage(st, s).value.total == c.Total()
    ensures SubnetUsage(st, s).value.available == c.Total() - Count(st.ports, s) - 2
    ensures SubnetUsage(st, s).value.netmask == Netmask(c.prefix)
  {
    IpsUpToDistinct(st.ports, s, |st.ports|);
    DistinctSetSize(IpsOf(st.ports, s));
  }

  // ---------------------------------------------------------------------------
  // Changing a subnet's CIDR

  /** The texts a CIDR change hands out: `allocate_ip_many(cidr, n)`. */
  lemma PoolTexts(cidr: string, c: Cidr, n: nat)
    requires ParseNetwork(cidr, true) == Ok(c) && c.network + n < AddressSpace
    ensures AllocateIpMany(cidr, n) == Ok(HostTexts(c, n))
    ensures Distinct(HostTexts(c, n))
  {
    EnumerateDistinct(c, n);
  }

  /** Lines 148-157: the new block must have a free count (with nothing
      occupied) of at least the subnet's port count; the ports of the subnet
      then take the enumerated texts in store order, each saved on its own. */
  function Readdress(st: Store, s: SubnetId, cidr: string): (r: Outcome)
    ensures r.store.subnets == st.subnets
    ensures r.refusal != Some(Duplicate) && r.refusal.Some? ==> r.store == st
  {
    match ComputeIps(cidr, [])
    case Err(e) => Outcome(st, Some(Raised(e)))
    case Ok(u) =>
      if u.available < Count(st.ports, s) then Outcome(st, Some(CannotFitPorts))
      else
        match AllocateIpMany(cidr, u.available as nat)
        case Err(e) => Outcome(st, Some(Raised(e)))
        case Ok(pool) =>
          var rw := Reassign(st.ports, s, pool, 0);
          Outcome(st.(ports := rw.ports), if rw.refused then Some(Duplicate) else None)
  }

  /** `put` on one subnet: the new CIDR text must pass `valid_cidr`; when it
      differs from the stored text the subnet's ports are re-addressed; the
      serializer then decides whether the subnet row itself is saved. */
  function PutSubnet(st: Store, s: SubnetId, cidr: string, accepted: bool): (r: Outcome)
    ensures s !in st.subnets ==> r == Outcome(st, Some(NotFound))
    ensures s in st.subnets && !ValidCidr(cidr) ==> r == Outcome(st, Some(InvalidCidr))
    ensures s in st.subnets && st.subnets[s] == cidr ==> r.store.ports == st.ports
    ensures r.refusal.None? ==> s in st.subnets && r.store.subnets == st.subnets[s := cidr]
    ensures r.refusal.Some? ==> r.store.subnets == st.subnets
  {
    if s !in st.subnets then Outcome(st, Some(NotFound))
    else if !ValidCidr(cidr) then Outcome(st, Some(InvalidCidr))
    else
      var moved := if st.subnets[s] == cidr then Outcome(st, None) else Readdress(st, s, cidr);
      if moved.refusal.Some? then moved
      else if !accepted then Outcome(moved.store, Some(Rejected))
      else Outcome(moved.store.(subnets := st.subnets[s := cidr]), None)
  }

  /** The free count `compute_ips(cidr, [])` reports is the block size less two. */
  lemma EmptyAvailable(c: Cidr)
    requires c.Aligned() && Utilisation(c, []).Ok?
    ensures Utilisation(c, []).value.available == c.Total() - 2
  {
    assert AsSet([]) == {};
  }

  /** A block with at least three addresses has prefix length at most 30. */
  lemma ThreeAddressesMeansShort(c: Cidr)
    requires c.Total() >= 3
    ensures c.prefix <= 30
  {
  }

  /** A CIDR change to a block that parses strictly is refused for capacity
      exactly when the block has fewer than (port count + 2) addresses, and
      such a refusal touches no row. */
  lemma PutSubnetCapacity(st: Store, s: SubnetId, cidr: string, accepted: bool, c: Cidr)
    requires s in st.subnets && st.subnets[s] != cidr
    requires ParseNetwork(cidr, true) == Ok(c) && Utilisation(c, []).Ok?
    ensures PutSubnet(st, s, cidr, accepted).refusal == Some(CannotFitPorts) <==> c.Total() - 2 < Count(st.ports, s)
    ensures PutSubnet(st, s, cidr, accepted).refusal == Some(CannotFitPorts) ==> PutSubnet(st, s, cidr, accepted).store == st
  {
    StrictAndLenient(cidr);
    EmptyAvailable(c);
  }

  /** The texts a CIDR change to block `c` hands out when nothing is
      occupied: those of `network + 1` up to the address before the
      broadcast address. */
  function Pool(c: Cidr): (r: seq<string>)
    requires c.Aligned() && c.Total() >= 2
    ensures |r| == c.Total() - 2 && c.network + c.Total() <= AddressSpace
    ensures forall j :: 0 <= j < |r| ==> r[j] == Render(c.network + j + 1)
  {
    AlignedBlockFits(c);
    HostTexts(c, c.Total() - 2)
  }

  /** Re-addressing into a block that parses strictly and fits the
      subnet's ports hands out the texts of `network + 1` onwards and runs
      the one-by-one rewrite over them. */
  lemma ReaddressFits(st: Store, s: SubnetId, cidr: string, c: Cidr)
    requires ParseNetwork(cidr, true) == Ok(c) && Utilisation(c, []).Ok?
    requires Count(st.ports, s) <= c.Total() - 2
    ensures var rw := Reassign(st.ports, s, Pool(c), 0);
            Readdress(st, s, cidr) == Outcome(st.(ports := rw.ports), if rw.refused then Some(Duplicate) else None)
  {
    EmptyAvailable(c);
    AlignedBlockFits(c);
    PoolTexts(cidr, c, c.Total() - 2);
  }

  /** The port of rank `j` among a subnet's ports is handed `network + j + 1`,
      which is a host of the new block. */
  lemma PoolHosts(ports: seq<Port>, s: SubnetId, c: Cidr)
    requires c.Aligned() && Count(ports, s) <= c.Total() - 2
    ensures c.network + c.Total() <= AddressSpace
    ensures forall t :: 0 <= t < |ports| && ports[t].subnet == s ==>
              Rank(ports, s, t) < |Pool(c)|
              && Pool(c)[Rank(ports, s, t)] == Render(c.network + Rank(ports, s, t) + 1)
              && c.IsHost(c.network + Rank(ports, s, t) + 1)
  {
    AlignedBlockFits(c);
    forall t | 0 <= t < |ports| && ports[t].subnet == s
      ensures Rank(ports, s, t) < c.Total() - 2
      ensures c.IsHost(c.network + Rank(ports, s, t) + 1)
    {
      RankGrows(ports, s, t, |ports|);
      PoolSlotIsHost(c, Rank(ports, s, t));
    }
  }

  /** Slot `j` of the pool is a host of the block. */
  lemma PoolSlotIsHost(c: Cidr, j: nat)
    requires c.Aligned() && j < c.Total() - 2
    ensures c.IsHost(c.network + j + 1)
  {
    ThreeAddressesMeansShort(c);
    BlockOfFour(c.prefix);
  }

  /** A CIDR change into a block that fits runs the rewrite, keeps its
      outcome, and saves the subnet row only when the serializer accepts. */
  lemma PutSubnetRewrites(st: Store, s: SubnetId, cidr: string, accepted: bool, c: Cidr)
    requires s in st.subnets && st.subnets[s] != cidr
    requires ParseNetwork(cidr, true) == Ok(c) && Utilisation(c, []).Ok?
    requires Count(st.ports, s) <= c.Total() - 2
    ensures var rw := Reassign(st.ports, s, Pool(c), 0);
            PutSubnet(st, s, cidr, accepted) ==
              if rw.refused then Outcome(st.(ports := rw.ports), Some(Duplicate))
              else if !accepted then Outcome(st.(ports := rw.ports), Some(Rejected))
              else Outcome(Store(st.subnets[s := cidr], rw.ports), None)
  {
    StrictAndLenient(cidr);
    ReaddressFits(st, s, cidr, c);
  }

  /** A CIDR change that fits re-addresses the subnet's ports: the port of
      rank `j` among them is handed `network + j + 1`, a host of the new
      block; the rewrite completes exactly when no port is handed an address
      a later port of the subnet still holds, and then every port of the
      subnet holds its new address. The ports are rewritten whether or not
      the serializer then saves the subnet row: the change is not atomic. */
  lemma PutSubnetReaddresses(st: Store, s: SubnetId, cidr: string, accepted: bool, c: Cidr)
    requires s in st.subnets && st.subnets[s] != cidr
    requires ParseNetwork(cidr, true) == Ok(c) && Utilisation(c, []).Ok?
    requires Count(st.ports, s) <= c.Total() - 2
    ensures var pool := Pool(c);
            var r := PutSubnet(st, s, cidr, accepted);
            && (r.refusal != Some(Duplicate) <==> NoClashFrom(st.ports, s, pool, 0))
            && (r.refusal != Some(Duplicate) ==> r.store.ports == Readdressed(st.ports, s, pool))
            && (r.refusal == Some(Duplicate) ==> exists a :: 0 <= a <= |st.ports| && r.store.ports == Partial(st.ports, s, pool, a))
            && (r.refusal != Some(Duplicate) ==> r.refusal == (if accepted then None else Some(Rejected)))
            && (r.refusal == Some(Rejected) ==> r.store.subnets[s] == st.subnets[s])
  {
    PutSubnetRewrites(st, s, cidr, accepted, c);
    var pool := Pool(c);
    PoolDistinct(c);
    ReassignOutcome(st.ports, s, pool);
    var rw := Reassign(st.ports, s, pool, 0);
    var r := PutSubnet(st, s, cidr, accepted);
    assert r.store.ports == rw.ports;
    if rw.refused {
      var a :| 0 <= a <= |st.ports| && rw.ports == Partial(st.ports, s, pool, a);
      assert r.store.ports == Partial(st.ports, s, pool, a);
    }
  }

  /** The pool's texts are pairwise distinct. */
  lemma PoolDistinct(c: Cidr)
    requires c.Aligned() && c.Total() >= 2
    ensures Distinct(Pool(c))
  {
    AlignedBlockFits(c);
    var n: nat := c.Total() - 2;
    EnumerateDistinct(c, n);
    assert Pool(c) == HostTexts(c, n);
  }

  /** Every completed re-addressing keeps the store's constraint, and so does
      a partial one: each save is checked on its own. */
  lemma {:induction false} ReassignKeepsUnique(ports: seq<Port>, s: SubnetId, pool: seq<string>, i: nat)
    requires UniqueIps(ports) && i <= |ports|
    ensures UniqueIps(Reassign(ports, s, pool, i).ports)
    decreases |ports| - i
  {
    if i < |ports| && ports[i].subnet == s && Rank(ports, s, i) < |pool| {
      var p := Port(pool[Rank(ports, s, i)], s);
      if !Clash(ports, i, p) {
        SaveKeepsUnique(ports, i, p);
        ReassignKeepsUnique(ports[i := p], s, pool, i + 1);
      }
    } else if i < |ports| && ports[i].subnet != s {
      ReassignKeepsUnique(ports, s, pool, i + 1);
    }
  }

  /** A subnet edit keeps the store's constraint, whatever its outcome. */
  lemma PutSubnetKeepsUnique(st: Store, s: SubnetId, cidr: string, accepted: bool)
    requires UniqueIps(st.ports)
    ensures UniqueIps(PutSubnet(st, s, cidr, accepted).store.ports)
  {
    if s in st.subnets && ValidCidr(cidr) && st.subnets[s] != cidr {
      match ComputeIps(cidr, [])
      case Err(_) =>
      case Ok(u) =>
        if u.available >= Count(st.ports, s) {
          match AllocateIpMany(cidr, u.available as nat)
          case Err(_) =>
          case Ok(pool) => ReassignKeepsUnique(st.ports, s, pool, 0);
        }
    }
  }

  // ---------------------------------------------------------------------------
  // Updating a port

  /** Saving port `i` as `p` once the serializer has decided. */
  function SaveMoved(st: Store, i: nat, p: Port, accepted: bool): (r: Outcome)
    requires i < |st.ports|
    ensures r.store.subnets == st.subnets && |r.store.ports| == |st.ports|
    ensures r.refusal.Some? ==> r.store == st
  {
    if !accepted then Outcome(st, Some(Rejected))
    else
      match SavePort(st.ports, i, p)
      case None => Outcome(st, Some(Duplicate))
      case Some(ports) => Outcome(st.(ports := ports), None)
  }

  /** Lines 162-170: port `i` is given `allocate_ip(cidr of s, addresses of
      the ports of s)` and moved to subnet `s`; exhaustion refuses the move. */
  function Relocate(st: Store, i: nat, s: SubnetId, accepted: bool): (r: Outcome)
    requires i < |st.ports|
    ensures r.store.subnets == st.subnets && |r.store.ports| == |st.ports|
    ensures r.refusal.Some? ==> r.store == st
  {
    if s !in st.subnets then Outcome(st, Some(MissingSubnet))
    else
      match AllocateIp(st.subnets[s], IpsOf(st.ports, s))
      case Err(e) => Outcome(st, Some(Raised(e)))
      case Ok(ip) =>
        if ip == "" then Outcome(st, Some(PoolExhausted))
        else SaveMoved(st, i, Port(ip, s), accepted)
  }

  /** `put` on one port as written: the test `curr_model.subnet_id !=
      data['subnet_id']` compares the related subnet row with the id text in
      the body, which never compare equal, so every update re-runs the
      allocator against subnet `s` and the body's `ip` is always
      overwritten. */
  function PutPortAsWritten(st: Store, i: nat, s: SubnetId, ip: string, accepted: bool): (r: Outcome)
    ensures i >= |st.ports| ==> r == Outcome(st, Some(NotFound))
    ensures i < |st.ports| ==> r == Relocate(st, i, s, accepted)
  {
    if i >= |st.ports| then Outcome(st, Some(NotFound)) else Relocate(st, i, s, accepted)
  }

  /** `put` on one port as intended: the allocator runs only when the port
      moves to another subnet; otherwise the body's `ip` is saved. */
  function PutPort(st: Store, i: nat, s: SubnetId, ip: string, accepted: bool): (r: Outcome)
    ensures r.store.subnets == st.subnets
    ensures r.refusal.Some? ==> r.store == st
  {
    if i >= |st.ports| then Outcome(st, Some(NotFound))
    else if st.ports[i].subnet != s then Relocate(st, i, s, accepted)
    else SaveMoved(st, i, Port(ip, s), accepted)
  }

  /** A move to a subnet whose CIDR text parses strictly: refused as
      exhausted exactly when every host is held by a port of the destination,
      never refused by the store's constraint, and on success the port holds
      the lowest host no port of the destination holds. */
  lemma RelocateAllocates(st: Store, i: nat, s: SubnetId, accepted: bool, c: Cidr)
    requires i < |st.ports| && s in st.subnets && ParseNetwork(st.subnets[s], true) == Ok(c)
    ensures var r := Relocate(st, i, s, accepted);
            && (r.refusal == Some(PoolExhausted) <==> forall h: Addr :: c.IsHost(h) ==> Render(h) in IpsOf(st.ports, s))
            && r.refusal != Some(Duplicate)
            && (r.refusal.None? <==> accepted && LowestFreeHost(c, IpsOf(st.ports, s)).Some?)
            && (r.refusal.None? ==>
                  r.store.ports == st.ports[i := Port(Render(LowestFreeHost(c, IpsOf(st.ports, s)).value), s)])
  {
    var lowest := LowestFreeHost(c, IpsOf(st.ports, s));
    if lowest.Some? {
      RelocateMoves(st, i, s, accepted, c);
    } else {
      AllocatesLowest(st.subnets[s], IpsOf(st.ports, s), c);
    }
  }

  /** A move to a subnet with a free host saves the port with the lowest
      one, and the store's constraint cannot refuse it. */
  lemma RelocateMoves(st: Store, i: nat, s: SubnetId, accepted: bool, c: Cidr)
    requires i < |st.ports| && s in st.subnets && ParseNetwork(st.subnets[s], true) == Ok(c)
    requires LowestFreeHost(c, IpsOf(st.ports, s)).Some?
    ensures var p := Port(Render(LowestFreeHost(c, IpsOf(st.ports, s)).value), s);
            Relocate(st, i, s, accepted) ==
              if accepted then Outcome(st.(ports := st.ports[i := p]), None) else Outcome(st, Some(Rejected))
  {
    var ip := Render(LowestFreeHost(c, IpsOf(st.ports, s)).value);
    AllocatesLowest(st.subnets[s], IpsOf(st.ports, s), c);
    IpsOfMembers(st.ports, s, ip);
    assert !Clash(st.ports, i, Port(ip, s));
  }

  /** The intended update keeps the body's address when the port stays in
      its subnet: resubmitting a port unchanged leaves the store as it was. */
  lemma PutPortResubmit(st: Store, i: nat, accepted: bool)
    requires UniqueIps(st.ports) && i < |st.ports|
    ensures accepted ==> PutPort(st, i, st.ports[i].subnet, st.ports[i].ip, accepted) == Outcome(st, None)
    ensures !accepted ==> PutPort(st, i, st.ports[i].subnet, st.ports[i].ip, accepted) == Outcome(st, Some(Rejected))
  {
    var p := st.ports[i];
    assert p == Port(p.ip, p.subnet);
    if accepted {
      assert !Clash(st.ports, i, p);
      assert st.ports[i := p] == st.ports;
    }
  }

  /** The update as written re-addresses a port that stays in its subnet:
      resubmitting a port unchanged either moves it to another address or is
      refused because its own subnet is full. */
  lemma PutPortAsWrittenReaddresses(st: Store, i: nat, c: Cidr)
    requires i < |st.ports| && st.ports[i].subnet in st.subnets
    requires ParseNetwork(st.subnets[st.ports[i].subnet], true) == Ok(c)
    ensures var r := PutPortAsWritten(st, i, st.ports[i].subnet, st.ports[i].ip, true);
            && (r.refusal.None? ==> r.store.ports[i].ip != st.ports[i].ip)
            && (r.refusal.Some? ==> r.refusal == Some(PoolExhausted))
  {
    var s := st.ports[i].subnet;
    RelocateAllocates(st, i, s, true, c);
    IpsOfMembers(st.ports, s, st.ports[i].ip);
  }

  /** A move keeps the store's constraint. */
  lemma RelocateKeepsUnique(st: Store, i: nat, s: SubnetId, accepted: bool)
    requires UniqueIps(st.ports) && i < |st.ports|
    ensures UniqueIps(Relocate(st, i, s, accepted).store.ports)
  {
    if s in st.subnets {
      match AllocateIp(st.subnets[s], IpsOf(st.ports, s))
      case Err(_) =>
      case Ok(a) =>
        if SavePort(st.ports, i, Port(a, s)).Some? {
          SaveKeepsUnique(st.ports, i, Port(a, s));
        }
    }
  }

  /** The intended port update keeps the store's constraint. */
  lemma PutPortKeepsUnique(st: Store, i: nat, s: SubnetId, ip: string, accepted: bool)
    requires UniqueIps(st.ports)
    ensures UniqueIps(PutPort(st, i, s, ip, accepted).store.ports)
  {
    if i < |st.ports| {
      if st.ports[i].subnet != s {
        RelocateKeepsUnique(st, i, s, accepted);
      } else if SavePort(st.ports, i, Port(ip, s)).Some? {
        SaveKeepsUnique(st.ports, i, Port(ip, s));
      }
    }
  }

  /** The port update as written keeps the store's constraint. */
  lemma PutPortAsWrittenKeepsUnique(st: Store, i: nat, s: SubnetId, ip: string, accepted: bool)
    requires UniqueIps(st.ports)
    ensures UniqueIps(PutPortAsWritten(st, i, s, ip, accepted).store.ports)
  {
    if i < |st.ports| {
      RelocateKeepsUnique(st, i, s, accepted);
    }
  }

  /** Port creation keeps the store's constraint. */
  lemma PostPortKeepsUnique(st: Store, s: SubnetId, accepted: bool)
    requires UniqueIps(st.ports)
    ensures UniqueIps(PostPort(st, s, accepted).store.ports)
  {
    if s in st.subnets {
      match AllocateIp(st.subnets[s], IpsOf(st.ports, s))
      case Err(_) =>
      case Ok(a) =>
        if AddPort(st.ports, Port(a, s)).Some? {
          AddKeepsUnique(st.ports, Port(a, s));
        }
    }
  }
}
