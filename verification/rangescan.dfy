/** What the range scan of `compute_ips` reports. When the two addresses the
    loop visits past the last host (the broadcast address and the one after
    it) are free, the reported runs are exactly the maximal runs of free
    hosts, except that an occupied last host makes the loop open a bogus
    trailing run {broadcast, broadcast - 1}. A block that ends at
    255.255.255.255 makes the scan raise. */
module RangeScan {
  import opened Wrappers
  import opened Ipv4
  import opened Utils
  import opened Runs
  import opened AddrText

  /** The block has at least three addresses and the two addresses the scan
      visits beyond its last host (the broadcast address and the one after
      it) exist and are free. */
  ghost predicate TailFree(network: Addr, total: nat, free: Addr -> bool)
  {
    && 3 <= total
    && network + total < AddressSpace
    && free(network + total - 1)
    && free(network + total)
  }

  // ---------------------------------------------------------------------------
  // The loop invariant of the scan, with `lim` the last address visited

  /** The run the scan has open: free from `s` through `lim`, and starting
      after an occupied address or at the first address visited. */
  ghost predicate OpenRun(network: Addr, free: Addr -> bool, s: Addr, lim: Addr)
  {
    && network + 1 <= s <= lim
    && (s == network + 1 || !free(s - 1))
    && forall a: Addr :: s <= a <= lim ==> free(a)
  }

  /** The closed runs are maximal free runs ending before `lim`, the open run
      (if any) comes after them, and every free address visited lies in a
      closed run or the open one. */
  ghost predicate ScanInv(network: Addr, free: Addr -> bool, x: nat, open: Option<Addr>, acc: seq<IpRange>)
  {
    && 1 <= x
    && network + x - 1 < AddressSpace
    && var lim: Addr := network + x - 1;
    && RunsWithin(network + 1, lim - 1, acc)
    && RunsSorted(acc)
    && RunsFree(free, acc)
    && RunsMaximal(network + 1, lim, free, acc)
    && (match open
        case None => x == 1 || !free(lim)
        case Some(s) => OpenRun(network, free, s, lim) && forall i :: 0 <= i < |acc| ==> acc[i].end + 1 < s)
    && forall a: Addr {:trigger InRun(acc, a)} :: network + 1 <= a <= lim && free(a) ==>
         InRun(acc, a) || (open.Some? && open.value <= a)
  }

  /** Visiting a free address keeps the invariant. */
  lemma StepFree(network: Addr, free: Addr -> bool, x: nat, open: Option<Addr>, acc: seq<IpRange>)
    requires ScanInv(network, free, x, open, acc)
    requires network + x < AddressSpace && free(network + x as Addr)
    ensures ScanInv(network, free, x + 1, if open.None? then Some(network + x as Addr) else open, acc)
  {
    var lim: Addr, curr: Addr := network + x - 1, network + x;
    MaximalGrow(network + 1, lim, curr, free, acc);
    var open' := if open.None? then Some(curr) else open;
    forall a: Addr {:trigger InRun(acc, a)} | network + 1 <= a <= curr && free(a)
      ensures InRun(acc, a) || (open'.Some? && open'.value <= a)
    {
      if a < curr {
        assert network + 1 <= a <= lim;
      }
    }
  }

  /** Visiting an occupied address with a run open keeps the invariant,
      closing that run just before the occupied address. */
  lemma StepCloseRun(network: Addr, free: Addr -> bool, x: nat, s: Addr, acc: seq<IpRange>)
    requires ScanInv(network, free, x, Some(s), acc)
    requires network + x < AddressSpace && !free(network + x as Addr)
    ensures ScanInv(network, free, x + 1, None, acc + [IpRange(s, network + x - 1)])
  {
    var lim: Addr, curr: Addr := network + x - 1, network + x;
    var r := IpRange(s, lim);
    WithinAppend(network + 1, lim, acc, r);
    SortedAppend(acc, r);
    FreeAppend(free, acc, r);
    MaximalGrow(network + 1, lim, curr, free, acc);
    MaximalAppend(network + 1, curr, free, acc, r);
    forall a: Addr {:trigger InRun(acc + [r], a)} | network + 1 <= a <= curr && free(a)
      ensures InRun(acc + [r], a)
    {
      assert network + 1 <= a <= lim;
      assert InRun(acc, a) || s <= a;
      InRunAppend(acc, r, a);
    }
  }

  /** Visiting an occupied address keeps the invariant, closing the open run. */
  lemma StepOccupied(network: Addr, free: Addr -> bool, x: nat, open: Option<Addr>, acc: seq<IpRange>)
    requires ScanInv(network, free, x, open, acc)
    requires network + x < AddressSpace && !free(network + x as Addr)
    ensures ScanInv(network, free, x + 1, None,
                    if open.Some? then acc + [IpRange(open.value, network + x - 1)] else acc)
  {
    if open.Some? {
      StepCloseRun(network, free, x, open.value, acc);
    } else {
      var lim: Addr, curr: Addr := network + x - 1, network + x;
      MaximalGrow(network + 1, lim, curr, free, acc);
      forall a: Addr {:trigger InRun(acc, a)} | network + 1 <= a <= curr && free(a)
        ensures InRun(acc, a)
      {
        assert network + 1 <= a <= lim;
      }
    }
  }

  /** What the scan reports once the tail is free: the maximal free runs of
      the hosts, followed by the bogus run {broadcast, broadcast - 1} exactly
      when the last host is occupied. */
  ghost predicate ScanOutcome(network: Addr, total: nat, free: Addr -> bool, ips: seq<IpRange>)
    requires 3 <= total && network + total <= AddressSpace
  {
    && |ips| >= 1
    && (free(network + total - 2) ==> RangesClean(network + 1, network + total - 2, free, ips))
    && (!free(network + total - 2) ==>
          && RangesClean(network + 1, network + total - 2, free, ips[..|ips| - 1])
          && ips[|ips| - 1] == IpRange(network + total - 1, network + total - 2))
  }

  /** At the end of the loop the scan has a run open (the broadcast address
      is free) and every closed run ends before the last host. */
  lemma ScanEndShape(network: Addr, total: nat, free: Addr -> bool, open: Option<Addr>, acc: seq<IpRange>)
    requires TailFree(network, total, free)
    requires ScanInv(network, free, total + 1, open, acc)
    ensures open.Some? && network + 1 <= open.value <= network + total - 1
    ensures RunsWithin(network + 1, network + total - 3, acc)
  {
    var lim: Addr := network + total;
    forall i | 0 <= i < |acc|
      ensures acc[i].end <= network + total - 3
    {
      assert acc[i].end < lim;
      assert !free(acc[i].end + 1);
    }
  }

  /** The end of the loop when the last host is free: the open run ends
      there, and the runs are the maximal free runs of the hosts. */
  lemma ScanEndFree(network: Addr, total: nat, free: Addr -> bool, open: Option<Addr>, acc: seq<IpRange>)
    requires TailFree(network, total, free) && free(network + total - 2)
    requires ScanInv(network, free, total + 1, open, acc)
    ensures ScanFrom(network, total, free, total + 1, open, acc).Ok?
    ensures RangesClean(network + 1, network + total - 2, free, ScanFrom(network, total, free, total + 1, open, acc).value)
  {
    ScanEndShape(network, total, free, open, acc);
    var lo: Addr, hi: Addr, lim: Addr := network + 1, network + total - 2, network + total;
    var s := open.value;
    var r := IpRange(s, hi);
    assert ScanFrom(network, total, free, total + 1, open, acc) == Ok(acc + [r]);
    assert s <= hi;
    WithinAppend(lo, hi, acc, r);
    SortedAppend(acc, r);
    FreeAppend(free, acc, r);
    MaximalAppend(lo, hi, free, acc, r);
    forall a: Addr {:trigger InRun(acc, a)} | lo <= a <= hi && free(a)
      ensures InRun(acc, a) || r.start <= a <= r.end
    {
      assert a <= lim;
    }
    CoverAppend(lo, hi, free, acc, r);
  }

  /** The end of the loop when the last host is occupied: the open run is
      the broadcast address alone, closed as {broadcast, broadcast - 1}, and
      the runs before it are the maximal free runs of the hosts. */
  lemma ScanEndOccupied(network: Addr, total: nat, free: Addr -> bool, open: Option<Addr>, acc: seq<IpRange>)
    requires TailFree(network, total, free) && !free(network + total - 2)
    requires ScanInv(network, free, total + 1, open, acc)
    ensures ScanFrom(network, total, free, total + 1, open, acc) ==
            Ok(acc + [IpRange(network + total - 1, network + total - 2)])
    ensures RangesClean(network + 1, network + total - 2, free, acc)
  {
    ScanEndShape(network, total, free, open, acc);
    var lo: Addr, hi: Addr, lim: Addr := network + 1, network + total - 2, network + total;
    assert open.value == hi + 1;
    forall a: Addr {:trigger InRun(acc, a)} | lo <= a <= hi && free(a)
      ensures InRun(acc, a)
    {
      assert a <= lim;
    }
  }

  /** At the end of the loop, with the tail free, the scan reports what
      `ScanOutcome` describes. */
  lemma ScanEnd(network: Addr, total: nat, free: Addr -> bool, open: Option<Addr>, acc: seq<IpRange>)
    requires TailFree(network, total, free)
    requires ScanInv(network, free, total + 1, open, acc)
    ensures ScanFrom(network, total, free, total + 1, open, acc).Ok?
    ensures ScanOutcome(network, total, free, ScanFrom(network, total, free, total + 1, open, acc).value)
  {
    if free(network + total - 2) {
      ScanEndFree(network, total, free, open, acc);
      ScanEndShape(network, total, free, open, acc);
    } else {
      ScanEndOccupied(network, total, free, open, acc);
      var ips := acc + [IpRange(network + total - 1, network + total - 2)];
      assert ips[..|ips| - 1] == acc;
    }
  }

  /** One turn of the loop, as the scan function takes it. */
  lemma ScanUnfold(network: Addr, total: nat, free: Addr -> bool, x: nat, open: Option<Addr>, acc: seq<IpRange>)
    requires 1 <= x <= total && network + total < AddressSpace
    ensures free(network + x as Addr) ==>
              ScanFrom(network, total, free, x, open, acc) ==
              ScanFrom(network, total, free, x + 1, if open.None? then Some(network + x as Addr) else open, acc)
    ensures !free(network + x as Addr) ==>
              ScanFrom(network, total, free, x, open, acc) ==
              ScanFrom(network, total, free, x + 1, None, if open.Some? then acc + [IpRange(open.value, network + x - 1)] else acc)
  {
  }

  /** One turn of the loop at a free address keeps the invariant and leaves
      the outcome of the scan unchanged. */
  lemma ScanStepFree(network: Addr, total: nat, free: Addr -> bool, x: nat, open: Option<Addr>, acc: seq<IpRange>)
    requires TailFree(network, total, free) && x <= total && free(network + x as Addr)
    requires ScanInv(network, free, x, open, acc)
    ensures ScanInv(network, free, x + 1, if open.None? then Some(network + x as Addr) else open, acc)
    ensures ScanFrom(network, total, free, x, open, acc) ==
            ScanFrom(network, total, free, x + 1, if open.None? then Some(network + x as Addr) else open, acc)
  {
    ScanUnfold(network, total, free, x, open, acc);
    StepFree(network, free, x, open, acc);
  }

  /** One turn of the loop at an occupied address keeps the invariant and
      leaves the outcome of the scan unchanged. */
  lemma ScanStepOccupied(network: Addr, total: nat, free: Addr -> bool, x: nat, open: Option<Addr>, acc: seq<IpRange>)
    requires TailFree(network, total, free) && x <= total && !free(network + x as Addr)
    requires ScanInv(network, free, x, open, acc)
    ensures ScanInv(network, free, x + 1, None, if open.Some? then acc + [IpRange(open.value, network + x - 1)] else acc)
    ensures ScanFrom(network, total, free, x, open, acc) ==
            ScanFrom(network, total, free, x + 1, None, if open.Some? then acc + [IpRange(open.value, network + x - 1)] else acc)
  {
    ScanUnfold(network, total, free, x, open, acc);
    StepOccupied(network, free, x, open, acc);
  }

  /** From any point where the invariant holds, the scan ends as `ScanEnd`
      describes. */
  lemma {:induction false} ScanRest(network: Addr, total: nat, free: Addr -> bool, x: nat, open: Option<Addr>, acc: seq<IpRange>)
    requires TailFree(network, total, free)
    requires x <= total + 1 && ScanInv(network, free, x, open, acc)
    ensures ScanFrom(network, total, free, x, open, acc).Ok?
    ensures ScanOutcome(network, total, free, ScanFrom(network, total, free, x, open, acc).value)
    decreases total + 1 - x, 1
  {
    if x > total {
      ScanEnd(network, total, free, open, acc);
    } else if free(network + x as Addr) {
      ScanRestFree(network, total, free, x, open, acc);
    } else {
      ScanRestOccupied(network, total, free, x, open, acc);
    }
  }

  /** `ScanRest` when the next address visited is free. */
  lemma {:induction false} ScanRestFree(network: Addr, total: nat, free: Addr -> bool, x: nat, open: Option<Addr>, acc: seq<IpRange>)
    requires TailFree(network, total, free) && x <= total && free(network + x as Addr)
    requires ScanInv(network, free, x, open, acc)
    ensures ScanFrom(network, total, free, x, open, acc).Ok?
    ensures ScanOutcome(network, total, free, ScanFrom(network, total, free, x, open, acc).value)
    decreases total + 1 - x, 0
  {
    var open' := if open.None? then Some(network + x as Addr) else open;
    ScanStepFree(network, total, free, x, open, acc);
    ScanRest(network, total, free, x + 1, open', acc);
  }

  /** `ScanRest` when the next address visited is occupied. */
  lemma {:induction false} ScanRestOccupied(network: Addr, total: nat, free: Addr -> bool, x: nat, open: Option<Addr>, acc: seq<IpRange>)
    requires TailFree(network, total, free) && x <= total && !free(network + x as Addr)
    requires ScanInv(network, free, x, open, acc)
    ensures ScanFrom(network, total, free, x, open, acc).Ok?
    ensures ScanOutcome(network, total, free, ScanFrom(network, total, free, x, open, acc).value)
    decreases total + 1 - x, 0
  {
    ScanStepOccupied(network, total, free, x, open, acc);
    ScanRest(network, total, free, x + 1, None, if open.Some? then acc + [IpRange(open.value, network + x - 1)] else acc);
  }

  /** With every address free the scan reports the host range as one run. */
  lemma ScanAllFree(network: Addr, total: nat, free: Addr -> bool)
    requires TailFree(network, total, free)
    requires forall a: Addr :: free(a)
    ensures ScanFrom(network, total, free, 1, None, []) == Ok([IpRange(network + 1, network + total - 2)])
  {
    ScanRest(network, total, free, 1, None, []);
    var ips := ScanFrom(network, total, free, 1, None, []).value;
    assert free(network + total - 2);
    AllFreeOneRange(network + 1, network + total - 2, free, ips);
  }

  /** A block that ends at 255.255.255.255 makes the scan raise: it visits
      the address after the broadcast address. */
  lemma {:induction false} ScanTopBlockFails(network: Addr, total: nat, free: Addr -> bool, x: nat, open: Option<Addr>, acc: seq<IpRange>)
    requires network + total == AddressSpace && 1 <= x <= total
    ensures ScanFrom(network, total, free, x, open, acc) == Err(AddressOutOfRange)
    decreases total - x
  {
    if network + x < AddressSpace {
      var curr: Addr := network + x;
      if free(curr) {
        ScanTopBlockFails(network, total, free, x + 1, if open.None? then Some(curr) else open, acc);
      } else {
        ScanTopBlockFails(network, total, free, x + 1, None, if open.Some? then acc + [IpRange(open.value, curr - 1)] else acc);
      }
    }
  }

  // ---------------------------------------------------------------------------
  // compute_ips on a parsed block

  /** `compute_ips` with the broadcast address and the one after it free
      reports what `ScanOutcome` describes over the host range
      [network + 1, broadcast - 1]: if the last host is free its runs are
      exactly the maximal free runs of hosts; if the last host is occupied
      they are those runs followed by the bogus run {broadcast, broadcast - 1}. */
  lemma ComputeIpsRanges(c: Cidr, occupied: seq<string>)
    requires c.Aligned() && c.prefix <= 30 && c.Broadcast() + 1 < AddressSpace
    requires FreeIn(AsSet(occupied))(c.Broadcast()) && FreeIn(AsSet(occupied))(c.Broadcast() + 1 as Addr)
    ensures c.Total() >= 4 && c.HostLo() == c.network + 1 && c.HostHi() == c.network + c.Total() - 2
    ensures Utilisation(c, occupied).Ok?
    ensures ScanOutcome(c.network, c.Total(), FreeIn(AsSet(occupied)), Utilisation(c, occupied).value.ips)
  {
    BlockOfFour(c.prefix);
    AlignedBlockFits(c);
    var free := FreeIn(AsSet(occupied));
    assert TailFree(c.network, c.Total(), free);
    ScanRest(c.network, c.Total(), free, 1, None, []);
  }

  /** With no occupied texts every address is free. */
  lemma NothingOccupied()
    ensures forall a: Addr :: FreeIn(AsSet([]))(a)
  {
    assert AsSet([]) == {};
  }

  /** With nothing occupied the scan's only run is the host range. */
  lemma EmptyScan(c: Cidr)
    requires c.Aligned() && c.prefix <= 30 && c.Broadcast() + 1 < AddressSpace
    ensures c.network + c.Total() <= AddressSpace
    ensures ScanFrom(c.network, c.Total(), FreeIn(AsSet([])), 1, None, [])
            == Ok([IpRange(c.network + 1, c.network + c.Total() - 2)])
  {
    AlignedBlockFits(c);
    BlockOfFour(c.prefix);
    NothingOccupied();
    ScanAllFree(c.network, c.Total(), FreeIn(AsSet([])));
  }

  /** With nothing occupied the scan reports the whole host range as one run
      (for 192.168.1.0/30 that is 192.168.1.1 to 192.168.1.2). */
  lemma ComputeIpsEmpty(c: Cidr)
    requires c.Aligned() && c.prefix <= 30 && c.Broadcast() + 1 < AddressSpace
    ensures Utilisation(c, []).Ok?
    ensures Utilisation(c, []).value == Usage(c.Total(), c.Total() - 2, [IpRange(c.HostLo(), c.HostHi())], Netmask(c.prefix))
  {
    EmptyScan(c);
    var run := IpRange(c.network + 1, c.network + c.Total() - 2);
    assert run == IpRange(c.HostLo(), c.HostHi());
    assert |AsSet([])| == 0 by {
      assert AsSet([]) == {};
    }
    UtilisationOfRuns(c, [], [run]);
  }

  /** `compute_ips` raises for every block that ends at 255.255.255.255. */
  lemma ComputeIpsTopBlock(c: Cidr, occupied: seq<string>)
    requires c.Aligned() && c.Broadcast() == AddressSpace - 1
    ensures Utilisation(c, occupied) == Err(AddressOutOfRange)
  {
    ScanTopBlockFails(c.network, c.Total(), FreeIn(AsSet(occupied)), 1, None, []);
  }
}
