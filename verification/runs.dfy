/** Lists of runs of free addresses, as `compute_ips` reports them: what it
    means for such a list to be exactly the maximal free runs of an address
    range, and how appending one run keeps each part of that. */
module Runs {
  import opened Ipv4
  import opened Utils

  /** `a` lies in one of the runs of `ips`. */
  ghost predicate InRun(ips: seq<IpRange>, a: int)
  {
    exists i :: 0 <= i < |ips| && ips[i].start <= a <= ips[i].end
  }

  /** Every run is non-empty and lies in [lo, hi]. */
  ghost predicate RunsWithin(lo: int, hi: int, ips: seq<IpRange>)
  {
    forall i :: 0 <= i < |ips| ==> lo <= ips[i].start <= ips[i].end <= hi
  }

  /** The runs ascend, with at least one address between neighbours. */
  ghost predicate RunsSorted(ips: seq<IpRange>)
  {
    forall i, j :: 0 <= i < j < |ips| ==> ips[i].end + 1 < ips[j].start
  }

  /** Every address of every run is free. */
  ghost predicate RunsFree(free: Addr -> bool, ips: seq<IpRange>)
  {
    forall i, a: Addr :: 0 <= i < |ips| && ips[i].start <= a <= ips[i].end ==> free(a)
  }

  /** No run can be extended inside [lo, hi]: the address before its start
      and the address after its end are occupied. */
  ghost predicate RunsMaximal(lo: nat, hi: Addr, free: Addr -> bool, ips: seq<IpRange>)
  {
    && (forall i :: 0 <= i < |ips| && lo < ips[i].start ==> !free(ips[i].start - 1))
    && (forall i :: 0 <= i < |ips| && ips[i].end < hi ==> !free(ips[i].end + 1))
  }

  /** Every free address of [lo, hi] lies in a run. */
  ghost predicate RunsCover(lo: int, hi: int, free: Addr -> bool, ips: seq<IpRange>)
  {
    forall a: Addr {:trigger InRun(ips, a)} :: lo <= a <= hi && free(a) ==> InRun(ips, a)
  }

  /** `ips` are exactly the maximal runs of free addresses in [lo, hi], in
      ascending order. */
  ghost predicate RangesClean(lo: Addr, hi: Addr, free: Addr -> bool, ips: seq<IpRange>)
  {
    && RunsWithin(lo, hi, ips)
    && RunsSorted(ips)
    && RunsFree(free, ips)
    && RunsCover(lo, hi, free, ips)
    && RunsMaximal(lo, hi, free, ips)
  }

  // ---------------------------------------------------------------------------
  // Appending one run

  lemma InRunAppend(ips: seq<IpRange>, r: IpRange, a: int)
    requires InRun(ips, a) || r.start <= a <= r.end
    ensures InRun(ips + [r], a)
  {
    var ips' := ips + [r];
    if r.start <= a <= r.end {
      assert ips'[|ips|] == r;
    } else {
      var i :| 0 <= i < |ips| && ips[i].start <= a <= ips[i].end;
      assert ips'[i] == ips[i];
    }
  }

  lemma WithinAppend(lo: int, hi: int, ips: seq<IpRange>, r: IpRange)
    requires RunsWithin(lo, hi, ips) && lo <= r.start <= r.end <= hi
    ensures RunsWithin(lo, hi, ips + [r])
  {
    var ips' := ips + [r];
    assert forall i :: 0 <= i < |ips| ==> ips'[i] == ips[i];
  }

  lemma SortedAppend(ips: seq<IpRange>, r: IpRange)
    requires RunsSorted(ips)
    requires forall i :: 0 <= i < |ips| ==> ips[i].end + 1 < r.start
    ensures RunsSorted(ips + [r])
  {
    var ips' := ips + [r];
    assert forall i :: 0 <= i < |ips| ==> ips'[i] == ips[i];
  }

  lemma FreeAppend(free: Addr -> bool, ips: seq<IpRange>, r: IpRange)
    requires RunsFree(free, ips)
    requires forall a: Addr :: r.start <= a <= r.end ==> free(a)
    ensures RunsFree(free, ips + [r])
  {
    var ips' := ips + [r];
    assert forall i :: 0 <= i < |ips| ==> ips'[i] == ips[i];
  }

  lemma MaximalAppend(lo: nat, hi: Addr, free: Addr -> bool, ips: seq<IpRange>, r: IpRange)
    requires RunsMaximal(lo, hi, free, ips)
    requires lo < r.start ==> !free(r.start - 1)
    requires r.end < hi ==> !free(r.end + 1)
    ensures RunsMaximal(lo, hi, free, ips + [r])
  {
    var ips' := ips + [r];
    assert forall i :: 0 <= i < |ips| ==> ips'[i] == ips[i];
  }

  lemma CoverAppend(lo: int, hi: int, free: Addr -> bool, ips: seq<IpRange>, r: IpRange)
    requires forall a: Addr {:trigger InRun(ips, a)} :: lo <= a <= hi && free(a) ==> InRun(ips, a) || r.start <= a <= r.end
    ensures RunsCover(lo, hi, free, ips + [r])
  {
    forall a: Addr | lo <= a <= hi && free(a)
      ensures InRun(ips + [r], a)
    {
      assert InRun(ips, a) || r.start <= a <= r.end;
      InRunAppend(ips, r, a);
    }
  }

  /** Runs bounded by occupied addresses stay maximal in a wider range, as
      long as each ends below the old upper bound. */
  lemma MaximalGrow(lo: nat, hi: Addr, hi': Addr, free: Addr -> bool, ips: seq<IpRange>)
    requires hi <= hi' && RunsMaximal(lo, hi, free, ips) && RunsWithin(lo, hi - 1, ips)
    ensures RunsMaximal(lo, hi', free, ips)
  {
  }

  // ---------------------------------------------------------------------------
  // Consequences

  /** With every address of [lo, hi] free, the maximal free runs are the
      single run [lo, hi]. */
  lemma AllFreeOneRange(lo: Addr, hi: Addr, free: Addr -> bool, ips: seq<IpRange>)
    requires lo <= hi && RangesClean(lo, hi, free, ips)
    requires forall a: Addr :: lo <= a <= hi ==> free(a)
    ensures ips == [IpRange(lo, hi)]
  {
    assert lo <= lo <= hi && free(lo);
    assert InRun(ips, lo);
    var i :| 0 <= i < |ips| && ips[i].start <= lo <= ips[i].end;
    assert ips[i] == IpRange(lo, hi);
    assert lo <= ips[0].start && ips[|ips| - 1].end <= hi;
    if |ips| > 1 {
      assert false;
    }
  }
}
