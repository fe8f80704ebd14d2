/** The port table of netcontroller/models.py as the views use it: each port
    row holds an address text and the subnet it belongs to, rows are listed
    in the store's order, and the store refuses a row whose
    `(ip, subnet_id)` pair another row already has. Also the one-by-one
    rewrite of a subnet's ports that a CIDR change performs. */
module Ports {
  import opened Wrappers

  /** The primary key of a subnet row. */
  type SubnetId = string

  /** A port row: its address text and its subnet. */
  datatype Port = Port(ip: string, subnet: SubnetId)

  // ---------------------------------------------------------------------------
  // The ports of one subnet

  /** How many of the first `i` rows belong to subnet `s`; for a row of `s`
      this is its position among that subnet's ports. */
  function Rank(ports: seq<Port>, s: SubnetId, i: nat): (r: nat)
    requires i <= |ports|
    ensures r <= i
  {
    if i == 0 then 0 else Rank(ports, s, i - 1) + (if ports[i - 1].subnet == s then 1 else 0)
  }

  /** Number of ports of subnet `s` (`Port.objects.filter(subnet_id=s).count()`). */
  function Count(ports: seq<Port>, s: SubnetId): nat
  {
    Rank(ports, s, |ports|)
  }

  /** The address texts of the first `i` rows that belong to subnet `s`. */
  function IpsUpTo(ports: seq<Port>, s: SubnetId, i: nat): (r: seq<string>)
    requires i <= |ports|
    ensures |r| == Rank(ports, s, i)
  {
    if i == 0 then []
    else IpsUpTo(ports, s, i - 1) + (if ports[i - 1].subnet == s then [ports[i - 1].ip] else [])
  }

  /** The address texts of subnet `s`'s ports in store order
      (`x.ip for x in Port.objects.filter(subnet_id=s)`). */
  function IpsOf(ports: seq<Port>, s: SubnetId): (r: seq<string>)
    ensures |r| == Count(ports, s)
  {
    IpsUpTo(ports, s, |ports|)
  }

  /** A row of `s` among the first `i` has its address at its rank. */
  lemma {:induction false} IpsUpToAt(ports: seq<Port>, s: SubnetId, i: nat, t: nat)
    requires t < i <= |ports| && ports[t].subnet == s
    ensures Rank(ports, s, t) < Rank(ports, s, i)
    ensures IpsUpTo(ports, s, i)[Rank(ports, s, t)] == ports[t].ip
    decreases i
  {
    if t < i - 1 {
      IpsUpToAt(ports, s, i - 1, t);
    }
  }

  /** Every address listed for `s` among the first `i` rows is the address of
      one of those rows that belongs to `s`. */
  lemma {:induction false} IpsUpToFrom(ports: seq<Port>, s: SubnetId, i: nat, ip: string)
    requires i <= |ports| && ip in IpsUpTo(ports, s, i)
    ensures exists t :: 0 <= t < i && ports[t].subnet == s && ports[t].ip == ip
    decreases i
  {
    var prev := IpsUpTo(ports, s, i - 1);
    if ip in prev {
      IpsUpToFrom(ports, s, i - 1, ip);
    } else {
      assert ports[i - 1].subnet == s && ports[i - 1].ip == ip;
    }
  }

  /** An address is listed for `s` exactly when some row of `s` holds it. */
  lemma IpsOfMembers(ports: seq<Port>, s: SubnetId, ip: string)
    ensures ip in IpsOf(ports, s) <==> exists t :: 0 <= t < |ports| && ports[t].subnet == s && ports[t].ip == ip
  {
    if ip in IpsOf(ports, s) {
      IpsUpToFrom(ports, s, |ports|, ip);
    }
    if exists t :: 0 <= t < |ports| && ports[t].subnet == s && ports[t].ip == ip {
      var t :| 0 <= t < |ports| && ports[t].subnet == s && ports[t].ip == ip;
      IpsUpToAt(ports, s, |ports|, t);
    }
  }

  /** Ranks grow along the rows of a subnet. */
  lemma {:induction false} RankGrows(ports: seq<Port>, s: SubnetId, t: nat, i: nat)
    requires t < i <= |ports| && ports[t].subnet == s
    ensures Rank(ports, s, t) < Rank(ports, s, i)
    decreases i
  {
    if t < i - 1 {
      RankGrows(ports, s, t, i - 1);
    }
  }

  /** Ranks never shrink. */
  lemma {:induction false} RankMono(ports: seq<Port>, s: SubnetId, t: nat, i: nat)
    requires t <= i <= |ports|
    ensures Rank(ports, s, t) <= Rank(ports, s, i)
    decreases i
  {
    if t < i {
      RankMono(ports, s, t, i - 1);
    }
  }

  /** Ranks depend only on which subnet each row belongs to. */
  lemma {:induction false} RankSubnetsOnly(ports: seq<Port>, ports': seq<Port>, s: SubnetId, i: nat)
    requires i <= |ports| && i <= |ports'|
    requires forall t :: 0 <= t < i ==> ports[t].subnet == ports'[t].subnet
    ensures Rank(ports, s, i) == Rank(ports', s, i)
    decreases i
  {
    if i > 0 {
      RankSubnetsOnly(ports, ports', s, i - 1);
    }
  }

  // ---------------------------------------------------------------------------
  // The store's uniqueness constraint on (ip, subnet_id)

  /** No two rows of the same subnet hold the same address text. */
  predicate UniqueIps(ports: seq<Port>)
  {
    forall a, b :: 0 <= a < b < |ports| && ports[a].subnet == ports[b].subnet ==> ports[a].ip != ports[b].ip
  }

  /** Some row other than row `i` already has the pair of `p`. */
  predicate Clash(ports: seq<Port>, i: nat, p: Port)
  {
    exists b :: 0 <= b < |ports| && b != i && ports[b].subnet == p.subnet && ports[b].ip == p.ip
  }

  /** Saving row `i` as `p` (`port.save()`): refused when another row has the
      same pair. */
  function SavePort(ports: seq<Port>, i: nat, p: Port): (r: Option<seq<Port>>)
    requires i < |ports|
    ensures r.None? <==> exists b :: 0 <= b < |ports| && b != i && ports[b].subnet == p.subnet && ports[b].ip == p.ip
    ensures r.Some? ==> |r.value| == |ports| && r.value[i] == p
    ensures r.Some? ==> forall b :: 0 <= b < |ports| && b != i ==> r.value[b] == ports[b]
  {
    if Clash(ports, i, p) then None else Some(ports[i := p])
  }

  /** Inserting a new row `p`: refused when a row has the same pair. */
  function AddPort(ports: seq<Port>, p: Port): (r: Option<seq<Port>>)
    ensures r.None? <==> p.ip in IpsOf(ports, p.subnet)
    ensures r.Some? ==> r.value == ports + [p]
  {
    IpsOfMembers(ports, p.subnet, p.ip);
    if Clash(ports, |ports|, p) then None else Some(ports + [p])
  }

  /** A save the store accepts keeps the constraint. */
  lemma SaveKeepsUnique(ports: seq<Port>, i: nat, p: Port)
    requires i < |ports| && UniqueIps(ports) && SavePort(ports, i, p).Some?
    ensures UniqueIps(SavePort(ports, i, p).value)
  {
    var ports' := SavePort(ports, i, p).value;
    forall a, b | 0 <= a < b < |ports'| && ports'[a].subnet == ports'[b].subnet
      ensures ports'[a].ip != ports'[b].ip
    {
      if a == i {
        assert ports'[b] == ports[b];
      } else if b == i {
        assert ports'[a] == ports[a];
      }
    }
  }

  /** An insertion the store accepts keeps the constraint. */
  lemma AddKeepsUnique(ports: seq<Port>, p: Port)
    requires UniqueIps(ports) && AddPort(ports, p).Some?
    ensures UniqueIps(AddPort(ports, p).value)
  {
    var ports' := AddPort(ports, p).value;
    forall a, b | 0 <= a < b < |ports'| && ports'[a].subnet == ports'[b].subnet
      ensures ports'[a].ip != ports'[b].ip
    {
      if b == |ports| {
        assert !Clash(ports, |ports|, p);
        assert ports'[a] == ports[a];
      }
    }
  }

  // ---------------------------------------------------------------------------
  // Rewriting the ports of a subnet

  /** No two entries are equal. */
  predicate Distinct(pool: seq<string>)
  {
    forall i, j :: 0 <= i < j < |pool| ==> pool[i] != pool[j]
  }

  /** The rows after the rewrite loop, and whether a save was refused. */
  datatype Rewrite = Rewrite(ports: seq<Port>, refused: bool)

  /** `for ip, port in zip(pool, ports of s): port.ip = ip; port.save()`,
      from row `i` on: the rows of `s` take the pool's texts in turn, each
      saved on its own; the loop stops when the pool runs out, and stops with
      the earlier saves kept when the store refuses one. */
  function Reassign(ports: seq<Port>, s: SubnetId, pool: seq<string>, i: nat): Rewrite
    requires i <= |ports|
    decreases |ports| - i
  {
    if i == |ports| then Rewrite(ports, false)
    else if ports[i].subnet != s then Reassign(ports, s, pool, i + 1)
    else if Rank(ports, s, i) >= |pool| then Rewrite(ports, false)
    else
      var p := Port(pool[Rank(ports, s, i)], s);
      if Clash(ports, i, p) then Rewrite(ports, true)
      else Reassign(ports[i := p], s, pool, i + 1)
  }

  /** The intended outcome of the rewrite: the row of `s` at rank `j` holds
      `pool[j]` while the pool lasts, and every other row is as it was. */
  function Readdressed(ports: seq<Port>, s: SubnetId, pool: seq<string>): (r: seq<Port>)
    ensures |r| == |ports|
  {
    seq(|ports|, t requires 0 <= t < |ports| =>
      if ports[t].subnet == s && Rank(ports, s, t) < |pool| then Port(pool[Rank(ports, s, t)], s) else ports[t])
  }

  /** The rows with the first `i` rewritten and the rest as they were. */
  function Partial(ports: seq<Port>, s: SubnetId, pool: seq<string>, i: nat): (r: seq<Port>)
    ensures |r| == |ports|
  {
    var full := Readdressed(ports, s, pool);
    seq(|ports|, t requires 0 <= t < |ports| => if t < i then full[t] else ports[t])
  }

  /** No row of `s` from `i` on is handed an address that a later row of `s`
      still holds. */
  ghost predicate NoClashFrom(ports: seq<Port>, s: SubnetId, pool: seq<string>, i: nat)
    requires i <= |ports|
  {
    forall a, b ::
      (i <= a < b < |ports| && ports[a].subnet == s && ports[b].subnet == s && Rank(ports, s, a) < |pool|) ==>
        ports[b].ip != pool[Rank(ports, s, a)]
  }

  /** Rewriting keeps each row's subnet, so it keeps every rank. */
  lemma PartialRanks(ports: seq<Port>, s: SubnetId, pool: seq<string>, i: nat, t: nat)
    requires t <= |ports|
    ensures Rank(Partial(ports, s, pool, i), s, t) == Rank(ports, s, t)
  {
    var cur := Partial(ports, s, pool, i);
    RankSubnetsOnly(ports, cur, s, t);
  }

  /** With the pool exhausted at row `i` of `s`, nothing from row `i` on
      changes any more. */
  lemma PartialDoneAt(ports: seq<Port>, s: SubnetId, pool: seq<string>, i: nat)
    requires i < |ports| && ports[i].subnet == s && Rank(ports, s, i) >= |pool|
    ensures Partial(ports, s, pool, i) == Readdressed(ports, s, pool)
    ensures NoClashFrom(ports, s, pool, i)
  {
    var full := Readdressed(ports, s, pool);
    forall t | i <= t < |ports|
      ensures Rank(ports, s, t) >= |pool|
    {
      RankMono(ports, s, i, t);
    }
  }

  /** Saving row `i` of `s` clashes exactly when a later row of `s` holds the
      address handed to it: the earlier rows now hold other pool texts. */
  lemma ClashAt(ports: seq<Port>, s: SubnetId, pool: seq<string>, i: nat)
    requires Distinct(pool)
    requires i < |ports| && ports[i].subnet == s && Rank(ports, s, i) < |pool|
    ensures Clash(Partial(ports, s, pool, i), i, Port(pool[Rank(ports, s, i)], s)) <==>
            exists b :: i < b < |ports| && ports[b].subnet == s && ports[b].ip == pool[Rank(ports, s, i)]
  {
    var cur := Partial(ports, s, pool, i);
    var ip := pool[Rank(ports, s, i)];
    if Clash(cur, i, Port(ip, s)) {
      var b :| 0 <= b < |cur| && b != i && cur[b].subnet == s && cur[b].ip == ip;
      if b < i {
        assert ports[b].subnet == s;
        RankGrows(ports, s, b, i);
        assert false;
      } else {
        assert cur[b] == ports[b];
      }
    }
    if exists b :: i < b < |ports| && ports[b].subnet == s && ports[b].ip == ip {
      var b :| i < b < |ports| && ports[b].subnet == s && ports[b].ip == ip;
      assert cur[b] == ports[b];
    }
  }

  /** Saving row `i` of `s` moves the rewrite on by one row. */
  lemma PartialStep(ports: seq<Port>, s: SubnetId, pool: seq<string>, i: nat)
    requires i < |ports| && ports[i].subnet == s && Rank(ports, s, i) < |pool|
    ensures Partial(ports, s, pool, i)[i := Port(pool[Rank(ports, s, i)], s)] == Partial(ports, s, pool, i + 1)
  {
  }

  /** Passing over a row of another subnet moves the rewrite on by one row. */
  lemma PartialSkip(ports: seq<Port>, s: SubnetId, pool: seq<string>, i: nat)
    requires i < |ports| && ports[i].subnet != s
    ensures Partial(ports, s, pool, i) == Partial(ports, s, pool, i + 1)
  {
  }

  /** The rewrite loop, started at row `i` with the earlier rows rewritten,
      completes exactly when no row of `s` from `i` on is handed an address a
      later row still holds; it then yields the intended rows, and in every
      case the rows it leaves are some prefix of them rewritten. */
  lemma {:induction false} ReassignFrom(ports: seq<Port>, s: SubnetId, pool: seq<string>, i: nat)
    requires Distinct(pool) && i <= |ports|
    ensures var r := Reassign(Partial(ports, s, pool, i), s, pool, i);
            && (!r.refused <==> NoClashFrom(ports, s, pool, i))
            && (!r.refused ==> r.ports == Readdressed(ports, s, pool))
            && exists a :: i <= a <= |ports| && r.ports == Partial(ports, s, pool, a)
    decreases |ports| - i
  {
    var cur := Partial(ports, s, pool, i);
    var r := Reassign(cur, s, pool, i);
    if i == |ports| {
      assert cur == Readdressed(ports, s, pool);
    } else if ports[i].subnet != s {
      PartialSkip(ports, s, pool, i);
      ReassignFrom(ports, s, pool, i + 1);
    } else {
      PartialRanks(ports, s, pool, i, i);
      if Rank(ports, s, i) >= |pool| {
        PartialDoneAt(ports, s, pool, i);
      } else {
        var p := Port(pool[Rank(ports, s, i)], s);
        ClashAt(ports, s, pool, i);
        if Clash(cur, i, p) {
          assert r == Rewrite(cur, true);
          var b :| i < b < |ports| && ports[b].subnet == s && ports[b].ip == p.ip;
          assert !NoClashFrom(ports, s, pool, i);
        } else {
          PartialStep(ports, s, pool, i);
          ReassignFrom(ports, s, pool, i + 1);
        }
      }
    }
  }

  /** The rewrite of a subnet's ports completes exactly when no port is handed
      an address that a later port of the subnet still holds, and then every
      port of the subnet at rank `j` holds `pool[j]` while the pool lasts; a
      refused save leaves the earlier ports rewritten. */
  lemma ReassignOutcome(ports: seq<Port>, s: SubnetId, pool: seq<string>)
    requires Distinct(pool)
    ensures var r := Reassign(ports, s, pool, 0);
            && (!r.refused <==> NoClashFrom(ports, s, pool, 0))
            && (!r.refused ==> r.ports == Readdressed(ports, s, pool))
            && exists a :: 0 <= a <= |ports| && r.ports == Partial(ports, s, pool, a)
  {
    assert Partial(ports, s, pool, 0) == ports;
    ReassignFrom(ports, s, pool, 0);
  }

  /** Handing distinct texts to every port of a subnet keeps the constraint. */
  lemma ReaddressedUnique(ports: seq<Port>, s: SubnetId, pool: seq<string>)
    requires UniqueIps(ports) && Distinct(pool) && Count(ports, s) <= |pool|
    ensures UniqueIps(Readdressed(ports, s, pool))
  {
    var r := Readdressed(ports, s, pool);
    forall a, b | 0 <= a < b < |r| && r[a].subnet == r[b].subnet
      ensures r[a].ip != r[b].ip
    {
      if ports[a].subnet == s {
        RankGrows(ports, s, a, |ports|);
      }
      if ports[b].subnet == s {
        RankGrows(ports, s, b, |ports|);
      }
      if ports[a].subnet == s && ports[b].subnet == s {
        RankGrows(ports, s, a, b);
      }
    }
  }

  /** The rewrite moves no port to another subnet and touches no port of
      another subnet. */
  lemma ReaddressedElsewhere(ports: seq<Port>, s: SubnetId, pool: seq<string>, t: nat)
    requires t < |ports|
    ensures Readdressed(ports, s, pool)[t].subnet == ports[t].subnet
    ensures ports[t].subnet != s ==> Readdressed(ports, s, pool)[t] == ports[t]
  {
  }

  /** The rewrite done in one step, as a transaction whose constraint check
      is deferred to commit: every port of `s` takes its pool text at once,
      and the store refuses only when the final rows break the constraint. */
  function ReassignAtOnce(ports: seq<Port>, s: SubnetId, pool: seq<string>): (r: Rewrite)
    ensures r.refused <==> !UniqueIps(Readdressed(ports, s, pool))
    ensures r.ports == if r.refused then ports else Readdressed(ports, s, pool)
  {
    var after := Readdressed(ports, s, pool);
    if UniqueIps(after) then Rewrite(after, false) else Rewrite(ports, true)
  }

  /** Done in one step, the rewrite of a subnet whose ports fit in a pool of
      distinct texts always completes, whatever order the ports are stored
      in and whatever addresses they held before. */
  lemma ReassignAtOnceCompletes(ports: seq<Port>, s: SubnetId, pool: seq<string>)
    requires UniqueIps(ports) && Distinct(pool) && Count(ports, s) <= |pool|
    ensures ReassignAtOnce(ports, s, pool) == Rewrite(Readdressed(ports, s, pool), false)
  {
    ReaddressedUnique(ports, s, pool);
  }

  /** Two ports of one subnet stored as `.2` then `.1`, handed the pool
      `.1`, `.2`: the row-by-row rewrite is refused at its first save, since
      the second port still holds `.1`, although the rewrite done in one step
      completes. */
  lemma ReassignRefusesSwap()
    ensures var ports := [Port("10.0.0.2", "net"), Port("10.0.0.1", "net")];
            var pool := ["10.0.0.1", "10.0.0.2"];
            && UniqueIps(ports) && Distinct(pool) && Count(ports, "net") <= |pool|
            && Reassign(ports, "net", pool, 0) == Rewrite(ports, true)
            && ReassignAtOnce(ports, "net", pool) == Rewrite(Readdressed(ports, "net", pool), false)
  {
    var ports := [Port("10.0.0.2", "net"), Port("10.0.0.1", "net")];
    var pool := ["10.0.0.1", "10.0.0.2"];
    assert Rank(ports, "net", 0) == 0;
    assert ports[1] == Port(pool[0], "net");
    assert Clash(ports, 0, Port(pool[0], "net"));
    ReassignAtOnceCompletes(ports, "net", pool);
  }
}
