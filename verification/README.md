# IPv4 allocation in python-net-controller, modelled in Dafny

The net controller keeps networks, subnets and ports. Each subnet has a CIDR
text such as `192.168.1.0/24`. Each port has an address text inside its
subnet. The store refuses two ports of one subnet with the same address.

This project models two parts of that system:

- **The allocation arithmetic of `netcontroller/utils.py`:**
  - `allocate_ip` hands out the lowest free host.
  - `allocate_ip_many` enumerates `network + 1 … network + n`.
  - `compute_ips` reports block size, free count, free runs and netmask.
  - `valid_cidr` and `valid_ip` are the two validators.
- **The decisions `netcontroller/views.py` takes with that arithmetic:**
  - create a subnet (its CIDR text is validated);
  - create a port (it gets an allocated address);
  - read a subnet's utilisation;
  - change a subnet's CIDR text (its ports are re-addressed);
  - move a port to another subnet.

Modules, in dependency order:

| file | module | what it holds |
|---|---|---|
| `wrappers.dfy` | `Wrappers` | `Option` and `Result` |
| `ipv4.dfy` | `Ipv4` | addresses as integers below 2^32; CIDR blocks (section 3.1 of RFC 4632) with `hosts()`'s range convention; the netmask |
| `addrtext.dfy` | `AddrText` | the dotted-decimal text of an address (`.compressed`) and its parser; network text parsed strictly and leniently (`ip_network`) |
| `utils.dfy` | `Utils` | the five functions of `utils.py` |
| `runs.dfy` | `Runs` | what it means for a list of runs to be exactly the maximal free runs of a range |
| `rangescan.dfy` | `RangeScan` | the loop of `compute_ips` and what it reports |
| `ports.dfy` | `Ports` | the port rows, the `(ip, subnet_id)` uniqueness the store enforces, the one-by-one rewrite of a subnet's ports |
| `views.dfy` | `Views` | the handlers' decisions over a store of subnet and port rows |

## How the source is represented

- **Occupancy is a set of texts.** Ports store their address as free text. The allocator compares the `.compressed` text of each candidate against the set of stored texts. The model keeps texts and proves that rendering is a bijection onto the texts the parser accepts: `RenderInjective`, `ParseRender`, `RenderParse`.
- **What `ipaddress` raises becomes `Err(NetError)`**:
  - `Malformed`: the text does not parse;
  - `HostBitsSet`: a strict parse met host bits;
  - `AddressOutOfRange`: address arithmetic left the IPv4 space (past 255.255.255.255 or below 0.0.0.0).
- **Refusals.** A request the handlers refuse ends in a `Refusal`. That covers a 400 answer and also an exception that would end in a 500. The store after the request is reported beside the refusal, because some refusals leave rows changed.
- **The serializer is a flag.** Its `is_valid()` and `save()` are not modelled. What they decide arrives as the boolean `accepted`.
- **Port order.** The ports of a subnet are taken in store order. That order is both the order of `Port.objects.filter(...)` and the order the rewrite loop visits.

## Model

| member | source | states |
|---|---|---|
| `Utils.AllocateIp` | netcontroller/utils.py:5-14 | raises exactly when the strict parse fails; answers "" exactly when every host's text is allocated; otherwise the answer reads as a host of the block, is not allocated, and every lower host is allocated (it is the lowest free host) |
| `Utils.LowestFreeFrom` | netcontroller/utils.py:11-13 | the ascending scan from `a` returns a free host no smaller than `a` with every host between them allocated, and returns nothing exactly when all hosts from `a` up are allocated |
| `Utils.LowestFreeHost` | netcontroller/utils.py:11-14 | the lowest host of the block whose text is free, or nothing exactly when every host is taken |
| `Utils.LowestFreeHostSetOnly` | netcontroller/utils.py:9 | two occupancy lists with the same members give the same lowest free host |
| `Utils.AllocateIpSetOnly` | netcontroller/utils.py:9 | `allocate_ip` depends only on the set of allocated texts: duplicates and order do not matter |
| `Utils.EnumerateHosts` | netcontroller/utils.py:22-25 | raises exactly when `network + n` passes the address space; otherwise yields exactly `n` texts, the `i`-th being that of `network + i + 1`, whatever is occupied |
| `Utils.EnumerateDistinct` | netcontroller/utils.py:22-25 | the enumerated texts are pairwise distinct |
| `Utils.AllocateIpMany` | netcontroller/utils.py:17-25 | fails exactly when the text does not parse strictly (with the parse's error) or `n` addresses past the network address would leave the IPv4 space; otherwise yields exactly `n` texts, the `i`-th being the compressed text of `network + i + 1`, whether or not those addresses are hosts of the block |
| `Utils.Utilisation` | netcontroller/utils.py:33-63 | total is 2^(32-prefix), netmask is that of the prefix, available is total minus the number of distinct occupied texts minus two, not clamped at zero |
| `Utils.ComputeIps` | netcontroller/utils.py:28-63 | a strict parse failure is raised with its error; a report is only made for a text that parses strictly, and then its total is 2^(32 - prefix), its netmask the prefix's mask, and its available count the total less the distinct occupied texts less 2, not clamped at zero |
| `Ipv4.NetmaskBits` | netcontroller/utils.py:62 | the netmask has exactly `prefix` leading one-bits and zeros below |
| `Ipv4.HostRangeShape` | netcontroller/utils.py:11 | `hosts()` is everything strictly between network and broadcast address up to /30, both addresses for /31, the single address for /32 |
| `AddrText.ParseRender` | netcontroller/utils.py:82 | the `.compressed` text of an address parses back to it |
| `AddrText.RenderParse` | netcontroller/utils.py:82 | every text `ip_address` accepts is the `.compressed` text of its address (no second spelling) |
| `AddrText.RenderInjective` | netcontroller/utils.py:12 | two addresses have the same text exactly when they are equal |
| `AddrText.StrictAndLenient` | netcontroller/utils.py:71 | a lenient parse succeeds exactly when the strict one does or fails only for host bits, and agrees with it when both succeed |
| `AddrText.ParseCidrText` | netcontroller/utils.py:10 | the text of a block parses back to it when its host bits are clear; otherwise the strict parse raises and the lenient one clears them |
| `Utils.ValidIpRendered` | netcontroller/utils.py:77-85 | `valid_ip` accepts exactly the `.compressed` texts of addresses |
| `Utils.HostBitsPassValidation` | netcontroller/utils.py:66-74 | a block text with host bits set passes `valid_cidr`, yet `allocate_ip`, `allocate_ip_many` and `compute_ips` all raise on it |
| `RangeScan.ScanRest` | netcontroller/utils.py:40-57 | from any point of the loop at which the invariant holds (closed runs maximal and sorted, open run free, every visited free address covered) the scan finishes with the outcome `ScanOutcome` describes |
| `RangeScan.ScanRestFree` | netcontroller/utils.py:42-45 | the same, from a step that visits a free address |
| `RangeScan.ScanRestOccupied` | netcontroller/utils.py:46-52 | the same, from a step that visits an occupied address |
| `RangeScan.ComputeIpsRanges` | netcontroller/utils.py:40-57 | up to /30, with the broadcast address and the one after it free: with the last host free, the runs are exactly the maximal free runs of hosts (ascending, disjoint, non-empty, free, covering every free host); with the last host occupied, the same runs followed by the bogus run {broadcast, broadcast - 1} |
| `RangeScan.ScanAllFree` | netcontroller/utils.py:40-57 | with every address free the scan reports the host range as a single run |
| `RangeScan.ComputeIpsEmpty` | netcontroller/utils.py:28-63 | with nothing occupied and prefix at most 30 the report is (total, total - 2, one run from the first to the last host, netmask) |
| `RangeScan.ComputeIpsTopBlock` | netcontroller/utils.py:40-41 | every block that ends at 255.255.255.255 makes the scan raise, since it visits the address past the broadcast address |
| `Ports.IpsOfMembers` | netcontroller/views.py:71-73 | a text is listed for a subnet exactly when some port of that subnet holds it |
| `Ports.SavePort` | netcontroller/models.py:53-57 | a save is refused exactly when another row has the same (ip, subnet) pair; otherwise only row `i` changes |
| `Ports.AddPort` | netcontroller/models.py:53-57 | an insertion is refused exactly when the subnet already lists the address; otherwise the row is appended |
| `Ports.SaveKeepsUnique` | netcontroller/models.py:53-57 | an accepted save keeps the per-subnet uniqueness of addresses |
| `Ports.AddKeepsUnique` | netcontroller/models.py:53-57 | an accepted insertion keeps the per-subnet uniqueness of addresses |
| `Ports.ReassignFrom` | netcontroller/views.py:155-157 | the rewrite loop started at row `i`, with the rows before it already rewritten, completes exactly when no remaining port of the subnet is handed an address a later port still holds; a completed rewrite gives each port of the subnet the pool entry at its rank; a refused one leaves a prefix of the rows rewritten |
| `Ports.ReassignOutcome` | netcontroller/views.py:155-157 | the same for the whole loop: complete iff no clash, and then the intended rewrite; otherwise a partial one |
| `Ports.ReaddressedUnique` | netcontroller/views.py:153-157 | handing distinct pool entries to the subnet's ports keeps per-subnet uniqueness |
| `Ports.ReassignAtOnceCompletes` | netcontroller/views.py:144-157 | done as one transaction checked at commit, the rewrite of a subnet whose ports fit in a pool of distinct texts always completes with every port holding its pool entry |
| `Ports.ReassignRefusesSwap` | netcontroller/views.py:155-157 | two ports stored as `.2` then `.1` and handed `.1`, `.2`: the row-by-row loop is refused at its first save while the one-step rewrite completes |
| `Ports.ReaddressedElsewhere` | netcontroller/views.py:155 | the rewrite moves no port between subnets and touches no port of another subnet |
| `Views.PostSubnet` | netcontroller/views.py:65-67 | a subnet is created exactly when its text passes `valid_cidr` and the serializer accepts; an invalid text is refused with the store unchanged |
| `Views.PostPort` | netcontroller/views.py:69-78 | a refused port creation changes nothing and a successful one touches no subnet |
| `Views.PostPortAllocates` | netcontroller/views.py:69-78 | on a subnet whose text parses strictly: refused as exhausted exactly when every host is held by a port of the subnet; never refused by the uniqueness constraint; on success exactly one port is appended, holding the lowest host no port of the subnet holds |
| `Views.HostBitsSubnetUnusable` | netcontroller/views.py:65-74 | a subnet created with host bits set passes validation, and every later port creation on it raises |
| `Views.SubnetUsage` | netcontroller/views.py:123-130 | a missing subnet is not found; a stored text that does not parse strictly raises |
| `Views.SubnetUsageCounts` | netcontroller/views.py:123-130 | under per-subnet uniqueness the reported free count is block size minus port count minus two, with the block's total and netmask |
| `Views.IpsUpToDistinct` | netcontroller/models.py:53-57 | under per-subnet uniqueness the addresses listed for a subnet are pairwise distinct |
| `Views.DistinctSetSize` | netcontroller/utils.py:34-36 | distinct texts make a set of the same size |
| `Views.PoolTexts` | netcontroller/views.py:153 | `allocate_ip_many` on a strictly parsing text yields the texts of `network + 1 …` and they are distinct |
| `Views.Readdress` | netcontroller/views.py:148-157 | the re-addressing step touches no subnet row, and all its refusals except a store refusal leave the store unchanged |
| `Views.PutSubnet` | netcontroller/views.py:140-157 | a missing subnet is not found and an invalid text refused, both with the store unchanged; an unchanged text touches no port; only a successful edit writes the new text into the subnet row |
| `Views.EmptyAvailable` | netcontroller/views.py:149 | `compute_ips(cidr, [])['available']` is the block size minus two |
| `Views.PutSubnetCapacity` | netcontroller/views.py:147-151 | a change to a strictly parsing block is refused for capacity exactly when block size minus two is below the port count, and then no row changes |
| `Views.Pool` | netcontroller/views.py:153 | the pool has block size minus two entries, the `j`-th being the text of `network + j + 1` |
| `Views.PoolDistinct` | netcontroller/views.py:153 | the pool's texts are pairwise distinct |
| `Views.PoolSlotIsHost` | netcontroller/views.py:153-155 | every pool slot is a host of the new block |
| `Views.PoolHosts` | netcontroller/views.py:153-157 | the port of rank `j` among the subnet's ports gets pool slot `j`, the text of `network + j + 1`, a host of the new block (zip does not truncate them) |
| `Views.ReaddressFits` | netcontroller/views.py:148-157 | a change that fits runs the one-by-one rewrite over the pool and reports a store refusal exactly when the rewrite stopped |
| `Views.PutSubnetRewrites` | netcontroller/views.py:147-157 | a change that fits keeps the rewrite's rows whatever happens next; the subnet row gets the new text only when the rewrite completed and the serializer accepted |
| `Views.PutSubnetReaddresses` | netcontroller/views.py:147-157 | a change that fits completes exactly when no port is handed an address a later port still holds; then every port of the subnet holds its new address, even if the serializer then refuses the subnet row (not atomic); otherwise a prefix of the ports is already rewritten |
| `Views.ReassignKeepsUnique` | netcontroller/views.py:155-157 | each save in the rewrite loop is checked on its own, so completed and partial rewrites keep per-subnet uniqueness |
| `Views.PutSubnetKeepsUnique` | netcontroller/views.py:140-157 | a subnet edit keeps per-subnet uniqueness, whatever its outcome |
| `Views.SaveMoved` | netcontroller/views.py:171-173 | the save of a port touches no subnet and keeps the row count; a refusal leaves the store unchanged |
| `Views.Relocate` | netcontroller/views.py:162-170 | a move touches no subnet and keeps the row count; a refused move leaves the store unchanged |
| `Views.RelocateAllocates` | netcontroller/views.py:162-170 | a move to a strictly parsing subnet is refused as exhausted exactly when every host is held by a port of that subnet; it is never refused by the uniqueness constraint; on success only the moved port changes, and it holds the lowest host no port of the destination holds |
| `Views.RelocateMoves` | netcontroller/views.py:166-173 | with a free host the move saves the port with the lowest one, or is refused only by the serializer |
| `Views.RelocateKeepsUnique` | netcontroller/views.py:162-173 | a move keeps per-subnet uniqueness |
| `Views.PutPortAsWrittenReaddresses` | netcontroller/views.py:161 | resubmitting a port unchanged either changes its address or is refused because its own subnet is full |
| `Views.PutPortAsWrittenKeepsUnique` | netcontroller/views.py:159-175 | the update as written keeps per-subnet uniqueness |
| `Views.PutPort` | netcontroller/views.py:159-175 | the corrected update touches no subnet, and a refused update leaves the store unchanged |
| `Views.PutPortResubmit` | netcontroller/views.py:159-175 | under the corrected test, resubmitting a port unchanged leaves the store as it was, or is refused only by the serializer |
| `Views.PutPortKeepsUnique` | netcontroller/views.py:159-175 | the corrected update keeps per-subnet uniqueness |
| `Views.PostPortKeepsUnique` | netcontroller/views.py:69-85 | port creation keeps per-subnet uniqueness |

## Left out

- **IPv6, and netmask or hostmask suffixes.** `ip_network` and `ip_address` also accept IPv6 texts and `a.b.c.d/255.255.255.0`-style suffixes. The model's parser accepts only `a.b.c.d` and `a.b.c.d/p`. So `ValidCidr` and `ValidIp` are false on texts Python accepts.
- `Utils.ValidIpRendered`: it characterises `valid_ip` on IPv4 dotted-decimal texts only. That is weaker than the source for the IPv6 reason above.
- `Utils.HostBitsPassValidation`: it is stated for IPv4 block texts the model can render. Other texts with host bits set behave alike but are not covered.
- **`hosts()` for /31 and /32.** These follow the behaviour of current Python (the whole block, or the single address). They are taken as library behaviour and not proved against RFC 3021.
- `RangeScan.ComputeIpsRanges`: the clean-run property is proved only up to /30, and only when the broadcast address and the one after it are not occupied. With an occupied broadcast address the loop closes its last run differently, and that case is not characterised.
- **Laziness of `allocate_ip_many`.** It returns a generator, which raises only when an address past 255.255.255.255 is pulled. `EnumerateHosts` raises eagerly instead. In the one caller, `zip` pulls at most port-count-plus-one entries, and the pool never passes the broadcast address. So the two agree there.
- **HTTP, JSON and pagination.** The request plumbing is not modelled: the list pagination, the 404 lookup beyond "is the key present", `delete`, and the JSON envelopes. The serializer's `is_valid()` and `save()` are the `accepted` flag.
- **Fields the allocation never reads.** Networks, a port's `name` and `mac`, and a subnet's `name` and `network_id` are not modelled. The same goes for the `(cidr, network_id)` uniqueness of subnets: a save it refuses is a serializer refusal.
- `Views.PostSubnet`: it requires the new key to be absent, because the store draws it with `uuid4`.
- **Exceptions as refusals.** In `put`, an `IntegrityError` from `ser.save()` is not caught and ends in a 500. In `post` it is caught and answered 400. The model answers both with `Duplicate`. The same holds for a `Subnet.DoesNotExist` (`MissingSubnet`) and a `ValueError` from `ipaddress` (`Raised`): all are refusals, and the HTTP status is not modelled.
- **Transactions and concurrency.** These are not modelled. Each request runs alone against the store.

## Findings

| source | as written | input that shows it | evidently intended | confidence | as-written member | corrected member |
|---|---|---|---|---|---|---|
| netcontroller/views.py:161 | `curr_model.subnet_id != data['subnet_id']` compares the related `Subnet` row (the foreign key field is named `subnet_id`, so the attribute is the row, not its key) with the key text from the body. The two never compare equal, so every port update re-runs the allocator, and the body's `ip` is always overwritten | a `put` of a port with its own subnet id and its own address, in a subnet with another free host: the allocator sees the port's own address as taken, so the port is moved to the lowest other free host, or the update is refused when the subnet is otherwise full | re-run the allocator only when the port moves to another subnet; otherwise save the body's address | high; not executed | `Views.PutPortAsWritten`, shown by `Views.PutPortAsWrittenReaddresses` | `Views.PutPort`, with `Views.PutPortResubmit` |
| netcontroller/views.py:155-157 | the new addresses are written port by port, each `port.save()` checked at once against the `(ip, subnet_id)` constraint, although the comment at lines 144-146 asks for the change to be consistent as a whole | a subnet whose ports are stored as `10.0.0.2` then `10.0.0.1`, moved to a block whose pool starts `10.0.0.1`, `10.0.0.2`: the first save clashes with the second port, which still holds `10.0.0.1`, so the update fails with the store's integrity error, and with ports rewritten before the clash kept | give each port of the subnet its pool entry in one step and check the constraint on the final rows, which always succeeds when the ports fit in the pool | medium; not executed | `Ports.Reassign`, shown by `Ports.ReassignRefusesSwap` | `Ports.ReassignAtOnce`, with `Ports.ReassignAtOnceCompletes` |
