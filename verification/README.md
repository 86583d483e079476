# Address management of the cluster network, modelled in Dafny

A cluster hands out pod addresses without a central server. Every network has a configured address range. The nodes
share one etcd directory of leases; a lease is a block of `2^unit` addresses, its key encodes the block and its value
names the owning node. A node keeps a cache file of its blocks and hands out single addresses from them with a
round-robin iterator over a directory of files, one file per reserved address. When its blocks are full it leases the
lowest free block. A daemon compares cache and etcd from time to time, and a controller deletes the leases of nodes
that left the cluster. Beside this there are addresses fixed to a pod, which the controller collects with a delay, and a
daemon that keeps the forwarding tables of the vxlan interfaces equal to the tunnel records in etcd.

The model follows the Go code function by function. Objects whose methods change state are classes, loops are loops,
and each such method is proved equal to a specification function; what the code is for is then proved about those
functions and about all runs of three transition systems. Addresses are integers below 2^32 and the arithmetic on them
wraps as Go's does.

| module | content |
|---|---|
| Words, Blocks, Text | 32-bit words, powers of two, address blocks, the string operations |
| LeaseKeys, FixInfo | the text of lease keys and of the identity of a fixed address |
| RangeSets | canonical ranges, overlap, validation of a configuration |
| FirstFit | the scan for the lowest free block |
| DiskStore | the store of one node: reservations and block cache |
| RangeIteration, Allocator, Fairness | the cyclic iterator, `Get` and `Release`, round robin |
| Clipping, AllocationRuns, Allocation | cutting the ranges to the cached blocks, allocating for a container |
| Etcd, Reconcile, Cluster | the lease directory, the comparison with the cache, the whole cluster |
| ClusterLinks | the programs as steps of the cluster |
| ClusterHistories | histories with a clash or a hanging request, and the exact condition for uniqueness |
| FixIP, Controller | fixed addresses and their delayed collection |
| VxlanDaemon | forwarding tables behind a queue of events |

## What the proofs found

- The scan for a free block does not refuse an exhausted range whose last address is leased: the cursor stands at
  `RangeEnd + 1`, the unsigned subtraction wraps, and the block behind the range is leased, again and again
  (`FirstFit.FirstFitExactly`, `FirstFit.ExhaustedRangeWraps`). Addresses are unique in all histories exactly when the
  usable size is not a whole number of blocks or that block has nothing to hand out
  (`ClusterHistories.UniquenessExactly`).
- The iterator never stops when the set has several ranges and the last reserved address ends one of them; `Get` then
  does not return if all addresses are reserved (`RangeIteration.StopTestExactly`, `Allocator.HangsExactly`,
  `Allocator.IPAllocator.KeepTrying`). A node that fills its first two blocks in order meets this: its next
  request hangs, before it leases a third block (`ClusterHistories.SecondBlockHangs`).
- Rounds of getting and releasing an address are fair, with one exception: a fresh start passes over a reserve in first
  place, and fails if that is the only free address (`Fairness.RoundRobinIsFair`, `Fairness.FirstRoundFailsExactly`).
- Releasing an interface also releases those whose name starts with its name, and the whole container if nothing is
  recorded under it (`DiskStore.ReleasesOtherExactly`); deleting a container interface with two or more range sets
  always takes the whole container (`Allocation.DeleteContainer`). So a failed allocation loses earlier addresses of
  interfaces with a longer name after one success, and of all interfaces of the container after two
  (`Allocation.FailureLeavesExactly`, `Allocation.FailureHarmlessExactly`).
- One comparison of cache and leases reaches agreement exactly when no cached block lies across two leases of the node;
  two always do (`Reconcile.OneRunExactly`, `Reconcile.TwoRunsConverge`).
- A cached block inside another one can cost the node a lease: deleting the outer block removes the inner one, and the
  lease that the outer one overlaps is given up (`Reconcile.NestedBlockLosesLease`, `Reconcile.GivesUpExactly`).
- Range sets with different subnets drop each other's blocks from the cache (`Clipping.NothingPrunedExactly`).
- A fixed range that ends at 255.255.255.255 never serves a new pod (`FixIP.ServesExactly`).
- The daemon reads the history before it opens the watch; an event in between is lost for good unless a later one
  mentions its record (`VxlanDaemon.StartTracksExactly`, `VxlanDaemon.StaysStale`). A vxlan interface that was up to
  date and is deleted and created again stays stale (`VxlanDaemon.RecreationExactly`).
- The documentation says that a range starts at the `.2` address by default; the code starts at `.1` and skips the
  gateway while iterating (multus-ipam/backend/allocator/range.go:62-75). The model follows the code.

## Model

| member | source | states |
|---|---|---|
| Cluster.StepKeepsInv | multus-ipam/backend/etcdv3cli/cli.go:55-85 | Every atomic step of the cluster (join, death, purge, apply, put, append, forming range sets, get from any set formed before, release, each part of a reconciliation) keeps: leases are grid blocks with one owner or the useless block behind the range, caches, formed range sets and reservations of live nodes lie in blocks they own, a chosen block is free, what is purged belongs to the dead |
| Cluster.AddressesStayUnique | multus-ipam/main.go:225-287 | When the range cannot run out, or the block behind it hands out nothing, in every history from the empty cluster and at every point no two live nodes hold the same address; a node may serve from a range set that it formed any number of steps before |
| ClusterHistories.UniquenessExactly | multus-ipam/backend/etcdv3cli/cli.go:88-129 | All histories keep addresses unique if and only if the usable size is not a whole number of blocks or the block behind the range has no address to hand out |
| ClusterHistories.EvenSizeClashes | multus-ipam/backend/etcdv3cli/cli.go:116-127 | Otherwise a history exists in which two nodes lease the same block behind the range and hand out the same address |
| Cluster.LiveLeasesStay | multus-controller/controller.go:145-177 | In every history over an uneven size no step of any node or of the controller takes a lease from a node that stays alive |
| Cluster.NeverAbsent | multus-ipam/backend/etcdv3cli/cli.go:199-216 | In every history over an uneven size reconciliation never reaches the write of a lease, so the different lock of that write does no harm |
| Cluster.AppliedBlockIsNewOrOverflow | multus-ipam/backend/etcdv3cli/cli.go:88-129 | The block an application gets is a grid block that nobody leases or, only if the size is not uneven, the block behind the range |
| ClusterLinks.TryMakesSteps | multus-ipam/main.go:252-271 | A try of an allocation with a new block is four steps of the cluster: read, write, cache, Get |
| ClusterLinks.CheckMakesSteps | multus-ipam/backend/etcdv3cli/cli.go:157-217 | A whole comparison of cache and leases, as the method computes it, is a sequence of steps of the cluster |
| ClusterLinks.PurgeMakesSteps | multus-controller/controller.go:145-177 | Reading and deleting the leases of a dead node one by one is a sequence of steps that takes exactly these leases |
| FirstFit.GetFreeIPRange | multus-ipam/backend/etcdv3cli/cli.go:88-129 | The scan loop computes the specified cursor and result, wrap-around included |
| FirstFit.FirstFitExactly | multus-ipam/backend/etcdv3cli/cli.go:92-128 | For sorted disjoint leases at or above the effective start the result is the lowest free block, or an error when there is none, if and only if the range is not empty and a leased last address leaves room for a block |
| FirstFit.ExhaustedRangeWraps | multus-ipam/backend/etcdv3cli/cli.go:122-127 | An exhausted range with a leased last address yields the block right behind it |
| FirstFit.LeaseBelowStartExactly | multus-ipam/backend/etcdv3cli/cli.go:116-120 | A first lease below the effective start ends the scan; the answer is then first fit exactly when the first block is free or no block fits |
| FirstFit.ScanIgnores | multus-ipam/backend/etcdv3cli/cli.go:109-112 | A lease at address 0 or beyond the range end has no influence on the answer |
| LeaseKeys.DecodeEncode | multus-ipam/backend/etcdv3cli/cli.go:35-52 | Writing a range as a key and reading it back gives its canonical form |
| LeaseKeys.RoundTripExactly | multus-ipam/backend/etcdv3cli/cli.go:35-52 | The round trip is the identity exactly on ranges of a power-of-two size |
| LeaseKeys.EncodeInjective | multus-ipam/backend/etcdv3cli/cli.go:48-52 | Two ranges share a key exactly when their canonical forms agree |
| LeaseKeys.KeyOrder | multus-ipam/backend/etcdv3cli/cli.go:30 | Keys of one directory sort as bytes exactly as their start addresses sort as numbers |
| LeaseKeys.SortedKeysAreSortedBlocks | multus-ipam/backend/etcdv3cli/cli.go:100-108 | A key-ordered listing of blocks of one size decodes to these blocks in address order |
| Blocks.OverlapsExactly | multus-ipam/backend/allocator/range.go:176-180 | The one-sided test is "has a common address" except for strict containment of the other range |
| Blocks.BlockOverlapIsIntersection | multus-ipam/backend/allocator/range.go:176-184 | On blocks of one size the test is intersection and matching is equality |
| Blocks.SimpleRange.HostSize | multus-ipam/backend/allocator/range.go:190-192 | The result is the exact integer logarithm of the size |
| Blocks.CanonicalizeIdempotent | multus-ipam/backend/allocator/range.go:194-209 | Canonical ranges are a fixed point; the start stays and a range only shrinks |
| Blocks.CanonicalExactly | multus-ipam/backend/allocator/range.go:194-209 | A range is canonical exactly when its size is a power of two |
| RangeSets.Canonicalize | multus-ipam/backend/allocator/range.go:31-92 | Fails exactly on the stated defects (small network, host bits, ends outside or out of order) and otherwise fills in the defaults |
| RangeSets.CanonicalValid | multus-ipam/backend/allocator/range.go:62-89 | The ends lie in the subnet and are in order except for an explicit start at the broadcast address with a defaulted end |
| RangeSets.AcceptableExactly | multus-ipam/backend/allocator/range.go:31-91 | A range is accepted exactly if filling in its gaps makes it valid and a specified end is not below the start |
| RangeSets.CanonicalFillsIn | multus-ipam/backend/allocator/range.go:52-88 | What is specified is kept; the default gateway is the lowest host address, default ends take in all hosts of the subnet |
| RangeSets.ProperExactly | multus-ipam/backend/allocator/range.go:38-50 | A subnet is accepted exactly with at least four addresses and a start at a multiple of their number |
| RangeSets.SubnetHasExactly | multus-ipam/backend/allocator/range.go:95-128 | Masking with the prefix decides membership in the interval from network to broadcast address |
| RangeSets.LastAddress | multus-ipam/backend/allocator/range.go:164-174 | A proper subnet ends below 2^32 and has at least four addresses |
| RangeSets.OverlapsMeansCommonAddress | multus-ipam/backend/allocator/range.go:131-141 | Range overlap is symmetric and, for ordered ends, the existence of a common address |
| RangeSets.Overlap | multus-ipam/backend/allocator/range_set.go:45-54 | Finds exactly whether a range of one set overlaps a range of the other |
| RangeSets.RangeFor | multus-ipam/backend/allocator/range_set.go:30-42 | Returns the first range that contains the address, or none |
| RangeSets.FirstContaining | multus-ipam/backend/allocator/range_set.go:24-42 | The found range contains the address and no earlier one does; without a result none does |
| RangeSets.CanonicalizeSet | multus-ipam/backend/allocator/range_set.go:58-94 | Succeeds exactly for a non-empty set of acceptable ranges that do not overlap |
| RangeSets.Load | multus-ipam/backend/allocator/config.go:193-229 | The validation loops accept exactly the loadable families of range sets |
| RangeSets.SingleLoadsExactly | multus-ipam/backend/allocator/config.go:212-219 | A version with one address per family loads exactly the configurations of one set; no loaded set is empty |
| RangeSets.LoadedRangesAreDisjoint | multus-ipam/backend/allocator/config.go:193-229 | After a load all ranges, within and across sets, are pairwise disjoint |
| RangeSets.RejectedRangesIntersect | multus-ipam/backend/allocator/config.go:221-229 | A family of acceptable ordered sets that is rejected for an overlap has two ranges with a common address |
| DiskStore.Store.Reserve | multus-ipam/backend/disk/backend.go:68-94 | Creates the record and the last-reserved mark exactly if the address has none; nothing else changes |
| DiskStore.Store.ReleaseByKey | multus-ipam/backend/disk/backend.go:147-167 | Removes exactly the records whose trimmed content starts with the prefix and says whether there were any |
| DiskStore.Store.ReleaseByID | multus-ipam/backend/disk/backend.go:171-182 | Removes the records of the interface or, if it has none, all that start with the container id |
| DiskStore.Store.GetByID | multus-ipam/backend/disk/backend.go:185-211 | Lists the addresses of the interface, each once |
| DiskStore.OwnedByExactly | multus-ipam/backend/disk/backend.go:185-211 | The record of a reservation, blanks around it or not, is found for a container and interface exactly if the container is the same and the recorded name starts with that of the interface; a release matches it under the same condition |
| DiskStore.BareIdIsOwned | multus-ipam/backend/disk/backend.go:201 | A record of one line is found exactly if it is the container id |
| DiskStore.Store.FlashCache | multus-ipam/backend/disk/backend.go:255-274 | Writing leaves the canonicalised list |
| DiskStore.Store.AppendCache | multus-ipam/backend/disk/backend.go:276-290 | Refuses when a cached range overlaps, otherwise writes the extended list |
| DiskStore.Store.DeleteCache | multus-ipam/backend/disk/backend.go:292-310 | Writes the list without its first overlapping entry |
| DiskStore.AppendExactly | multus-ipam/backend/disk/backend.go:276-290 | On disjoint blocks of one size refuses exactly the intersecting blocks and keeps the list disjoint |
| DiskStore.DeleteExactly | multus-ipam/backend/disk/backend.go:292-310 | On such lists removes exactly the first intersecting entry and keeps order and disjointness |
| DiskStore.DeleteMember | multus-ipam/backend/disk/backend.go:292-310 | Deleting a cached block leaves all others |
| DiskStore.ReleaseUndoesReserve | multus-ipam/backend/disk/backend.go:68-94 | A release under a name that the interface's name starts with takes back exactly what the reservation added, if nothing else is recorded under that name |
| DiskStore.ReleaseKeepsOthers | multus-ipam/backend/disk/backend.go:147-182 | Records that do not start with the container id stay |
| DiskStore.ReleaseExactly | multus-ipam/backend/disk/backend.go:171-182 | A release removes exactly the records with the id and interface as prefix or, if there are none, those with the id; it takes only the former if and only if there are some or nothing of the container is recorded |
| DiskStore.RecordPrefixExactly | multus-ipam/backend/disk/backend.go:157 | The record of another interface of the container matches exactly if its name starts with the released one |
| DiskStore.ReleasesOtherExactly | multus-ipam/backend/disk/backend.go:147-182 | The address of another interface is released exactly if its name starts with the released one or nothing is recorded under that one |
| DiskStore.TwoReleasesTakeTheContainer | multus-ipam/backend/disk/backend.go:171-182 | Two releases of one interface leave no record of the container, and more change nothing |
| DiskStore.LongerNameIsReleased | multus-ipam/backend/disk/backend.go:157 | Releasing net1 also releases net10 |
| DiskStore.FallbackReleasesOtherInterface | multus-ipam/backend/disk/backend.go:176-180 | Releasing eth1 without records drops eth0 |
| RangeIteration.OrderIsCycle | multus-ipam/backend/allocator/allocator.go:158-243 | The iteration order is a cycle through every address of every range, each once, from behind the last reserved address |
| RangeIteration.StopTestExactly | multus-ipam/backend/allocator/allocator.go:231-236 | The stop test can succeed exactly when there is one range, a fresh start, or a last reserved address that does not end its range, and then only at the first slot |
| RangeIteration.RangeIter.constructor | multus-ipam/backend/allocator/allocator.go:158-194 | The iterator starts behind the last reserved address of the first range that contains it, or at the first range |
| RangeIteration.RangeIter.Advance | multus-ipam/backend/allocator/allocator.go:219-236 | Moves to the next slot of the cycle and reports the stop exactly after a full lap of a stoppable iterator |
| RangeIteration.RangeIter.Next | multus-ipam/backend/allocator/allocator.go:198-243 | Returns the next address of the lap that is not a gateway, with its gateway, or nil after the lap; the recursion terminates by the distance to the start |
| RangeIteration.Walk | multus-ipam/backend/allocator/allocator.go:99-113 | Successive calls of Next yield the addresses of the order and then nil |
| RangeIteration.WalkCoversExactly | multus-ipam/backend/allocator/allocator.go:196-243 | These are all non-gateway addresses of the set, each once, except a reserve at the very first address of a fresh start |
| Allocator.IPAllocator.Get | multus-ipam/backend/allocator/allocator.go:44-129 | The answer, the reservations and the last-reserved mark are those of the specification, for a requested address and without one |
| Allocator.IPAllocator.Iterate | multus-ipam/backend/allocator/allocator.go:95-118 | The loop reserves the first free address of the order or finds none |
| Allocator.IPAllocator.Release | multus-ipam/backend/allocator/allocator.go:132-137 | Releases the interface |
| Allocator.GotIsFirstFree | multus-ipam/backend/allocator/allocator.go:95-128 | Success takes an address that was free, every address the iterator offers before it was reserved, and the gateway is that of a range with the address |
| Allocator.GetFailsExactly | multus-ipam/backend/allocator/allocator.go:84-118 | Get refuses a duplicate exactly when the interface holds an address of the set, and finds nothing exactly when otherwise every address it may hand out is reserved |
| Allocator.RequestExactly | multus-ipam/backend/allocator/allocator.go:51-81 | For a requested address, when each answer is given: in no range, the gateway, a reserve, taken, or handed out with the gateway of the range that holds it |
| Fairness.SecondGetIsDuplicate | multus-ipam/backend/allocator/allocator.go:84-93 | After a success the next Get for the same interface is refused as a duplicate, wherever the iterator stands |
| Allocator.NothingFreeExactly | multus-ipam/backend/allocator/allocator.go:95-118 | Nothing is found exactly when every address that may be handed out is reserved |
| Allocator.HangsExactly | multus-ipam/backend/allocator/allocator.go:87-113 | Get hangs exactly when the interface holds no address of the set, the set has several ranges, the last reserved address ends one of them, and everything is reserved |
| Allocator.LoopHangsExactly | multus-ipam/backend/allocator/allocator.go:99-113 | Its loop hangs exactly under the last three of these conditions |
| Allocator.IPAllocator.KeepTrying | multus-ipam/backend/allocator/allocator.go:99-113 | Then, for every n, the first n rounds of the loop each get an address, find it taken, change nothing and go on |
| RangeIteration.RangeIter.NeverReturns | multus-ipam/backend/allocator/allocator.go:219-240 | If there are only gateways, for every n, the first n steps inside Next neither stop nor come to another address |
| ClusterHistories.FullBlocksHang | multus-ipam/main.go:225-246 | Two or more cached blocks of the range, all reserved, and a last reserved address that ends one of them: the request hangs |
| ClusterHistories.SecondBlockHangs | multus-ipam/main.go:237-271 | For every network whose first two blocks fit and hold neither gateway nor reserve a history exists in which a node fills both and then every new request hangs while the third block is free |
| Fairness.RoundRobinIsFair | multus-ipam/backend/allocator/allocator.go:153-194 | A container that gets an address for a sub-interface and releases it under the interface name sees pairwise distinct addresses in as many consecutive rounds as there are free addresses, whatever else the directory holds but records under that name; all rounds find one exactly if the first does |
| Fairness.FirstRoundFailsExactly | multus-ipam/backend/allocator/allocator.go:198-217 | With a free address the first round fails exactly for a fresh start whose one free address is the first of the set and a reserve |
| Fairness.ResumedRounds | multus-ipam/backend/allocator/allocator.go:153-194 | Once an address of the set was reserved, every such round finds one, and they return the free addresses in cyclic order |
| Fairness.OrderBehind | multus-ipam/backend/allocator/allocator.go:166-187 | The order that resumes at an address is the old one turned to just behind it |
| Fairness.FreeSeqExactly | multus-ipam/backend/allocator/allocator.go:153-157 | The free addresses counted are exactly those neither reserved nor the gateway of their range |
| Etcd.LeaseDir.List | multus-ipam/backend/etcdv3cli/cli.go:99-104 | A prefix read sorted by key lists each lease once in address order |
| Etcd.LeaseDir.PutIfAbsent | etcdv3/etcdv3.go:197-235 | Writes the key exactly if it is absent |
| Reconcile.CheckNetwork | multus-ipam/backend/etcdv3cli/cli.go:157-217 | The two nested loops leave the specified cache and leases; without a write the cache holds exactly the leases, and there is none if each lease is cached and all it overlaps |
| Reconcile.RunIsSound | multus-ipam/backend/etcdv3cli/cli.go:157-217 | A run keeps every lease of every node, leases only blocks that were cached, and ends with a cache inside the node's leases |
| Reconcile.OneRunExactly | multus-ipam/backend/etcdv3cli/cli.go:157-217 | One run makes cache and leases equal if and only if no cached block meets two leases of the node |
| Reconcile.CheckLeasesExactly | multus-ipam/backend/etcdv3cli/cli.go:173-192 | In the first loop a lease stays cached exactly if no loaded block lies across it and a later lease |
| Reconcile.GivesUpExactly | multus-ipam/backend/etcdv3cli/cli.go:173-192 | Whatever is cached, a lease is given up exactly if it is not among the loaded blocks and a block that overlaps it is still cached after the deletions; no other lease changes |
| Reconcile.NestedBlockLosesLease | multus-ipam/backend/disk/backend.go:292-310 | A cached block inside another: deleting the outer one takes the inner one, and the lease is given up |
| Reconcile.TwoRunsConverge | multus-ipam/backend/etcdv3cli/cli.go:157-217 | From any state of disjoint equal-size blocks two runs make the cache equal to the leases, and the second changes no lease |
| Reconcile.NoWriteMeansAgreement | multus-ipam/backend/etcdv3cli/cli.go:157-217 | For disjoint equal-size blocks these are agreement: a run calls no write of cache or etcd exactly when it finds agreement |
| Reconcile.FixedPointWritesNothing | multus-ipam/backend/etcdv3cli/cli.go:157-217 | A run that finds agreement changes neither cache nor leases |
| Reconcile.OneRunMayNotSuffice | multus-ipam/backend/etcdv3cli/cli.go:173-192 | A cached block across two leases for which one run ends with one of them missing |
| Clipping.FormRangeSets | multus-ipam/main.go:187-223 | The loops build the clipped range sets and prune the cache as specified |
| Clipping.FormRangeSet | multus-ipam/main.go:198-219 | The same for one range set |
| Clipping.ClippingExactly | multus-ipam/main.go:200-211 | The pieces cover exactly the configured addresses in cached blocks if and only if no cached block strictly contains a configured range |
| Clipping.ClipSetDisjoint | multus-ipam/main.go:200-211 | Disjoint ranges and disjoint blocks give disjoint, ordered pieces |
| Clipping.ClippedIsIterable | multus-ipam/main.go:187-223 | A clipped set that is not empty meets what the iterator needs |
| Clipping.PruneSetsExactly | multus-ipam/main.go:198-216 | Over all sets the cache loses exactly the blocks that are foreign to some range of some set; all others stay, in their order |
| Clipping.ForeignExactly | multus-ipam/main.go:211-216 | A block is foreign to a range exactly if neither of its ends is in the range and the subnet does not hold both |
| Clipping.ClipExactly | multus-ipam/main.go:202-210 | A touched block leaves a piece with exactly the common addresses and otherwise the range's subnet, gateway and reserves; an untouched one has common addresses exactly if it strictly contains the range |
| Clipping.NothingPrunedExactly | multus-ipam/main.go:198-216 | The cache stays as it is exactly when every range of every set touches each cached block or has it in its subnet |
| Allocation.ApplyIPRange | multus-ipam/backend/etcdv3cli/cli.go:55-85 | Leases the block the scan returns to the node, or changes nothing |
| Allocation.TryNewBlock | multus-ipam/main.go:252-271 | One try applies exactly if the scan finds a block; it then leases that block to the node, caches it behind the others unless a cached block meets it, and answers what Get answers on it, an address of the block with the gateway of the first range; otherwise nothing changes |
| Allocation.AllocateOne | multus-ipam/main.go:239-282 | A pass ends as the run relation says. New blocks are tried exactly if the cached ranges have nothing free, at most three; a pass finds nothing only after three leased blocks with nothing free, or when the scan finds none. No cached block is lost and every new lease is cached unless a cached block meets it; the address and gateway are those of a cached range or of a new block; only a success adds a record |
| AllocationRuns.FreshServesExactly | multus-ipam/main.go:259-268 | A new block serves a sub-interface exactly if that holds none of its addresses and it has a free address besides the gateway and, on a fresh start, a reserve in first place |
| AllocationRuns.CachedRangesFirst | multus-ipam/main.go:237-271 | Every run of the passes begins with the addresses that the cached ranges alone give; if these are all it needs, it completes and takes no block |
| AllocationRuns.CachedServesExactly | multus-ipam/main.go:237-247 | The cached ranges serve all sub-interfaces exactly if Get finds a first address, there are as many free addresses as sub-interfaces, and none of these holds an address of the ranges |
| AllocationRuns.EarlierIsNotLater | multus-ipam/main.go:238-242 | The record of an earlier sub-interface of the call is never taken for one of a later sub-interface |
| Allocation.AllocateIP | multus-ipam/main.go:225-287 | The call is a sequence of such passes: it completes with one distinct new address for each sub-interface, each with its gateway from a cached block of a configured range or from a new, cached block, and exactly these records, or it is refused by one pass and leaves what the roll-back leaves. If the cached ranges are enough it succeeds with their addresses and no new lease or cache entry. No lease and no unpruned cache entry is lost |
| Allocation.RestOfBlockServes | multus-ipam/main.go:237-268 | A cached block with a free address in a configured range is enough for one more sub-interface, which then needs no new lease |
| Allocation.RollBack | multus-ipam/main.go:272-277 | The release loop removes all records of this call |
| Allocation.ReleaseRollsBack | multus-ipam/main.go:272-277 | One release of the loop: the first takes the interface's records, each later one falls back to the container id |
| Allocation.WithRecordsKeys | multus-ipam/main.go:237-281 | The records after an allocation are the old ones, unchanged, and one for each new address and sub-interface |
| Allocation.FailureLeavesExactly | multus-ipam/main.go:272-277 | After a failure with k earlier successes exactly these earlier records are gone: none for k = 0, those with the id and interface as prefix for k = 1, all of the id for more; the others are unchanged |
| Allocation.FailureHarmlessExactly | multus-ipam/main.go:237-277 | A failing call leaves every earlier record, wherever it fails, exactly if it asks for one address, or for two with nothing recorded under the interface, or nothing is recorded under the id |
| Allocation.RollBackReleasesOtherExactly | multus-ipam/main.go:272-277 | The address of another interface is rolled back exactly after two or more successes, or after one if its name starts with this one |
| Allocation.RollBackReleasesOtherInterface | multus-ipam/main.go:272-277 | One success for net1 before the failure loses net10.0 |
| Allocation.DeleteContainer | multus-ipam/main.go:154-184 | Deleting with one range set is one release of the interface; with two or more it takes all records of the container |
| FixInfo.ParseGenerateExactly | multus-ipam/backend/etcdv3cli/cli.go:340-350 | Parsing returns namespace and pod exactly for names without the separator whose namespace does not start with a trimmed character |
| FixInfo.ParseBroken | multus-ipam/backend/etcdv3cli/cli.go:345-350 | A record without a separator parses to the name that stands for deletion |
| FixInfo.GenerateInjective | multus-ipam/backend/etcdv3cli/cli.go:340-343 | Distinct namespace, pod and index give distinct records for clean names |
| FixIP.KeysAreAddresses | multus-ipam/backend/etcdv3cli/cli.go:281-328 | A key of a fixed address reads back as the address, and keys sort as addresses do |
| FixIP.FixDir.List | multus-ipam/backend/etcdv3cli/cli.go:281 | Each record once, in address order |
| FixIP.ApplyFixIP | multus-ipam/backend/etcdv3cli/cli.go:262-337 | For every directory, range and pod: the pod's first record in the range is returned, otherwise one of the addresses on offer, each of them for some random choice, otherwise an error; the pod's records outside the range that were met are deleted, one record is written, nothing else changes |
| FixIP.SweptExactly | multus-ipam/backend/etcdv3cli/cli.go:297-302 | A call leaves every record of other pods and every record in the range; of the pod's own records out of the range those below it go, those above it exactly if it holds none in the range |
| FixIP.KnownPodKeepsLowest | multus-ipam/backend/etcdv3cli/cli.go:303-306 | A pod with records in the range gets the lowest of them |
| FixIP.ServesExactly | multus-ipam/backend/etcdv3cli/cli.go:291-326 | For a directory written with one range the answers are exactly: the known address; or an address of the range without a record; or an error, if and only if the range is full or ends at the last address of all |
| FixIP.RecordKeepsConsistent | multus-ipam/backend/etcdv3cli/cli.go:328-335 | Writing an answer keeps one record for a pod and all records in the range |
| FixIP.AllocateFixIP | multus-ipam/main.go:289-308 | Every index of the pod has its recorded address, all earlier records stay, a failure means a full range |
| FixIP.IndicesDiffer | multus-ipam/main.go:296-305 | The indices of a pod with a clean name get different addresses |
| FixIP.StepKeepsHonest | multus-ipam/backend/etcdv3cli/cli.go:274-335 | Begin, write and concurrent collection keep the directory consistent and the address in flight free of other pods |
| FixIP.EveryCallIsServed | multus-ipam/backend/etcdv3cli/cli.go:262-337 | In every run each call is answered as intended and reading changes no record |
| FixIP.FixedIsSticky | multus-ipam/backend/etcdv3cli/cli.go:303-306 | Until its record is collected, every later call of a pod returns the same address |
| FixIP.NeverReassigned | multus-ipam/backend/etcdv3cli/cli.go:317-335 | Two pods are given the same address only with a collection of it in between |
| Controller.KubeManager.CheckFixIP | multus-controller/controller.go:255-301 | A check leaves exactly the lost, unexpired keys waiting, each with its first time, and deletes exactly the expired ones |
| Controller.KubeManager.HandleNodeDelEvent | multus-controller/controller.go:145-177 | Deletes exactly the keys whose value is the name of the deleted node; a key whose value is another name stays |
| Controller.IsOwnerExactly | multus-controller/controller.go:146-169 | A value matches a node exactly if it is its name, whatever blanks surround either |
| ClusterLinks.EventPurgesExactly | multus-controller/controller.go:145-177 | A registry that holds the leases of a network below its directory holds, after the event, exactly those of the other nodes |
| Controller.Registry.Delete | etcdv3/etcdv3.go:261-265 | Deletes exactly the listed keys |
| Controller.Trace.StoredIsRunStart | multus-controller/controller.go:275-282 | In every sequence of checks a stored time is that of the first check of the current unbroken run of failed lookups |
| Controller.Trace.DeletesExactly | multus-controller/controller.go:269-299 | A check deletes a key if and only if the current unbroken run of failed lookups is longer than 24 hours |
| Controller.Trace.NeverTooEarly | multus-controller/controller.go:276-279 | A deleted key was lost at every check of a span longer than 24 hours |
| Controller.Trace.EventuallyDeletes | multus-controller/controller.go:276-279 | Under a clock that does not run backwards, lookups that keep failing for longer than 24 hours end in a deletion |
| Controller.LivePodKeepsItsAddress | multus-controller/controller.go:272-274 | The record of a pod with a clean name is not deleted by a check that finds the pod |
| VxlanDaemon.ParseKeyOfKey | multus-vxlan/backend/etcdv3cli/cli.go:42-45 | Parsing the key of a tunnel record gives its interface and source |
| VxlanDaemon.Multusd.ProcHistoryRecord | multus-daemon/daemon.go:157-179 | After a replay every interface with records is buffered if missing, else unbuffered and extended by all records of the other nodes; the mutual recursion ends because the buffered existing interfaces get fewer |
| VxlanDaemon.Multusd.WatchedAddSubnet | multus-daemon/daemon.go:181-212 | Buffers a missing interface, replays a buffered one, and otherwise adds the source unless it is the own address |
| VxlanDaemon.Multusd.WatchedDelSubnet | multus-daemon/daemon.go:214-238 | Removes the source from an existing vxlan unless it is the own address |
| VxlanDaemon.Multusd.Watched | multus-daemon/daemon.go:140-152 | One watch event does what its kind says |
| VxlanDaemon.SuffixDecides | multus-daemon/daemon.go:181-193 | The pending events have the last word on the records they mention, so replaying newer records early does no harm |
| VxlanDaemon.TracksExactly | multus-daemon/daemon.go:181-238 | The invariant of an unbuffered vxlan means: playing the pending events on its table gives the records of the other nodes |
| VxlanDaemon.StepKeepsTracks | multus-daemon/daemon.go:140-238 | Writes to etcd, delivered events, and interfaces that appear or vanish keep the invariant, except the removal of an interface whose records were delivered |
| VxlanDaemon.StartTracksExactly | multus-daemon/daemon.go:138-139 | Wherever history read and watch stand in the history of etcd and whatever a table held before, a start is right for an interface exactly when no record is missed: one that no pending event mentions and that the events in between leave other than history and table have it, where a missing interface is safe once buffered |
| VxlanDaemon.TableFollowsRecords | multus-daemon/daemon.go:123-238 | In every run from a start that misses nothing of the interface, without such a removal, the table of an unbuffered vxlan and the pending events give the records, and with a drained queue the table is the records |
| VxlanDaemon.PutRestores | multus-daemon/daemon.go:181-193 | A put event restores the invariant for a missing or buffered interface |
| VxlanDaemon.RecreationExactly | multus-vxlan/vxlan.go:31-46 | A vxlan removed and created again keeps following the records exactly if it was buffered or pending events mention every record of another node |
| VxlanDaemon.MissedIsStale | multus-daemon/daemon.go:138-139 | What a start misses of an existing vxlan is a stale entry, and only that is |
| VxlanDaemon.StaysStale | multus-daemon/daemon.go:140-152 | In every run a stale entry stays until its record is written again or the interface goes |

## Left out

- etcd, Kubernetes and docker clients, timeouts, TLS and file errors: etcd is a map with atomic read, write and delete; pod lookups and clocks are parameters; an I/O error path does nothing but return.
- IPv6 and mixed address families: the lease layer computes with 32-bit addresses only; addresses are numbers, not text or bytes.
- ipaddr helpers: archichris/netools is not part of this model; `AddSeg(x, n) = x + 2^n` and the big-endian conversion are taken from how the lease code and its examples use them. Keys that are not of the written form are left out.
- Cluster.AddressesStayUnique: one network with one configured range and one block size; a node's apply-and-append and its reconciliation do not interleave with each other, steps of different nodes and the controller do; a deleted node does not come back with its old files.
- ClusterHistories.UniquenessExactly: a block behind the range that itself wraps past 2^32 is excluded; no iterator over it ends. The uniqueness theorem for an uneven size does not need this.
- Cluster.NeverAbsent: the directory mutex is taken to hold until the write; a session that expires in between is not modelled.
- Allocation.AllocateIP: a block that would wrap past 2^32 is excluded, because an iterator over it would not end; block exponents of 32 and more are excluded; the container id is not blank.
- Allocator.IPAllocator.Get: the case in which the source does not return is excluded from the method and characterised by `Allocator.HangsExactly`; allocateIP reports it as the outcome `Hung`.
- Prefix lengths: the one that goes with an answered address, that of the range's subnet, is not modelled.
- RangeIteration.RangeIter.Next: the helper methods Advance, Iterate, TryNewBlock, AllocateOne, RollBack, CheckOneLease and CheckOneCached have no counterpart in the source, which has their text inline, and KeepTrying and NeverReturns are the first rounds of its loops; the positions of the cycle are ghost fields.
- DiskStore.Store.FlashCache: the cache file is a list of address pairs; writing and parsing its text lines is not modelled.
- DiskStore.Store.ReleaseByKey: the source also walks the bookkeeping files (marks, lock, cache) of the directory; a container id is taken not to be a prefix of their contents. Trimming covers the Latin-1 white space only.
- Blocks.SimpleRange.HostSize: the logarithm of the empty size is left to the platform by Go and taken as 0.
- Network names: prefix reads without a trailing slash assume that no network name is a prefix of another.
- FixIP.ApplyFixIP: the random choice is a parameter; the key of address 0, which the source takes for "not found", is covered by the contract and cannot arise from a valid range.
- FixIP.FixedIsSticky: all calls use one range for a network; the directory lock does not expire during a call.
- Controller.KubeManager.CheckFixIP: one clock reading for a key in a check; the deletion of a key that a pod has taken again since the read is possible in the source and in the runs of FixIP.
- VxlanDaemon.Multusd.ProcHistoryRecord: one reading of etcd serves a handler and its nested replay; interfaces do not change during one handler; adding and removing a table entry is idempotent; a broken watch that starts over is not modelled.
- The gateway allocation of cmdAdd, FindByID and cmdCheck, DNS, the docker query, configuration parsing, bridge and vxlan setup and the delegating plugin would only add easy members or kernel calls.
