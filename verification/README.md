# Node IPAM: verified model of the multi-CIDR range allocator

A Dafny model of the allocator of the Node IPAM controller (KEP-2593, multiple
ClusterCIDRs) and proofs about it. `dafny verify dfyconfig.toml` checks all of it.

## What is modelled

Three layers, each as an object with mutable state and as functions on values:

- **A CIDR set** cuts an IP range into equal blocks. `Bits`, `Words`, `Cidrs` and
  `Blocks` hold the address arithmetic, done bit by bit on natural numbers with
  every truncation to 32 or 64 bits written out. `SetSpec` says what the
  operations do to a set of block numbers and a ring cursor; the class
  `MultiCidrSets.MultiCIDRSet` implements them with the program's map, cached
  count and cursor.
- **The priority queue**: `Priority` is the five-level order, `PriorityQueues` the
  binary heap whose items know their positions, `Ordering` the list of
  ClusterCIDRs tried for a node.
- **The range allocator**: `AllocatorSpec` and `Lifecycle` are its operations as
  functions on a map from selector keys to lists of ClusterCIDRs; the class
  `RangeAllocators.RangeAllocator` is the object graph of allocator, ClusterCIDRs
  and sets, and each of its methods is proved to change the graph's abstract value
  as the function says. A `Ref` (selector key and position) stands for a pointer
  to a ClusterCIDR.

On top of these: `Allocate` (soundness and completeness of the search),
`Prioritize` (first fit), `Assign` (conservation when an assignment fails),
`NodeOps` (occupy and release exactly), `Frames` (what operations leave in place),
`Safety` (safety over all runs), `PodCidrs` (the CIDRs nodes really hold, over all
runs), `Drain` (termination over all runs), `ServiceRange` (how long a filtered
range stays out of use), `Scenarios` and `TwoRanges` (runs that reach what the theorems
speak of).

## How runs are modelled

Every allocator step holds the lock, so a run is a sequence of atomic events:
allocate, occupy, release, ClusterCIDR create, ClusterCIDR delete, and filtering a
service range. The lister's answer and the three patch attempts are parameters of
an event. Selector matching is a function parameter that may differ from event to
event, as node labels may change. A *claim* records CIDRs promised to a node: live
once the controller has associated the node, pending when it keeps a reservation
without knowing what became of the patch. CIDRs that a node brings along are claimed if
they are whole blocks of the range that takes them.

`Safety.Enabled` lists what is asked of the surroundings: CIDRs a node brings along
are disjoint from those claimed by other nodes; CIDRs that a release really frees are
not claimed by another node (a repeated release that finds no associated ClusterCIDR
changes nothing and is always allowed); and every set that is reached is there, as the
program dereferences it unchecked (`AllocatorSpec.NoNilList`,
`AllocatorSpec.NoNilRelease`: lists are followed only as far as the program gets).

The answer to a patch is a confirmation, a server timeout, or a failure, which stands
for every other error. `PodCidrs` adds to the world what the API server stores: the
podCIDRs of every node that is not being deleted, and for each attempt whether a patch
that was not confirmed was applied all the same. A run starts with nothing mapped, but
nodes may hold CIDRs from before.

## Where the code does less than its comments say

- A reservation is meant to be kept when the patch may have gone through, but only
  the last attempt decides: `Assign.UncertainPatchReleased` gives the exact condition,
  `PodCidrs.GivenBackTwice` a run that ends with two nodes holding one block. Every error
  but a server timeout counts as a refusal, also one that says nothing about the patch.
- Reservations kept after a timeout, a lister error or an already matching node are
  not associated, so the ClusterCIDR can be deleted under them:
  `Safety.PendingClaimLost` gives the exact condition, `Scenarios.PendingClaimLostRun`
  a run, and `PodCidrs.LostAndGivenAgain` the double assignment that may follow.
- Terminating ClusterCIDRs are announced not to be used for allocation, but the
  catch-all list is appended unfiltered. `Drain.AllocateGainsExact` and
  `Drain.OccupyGainsExact` say exactly when a ClusterCIDR gains a node,
  `Scenarios.FirstNodeServed` reaches the case; for every other selector the promise
  holds (`Drain.HomeNotTerminating`, `Drain.RunDrains`).
- Failed attempts are not rolled back: a round that finds an IPv4 block but no IPv6
  block leaves the former marked (`Prioritize.TryExact`, `Assign.AttemptLeaves`), so
  retries use up the IPv4 set (`Assign.RetriesLeak`, `Scenarios.LeakRun`); ClusterCIDRs
  that cannot take all CIDRs of a node keep the marks of the first ones
  (`NodeOps.OccupyMarksExact`).
- A release takes a node out of one ClusterCIDR only: `Drain.ReleaseLeavesAssociated`
  says when it leaves the node associated nowhere, `TwoRanges.AssociatedTwice` reaches a
  ClusterCIDR that cannot be deleted.
- Node CIDRs finer than a block share it: `SetSpec.FinerCidrsShareBlock`, with
  `SetSpec.ReleaseKeepsCover` as the exact condition for a release to be harmless. Node
  CIDRs coarser than the range are taken, but not protected outside it:
  `SetSpec.OccupyTakes`, `TwoRanges.CoarseCidrServedAgain`.
- The service range is filtered once: `ServiceRange.StepServiceMarked` says exactly which
  event undoes it, `ServiceRange.LateRangeServesService` shows a later ClusterCIDR.
- NextCandidate's comment speaks of the last evaluated index; it returns the number
  of blocks skipped, which is what the callers add up.
- The validation bounds on perNodeHostBits are not enforced by the constructor:
  `Blocks.AcceptedWithoutBlocks`, `Blocks.FullIPv4SpaceHasNoIndex`.

## Model

| member | source | states |
|---|---|---|
| Words.IndexToHalvesExact | pkg/controller/ipam/multicidrset/multi_cidr_set.go:164-191 | the two-half construction of an IPv6 block address equals base + index * 2^(width - node mask) for every cluster mask, node mask and index below MaxCIDRs: no bit is lost at the 64-bit boundary |
| Words.GuardHarmless | pkg/controller/ipam/multicidrset/multi_cidr_set.go:178-184 | the `indexMaxBit > btl` guard never changes the result: where it skips the or, there is nothing to or in |
| Words.LastHalvesExact | pkg/controller/ipam/multicidrset/multi_cidr_set.go:261-268 | or-ing the complemented mask half by half gives the last address of the CIDR |
| Cidrs.OverlapsExact | pkg/controller/ipam/multicidrset/multi_cidr_set.go:386-388 | the two-sided mask test is true exactly when the two address ranges intersect |
| Cidrs.MeetsIffShared | pkg/controller/ipam/multicidrset/multi_cidr_set.go:386-388 | two networks meet, in the sense used throughout, iff they are of one family and share an address |
| Cidrs.InsideIffSubset | pkg/controller/ipam/multicidrset/multi_cidr_set.go:243-247 | one network lies inside another of its family iff every address of it is one of the other |
| Cidrs.MeetsNested | pkg/controller/ipam/multicidrset/multi_cidr_set.go:243-247 | CIDRs are nested or disjoint: a CIDR that meets one of longer prefix contains it |
| Cidrs.ContainsMasked | pkg/controller/ipam/multicidrset/multi_cidr_set.go:243 | Contains on an address masked by the network's own mask asks whether the address lies in the range |
| Blocks.IndexToBlockExact | pkg/controller/ipam/multicidrset/multi_cidr_set.go:156-199 | indexToCIDRBlock(i) is block i of the range in both families, for every valid shape |
| Blocks.Tiling | pkg/controller/ipam/multicidrset/multi_cidr_set.go:120-199 | every address of the range lies in exactly one of the MaxCIDRs blocks, and blocks hold no other address |
| Blocks.BlocksDisjoint | pkg/controller/ipam/multicidrset/multi_cidr_set.go:156-199 | two blocks share an address only if they are the same block, so map keys and block numbers correspond one to one |
| Blocks.XorShiftIsDivision | pkg/controller/ipam/multicidrset/multi_cidr_set.go:335-345 | XOR with the base followed by the shift is (ip - base) / blocksize inside the range, and below MaxCIDRs |
| Blocks.GetIndexExact | pkg/controller/ipam/multicidrset/multi_cidr_set.go:333-353 | getIndexForIP answers the block of every address of the range; the 32-bit and 64-bit truncations lose nothing |
| Blocks.IndexOfBlock | pkg/controller/ipam/multicidrset/multi_cidr_set.go:156-199 | round trip: the index of any address of block i, also after masking to the node mask, is i |
| Blocks.IndicesExact | pkg/controller/ipam/multicidrset/multi_cidr_set.go:234-275 | getBeginningAndEndIndices errs iff the CIDR misses the range, and otherwise block i is in [begin, end] iff it intersects the CIDR, for CIDRs coarser than the range, between the masks, and finer than a block |
| Blocks.NewSetAccepts | pkg/controller/ipam/multicidrset/multi_cidr_set.go:120-154 | a validated spec is refused iff it is IPv6 with more than 2^16 blocks; an accepted one has blocks of 2^perNodeHostBits addresses and a valid shape |
| Blocks.AcceptedWithoutBlocks | pkg/controller/ipam/multicidrset/multi_cidr_set.go:120-154 | for every int32 perNodeHostBits, validated or not: the constructor accepts a set without any block iff more host bits are asked for than the range has, or (IPv4) so few that the shift overflows |
| Blocks.FullIPv4SpaceHasNoIndex | pkg/controller/ipam/multicidrset/multi_cidr_set.go:334-340 | getIndexForIP refuses an address of an IPv4 range iff the set splits the whole IPv4 space into single addresses, where uint32(MaxCIDRs) is 0 |
| Blocks.MappedAddressIndex | pkg/controller/ipam/multicidrset/multi_cidr_set.go:334-340 | a block whose first address is IPv4-mapped is answered as block 0, whatever block it is |
| SetSpec.NextCandidate | pkg/controller/ipam/multicidrset/multi_cidr_set.go:203-230 | offers the first free block in ring order from the cursor with the number skipped, and none iff every block is marked |
| SetSpec.Pigeonhole | pkg/controller/ipam/multicidrset/multi_cidr_set.go:207-229 | the count reaches MaxCIDRs iff no candidate is left, so after the count check the scan always succeeds |
| SetSpec.RoundRobin | pkg/controller/ipam/multicidrset/multi_cidr_set.go:213-225 | between two offers of the same block in any run of NextCandidate, Occupy and Release, every block was offered or was marked at some moment |
| SetSpec.OccupyReleaseLaws | pkg/controller/ipam/multicidrset/multi_cidr_set.go:278-331 | Occupy and Release are idempotent, and a Release undoes an Occupy iff none of the blocks was marked before |
| SetSpec.CoveredIsProtected | pkg/controller/ipam/multicidrset/multi_cidr_set.go:366-392 | a CIDR whose blocks are all marked is disjoint from everything that avoids the marked blocks |
| SetSpec.OccupyTakes | pkg/controller/ipam/multicidrset/multi_cidr_set.go:305-331 | after c is occupied every address of c lies in a marked block iff c lies inside the range; a coarser c is occupied too, its part outside stays free |
| SetSpec.NoCommonBlock | pkg/controller/ipam/multicidrset/multi_cidr_set.go:234-275 | two CIDRs that meet the range have no block in common iff they are disjoint and not both finer than a block with the same prefix under the node mask |
| SetSpec.ReleaseKeepsCover | pkg/controller/ipam/multicidrset/multi_cidr_set.go:278-303 | releasing x leaves a covered y covered iff the two are disjoint and not both parts of one block |
| SetSpec.WholeBlocksNotShared | pkg/controller/ipam/multicidrset/multi_cidr_set.go:278-303 | disjoint CIDRs share no block if one of them is no finer than a block |
| SetSpec.FinerCidrsShareBlock | pkg/controller/ipam/multicidrset/multi_cidr_set.go:286-298 | CIDRs finer than a block do share it: releasing one frees the block under the other |
| MultiCidrSets.MultiCIDRSet.constructor | pkg/controller/ipam/multicidrset/multi_cidr_set.go:120-154 | a new set has the shape of its spec, no mark and its cursor at block 0 |
| MultiCidrSets.MultiCIDRSet.BlockAt | pkg/controller/ipam/multicidrset/multi_cidr_set.go:156-199 | the word arithmetic yields the block of that number |
| MultiCidrSets.MultiCIDRSet.IndicesOf | pkg/controller/ipam/multicidrset/multi_cidr_set.go:234-275 | the interval is exactly the set of blocks that meet the CIDR |
| MultiCidrSets.MultiCIDRSet.NextCandidate | pkg/controller/ipam/multicidrset/multi_cidr_set.go:203-230 | the scan over the map and the cursor does what the ring specification says; its last error return is unreachable |
| MultiCidrSets.MultiCIDRSet.Occupy | pkg/controller/ipam/multicidrset/multi_cidr_set.go:305-331 | marks become the union with the blocks that meet the CIDR, the count follows, an error iff the CIDR misses the range |
| MultiCidrSets.MultiCIDRSet.Release | pkg/controller/ipam/multicidrset/multi_cidr_set.go:277-303 | marks become the difference with the blocks that meet the CIDR, the count follows, an error iff the CIDR misses the range |
| MultiCidrSets.MultiCIDRSet.CIDRAllocated | pkg/controller/ipam/multicidrset/multi_cidr_set.go:366-373 | true iff some marked block is the CIDR |
| MultiCidrSets.MultiCIDRSet.CIDROverlaps | pkg/controller/ipam/multicidrset/multi_cidr_set.go:375-393 | true iff some marked block shares an address with the CIDR |
| MultiCidrSets.MultiCIDRSet.CountIsMapSize | pkg/controller/ipam/multicidrset/multi_cidr_set.go:278-331 | in every valid state the cached count is the size of the map and at most MaxCIDRs |
| Priority.StringLessExact | pkg/controller/ipam/multi_cidr_priority_queue.go:63-71 | strings are compared as in a dictionary: a proper prefix first, else the smaller character where they first differ |
| Priority.LessStrictOrder | pkg/controller/ipam/multi_cidr_priority_queue.go:45-72 | a strict order that separates all different keys, decided by the first level at which they differ: more matching labels, fewer allocatable blocks, a longer node mask, an earlier selector, an earlier CIDR |
| PriorityQueues.PriorityQueue.Swap | pkg/controller/ipam/multi_cidr_priority_queue.go:74-78 | exchanges two items and keeps each item's index equal to its position |
| PriorityQueues.PriorityQueue.HeapPush | pkg/controller/ipam/multi_cidr_priority_queue.go:80-86 | adds the item to a heap, keeping the heap order and every index |
| PriorityQueues.PriorityQueue.HeapPop | pkg/controller/ipam/multi_cidr_priority_queue.go:88-96 | removes an item of highest priority, keeping the heap order and every index, and sets the index of the item to -1 |
| PriorityQueues.PriorityQueue.PopAll | pkg/controller/ipam/multi_cidr_range_allocator.go:972-978 | popping until empty yields every queued item once, sorted by priority |
| Ordering.OrderingMembers | pkg/controller/ipam/multi_cidr_range_allocator.go:947-988 | the list holds exactly the catch-all ClusterCIDRs and the mapped ones whose selector matches; of the latter the terminating ones only when it is made for a release |
| Ordering.OrderingByPriority | pkg/controller/ipam/multi_cidr_range_allocator.go:943-989 | without reference to the comparison: first every matching ClusterCIDR once, by matching labels, then the smallest block count of its families, then block size, selector and range; then the catch-all list in map order |
| Ordering.OrderingUnique | pkg/controller/ipam/multi_cidr_range_allocator.go:943-989 | the list does not depend on the order of map iteration when the priority keys of the queued ClusterCIDRs differ |
| Ordering.OrderingKept | pkg/controller/ipam/multi_cidr_range_allocator.go:943-989 | the list for a node does not depend on marks, cursors and associated nodes |
| RangeAllocators.RangeAllocator.OrderedMatchingClusterCIDRs | pkg/controller/ipam/multi_cidr_range_allocator.go:943-989 | errs iff a selector cannot be parsed; otherwise its list is a priority-sorted permutation of the queued ClusterCIDRs followed by the catch-all list |
| Allocate.AllocatedListsExact | pkg/controller/ipam/multi_cidr_range_allocator.go:878-913 | the two checks look for a marked block of the family in any mapped ClusterCIDR that is the CIDR, or that meets it |
| Allocate.EligibleExact | pkg/controller/ipam/multi_cidr_range_allocator.go:847-862 | a block is eligible iff it is disjoint from every allocated block of its family in every mapped ClusterCIDR |
| Allocate.AllocateExact | pkg/controller/ipam/multi_cidr_range_allocator.go:844-875 | allocateCIDR returns a block iff some block of the set is eligible; the block is such a one, becomes marked, and nothing else but the cursor changes |
| Allocate.AllocateFirst | pkg/controller/ipam/multi_cidr_range_allocator.go:844-875 | the block is the first eligible one in ring order from the cursor, and the cursor then stands behind it |
| Allocate.FastCheckRedundant | pkg/controller/ipam/multi_cidr_range_allocator.go:855-862 | cidrInAllocatedList implies cidrOverlapWithAllocatedList, so the fast check never changes an allocation |
| RangeAllocators.RangeAllocator.CidrInAllocatedList | pkg/controller/ipam/multi_cidr_range_allocator.go:878-894 | true iff the CIDR is a marked block of some mapped ClusterCIDR |
| RangeAllocators.RangeAllocator.CidrOverlapWithAllocatedList | pkg/controller/ipam/multi_cidr_range_allocator.go:897-913 | true iff the CIDR meets a marked block of some mapped ClusterCIDR |
| RangeAllocators.RangeAllocator.AllocateCIDR | pkg/controller/ipam/multi_cidr_range_allocator.go:844-875 | the loop over candidates changes the object graph as the allocation specification says |
| Prioritize.TryExact | pkg/controller/ipam/multi_cidr_range_allocator.go:818-838 | one round reserves one block per configured family iff every family has an eligible block, and touches no other ClusterCIDR; a failed round leaves an IPv4 block marked iff IPv4 had an eligible one, and no other new mark |
| Prioritize.FirstFit | pkg/controller/ipam/multi_cidr_range_allocator.go:810-841 | the blocks come from the first ClusterCIDR of the list that has an eligible block in every family when its turn comes; failure iff there is none |
| Prioritize.PrioritizedExact | pkg/controller/ipam/multi_cidr_range_allocator.go:810-841 | measured against the state before the whole attempt, the chosen ClusterCIDR gained exactly one mark per family, each on a block disjoint from everything allocated then |
| Frames.PrioritizedFrame | pkg/controller/ipam/multi_cidr_range_allocator.go:810-841 | no path of prioritizedCIDRs removes a mark or a node anywhere |
| Frames.AllocateNodeFrame | pkg/controller/ipam/multi_cidr_range_allocator.go:618-651 | an attempt unmarks at most the blocks it reserved itself |
| RangeAllocators.RangeAllocator.PrioritizedCIDRs | pkg/controller/ipam/multi_cidr_range_allocator.go:810-841 | the loop over the ordered list behaves as the first-fit specification |
| Assign.Conservation | pkg/controller/ipam/multi_cidr_range_allocator.go:724-785 | if the lister shows other CIDRs, or no patch is confirmed and the last fails with another error than a server timeout, the chosen ClusterCIDR has exactly the marks and nodes from before; on a lister error, on the very CIDRs, on a confirmed patch or a final timeout the reserved blocks are still marked; only a confirmed patch associates the node |
| Assign.UpdateDecides | pkg/controller/ipam/multi_cidr_range_allocator.go:724-785 | lister and patches alone decide whether the reservation is given back, the node assigned, or success reported |
| Assign.AttemptNodes | pkg/controller/ipam/multi_cidr_range_allocator.go:618-651 | an attempt changes associated nodes only by a confirmed patch, which adds the node to the ClusterCIDR its blocks came from |
| Assign.AttemptKeepsMarks | pkg/controller/ipam/multi_cidr_range_allocator.go:724-785 | no attempt, however it ends, removes a mark that was there before it, in any ClusterCIDR |
| Assign.AllocateThenRelease | pkg/controller/ipam/multi_cidr_range_allocator.go:653-683 | releasing an assigned node restores the marks and nodes of its ClusterCIDR, if that is in the list and the node is associated with no other one of the list |
| Assign.UncertainPatchReleased | pkg/controller/ipam/multi_cidr_range_allocator.go:760-784 | whatever became of the patches, a reservation is given back iff no attempt was confirmed and the last one failed with another error than a server timeout |
| Assign.UncertainPatchReleasedExample | pkg/controller/ipam/multi_cidr_range_allocator.go:760-784 | a server timeout followed by two other errors is such a case |
| Assign.PassedOver | pkg/controller/ipam/multi_cidr_range_allocator.go:818-838 | every ClusterCIDR passed over has exactly one more IPv4 block marked for each time its turn came with an eligible IPv4 block; its IPv6 marks and nodes are as before |
| Assign.AttemptLeaves | pkg/controller/ipam/multi_cidr_range_allocator.go:618-651 | a whole attempt over any list, however it ends, leaves exactly that in every ClusterCIDR but the one it takes its blocks from |
| Assign.RetriesLeak | pkg/controller/ipam/multi_cidr_range_allocator.go:820-834 | where no ClusterCIDR of a list has room in every family, k attempts fail and leave at least k more IPv4 blocks marked for nobody in each one that has an eligible IPv4 block to the end |
| Assign.RetriesExhaust | pkg/controller/ipam/multi_cidr_range_allocator.go:820-834 | after as many such attempts as an IPv4 set has blocks, none of them is eligible any more |
| Scenarios.RetriesRun | pkg/controller/ipam/multi_cidr_range_allocator.go:618-651 | such attempts, any number of them, extend any run whose last world has no room for the node |
| Scenarios.LeakRun | pkg/controller/ipam/multi_cidr_range_allocator.go:820-834 | from any dual-stack spec with one IPv6 block and for every k, a run that serves one node and then fails k times for another, with 1 + k IPv4 blocks marked or no eligible one left |
| RangeAllocators.RangeAllocator.UpdateCIDRsAllocation | pkg/controller/ipam/multi_cidr_range_allocator.go:724-785 | releases the blocks, associates the node or leaves all as it is, as decided by what lister and patches answer |
| NodeOps.OccupyAllExact | pkg/controller/ipam/multi_cidr_range_allocator.go:544-558 | occupying a node's CIDRs in one ClusterCIDR succeeds iff they all meet its ranges; succeed or fail, exactly the blocks met by the CIDRs before the first one out of range are marked |
| NodeOps.OccupyFirstMeeting | pkg/controller/ipam/multi_cidr_range_allocator.go:520-568 | occupyCIDRs picks the first ClusterCIDR all CIDRs meet, fails iff there is none, and adds the node there only |
| NodeOps.OccupyMarksExact | pkg/controller/ipam/multi_cidr_range_allocator.go:540-568 | every ClusterCIDR that was tried keeps the marks of the CIDRs before the first one out of its range, also those passed over; all others are untouched |
| NodeOps.ReleaseExact | pkg/controller/ipam/multi_cidr_range_allocator.go:654-683 | ReleaseCIDR acts on the first ClusterCIDR of the list the node is associated with, and fails without effect if there is none; it unmarks exactly the blocks of the CIDRs before the first one out of range there, removes the node iff none was out of range, and changes no other ClusterCIDR |
| NodeOps.AddedMember | pkg/controller/ipam/multi_cidr_range_allocator.go:544-558 | a block is marked afterwards iff it was before or meets one of the CIDRs |
| NodeOps.RemovedMember | pkg/controller/ipam/multi_cidr_range_allocator.go:667-677 | a block is marked afterwards iff it was before and meets none of the CIDRs |
| Frames.ReleaseCIDRFrame | pkg/controller/ipam/multi_cidr_range_allocator.go:654-683 | a release unmarks nothing but blocks that meet the released CIDRs, and removes no other node |
| RangeAllocators.RangeAllocator.Occupy | pkg/controller/ipam/multi_cidr_range_allocator.go:583-594 | occupies in the set of the CIDR's family and leaves every other set and ClusterCIDR as it was |
| RangeAllocators.RangeAllocator.Release | pkg/controller/ipam/multi_cidr_range_allocator.go:598-610 | releases in the set of the CIDR's family and leaves every other set and ClusterCIDR as it was |
| RangeAllocators.RangeAllocator.OccupyCIDRs | pkg/controller/ipam/multi_cidr_range_allocator.go:539-568 | the nested loops behave as the occupy specification |
| RangeAllocators.RangeAllocator.AllocatedClusterCIDR | pkg/controller/ipam/multi_cidr_range_allocator.go:917-929 | finds the ClusterCIDR of the list the node is associated with such that it is associated with none before it, or none if there is none |
| RangeAllocators.RangeAllocator.AllocateOrOccupyCIDR | pkg/controller/ipam/multi_cidr_range_allocator.go:618-651 | a node with CIDRs is occupied, one without is allocated, over a correctly ordered list; an allocation reports success iff it found blocks and the lister shows CIDRs or a patch is confirmed; a bad selector changes nothing |
| RangeAllocators.RangeAllocator.ReleaseCIDR | pkg/controller/ipam/multi_cidr_range_allocator.go:654-683 | the release runs over the list made without the termination filter and behaves as specified; without CIDRs it succeeds and with a bad selector it fails, both without effect |
| Lifecycle.CreatedExact | pkg/controller/ipam/multi_cidr_range_allocator.go:1175-1209 | a valid spec gives a ClusterCIDR iff an IPv6 range has at most 2^16 blocks; each configured family has a set over its own range, with its own text, no mark and the cursor at block 0, and there is no node |
| Lifecycle.CreationSucceeds | pkg/controller/ipam/multi_cidr_range_allocator.go:1131-1148 | a create event succeeds iff a family is configured and the spec gives a ClusterCIDR, which is then mapped; otherwise nothing changes |
| Lifecycle.DualStackBlockSizes | pkg/controller/ipam/multi_cidr_range_allocator.go:1175-1209 | the sets of a dual-stack ClusterCIDR have equal block sizes of 2^perNodeHostBits addresses |
| Lifecycle.MapClusterCIDRSet | pkg/controller/ipam/multi_cidr_range_allocator.go:1212-1229 | a name already mapped under the selector changes nothing; otherwise exactly one entry is added and names stay unique |
| Lifecycle.ResyncPreserves | pkg/controller/ipam/multi_cidr_range_allocator.go:1131-1148 | any number of create events keeps every mapped ClusterCIDR in place with marks, cursors, nodes and termination mark |
| Lifecycle.DeletionExact | pkg/controller/ipam/multi_cidr_range_allocator.go:1261-1299 | a refused deletion only sets the termination mark; a successful one removes an entry without nodes (or finds none) and keeps all others in order |
| Lifecycle.DeletedValid | pkg/controller/ipam/multi_cidr_range_allocator.go:1261-1299 | deletion keeps lists non-empty and names unique per selector |
| Lifecycle.FinalizerAfterUnmap | pkg/controller/ipam/multi_cidr_range_allocator.go:1233-1257 | the finalizer is removed iff it was there, the update is accepted and no node is associated with the ClusterCIDR, which is then no longer mapped; without a finalizer nothing changes |
| Lifecycle.ServiceRangeExact | pkg/controller/ipam/multi_cidr_range_allocator.go:688-721 | after filtering a block is marked iff it was before or meets the service range; the other family, cursors, nodes and termination mark are as before |
| Lifecycle.ServiceRangeMarked | pkg/controller/ipam/multi_cidr_range_allocator.go:688-721 | filtering marks every block of every ClusterCIDR that meets the service range, and removes no mark |
| ServiceRange.StepServiceMarked | pkg/controller/ipam/multi_cidr_range_allocator.go:654-721 | the marks of a filtered service range in a mapped ClusterCIDR survive every event except exactly a release there of a CIDR that meets the service range or shares a block with it |
| ServiceRange.ServiceRangeExcluded | pkg/controller/ipam/multi_cidr_range_allocator.go:844-875 | through every run, from the filtering until such a release or the unmapping, no node is given, from any ClusterCIDR, an address that lies in the service range and in the range of the filtered ClusterCIDR; from that one no block that meets the service range |
| ServiceRange.LateRangeServesService | pkg/controller/ipam/multi_cidr_range_allocator.go:262-270 | a run in which a ClusterCIDR created after the filtering hands out a block of the service range |
| RangeAllocators.RangeAllocator.CreateClusterCIDR | pkg/controller/ipam/multi_cidr_range_allocator.go:1131-1148 | succeeds iff a family is configured and an IPv6 range has at most 2^16 blocks, and maps the ClusterCIDR as specified |
| RangeAllocators.RangeAllocator.DeleteClusterCIDR | pkg/controller/ipam/multi_cidr_range_allocator.go:1261-1299 | marks and, if idle, unmaps the named entry as specified |
| RangeAllocators.RangeAllocator.ReconcileDelete | pkg/controller/ipam/multi_cidr_range_allocator.go:1233-1257 | deletes only with the finalizer present, and removes it iff moreover the update is accepted and no node was associated |
| RangeAllocators.RangeAllocator.FilterOutServiceRange | pkg/controller/ipam/multi_cidr_range_allocator.go:688-721 | the loops over the map occupy the service range in every ClusterCIDR |
| Safety.StepKeepsInv | pkg/controller/ipam/multi_cidr_range_allocator.go:520-683 | every allocate, occupy, release, create, delete and service-range event keeps claims disjoint and protected |
| Safety.RunSafety | pkg/controller/ipam/multi_cidr_range_allocator.go:520-683 | in every world of every run the CIDRs of distinct claims are disjoint, and each claim has a mapped home, associated with the node if live, in whose range its CIDRs lie with every block they touch marked |
| Safety.LiveUntilReleased | pkg/controller/ipam/multi_cidr_range_allocator.go:724-785 | a live claim lasts, through any run, until its node is released or turns up with other CIDRs |
| Safety.PendingClaimLost | pkg/controller/ipam/multi_cidr_range_allocator.go:769-784 | a reservation kept after an uncertain patch is not associated: a deletion ends it iff it names its ClusterCIDR and no node is associated there |
| Scenarios.PendingClaimLostRun | pkg/controller/ipam/multi_cidr_range_allocator.go:769-784 | from any usable spec, the run create, allocate with three timeouts, delete ends with the claim gone and nothing mapped |
| Safety.ReleaseStripsSharedCidr | pkg/controller/ipam/multi_cidr_range_allocator.go:654-683 | releasing a CIDR strips it from whoever else holds it in the ClusterCIDR the released node is associated with |
| PodCidrs.StepTracks | pkg/controller/ipam/multi_cidr_range_allocator.go:724-785 | with the podCIDRs nodes really hold in the world, every event keeps them promised to their nodes, except exactly: a give-back after a patch applied unseen, CIDRs brought along that no ClusterCIDR takes as whole blocks, and the deletion of the node-less ClusterCIDR of a patch applied unseen |
| PodCidrs.PodsDisjoint | pkg/controller/ipam/multi_cidr_range_allocator.go:520-785 | in every run without such an event, whatever CIDRs nodes held at the start, the podCIDRs that different nodes really hold are disjoint and backed by marks of a mapped ClusterCIDR, nodes still waiting to be occupied apart |
| PodCidrs.DisjointAfterRestart | pkg/controller/ipam/multi_cidr_range_allocator.go:275-292 | once every node that held CIDRs when the controller started has been occupied or released, that holds for all nodes |
| PodCidrs.GivenBackTwice | pkg/controller/ipam/multi_cidr_range_allocator.go:760-784 | from any spec with one block and for all answers of which none confirms and the last is not a server timeout, a run in which the patch was applied all the same and the block is assigned to a second node as well |
| PodCidrs.LostAndGivenAgain | pkg/controller/ipam/multi_cidr_range_allocator.go:769-784 | from any usable spec, a run in which patches time out though one was applied, the ClusterCIDR is deleted and created again, and a second node gets the same CIDRs |
| Drain.RunStaysTerminating | pkg/controller/ipam/multi_cidr_range_allocator.go:1261-1299 | terminating is permanent: through every run, for every selector, while the ClusterCIDR stays mapped |
| Drain.StepDrains | pkg/controller/ipam/multi_cidr_range_allocator.go:957-970 | only allocations and occupations add nodes, and to a terminating ClusterCIDR only under the catch-all key |
| Drain.RunDrains | pkg/controller/ipam/multi_cidr_range_allocator.go:957-970 | while a terminating ClusterCIDR under its own selector stays mapped its nodes only shrink, through every run |
| Drain.HomeNotTerminating | pkg/controller/ipam/multi_cidr_range_allocator.go:957-970 | no node is given or occupies CIDRs of a terminating ClusterCIDR, catch-all ones apart |
| Scenarios.DefaultServes | pkg/controller/ipam/multi_cidr_range_allocator.go:980-987 | a node no selector matches is offered blocks of the first catch-all ClusterCIDR if that has room in every family, terminating or not |
| Scenarios.FirstNodeServed | pkg/controller/ipam/multi_cidr_range_allocator.go:1107-1121 | from any usable spec, created as terminating or not, there is a run in which a catch-all ClusterCIDR is created and a node gets a live claim with one CIDR per family out of it |
| Drain.AllocateGainsExact | pkg/controller/ipam/multi_cidr_range_allocator.go:810-841 | a ClusterCIDR gains a node by an allocation iff it is the first of the list with room when its turn comes, the lister shows no CIDRs and a patch succeeds; a terminating one only as a catch-all |
| Drain.OccupyGainsExact | pkg/controller/ipam/multi_cidr_range_allocator.go:520-568 | a ClusterCIDR gains a node by occupation iff it is the first of the list whose ranges all the CIDRs meet; a terminating one only as a catch-all |
| Drain.ReleaseLeavesAssociated | pkg/controller/ipam/multi_cidr_range_allocator.go:667-683 | a successful release leaves the node associated nowhere iff it was associated with no other ClusterCIDR; any other one it was in refuses deletion |
| TwoRanges.AssociatedTwice | pkg/controller/ipam/multi_cidr_range_allocator.go:520-568 | a run in which a node is occupied under two selectors in turn, associated with both ClusterCIDRs, and released once; the first then refuses deletion though nobody has a claim |
| TwoRanges.CoarseCidrServedAgain | pkg/controller/ipam/multi_cidr_range_allocator.go:520-568 | a run in which a range takes a node's CIDR coarser than itself and another ClusterCIDR assigns a block of the part outside to a second node |
| Drain.UnmappedOnlyWhenIdle | pkg/controller/ipam/multi_cidr_range_allocator.go:1233-1299 | in every reachable world a ClusterCIDR leaves the map only by its own deletion event and only with no node associated |

## Left out

- IPv4-mapped IPv6 ranges: sets that meet ::ffff:0:0/96 are excluded from valid shapes; what the code does with such an address is stated in `Blocks.MappedAddressIndex`.
- MultiCidrSets.MultiCIDRSet.constructor: builds the object for accepted specs within the validation bounds only; for all others the constructor's answer and number of blocks are modelled (`Blocks.AcceptedWithoutBlocks`), not what the object does afterwards.
- Text of CIDRs and selectors: CIDRs are canonical values, so an unparsable podCIDR is not modelled; map keys are the CIDRs themselves; labels of sets are plain strings; string order is by character.
- Selector translation and label matching: a function parameter answers no match, a match with its count, or a parse error.
- API server, node lister and patch requests: their answers are parameters; whether an API object is created or updated does not reach the model beyond that.
- Nil pointers: nil nodes and nil CIDRs are excluded by types, and dereferencing the set of a family that a ClusterCIDR lacks by preconditions (`NoNil` and `CanOccupy`, `CanRelease`).
- Work queues, informers, leader election, logging, events and metrics: plumbing around the steps.
- Interleaving of goroutines: every step holds the allocator's lock, and the sets' own locks are never contended.
- createDefaultClusterCIDR, reconcileBootstrap and needToAddFinalizer: short choices whose result enters as the spec and the terminating flag of a create event.
- Safety.RunSafety: says nothing about nodes whose CIDRs no ClusterCIDR takes as whole blocks of its range; `PodCidrs.StepTracks` names their arrival as an event that loses track.
- PodCidrs.PodsDisjoint: covers nodes until their release; a node that still runs after the release at the start of its deletion is not counted as holding its CIDRs.
