# Ownership geometry and graph passes of torch-spyre, in Dafny

torch-spyre compiles PyTorch graphs for an accelerator whose cores each hold a slice
of every tensor. This project models the parts of its compiler where a wrong answer
would silently compute the wrong numbers, and proves what those parts promise:

* `CoreMapping`, `PartitionMapping`, `OperationMapping`, `UniqueDivision`: mixed-radix maps
  from physical cores to work slices.
* `AlignedSplit`, `AlignedRemap`, `RemapDivision`: a loop split re-expressed on the segments
  the loop is cut into.
* `LoopRegions`, `LoopProofs`, `ViewOwnership`, `ViewReading`, `ViewProofs`, `ViewDivision`,
  `GridCells`, `FusedSplit`, `ReadBack`: loop partitions against physical slices, in both
  directions.
* `DenseLayout`, `DensePartition`, `Transfer`, `Certify`, `LocalRead`, `TransferEdges`:
  certified copies between cores, down to byte addresses.
* `DeadCode`, `DeadCodeMeaning`: removing dead operations.
* `DedupConstants`, `DedupList`, `DedupMeaning`, `DedupExact`, `DedupIndex`, `DedupUsers`,
  `DedupPass`: merging equal constants.
* `Fusion`: grouping operations into bundles.
* `Routing`: index tables of the grouped matrix product.
* `ContiguousRun`, `DeviceRun`, `FusedTraffic`, `BoundaryCharge`: the exact parts of the cost
  model.
* `Arith`, `Radix`, `Ownership`, `Wrappers`: quotients, products, digits, owner formulas.

Owner formulas, which the compiler keeps as symbolic expressions of the core number, are
a small expression datatype with an evaluator. A device coordinate is its value as a
function of the loop, together with the term its parser may or may not find; parsed
terms have the form `num * ((x mod m) / den) + offset`. Graph passes that edit a graph
in place are classes; the meaning of an operation is an arbitrary function of what it
reads, so a theorem about a pass holds whatever the operations compute.

`dafny verify dfyconfig.toml` checks everything.

## Model

| member | source | states |
|---|---|---|
| Radix.DigitsCompose | torch_spyre/_inductor/core_mapping.py:547-590 | mixed-radix numbers and digit tuples correspond: composing digits below their radices and splitting again gives the digits back |
| Radix.ComposeDigits | torch_spyre/_inductor/core_mapping.py:547-590 | the other direction: splitting a number below the product of the radices and composing gives the number back |
| CoreMapping.CoreToSliceMapping | torch_spyre/_inductor/core_mapping.py:547-590 | accepted exactly when the splits match the dimensions and their product divides the cores; slot k is then the k-th mixed-radix digit of the core number, the contiguous dimension first |
| CoreMapping.RadixBijective | torch_spyre/_inductor/core_mapping.py:547-590 | a mixed-radix map is a bijection between cores and slot tuples |
| CoreMapping.OuterBlocks | torch_spyre/_inductor/core_mapping.py:547-590 | outer dimensions are constant exactly on blocks of consecutive cores |
| CoreMapping.DeriveCoreMapping | torch_spyre/_inductor/core_mapping.py:623-709 | accepted exactly when the splits multiply to the cores and the groups match; then a bijection, grouped dimensions own contiguous equal core blocks, and a contiguous dimension outside the groups counts through adjacent cores |
| CoreMapping.DerivedGeometry | torch_spyre/_inductor/core_mapping.py:623-709 | these three facts hold of every mapping built in the derived dimension order, for every split list and grouping |
| PartitionMapping.DerivePartitionMapping | torch_spyre/_inductor/core_mapping.py:712-736 | accepted exactly when the owners divide the cores; slot k is the k-th digit of the owner group of a core |
| PartitionMapping.PartitionOwnsBlocks | torch_spyre/_inductor/core_mapping.py:712-736 | cores agree on all slots exactly when they are in the same block, and every slot tuple is owned |
| PartitionMapping.PermutationsComplete | torch_spyre/_inductor/core_mapping.py:945-957 | the search enumerates exactly the permutations of the constrained dimensions |
| OperationMapping.DeriveOperationMapping | torch_spyre/_inductor/core_mapping.py:880-959 | a mapping is returned if and only if some mapping the search can produce (the default, or one grouped in an order of at most five owned dimensions) gives every core the slots of every tensor owner; the one returned does, and is a bijection |
| OperationMapping.PartitionOwnersAreCanonical | torch_spyre/_inductor/core_mapping.py:712-736 | the owners of one partition mapping over at most five matching split dimensions are canonical, so the search succeeds for them |
| UniqueDivision.SelectUniquePartitionDivision | torch_spyre/_inductor/core_mapping.py:474-544 | a result is a matching candidate and every matching candidate owns the same slices; no result means no candidate matches or two matching ones differ |
| AlignedSplit.Bezout | torch_spyre/_inductor/core_mapping.py:739-754 | the greatest common divisor is an integer combination, the fact the greedy distribution rests on |
| AlignedSplit.DistributeComplete | torch_spyre/_inductor/core_mapping.py:739-754 | every factor divides its segment, factors times remainder are the split, and the remainder is one if and only if the split divides the product of the segments |
| AlignedSplit.DistributeAlignedSplit | torch_spyre/_inductor/core_mapping.py:739-754 | the outermost-first loop computes that distribution |
| AlignedSplit.KeptBlocks | torch_spyre/_inductor/core_mapping.py:757-776 | when the test holds, the segment slots of loop value x recombine to x divided by the block width |
| AlignedSplit.Interleaved | torch_spyre/_inductor/core_mapping.py:757-776 | when it fails there are x < y < z where one slot owns x and z but not y |
| AlignedSplit.KeepsBlocksExactly | torch_spyre/_inductor/core_mapping.py:757-776 | the test holds if and only if every slot owns the block x / (N / split), and if and only if every slot owns an interval |
| AlignedSplit.AlignedSplitKeepsBlocks | torch_spyre/_inductor/core_mapping.py:757-776 | the loop decides exactly that, for every split that divides the extent |
| RemapDivision.RemapWorkDivision | torch_spyre/_inductor/core_mapping.py:779-838 | remapped if and only if every loop has segments, an owner and no remainder and no two loops disagree on a segment; every entry of the result is one loop's piece and agrees on all cores with every other piece of that segment |
| RemapDivision.SeparateCompatible | torch_spyre/_inductor/core_mapping.py:779-838 | loops that share no segment symbol never conflict |
| RemapDivision.SeparateRemapped | torch_spyre/_inductor/core_mapping.py:779-838 | then each segment has its loop's factor and its digit of the old slot |
| AlignedRemap.RemapOwnership | torch_spyre/_inductor/core_mapping.py:779-838 | after the remap core c owns loop value x if and only if its old slot is the recombined segment slot of x |
| AlignedRemap.RemapPreservesExactly | torch_spyre/_inductor/core_mapping.py:779-838 | every core owns the same loop values before and after the remap if and only if the block test holds |
| LoopRegions.TermBoundsTight | torch_spyre/_inductor/core_mapping.py:240-244 | the endpoint formula gives the exact least and greatest value of a term on a partition, wraparound included |
| LoopRegions.ChainDistinct | torch_spyre/_inductor/core_mapping.py:227-233 | a digit chain whose known modulus covers the loop never repeats a point |
| LoopRegions.KnownModulus | torch_spyre/_inductor/core_mapping.py:227-233 | equal terms force equal loop values modulo the modulus the loop returns |
| LoopRegions.RectangleExactly | torch_spyre/_inductor/core_mapping.py:245-260 | points inside a box are distinct and as many as its volume if and only if they fill the box one-to-one |
| LoopRegions.AcceptsExactly | torch_spyre/_inductor/core_mapping.py:245-260 | the acceptance test of one partition is: bounds on the axes, and, for rectangles, every point of the box hit exactly once |
| LoopRegions.Regions | torch_spyre/_inductor/core_mapping.py:175-262 | accepts exactly when every partition passes that test and returns the exact bounds, whichever of the analytic and the enumerating path is taken |
| ViewOwnership.ReadStaysInside | torch_spyre/_inductor/core_mapping.py:1221-1328 | every iteration a core owns touches, on every split axis, only the slice that core physically owns |
| ViewOwnership.ReadOwnsPartitions | torch_spyre/_inductor/core_mapping.py:1221-1328 | every partition of every loop that is read has an owner |
| LoopProofs.ProveLoop | torch_spyre/_inductor/core_mapping.py:1221-1328 | accepted if and only if every partition is on the axes and there are distinct slice signatures such that each partition lies inside its own, each core's slices are one of them and none is orphaned; the proof returned is such a one |
| LoopProofs.InsideSignature | torch_spyre/_inductor/core_mapping.py:1221-1328 | a partition that lies inside one slice per axis has both bounds in that slice, so comparing bounds never refuses one that fits |
| ViewReading.OnAxesImplied | torch_spyre/_inductor/core_mapping.py:1221-1328 | partitions inside owned slices stay on the device axes, so the bounds check refuses nothing else |
| ViewProofs.SameRead | torch_spyre/_inductor/core_mapping.py:1221-1328 | the slices and owners that prove a loop are unique |
| ViewProofs.ProveLoops | torch_spyre/_inductor/core_mapping.py:1221-1306 | all loops are proved if and only if each can be, in slice order when none is fused, and the points and states stay within the limits |
| ViewDivision.WorkDivisionFromView | torch_spyre/_inductor/core_mapping.py:1128-1328 | a division is returned if and only if the view is usable, the limits hold and some division reads the view in an emittable spelling; the one returned does, keeps every core inside its own slices and leaves no partition without owner |
| GridCells.FindGrid | torch_spyre/_inductor/core_mapping.py:403-445 | the regions are cells of a grid that cuts some axis if and only if a grid is returned |
| GridCells.GridUnique | torch_spyre/_inductor/core_mapping.py:403-445 | there is at most one such grid |
| FusedSplit.DecomposeFusedSplitView | torch_spyre/_inductor/core_mapping.py:292-471 | a view is returned if and only if the input is within the limits, the tensor's owners are canonical and some view is certified: partitions are cells of one grid and the view gives each core, point for point, the image of the partition it owns; the one returned is |
| FusedSplit.DecomposedOwnsImages | torch_spyre/_inductor/core_mapping.py:403-466 | a certified view's rectangle of each core is the one-to-one image of its loop partition |
| ReadBack.ReadBackSameOwner | torch_spyre/_inductor/core_mapping.py:403-466 | with two or more split axes whose splits multiply to the fused split, any division read back from the view has the fused split and the same owner on every core |
| DenseLayout.DenseInjective | torch_spyre/_inductor/core_mapping.py:1508-1515 | two points of a slice with the same row-major address are the same point |
| DenseLayout.DenseSurjective | torch_spyre/_inductor/core_mapping.py:1508-1515 | every element address of a slice belongs to a point of the slice |
| DenseLayout.StickAligned | torch_spyre/_inductor/core_mapping.py:1544-1560 | a point that starts a stick has a stick-aligned byte address |
| DenseLayout.MeetsShares | torch_spyre/_inductor/core_mapping.py:1638-1639 | slices overlap on every axis if and only if they share a point, and the clipped slice is what they share |
| DensePartition.DenseSubrangePartition | torch_spyre/_inductor/core_mapping.py:1391-1451 | accepted exactly when the splits divide the shape and keep sticks whole, the cores are 0 to n-1 with valid slots, and every slot tuple is held by the same number of cores, one if replicas are not allowed |
| DensePartition.CoveredCores | torch_spyre/_inductor/core_mapping.py:1417-1419 | uniform coverage fixes the core count, so the early count check rejects nothing else |
| Transfer.SourceOwner | torch_spyre/_inductor/core_mapping.py:1502-1504 | every parent point belongs to exactly one source core |
| Transfer.TransferCopiesExactly | torch_spyre/_inductor/core_mapping.py:1517-1585 | executing the fragments writes every element of every destination slice exactly once, from the source core that owns it, from the address that holds it, and writes nothing else |
| Certify.PieceAlwaysFits | torch_spyre/_inductor/core_mapping.py:1544-1560 | offsets are never negative, always stick aligned and always inside the local span |
| Certify.VolumeImplied | torch_spyre/_inductor/core_mapping.py:1577-1584 | the fragment volumes of a destination always add up to its slice |
| Certify.OnlyFanIn | torch_spyre/_inductor/core_mapping.py:1517-1585 | of the checks on a destination only the eight-source limit can fail |
| Certify.CertifyDenseSubrangeTransfer | torch_spyre/_inductor/core_mapping.py:1454-1600 | a certificate is issued if and only if the inputs and both partitions are valid and no destination is fed by more than eight sources, and its fragments copy exactly |
| LocalRead.LocalIffCompact | torch_spyre/_inductor/core_mapping.py:1603-1635 | one compact same-core fragment per core at one offset is equivalent to: on every core every child element is in that core's own parent slice at the offset plus its dense child address |
| LocalRead.LocalSubrangeByteOffset | torch_spyre/_inductor/core_mapping.py:1603-1635 | accepted if and only if such a common offset exists, and returns it |
| TransferEdges.TransferEdges | torch_spyre/_inductor/core_mapping.py:110-138 | the edges are exactly the core pairs whose slots overlap on every split dimension |
| TransferEdges.EdgeIffShared | torch_spyre/_inductor/core_mapping.py:110-138 | for all extents both sides divide, a pair is an edge if and only if the two slices share an element |
| TransferEdges.EdgeSwaps | torch_spyre/_inductor/core_mapping.py:110-138 | swapping the sides turns every edge around |
| TransferEdges.FragmentsAreEdges | torch_spyre/_inductor/core_mapping.py:1517-1561 | when the child is the whole parent, the certificate's fragments connect exactly the edges |
| DeadCode.WalkOnce | torch_spyre/_inductor/deadcode_elimination.py:60-79 | a reverse pass keeps every mark needed, marks an operation whenever it adds anything, and adds nothing only at a closed set |
| DeadCode.LiveOperations | torch_spyre/_inductor/deadcode_elimination.py:24-57 | the bounded loop ends at the least fixed point of liveness |
| DeadCode.LeastUnique | torch_spyre/_inductor/deadcode_elimination.py:24-57 | that fixed point is unique and does not depend on the order of the operations |
| DeadCodeMeaning.LivenessProtects | torch_spyre/_inductor/deadcode_elimination.py:82-114 | when no mutation targets another mutation's output, no dropped operation touches the storage of a live buffer |
| DeadCodeMeaning.SurvivorsAgree | torch_spyre/_inductor/deadcode_elimination.py:24-114 | for all operation semantics, stores and schedules, running only survivors leaves the same live buffers and the same external effects |
| DeadCodeMeaning.TouchedDisagrees | torch_spyre/_inductor/deadcode_elimination.py:24-114 | conversely, dropping an operation that touches live storage changes the result of some run |
| DeadCodeMeaning.InvisibleIff | torch_spyre/_inductor/deadcode_elimination.py:24-114 | dropping the dead operations is invisible in every run if and only if every operation that touches the storage of a needed buffer is impure, mutates a needed buffer or writes one |
| DeadCodeMeaning.PassKeepsObservables | torch_spyre/_inductor/deadcode_elimination.py:117-144 | then every schedule, without the removed operations, leaves the same outputs, inputs and constants and the same effects |
| DeadCodeMeaning.ChainIsDropped | torch_spyre/_inductor/deadcode_elimination.py:91-98 | a mutation of another mutation's output is dropped although it writes an output's storage |
| DeadCode.NothingLiveRemoved | torch_spyre/_inductor/deadcode_elimination.py:117-144 | no survivor reads or mutates a removed buffer and no output, input or constant is removed |
| DeadCode.SurvivorsAllLive | torch_spyre/_inductor/deadcode_elimination.py:117-144 | a second run removes nothing |
| DeadCode.Graph.DeadcodeElimination | torch_spyre/_inductor/deadcode_elimination.py:117-144 | the pass keeps the live operations in order and adds exactly the dead operations' buffers to the removed ones |
| DedupConstants.RescanSame | torch_spyre/_inductor/dedup_constants.py:105-134 | redirecting other duplicates never changes whether an operation reads this one |
| DedupConstants.NoDupRead | torch_spyre/_inductor/dedup_constants.py:44-73 | after all redirects a computed buffer reads no duplicate, however many it read |
| DedupConstants.RewriteTarget | torch_spyre/_inductor/dedup_constants.py:44-73 | through all stacked renamings a read of a redirected duplicate reaches its canonical constant and every other read its old buffer |
| DedupConstants.MergeAllIs | torch_spyre/_inductor/dedup_constants.py:262-286 | merging duplicates one at a time with live rescans is rewriting every operation and dropping the duplicates |
| DedupMeaning.SurvivorsKeepValues | torch_spyre/_inductor/dedup_constants.py:191-299 | for all operation semantics and mutations that target no constant: when no later member of a group is an output and merged constants that are read were written alike, every surviving buffer holds after the new list what it held after the old one |
| DedupExact.KeepsValuesIff | torch_spyre/_inductor/dedup_constants.py:32-41 | that condition on written values is necessary too: without it some run tells the two lists apart |
| DedupExact.SharedKey | torch_spyre/_inductor/dedup_constants.py:32-41 | constants that share a key were written alike unless one is 0.0 and the other -0.0 |
| DedupExact.NegativeZeroLost | torch_spyre/_inductor/dedup_constants.py:32-41 | a concrete list where a reader of -0.0 ends up with 0.0 |
| DedupExact.DupsHoldSame | torch_spyre/_inductor/dedup_constants.py:164-188 | a duplicate and its canonical constant hold the same value in every run if and only if they were written alike |
| DedupList.OnePerKey | torch_spyre/_inductor/dedup_constants.py:220-226 | exactly the first constant of every key is left |
| DedupList.ConstantsFirst | torch_spyre/_inductor/dedup_constants.py:288-295 | the remaining constants come first in their original order, then the other operations in theirs |
| DedupList.OutputsProduced | torch_spyre/_inductor/dedup_constants.py:148-150 | every output is still produced if and only if no later member of a constant group is an output |
| DedupIndex.BuildReverseConsumerIndex | torch_spyre/_inductor/dedup_constants.py:76-102 | one sweep lists, for every duplicate, its readers in order, each once |
| DedupIndex.IndexIsRescan | torch_spyre/_inductor/dedup_constants.py:105-134 | the index lists exactly the consumers that a rescan just before each redirect would find |
| DedupIndex.GroupByKey | torch_spyre/_inductor/dedup_constants.py:220-226 | groups hold the constants of a key in order, keys in order of first appearance |
| DedupPass.Graph.RedirectConsumers | torch_spyre/_inductor/dedup_constants.py:105-161 | every reader is patched once; it fails exactly when a reader of a non-output duplicate cannot be rewritten |
| DedupUsers.MergedUsers | torch_spyre/_inductor/dedup_constants.py:180-187 | after all merges no duplicate has users, and every other buffer has its old users followed by those of its duplicates in merge order |
| DedupPass.Graph.DropConstant | torch_spyre/_inductor/dedup_constants.py:164-188 | the duplicate leaves the list and the buffer and operation tables and its users are appended to the canonical constant's |
| DedupPass.Graph.DedupAndPromoteConstants | torch_spyre/_inductor/dedup_constants.py:191-299 | succeeds exactly when every redirected reader is a computed buffer, and leaves the list, tables and users of the one-at-a-time definition; otherwise it stops at the first duplicate that cannot be redirected, with the merges before it complete |
| Routing.ComputeRoutingTables | torch_spyre/_inductor/customops.py:1419-1489 | ValueError exactly for invalid offsets, RuntimeError exactly for valid ones over capacity, otherwise the two tables |
| Routing.TokenRoundTrip | torch_spyre/_inductor/customops.py:1432-1440 | the slot of a routed token is a slot of its expert and holds the token |
| Routing.SlotRoundTrip | torch_spyre/_inductor/customops.py:1432-1440 | a filled slot holds a routed token whose entry is the slot; every other slot points at the zero row |
| Routing.GroupedProduct | torch_spyre/_inductor/decompositions.py:4138-4152 | pack, multiply per expert and unpack give each routed token its own expert's product |
| Routing.UnroutedReadsSlotZero | torch_spyre/_inductor/customops.py:1465-1466 | a token past the last offset is read from slot 0 |
| DeviceRun.ContiguousDeviceRun | torch_spyre/_inductor/cost_features.py:570-609 | None exactly when an axis does not walk forward or none has stride one; otherwise the run of the densely nested axes, and when the splits divide and the other axes leave gaps this is the length of every maximal stretch of addresses that any core reads |
| DeviceRun.AddressIsPosition | torch_spyre/_inductor/cost_features.py:594-609 | on a dense nest the addresses a core reads, as sums of index times stride, are the positions it owns |
| DeviceRun.StretchAround | torch_spyre/_inductor/cost_features.py:594-609 | every address a core reads lies in a maximal stretch exactly as long as the run |
| DeviceRun.GapsNeeded | torch_spyre/_inductor/cost_features.py:594-609 | copies at strides 8 and 12 touch and make a stretch of 8 where the walk finds 4 |
| DeviceRun.DenseNest | torch_spyre/_inductor/cost_features.py:594-609 | on a dense nest the walk takes in every axis and no gap is needed |
| ContiguousRun.RunAround | torch_spyre/_inductor/cost_features.py:1010-1026 | every position a core owns in a dense tensor lies in a maximal owned stretch exactly as long as the run |
| ContiguousRun.RunIsMaximal | torch_spyre/_inductor/cost_features.py:1010-1026 | every maximal stretch of positions a core owns has that length |
| ContiguousRun.WalkIsPerCoreRun | torch_spyre/_inductor/cost_features.py:1010-1026 | the run equals the one computed from the row-major per-core view |
| FusedTraffic.FusedHbmBytes | torch_spyre/_inductor/cost_model.py:1346-1371 | reads are the internal reads plus, once for every distinct graph input, the largest load any operation needs; writes are their sum |
| FusedTraffic.BestIsLargest | torch_spyre/_inductor/cost_model.py:1358-1364 | that largest load is reached by one of the reads and exceeded by none |
| BoundaryCharge.CloneInBytes | torch_spyre/_inductor/cost_model.py:1373-1386 | accumulates the largest owned clone load of every input |
| FusedTraffic.CollectTotal | torch_spyre/_inductor/cost_model.py:1346-1386 | a by-name maximum dictionary totals the largest value of every name, once each |
| BoundaryCharge.ChargeBoundaryReadsOnce | torch_spyre/_inductor/cost_model.py:3056-3101 | clears exactly the charges of inputs that an earlier bundle reads |
| BoundaryCharge.OneLoadPerInput | torch_spyre/_inductor/cost_model.py:3056-3101 | with charges initially owned, a bundle pays one load for each input it is the first to read and nothing for others |
| BoundaryCharge.FirstReadsAre | torch_spyre/_inductor/cost_model.py:3078-3101 | an input is paid for by exactly the earliest bundle that reads it |
| BoundaryCharge.AllReadsAre | torch_spyre/_inductor/cost_model.py:3078-3101 | the inputs whose first reader some bundle is are, each once, the inputs that any bundle reads |
| BoundaryCharge.TotalIsOneLoadEach | torch_spyre/_inductor/cost_model.py:3056-3101 | over any list of bundles the total is the sum, over those inputs, of the load of the first bundle that reads it |
| BoundaryCharge.TotalIsCommonLoads | torch_spyre/_inductor/cost_model.py:3056-3070 | when all readers of an input agree on its load, the total counts that load once per input however many bundles read it |
| BoundaryCharge.FusedBytesUnchanged | torch_spyre/_inductor/cost_model.py:3063-3070 | no bundle's fused read or write bytes change |
| BoundaryCharge.Idempotent | torch_spyre/_inductor/cost_model.py:3068-3070 | charging twice is charging once |
| Fusion.GroupContiguousFusable | torch_spyre/_inductor/fusion.py:103-139 | the groups are the items at the positions of the position grouping |
| Fusion.GroupsPermute | torch_spyre/_inductor/fusion.py:103-139 | every position is in exactly one place of the result |
| Fusion.SharedBundle | torch_spyre/_inductor/fusion.py:108-113 | two fusable items share a group if and only if everything between them is fusable or hoistable |
| Fusion.OnlyHoistedMove | torch_spyre/_inductor/fusion.py:111-113 | two items change places if and only if the later is hoistable and the earlier is fusable in the run it interrupts |
| Fusion.NoHoistKeepsInput | torch_spyre/_inductor/fusion.py:115-120 | without hoistable items flattening the groups gives the input back |

## Left out

- WorkDivisionFromView: the extended path that projects or factors an axis driven by several loops is not modelled, nor is the check for repeated axes, because a view's splits and slots are maps here.
- ReadBackSameOwner: takes two distinct split axes as parameters to say that there are at least two.
- ContiguousDeviceRun: takes integer axes already sorted by stride; the symbolic preprocessing of stick planes and symbolic splits are not modelled. That gaps are sufficient is proved for all nests, that they are needed only by an example.
- ComputeRoutingTables: integers are unbounded, the 32-bit width of the tables is not modelled.
- DedupAndPromoteConstants: provenance records are left out.
- SurvivorsKeepValues: runs are in list order with constants before their readers; a spliced loop body that repeats operations is covered for dead-code elimination only.
- IsStorage: views into a buffer other than mutation outputs are not modelled.
- CollectTotal: values are not negative, as byte counts are.
- HbmElems: residency is a truth value and replication a number; the solver's symbolic expressions are not modelled.
- Parsing and simplifying symbolic expressions, and owner formulas that are not integers, are not modelled: the model starts from integer formulas and parsed terms.
- Negative splits and non-integer sizes, which the source refuses early, are excluded by the types.
- `spyre_fuse_nodes`, `estimate_bundles` and the predicates that classify nodes only wrap the grouping or inspect foreign objects.
- `direct_axis_ownership_failure`, `dense_read_rectangle`, `partition_lx_size_bytes` and `finalize_tensor_work_divisions` would add easier members of the same kind.
- The other three shape variants of the grouped product reuse the same tables.
- Fitted rates and curves of the cost model are calibration, not theorems.
- Memoisation, logging, error texts and rejection reasons have no effect on results.
