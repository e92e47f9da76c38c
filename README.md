# Object-FIFO stateful transform, modelled in Dafny

This project models the core of `AIEObjectFifoStatefulTransform`, the MLIR pass of the AIE dialect that lowers
logical producer/consumer object FIFOs into hardware resources. Each declared `objectFifo.createObjectFifo` either
stays shared, when it has one consumer in memory reach of its producer, or is split into a producer side and
one consumer half per consumer tile. Each half is sized by what the cores on its tile acquire. Every element
gets a buffer and a lock from a per-tile allocator of 16 locks. Split fifos are wired with DMA channels taken
from per-tile master/slave counters, cyclic buffer-descriptor chains and a multicast. Loops whose bodies acquire
fifo elements are unrolled by the LCM of the fifo depths. Each core's `acquire`, `release` and `subview.access`
operations then become `useLock` operations on rotating element indices and direct buffer references.

The IR is abstracted:
- tiles are integers;
- fifos are `FifoId`s (a declared fifo, or consumer half `i` of a declared fifo);
- a core's program is a sequence of `Acquire` / `Release` / `SubviewAccess` / `Other` events in walk order;
- a loop body is a sequence of operations whose operands are tagged values.

The state the pass mutates is modelled in its own form:
- `LockAnalysis` and `DmaChannelAnalysis` are classes over maps;
- the per-core rewrite state (`relPerFifo`, `acqPerFifo`, `acquiresPerFifo`, `releaseOps`, the subviews) is the class `FifoRewrite.CoreLowering`;
- loops over that state are methods with invariants, proved against specification functions (`ObjectFifoSize`, `Ring`, `AcquireWindow`, `PlanUnrollCorrected`, `IsRing`, ...).

The central proved properties are:
- Lock rotation: a fifo's acquire locks and its release locks each go round its elements 0, 1, ..., d-1, 0, ... (`FifoRewrite.AllFifosValid`, kept by every release and acquire).
- Subview: an acquire's subview is exactly the elements still held followed by the newly acquired shortfall, always the last elements acquired, and distinct when it fits in the fifo.
- Unrolling: the corrected unroll plan runs the loop body at exactly the original induction values.
- Cloning: cloning by dependency tags is instantiation of the body at the clone's induction value.
- Descriptor chains: a chain is a single cycle through its blocks, in the order the cores rotate.
- Materialisation and wiring: the create loop materialises every declaration as the pass decides, with fresh and distinct locks, and the wiring never gives one tile's channel out twice.

## Model

| member | source | states |
|---|---|---|
| LockAllocation.LowestFreeLock | lib/AIEObjectFifoStatefulTransform.cpp:80-89 | the id found is the smallest unmarked id of the tile in [from,16); -1 exactly when every id from `from` on is marked |
| LockAllocation.LockAnalysis.constructor | lib/AIEObjectFifoStatefulTransform.cpp:68-77 | the marked (tile, id) pairs are exactly the locks that already exist |
| LockAllocation.LockAnalysis.GetLockId | lib/AIEObjectFifoStatefulTransform.cpp:80-89 | returns the lowest free id of the tile and marks only (tile, id); returns -1 and changes nothing when all 16 are taken |
| LockAllocation.AllocationsFrom | lib/AIEObjectFifoStatefulTransform.cpp:80-89 | on a tile whose first k ids are taken and whose others are free, successive requests yield k, k+1, ..., 15, then -1 |
| LockAllocation.FreshTileExhaustion | lib/AIEObjectFifoStatefulTransform.cpp:80-89 | a fresh tile hands out 0..15 in order and the 17th request fails |
| LockAllocation.CreateObjectFifoElements | lib/AIEObjectFifoStatefulTransform.cpp:176-202 | on success one lock per element (none for a non-positive size), all in [0,16), previously free on the tile, pairwise distinct, and exactly what was added to the allocator; failure (the "no more locks" assertion) means every lock of the tile is taken |
| DmaChannels.ChannelToPortNum | lib/AIEObjectFifoStatefulTransform.cpp:145-156 | the port is 0 or 1 and together with the direction names the channel again |
| DmaChannels.DmaChannelAnalysis.constructor | lib/AIEObjectFifoStatefulTransform.cpp:97-101 | both per-tile counters start empty |
| DmaChannels.DmaChannelAnalysis.RegisterExisting | lib/AIEObjectFifoStatefulTransform.cpp:101-116 | succeeds iff on every tile the master channels in use before plus the tile's sending starts, and the slave channels in use before plus its receiving starts, are each at most two; on success each tile's usage rises by exactly its sends and receives |
| DmaChannels.StartsOverflow | lib/AIEObjectFifoStatefulTransform.cpp:110-116 | a start that finds its tile's two channels of its direction taken shows that the starts do not fit |
| DmaChannels.StartsWithin | lib/AIEObjectFifoStatefulTransform.cpp:110-116 | when every tile ends with at most one channel per direction past the count before, the starts fit |
| DmaChannels.DmaChannelAnalysis.GetMasterDmaChannel | lib/AIEObjectFifoStatefulTransform.cpp:119-129 | succeeds iff fewer than two master channels of the tile are in use; returns MM2S0 then MM2S1 (port = usage before); slave counters and other tiles untouched; failure changes nothing |
| DmaChannels.DmaChannelAnalysis.GetSlaveDmaChannel | lib/AIEObjectFifoStatefulTransform.cpp:132-142 | the same for slave channels: S2MM0, then S2MM1, then failure; master counters untouched |
| DescriptorChain.TransferLength | lib/AIEObjectFifoStatefulTransform.cpp:223-227 | the transfer length is the product of the buffer shape |
| DescriptorChain.ProductAppend | lib/AIEObjectFifoStatefulTransform.cpp:223-227 | the product over a concatenation of dimensions is the product of the parts |
| DescriptorChain.ProductPositive | lib/AIEObjectFifoStatefulTransform.cpp:223-227 | positive dimensions give a positive transfer length |
| DescriptorChain.CreateDma | lib/AIEObjectFifoStatefulTransform.cpp:239-298 | no chain iff the fifo is empty; the too-many-blocks assertion iff n > 14; otherwise n blocks on the channel, block i binding buffer i and lock i in the side's lock modes, successor (i+1) mod n |
| DescriptorChain.RingWalk | lib/AIEObjectFifoStatefulTransform.cpp:283-297 | following k successor links from the first block reaches block k mod n: the chain is one cycle through every block |
| FifoSizing.MaxAcquireIn | lib/AIEObjectFifoStatefulTransform.cpp:628-632 | bounds every acquire count of the fifo in a program and is attained (or 0) |
| FifoSizing.MaxAcquireOnTile | lib/AIEObjectFifoStatefulTransform.cpp:625-634 | bounds every acquire count of the fifo by cores on the tile and is attained (or 0) |
| FifoSizing.ObjectFifoSize | lib/AIEObjectFifoStatefulTransform.cpp:620-646 | 0 iff the declared size is 0 or no acquire on the tile takes an element; 1 iff declared 1 and the largest acquire is 1; otherwise every acquire is smaller than the size and one acquire takes size-1 elements |
| FifoSizing.ScanProgram | lib/AIEObjectFifoStatefulTransform.cpp:628-632 | the walk of one core keeps the largest acquire count seen |
| FifoSizing.FindObjectFifoSize | lib/AIEObjectFifoStatefulTransform.cpp:620-646 | the scan over all cores and the formula compute ObjectFifoSize |
| Lcm.GcdBezout | lib/AIEObjectFifoStatefulTransform.cpp:305 | gcd divides both arguments and is an integer combination of them |
| Lcm.GcdPositive | lib/AIEObjectFifoStatefulTransform.cpp:305 | gcd is positive unless both arguments are 0 |
| Lcm.LcmStepDivides | lib/AIEObjectFifoStatefulTransform.cpp:305 | one fold step (i*l)/gcd(i,l) is a common multiple of i and l, 0 iff one of them is 0 |
| Lcm.LcmStepLeast | lib/AIEObjectFifoStatefulTransform.cpp:305 | one fold step divides every common multiple of i and l |
| Lcm.ComputeLcm | lib/AIEObjectFifoStatefulTransform.cpp:302-307 | 1 for the empty set; 0 iff 0 is a member; a common multiple of the members that divides every common multiple |
| UnrollPlan.TDivSign | lib/AIEObjectFifoStatefulTransform.cpp:461-462 | truncating division of a non-negative span is Euclidean division, and a positive quotient means a positive span |
| UnrollPlan.LoopValuesAreClones | lib/AIEObjectFifoStatefulTransform.cpp:461-462 | a loop runs at lb, lb+step, ...: TripCount values (rounded up) |
| UnrollPlan.BodyRunsCover | lib/AIEObjectFifoStatefulTransform.cpp:375-382 | a kept loop of j iterations of step factor*step with factor-1 in-loop copies at (k+1)*step runs the body at the first j*factor values |
| UnrollPlan.PartialPlanIterations | lib/AIEObjectFifoStatefulTransform.cpp:477-509 | a partial unroll to lb + j*newStep with rem trailing copies from the new bound runs the body at the first j*factor + rem values |
| UnrollPlan.CorrectedPlanPreservesIterations | lib/AIEObjectFifoStatefulTransform.cpp:461-509 | the corrected plan runs the body at exactly the original loop's induction values, in order |
| UnrollPlan.PlanUnroll | lib/AIEObjectFifoStatefulTransform.cpp:461-495 | (describes the definition) the plan as written: a full unroll of (ub-lb)/step copies, truncated, when that is at most the factor; otherwise step factor*step, factor-1 in-loop copies, remainder ((ub-lb)%newStep)/step, and a new bound ((ub-lb)/newStep)*newStep when the remainder is positive |
| UnrollPlan.PlanUnrollCorrected | lib/AIEObjectFifoStatefulTransform.cpp:461-509 | (describes the definition) the plan the rewrite runs: the trip count rounded up, a full unroll when it is at most the factor, otherwise factor-1 in-loop copies, the trip count modulo the factor as remainder and the new bound measured from lb |
| UnrollPlan.PlanUnrollFromZero | lib/AIEObjectFifoStatefulTransform.cpp:461-509 | with lb = 0 and a step dividing ub, the plan as written equals the corrected plan and preserves the iterations |
| UnrollPlan.LowerBoundIgnored | lib/AIEObjectFifoStatefulTransform.cpp:486-495 | counterexample: for lb=2, ub=12, step=2, factor 2 the body runs at 2,4,6,8,8 instead of 2,4,6,8,10 |
| UnrollPlan.TripCountRoundedDown | lib/AIEObjectFifoStatefulTransform.cpp:461-462 | counterexample: for lb=0, ub=5, step=2, factor 4 the body runs at 0,2 instead of 0,2,4 |
| UnrollPlan.UpperBoundOverrun | lib/AIEObjectFifoStatefulTransform.cpp:461-482 | counterexample: for lb=0, ub=9, step=2, factor 2 the remainder rounds to 0, the bound stays 9 and the body runs at 0,2,4,6,8,10 instead of 0,2,4,6,8 |
| BodyCloning.DependencyTag | lib/AIEObjectFifoStatefulTransform.cpp:327-336 | a non-negative tag iff the operand is an in-body result (its index); -2 iff it is the induction variable; -1 otherwise |
| BodyCloning.IdentifyDependencies | lib/AIEObjectFifoStatefulTransform.cpp:311-343 | one tag per operand of every operation, each the operand's DependencyTag, in-body tags naming earlier operations |
| BodyCloning.DuplicateBlock | lib/AIEObjectFifoStatefulTransform.cpp:349-398 | numDuplications copies (none if not positive); copy c rewires in-body tags to copy c's results, the induction variable to base + (c+1)*step in the loop or base + c*step outside, and leaves other operands |
| BodyCloning.CloneBodyInstantiates | lib/AIEObjectFifoStatefulTransform.cpp:356-397 | with the recorded tags, each copy is the body instantiated at its own induction value |
| BodyCloning.CopiesAreSelfContained | lib/AIEObjectFifoStatefulTransform.cpp:367-372 | a copy never refers to the original body: in-body operands become results of earlier operations of the same copy |
| LoopUnroll.CollectAcquireDepths | lib/AIEObjectFifoStatefulTransform.cpp:409-423 | found iff the body acquires; the sizes are exactly the depths of the acquired fifos as seen from the core's tile, a consume of a split fifo being redirected to the half on that tile first |
| LoopUnroll.DepthSeen | lib/AIEObjectFifoStatefulTransform.cpp:416-421 | the depth of the fifo an acquire names once checkSplitFifo has redirected it |
| LoopUnroll.DuplicatesAreCopies | lib/AIEObjectFifoStatefulTransform.cpp:356-397 | the copies duplicateBlock builds are the instantiated copies |
| LoopUnroll.UnrollForLoop | lib/AIEObjectFifoStatefulTransform.cpp:401-509 | nothing iff no acquire; the factor is the least common multiple of the acquired depths after split redirection; the body runs at exactly the original induction values; in-loop and trailing copies are the body instantiated at theirs |
| LockRotation.Ring | lib/AIEObjectFifoStatefulTransform.cpp:523-528 | n element indices, each within the depth |
| LockRotation.CreateUseLocks | lib/AIEObjectFifoStatefulTransform.cpp:520-529 | numLocks lock operations of the given value and action on elements cursor, cursor+1, ... mod depth; the cursor ends at (cursor+numLocks) mod depth, unchanged when numLocks <= 0 |
| LockRotation.RingMod | lib/AIEObjectFifoStatefulTransform.cpp:523-527 | the elements used depend only on the cursor mod depth |
| LockRotation.RingAppend | lib/AIEObjectFifoStatefulTransform.cpp:520-529 | two calls in a row use the elements of one call for both counts |
| LockRotation.RingSuffix | lib/AIEObjectFifoStatefulTransform.cpp:869-871 | dropping k released elements from a run leaves the run from start+k |
| LockRotation.RingDistinct | lib/AIEObjectFifoStatefulTransform.cpp:523-528 | a run no longer than the depth names every element at most once |
| LockRotation.RingCoversAll | lib/AIEObjectFifoStatefulTransform.cpp:523-528 | a run as long as the depth names every element |
| LockRotation.CoreReleaseValue | lib/AIEObjectFifoStatefulTransform.cpp:785 | (describes the definition) a producer's release sets the lock to 1, a consumer's to 0 |
| LockRotation.CoreAcquireValue | lib/AIEObjectFifoStatefulTransform.cpp:876 | (describes the definition) a producer's acquire waits for 0, a consumer's for 1 |
| LockRotation.AcquireWindow | lib/AIEObjectFifoStatefulTransform.cpp:860-897 | fails exactly when elements are held and the release count, read as an unsigned size, exceeds them (more released than held, or a negative count); otherwise acquires max(N-|kept|,0) new elements from the cursor and the subview is the kept elements followed by them, of length max(N,|kept|) |
| LockRotation.WindowStaysConsecutive | lib/AIEObjectFifoStatefulTransform.cpp:860-897 | if the held elements are the last acquired, so is the new subview |
| LockRotation.WindowDistinct | lib/AIEObjectFifoStatefulTransform.cpp:887-897 | a subview no longer than the depth names distinct buffers |
| LockRotation.ExtendRotation | lib/AIEObjectFifoStatefulTransform.cpp:523-528 | emitting n more locks from the cursor keeps one action's locks going round from element 0 |
| LockRotation.ReleaseKeepsOwn | lib/AIEObjectFifoStatefulTransform.cpp:780-787 | a release keeps the released fifo's rotation state valid |
| LockRotation.OwnAcquireInvariant | lib/AIEObjectFifoStatefulTransform.cpp:874-897 | an acquire keeps the acquire locks going round and the subview the tail of what was acquired |
| LockRotation.OwnAcquireWindow | lib/AIEObjectFifoStatefulTransform.cpp:860-897 | the subview recorded is AcquireWindow's, distinct when it fits |
| LockRotation.AcquireKeepsOwn | lib/AIEObjectFifoStatefulTransform.cpp:874-897 | an acquire keeps the acquired fifo's rotation state valid |
| FifoRewrite.FirstOnTile | lib/AIEObjectFifoStatefulTransform.cpp:562-569 | the first half produced on the tile, or none |
| FifoRewrite.CheckSplitFifo | lib/AIEObjectFifoStatefulTransform.cpp:546-570 | a consume on a split fifo is redirected to the first half on the core's tile (later halves no longer match); anything else is unchanged |
| FifoRewrite.CheckCorrectPort | lib/AIEObjectFifoStatefulTransform.cpp:575-614 | passes iff a produce runs on the producer tile or a consume on one of the consumer tiles |
| FifoRewrite.SplitConsumePassesIffConsumer | lib/AIEObjectFifoStatefulTransform.cpp:562-613 | after redirection a consume of a split fifo passes the port check iff the tile is one of the fifo's consumers |
| FifoRewrite.Unclaimed | lib/AIEObjectFifoStatefulTransform.cpp:815-858 | the releases left are exactly those the acquire does not account for |
| FifoRewrite.ClaimReleases | lib/AIEObjectFifoStatefulTransform.cpp:814-858 | numRel is the total count of the same fifo's releases before the acquire, and those are removed |
| FifoRewrite.ClaimsPartition | lib/AIEObjectFifoStatefulTransform.cpp:824-828 | each release is counted by one acquire only: a later acquire counts exactly the releases between the two |
| FifoRewrite.LocksOfAppend | lib/AIEObjectFifoStatefulTransform.cpp:525-526 | the locks of a fifo and action in emitted order distribute over concatenation |
| FifoRewrite.RotationOpsElements | lib/AIEObjectFifoStatefulTransform.cpp:523-528 | the operations continuing a rotation after `done` operations use the ring from done mod d |
| FifoRewrite.CreatedOpsAreRotation | lib/AIEObjectFifoStatefulTransform.cpp:520-529 | createUseLocks from a cursor equal to the count mod d emits the rotation's next operations |
| FifoRewrite.AcquireCursor | lib/AIEObjectFifoStatefulTransform.cpp:808-810 | a fifo's acquire cursor is its number of acquire locks mod its depth |
| FifoRewrite.ReleaseCursor | lib/AIEObjectFifoStatefulTransform.cpp:781 | a fifo's release cursor is its number of release locks mod its depth |
| FifoRewrite.ReleaseEffect | lib/AIEObjectFifoStatefulTransform.cpp:783-787 | a release adds only to the released fifo's release locks, the ring from its count |
| FifoRewrite.ReleaseKeepsInvariant | lib/AIEObjectFifoStatefulTransform.cpp:780-787 | a release keeps every fifo's rotation invariant |
| FifoRewrite.AcquireEffect | lib/AIEObjectFifoStatefulTransform.cpp:884-885 | an acquire adds only to the acquired fifo's acquire locks, the ring from its count |
| FifoRewrite.AcquireKeepsInvariant | lib/AIEObjectFifoStatefulTransform.cpp:874-897 | an acquire keeps every fifo's rotation invariant |
| FifoRewrite.CommitFacts | lib/AIEObjectFifoStatefulTransform.cpp:874-897 | createUseLocks' output continues the rotation, the invariant holds after, and the subview is AcquireWindow's, distinct when it fits |
| FifoRewrite.AcquireLocks | lib/AIEObjectFifoStatefulTransform.cpp:874-897 | the shortfall's lock operations from the acquire cursor, the moved cursor and the subview (kept then new elements) keep the invariant and match AcquireWindow |
| FifoRewrite.CoreLowering.constructor | lib/AIEObjectFifoStatefulTransform.cpp:749-764 | all per-core maps start empty and the invariant holds |
| FifoRewrite.CoreLowering.LowerRelease | lib/AIEObjectFifoStatefulTransform.cpp:769-791 | port error iff the redirected fifo's port does not match the tile; otherwise count release locks continue the release rotation with the port's value, the cursor moves by count mod depth, the release is recorded, the rest unchanged |
| FifoRewrite.CoreLowering.CommitAcquire | lib/AIEObjectFifoStatefulTransform.cpp:860-897 | the new state: the shortfall acquired from the cursor, the subview recorded for the acquire and as the fifo's held elements, claimed releases removed |
| FifoRewrite.CoreLowering.LowerAcquire | lib/AIEObjectFifoStatefulTransform.cpp:796-898 | port error iff the port does not match; over-release error iff elements are held and more was released than held or the count is negative (the unsigned check at lines 867-868); otherwise the shortfall max(N-|kept|,0) is acquired from the cursor, the subview is kept + new (AcquireWindow's, distinct when it fits), and the invariant is kept |
| FifoRewrite.ReleaseOutcome | lib/AIEObjectFifoStatefulTransform.cpp:769-791 | one release as a step on the rewrite state: port error, zero-depth error, or the release locks, cursor and record the release adds |
| FifoRewrite.AcquireOutcome | lib/AIEObjectFifoStatefulTransform.cpp:796-898 | one acquire as a step on the rewrite state: port error, over-release error (elements held and a count above them or negative), zero-depth error, or the new locks, cursor, held elements, subview and remaining releases |
| FifoRewrite.ReleaseOutcomeOf | lib/AIEObjectFifoStatefulTransform.cpp:769-791 | what LowerRelease reports is ReleaseOutcome of the state before it |
| FifoRewrite.AcquireOutcomeOf | lib/AIEObjectFifoStatefulTransform.cpp:796-898 | what LowerAcquire reports is AcquireOutcome of the state before it |
| CoreRewrite.AccessElement | lib/AIEObjectFifoStatefulTransform.cpp:907-912 | defined iff the index lies within the acquire's subview, and then an element of it |
| CoreRewrite.RewriteCore | lib/AIEObjectFifoStatefulTransform.cpp:748-914 | the result is exactly SpecRewrite: the release walk, then the acquire walk, then the access walk, each stopping at its first error; on success every acquire/release passed its port check, every acquire has a subview, every access resolves inside its subview, and every fifo's acquire and release locks go round from element 0; an error names an operation of the right kind |
| CoreRewrite.ReleaseWalk | lib/AIEObjectFifoStatefulTransform.cpp:769-791 | the releases of the first k operations in program order, stopping at the first error |
| CoreRewrite.AcquireWalk | lib/AIEObjectFifoStatefulTransform.cpp:796-898 | the acquires of the first k operations in program order, stopping at the first error |
| CoreRewrite.AccessWalk | lib/AIEObjectFifoStatefulTransform.cpp:903-914 | the element each access of the first k operations resolves to, stopping at the first access out of bounds |
| CoreRewrite.SpecRewrite | lib/AIEObjectFifoStatefulTransform.cpp:748-914 | the lowering of a core as the three walks in order |
| CoreRewrite.InitialStateValid | lib/AIEObjectFifoStatefulTransform.cpp:749-764 | the empty per-core state satisfies the rotation invariant |
| CoreRewrite.ReleaseOutcomeKeeps | lib/AIEObjectFifoStatefulTransform.cpp:769-791 | a release that succeeds keeps every fifo's rotation invariant |
| CoreRewrite.AcquireOutcomeKeeps | lib/AIEObjectFifoStatefulTransform.cpp:860-897 | an acquire that succeeds keeps the invariant and records as its subview the window AcquireWindow gives from the previous subview, the releases it claims and the acquire cursor, distinct when it fits |
| CoreRewrite.ReleaseWalkKeeps | lib/AIEObjectFifoStatefulTransform.cpp:769-791 | the release walk keeps the rotation invariant |
| CoreRewrite.AcquireWalkKeeps | lib/AIEObjectFifoStatefulTransform.cpp:796-898 | the acquire walk keeps the rotation invariant |
| CoreRewrite.ReleaseFailureStays | lib/AIEObjectFifoStatefulTransform.cpp:769-773 | once the release walk has failed, its error is the result of the whole walk |
| CoreRewrite.AcquireFailureStays | lib/AIEObjectFifoStatefulTransform.cpp:796-800 | once the acquire walk has failed, its error is the result of the whole walk |
| CoreRewrite.AccessFailureStays | lib/AIEObjectFifoStatefulTransform.cpp:903-914 | once the access walk has failed, its error is the result of the whole walk |
| CoreRewrite.ReleaseFirstFailure | lib/AIEObjectFifoStatefulTransform.cpp:769-791 | a failed release walk names a release that fails from the state the releases before it leave |
| CoreRewrite.AcquireFirstFailure | lib/AIEObjectFifoStatefulTransform.cpp:796-898 | a failed acquire walk names an acquire that fails from the state the acquires before it leave |
| CoreRewrite.AccessFirstFailure | lib/AIEObjectFifoStatefulTransform.cpp:903-914 | a failed access walk names an access out of bounds, and every access before it resolves |
| CoreRewrite.AccessesResolve | lib/AIEObjectFifoStatefulTransform.cpp:903-914 | while the access walk succeeds, every access so far resolves to its subview's element |
| CoreRewrite.ReleasesSucceed | lib/AIEObjectFifoStatefulTransform.cpp:769-791 | in a release walk that succeeds, every release succeeds from the state before it |
| CoreRewrite.AcquiresSucceed | lib/AIEObjectFifoStatefulTransform.cpp:796-898 | in an acquire walk that succeeds, every acquire succeeds from the state before it |
| CoreRewrite.ReleasedCount | lib/AIEObjectFifoStatefulTransform.cpp:780-787 | the elements the releases of the first k operations release on a fifo after redirection |
| CoreRewrite.ReleaseWalkLocks | lib/AIEObjectFifoStatefulTransform.cpp:780-787 | the release walk adds one release lock per released element to the fifo released and no acquire lock |
| CoreRewrite.Shortfall | lib/AIEObjectFifoStatefulTransform.cpp:874-885 | the elements the acquires of the first k operations newly acquire on a fifo: what each needs beyond what it still holds |
| CoreRewrite.AcquireWalkLocks | lib/AIEObjectFifoStatefulTransform.cpp:874-897 | the acquire walk adds one acquire lock per newly acquired element, only extends each fifo's acquire locks, and leaves release locks and release cursors alone |
| CoreRewrite.SubviewStays | lib/AIEObjectFifoStatefulTransform.cpp:893-897 | the subview an acquire records is not changed by the rest of the acquire walk |
| CoreRewrite.SpecRewriteLockCounts | lib/AIEObjectFifoStatefulTransform.cpp:748-914 | on success each fifo has exactly as many release locks as elements released and as many acquire locks as the acquires' shortfalls add up to |
| CoreRewrite.SpecRewriteRotates | lib/AIEObjectFifoStatefulTransform.cpp:748-914 | on success each fifo's acquire locks and release locks go round its elements from element 0 |
| CoreRewrite.NegativeReleaseFails | lib/AIEObjectFifoStatefulTransform.cpp:862-871 | a consumer that acquires one element, releases -1 and acquires again stops with an over-release error at the second acquire |
| CoreRewrite.SpecRewriteSubview | lib/AIEObjectFifoStatefulTransform.cpp:860-897 | on success the subview of the acquire at position j is AcquireWindow's window from the state the acquires before it leave, distinct when it fits |
| CoreRewrite.LowerReleases | lib/AIEObjectFifoStatefulTransform.cpp:769-791 | the lowering ends in ReleaseWalk's state, or stops with its error in the state the releases before the failing one leave; the invariant is kept and, on success, every release passed its port check |
| CoreRewrite.LowerAcquires | lib/AIEObjectFifoStatefulTransform.cpp:796-898 | the lowering ends in AcquireWalk's state, or stops with its error in the state the acquires before the failing one leave; the invariant is kept and, on success, every acquire passed its port check and has a subview |
| CoreRewrite.ResolveAccesses | lib/AIEObjectFifoStatefulTransform.cpp:903-914 | the result is AccessWalk's: each access resolves to its subview's element at its index; the error is the first access out of bounds |
| CoreRewrite.LocksRotate | lib/AIEObjectFifoStatefulTransform.cpp:520-529 | under the invariant each fifo's acquire locks and release locks are 0, 1, ..., d-1, 0, ... |
| Materialize.PlanFifo | lib/AIEObjectFifoStatefulTransform.cpp:666-700 | shared iff one consumer that is memory-adjacent, keeping the declared size; otherwise the producer side sized on the producer tile and one half per consumer sized on its tile |
| Materialize.AddFifo | lib/AIEObjectFifoStatefulTransform.cpp:193-201 | registering a fifo with freshly allocated distinct locks keeps all locks fresh and no lock shared on a tile |
| Materialize.AddElements | lib/AIEObjectFifoStatefulTransform.cpp:176-202 | registers the fifo with one fresh, distinct lock per element on its tile, leaving other fifos' locks; failure means the tile's locks are all taken |
| Materialize.AddHalf | lib/AIEObjectFifoStatefulTransform.cpp:684-690 | a consumer half is a fifo produced and consumed on the consumer tile, sized by that tile's acquires, with its own locks |
| Materialize.AddHalves | lib/AIEObjectFifoStatefulTransform.cpp:684-690 | the halves are created, in reverse order, one per consumer |
| Materialize.MaterializeShared | lib/AIEObjectFifoStatefulTransform.cpp:694-695 | a shared fifo keeps its declared size, clamped at 0 since the element loop creates nothing for a negative size, and gets its elements on the producer tile |
| Materialize.MaterializeSplit | lib/AIEObjectFifoStatefulTransform.cpp:696-704 | a split fifo's producer side is resized on the producer tile, its halves created and the split recorded |
| Materialize.MaterializeOne | lib/AIEObjectFifoStatefulTransform.cpp:660-705 | one iteration of the create loop extends the materialised declarations by one |
| Materialize.MaterializeFifos | lib/AIEObjectFifoStatefulTransform.cpp:660-705 | on success every declaration is shared or split as decided, with the computed sizes, and every element has a fresh lock, distinct per tile; failure means the failing tile's locks were all taken |
| Materialize.MaterializedTables | lib/AIEObjectFifoStatefulTransform.cpp:686-703 | after the create loop each split fifo lists one known half per consumer, on that consumer's tile |
| Materialize.SplitFifoConsumers | lib/AIEObjectFifoStatefulTransform.cpp:562-613 | a core's consume of a split fifo passes the port check after redirection iff its tile is a declared consumer |
| Materialize.Destinations | lib/AIEObjectFifoStatefulTransform.cpp:731-735 | one multicast destination per receiver: its tile and its channel's port |
| Materialize.PortIdentifiesChannel | lib/AIEObjectFifoStatefulTransform.cpp:145-156 | direction and port number determine the channel |
| Materialize.WireReceiver | lib/AIEObjectFifoStatefulTransform.cpp:727-729 | succeeds iff the half's tile has a slave channel free and the half's depth fits in a chain; then a slave channel on the half's tile and a receiving ring of the half's depth; the errors name the missing channel or the too-long chain |
| Materialize.WireReceivers | lib/AIEObjectFifoStatefulTransform.cpp:725-736 | succeeds iff every half's chain fits and, on every tile, the slave channels in use plus the halves on it are at most two; a failure names a tile whose slave channels run out or a half whose chain is too long, never a master channel; on success one receiving DMA per half, in order, on slave channels not used before, and each tile's slave usage rises by exactly its halves |
| Materialize.WireSplitFifo | lib/AIEObjectFifoStatefulTransform.cpp:710-738 | succeeds iff the parent's and the halves' chains fit, the producer tile has a master channel free and every tile's slave usage plus its halves is at most two; a failure names the violated condition; on success the sending DMA on the producer tile's next master channel with a sending ring, then the halves' receiving DMAs, the master usage of the producer tile up by one and each tile's slave usage up by its halves |
| Materialize.WireSplitFifos | lib/AIEObjectFifoStatefulTransform.cpp:710-738 | succeeds iff all chains fit and on every tile the master channels in use plus the split fifos produced there, and the slave channels in use plus the halves there, are each at most two; a failure names a tile and direction that overflows or a fifo whose chain is too long; on success every split fifo is wired with its chains, no tile gets one channel twice or a channel in use before, and the counters rise by exactly those counts |
| Materialize.ErrorDefeatsFit | lib/AIEObjectFifoStatefulTransform.cpp:710-738 | each wiring error names a reason the wiring cannot fit |
| Materialize.WiringGrows | lib/AIEObjectFifoStatefulTransform.cpp:710-738 | the wiring of the first q declarations fits whenever that of more declarations does |
| Materialize.ChainHandshake | lib/AIEObjectFifoStatefulTransform.cpp:218-235 | a DMA block acquires in the state the core's release leaves (lines 785, 876) and releases in the state the core's acquire waits for |
| Materialize.DmaFollowsCoreOrder | lib/AIEObjectFifoStatefulTransform.cpp:283-297 | the DMA's k-th block moves the element the core's k-th use of the fifo names |

## Left out

- IR plumbing has no model: finding or creating the `MemOp`, linking the previous DMA block (lines 247-280), buffer symbol names (`buff_index`) and the final op removal (lines 920-927). These are framework calls whose effect is not visible in this model.
- `isLegalMemAffinity` is a parameter `adjacent`. `isLegalMemAffinity` is not part of this model.
- Materialize.MaterializeFifos: requires `adjacent(t, t)` for every tile. A consumer half is produced and consumed on one tile and is materialised as shared, as the pass relies on.
- FifoRewrite.ClaimReleases: the nested-block release cases (lines 815-858) are modelled as flat program order. A release counts for an acquire when it comes earlier in the flat walk.
- FifoRewrite.ClaimReleases: the source erases `releaseOps.begin()` while iterating over `releaseOps`. The model removes exactly the releases it counted, which is the evidently intended effect.
- The multi-result operand case (line 373) and null defining ops are left out. Operands have one defining result.
- Lcm.ComputeLcm: integers are unbounded. The source's 32-bit `i * lcm` can overflow.
- DescriptorChain.TransferLength: integers are unbounded. The source's 32-bit product can overflow.
- FifoRewrite.CoreLowering.LowerAcquire: a zero-depth fifo reports `ZeroDepth`. The source computes `% 0` there (lines 527, 890), which is undefined behaviour.
- FifoRewrite.CoreLowering.LowerRelease: the same `ZeroDepth` error for a release of a zero-depth fifo.
- LoopUnroll.UnrollForLoop: requires a positive step. It also requires no acquired fifo of depth 0 when the loop runs at least once, because a zero factor (the LCM of a set holding 0) leaves the corrected plan no partial unroll to take. The source divides by that zero factor (line 483) only when the truncated `(ub-lb)/step` is positive. When `0 < ub-lb < step` it takes the full-unroll branch with no copies and erases the loop (lines 469-475); the requires excludes those loops too, so the model does not cover them.
- LoopUnroll.UnrollForLoop: the redirection of a split-fifo acquire (line 416) is used only to size the factor. The loop body keeps naming the parent, and the core rewrite redirects it again, to the same half.
- LoopUnroll.UnrollForLoop: uses the corrected plan (see Findings). The plan as written is `UnrollPlan.PlanUnroll`.
- Only loops with constant bounds are modelled. Nested-loop walking and the `objectFifoTiles` filter (line 404) are left out.
- Materialize.WireSplitFifos: visits split fifos in declaration order. The source iterates a `DenseMap`, whose order is unspecified. Channel counts are per tile, so on success only which channel number a fifo gets may differ; on failure the first error reported may differ too.
- Lock values are `UseLock` records in creation order, not IR positions.
- Buffers are identified by element index. Buffer i and lock i of a fifo belong together by position.
- The ping-pong hardware test is runtime I/O against a device, with nothing to model.

## Findings

| source | as written | input that shows it | evidently intended | confidence | as-written member | corrected member |
|---|---|---|---|---|---|---|
| lib/AIEObjectFifoStatefulTransform.cpp:486-495 | the new upper bound of a partially unrolled loop is `((ub-lb)/newStep)*newStep`, measured from 0 | lb=2, ub=12, step=2, unroll factor 2: the loop stops at 8 and the remainder copy runs at 8 again, so the body runs at 2,4,6,8,8 and never at 10 | the bound `lb + ((ub-lb)/newStep)*newStep` | not executed | UnrollPlan.LowerBoundIgnored | UnrollPlan.CorrectedPlanPreservesIterations |
| lib/AIEObjectFifoStatefulTransform.cpp:461-462 | the trip count `(ub-lb)/step` rounds down | lb=0, ub=5, step=2, unroll factor 4: two copies at 0 and 2 replace the loop, and iteration 4 is lost | the trip count `ceil((ub-lb)/step)` | not executed | UnrollPlan.TripCountRoundedDown | UnrollPlan.CorrectedPlanPreservesIterations |
| lib/AIEObjectFifoStatefulTransform.cpp:480-482 | the remainder `((ub-lb) % newStep)/step` rounds down, and with no remainder the upper bound stays `ub` | lb=0, ub=9, step=2, unroll factor 2: the remainder is 0, the loop runs at 0, 4 and 8 with a copy 2 after each, so the body also runs at 10, which the original loop never reaches | the remainder and the bound from the rounded-up trip count | not executed | UnrollPlan.UpperBoundOverrun | UnrollPlan.CorrectedPlanPreservesIterations |
