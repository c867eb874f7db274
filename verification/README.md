# Verified models of GPGPU-Sim's state machines

GPGPU-Sim is a cycle simulator of a GPU. This project models the parts of it whose correctness rests on an argument
rather than on inspection, and proves that argument in Dafny 4.11. `dafny verify dfyconfig.toml` checks everything.

The models follow the form of the C++ code. Objects whose methods update fields are classes with `modifies` clauses,
loops are loops with invariants, and every method is proved against a specification function or an invariant whose
consequences are proved as lemmas. `std::set`, `std::map`, `std::list` and bit masks are `set`, `map` and `seq`;
iteration over an ordered container is ascending.

Main results:

1. **Divergence control.** The postdominator analysis terminates on every flow graph and computes exactly the blocks
   on every path to the exit; its pruning leaves exactly the immediate postdominator
   (`Postdominators.FunctionInfo.FindPostdominators`, `.FindImmediatePostdominators`). With those reconvergence points, in
   every state of every run of a warp, each live thread is at the pc of the topmost stack entry that holds it, and
   the top entry holds live threads only (`ReturnAddress.ThreadsStayInSync`). That is false of some programs: a kernel's
   return address is pc 0, which is where the first kernel begins. `ReturnHarm.AlwaysSyncedIff` gives the exact condition
   on the flow graph, and `ReturnHarm.LoopingGoesWrong` a program that goes wrong. For arbitrary next pcs and
   reconvergence pcs the stack's masks stay laminar, no live thread is dropped and the depth stays below twice the warp
   size (`SimtInvariants.RunIsSafe`).
2. **Caches.** In the texture cache, replaying the pending misses onto the data array gives what the tags claim, so a hit
   that reaches the head of the fragment FIFO finds its block whatever order the fills arrive in
   (`TexCache.Cache.ServeFragment`). In the data and read-only caches a refused access changes nothing, no block is read
   twice at once, every accepted miss comes back exactly once and in order, and the line of an outstanding read stays
   reserved. The block replaced is the one unused for longest (LRU) or brought in longest ago (FIFO) in the history of
   all uses (`TagArray.Tags.Probe`), and when an access is refused is stated by what is left of lines, queue and table
   (`DataCache.Cache.Access`). What an access or a fill loses of modified data is exactly what is afterwards in no
   modified line, in no queued write or write-back and in no read under way that will mark its line
   (`DataCache.AccessLoses`, `.FillLoses`).
   Which configurations lose writes is decided both ways: in read-only, write-through and write-evict caches, and in
   write-back caches that allocate on miss, all that is ever lost belongs to accepted atomics, as an invariant; every
   other configuration loses a write in a run without atomics (`DataCache.LosesWrites`). With atomics every configuration
   can lose data (`DataCache.LosesData`): allocate-on-fill takes a line that an atomic hit has modified, and
   allocate-on-miss loses the atomics that miss a block whose data has arrived and is still being handed out, which is
   all that write-back with allocate-on-miss loses.
3. **DRAM controller.** Every command trace keeps all timing constraints and uses only open rows; a command may be
   issued if and only if the row that the trace leaves open calls for it and it is spaced from all earlier commands
   (`DramTiming.ReadyIff`), and the slot goes unused only if no bank's request has such a command; bytes are conserved
   from bank to return queue while the queue's minimum length changes; every atom is queued with the time of its command
   plus the latency of its kind, keeps that time whatever is queued or popped around it, and leaves when it is due or
   later; requests of one bank to one row finish in arrival order (`Dram.Controller.Cycle`, `Dram.FinishByAge`).
4. **Coalescing.** Ordinary accesses cover every byte of every active thread with disjoint, smallest aligned blocks, as
   many as lines are touched, of 32, 64 or 128 bytes by data size (`WarpAccess.SentOnePerLine`);
   atomics put each thread in one transaction, in order, without overlap, in the fewest transactions possible
   (`WarpInstruction.Inst.Coalesce`, `.CoalesceAtomic`, `Coalescing.FewestTransactions`).
5. **Address decoding.** For a power of two of chips, decoding by masks with inserted chip bits equals decoding by
   division, and in both modes chip and partition address determine the linear address
   (`AddressDecoder.MasksAgreeWithDivision`, `.ChipAndPartitionDetermine`). For any number of chips each field has exactly
   the bits of its own mask, moved together (`AddressDecoder.FieldsDecoded`). `AddressDecoder.NoAliasesIff` says for every
   limit exactly which mappings are free of aliases.
6. **Paged memory.** For every sequence of writes, a read returns what a flat zero-initialised memory would, and throws
   exactly when its range touches the last page of the 32-bit space (`PagedMemory.Memory.ReadBytes`).
7. **Streams.** In every interleaving of pushes, device steps and streams coming and going, streams complete in push
   order, stream zero excludes the others, and the grid map holds exactly the kernels in progress (`Streams.Run`).

## Model

| member | source | states |
|---|---|---|
| `FlowGraph.PostdominanceAntisymmetric` | cuda-sim/ptx_ir.cc:621-662 | two blocks that reach the exit and postdominate each other are one block |
| `FlowGraph.PostdominatorsFormChain` | cuda-sim/ptx_ir.cc:621-662 | of two postdominators of a block that reaches the exit, one postdominates the other |
| `FlowGraph.PostdominanceTransitive` | cuda-sim/ptx_ir.cc:590-619 | postdominance, defined by paths to the exit, is transitive |
| `FlowGraph.ImmediatePostdominatorExists` | cuda-sim/ptx_ir.cc:621-662 | every block but the exit that reaches the exit has an immediate postdominator, whatever other blocks do |
| `FlowGraph.ImmediatePostdominatorUnique` | cuda-sim/ptx_ir.cc:621-662 | and only one |
| `Postdominators.Intersect` | cuda-sim/ptx_ir.cc:519-531 | the erase-while-iterating loop leaves the intersection |
| `Postdominators.IsEqual` | cuda-sim/ptx_ir.cc:533-541 | comparing sizes and testing membership one way decides set equality |
| `Postdominators.FixpointIsSound` | cuda-sim/ptx_ir.cc:602-618 | any solution of the data-flow equation holds only blocks that lie on every path to the exit |
| `Postdominators.MeetKeepsPostdominators` | cuda-sim/ptx_ir.cc:607-616 | visiting a block loses no postdominator |
| `Postdominators.MeetKeepsShrinking` | cuda-sim/ptx_ir.cc:607-616 | visiting a block only shrinks its set, at every later visit too |
| `Postdominators.TotalSizeShrinks` | cuda-sim/ptx_ir.cc:613-616 | a change makes the total size of the sets strictly smaller |
| `Postdominators.FunctionInfo.constructor` | cuda-sim/ptx_ir.cc:590-601 | the analysis starts from empty sets and no immediate postdominators |
| `Postdominators.FunctionInfo.Meet` | cuda-sim/ptx_ir.cc:607-612 | one visit computes the block itself and what all its successors share |
| `Postdominators.FunctionInfo.Sweep` | cuda-sim/ptx_ir.cc:604-617 | a sweep loses no postdominator, shrinks the total size if it changes anything and is at a fixpoint if not |
| `Postdominators.FunctionInfo.FindPostdominators` | cuda-sim/ptx_ir.cc:590-619 | terminates on every graph and leaves in each block exactly the blocks on every path from it to the exit |
| `Postdominators.PruneBy` | cuda-sim/ptx_ir.cc:637-647 | erasing what postdominates one candidate keeps the nearest candidate |
| `Postdominators.Prune` | cuda-sim/ptx_ir.cc:635-648 | erasing while iterating leaves exactly the nearest candidate if there is one |
| `Postdominators.ImmediateIsNearest` | cuda-sim/ptx_ir.cc:621-662 | the immediate postdominator is the nearest of the strict postdominators |
| `Postdominators.NonEmptyCount` | cuda-sim/ptx_ir.cc:650-660 | one block without and all others with one candidate give the count that the final check asks for |
| `Postdominators.CandidateIsImmediate` | cuda-sim/ptx_ir.cc:621-662 | a block that reaches the exit is left with its immediate postdominator as only candidate |
| `Postdominators.CandidatesAreImmediate` | cuda-sim/ptx_ir.cc:621-662 | when every block reaches the exit, the pruned sets pass both checks and are the immediate postdominators |
| `Postdominators.FunctionInfo.FindCandidates` | cuda-sim/ptx_ir.cc:628-649 | every block is left with its nearest strict postdominator |
| `Postdominators.FunctionInfo.CollectImmediate` | cuda-sim/ptx_ir.cc:650-660 | each block takes its candidate or -1, and the checks hold exactly when no set has two and all but one have one |
| `Postdominators.FunctionInfo.FindImmediatePostdominators` | cuda-sim/ptx_ir.cc:621-662 | each block that reaches the exit gets its immediate postdominator; when all blocks do, the checks hold |
| `SimtStack.Stack.constructor` | abstract_hardware_model.cc:548-558 | the stack starts empty |
| `SimtStack.Stack.Launch` | abstract_hardware_model.cc:560-569 | one entry at the start pc with the launch mask and no reconvergence pc |
| `SimtStack.Stack.ExtractGroup` | abstract_hardware_model.cc:636-656 | the downward scan takes out the threads that go where the highest live lane goes, and drops finished threads |
| `SimtStack.Stack.FillTop` | abstract_hardware_model.cc:710-720 | the top entry is overwritten and an empty one pushed above it |
| `SimtStack.Stack.KeepTop` | abstract_hardware_model.cc:695-705 | the diverging entry waits at the new reconvergence pc unless it already waits there |
| `SimtStack.Stack.PlaceGroup` | abstract_hardware_model.cc:695-720 | placing one group leaves what is still to be done to the stack the same: a reconverged group is dropped, the others get an entry |
| `SimtStack.Stack.Update` | abstract_hardware_model.cc:617-729 | the stack becomes what grouping by next pc, dropping reconverged groups and keeping a reconvergence entry gives, and stays within the warp |
| `SimtInvariants.LaminarPair` | abstract_hardware_model.cc:617-724 | any two masks are disjoint or strictly nested |
| `SimtInvariants.SpreadStructured` | abstract_hardware_model.cc:707-721 | pushing the groups of a diverging entry keeps the masks a strict laminar family of non-empty sets |
| `SimtInvariants.SettleStructured` | abstract_hardware_model.cc:617-724 | so does every way an update can end, and it drops no live thread |
| `SimtInvariants.DivergeStructured` | abstract_hardware_model.cc:695-705 | so does keeping the diverging entry to wait at the reconvergence pc |
| `SimtInvariants.DepthFrom` | abstract_hardware_model.cc:617-724 | a strict laminar family within a mask of n threads above an entry has at most 2n-1 members |
| `SimtInvariants.DepthBound` | abstract_hardware_model.cc:617-724 | a structured stack has at most twice the warp size minus one entries |
| `SimtInvariants.RunStructured` | abstract_hardware_model.cc:617-724 | every reachable stack is structured and covers every live launched thread, for arbitrary next and reconvergence pcs |
| `SimtInvariants.RunIsSafe` | abstract_hardware_model.cc:617-724 | in every reachable state the masks are laminar, no live thread was dropped and the depth is bounded |
| `Divergence.SpreadShape` | abstract_hardware_model.cc:707-721 | the new entries of a divergence: non-empty groups at their threads' pc, one for every thread not at a reconvergence pc |
| `Divergence.SpreadOrder` | abstract_hardware_model.cc:638-656 | the groups are stacked by their highest threads, the highest below |
| `Divergence.SettleShape` | abstract_hardware_model.cc:617-724 | the two outcomes of an update: the top is replaced, or waits at the new reconvergence pc below its groups |
| `Divergence.DivergenceIsBranch` | cuda-sim/ptx_ir.cc:777-801 | threads that leave one pc for different ones have executed a branch |
| `Renaming.SettleRenamed` | abstract_hardware_model.cc:617-724 | an update does the same whatever stands for the return address, if no live thread takes the one for the other |
| `ReturnAddress.SameReconvergence` | abstract_hardware_model.cc:695-705 | the reconvergence pcs of a step are equal or different whatever stands for the return address |
| `ReturnAddress.EntriesReturn` | abstract_hardware_model.cc:751-767 | after a step, the threads of an entry that reconverges after the return cannot come back to the beginning |
| `ReturnAddress.StepSimulated` | abstract_hardware_model.cc:751-767 | one step keeps the joint invariant of stack, pcs and flow graph, also where the return address is a pc of the program |
| `ReturnAddress.RunSimulated` | abstract_hardware_model.cc:617-767 | so every state of every run satisfies it |
| `ReturnAddress.ThreadsStayInSync` | abstract_hardware_model.cc:617-767 | in every run with immediate postdominators as reconvergence points, unless the program begins at its return address and a branch that reconverges only there can be followed by the beginning, each live thread is at the pc of the topmost entry holding it and the top mask holds only live threads |
| `ReturnHarm.TwoWays` | cuda-sim/ptx_ir.cc:768-804 | from such a branch one way leads back to the beginning and a different one to the exit |
| `ReturnHarm.ReturnConfuses` | abstract_hardware_model.cc:688-708 | whatever the program, two threads that take these ways get out of step: one is taken for reconverged, the other finishes and leaves a finished thread in the top mask |
| `ReturnHarm.AlwaysSyncedIff` | abstract_hardware_model.cc:617-767 | all runs of a program stay in step if and only if it has no such branch |
| `ReturnHarm.LoopingGoesWrong` | abstract_hardware_model.cc:760-763 | a program of five blocks that begins at pc 0 and does not stay in step |
| `TagArray.HoldsIsBlock` | gpgpu-sim/gpu-cache.cc:52-113 | a tag match in an address's set means the line holds that block |
| `TagArray.AllocateCoherent` | gpgpu-sim/gpu-cache.h:75-84 | allocating an absent block keeps every block in at most one line of its own set |
| `TagArray.ScanWays` | gpgpu-sim/gpu-cache.cc:64-113 | the scan finds the match, or an invalid line, or the unreserved line with the earliest last access (LRU) or allocation (FIFO), or that all are reserved |
| `TagArray.VictimIsOldest` | gpgpu-sim/gpu-cache.cc:85-97 | the block replaced is, in the history of uses, the one unused for longest (LRU) or brought in longest ago (FIFO) of those not reserved |
| `TagArray.UseDated` | gpgpu-sim/gpu-cache.cc:131-148 | lines carry the times of the history of uses, after every use and every block brought in |
| `TagArray.Tags.Probe` | gpgpu-sim/gpu-cache.cc:52-113 | a probe answers hit, hit-reserved, miss or failure, exactly when each applies; a miss takes an invalid line or the block unused for longest, or brought in longest ago |
| `TagArray.Tags.Access` | gpgpu-sim/gpu-cache.cc:124-154 | the new lines and the use added to the history by an access, which block it replaces, and that exactly an evicted modified line is reported |
| `TagArray.Tags.SetStatus` | gpgpu-sim/gpu-cache.cc:405-443 | only the status of one line changes and the array stays coherent |
| `TagArray.Tags.FillLine` | gpgpu-sim/gpu-cache.cc:168-173 | a reserved line becomes valid |
| `TagArray.Tags.FillBlock` | gpgpu-sim/gpu-cache.cc:156-166 | allocate-on-fill takes for an absent block an invalid line or the block unused for longest, or brought in longest ago |
| `RingFifo.Ring.Push` | gpgpu-sim/gpu-cache.h:493-500 | the ring's elements grow by the new one, which lies in the returned slot |
| `RingFifo.Ring.Pop` | gpgpu-sim/gpu-cache.h:501-507 | the ring loses its oldest element and the others keep their slots |
| `RingFifo.Ring.Replace` | gpgpu-sim/gpu-cache.h:508-517 | overwriting a live slot replaces exactly that element |
| `TexCache.ReplayAppend` | gpgpu-sim/gpu-cache.cc:636-663 | replaying one more fragment lands it on the replay of the others |
| `TexCache.ServedAppend` | gpgpu-sim/gpu-cache.cc:636-663 | a new fragment will be served exactly if the replayed data has what it needs |
| `TexCache.StatusIsTagView` | gpgpu-sim/gpu-cache.cc:636-663 | a texture access hits exactly when the tags show its block, and never fails |
| `TexCache.AcceptHit` | gpgpu-sim/gpu-cache.cc:645-662 | accepting a hit keeps tags and replayed data in agreement |
| `TexCache.AcceptMiss` | gpgpu-sim/gpu-cache.cc:645-658 | accepting a miss does, and aligns the reorder buffer with the FIFO |
| `TexCache.ServeOldest` | gpgpu-sim/gpu-cache.cc:674-698 | serving the oldest fragment does; a hit's line holds its block by then |
| `TexCache.FillEntry` | gpgpu-sim/gpu-cache.cc:702-716 | data that arrives finds its own entry, with the block it asked for |
| `TexCache.Cache.constructor` | gpgpu-sim/gpu-cache.h:396-415 | an empty cache satisfies the invariant |
| `TexCache.Cache.Access` | gpgpu-sim/gpu-cache.cc:636-663 | refuses exactly when a FIFO is full and then changes nothing; else accepts in order, missing exactly when the tags lack the block, and every access is a use in the tags' history |
| `TexCache.Cache.LookUp` | gpgpu-sim/gpu-cache.cc:636-663 | the tags are updated as if the data were there, and agreement is kept |
| `TexCache.Cache.SendRequest` | gpgpu-sim/gpu-cache.cc:666-673 | the oldest request goes to memory if the port has room |
| `TexCache.Cache.ServeFragment` | gpgpu-sim/gpu-cache.cc:674-698 | fragments leave in order, a miss only once its data is back, and the served line is valid and holds the requested block |
| `TexCache.Cache.Fill` | gpgpu-sim/gpu-cache.cc:702-716 | marks ready exactly the entry of the arriving request, in any order of arrival |
| `TexCache.Cache.NextAccess` | gpgpu-sim/gpu-cache.h:432-432 | requests are handed back in the order in which they were accepted |
| `Mshr.AddOwed` | gpgpu-sim/gpu-cache.cc:254-262 | adding a request keeps accepted = returned + waiting for every block |
| `Mshr.AdvanceOwed` | gpgpu-sim/gpu-cache.cc:275-287 | handing back the oldest does too |
| `Mshr.Table.Add` | gpgpu-sim/gpu-cache.cc:254-262 | a request is appended to its block's entry within both limits |
| `Mshr.Table.MarkReady` | gpgpu-sim/gpu-cache.cc:265-272 | a block joins the responses once and reports its atomics; responses never outnumber entries |
| `Mshr.Table.NextAccess` | gpgpu-sim/gpu-cache.cc:275-287 | the oldest request of the first response comes back, and the entry goes with its last one |
| `DataCache.NewReadPartitioned` | gpgpu-sim/gpu-cache.cc:376-390 | a new read keeps the table the disjoint union of blocks being read once and blocks that arrived |
| `DataCache.FillPartitioned` | gpgpu-sim/gpu-cache.cc:316-334 | so does a fill |
| `DataCache.NextPartitioned` | gpgpu-sim/gpu-cache.cc:275-287 | so does handing back a request |
| `DataCache.AccessPlaced` | gpgpu-sim/gpu-cache.cc:124-154 | a tag access leaves the reserved lines of outstanding reads alone |
| `DataCache.BlockIsAbsent` | gpgpu-sim/gpu-cache.cc:156-166 | allocate-on-fill: the block that arrives is in no line, so the assert at fill time holds |
| `DataCache.FilledPlaced` | gpgpu-sim/gpu-cache.cc:316-334 | a fill leaves the lines of the other outstanding reads alone |
| `DataCache.GoneIfModified` | gpgpu-sim/gpu-cache.cc:405-443 | unless writes are written through, the data of a line has been sent nowhere exactly if the line is modified |
| `DataCache.ReplaceTracked` | gpgpu-sim/gpu-cache.cc:124-154 | replacing or dropping a line takes its block and no other off those with unsent data |
| `DataCache.HitMeans` | gpgpu-sim/gpu-cache.cc:405-453 | by policy, what a hit does: whether the block stays, is used and is modified, and what is queued; no other line and no read changes |
| `DataCache.MissLines` | gpgpu-sim/gpu-cache.cc:363-391 | a miss reserves a line for its block with allocate-on-miss, as a use at that time, and touches no other line |
| `DataCache.MissReads` | gpgpu-sim/gpu-cache.cc:458-551 | a miss queues, in this order, the write, the read if it is the first of its block, and the write-back of a replaced modified line; the read joins its block's entry last |
| `DataCache.FillMeans` | gpgpu-sim/gpu-cache.cc:316-334 | a fill puts the block in its line, modified exactly for a waiting atomic with allocate-on-miss, and at the end of the responses |
| `DataCache.StatusMeans` | gpgpu-sim/gpu-cache.cc:52-113 | what a probe answers by blocks: held, being brought in, or all lines of the set reserved for others |
| `DataCache.AccessLoses` | gpgpu-sim/gpu-cache.cc:405-629 | an accepted access loses exactly the modifications that are in no modified line and no queued write-back afterwards, and its own if that leaves no mark; the former happens exactly if a write hit drops the line or a miss replaces it in a cache that does not write back, the latter exactly if an atomic misses a block that has arrived |
| `DataCache.HitLoses` | gpgpu-sim/gpu-cache.cc:405-453 | the same for hits, by policy; the modification of a hit always leaves its mark |
| `DataCache.MissVanishes` | gpgpu-sim/gpu-cache.cc:534-551 | a miss makes modifications vanish exactly if it replaces the line in a cache that does not write back; otherwise their write-back is queued |
| `DataCache.MissRecorded` | gpgpu-sim/gpu-cache.cc:363-391 | an atomic that misses will mark its line exactly if its block has not arrived |
| `DataCache.ReadOnlyLoses` | gpgpu-sim/gpu-cache.cc:554-573 | the same for read-only caches: a replaced modified line vanishes, which the simulator does not survive, and an atomic leaves no mark exactly if it hits an unmodified line or misses a block that has arrived |
| `DataCache.EventsTell` | gpgpu-sim/gpu-cache.cc:405-551 | the reported events say exactly whether the write, or the read, of the access was queued, and for a read whether a write-back was |
| `DataCache.FillLoses` | gpgpu-sim/gpu-cache.cc:316-334 | a fill loses exactly the modifications that are in no modified line and no queued write-back afterwards: none with allocate-on-miss, where a waiting atomic ends up in a modified line; those of the line it takes with allocate-on-fill |
| `DataCache.Cache.constructor` | gpgpu-sim/gpu-cache.h:297-326 | an empty cache satisfies the invariant, which says that read-only, write-through and write-evict caches have lost data of blocks of accepted atomics only, and write-back with allocate-on-miss exactly the late atomics |
| `DataCache.Cache.Cycle` | gpgpu-sim/gpu-cache.cc:305-314 | the oldest entry of the miss queue goes down if the port has room |
| `DataCache.Cache.SendRead` | gpgpu-sim/gpu-cache.cc:363-391 | accepted exactly when there is room; the whole new state: tags, table, order of acceptance, one read a block, queue, unsent and lost data, late atomics included |
| `DataCache.Cache.AccessTags` | gpgpu-sim/gpu-cache.cc:368-380 | the tag access of a miss reserves its line, and loses a modified one exactly if it is not to be written back |
| `DataCache.Cache.JoinRead` | gpgpu-sim/gpu-cache.cc:374-389 | the request joins the entry of its block in order, and a new entry sends the one read of the block |
| `DataCache.Cache.TouchHit` | gpgpu-sim/gpu-cache.cc:520-529 | the whole new state: only the recency, and for a modification the status, of the line change |
| `DataCache.Cache.EvictHit` | gpgpu-sim/gpu-cache.cc:431-444 | a write hit that drops the line sends the write, and loses exactly the unsent data of the line |
| `DataCache.Cache.WriteHit` | gpgpu-sim/gpu-cache.cc:405-453 | refused exactly when the queue has no room for what the policy sends, changing nothing; else the new state by policy |
| `DataCache.Cache.WriteMiss` | gpgpu-sim/gpu-cache.cc:458-515 | refused exactly when there is no room for all it may send, changing nothing; with write-allocate the read cannot fail once the write is sent |
| `DataCache.Cache.SendWriteBack` | gpgpu-sim/gpu-cache.cc:496-500 | a modified line that was replaced is queued exactly when the policy is not write-through |
| `DataCache.Cache.ReadMiss` | gpgpu-sim/gpu-cache.cc:534-551 | refused exactly when there is no room, changing nothing; else the read joins its block, the replaced modified line is queued, and a late atomic is lost |
| `DataCache.Cache.Access` | gpgpu-sim/gpu-cache.cc:578-629 | a read that hits is never refused, a write that hits exactly if it must go down and the queue is full, a miss exactly if no line, no room for its worst case or no table entry is left; a refusal changes nothing; else the whole new state and the events |
| `DataCache.Cache.ReadOnlyAccess` | gpgpu-sim/gpu-cache.cc:554-573 | the same for read-only caches, which mark no line on a hit, not even for an atomic, and whose assertion fails exactly if a modified line is replaced |
| `DataCache.Cache.Fill` | gpgpu-sim/gpu-cache.cc:316-334 | the assertion holds exactly if allocation is on miss or no atomic waits; then the whole new state: which line is filled or replaced, that the block is ready, and exactly what is lost |
| `DataCache.AtomicStops` | gpgpu-sim/gpu-cache.cc:327-332 | with allocate-on-fill an atomic that misses is accepted, and the arrival of its data fails the assertion |
| `DataCache.Cache.NextAccess` | gpgpu-sim/gpu-cache.cc:275-287 | the whole new state: the oldest request of the first response comes back, once and in its order of acceptance |
| `DataCache.LosesByFill` | gpgpu-sim/gpu-cache.cc:156-166 | allocate-on-fill, any policy but read-only: miss, fill, a write hit or, where writes are sent at once, an atomic hit, then miss and fill of another block lose the modification |
| `DataCache.LosesByWrites` | gpgpu-sim/gpu-cache.cc:447-453 | allocate-on-miss and local write-back: a global write drops the line that a local write has modified |
| `DataCache.LosesByAccess` | gpgpu-sim/gpu-cache.cc:431-453 | with allocate-on-miss, an atomic and then an evicting write, or a miss under write-through, lose the atomic |
| `DataCache.LosesByMerge` | gpgpu-sim/gpu-cache.cc:254-287 | with allocate-on-miss and any policy but read-only: two misses and fills, then an atomic merged into the block that arrived first; it is handed back, and there is no modified line, no read and no write-back of its block |
| `DataCache.LosesReadOnly` | gpgpu-sim/gpu-cache.cc:554-564 | an atomic that hits in a read-only cache leaves no mark |
| `DataCache.LosesWrites` | gpgpu-sim/gpu-cache.cc:405-629 | local write-back, and write-back with allocate-on-fill, lose a write in a run without atomics; by the invariant no other configuration does |
| `DataCache.LosesData` | gpgpu-sim/gpu-cache.cc:405-629 | every configuration can lose data once there are atomics |
| `DramTiming.ReadyIsSpaced` | gpgpu-sim/dram.cc:267-377 | a command whose counters allow it comes late enough after every earlier command |
| `DramTiming.ReadyIff` | gpgpu-sim/dram.cc:267-367 | a command may be issued if and only if the request needs it, by the row that the trace leaves open in its bank, and it is spaced from every command of the trace |
| `DramTiming.FireExplained` | gpgpu-sim/dram.cc:273-371 | no counter that a command sets holds back more than the trace calls for |
| `DramTiming.TickExplained` | gpgpu-sim/dram.cc:398-415 | nor after the counters have gone down |
| `DramTiming.FireRemembers` | gpgpu-sim/dram.cc:273-371 | issuing a command forgets no constraint of an earlier one |
| `DramTiming.FireTracks` | gpgpu-sim/dram.cc:267-377 | issuing a ready command extends a safe trace to a safe one, on the row last activated |
| `DramTiming.TickTracks` | gpgpu-sim/dram.cc:398-415 | decrementing the counters keeps the trace safe and lets one command of the next cycle in |
| `DramTiming.Reset` | gpgpu-sim/dram.cc:44-116 | all counters zero is a right start |
| `DelayQueue.Pipeline.constructor` | gpgpu-sim/delayqueue.h:47-60 | the queue starts padded to its minimum length |
| `DelayQueue.Pipeline.Append` | gpgpu-sim/delayqueue.h:70-87 | the whole new queue: the item takes the last slot if that is empty and not needed as a delay, else a new one; items and due times grow by exactly the new one, and the others come out no sooner than before |
| `DelayQueue.Pipeline.Pop` | gpgpu-sim/delayqueue.h:89-116 | the whole new queue: the oldest slot leaves, not before its time, and an empty one is added exactly if the queue had its minimum length; exactly its due time goes |
| `DelayQueue.Pipeline.SetMinLength` | gpgpu-sim/delayqueue.h:127-161 | only empty slots are added or dropped at the back, as many as the new length calls for; no item and no due time changes |
| `DelayQueue.DuesAligned` | gpgpu-sim/delayqueue.h:70-116 | there is one due time for every item in flight |
| `DelayQueue.DuesFirst` | gpgpu-sim/delayqueue.h:89-116 | the first of them is the time of the oldest item |
| `DramTransfer.ArriveConserved` | gpgpu-sim/dram.cc:150-186 | a new request has no bytes sent and none in the queue |
| `DramTransfer.HandConserved` | gpgpu-sim/dram_sched.cc:146-161 | handing a request to a bank moves no bytes |
| `DramTransfer.BeatConserved` | gpgpu-sim/dram.cc:277-298 | an atom sent keeps dqbytes + atom * occurrences in the queue = txbytes |
| `DramTransfer.RetireConserved` | gpgpu-sim/dram.cc:207-230 | an atom that leaves the queue does too |
| `DramTransfer.FinishedIsGone` | gpgpu-sim/dram.cc:213-225 | a request that finishes is in no bank and nowhere else in the queue |
| `DramTransfer.FinishesInOrder` | gpgpu-sim/dram.cc:207-230 | the requests of a bank finish in the order in which they were handed to it |
| `DramTransfer.HandOrdered` | gpgpu-sim/dram_sched.cc:146-161 | handing over keeps the order of the banks' requests and no request is handed over twice |
| `DramTransfer.BeatOrdered` | gpgpu-sim/dram.cc:277-298 | so does sending an atom |
| `DramTransfer.RetireOrdered` | gpgpu-sim/dram.cc:207-230 | so does retiring one |
| `FrFcfs.EraseOldest` | gpgpu-sim/dram_sched.cc:99-106 | erasing the iterator at the back of a row's bin removes that row's oldest request |
| `FrFcfs.IndexErase` | gpgpu-sim/dram_sched.cc:99-110 | after it the bins again list exactly the queue's requests by row in age order |
| `FrFcfs.AddIndexed` | gpgpu-sim/dram_sched.cc:55-61 | so they do after a new request |
| `FrFcfs.Scheduler.AddReq` | gpgpu-sim/dram_sched.cc:55-61 | the request becomes the newest of its bank and the index and pending count follow |
| `FrFcfs.Scheduler.PointAtRow` | gpgpu-sim/dram_sched.cc:82-97 | the row served next is the one pointed at, else the open row if it has requests, else the oldest request's |
| `FrFcfs.Scheduler.TakeOldest` | gpgpu-sim/dram_sched.cc:98-119 | the oldest request of that row leaves queue and index, and the row pointer is dropped with the row's last one |
| `FrFcfs.Scheduler.Schedule` | gpgpu-sim/dram_sched.cc:79-120 | a bank with requests gives the oldest one of the row it serves |
| `Dram.HandByAge` | gpgpu-sim/dram_sched.cc:79-120 | handing over the oldest request of a row keeps requests of one row handed over by age |
| `Dram.ArriveFlow` | gpgpu-sim/dram.cc:169-186 | a push keeps the flow invariant: bytes conserved, no request lost, banks in order |
| `Dram.DrainFlow` | gpgpu-sim/dram_sched.cc:134-138 | moving a request to the scheduler keeps it |
| `Dram.HandFlow` | gpgpu-sim/dram_sched.cc:146-161 | handing one to a bank keeps it |
| `Dram.BeatFlow` | gpgpu-sim/dram.cc:277-298 | sending an atom keeps it |
| `Dram.RetireFlow` | gpgpu-sim/dram.cc:207-230 | retiring an atom keeps it |
| `Dram.FinishByAge` | gpgpu-sim/dram.cc:204-377 | requests of one bank to one row finish in arrival order |
| `Dram.HandServes` | gpgpu-sim/dram_sched.cc:79-120 | a free bank gets a request to its open row if one is pending, even though the scheduler follows its own row pointer |
| `Dram.FireServes` | gpgpu-sim/dram.cc:267-377 | a bank that lets go of a request has that request's row open |
| `Dram.Controller.constructor` | gpgpu-sim/dram.cc:44-116 | an idle controller satisfies the invariant |
| `Dram.Controller.Push` | gpgpu-sim/dram.cc:169-186 | a request joins the input queue |
| `Dram.Controller.RetireOne` | gpgpu-sim/dram.cc:207-230 | one slot leaves unless the return queue is full, and an atom only once it is due, with its own due time; a request is answered exactly when its last byte is out |
| `Dram.Controller.PopSlot` | gpgpu-sim/dram.cc:207-212 | the oldest slot leaves, and what leaves is due |
| `Dram.Controller.CountAtom` | gpgpu-sim/dram.cc:213-225 | the byte count goes up by an atom, and a request with all its bytes out is gone |
| `Dram.Controller.PopReturn` | gpgpu-sim/dram.cc:423-426 | the oldest answer leaves the return queue, if there is one |
| `Dram.Controller.DrainOne` | gpgpu-sim/dram_sched.cc:135-137 | the oldest request of the input queue becomes the newest of its bank, and no other queue changes |
| `Dram.Controller.DrainInput` | gpgpu-sim/dram_sched.cc:134-138 | the input queue empties as far as the scheduler has room, in order, into the queues of its requests' banks |
| `Dram.Controller.HandOne` | gpgpu-sim/dram_sched.cc:140-164 | at most one free bank gets a request, the first one in turn that has one: the oldest to its open row if any, else its oldest; none only if no free bank has one; and whose turn is next |
| `Dram.TurnIsModulo` | gpgpu-sim/dram_sched.cc:143-143 | turns are counted modulo the number of banks |
| `Dram.Controller.HandTo` | gpgpu-sim/dram_sched.cc:143-163 | the same for one bank |
| `Dram.Controller.TryBank` | gpgpu-sim/dram.cc:264-377 | a bank issues the command that its request needs by the open row, of the right direction, if it is spaced from the whole trace and a column command has room for its data; else none; a column command queues an atom due the latency of its kind later |
| `Dram.ChooseIff` | gpgpu-sim/dram.cc:267-367 | of the commands tried in turn the one chosen is the one that the request can use, if there is one |
| `Dram.Controller.Execute` | gpgpu-sim/dram.cc:267-377 | a ready command is logged, updates the counters and moves one atom if it is a column command, due the latency of its kind later, keeping the invariant |
| `Dram.Controller.UseRow` | gpgpu-sim/dram.cc:273-335 | the same for column commands, which move one atom |
| `Dram.Controller.SwitchRow` | gpgpu-sim/dram.cc:340-371 | the same for row commands, after which the next turn is the next bank's |
| `Dram.Controller.MoveAtom` | gpgpu-sim/dram.cc:273-332 | an atom enters the queue to leave the read or the write latency later at the earliest, whichever way the bus was turned |
| `Dram.Controller.TurnBus` | gpgpu-sim/dram.cc:273-310 | switching between reads and writes changes the queue's minimum length but no item |
| `Dram.Controller.SendAtom` | gpgpu-sim/dram.cc:277-298 | one atom enters the queue, and the bank lets go of its request with the last one |
| `Dram.Controller.Issue` | gpgpu-sim/dram.cc:257-383 | at most one command is issued a cycle, by the first bank in turn whose request can use one, and none only if there is no such bank; whose turn is next; the due times grow by exactly what a column command adds |
| `Dram.Controller.Advance` | gpgpu-sim/dram.cc:398-415 | every counter goes down by one, not below zero, and the invariant holds for the next cycle |
| `Dram.Controller.Cycle` | gpgpu-sim/dram.cc:204-420 | the atom that leaves is due, and its request is answered exactly with its last byte; the due times become the old ones less its own, plus command time and latency of a column command; the first free bank in turn gets the oldest request to its open row, or its oldest, from the drained queue; a precharge is issued only on another row than the request's, an activation only on a closed bank, a column command only on the request's row and in its direction; none is issued only if whatever is needed comes too early or the queue is full; the cycle keeps everything: safe command trace, conserved bytes, order by age, open rows |
| `Dram.Controller.Feed` | gpgpu-sim/dram.cc:204-255 | the first half of it |
| `Coalescing.SameOrDisjoint` | abstract_hardware_model.cc:386-459 | naturally aligned accesses of one block overlap exactly if they have one address |
| `Coalescing.ConflictIsSameAddress` | abstract_hardware_model.h:757-762 | a transaction conflicts with an access exactly when it has one with the same address |
| `Coalescing.FirstFitIsRank` | abstract_hardware_model.cc:416-432 | first fit finds the transaction numbered by how many earlier threads have the address |
| `Coalescing.PlaceExact` | abstract_hardware_model.cc:416-441 | placing a thread by first fit keeps each block's transactions the threads by rank, and no more than needed |
| `Coalescing.OneTransactionEach` | abstract_hardware_model.cc:386-459 | a thread is in the transaction of its block and rank, and in no other |
| `Coalescing.RanksIncrease` | abstract_hardware_model.cc:386-459 | threads with one address are in strictly increasing transactions |
| `Coalescing.ExactIsAtomic` | abstract_hardware_model.cc:386-459 | so the transactions are exclusive, without overlap, in order, and as many as the most threads on one address |
| `Coalescing.FewestTransactions` | abstract_hardware_model.cc:386-459 | no assignment without overlap uses fewer transactions for a block |
| `WarpAccess.ReduceFits` | abstract_hardware_model.cc:461-511 | the reduced access is an aligned block of 32, 64 or 128 bytes in the segment that holds all touched chunks |
| `WarpAccess.ReduceUsesBothHalves` | abstract_hardware_model.cc:470-509 | an access that is not halved uses both halves |
| `WarpAccess.ReduceIsSmallest` | abstract_hardware_model.cc:461-511 | it lies in every aligned block that holds the touched chunks |
| `WarpAccess.SummaryIsUnion` | abstract_hardware_model.cc:366-370 | a transaction has exactly the threads, bytes and chunks of its accesses |
| `WarpAccess.LaneInChunk` | abstract_hardware_model.cc:358-364 | an aligned access lies in one chunk, so the assert that it lies in one segment holds |
| `WarpAccess.ReducePacks` | abstract_hardware_model.cc:461-511 | the access sent for a block carries all its threads' bytes, sets no other bit, and is the smallest block around them |
| `WarpAccess.SentIsCoalesced` | abstract_hardware_model.cc:374-382 | the accesses of a subwarp cover every access, ascend without overlap and are the smallest possible |
| `WarpAccess.SentOnePerLine` | abstract_hardware_model.cc:374-382 | the accesses of a subwarp lie in different lines, each within one, and there are as many as lines touched |
| `WarpInstruction.TestBytes` | abstract_hardware_model.h:757-762 | whether any byte of a range is taken |
| `WarpInstruction.Mark` | abstract_hardware_model.cc:366-370 | the thread, chunk and byte bits of an access are set and no others |
| `WarpInstruction.FindTransaction` | abstract_hardware_model.cc:416-427 | the first transaction without a conflict |
| `WarpInstruction.SentIsAtomic` | abstract_hardware_model.cc:444-457 | the queued accesses of a subwarp carry every thread once, in order for one address, without overlap, as few as possible |
| `WarpInstruction.Inst.EveryAccessIsALane` | abstract_hardware_model.cc:338-356 | no access of an active thread is left out of its subwarp |
| `WarpInstruction.Inst.EveryLaneIsAnAccess` | abstract_hardware_model.cc:338-356 | and nothing but accesses of active threads is in it |
| `WarpInstruction.Inst.PiecesCover` | abstract_hardware_model.cc:342-352 | the accesses of a thread make up its data, four bytes at a time if local and longer than that |
| `WarpInstruction.Inst.PartBounds` | abstract_hardware_model.cc:332-336 | the subwarps follow each other, are equally large and make up the warp |
| `WarpInstruction.Inst.Gather` | abstract_hardware_model.cc:335-372 | one transaction for each touched block, made of exactly its accesses |
| `WarpInstruction.Inst.GatherThread` | abstract_hardware_model.cc:342-371 | the accesses of one thread are added, including the four-byte pieces of local ones |
| `WarpInstruction.Inst.GatherAtomic` | abstract_hardware_model.cc:402-442 | the transactions are the accesses of each block by rank |
| `WarpInstruction.Inst.PlaceAtomic` | abstract_hardware_model.cc:410-441 | one more access joins the first transaction it does not conflict with, and the assert that no byte is taken holds |
| `WarpInstruction.Inst.SendAll` | abstract_hardware_model.cc:374-382 | every block is sent once, in ascending order |
| `WarpInstruction.Inst.SendLists` | abstract_hardware_model.cc:444-457 | every transaction is sent once, by block and then by rank |
| `WarpInstruction.Inst.CoalescePart` | abstract_hardware_model.cc:334-383 | the accesses queued for a subwarp cover it, are smallest, and are one a line touched, lines being of 32 bytes for bytes, 64 for halfwords and 128 for longer data |
| `WarpInstruction.Inst.Coalesce` | abstract_hardware_model.cc:322-384 | every subwarp's accesses cover all its bytes and threads, are pairwise disjoint and smallest, and are one a line touched, of 32, 64 or 128 bytes by data size |
| `WarpInstruction.Inst.CoalesceAtomicPart` | abstract_hardware_model.cc:401-458 | the accesses queued for half a warp's atomics are exclusive, ordered, without overlap, and as few a line of 32, 64 or 128 bytes, by data size, as its most shared address allows |
| `WarpInstruction.Inst.CoalesceAtomic` | abstract_hardware_model.cc:386-459 | the same for both halves of the warp |
| `Bits.PackBits` | gpgpu-sim/addrdec.cc:400-411 | the loop gathers the selected bits of a range into the lowest positions |
| `Bits.GetMaskLimit` | gpgpu-sim/addrdec.cc:413-431 | the range found starts and ends at selected bits and leaves none out, or is all 64 bits |
| `Bits.LimitsPackAll` | gpgpu-sim/addrdec.cc:400-431 | gathering within the limits gathers everything |
| `Bits.PackedDetermines` | gpgpu-sim/addrdec.cc:67-70 | what a mask selects and what its complement selects determine the word |
| `Bits.PackedBits` | gpgpu-sim/addrdec.cc:400-411 | two words give the same selection exactly when they agree on the selected bits |
| `Bits.PackedAt` | gpgpu-sim/addrdec.cc:400-411 | a selected bit lands at the position given by how many bits are selected below it |
| `Bits.PackedAbove` | gpgpu-sim/addrdec.cc:400-411 | and there are no bits above those selected |
| `Bits.CutBits` | gpgpu-sim/addrdec.cc:400-411 | cutting to 32 bits keeps the lowest 32 |
| `AddressDecoder.RestDetermines` | gpgpu-sim/addrdec.cc:71-77 | remainder and stitched quotient determine the address |
| `AddressDecoder.RestDiffers` | gpgpu-sim/addrdec.cc:353-356 | an address with bits above the chip selection differs from its partition address exactly when there is more than one chip |
| `AddressDecoder.ChipBelow` | gpgpu-sim/addrdec.cc:351-351 | no address goes to a chip that does not exist |
| `AddressDecoder.PackInserted` | gpgpu-sim/addrdec.cc:272-275 | a mask with chip bits inserted selects from the address what the old mask selects from the quotient address |
| `AddressDecoder.PackChip` | gpgpu-sim/addrdec.cc:277-280 | the inserted chip bits select the remainder |
| `AddressDecoder.PackRest` | gpgpu-sim/addrdec.cc:69-70 | their complement selects the quotient address |
| `AddressDecoder.InsertChipBits` | gpgpu-sim/addrdec.cc:277-280 | the loop sets the bits from the start position on |
| `AddressDecoder.MasksAgreeWithDivision` | gpgpu-sim/addrdec.cc:80-103 | for a power of two of chips both decodings give one chip, bank, row, column and partition address |
| `AddressDecoder.ChipAndPartitionDetermine` | gpgpu-sim/addrdec.cc:67-103 | in both modes chip and partition address determine the linear address |
| `AddressDecoder.DecodedSame` | gpgpu-sim/addrdec.cc:330-362 | two addresses decode alike exactly when they share the chip and the covered bits |
| `AddressDecoder.FieldsDecoded` | gpgpu-sim/addrdec.cc:80-103 | for every number of chips, bank, row and column each have exactly the bits of their own mask, from the quotient address, moved together, and the chip is the remainder |
| `AddressDecoder.FieldsSame` | gpgpu-sim/addrdec.cc:80-103 | two addresses get the same bank, row or column exactly if their quotient addresses agree on the bits of that field's mask |
| `AddressDecoder.PartitionMeans` | gpgpu-sim/addrdec.cc:67-78 | the partition address has the chip divided out of its upper part and the lower part as it was, or the bits outside an explicit chip mask |
| `AddressDecoder.NoAliasesIff` | gpgpu-sim/addrdec.cc:330-362 | no two addresses below a limit alias exactly when every bit that occurs below it is covered by a field |
| `AddressDecoder.BurstAgreesIff` | gpgpu-sim/addrdec.cc:272-291 | the burst field is what division would give, for every address, exactly when its mask has no bit at or above the inserted chip bits |
| `AddressDecoder.Translation.constructor` | gpgpu-sim/addrdec.cc:155-302 | the masks get the chip bits exactly for a power of two of chips, and right limits |
| `AddressDecoder.Translation.Decode` | gpgpu-sim/addrdec.cc:80-103 | by masks or by division, the result is the decoding by division, with the burst field selected by its unmoved mask |
| `AddressDecoder.Translation.PartitionAddress` | gpgpu-sim/addrdec.cc:67-78 | by masks or by division, the result is the quotient address |
| `PagedMemory.PutFlat` | cuda-sim/memory.h:68-72 | writing into a page changes exactly the bytes written, also in a page made for it |
| `PagedMemory.PutCarriesOn` | cuda-sim/memory.cc:61-76 | each piece of a split write carries the flat write on, also round the end of the space |
| `PagedMemory.Memory.constructor` | cuda-sim/memory.cc:32-45 | the memory starts as zeros |
| `PagedMemory.Memory.WriteSlow` | cuda-sim/memory.cc:56-78 | the page-splitting loop performs the flat write of the length cut to 32 bits, for accesses within a page too, and fails exactly when offset and length together do not fit in 32 bits |
| `PagedMemory.Memory.WriteBytes` | cuda-sim/memory.cc:47-78 | both routes perform the same flat write, for any length |
| `PagedMemory.Memory.EndOfPage` | cuda-sim/memory.cc:50-50 | the 32-bit end of a page is right except that it is zero for the last page |
| `PagedMemory.Memory.ReadSingleBlock` | cuda-sim/memory.cc:89-108 | throws exactly when the access passes the computed end of the page, else gives the flat memory's bytes |
| `PagedMemory.Memory.ReadSlow` | cuda-sim/memory.cc:117-139 | the page-splitting loop gives the flat memory's bytes or throws when it reaches the last page |
| `PagedMemory.Memory.ReadBytes` | cuda-sim/memory.cc:110-140 | for any length, gives what a flat zero-initialised memory would after all writes so far, and throws exactly when the range touches the last page |
| `PagedMemory.LastPageExample` | cuda-sim/memory.cc:89-97 | a byte of the last page that is written but cannot be read |
| `Streams.Stream.constructor` | stream_manager.cc:35-40 | a stream starts empty |
| `Streams.Stream.Push` | stream_manager.cc:69-75 | the operation becomes the last |
| `Streams.Stream.Next` | stream_manager.cc:88-96 | the front operation is started and stays in front |
| `Streams.Stream.RecordNextDone` | stream_manager.cc:77-85 | the front operation is completed, in the order of pushes |
| `Streams.StartKeepsProtocol` | stream_manager.cc:238-271 | starting an operation of the stream whose turn it is keeps exclusion and the grid map |
| `Streams.FinishKeepsProtocol` | stream_manager.cc:221-237 | finishing one does |
| `Streams.PushKeepsProtocol` | stream_manager.cc:355-376 | pushing an operation with a new kernel does |
| `Streams.Manager.constructor` | stream_manager.cc:191-197 | a new manager satisfies the protocol |
| `Streams.Manager.ConcurrentStreamsEmpty` | stream_manager.cc:298-311 | whether no stream but zero has operations |
| `Streams.Manager.FirstReady` | stream_manager.cc:257-268 | the first stream that is not busy and not empty |
| `Streams.Manager.Start` | stream_manager.cc:246-252 | the front operation is started, and a kernel recorded with its stream |
| `Streams.Manager.Front` | stream_manager.cc:238-271 | exactly when stream zero or another stream is served, that it is the first one ready, and whose turn it is then |
| `Streams.Manager.TurnMeans` | stream_manager.cc:242-247 | stream zero is served while it is being served and when no other stream has an operation |
| `Streams.Manager.DoOperation` | stream_manager.cc:114-174 | a kernel stays started, launched or not; anything else is completed |
| `Streams.Manager.RegisterFinishedKernel` | stream_manager.cc:221-237 | the stream of a finished kernel has it in front, so the assert holds, and completes it |
| `Streams.Manager.Push` | stream_manager.cc:355-376 | the operation goes to its stream, or to stream zero if it has none or launches block |
| `Streams.Manager.DoNext` | stream_manager.cc:204-206 | exactly which stream starts its front operation and when none does; what becomes of it and that no other stream changes; a started kernel is launched exactly if the device can take it |
| `Streams.Manager.Perform` | stream_manager.cc:114-174 | what becomes of the operation that was started |
| `Streams.Manager.Operate` | stream_manager.cc:199-219 | a step keeps the protocol, completes the finished kernel, starts at most one other operation, which is completed unless it is a kernel, changes no other stream, and says whether a kernel was launched |
| `Streams.Manager.AddStream` | stream_manager.cc:273-279 | adding an empty stream keeps the protocol |
| `Streams.Manager.DestroyStream` | stream_manager.cc:281-296 | removing an empty stream keeps the protocol, and the other streams in their order |
| `Streams.Manager.Safety` | stream_manager.cc:199-271 | push order, one operation in progress a stream, exclusion of stream zero, and the grid map as exactly the kernels in progress |
| `Streams.Run` | stream_manager.cc:199-296 | all of it after any interleaving of pushes, device steps, new streams and destroyed ones |

## Left out

- Calls and returns on the SIMT stack, predicated breaks and `connect_break_targets`: the model is of call-free code that diverges at branches, where every block reaches the exit and a live thread's next pc is never -1. The return address is no pc of the program or the pc where it begins: for a kernel it is always 0, and pc 0 is the beginning of the first function assembled.
- `find_dominators` and `find_idominators`: the mirror image of the postdominator analysis.
- SimtStack.Stack.Update: the branch cycle, statistics and call depth of an entry are not modelled.
- Cache geometry: sets and lines of any size are indexed by division, which is what the shifts and masks do for powers of two; timestamps are below 2^32-1 and the 32-bit cut of block addresses is modelled.
- `tag_array::flush`, sampling windows, prefetch and all cache statistics.
- TexCache.Cache.ServeFragment: the condition at gpgpu-sim/gpu-cache.cc:694 is modelled as the comparison it is meant to be. The source has an assignment there: it changes nothing, since the contract says that the block is in the line already, but as a condition it stops the simulator on exactly the hits on block address 0.
- TexCache.Cache.Access: the address argument is the request's own address, as at its call site; the fragment, request and result FIFOs are bounded sequences, and only the reorder buffer, which is accessed by slot, is a ring.
- DataCache.Cache.Access: the read that a write-allocate miss creates is a parameter, since the allocator of memory requests is not part of this model.
- DataCache.Cache.Fill: when the assertion fails the simulator stops, and the state is left as it was before the call.
- DataCache.Cache.ReadOnlyAccess: when the assertion on a replaced modified line fails the simulator stops; the state given is the one that an access without the assertion would leave.
- Reserved lines without an outstanding read: with allocate-on-miss a merge into a block that has already arrived can leave one, so only the converse is stated.
- DataCache.LosesData: what is lost is counted by block, not by byte, and which value a later reader sees is not modelled.
- `dram_t::scheduler_fifo`, an unlimited scheduler queue, DRAM statistics and the visualizer; the FR-FCFS scheduler is the one modelled.
- DelayQueue.Pipeline.Append: the linked list is a sequence, so node ownership is not captured; the unreliable element counter is not modelled.
- Progress of any kind: row hits can starve a request, and a kernel that the device refuses stays pending.
- Shared-memory bank conflicts, and texture and constant accesses in `generate_mem_accesses`.
- WarpInstruction.Inst.Coalesce: addresses are naturally aligned and below 2^32, and the warp divides into its parts.
- The parsing of mapping strings: the chosen masks are a parameter.
- AddressDecoder.NoAliasesIff: speaks of chip, bank, row and column; the burst field could tell more addresses apart.
- AddressDecoder.Translation.constructor: where the chip bits are inserted the chip mask is empty before, as every mapping that asks for it makes it, and shifts stay within their words: below bit 31 when the number of chips is no power of two.
- AddressDecoder.ChipAndPartitionDetermine: a chip field of more than 32 bits would be cut by the 32-bit result and is excluded.
- Watchpoints of the paged memory.
- Mutexes, spinning and sleeping in the stream manager: each locked section is one step, and a blocked push is one that has not happened yet.
- Opcode semantics, PTX parsing and loading, clock domains, the interconnect and the shader core's pipelines.
