# Algorithms, modelled and proved in Dafny

This project models the core of the PranavSriram18/Algorithms repository in Dafny and proves
properties of that model. The core has two parts.

- **The VLIW/SIMD machine** of `perf/problem.py`: cores with private scratch space, a shared
  memory, five engines (alu, valu, load, store, flow), two-phase commit of each instruction
  bundle, 32-bit words, and the run loop that sweeps the cores in index order. Alongside it:
  - the 32-bit hash `myhash`;
  - the two reference kernels;
  - the memory-image builder;
  - the helpers of `KernelBuilder` in `perf/perf_takehome.py`: a scratch bump allocator, a
    constant pool, the one-slot bundle packer, the loop emitter, the hash emitter and the
    simple test program.
- **The algorithm exercises** named below. Each becomes one module (sometimes with a helper
  module), in the form of its source:
  - classes with fields, `modifies` clauses and loops where the source updates state in place;
  - datatypes, functions and lemmas where the source is pure recursion.

Python integers are unbounded and are modelled as `int`. Their floor division, modulo, shifts and
bitwise operators on negative numbers are written out in module `PyInt`. C++ code whose
arithmetic cannot overflow for the inputs it accepts is modelled on `int`. Where the C++ can
overflow, "## Left out" says so.

Shared modules:
- `Common`: `Option`, `Result`, `Outcome` and two sequence facts.
- `PyInt`: Python integer operators.
- `PyStr`: `str.split` and `str.join`.
- `Decimal`: decimal numerals.
- `LexOrder`: lexicographic order on sequences.
- `SegmentLayout`: the implicit binary-tree layout shared by both segment trees.
- `UnionFindForest`: parent arrays viewed as forests, shared by both union-finds.

Spec functions name what each operation means. Methods are proved against them. Lemmas prove what
the source promises about those functions: round trips, invariants, orderings, and agreement
with independent reference definitions.

Every source path below is relative to the repository root.

## Model

| member | source | states |
|---|---|---|
| Simulator.Core.constructor | perf/problem.py:107-109 | A new core has zeroed scratch of the requested size, an empty trace, pc 0 and state RUNNING. |
| Simulator.Machine.constructor | perf/problem.py:97-118 | The machine holds `n_cores` fresh cores with ids 0..n-1, a copy of the memory dump, cycle 0 and pausing enabled. |
| Simulator.AluResultSpec | perf/problem.py:166-199 | Every alu result is reduced mod 2^32. The slot raises exactly for an unknown opcode, a zero divisor of `//`, `cdiv` or `%`, or a negative shift. `<` and `==` give 1 or 0, and `+` wraps around. |
| Simulator.Machine.Alu | perf/problem.py:166-199 | alu reads both operands from the core's scratch and buffers `dest := result mod 2^32`. An unknown opcode raises NotImplementedError. |
| SimulatorProps.CdivIsCeiling | perf/problem.py:44-45 | For a positive divisor, cdiv(a, b) is the ceiling of a / b. |
| SimulatorProps.CdivNegativeDivisor | perf/problem.py:44-45 | For a negative divisor, cdiv is not the ceiling: cdiv(1, -1) is 1. |
| Simulator.Machine.Valu | perf/problem.py:201-210 | valu is vbroadcast or an alu opcode applied lane by lane. Any other slot raises. |
| Simulator.Machine.Broadcast | perf/problem.py:203-205 | vbroadcast buffers the source word into the 8 lanes dest..dest+7. |
| Simulator.Machine.ValuLanes | perf/problem.py:206-208 | A vector alu slot runs the scalar alu on lane i for i in 0..7, and fails at the first failing lane. |
| SimulatorProps.ValuFromLanes | perf/problem.py:206-208 | A vector alu slot equals writing the 8 per-lane alu results at dest..dest+7. |
| SimulatorProps.BroadcastFromLanes | perf/problem.py:203-205 | vbroadcast equals writing the same source word into every lane. |
| SimulatorProps.PutLanesOk | perf/problem.py:201-210 | A lane-wise write succeeds exactly when every lane succeeds. |
| SimulatorProps.LaneFrame | perf/problem.py:201-210 | Writing lane j sets dest+j and leaves every address outside dest..dest+7 as it was. |
| Simulator.Machine.Load | perf/problem.py:212-229 | load, load_offset, vload and const read the old scratch and memory and buffer scratch writes. An out-of-range address or an unknown opcode raises. |
| SimulatorProps.VloadFromLanes | perf/problem.py:222-225 | vload writes mem[a + i] into lane i. |
| Simulator.Machine.Store | perf/problem.py:231-241 | store and vstore buffer memory writes at the address held in scratch. An unknown opcode raises. |
| SimulatorProps.VstoreFromLanes | perf/problem.py:236-239 | vstore writes lane i of the source to memory address a + i. |
| Simulator.Machine.Flow | perf/problem.py:243-276 | flow either buffers a scratch write (select, vselect, coreid) or changes pc, state or the trace at once (halt, pause, trace_write, the jumps). An unknown opcode raises. |
| Simulator.Machine.FlowWriteM | perf/problem.py:245-274 | select, vselect and coreid buffer the chosen words or the core id. |
| Simulator.Machine.VselectLanes | perf/problem.py:250-256 | vselect picks a[i] or b[i] lane by lane on cond[i] != 0. |
| SimulatorProps.VselectFromLanes | perf/problem.py:250-256 | vselect equals 8 scalar selects, one per lane. |
| Simulator.Machine.FlowControlM | perf/problem.py:257-272 | halt stops the core; pause pauses it only when pausing is enabled. trace_write appends to the trace buffer, and the jumps set pc at once. |
| SimulatorProps.PauseOnlyWhenEnabled | perf/problem.py:259-261 | pause changes the state to PAUSED exactly when pausing is enabled. |
| Simulator.PutLookup | perf/problem.py:288-312 | After `d[k] = v` on a write buffer, d[k] is v and every other key keeps its value. |
| Simulator.FindSpec | perf/problem.py:288-312 | Find gives the first position holding a key, or None when the key is absent. |
| SimulatorProps.PutUnique | perf/problem.py:288-312 | Writing into a buffer keeps its keys unique and adds no key but k. |
| SimulatorProps.CommitSpec | perf/problem.py:307-310 | Committing a buffer writes each buffered address's last value and leaves every other word unchanged. |
| Simulator.Machine.Dispatch | perf/problem.py:291-305 | A slot is sent to the engine named by its bundle entry. |
| Simulator.StepSpec | perf/problem.py:288-318 | One bundle on one core. No contract of its own: `Machine.Step` proves that the method computes it, and `SwapInOneBundle`, `LoadSeesOldMemory`, `HaltCommits` and `OverLimitRaises` prove its two-phase commit and its errors. |
| Simulator.Machine.Step | perf/problem.py:288-318 | step runs every engine's slots against the pre-bundle state, then commits scratch and then memory. Its result is exactly StepSpec, including its errors. |
| SimulatorProps.SwapInOneBundle | perf/problem.py:288-312 | Two alu slots in one bundle that copy x to y and y to x swap them: each reads the old value. |
| SimulatorProps.LoadSeesOldMemory | perf/problem.py:288-312 | A load in the same bundle as a store to the same address sees the memory before the store. |
| SimulatorProps.HaltCommits | perf/problem.py:288-310 | A core that halts still commits the rest of its bundle. |
| SimulatorProps.DebugIgnored | perf/problem.py:299-300 | The `debug` entry of a bundle is skipped. |
| SimulatorProps.OverLimitRaises | perf/problem.py:299-302 | An unknown engine raises, and more slots than SLOT_LIMITS allows fails the assert. |
| SimulatorProps.SlotLimits | perf/problem.py:48-54 | The slot limits are alu 12, valu 6, load 2, store 2 and flow 1. No other engine has a limit. |
| SimulatorProps.ExecEnginesCons | perf/problem.py:298-305 | The engines of a bundle run in order. |
| Simulator.Machine.Turn | perf/problem.py:152-162 | A running core with pc past the program stops. Otherwise it fetches the bundle at pc, increments pc, then steps. |
| Simulator.Machine.AnyCoreRunning | perf/problem.py:152 | The result is true exactly when some core is RUNNING. |
| Simulator.Resume | perf/problem.py:149-151 | run first turns every PAUSED core into RUNNING and leaves the other cores as they were. |
| Simulator.Machine.ResumeAll | perf/problem.py:149-151 | The cores become Resume of their old values. |
| Simulator.SweepFrom | perf/problem.py:153-163 | A sweep gives each core its turn in index order, threading the shared memory, and keeps the number of cores. |
| SimulatorProps.SweepKeepsIdle | perf/problem.py:154-155 | A sweep leaves every core that is not RUNNING as it was. |
| Simulator.Machine.Sweep | perf/problem.py:153-162 | The cores and memory after the loop over cores are those of SweepFrom. |
| Simulator.Machine.Cycle | perf/problem.py:153-163 | One sweep, and the cycle counter rises by one. |
| Simulator.Machine.Loop | perf/problem.py:152-163 | The while loop of run equals RunLoop: it sweeps while some core runs, within the fuel. |
| Simulator.RunSpec | perf/problem.py:148-163 | run within the fuel. No contract of its own: `Machine.Run` proves that the method ends in its state, `RunLoopOutcome` that no core is RUNNING on a natural exit with one cycle per sweep, and `StoppedStaysStopped` that a stopped core stays inert. |
| Simulator.Machine.Run | perf/problem.py:148-163 | run resumes paused cores and then loops. The machine ends in RunSpec's state, errors included. |
| Simulator.RunLoopOutcome | perf/problem.py:152-163 | When the loop ends by itself no core is RUNNING. Either way one cycle is counted per sweep and the number of cores is kept. |
| Simulator.RunLoopSweep | perf/problem.py:152-163 | While a core runs, one loop iteration is one sweep plus one cycle. |
| SimulatorProps.StoppedStaysStopped | perf/problem.py:148-165 | A STOPPED core stays STOPPED and unchanged through the rest of the run. |
| Reference.HashStagesWellFormed | perf/problem.py:360-367 | Every HASH_STAGES entry uses only the operators myhash knows. |
| Reference.MyHash | perf/problem.py:370-385 | The loop over the stages returns Hash(a), the fold of the six stages with each step reduced mod 2^32. |
| Reference.HashBound | perf/problem.py:370-385 | myhash returns a 32-bit word for every argument. |
| Reference.ApplyStagesBound | perf/problem.py:382-383 | A non-empty run of stages gives a 32-bit word. |
| Reference.HashLow32 | perf/problem.py:370-385 | myhash depends only on its argument mod 2^32. |
| Reference.Input.constructor | perf/problem.py:343-352 | An input holds its indices, values and rounds as given. |
| Reference.KernelVisit | perf/problem.py:397-404 | One item: val := myhash(val ^ node), then go left on even and right on odd, wrapping to 0 past the last node. An out-of-range index raises. |
| Reference.RoundFromVisit | perf/problem.py:397-404 | One item of a round, unfolded, including its failures. |
| Reference.KernelRound | perf/problem.py:396-404 | One round updates indices and values as RoundFrom says. |
| Reference.ReferenceKernel | perf/problem.py:388-404 | reference_kernel applies RoundsFrom over all rounds to the input's lists in place. |
| Reference.VisitInRange | perf/problem.py:400-402 | From an index inside the tree, the next index is inside the tree again. |
| Reference.RoundsFromInRange | perf/problem.py:396-404 | With every index inside the tree, no round fails. |
| Reference.ExtraRoomPointerOverwritten | perf/problem.py:421-431 | As written, mem[7] ends up holding the first tree value, not the extra-room pointer. |
| Reference.MemImageAsWritten | perf/problem.py:408-433 | build_mem_image as written. No contract of its own: `ExtraRoomPointerOverwritten` and `ExtraRoomDropped` prove its two defects, `ImageAsWrittenExample` exhibits them, and `ImageAsWrittenLayout` proves the fields reference_kernel2 reads intact. |
| Reference.MemImage | perf/problem.py:408-433 | build_mem_image as evidently intended. No contract of its own: `MemImageLayout` proves its header and regions, `MemImageExtraRoom` that the extra room and its pointer survive, and `KernelsAgree` that reference_kernel2 on it agrees with reference_kernel. |
| Reference.ExtraRoomDropped | perf/problem.py:412-433 | As written, the image is cut to 7 + nodes + 2·batch words, so the extra room is gone. |
| Reference.ImageAsWrittenExample | perf/problem.py:408-433 | Concrete image for a one-node tree and a batch of two. |
| Reference.ImageAsWrittenLayout | perf/problem.py:408-433 | Despite the overwrite, the header fields 0..6 and the three regions are where reference_kernel2 reads them. |
| Reference.MemImageLayout | perf/problem.py:408-433 | The corrected image has the same header and regions. |
| Reference.MemImageExtraRoom | perf/problem.py:411-431 | The corrected image keeps the extra room after the values, and mem[7] points to it. |
| Reference.ReadHeader | perf/problem.py:441-448 | Reading the header succeeds exactly when memory has at least 7 words. |
| Reference.FlatVisit | perf/problem.py:451-459 | One item of reference_kernel2 on the flat memory, in place. |
| Reference.FlatRound | perf/problem.py:450-459 | One round on the flat memory equals FlatRoundFrom. |
| Reference.FlatRoundFails | perf/problem.py:452-454 | An item whose index, value or node cannot be read fails the round. |
| Reference.Kernel2 | perf/problem.py:437-462 | reference_kernel2's snapshots. No contract of its own: `ReferenceKernel2` proves the generator yields exactly these, `FlatRoundsLength` that they keep the memory's length, and `FlatRoundsAgree` and `KernelsAgree` that they match reference_kernel's rounds. |
| Reference.ReferenceKernel2 | perf/problem.py:437-462 | The yielded states are Kernel2(mem): the memory before the first round and after each round, rounds + 1 in all. The memory ends as the last of them. |
| Reference.FlatRoundsLength | perf/problem.py:449-462 | Every yielded state keeps the memory's length. |
| Reference.FlatRoundAgrees | perf/problem.py:449-459 | A round on the flat memory and a round of reference_kernel agree on every index and value. |
| Reference.FlatRoundsAgree | perf/problem.py:449-462 | The same holds over any number of rounds. |
| Reference.KernelsAgree | perf/problem.py:388-462 | On the image of a tree and input, the final state of reference_kernel2 holds, in its index and value regions, exactly what reference_kernel leaves in the input lists. |
| KernelBuilder.Builder.constructor | perf/perf_takehome.py:74-80 | A new builder has no instructions, labels, names or constants, and its scratch pointer is 0. |
| KernelBuilder.Builder.Build | perf/perf_takehome.py:86-91 | build emits one bundle per slot, in order. |
| KernelBuilder.OneSlotEach | perf/perf_takehome.py:86-91 | The packed list has one bundle per slot, and bundle i holds exactly slot i. |
| KernelBuilder.OneSlotEachAppend | perf/perf_takehome.py:86-91 | Packing a concatenation packs each part. |
| KernelBuilder.Builder.Add | perf/perf_takehome.py:93-94 | add appends one one-slot bundle. |
| KernelBuilder.Builder.Label | perf/perf_takehome.py:96-97 | label maps the name to the index of the next bundle. |
| KernelBuilder.Builder.AllocScratch | perf/perf_takehome.py:99-106 | The result is the old pointer, and the pointer advances by length. A name is recorded in scratch and, with its length, in scratch_debug. Overflowing SCRATCH_SIZE fails the assert. |
| KernelBuilder.Builder.ScratchConst | perf/perf_takehome.py:108-113 | A pooled value returns its address and changes nothing. A new value advances the pointer by one, records the name (if any) in scratch and scratch_debug, and fails exactly when the word does not fit. On success it emits one `const` load of the value into the old pointer's word and pools it there; on failure the program and pool are unchanged. |
| KernelBuilder.Builder.ForLoop | perf/perf_takehome.py:115-131 | The returned bundles are ForLoopBundles over the condition word at the old pointer and the constant 1. The pointer advances by 2 when 1 was not yet pooled and the first word fits, and by 1 otherwise. The call fails exactly when old pointer + (1 or 2) exceeds SCRATCH_SIZE. Names are unchanged. When 1 was new and the call succeeds, one `const` load of 1 into word old pointer + 1 is emitted and pooled; otherwise program and pool are unchanged. |
| KernelBuilder.ForLoopShape | perf/perf_takehome.py:115-131 | The loop has 3 + len(body) + 1 bundles. The cond_jump targets start + that length, and the last bundle jumps back to start. |
| KernelBuilder.Builder.PoolStage | perf/perf_takehome.py:150-151 | One stage's two scratch_const calls: the state becomes PoolConst for val1 and then val3, failing exactly when a new value's word does not fit. |
| KernelBuilder.Builder.BuildHash | perf/perf_takehome.py:146-154 | build_hash returns 18 alu slots, 3 per stage, reading the pooled constants. Pool, pointer and program become PoolConsts of the old ones over the stages' val1 and val3. It fails exactly when that pooling allocates a word past SCRATCH_SIZE, and names are unchanged. |
| KernelBuilder.PoolConstsSpec | perf/perf_takehome.py:108-113 | Pooling a list of values gives each value not yet pooled one fresh word from the pointer on, with its `const` load appended; pooled values keep their words, one word per new constant, and the program only grows. |
| KernelBuilder.PoolDistinct | perf/perf_takehome.py:108-113 | Pooling distinct new values takes exactly one word and emits exactly one load per value. |
| KernelBuilder.HashConstVals | perf/perf_takehome.py:149-152 | build_hash asks for val1 and val3 of each stage in turn: the twelve constants of HASH_STAGES, all distinct. |
| KernelBuilder.HashPoolFresh | perf/perf_takehome.py:146-154 | On an empty pool, build_hash takes twelve scratch words and emits twelve `const` loads. |
| KernelBuilder.HashPoolFails | perf/perf_takehome.py:146-154 | A stage whose new constant does not fit makes the whole pooling exceed SCRATCH_SIZE, past the starting pointer. |
| KernelBuilder.HashSlots | perf/perf_takehome.py:146-154 | The slot list has 3 slots per stage. |
| KernelBuilder.HashSlotsRun | perf/perf_takehome.py:146-154 | Run one slot per bundle with the constants in place, the slots of any stage list leave ApplyStages(val) in val. |
| KernelBuilder.BuildHashComputesHash | perf/perf_takehome.py:146-154 | The 18 slots of build_hash compute myhash of the word in val_hash_addr, in place. |
| KernelBuilder.RunStraightAppend | perf/perf_takehome.py:146-154 | Running a + b runs a, then b from where a left off. |
| KernelBuilder.Builder.BuildSimpleTest | perf/perf_takehome.py:133-144 | On a fresh builder, build_simple_test emits the seven bundles of SimpleTestProgram. |
| KernelBuilder.SimpleTestBundles | perf/perf_takehome.py:133-144 | The simple program is two const loads followed by the for_loop around `accum += 1`. |
| KernelBuilder.SimpleTestExit | perf/perf_takehome.py:124-130 | Entered with limit ≤ iter (a limit below iter included), the body does not run: 4 cycles later the core has stopped past the loop, with iter one higher, the condition set and accum untouched. |
| KernelBuilder.SimpleTestLoop | perf/perf_takehome.py:124-130 | Entered with iter = accum = k and k ≤ limit < 2^32 - 1, the loop takes 5 cycles per remaining iteration plus 4, and run ends in the state LoopExit describes, with memory untouched. The limit's upper bound is admitted under Left out. |
| KernelBuilder.SimpleTestWraps | perf/perf_takehome.py:124-130 | With iter = 2^32 - 1 and a limit that is not negative, the 32-bit `+` takes iter back to 0, the exit test fails, and after one pass of 5 cycles the core is back at the loop's head with iter = 0. |
| KernelBuilder.SimpleTestCountsToTen | perf/perf_takehome.py:455-467 | On one core with 10 zero words of memory, run of the simple test ends with no core running after 56 cycles, and scratch[1] == 10. |
| Counter.First | utils/counter.hh:18-24 | The first key of a set under the order (ascending, or descending for `std::greater`) is a member that no other member precedes. The empty set gives K() = 0. |
| Counter.FirstExists | utils/counter.hh:18-24 | Every non-empty finite set of keys has a first key under either order. |
| Counter.Counter.constructor | utils/counter.hh:26-27 | A new counter is empty. |
| Counter.Counter.Increment | utils/counter.hh:8-10 | The key's count rises by one (from 0 for a new key), and every other count is unchanged. |
| Counter.Counter.Decrement | utils/counter.hh:12-16 | A present key's count falls by one and the key is erased when it reaches 0. An absent key changes nothing. No zero count is ever stored. |
| Counter.Counter.FirstKey | utils/counter.hh:18-20 | The result is a stored key that no stored key precedes, or K() when the map is empty. |
| Counter.Counter.LastKey | utils/counter.hh:22-24 | The result is a stored key that precedes no stored key, or K() when the map is empty. |
| MaxSegmentSum.MaxSegmentSum.constructor | misc/max_segment_sum.hh:100-107 | A default-constructed solver has no segments, no results and an empty descending counter. |
| MaxSegmentSum.MaxSegmentSum.BuildPrefixSums | misc/max_segment_sum.hh:66-71 | pfx_[i] is the sum of nums[0..i-1] for every i ≤ n. |
| MaxSegmentSum.PrefixDifference | misc/max_segment_sum.hh:96-98 | The difference of two prefix sums is the sum of the slice between them. |
| MaxSegmentSum.MaxSegmentSum.SegmentSum | misc/max_segment_sum.hh:96-98 | pfx_[right + 1] - pfx_[left] is the sum of nums over [left, right]. |
| MaxSegmentSum.SegmentsInitially | misc/max_segment_sum.hh:41 | With nothing removed, [0, n-1] is the only segment. |
| MaxSegmentSum.SegmentsDisjoint | misc/max_segment_sum.hh:57-59 | Two different segments do not overlap, so the set's order `right < other.left` is total on them. |
| MaxSegmentSum.SegmentContaining | misc/max_segment_sum.hh:74-76 | Every index not yet removed lies in some segment. |
| MaxSegmentSum.LowerBoundFindsSegment | misc/max_segment_sum.hh:76 | lower_bound({q, q}) finds exactly the segment containing q. |
| MaxSegmentSum.SegmentsAfterRemoval | misc/max_segment_sum.hh:77-90 | Removing q replaces the segment containing it by its non-empty pieces [left, q-1] and [q+1, right]. The segments are again exactly the maximal runs of kept indices. |
| MaxSegmentSum.CountSumSplit | misc/max_segment_sum.hh:81-90 | The counter's tally of each sum changes by the removed segment and the added pieces. |
| MaxSegmentSum.TalliesAfterRemoval | misc/max_segment_sum.hh:81-90 | After one query the counter holds the multiset of the current segments' sums. |
| MaxSegmentSum.QueryKeepsPartition | misc/max_segment_sum.hh:73-91 | A query keeps both invariants: the segments partition the kept indices, and the counter tallies their sums. |
| MaxSegmentSum.FirstKeyIsMax | misc/max_segment_sum.hh:92-93 | The first key of the descending counter is the largest segment sum, or 0 when no segment is left. |
| MaxSegmentSum.MaxOverPartition | misc/max_segment_sum.hh:93 | The largest sum over the stored segments is the largest sum of any maximal run of kept indices. |
| MaxSegmentSum.MaxSegmentSum.ReplaceSegment | misc/max_segment_sum.hh:77-90 | The segment containing q is replaced by its pieces, and the counter is updated to match. |
| MaxSegmentSum.MaxSegmentSum.ProcessQuery | misc/max_segment_sum.hh:73-94 | After removing q, the new result is the maximum segment sum over what remains. |
| MaxSegmentSum.MaxSegmentSum.Setup | misc/max_segment_sum.hh:37-43 | The solver starts with one segment [0, n-1], prefix sums, and the whole sum counted. |
| MaxSegmentSum.MaxSegmentSum.MaximumSegmentSum | misc/max_segment_sum.hh:35-48 | answer has one entry per query. answer[i] is the maximum segment sum once the first i+1 queries are removed. |
| SegmentLayout.RootSegment | trees/segment_tree.hh:132-134 | The root, node 1, covers the whole padded data array [0, m-1]. |
| SegmentLayout.Children | trees/segment_tree.py:11-14 | A leaf covers one index. An internal node's segment is its left child's segment followed at once by its right child's. |
| SegmentLayout.DescSegment | trees/segment_tree.py:13-14 | Leaf m + i lies below node k exactly when i is in k's segment [Lo, Hi]. |
| SegmentLayout.NodeValueFold | trees/segment_tree.hh:132-141 | Each node's value, built bottom-up from the leaves, is op folded over the data of its segment. |
| SegmentLayout.ConsistentFold | trees/segment_tree.hh:132-141 | In a tree where every internal node is op of its children, node k holds the fold over its segment. |
| SegmentLayout.FoldSplit | trees/segment_tree.hh:96-98 | For an associative op, a fold over [lo, hi) splits at any mid into op of the two halves. |
| SegmentLayout.UpdateLeaf | trees/segment_tree.hh:44-47 | After writing a leaf, only the leaf's ancestors are left to recompute. |
| SegmentLayout.UpdateAncestor | trees/segment_tree.hh:48-51 | Recomputing one ancestor from its children leaves only the ancestors above it to recompute. |
| SegmentLayout.BuiltRoot | trees/segment_tree.hh:60-67 | Once populate has returned at the root, the tree is consistent and its leaves are the padded data. |
| SegmentLayout.SegmentsRoot | trees/segment_tree.hh:69-76 | Once populateIdxToSegment has returned at the root, every internal node stores its range [Lo, Hi]. |
| SegmentTree.SegmentTree.constructor | trees/segment_tree.hh:27-39 | m is the smallest power of two ≥ n (1 for empty data). The leaves are the data padded with T(). The tree is consistent and every internal range is stored. |
| SegmentTree.SegmentTree.PopulateStree | trees/segment_tree.hh:60-67 | The subtree of node is built from the data, its value is returned, and nothing outside the subtree changes. |
| SegmentTree.SegmentTree.PopulateIdxToSegment | trees/segment_tree.hh:69-76 | The subtree's ranges are stored, the node's range [Lo, Hi] is returned, and nothing outside the subtree changes. |
| SegmentTree.SegmentTree.Segment | trees/segment_tree.hh:102-107 | segment(node) is the node's data range [Lo, Hi]. |
| SegmentTree.SegmentTree.Update | trees/segment_tree.hh:43-52 | The leaves change at idx only, the tree stays consistent, and no node off the path from the leaf to the root changes. |
| SegmentTree.SegmentTree.Query | trees/segment_tree.hh:55-57 | query(left, right) is binOp folded over the leaves left..right. |
| SegmentTree.SegmentTree.QueryNode | trees/segment_tree.hh:80-99 | Inside node's segment, the recursion returns the fold over [qLeft, qRight]. |
| SegmentTree.EightLeaves | trees/segment_tree.hh:29-31 | Five data values give m = 8. |
| SegmentTree.BasicScenario | trees/segment_tree_test.cc:12-32 | With + on {3, 1, 0, 7, 9}, the queries give 11, 16 after update(2, 5), and 34 after the later updates. |
| SegmentTreePy.BitLengthBounds | trees/segment_tree.py:24 | x < 2^bit_length(x), and for x ≥ 1, x ≥ 2^bit_length(x) / 2. |
| SegmentTreePy.LeafCountMin | trees/segment_tree.py:24 | `1 << (n-1).bit_length()` is a power of two. For n ≥ 1 it is the smallest one ≥ n. For n = 0 it is 2. |
| SegmentTreePy.Wrap | trees/segment_tree.py:39-45 | wrapped_bin_op returns the other argument when one is None, and otherwise applies bin_op. |
| SegmentTreePy.WrapAssociative | trees/segment_tree.py:39-45 | Wrapping keeps an associative operation associative, with None as identity. |
| SegmentTreePy.WrappedFold | trees/segment_tree.py:39-45 | Over data padded with None, the wrapped fold of a non-empty range inside the data is Some of the client's fold. |
| SegmentTreePy.SegmentTreePy.constructor | trees/segment_tree.py:17-48 | m is 1 << (n-1).bit_length(). The leaves are Some(data) padded with None, and the tree is consistent with every internal range stored. |
| SegmentTreePy.SegmentTreePy.PopulateStree | trees/segment_tree.py:53-60 | The subtree of node is built from the padded data, its value is returned, and nothing outside the subtree changes. |
| SegmentTreePy.SegmentTreePy.PopulateIdxToSegment | trees/segment_tree.py:62-69 | The subtree's ranges are stored, the node's range is returned, and nothing outside the subtree changes. |
| SegmentTreePy.SegmentTreePy.Query | trees/segment_tree.py:50-51 | query(qleft, qright) is the wrapped fold over the leaves in the range. |
| SegmentTreePy.SegmentTreePy.QueryWrapper | trees/segment_tree.py:71-90 | Inside node's segment, the recursion returns the fold over [qleft, qright]. |
| SegmentTreePy.SegmentTreePy.QueryData | trees/segment_tree.py:71-90 | Over the data, a query is Some of the client's fold over data[qleft..qright]. |
| SegmentTreePy.SegmentTreePy.Update | trees/segment_tree.py:92-100 | Leaf idx becomes Some(value) and the value is returned. The tree stays consistent, and nothing off the path to the root changes. |
| SegmentTreePy.SegmentTreePy.Segment | trees/segment_tree.py:103-106 | segment(node) is the node's data range. |
| SegmentTreePy.PaddedWrite | trees/segment_tree.py:92-94 | Setting a leaf inside the data sets that datum, and the padding stays None. |
| SegmentTreePy.BasicScenario | trees/segment_tree_test.py:3-17 | With + on [1, 4, 7, 11, 20], the queries give 23, 26, 41 and 57. |
| IntervalCounter.BeforeMeans | trees/interval_counter.hh:28-32 | For non-empty intervals, A < B holds exactly when every integer of A is below every integer of B: they are disjoint and A comes first. |
| IntervalCounter.SpanSize | trees/interval_counter.hh:24-26 | elems() is the number of integers in the interval. |
| IntervalCounter.LowerBound | trees/interval_counter.hh:45 | lower_bound finds the first stored interval not strictly before the new one. Every interval before it ends before the new one starts. |
| IntervalCounter.UpperBound | trees/interval_counter.hh:53 | upper_bound finds the first stored interval strictly after the new one. |
| IntervalCounter.MeetRange | trees/interval_counter.hh:52-58 | When lower_bound's interval meets the new one, upper_bound lies past it, so rightIt = farRightIt - 1 is a valid interval. |
| IntervalCounter.SizeIsCount | trees/interval_counter.hh:72-83 | For ordered disjoint intervals, the total of elems() is the number of covered integers. |
| IntervalCounter.InsertPath | trees/interval_counter.hh:47-50 | When nothing stored meets the interval, add inserts it at lower_bound and count_ grows by its elems(). |
| IntervalCounter.MergePath | trees/interval_counter.hh:52-69 | Otherwise the intervals from lower_bound to upper_bound are replaced by one from the smallest left end to the largest right end, and count_ is adjusted to match. |
| IntervalCounter.AddSpecOrdered | trees/interval_counter.hh:38-70 | add keeps the stored intervals non-empty, pairwise disjoint and in order. |
| IntervalCounter.AddSpecCovers | trees/interval_counter.hh:38-70 | add adds exactly the new interval's integers to the covered set. |
| IntervalCounter.MergedCovers | trees/interval_counter.hh:61-69 | The merged interval covers exactly the new interval and the ones it replaces. |
| IntervalCounter.IntervalCounter.constructor | trees/interval_counter.hh:82-83 | A new counter has no intervals and count 0. |
| IntervalCounter.IntervalCounter.Add | trees/interval_counter.hh:38-70 | The stored intervals become AddSpec of the old ones. Valid is kept: ordered and disjoint, count_ their total size, and covering exactly the integers added so far. |
| IntervalCounter.IntervalCounter.EraseRange | trees/interval_counter.hh:65-68 | The loop takes each interval in [leftIt, farRightIt) off count_, then the range is erased. |
| IntervalCounter.IntervalCounter.InsertInterval | trees/interval_counter.hh:77-80 | The interval goes in at its ordered position, and count_ grows by its elems(). |
| IntervalCounter.IntervalCounter.CountIntegers | trees/interval_counter.hh:72-74 | count() is the number of integers in the union of all intervals added. |
| IntervalCounter.SpanJoin | trees/interval_counter.hh:61-64 | Two intervals that overlap or touch cover the integers of their hull. |
| IntervalCounter.Test2 | trees/interval_counter_test.cc:20-29 | Covering [100, 199] with four overlapping adds gives count 100. |
| IntervalCounter.TestBasic | trees/interval_counter_test.cc:11-18 | [2, 3] and [7, 10] give 6; adding [5, 8] gives 8. |
| BTreeEntries.PutFind | trees/btree.hh:86-101 | After an insertion the walk finds the new value at its key and the old values everywhere else. |
| BTreeEntries.PutKeys | trees/btree.hh:86-101 | An insertion adds exactly its key to the stored keys. |
| BTreeEntries.PutSorted | trees/btree.hh:86-101 | An insertion keeps the in-order walk strictly sorted by key. |
| BTreeEntries.LivePut | trees/btree.hh:86-101 | On the key-to-value map, an insertion with a present value is a map update. |
| BTreeEntries.DropFind | trees/btree.hh:214-219 | Erasing a key's entry makes lookups of that key find nothing and leaves other keys alone. |
| BTreeEntries.DropKeys | trees/btree.hh:214-219 | Erasing removes exactly the key from the stored keys. |
| BTreeEntries.DropSorted | trees/btree.hh:214-219 | Erasing keeps the walk sorted. |
| BTreeEntries.LiveDrop | trees/btree.hh:214-219 | On the key-to-value map, erasing is removal of the key. |
| BTreeEntries.ClearFind | trees/btree.hh:224-227 | A tombstone makes lookups of that key find nothing and leaves other keys alone. |
| BTreeEntries.ClearKeys | trees/btree.hh:224-227 | A tombstone keeps the key stored. |
| BTreeEntries.ClearSorted | trees/btree.hh:224-227 | A tombstone keeps the walk sorted. |
| BTreeEntries.LiveClear | trees/btree.hh:224-227 | On the key-to-value map, a tombstone is removal of the key. |
| BTreeEntries.FindAt | trees/btree.hh:69-84 | In a sorted walk, looking up the key of any entry finds that entry's value. |
| BTreeNode.LowerBound | trees/btree.hh:135 | The first position whose key is not below the key searched for: every earlier key is smaller. |
| BTreeNode.OwnsKey | trees/btree.hh:134-139 | ownsKey: whether the node holds the key, and the position where it is or would go. |
| BTreeNode.OwnsKeyAt | trees/btree.hh:134-139 | A key strictly between keys i-1 and i is not owned and falls to position i. |
| BTreeNode.Descend | trees/btree.hh:69-84 | A key the node does not own is in the walk exactly when it is in the walk of the child at the position ownsKey gives. |
| BTreeNode.LeafAbsent | trees/btree.hh:69-84 | A leaf that does not own a key does not hold it anywhere. |
| BTreeNode.ValueFind | trees/btree.hh:80-84 | value(key) returns what the in-order walk stores for the key. |
| BTreeNode.ContainsValue | trees/btree.hh:69-74 | contains(key) holds exactly when value(key) is non-empty. |
| BTreeInsert.LeftHalf | trees/btree.hh:177-200 | The half a full child keeps holds the B/2 keys before the middle. |
| BTreeInsert.RightHalf | trees/btree.hh:177-200 | The half that moves to the new sibling holds the B - B/2 - 1 keys after the middle. |
| BTreeInsert.SplitChildNode | trees/btree.hh:163-170 | splitChild gives the parent one more child and leaves its own keys and values. |
| BTreeInsert.Promote | trees/btree.hh:163-170 | The middle key and value go into the parent at the child's position. |
| BTreeInsert.HalvesFlat | trees/btree.hh:177-200 | A full child's walk is its left half's walk, the middle entry, then its right half's walk. |
| BTreeInsert.SplitChildSpec | trees/btree.hh:163-200 | Splitting a full child keeps the node shaped, its walk unchanged and its keys ordered. |
| BTreeInsert.SplitFlat | trees/btree.hh:163-200 | Splitting a child does not change the in-order walk. |
| BTreeInsert.SplitSmall | trees/btree.hh:177-200 | After a split, the two halves and the parent each hold fewer than B keys. |
| BTreeInsert.Insert | trees/btree.hh:86-101 | insert keeps the tree shaped and its keys ordered, and the walk becomes the old walk with the key set to the value. |
| BTreeInsert.InsertOwned | trees/btree.hh:88-90 | Inserting a key the node owns overwrites its value in place. |
| BTreeInsert.InsertLeaf | trees/btree.hh:91-94 | A leaf that does not own the key puts it at the position ownsKey gives. |
| BTreeInsert.InsertBelow | trees/btree.hh:95-100 | The insertion handed to the child, followed by a split of that child when it is full, puts the key into the parent's walk. |
| BTreeInsert.SplitIndex | trees/btree.hh:152-157 | A full child's middle key falls back to that child's own position in the parent. |
| BTreeDelete.EraseEntry | trees/btree.hh:216-219 | Erasing entry i of a leaf removes exactly that entry. |
| BTreeDelete.EraseSpec | trees/btree.hh:214-219 | When the leaf holds more than the minimum, erasing its entry removes the key from the parent's walk and keeps the tree ordered. |
| BTreeDelete.AttemptKeyBorrowing | trees/btree.hh:230-265 | A sibling is used exactly when the left one (otherwise the right one) holds more than the minimum number of keys. |
| BTreeDelete.BorrowLeftSpec | trees/btree.hh:233-246 | Borrowing through the parent from the left sibling removes the key from the walk and keeps the tree ordered. |
| BTreeDelete.BorrowRightSpec | trees/btree.hh:250-263 | Borrowing from the right sibling does the same. |
| BTreeDelete.MergeSpec | trees/btree.hh:267-326 | Merging the leaf with a sibling and the key between them removes the key from the walk and keeps the tree ordered. |
| BTreeDelete.TombstoneSpec | trees/btree.hh:224-227 | When no key can be spared, the value is cleared in place and the tombstone count grows by one exactly when a value was present. |
| BTreeDelete.DeleteFromLeafChild | trees/btree.hh:214-228 | deleteFromLeafChild removes the key from the walk by erasing, borrowing, merging or a tombstone, and keeps the tree shaped and ordered. |
| BTreeDelete.DeleteFromInternalChild | trees/btree.hh:328-333 | A key an inner child owns becomes a tombstone there. |
| BTreeDelete.DeleteFromChild | trees/btree.hh:202-205 | deleteFromChild removes the key from the walk in both the leaf and the inner case. |
| BTreeDelete.DeleteIn | trees/btree.hh:111-118 | deleteKey removes the key from the walk; a key the subtree does not hold leaves it untouched. |
| BTreeDelete.MissingBelow | trees/btree.hh:117 | A leaf that does not own the key ends the search, and the key is nowhere in the parent's walk. |
| BTreeDelete.SortedSame | trees/btree.hh:111-118 | Every outcome a deletion allows keeps the walk sorted. |
| BTreeMap.LiveFind | trees/btree.hh:365-371 | A key has a value in the map exactly when a lookup in the walk finds one. |
| BTreeMap.SplitRootSpec | trees/btree.hh:412-420 | A full root placed under a new root and split grows the tree by one level and keeps the walk. |
| BTreeMap.GrowRoot | trees/btree.hh:412-420 | The new root is shaped one level higher, holds fewer than B keys and has the old root's walk. |
| BTreeMap.RootTombstone | trees/btree.hh:422-427 | Clearing the root's own value clears the key in the walk and keeps the tree ordered. |
| BTreeMap.RemovedAbsent | trees/btree.hh:111-118 | Deleting a key the tree does not hold changes nothing. |
| BTreeMap.RemovedLive | trees/btree.hh:377-379 | After a deletion the key has no value and every other key keeps its value. |
| BTreeMap.RemovedKept | trees/btree.hh:224-227 | The tombstone count grows exactly when the key had a value and stays stored. |
| BTreeMap.BTree.constructor | trees/btree.hh:363 | A new tree is empty and has no tombstones. |
| BTreeMap.BTree.Contains | trees/btree.hh:365-367 | contains(key) holds exactly when the key has a value. |
| BTreeMap.BTree.Value | trees/btree.hh:369-371 | value(key) is the key's value, or empty when it has none. |
| BTreeMap.BTree.Tombstones | trees/btree.hh:407-409 | tombstones() returns the count of cleared values. |
| BTreeMap.BTree.Insert | trees/btree.hh:373-375 | insert sets the key's value in the map, adds the key to the stored keys and keeps the tree valid. |
| BTreeMap.BTree.SplitRoot | trees/btree.hh:412-420 | splitRoot makes the tree one level taller and keeps the walk. |
| BTreeMap.BTree.DeleteKey | trees/btree.hh:377-379 | deleteKey removes the key from the map, keeps the tree valid and never lowers the tombstone count. |
| BTreeMap.BTree.DeleteFromRoot | trees/btree.hh:422-427 | A key the root owns becomes a tombstone, counted exactly when a value was present. |
| BTreeMap.TestBasic | trees/btree_test.cc:16-32 | After the five insertions, value(4) is 104, 8 is contained and 6 is not. |
| BTreeMap.BasicTree | trees/btree_test.cc:16-32 | The five insertions give the map {1:101, 5:105, 8:108, 4:104, 7:107}. |
| BTreeMap.TestDoubleSplit | trees/btree_test.cc:34-78 | After ten insertions that split twice, every key is contained with value key + 100. |
| BTreeMap.DoubleSplitTree | trees/btree_test.cc:34-78 | Inserting key + 100 for each key leaves every key in the map with that value. |
| BTreeMap.LookUpAll | trees/btree_test.cc:34-78 | Looking up each inserted key finds it, with value key + 100. |
| UnionFindForest.FindRank | graphs/union_find/union_find.py:16-20 | Following parents ends at a root, and ranks rise strictly along the way, so representative() terminates. |
| UnionFindForest.Singletons | graphs/union_find/union_find.py:11-14 | n nodes that are their own parents form n singleton components of size 1. |
| UnionFindForest.Compress | graphs/union_find/union_find.py:19 | Pointing a node straight at its root keeps a well-formed forest and every node's representative. |
| UnionFindForest.CompressSizes | graphs/union_find/union_find.py:19 | Path compression keeps every recorded component size correct. |
| UnionFindForest.Link | graphs/union_find/union_find.py:35 | Hanging one root under another keeps a well-formed forest. |
| UnionFindForest.LinkReps | graphs/union_find/union_find.py:35 | Linking root a under b gives every node of a's component the representative b and changes no other node's. |
| UnionFindForest.LinkMembers | graphs/union_find/union_find.py:35 | The merged component holds exactly the members of the two old ones, which were disjoint. |
| UnionFindForest.LinkSizes | graphs/union_find/union_find.py:35-36 | Adding the smaller root's size to the larger root's keeps every recorded size equal to its component's node count. |
| UnionFindForest.MergeJoins | graphs/union_find/union_find.py:28-36 | After a merge, two nodes share a representative exactly when they did before or each was in one of the merged components. |
| UnionFindForest.RootsListed | graphs/union_find/union_find.py:39-40 | The filter over range(n) lists every root once, in increasing order. |
| UnionFindForest.RootSizesAre | graphs/union_find/union_find.py:38-40 | Each listed size is the node count of that root's component, which is positive. |
| UnionFindForest.RootIsOwnRep | graphs/union_find/union_find.py:22-23 | is_repr(u) holds exactly when u is its own representative. |
| UnionFindForest.SizesTotal | graphs/union_find/union_find.py:38-40 | The component sizes add up to the number of nodes. |
| UnionFindForest.ComponentsPartition | graphs/union_find/union_find.py:42-53 | Every node lies in exactly one component list. |
| UnionFindForest.TakeSnapshot | graphs/union_find/union_find.py:48-50 | reprs lists the roots in increasing order and r2i maps each root to its position there. |
| UnionFindForest.ComponentMembers | graphs/union_find/union_find.py:51-52 | A component list holds exactly the nodes with that representative, in increasing order. |
| UnionFindPy.UnionFind.constructor | graphs/union_find/union_find.py:11-14 | Every node starts as its own parent with size 1. |
| UnionFindPy.UnionFind.Representative | graphs/union_find/union_find.py:16-20 | representative(u) returns u's root, points u straight at it and changes no node's representative. |
| UnionFindPy.UnionFind.Connected | graphs/union_find/union_find.py:25-26 | connected(u, v) holds exactly when u and v have the same representative. |
| UnionFindPy.UnionFind.AddEdge | graphs/union_find/union_find.py:28-36 | add_edge joins the components of u and v and nothing else, merging the smaller into the larger; joined nodes change nothing. |
| UnionFindPy.UnionFind.ComponentSizes | graphs/union_find/union_find.py:38-40 | One size per component, each its node count, together n. |
| UnionFindPy.UnionFind.ConnectedComponents | graphs/union_find/union_find.py:42-53 | One list per root in increasing root order, each holding its component's nodes in increasing order; representatives are unchanged. |
| UnionFindPy.UnionFind.Empties | graphs/union_find/union_find.py:50 | One empty list per representative. |
| UnionFindPy.UnionFind.AppendNode | graphs/union_find/union_find.py:51-52 | Appending u to the list of its representative's position keeps every list equal to its component so far. |
| UnionFind.UnionFind.constructor | graphs/union_find/union_find.hh:7-14 | Every node starts as its own parent with size 1. |
| UnionFind.UnionFind.Repr | graphs/union_find/union_find.hh:16-19 | repr(u) returns u's root, points u straight at it and changes no node's representative. |
| UnionFind.UnionFind.AddEdge | graphs/union_find/union_find.hh:21-34 | addEdge joins the components of u and v, hanging the smaller root under the larger; on a tie u's root stays the root. |
| UnionFind.UnionFind.ComponentSizes | graphs/union_find/union_find.hh:36-44 | One size per root in increasing node order, each its component's node count, together the number of nodes. |
| Combinations.IdxMember | low_level/bits/combination_iterator.hh:71-79 | A position is listed for the mask exactly when its bit is set. |
| Combinations.IdxCombo | low_level/bits/combination_iterator.hh:71-79 | The listed positions strictly increase, so they form a combination. |
| Combinations.SuccGreater | low_level/bits/combination_iterator.hh:5-29 | The successor of a combination is a combination of the same size and lexicographically greater. |
| Combinations.SuccImmediate | low_level/bits/combination_iterator.hh:5-29 | No combination of the same size lies strictly between a combination and its successor. |
| Combinations.FirstIsLeast | low_level/bits/combination_iterator.hh:50-53 | Positions 0 .. k-1, the first combination, are the least one. |
| Combinations.LastIsGreatest | low_level/bits/combination_iterator.hh:44-46 | Positions n-k .. n-1, where hasNext() stops, are the greatest one. |
| Combinations.PickOrder | low_level/bits/combination_iterator.hh:71-79 | Over distinct increasing characters, a greater combination of positions gives a lexicographically greater string. |
| Combinations.PivotLastFree | low_level/bits/combination_iterator.hh:55-65 | The highest bit that can move up is the last position of the combination that can still grow. |
| Combinations.ShiftedIndices | low_level/bits/combination_iterator.hh:66-68 | The new mask keeps the bits below the pivot and sets count bits just above it. |
| Combinations.AdvanceSucc | low_level/bits/combination_iterator.hh:49-69 | One updateState() step turns the mask's combination into its lexicographic successor. |
| Combinations.NoPivotIsTop | low_level/bits/combination_iterator.hh:44-46 | A mask with k set bits has no movable bit exactly when it is the top k bits. |
| Combinations.HasNextIff | low_level/bits/combination_iterator.hh:44-46 | hasNext() holds exactly when the current combination has a successor. |
| Combinations.AdvanceFirst | low_level/bits/combination_iterator.hh:50-53 | The first next() yields the first k characters of the string. |
| Combinations.AdvanceOnes | low_level/bits/combination_iterator.hh:49-69 | After every next() exactly k bits are set. |
| Combinations.CombinationIterator.constructor | low_level/bits/combination_iterator.hh:32-37 | The iterator starts with the string, its length, k and an empty mask. |
| Combinations.CombinationIterator.Next | low_level/bits/combination_iterator.hh:39-42 | next() advances the mask to the successor combination and returns its characters. |
| Combinations.CombinationIterator.UpdateState | low_level/bits/combination_iterator.hh:49-69 | updateState() sets the k low bits on the first call and otherwise moves the pivot up with the bits above it packed just over it. |
| Combinations.CombinationIterator.ToString | low_level/bits/combination_iterator.hh:71-79 | toString() returns the characters at the set bits in index order. |
| BitManipulator.AndPow2 | low_level/bits/bit_manipulator.hh:24 | l & (1 << b) is 2^b when bit b of l is set, and 0 otherwise. |
| BitManipulator.AndLowMask | low_level/bits/bit_manipulator.hh:24 | l & ((1 << b) - 1) is l mod 2^b. |
| BitManipulator.OrHigh | low_level/bits/bit_manipulator.hh:25 | Or-ing 1 << b into x adds 2^b when bit b of x is clear. |
| BitManipulator.RangeAndBit | low_level/bits/bit_manipulator.hh:9-20 | Bit b of the AND over [l, r] is set exactly when every number in the range has it. |
| BitManipulator.RangeCriterion | low_level/bits/bit_manipulator.hh:15-20 | Every number in [l, r] has bit b exactly when l has it and l's low bits plus r - l do not carry into bit b. |
| BitManipulator.LoopTest | low_level/bits/bit_manipulator.hh:24 | The loop's test on bit b is that no-carry criterion. |
| BitManipulator.Pow2Word31 | low_level/bits/bit_manipulator.hh:23 | Stopping at bit 31 loses nothing for 32-bit non-negative inputs. |
| BitManipulator.RangeBitwiseAnd | low_level/bits/bit_manipulator.hh:21-29 | rangeBitwiseAnd(l, r) is the bitwise AND of every number in [l, r]. |
| BitManipulator.XorTwice | low_level/bits/bit_manipulator.hh:31-44 | Xor with x is its own inverse. |
| BitManipulator.CountPermuted | low_level/bits/bit_manipulator.hh:31-44 | a ^ x maps the a below 2^k with a ^ x > x one to one onto (x, 2^k), so there are 2^k - 1 - x of them. |
| BitManipulator.GreatSetIs | low_level/bits/bit_manipulator.hh:31-44 | Every a below 2^k with a ^ x > x lies in [1, x - 1]. |
| BitManipulator.GreatCount | low_level/bits/bit_manipulator.hh:31-44 | The number of a in [1, x - 1] with a ^ x > x is 2^k - 1 - x, where 2^k is the first power of two above x. |
| BitManipulator.TheGreatXor | low_level/bits/bit_manipulator.hh:45-53 | theGreatXor(x) is the number of a in [1, x - 1] with a ^ x > x. |
| BitManipulator.RangeAndTests | low_level/bits/bit_manipulator_test.cc:7-13 | The AND over [5, 7] is 4, over [0, 0] is 0 and over [1, 2147483647] is 0. |
| BitManipulator.GreatXorTest | low_level/bits/bit_manipulator_test.cc:15-20 | For x = 100 the count is 27. |
| PrimeSieve.CountIsCardinality | number_theory/prime_sieve.hh:50 | The running count at k is the number of primes up to k. |
| PrimeSieve.CountMonotone | number_theory/prime_sieve.hh:41-46 | The prime count never falls and grows by at most one per step. |
| PrimeSieve.CompositeStep | number_theory/prime_sieve.hh:32 | Skipping a composite i loses nothing: its multiples were already crossed out. |
| PrimeSieve.PrimeSieve.constructor | number_theory/prime_sieve.hh:11-14 | After construction both tables are right for every index in 0..n. |
| PrimeSieve.PrimeSieve.PopulateIsPrime | number_theory/prime_sieve.hh:27-38 | After the sieve, isPrime_[p] holds exactly when p is prime, for every p in 0..n. |
| PrimeSieve.PrimeSieve.CrossOutMultiples | number_theory/prime_sieve.hh:34-36 | The inner loop clears exactly the proper multiples of i up to n and changes nothing else. |
| PrimeSieve.PrimeSieve.PopulateNumPrimes | number_theory/prime_sieve.hh:41-46 | numPrimes_[k] is the number of primes in [0, k] for every k in 0..n. |
| PrimeSieve.PrimeSieve.IsPrimeAt | number_theory/prime_sieve.hh:16-19 | isPrime(p) fails exactly when p is outside [0, n], and otherwise says whether p is prime. |
| PrimeSieve.PrimeSieve.NumPrimesAtMost | number_theory/prime_sieve.hh:21-23 | numPrimesAtMost(k) is the number of primes up to k. |
| LongestUploadedPrefix.RunFromCovers | dp_and_recursion/longest_uploaded_prefix.hh:13-14 | The scan from a slot covers uploaded slots only and stops at the first missing one. |
| LongestUploadedPrefix.PrefixRunIsLongest | dp_and_recursion/longest_uploaded_prefix.hh:18-20 | The prefix run is the largest k such that videos 1..k are all uploaded. |
| LongestUploadedPrefix.UploadEffect | dp_and_recursion/longest_uploaded_prefix.hh:10-16 | An upload never shortens the prefix, and changes it only when the video is the one just after it. |
| LongestUploadedPrefix.LUPrefix.constructor | dp_and_recursion/longest_uploaded_prefix.hh:5-8 | Only the sentinel slot 0 is marked, and the prefix is 0. |
| LongestUploadedPrefix.LUPrefix.Upload | dp_and_recursion/longest_uploaded_prefix.hh:10-16 | upload marks the video, and lup becomes the longest uploaded prefix. |
| LongestUploadedPrefix.LUPrefix.Longest | dp_and_recursion/longest_uploaded_prefix.hh:18-20 | longest() is the largest k such that videos 1..k are all uploaded. |
| LongestUploadedPrefixPy.LUPrefix.constructor | dp_and_recursion/longest_uploaded_prefix.py:11-13 | [True] followed by n + 1 Falses, and lup 0. |
| LongestUploadedPrefixPy.LUPrefix.Upload | dp_and_recursion/longest_uploaded_prefix.py:15-19 | upload marks the video and keeps lup the longest uploaded prefix; lup moves only when the video is lup + 1. |
| LongestUploadedPrefixPy.LUPrefix.Longest | dp_and_recursion/longest_uploaded_prefix.py:21-22 | longest() is the largest k such that videos 1..k are all uploaded. |
| GrayCode.Evens | graphs/gray_code.py:20 | part0 is the previous code with every value doubled. |
| GrayCode.OddsReversed | graphs/gray_code.py:21 | part1 is the previous code reversed, every value doubled plus one. |
| GrayCode.GrayCode | graphs/gray_code.py:16-22 | The n-bit code has 2^n values below 2^n and starts at 0. |
| GrayCode.StitchEntry | graphs/gray_code.py:20-22 | Entry i of part0 + part1 is prev[i] doubled in the first half and the mirrored prev entry doubled plus one in the second. |
| GrayCode.StitchStep | graphs/gray_code.py:10-13 | Neighbours inside each half, and the two entries at the middle seam, are one bit apart. |
| GrayCode.StitchCyclic | graphs/gray_code.py:11-13 | part0 + part1 keeps neighbours one bit apart, including the wrap-around pair. |
| GrayCode.GrayAdjacent | graphs/gray_code.py:1-14 | Consecutive values of the code, and its last and first, differ in exactly one bit. |
| GrayCode.GrayDistinct | graphs/gray_code.py:1-14 | No value appears twice. |
| GrayCode.StitchCovers | graphs/gray_code.py:20-22 | x appears in part0 + part1 whenever x // 2 appears in the previous code. |
| GrayCode.GrayCovers | graphs/gray_code.py:1-14 | Every value below 2^n appears. |
| GrayCode.GrayPermutation | graphs/gray_code.py:1-14 | The code is a permutation of 0 .. 2^n - 1 that starts at 0. |
| DivisibilityArray.ModStep | misc/divisibility_array.py:24 | Keeping only the remainder of the running value gives the remainder of the full prefix value. |
| DivisibilityArray.DivisibilityArray | misc/divisibility_array.py:19-27 | One entry per digit; entry i is 1 exactly when the number spelled by the first i + 1 digits is divisible by m. |
| DivisibilityArray.DivisibilityEntries | misc/divisibility_array.py:9-14 | Each entry is 0 or 1, and is 1 exactly when m divides the prefix's value. |
| Zigzag.RowOf | strings/zigzag.py:15-22 | Every character lands on a row in [0, num_rows). |
| Zigzag.Bounce | strings/zigzag.py:19-22 | The walk goes down to the last row, turns, goes up to row 0 and turns again. |
| Zigzag.RowCharsStep | strings/zigzag.py:17-18 | Writing one more character appends it to its own row and to no other. |
| Zigzag.Convert | strings/zigzag.py:10-23 | convert. No contract of its own: `ConvertLoop` proves the source's walk computes it, `ConvertPermutation` that it rearranges s, and `RowPositionsOrdered` that each row keeps s's order. |
| Zigzag.ConvertLoop | strings/zigzag.py:10-23 | convert: the row lists filled by the curr_row and curr_dir walk, joined top to bottom. |
| Zigzag.RowsStep | strings/zigzag.py:17-18 | Each character read is appended to the row the zigzag is on, and every other row is unchanged. |
| Zigzag.RowsPermutation | strings/zigzag.py:14-22 | The rows written so far hold exactly the characters written so far. |
| Zigzag.ConvertPermutation | strings/zigzag.py:10-23 | convert returns a rearrangement of s, returns s itself for one row, and fails only for fewer than one row with a non-empty s. |
| Zigzag.RowPositionsOrdered | strings/zigzag.py:17-18 | Each row keeps its characters in the order they appear in s. |
| MergeSort.MergeSort | sorting/merge_sort.py:3-16 | merge_sort. No contract of its own: `MergeSortCorrect` proves the result a sorted, stable permutation of the input, and `StableSortUnique` that it is the only such list. |
| MergeSort.Merge | sorting/merge_sort.py:18-32 | merge: the two-index loop and the leftovers build the merge of the two lists. |
| MergeSort.MergedPermutation | sorting/merge_sort.py:18-32 | The merge neither loses nor invents elements. |
| MergeSort.MergedSorted | sorting/merge_sort.py:18-32 | Merging two sorted lists gives a sorted list of their combined length. |
| MergeSort.MergedStable | sorting/merge_sort.py:24 | On ties the left element goes first, so the elements with each key keep their order. |
| MergeSort.MergeSortCorrect | sorting/merge_sort.py:3-16 | merge_sort returns a sorted, stable permutation of its input; a list of at most one element comes back as is. |
| MergeSort.StableSortUnique | sorting/merge_sort.py:3-16 | Two sorted lists whose elements with each key appear in the same order are equal. |
| CountInversions.InversionsSplit | sorting/count_inversions.py:17-20 | The inversions of l + r are those inside l, those inside r and the pairs crossing from l to r. |
| CountInversions.CrossingPermutationLeft | sorting/count_inversions.py:17-19 | Sorting the left half keeps the number of crossing pairs. |
| CountInversions.CrossingPermutationRight | sorting/count_inversions.py:17-19 | Sorting the right half keeps it too. |
| CountInversions.TakeLeft | sorting/count_inversions.py:31-35 | Taking a left value while right_idx right values are already out adds right_idx crossing pairs. |
| CountInversions.RemainingLeft | sorting/count_inversions.py:40-41 | Each left value still waiting forms a crossing pair with every right value. |
| CountInversions.CountMerge | sorting/count_inversions.py:22-45 | count_merge returns the merge of its inputs and, for sorted inputs, the number of pairs crossing from left to right. |
| CountInversions.CountInversionsWrapper | sorting/count_inversions.py:6-20 | count_inversions_wrapper. No contract of its own: `WrapperSorts` proves its first result is merge_sort's and `WrapperCounts` that its second is the number of inversions. |
| CountInversions.WrapperSorts | sorting/count_inversions.py:6-20 | The wrapper's first result is the input sorted, as merge_sort gives it. |
| CountInversions.WrapperCounts | sorting/count_inversions.py:6-20 | The wrapper's second result is the number of inversions of the input. |
| CountInversions.CountInversions | sorting/count_inversions.py:3-4 | count_inversions is the number of pairs i < j with arr[i] > arr[j]; a list of at most one element has none. |
| NextPermutation.PivotFrom | combinatorics/next_permutation.py:35-37 | The scan stops at the last ascent, and everything after it is non-increasing. |
| NextPermutation.NextPermutation | combinatorics/next_permutation.py:29-49 | The list is rearranged in place: reversed when it is non-increasing, otherwise the pivot takes the smallest larger value of the tail and the tail is sorted; an empty list raises. |
| NextPermutation.ReverseInPlace | combinatorics/next_permutation.py:41 | nums.reverse() reverses the list in place. |
| NextPermutation.SwapAndSortTail | combinatorics/next_permutation.py:47-48 | The swap, then the tail replaced by its sorted copy. |
| NextPermutation.FindPivot | combinatorics/next_permutation.py:35-37 | idx is one past the last ascent, or 0 when there is none. |
| NextPermutation.FindSwap | combinatorics/next_permutation.py:45-46 | pos is the last position whose value is above the pivot's. |
| NextPermutation.MinimalAbove | combinatorics/next_permutation.py:44-46 | In the non-increasing tail, that value is the smallest one above the pivot's. |
| NextPermutation.NextIsGreater | combinatorics/next_permutation.py:4-7 | The result is lexicographically greater than the input. |
| NextPermutation.NextIsImmediate | combinatorics/next_permutation.py:4-7 | No arrangement of the same values lies strictly between the input and the result. |
| NextPermutation.SortedIsSmallest | combinatorics/next_permutation.py:7 | A sorted list is the smallest arrangement of its values. |
| NextPermutation.NonIncreasingIsLargest | combinatorics/next_permutation.py:7 | A non-increasing list is the largest arrangement of its values. |
| NextPermutation.WrapIsSmallest | combinatorics/next_permutation.py:39-42 | With no ascent the input is the largest arrangement and its reversal the smallest. |
| RadixSort.BucketMembers | sorting/radix_sort.py:15-18 | Bucket b holds only input strings whose key at pos is b. |
| RadixSort.AboveSplit | sorting/radix_sort.py:15-18 | The buckets from b on hold bucket b and the buckets above it, with nothing lost. |
| RadixSort.BucketShrinks | sorting/radix_sort.py:20-22 | A non-empty bucket above 0 holds strings longer than pos, so the recursion ends. |
| RadixSort.Wrapper | sorting/radix_sort.py:9-25 | radix_sort_wrapper. No contract of its own: `WrapperSorted` proves that on strings agreeing before pos it returns them sorted and permuted, or fails on a wide character. |
| RadixSort.RadixSort | sorting/radix_sort.py:6-7 | radix_sort. No contract of its own: `RadixSortCorrect` proves the result a sorted permutation, failing only on a character code of 256 or more. |
| RadixSort.WrapperSorted | sorting/radix_sort.py:9-25 | radix_sort_wrapper on strings that agree before pos returns them sorted and permuted, or fails on a wide character. |
| RadixSort.SortBucketsJoin | sorting/radix_sort.py:21-25 | Bucket i sorted, followed by the sorted higher buckets, is sorted. |
| RadixSort.BucketThenRest | sorting/radix_sort.py:21-25 | Every string of bucket i comes before every string of a higher bucket. |
| RadixSort.RadixSortCorrect | sorting/radix_sort.py:6-7 | radix_sort returns a lexicographically sorted permutation of its input and fails only on a character code of 256 or more. |
| RadixSort.Distribute | sorting/radix_sort.py:32-35 | Each string goes to the bucket of its key at position i, in input order; a character code of 256 or more fails. |
| RadixSort.Concat | sorting/radix_sort.py:36 | reduce(lambda x, y: x + y, buckets) is the concatenation of the buckets. |
| RadixSort.PassSorted | sorting/radix_sort.py:32-36 | One pass at position i sorts by the characters from i on, keeping the order from the previous pass on ties. |
| RadixSort.Pass | sorting/radix_sort.py:32-36 | The loop body: the buckets, concatenated, sorted from position i on. |
| RadixSort.RadixSortIterative | sorting/radix_sort.py:27-37 | radix_sort_iterative fails exactly on a wide character; otherwise it returns the same sorted permutation as radix_sort. |
| RadixSort.IterativeDone | sorting/radix_sort.py:27-37 | After the pass at position 0 the list is sorted and equals radix_sort's result. |
| RadixSort.BucketIsBit | sorting/radix_sort.py:46 | (val & (1 << i)) >> i is bit i of val, 0 or 1, negative values included. |
| RadixSort.DistributeBit | sorting/radix_sort.py:44-47 | The two buckets hold the values with bit i clear and with it set, each in input order. |
| RadixSort.PassBitSorted | sorting/radix_sort.py:48 | After pass i the list is sorted by its low i + 1 bits. |
| RadixSort.PassBitStable | sorting/radix_sort.py:48 | Pass i keeps the input order among values with the same low i + 1 bits. |
| RadixSort.RadixSortInt32 | sorting/radix_sort.py:39-49 | radix_sort_int32 is the stable sort by the low 32 bits, and values in [0, 2^32) come out ascending. |
| RadixSort.Int32Ascending | sorting/radix_sort.py:39-49 | Sorted by the low 32 bits is ascending for values in [0, 2^32). |
| Serdes.Serialize | trees/serdes.py:22-31 | serialize. No contract of its own: `SplitSerialize` proves that its text splits into the preorder tokens with 1001 for a missing child, and `RoundTrip` that deserialize inverts it. |
| Serdes.Deserialize | trees/serdes.py:34-41 | deserialize. No contract of its own: `DsrTokens` proves that dsr_wrap reads a tree's tokens back, `RoundTrip` that it inverts serialize on trees without 1001, and `NullValueLost` that a 1001 node is read back as missing. |
| Serdes.DsrWrap | trees/serdes.py:43-52 | A successful read starting at token idx ends past idx and within the tokens. |
| Serdes.ParseIntStr | trees/serdes.py:29-44 | A value written with str() holds no space and int() reads it back. |
| Serdes.SplitSerialize | trees/serdes.py:22-40 | Splitting the serialized text at spaces gives the preorder tokens. |
| Serdes.DsrTokens | trees/serdes.py:43-52 | dsr_wrap at the start of a tree's tokens reads that tree and stops just past them. |
| Serdes.RoundTrip | trees/serdes.py:21-52 | deserialize(serialize(t)) is t for every tree that does not hold the value 1001. |
| Serdes.EmptyTree | trees/serdes.py:31 | The empty tree is written as "1001 " and read back as empty. |
| Serdes.NullValueLost | trees/serdes.py:19 | A node holding 1001 reads back as an empty tree, so that value must be excluded. |
| SimplifyPath.Simplified | strings/simplify_path.py:14-23 | simplify_path. No contract of its own: `Simplify` proves that it starts with '/', `SimplifiedClean` that no empty, "." or ".." part remains, `SimplifyIdempotent` that it is a fixed point, and `ParentCancels` and `ParentOfRoot` give the rules for "..". |
| SimplifyPath.Simplify | strings/simplify_path.py:14-23 | simplify_path returns the canonical path, which starts with '/'. |
| SimplifyPath.WalkOfClean | strings/simplify_path.py:17-22 | Names other than "", "." and ".." are pushed unchanged. |
| SimplifyPath.SimplifiedClean | strings/simplify_path.py:17-22 | The result holds no empty, "." or ".." component. |
| SimplifyPath.SimplifyIdempotent | strings/simplify_path.py:2-4 | A canonical path is its own canonical form. |
| SimplifyPath.ParentCancels | strings/simplify_path.py:11 | Entering a directory and leaving it with ".." changes nothing. |
| SimplifyPath.ParentOfRoot | strings/simplify_path.py:19-20 | ".." at the root stays at the root. |
| DecodeString.PopToOpen | parsing/decode_string.py:20-27 | The first inner loop pops back to the most recent '[', collecting the text after it. |
| DecodeString.PopCount | parsing/decode_string.py:29-38 | The second inner loop pops the run of digits just before the '['. |
| DecodeString.CloseGroup | parsing/decode_string.py:19-41 | A ']' replaces the count, '[' and text on the stack by the text repeated count times, or fails. |
| DecodeString.Decode | parsing/decode_string.py:11-42 | decode_string. No contract of its own: `DecodeStringLoop` proves the source's loop computes it, `DecodeEncode` that it inverts encoding, and `NoBrackets`, `UnmatchedClose` and `MissingCount` give its plain and failing cases. |
| DecodeString.DecodeStringLoop | parsing/decode_string.py:11-42 | The loop over s computes the decoding of s, failing where Python raises. |
| DecodeString.NoBrackets | parsing/decode_string.py:16-17 | A string without ']' comes back unchanged. |
| DecodeString.UnmatchedClose | parsing/decode_string.py:21-22 | A ']' with no '[' before it fails (pop from an empty list). |
| DecodeString.MissingCount | parsing/decode_string.py:39 | A '[' with no digits before it fails when closed (int of an empty string). |
| DecodeString.CloseGroupOf | parsing/decode_string.py:19-41 | Closing count '[' text gives the text repeated count times. |
| DecodeString.ExpandPlain | parsing/decode_string.py:1-8 | The expansion of well-formed input holds only plain characters. |
| DecodeString.DecodeEncode | parsing/decode_string.py:1-8 | Decoding the text of nested groups yields their expansion. |
| Decimal.DigitChar | trees/serdes.py:29 | The character of a digit value is a digit with that value. |
| Decimal.Digits | trees/serdes.py:29 | str(n) is a non-empty string of digits. |
| Decimal.ValueOfDigits | trees/serdes.py:29-44 | int(str(n)) is n. |
| Decimal.DigitsLead | trees/serdes.py:29 | str(n) has no leading zero unless n is 0. |
| Decimal.DigitRunEnd | parsing/valid_abbr.py:28-31 | The run of digits from i ends at the first non-digit or at the end. |
| Decimal.DigitsOfValue | parsing/valid_abbr.py:32 | A numeral without a leading zero is str() of its value. |
| ValidAbbr.ScanDigits | parsing/valid_abbr.py:28-31 | The while loop stops on the last digit of the run. |
| ValidAbbr.CheckFrom | parsing/valid_abbr.py:15-34 | check(w_pos, a_pos), as the source recurses. |
| ValidAbbr.ValidWordAbbreviation | parsing/valid_abbr.py:8-13 | validWordAbbreviation is check(0, 0). |
| ValidAbbr.Sound | parsing/valid_abbr.py:15-34 | When check succeeds, abbr splits into letters and numbers without leading zeros that fit word exactly. |
| ValidAbbr.Complete | parsing/valid_abbr.py:15-34 | When abbr splits into such pieces that fit word, check succeeds. |
| ValidAbbr.CheckLetter | parsing/valid_abbr.py:20-22 | A letter that matches the word lets check go on one position further in both strings. |
| ValidAbbr.CheckCount | parsing/valid_abbr.py:24-34 | A count without a leading zero lets check skip that many characters of word and go on after the count's digits. |
| ValidAbbr.SkipToken | parsing/valid_abbr.py:28-32 | A count written in decimal and followed by a letter or the end is read back by the digit loop as the same number. |
| ValidAbbr.ValidIff | parsing/valid_abbr.py:8-34 | abbr is accepted exactly when it is word with some runs of characters replaced by their counts, written without leading zeros. |
| StringCompressor.RunLenGroup | parsing/string_compressor.hh:10-13 | A group is a maximal run of equal characters. |
| StringCompressor.EncodeShort | parsing/string_compressor.hh:14-18 | The compressed text is never longer than the input. |
| StringCompressor.WritePiece | parsing/string_compressor.hh:56-62 | Writing a group puts the character and, above 1, the length's digits at writePos and leaves the rest. |
| StringCompressor.GroupDone | parsing/string_compressor.hh:53-64 | A finished group extends the compressed prefix by its piece. |
| StringCompressor.EmitGroup | parsing/string_compressor.hh:55-64 | The write never overtakes the read, so unread characters stay intact. |
| StringCompressor.WriteText | parsing/string_compressor.hh:59-61 | The digits of the length are copied behind the character, and nothing after them changes. |
| StringCompressor.ScanGrows | parsing/string_compressor.hh:53-54 | A repeated character lengthens the current group and keeps the loop state. |
| StringCompressor.ScanFlush | parsing/string_compressor.hh:55-64 | A different character or the end writes the finished group, and the character read starts the next group. |
| StringCompressor.ScanStep | parsing/string_compressor.hh:50-65 | One turn of the loop keeps the compressed prefix and the unread rest, and reads one character further or stops. |
| StringCompressor.Encode | parsing/string_compressor.hh:41-67 | The text compress writes. No contract of its own: `ExpandEncode` proves that expanding it gives the input back, `EncodeShort` that it is never longer, and `Compress` that the array method writes it. |
| StringCompressor.Compress | parsing/string_compressor.hh:41-67 | compress writes the compressed text at the front of chars and returns its length. |
| StringCompressor.ExpandEncode | parsing/string_compressor.hh:10-13 | Expanding each character by its count gives the input back. |
| StringCompressor.Example | parsing/string_compressor_test.cc:11-16 | "aaabbbbcdde" compresses to "a3b4cd2e". |
| BasicCalculator.SymbolToken | parsing/basic_calculator.hh:20-24 | A symbol character becomes a non-number token. |
| BasicCalculator.StripAt | parsing/basic_calculator.hh:66-68 | Spaces are skipped and every other character is kept in order. |
| BasicCalculator.LexNumSym | parsing/basic_calculator.hh:69-76 | A run of digits ended by a symbol gives one number token with the run's value, then the symbol's token. |
| BasicCalculator.LexNum | parsing/basic_calculator.hh:83 | A final run of digits gives one number token. |
| BasicCalculator.Tokenize | parsing/basic_calculator.hh:63-85 | tokenize(s) is the token sequence of s: numbers read whole, symbols one by one, spaces dropped. |
| BasicCalculator.LexSymbols | parsing/basic_calculator.hh:63-85 | The symbols of the tokens are the symbols of s, in order. |
| BasicCalculator.LexMaximal | parsing/basic_calculator.hh:71-75 | Two number tokens are never adjacent: each number is read whole. |
| BasicCalculator.EvalIsSignedSum | parsing/basic_calculator.hh:132-145 | evaluate sums the numbers, each with the sign of the last + or - before it. |
| BasicCalculator.StepWellFormed | parsing/basic_calculator.hh:149-157 | Every push keeps the stack free of ) and open_parens_ listing exactly the positions of the ( on it. |
| BasicCalculator.GroupReduces | parsing/basic_calculator.hh:118-124 | Pushing ( inner ) leaves a single number on the stack: the value of inner. |
| BasicCalculator.ParenFreeValue | parsing/basic_calculator.hh:110-112 | For tokens without parentheses calculate gives their signed sum. |
| BasicCalculator.GroupRewrite | parsing/basic_calculator.hh:118-124 | Replacing an innermost group by its value changes neither the parse nor the result. |
| BasicCalculator.InnermostGroup | parsing/basic_calculator.hh:118-124 | A balanced token sequence with a parenthesis has an innermost group. |
| BasicCalculator.EvalSwap | parsing/basic_calculator.hh:47-57 | In the grammar, a parenthesised group has the value of its contents. |
| BasicCalculator.TokensValueIsEval | parsing/basic_calculator.hh:49-57 | The stack parser computes the grammar's value of every balanced expression. |
| BasicCalculator.Calculation | parsing/basic_calculator.hh:49-57 | calculate. No contract of its own: `CalculationIsEval` proves it equal to the grammar evaluator `EvalExpr` on balanced input, and `Calculate` that the stack parser returns it. |
| BasicCalculator.CalculationIsEval | parsing/basic_calculator.hh:49-57 | calculate(s) is the value of s in the grammar of +, - and parentheses. |
| BasicCalculator.StackParser.constructor | parsing/basic_calculator.hh:154-157 | A parser starts with both stacks empty. |
| BasicCalculator.StackParser.Push | parsing/basic_calculator.hh:89-104 | push adds a number, + or - to the stack, records a (, and reduces the group a ) closes. |
| BasicCalculator.StackParser.PopLastOpen | parsing/basic_calculator.hh:118-124 | pop_last_open replaces the last ( and what follows it by their value. |
| BasicCalculator.StackParser.Evaluate | parsing/basic_calculator.hh:132-145 | evaluate(start_idx) is the signed sum of the stack from start_idx on. |
| BasicCalculator.StackParser.Flush | parsing/basic_calculator.hh:110-112 | flush evaluates the whole stack. |
| BasicCalculator.Calculate | parsing/basic_calculator.hh:49-57 | calculate(s) tokenizes s, pushes every token and flushes. |
| RegexMatcher.LangStar | parsing/regex_matcher.hh:8 | A starred element matches zero or more characters it accepts. |
| RegexMatcher.StarPeel | parsing/regex_matcher.hh:52-59 | A match of a starred element either skips it or takes one accepted character and stays on it. |
| RegexMatcher.Rec | parsing/regex_matcher.hh:33-60 | The recursion of isMatchRec. No contract of its own: `RecIsLang` proves that it holds exactly when the suffix of s matches the suffix of p, and `Matcher.IsMatchAt` that the memo returns it. |
| RegexMatcher.RecIsLang | parsing/regex_matcher.hh:33-60 | The recursion at (sPos, pPos) holds exactly when s from sPos matches the pattern from pPos. |
| RegexMatcher.MatchIsLang | parsing/regex_matcher.hh:4-9 | isMatch(s, p) holds exactly when all of s matches p. |
| RegexMatcher.Examples | parsing/regex_matcher.cc:8-10 | "aa" does not match "a"; "aa" matches "a*"; "ab" matches ".*". |
| RegexMatcher.Matcher.IsMatch | parsing/regex_matcher.hh:21-28 | isMatch builds a fresh table and returns whether s matches p. |
| RegexMatcher.Matcher.Store | parsing/regex_matcher.hh:34 | Storing a result records the answer of the recursion at that cell. |
| RegexMatcher.Matcher.IsMatchAt | parsing/regex_matcher.hh:33-60 | The memoised recursion returns the answer for (sPos, pPos) and keeps every table entry correct. |
| SpecialBinaryString.FirstReturn | parsing/special_binary_string.hh:84-92 | The scan stops at the first position where the count of 1s and 0s is equal. |
| SpecialBinaryString.GetSubstrings | parsing/special_binary_string.hh:80-94 | getSubstrings appends the minimal special chunks of s[start..end]. |
| SpecialBinaryString.ScanChunk | parsing/special_binary_string.hh:84-92 | The for loop finds the first chunk, or reaches the end. |
| SpecialBinaryString.ChunksOfSpecial | parsing/special_binary_string.hh:25-31 | A special string is the concatenation of its chunks, each a minimal special string. |
| SpecialBinaryString.Unwrap | parsing/special_binary_string.hh:28-29 | A minimal special string is 1 s' 0 with s' special. |
| SpecialBinaryString.SolveEach | parsing/special_binary_string.hh:57-62 | Every chunk is solved in turn. |
| SpecialBinaryString.Solve | parsing/special_binary_string.hh:44-77 | solve. No contract of its own: `SolvePreserves` proves the result special with the input's characters, `SolveOneChunk` and `SolveSeveralChunks` give its two cases, and `SpecialBinaryMoves.SolveReachable` proves it reachable by swaps of adjacent special substrings. |
| SpecialBinaryString.MakeLargestSpecial | parsing/special_binary_string.hh:35-37 | makeLargestSpecial. No contract of its own: `SpecialBinaryMoves.MakeLargestSpecialReachable` proves the result special, a permutation of the input and reachable from it; maximality is admitted under Left out. |
| SpecialBinaryString.SolvePreserves | parsing/special_binary_string.hh:44-77 | solve returns a special string with the same characters. |
| SpecialBinaryString.SolveOneChunk | parsing/special_binary_string.hh:51-54 | A single chunk 1s'0 is solved as 1 solve(s') 0. |
| SpecialBinaryString.SolveSeveralChunks | parsing/special_binary_string.hh:56-76 | Several chunks are solved, sorted in descending order and concatenated. |
| SpecialBinaryString.Examples | parsing/special_binary_string.cc:14-15 | "1010" stays "1010". |
| SpecialBinaryString.NestedExample | parsing/special_binary_string.cc:8-9 | "11011000" becomes "11100100". |
| SpecialBinaryString.LongExample | parsing/special_binary_string.cc:11-12 | "110110101111000000" becomes "111111000010100100". |
| SpecialBinaryMoves.SwapKeeps | parsing/special_binary_string.hh:14-15 | A move keeps the characters. |
| SpecialBinaryMoves.SwapSpecial | parsing/special_binary_string.hh:14-15 | A move keeps a special string special. |
| SpecialBinaryMoves.LeadsChain | parsing/special_binary_string.hh:14-18 | Moves from s to u followed by moves from u to t lead from s to t. |
| SpecialBinaryMoves.LeadsInContext | parsing/special_binary_string.hh:14-15 | Moves inside a substring are allowed in the whole string. |
| SpecialBinaryMoves.InsertReachable | parsing/special_binary_string.hh:65-71 | Inserting a block into a descending list of special blocks is reached by moves. |
| SpecialBinaryMoves.SortReachable | parsing/special_binary_string.hh:65-71 | Sorting the special blocks in descending order is reached by moves. |
| SpecialBinaryMoves.EachReachable | parsing/special_binary_string.hh:57-62 | Solving each chunk in place is reached by moves. |
| SpecialBinaryMoves.SolveReachable | parsing/special_binary_string.hh:44-77 | What solve returns is reached from its input by a sequence of moves. |
| SpecialBinaryMoves.MakeLargestSpecialReachable | parsing/special_binary_string.hh:35-37 | makeLargestSpecial returns a special string, with the input's characters, that the allowed moves reach from the input. |
| SpecialBinaryMoves.ReachableSpecial | parsing/special_binary_string.hh:14-15 | Anything the moves reach from a special string is special and uses its characters. |
| MinRemoveValidParen.ForwardPass | strings/min_remove_valid_paren.py:12-22 | The forward walk marks exactly the ) that have no open ( before them. |
| MinRemoveValidParen.BackwardPass | strings/min_remove_valid_paren.py:24-34 | The backward walk marks exactly the ( that have no ) after them. |
| MinRemoveValidParen.MinRemoveToMakeValid | strings/min_remove_valid_paren.py:11-39 | The result deletes only parentheses, is balanced, and no balanced string obtained by deleting characters of s is longer. |
| MinRemoveValidParen.ResultValid | strings/min_remove_valid_paren.py:36-38 | Dropping the marks of both walks leaves a balanced string. |
| MinRemoveValidParen.Longest | strings/min_remove_valid_paren.py:2-4 | Every deletion that leaves a balanced string leaves one no longer than the result. |
| LexOrder.Total | parsing/special_binary_string.hh:68-70 | Any two strings are equal or ordered one way. |
| LexOrder.Transitive | parsing/special_binary_string.hh:68-70 | String comparison is transitive. |
| LexOrder.PrefixLess | sorting/radix_sort.py:17 | A proper prefix comes first. |
| LexOrder.SortSorted | parsing/special_binary_string.hh:65-71 | The sort gives a sorted permutation of its input. |
| LexOrder.SortedUnique | parsing/special_binary_string.hh:65-71 | Two sorted permutations of the same strings are equal, so the order std::sort leaves ties in does not matter. |
| LexOrder.FlattenSort | parsing/special_binary_string.hh:74-76 | Concatenating a sorted list uses the same characters. |
| PyInt.Pow2Word | perf/problem.py:198 | 2**32 is the word size. |
| PyInt.FloorDivBounds | perf/problem.py:176-177 | a // b rounds toward negative infinity. |
| PyInt.PyModBounds | perf/problem.py:190-191 | a % b takes the sign of b and a == b * (a // b) + a % b. |
| PyInt.AndPow2 | perf/problem.py:182-183 | a & (1 << i) keeps bit i of a and clears every other bit. |
| PyInt.PyIndex | perf/problem.py:159-168 | A Python index i into a list of length n names a position exactly when -n <= i < n. |
| PyStr.JoinSplit | strings/simplify_path.py:15 | Joining the pieces of a split gives the string back. |
| PyStr.SplitPieces | trees/serdes.py:40 | No piece of a split holds the separator. |
| PyStr.SplitJoin | strings/simplify_path.py:23 | Splitting the join of separator-free pieces gives the pieces back. |

## Left out

- Simulator.Machine.Run: the run loop of `perf/problem.py` may never end, so the model runs at most `fuel` sweeps and reports when the fuel ran out.
- Simulator.Machine.Step: when a slot raises, the model leaves the state after the exception unspecified, because the source leaves half-committed writes behind and nothing reads them afterwards.
- Trace output (`setup_trace`, `trace_slot`, `trace_post_step`, `__del__`), `print_step` and the debug-engine comparisons of `perf/problem.py` are not part of this model: they are file I/O and printing.
- `Tree.generate`, `Input.generate` and `do_kernel_test` are not part of this model: they draw random numbers and time the run.
- The correctness of `build_kernel` in `perf/perf_takehome.py` is not part of this model: its two nested `for_loop` calls (lines 301-302) share one start address and never reset `batch_i`. Only the builder's primitives are modelled.
- The correctness of `build_kernel_old` in `perf/perf_takehome.py` as a whole kernel is not part of this model. It unrolls the batch, setting `batch_i` with one `const` load per item (lines 357-358), inside a single `for_loop` over the rounds (line 394). The model proves its pieces: the builder's primitives, the loop shape (`KernelBuilder.ForLoopShape`) and the hash slots (`KernelBuilder.BuildHashComputesHash`), but not that the whole emitted program matches `reference_kernel2`.
- KernelBuilder.SimpleTestLoop: the lemma requires limit < 2^32 - 1. For a larger limit the source's `for_loop` never exits: `iter += 1` wraps mod 2^32 (`KernelBuilder.SimpleTestWraps` proves one such pass), so `limit < iter` never holds. The full non-termination is not proved.
- Reference.ReferenceKernel2: the generator is modelled as the list of memory copies it yields, so two behaviours are not captured:
  - aliasing: `reference_kernel2` yields the same list object each time, so a consumer that keeps the yields (as `list(reference_kernel2(mem))` does) sees rounds + 1 references to the final memory, not snapshots;
  - partial yields: when a round raises (an index word pointing past the memory), the generator has already yielded the initial memory and every earlier round, and has updated the items before the failing one in place. `Reference.Kernel2` and the method return only the error.
- `perf/backup.py` is not part of this model: it duplicates the builder.
- BasicCalculator.Calculate: the numbers come from `stoi` and are summed in C++ `int`. The model's arithmetic is unbounded, so it does not model the `out_of_range` throw above 2^31-1 or the overflow of the sums.
- BasicCalculator.Calculate: the model requires balanced parentheses, as the source's `flush()` documents. An unmatched ')' makes the source call `back()` on an empty vector, which is undefined behaviour.
- BasicCalculator.Calculate: input is limited to digits, spaces, `+`, `-`, `(` and `)`. The source appends any other character to the current number. `stoi` reads only the leading digits and ignores the rest, so "1x+2" gives 3 with no error. Only a number that starts with another character, such as "x1", makes `stoi` throw `invalid_argument`.
- Combinations.CombinationIterator: the mask is an unbounded sequence of bits. The source's `mask_` is an `int` built with `1 << i`, which is undefined for 31 or more characters.
- Combinations.CombinationIterator.constructor: the model requires `combinationLength <= |characters|`.
- Combinations.CombinationIterator.Next: the model requires `HasNext()`. Past the last combination the source shifts by -1, which is undefined behaviour.
- BitManipulator.RangeBitwiseAnd: the model requires `0 <= l <= r <= 2^31-1`, the range of the source's `int`. The source's behaviour outside that range is not modelled.
- BitManipulator.TheGreatXor: the model requires `x < 2^62`. Near 2^63 the source's `mask <<= 1` overflows its `long`, and that is not modelled.
- PrimeSieve.PrimeSieve.CrossOutMultiples: the overflow of `j += i` near INT_MAX (`prime_sieve.hh:34`) is not modelled.
- PrimeSieve.PrimeSieve.NumPrimesAtMost: the model requires `0 <= k <= n`. The source reads `numPrimes_[k]` unchecked.
- DecodeString.DecodeStringLoop: digits are ASCII '0'..'9' (`Decimal.IsDigit`). Python's `str.isdigit()` also accepts characters such as '²', on which `int()` raises ValueError. The model treats such a character as a letter.
- ValidAbbr.ValidWordAbbreviation: the abbreviation is limited to ASCII letters and digits (`AbbrChars`), so three source behaviours are not modelled:
  - any other character reaches `int()` and raises ValueError;
  - "-5" parses to -5, and the position moves backwards;
  - `isalpha()` is Unicode.
- SegmentTree.SegmentTree.Query: the model requires `0 <= left <= right < m`. The source does not check the range; outside it the recursion reads past the tree, which is undefined behaviour.
- SegmentTree.SegmentTree.Update: the model requires `0 <= idx < m`, the source's `assert`.
- SegmentTreePy.SegmentTreePy.Update: the model requires `0 <= idx < m`. `segment_tree.py` does not check idx, and three cases are not modelled:
  - for -m <= idx < 0 it overwrites an interior node and recomputes only that node's ancestors;
  - for -2m <= idx < -m it writes a leaf through a negative index and recomputes nothing;
  - otherwise it raises IndexError.
- UnionFindPy.UnionFind.Representative: the model requires `0 <= u < n`. `union_find.py` indexes `self.parents[u]` without a check, and two cases are not modelled:
  - for -n <= u < 0, Python's negative index makes it act on node n + u;
  - for u >= n or u < -n, it raises IndexError.
- UnionFindPy.UnionFind.Connected: the model requires `0 <= u < n` and `0 <= v < n`. Outside that range the source behaves as `representative` does: node n + u for -n <= u < 0, IndexError otherwise.
- UnionFindPy.UnionFind.AddEdge: the model requires `0 <= u < n` and `0 <= v < n`. Outside that range the source behaves as `representative` does: it merges node n + u for -n <= u < 0, and raises IndexError otherwise.
- UnionFindPy.UnionFind.IsRepr: the model requires `0 <= u < n`. For -n <= u < 0 the source's `is_repr(u)` compares `parents[n + u]` with u, which is never equal, so it returns False; otherwise it raises IndexError.
- SegmentTreePy.SegmentTreePy.Query: the model requires `0 <= qLeft <= qRight < m`. The source does not check the range; outside it the recursion leaves the tree.
- SegmentTreePy.SegmentTreePy.constructor: the `None` initial values of `idx_to_segment` are not modelled; slot 0 is never read.
- IntervalCounter.IntervalCounter.Add: the model requires `left <= right`, the interval the source's comment describes. The overflow of the `int` counter `count_` is not modelled.
- Counter.Counter.Increment: keys are `int` and counts are unbounded `int`. The source is generic in the key, the count type `V` and the comparator, and its counts can overflow `V`.
- MaxSegmentSum.MaxSegmentSum.MaximumSegmentSum: the model requires the queries to be distinct and in range, as the problem statement guarantees. The source's `long long` sums are modelled as unbounded.
- LongestUploadedPrefix.LUPrefix.Upload: the model requires `1 <= video <= n`; the source indexes without a check.
- GrayCode.GrayCode: the model requires `n >= 1`.
- DivisibilityArray.DivisibilityArray: the model requires `m > 0`; the source would divide by zero.
- RegexMatcher.Matcher.IsMatch: the model requires that the pattern contains no '!'. The source uses '!' as its end-of-string marker, so a '!' in the pattern matches the end of the string and reads past the table.
- StringCompressor.Compress: the model requires a non-empty array with no '\xFF' in it. The source reads `chars[0]` unchecked and uses '\xFF' as a sentinel that would end its loop early.
- Serdes.RoundTrip: the round trip holds only for trees with no node valued 1001. The source serialises null as 1001, so such a value is read back as a missing node (`Serdes.NullValueLost`).
- SpecialBinaryString.MakeLargestSpecial: the result is proved special, a permutation of the input and reachable from it by swaps of adjacent special substrings (`SpecialBinaryMoves.MakeLargestSpecialReachable`). That it is the lexicographically largest reachable string is not proved.
- BTreeMap.BTree: nodes are datatype values rebuilt on each change, not vectors updated in place. Parent pointers and the `prevIdx` walk become recursion, and `lower_bound` becomes a linear scan.
- BTreeMap.BTree.constructor: the model requires `B >= 2` and `int` keys. That every non-root node keeps at least `kMinKeys` keys is not proved; the invariants proved are the node shape, sorted keys and the key-to-value walk.
- BTreeMap.BTree.DeleteKey: the `int` tombstone counter is unbounded in the model.
- The B-tree's `printKeys`, `printValues` and `printLevelOrder` and its random, permutation and timing tests are not part of this model: they are output and randomness.

## Findings

| source | as written | input that shows it | evidently intended | confidence | as-written member | corrected member |
|---|---|---|---|---|---|---|
| perf/problem.py:412-433 | `header = 7` puts the forest values at word 7, so they overwrite the extra-room pointer stored at `mem[7]`. `mem[inp_values_p:] = inp.values` then cuts the image off after the values and drops the extra room. | A tree of one node valued 5, one round, indices [0, 0], values [3, 4]: word 7 holds 5 instead of 12, and the image has 12 words (`Reference.ImageAsWrittenExample`). | An eight-word header, so that word 7 keeps the extra-room pointer and the extra room follows the values. | not executed | Reference.MemImageAsWritten (with Reference.ExtraRoomPointerOverwritten and Reference.ExtraRoomDropped) | Reference.MemImage (with Reference.MemImageExtraRoom and Reference.MemImageLayout) |
