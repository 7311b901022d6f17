# A model of Sim-D, with proofs

Sim-D simulates a wide-SIMD real-time processor and bounds the execution time of its kernels. Its hard
parts are state machines that replace simple arithmetic by incremental updates, and analysis passes that
must agree with these machines. This project models those parts in Dafny and proves what they are for.
Each clocked thread becomes a method that takes one step a clock; signals between threads are registers
that are read a clock later. Quantities that the hardware takes from outside (DRAM timing, execution
times of phases, order of service, opcode semantics, register banking) are arbitrary parameters.

| files | part of Sim-D |
|---|---|
| `Stride*.dfy`, `SpStrides.dfy` | the two-dimensional stride sequencers of DRAM controller and scratchpads, the requests they do not serve as they should, and the window count of the analysis |
| `DramBanks.dfy`, `CmdGen.dfy`, `RowPolicy.dfy`, `CmdArb.dfy`, `DramSystem.dfy`, `StrideCommands.dfy` | DRAM command path: address translation, precharge placement, arbitration, refresh, and a stride from descriptor to commands |
| `StorageElem.dfy`, `Storage.dfy`, `FlatMemory.dfy` | simulated DRAM contents: hash table of circular lists |
| `ScratchpadArray.dfy`, `DataQueue.dfy`, `TileTransfer.dfy` | banked scratchpad, DQ beats, whole tiles |
| `Ringbuffer.dfy`, `ScalarCode.dfy`, `Scoreboard.dfy`, `RegFile.dfy`, `ExecuteStage.dfy`, `DecodeStage.dfy`, `Pipeline.dfy` | compute pipeline |
| `Graphs.dfy`, `Relaxation.dfy`, `CriticalPath.dfy`, `DagAppend.dfy`, `PhaseList.dfy`, `PathPhases.dfy`, `PathDominance.dfy`, `CriticalPhases.dfy`, `Refresh.dfy`, `KernelBound.dfy` | WCET analysis, from the graph of basic blocks to the reported bound |
| `Bits.dfy`, `WorkDist.dfy`, `LinearLoad.dfy`, `TicketLock.dfy` | work distribution, thread identifiers, vector loads, ticket lock |

Addresses are in 32-bit words. A stride is a descriptor with `count` periods of `words` words, `period`
words apart. `off` is the number of words between the start of the first window and the first word: the
place in the burst for DRAM, 0 for a scratchpad, so one sequencer serves both. The DRAM organisation is
the default one of `include/util/defaults.h` (8 banks, 65536 rows, 1024 columns, bursts of 16 words).

## Where the code and its promise differ

Each of these is proved as an exact condition, or shown with a concrete input.

- The cover of a stride is exact if and only if there is at least one word and the first phase does not
  wrap (`off <= period`), or the 64-bit wrap is a multiple of the period, or the periods leave no gap
  (`CoverCondition`). The phase registers are right if and only if the wrap does not show (`PhaseShift`).
  `WrongCover` is about a request outside the condition.
- The line registers are right if and only if no move exceeds a period (`LineSafe`); three simple
  sufficient conditions are `SimpleConditionsAreSafe`. `WrongLines` is about a request outside it.
- Scratchpad placement is right if and only if there is one period, or the destination has no gaps, or it
  has gaps and the lines are right (`PlacementCondition`); `WrongPlacement` is outside. The sequencer also
  accepts periods that overlap; they arrive complete if and only if there is one period
  (`OverlapTheorem`).
- A vector load covers its words and sends them to the threads that want them if and only if the first
  phase does not wrap and no line is lost (`RegisterCondition`). Otherwise, if a line is lost, the last
  line of the work-group's tile receives nothing. This happens to work-groups that are clipped to few
  words at the right edge of a buffer: `ClippedColumn` is the second column of groups on a buffer of 33
  words a line. `NarrowBuffer` is a buffer of five words a line, where the first phase wraps.
- A linear stride leaves all banks closed if and only if it does not end in the top bank pair and row,
  because a missing next address (0xffffffff) looks like that row. Every run is legal if no stride ends
  there (`Run`), and for every stream in which one does, and every refresh interval, there is an illegal
  run, with a refresh while a bank is open (`RefreshWhileOpen`). `TopRowThenAnother` is a pair of strides
  whose commands are illegal without any refresh.
- The critical path is the one with the most computation; what DRAM accesses cost is no edge weight, and
  so plays no part in the choice. Whatever the accesses cost, the closed form over its phases is no less
  than that over any other path if and only if it visits every block with an access that can lie between
  source and sink (`DominatesExactly`; such a block has one edge, to the next, because it ends in a memory
  instruction). `DearBranchTakesLonger` is a graph of four blocks where it is
  too small: a branch with less computation and a dearer access. Where no path misses an access, the
  reported bound covers work-groups on any mixture of paths (`AnalyseKernel`).
- The closed form leaves out the edges after the last access: no phase carries them (`Tail`, named in
  the equation of `BuildPhases`). A path without any access has no phases at all; the source then reads
  element 0 of an empty list for an even number of work-groups, and charges nothing but the upload for
  an odd one. `AnalyseKernel` returns `NoPhases` there, and promises no bound.
- The divider is said to take eight clocks. The counter that holds a division back is already
  decremented in the clock that sets it, so with fewer than eight stages a division is on its way for
  seven (`ExecuteStages.ExecuteStage.Clock`: it joins as the last of max(stages, 7) entries).
- The scratchpad asserts that the end of a write is strictly below its size. A tile that fits passes the
  assertion if and only if it leaves the last word of the scratchpad alone (`LastWordTripsAssertion`).
- The scheduler enumerates as many work-groups as the analysis counts if and only if the grid is not
  empty: it always starts one group.

## Model

| member | source | states |
|---|---|---|
| StrideRun.Sequence | src/mc/control/StrideSequencer.h:290-547 | Emits one request: rejected exactly when validation fails; the bursts are in increasing order the windows with a requested word, with masks of exactly the requested words, iff CoverCondition; chained by next address, only the final one last; phases are true remainders iff the first does not wrap; lines are true quotients iff LineSafe; each word's scratchpad offset is its destination iff PlacementCondition; selected lanes never have a line ahead of the true one, and in the last period one behind if lines are lost |
| StrideRun.SequenceTheorem | src/mc/control/StrideSequencer.h:290-547 | The same of every list of bursts that a complete run can emit: cover, phases, lines and placement are each exact iff their condition on the descriptor holds |
| StrideRun.CoverTheorem | src/mc/control/StrideSequencer.h:212-257 | A complete run is the minimal cover of the request iff there is a word and the phases start right or do not matter |
| StrideRun.EachWordOnce | src/mc/control/StrideSequencer.h:498-506 | In an exact cover each requested word is in one lane of exactly one burst |
| StrideRun.PhasesTheorem | src/mc/control/StrideSequencer.h:191-206 | Over a whole run, the phase of every lane, also before the first word, is position modulo period, iff the first phase had no error |
| StrideRun.LinesTheorem | src/mc/control/StrideSequencer.h:508-518 | Over a whole run, the line of every lane is the true quotient iff LineSafe, iff no line was lost by the last burst |
| StrideRun.PlacementTheorem | src/mc/control/StrideSequencer.h:523-532 | Every selected word is sent to its own scratchpad word iff one period, adjacent destination lines, or wider lines and LineSafe |
| StrideRun.OverlapTheorem | src/mc/control/StrideSequencer.h:275-281 | Accepted periods that overlap are delivered, each word of each period to its own scratchpad word, iff there is one period |
| StrideRun.BurstLines | src/mc/control/StrideSequencer.h:508-518 | The line of a selected word is never before the first one nor ahead of the true one, and is behind in the last period whenever any line was lost |
| StrideRun.RunRises | src/mc/control/StrideSequencer.h:534-547 | Bursts are on the grid of the first window and increase, and start before the end |
| StrideLimits.WrongCover | src/mc/control/StrideSequencer.h:344-356 | Whatever the sequencer emits for an accepted request of three words, five words into its window, is not its cover |
| StrideLimits.WrongLines | src/mc/control/StrideSequencer.h:508-518 | Whatever it emits for a column of one word a line of 33 covers the request exactly and has a lane on a wrong line |
| StrideLimits.WrongPlacement | src/mc/control/StrideSequencer.h:523-532 | The same column, for a scratchpad: exact cover, and some word is sent to a wrong place |
| StrideLines.SimpleConditionsAreSafe | src/mc/control/StrideSequencer.h:232-241 | words >= bus width, or period below it, or a gap below it, each suffice for right lines |
| StrideLines.SafeStep | src/mc/control/StrideSequencer.h:232-241 | In a safe request no single move is longer than a period |
| StrideArithmetic.IncrementIsExact | src/mc/control/StrideSequencer.h:301-318 | The skip registers with their mask arithmetic give the largest whole number of empty windows, without division |
| StrideArithmetic.IncrementSkipsOnlyEmpty | src/mc/control/StrideSequencer.h:232-241 | No requested position is skipped, and the move does not stop short |
| StrideArithmetic.LaneStep | src/mc/control/StrideSequencer.h:191-206 | One conditional subtraction and carry advance remainder and quotient exactly while the increment is at most a period, and lose one line otherwise |
| StrideSequencing.StrideSequencer.InitRequestRegs | src/mc/control/StrideSequencer.h:290-356 | Loading a descriptor establishes the invariant: lane phases and lines of the first window, negative positions included, and the bound words + width - 2 on the last phase |
| StrideSequencing.StrideSequencer.Emit | src/sp/control/StrideSequencer.h:412-448 | One clock keeps the invariant; mask, phases and lines of the burst are those of its words, the address moves past empty windows only |
| Stride.RequestedIsPhase | src/mc/control/StrideSequencer.h:212-224 | The comparison the lanes make is membership in one of the requested periods |
| Stride.LivePhaseHits | src/mc/control/StrideSequencer.h:226-241 | A window within the reachable-state bound holds a requested word |
| SpStrides.SpStrides | src/isa/analysis/DRAMSim.cpp:236-286 | The loop with its wrapping unsigned skip returns the number of windows in the cover, for all 1 <= words <= period |
| SpStrides.UnsignedSkipIsExact | src/isa/analysis/DRAMSim.cpp:255-275 | The 32-bit wrap-around of the skip cancels out |
| SpStrides.AnalysisAgrees | src/isa/analysis/DRAMSim.cpp:289-307 | The count is the number of windows the scratchpad sequencer emits, wherever the request starts |
| SpStrides.DenseCount | src/isa/analysis/DRAMSim.cpp:177-191 | Without gaps the count is words * count divided by the width, rounded up |
| DramBanks.KeyDecides | src/mc/control/CmdGen_DDR4.h:96-113 | Two addresses share bank pair and row iff they share their high part |
| DramBanks.CmdIsLegal | src/mc/control/CmdArb_DDR4.h:640-733 | What a queued command expands to is legal on its bank iff its flags fit the bank's state, and what it leaves |
| DramBanks.CmdCounts | src/mc/control/CmdGen_DDR4.h:230-252 | A command adds its one column access and its activation and nothing else |
| CommandGeneration.CmdGen.Accept | src/mc/control/CmdGen_DDR4.h:122-252 | Any request: exactly the commands it adds to each bank; the queues stay legal iff they were and the linear policy finds its bank closed or on the right row; exactly which banks are open on which row afterwards; one column access on the right bank, an activation only if the row was not open |
| RowPolicies.LateMakes | src/mc/control/CmdGen_DDR4.h:144-169 | Within an indexed sequence the commands of a request are those that follow from the earlier requests alone: precharge and activate if the bank's last request was on another row, activate if it is the bank's first, and at the end close every bank used |
| RowPolicies.LateActivations | src/mc/control/CmdGen_DDR4.h:144-169 | In an indexed sequence a row of a bank is activated exactly as often as a request on it is the first on the bank or follows one on another row |
| RowPolicies.RunMakes | src/mc/control/CmdGen_DDR4.h:171-197 | Within a stride a bank is activated by its first request in a pair and row, and the last request in that pair and row closes both banks of the pair, as far as they were used |
| CommandArbitration.CmdArb.CmdBestCandidates | src/mc/control/CmdArb_DDR4.h:430-533 | Every candidate may be issued, none is missed, and the nearest bank around the ring wins; of the activations none after the chosen one is nearer or has a longer queue |
| CommandArbitration.CmdArb.Issue | src/mc/control/CmdArb_DDR4.h:640-743 | Exactly the chosen command is issued; the stream stays legal and nothing queued is lost or reordered; the bank counted from is that of the pair of the last column access in the stream |
| CommandArbitration.CmdArb.BestIsPreferred | src/mc/control/CmdArb_DDR4.h:640-743 | What is chosen is what the timing rules allow and the rules prefer, in terms of the queues: the nearest allowed column access; without one the nearest precharge ahead of an activation, then an activation, then the nearest bare precharge; a refresh only with nothing queued |
| CommandArbitration.CmdArb.Clock | src/mc/control/CmdArb_DDR4.h:592-756 | One clock under any timing: what is issued is what is preferred of the queues, counted around the ring from the pair of the last column access in the stream so far; conservation kept, legal unless a refresh is issued while a bank is open, a refresh issued only when nothing is queued, a command issued whenever some queue head may have one, a due refresh issued when nothing is queued, no refresh interval lost |
| DramSystem.Run | src/mc/control/CmdArb_DDR4.h:592-756 | Any mix of strides and indexed sequences, any interleaving, any timing: ACTIVATE only on closed banks, column access only on the open row, REFRESH only with all banks closed; per bank the column accesses are those of the requests in order, and all of them once drained; no more refreshes than intervals; every event is, at most one a clock, what the arbiter prefers of the queues at that point, counted from the last column access before it; from wherever the run stops, timing that no longer forbids anything lets every request be issued, and all banks are closed if no stride is under way |
| DramSystem.System.Finish | src/mc/control/CmdArb_DDR4.h:592-756 | No deadlock: remaining requests are accepted and all queues drain |
| DramSystem.System.WhatIsIssued | src/mc/control/CmdArb_DDR4.h:592-756 | In every reachable state each bank has seen a prefix of its requests' column accesses, all of them and a closing precharge once drained |
| DramSystem.GenerateStride | src/mc/control/CmdGen_DDR4.h:171-197 | One linear stride: the operations of every bank are exactly those that follow from the requests; legal and complete; all banks closed afterwards iff it does not end in the top pair and row; with increasing addresses no row of a bank is activated twice |
| DramSystem.GenerateSequence | src/mc/control/CmdGen_DDR4.h:144-169 | One indexed sequence from closed banks: the operations of every bank are exactly those that follow from the requests, so a row stays open until another one of its bank is wanted; legal, complete, all banks closed afterwards; each row activated exactly as often as it is wanted after another, or first |
| DramSystem.RefreshWhileOpen | src/mc/control/CmdArb_DDR4.h:735-743 | The condition of Run is needed, for any refresh interval: every stream with a linear stride that ends in the top pair and row has a run that is legal up to its last event, has issued exactly the column accesses of the requests up to the end of that stride, leaves a bank open, and then issues a refresh |
| DramSystem.System.Clock | src/mc/control/CmdArb_DDR4.h:592-756 | One clock of generator and arbiter: queues stay legal and conserved in any state; the stream stays legal if banks are tidy or refreshes are forbidden; only a stride that ends in the top pair and row makes the banks untidy |
| DramSystem.GenerateAll | src/mc/control/CmdGen_DDR4.h:122-199 | Any list of requests: its commands are legal iff every linear request finds its bank closed or on its row |
| DramSystem.TopRowThenAnother | src/mc/control/CmdGen_DDR4.h:175-197 | The commands of two given strides, one that ends in the top pair and row and one on another row of that bank, are all their column accesses and are illegal |
| StrideCommands.BurstsAreLinearStride | src/mc/control/StrideSequencer.h:534-547 | The bursts of a request are, as requests to the command generator, one linear stride with increasing addresses |
| StrideCommands.CommandsOf | src/mc/control/CmdGen_DDR4.h:171-197 | From a descriptor to bank commands: legal, one column access for each window of an exact cover, no row of a bank opened twice, banks closed afterwards iff the last window is not in the top pair and row |
| DramSystem.OnceStep | src/mc/control/CmdGen_DDR4.h:171-197 | Activated rows stay at or below the current address, so that none is opened again |
| StorageElements.Append | src/mc/model/storage_ll_elem.h:115-128 | Inserting before the head of a circular list appends, all links kept |
| StorageElements.DeleteRing | src/mc/control/Storage.h:119-136 | The destructor's loop frees each element once and touches none after it was freed |
| StorageBackEnd.Storage.EnsureRow | src/mc/control/Storage.h:78-107 | The row's element is found or appended to its bucket; buckets stay well formed and row-unique; no cell with contents changes |
| StorageBackEnd.Storage.GetWord | src/mc/control/Storage.h:144-155 | Returns the contents of the cell, changes none |
| StorageBackEnd.Storage.SetWord | src/mc/control/Storage.h:163-175 | Sets this cell and changes no other that has contents |
| StorageBackEnd.Storage.Destroy | src/mc/control/Storage.h:119-136 | All elements of all buckets are freed |
| FlatMemory.OnePlace | src/mc/control/CmdGen_DDR4.h:96-113 | Bank, row and offset determine the address |
| FlatMemory.AddressBits | src/mc/control/CmdGen_DDR4.h:86-113 | The word at a row, pair, burst, bank of the pair and place in the burst translates back to them |
| FlatMemory.EveryAddress | src/mc/control/CmdGen_DDR4.h:86-113 | Every address is the word at what it translates to |
| FlatMemory.WordOfBurst | src/mc/control/DQ.h:187-193 | The column and half-word the data queue forms for word n of a burst are the place of that word |
| FlatMemory.Replay | src/mc/control/Storage.h:144-175 | Over any sequence of accesses, a read of a written address returns the last value written there |
| ScratchpadMemory.StorageArray.Locate | src/sp/control/StorageArray.h:200-217 | Bank and index of a rotated lane are those of the one word among the four that belongs in it |
| ScratchpadMemory.StorageArray.DramWrite | src/sp/control/StorageArray.h:185-221 | Masked words of the four from the start word on are written, no other |
| ScratchpadMemory.StorageArray.DramRead | src/sp/control/StorageArray.h:146-182 | Lane i carries the word among the four whose address ends in i |
| ScratchpadMemory.StorageArray.RfWrite | src/sp/control/StorageArray.h:251-273 | The same for a whole row of banks |
| ScratchpadMemory.StorageArray.RfRead | src/sp/control/StorageArray.h:225-247 | Bank i carries the word of the window whose address ends in i |
| ScratchpadMemory.Rotate | src/sp/model/DQ_reservation.h:170-213 | The rotating constructor puts item i into the lane of word n + i |
| ScratchpadMemory.WindowToRegisters | src/sp/control/StorageArray.h:225-247 | The lane that carries word n + i also carries register index and mask bit i |
| ScratchpadMemory.WindowFromRegisters | src/sp/control/StorageArray.h:251-273 | Selected item i becomes word n + i and nothing else changes |
| DataQueues.DoRead | src/mc/control/DQ.h:168-206 | The k-th selected word of a beat is in the lane of scratchpad word n + k, and only these lanes are enabled |
| DataQueues.LoadBurst | src/mc/control/DQ.h:321-352 | Over four beats the selected words of a burst go to consecutive scratchpad words, nothing else changes |
| DataQueues.StoreBurst | src/mc/control/DQ.h:239-277 | The selected words of a burst get consecutive scratchpad words, no other DRAM word changes; only beats with a selected word read the scratchpad |
| TileTransfer.Load | src/mc/control/DQ.h:281-352 | A whole tile, bursts served in any order: every requested word is in its scratchpad word, no other scratchpad word changes |
| TileTransfer.Save | src/mc/control/DQ.h:281-352 | A whole tile to DRAM, if the four words each of its beats reads are in the scratchpad: every requested word has the value of its scratchpad word, no other DRAM word changes |
| TileTransfer.RoundTrip | src/mc/control/DQ.h:281-352 | A tile that is stored and loaded again is unchanged |
| TileTransfer.OneSource | src/mc/control/StrideSequencer.h:265-287 | No two requested words of an accepted tile share a scratchpad word |
| TileTransfer.LastWordTripsAssertion | src/sp/control/StorageArray.h:199 | All beats of a tile that fits pass the size assertion iff no requested word goes to the last scratchpad word |
| Ringbuffers.Ringbuffer.SwapHead | include/util/Ringbuffer.h:101-114 | A ring of n entries is a delay line of length n - 1 |
| Ringbuffers.Ringbuffer.UpdateAll | src/compute/control/IExecute.h:2184-2198 | The invalidation loop reaches every entry once |
| Scoreboards.Scoreboard.PushPop | src/compute/control/Scoreboard.h:250-313 | A pop then a push on a bounded queue, with the flags for under- and overflow, the full test through unsigned wrap included |
| Scoreboards.Scoreboard.Check | src/compute/control/Scoreboard.h:332-382 | An operand is a hazard iff it was requested and its register is on the board |
| RegisterFile.Conflicts | src/compute/control/RegHazardDetect.h:83-130 | Only requested operands wait, and not all of them |
| RegisterFile.WaitsExactly | src/compute/control/RegHazardDetect.h:83-130 | An operand waits iff its bank has fewer ports than it and the later operands need rows of that bank |
| RegisterFile.PortsSuffice | src/compute/control/RegHazardDetect.h:83-130 | The operands that go ahead never need more rows of a bank than it has ports |
| RegisterFile.RegFile.Read | src/compute/control/RegFile.h:1395-1455 | Wanted operands without conflict are read, the other latches keep their values |
| ExecuteStages.ExecuteStage.Clock | src/compute/control/IExecute.h:2223-2274 | Ring and side buffer together are a delay line; a division joins it behind the bubbles of its hold, as the last of max(stages, 7) entries; a kill leaves nothing that writes a register, and removes nothing else |
| ExecuteStages.DelayLine | src/compute/control/IExecute.h:2035-2063 | One clock of the line changes neither the final registers nor the order of destinations, except for the entry that leaves and the one that joins |
| ScalarCode.NotInFlight | src/compute/control/Scoreboard.h:332-382 | A register that nothing in flight writes already has its final value |
| ScalarCode.KillKeepsDests | src/compute/control/IExecute.h:2035-2063 | Killed instructions stay on the scoreboard |
| Pipelines.Pipeline.Decode | src/compute/control/IDecode_1S.h:178-222 | A clock of decode: it hands over iff no operand still to be read has a bank conflict or a write in flight, and a division finds the last one at least eight clocks ago, anything else the last one at least eight clocks less the stages ago; the instruction handed over is the next one and its operands are those of the final registers; a stall keeps what was latched and leaves less to wait for, unless a write is in flight |
| Pipelines.Pipeline.Frontend | src/compute/control/IDecode_1S.h:136-225 | After decode, what is in flight and what is handed over together compute what sequential execution has computed |
| Pipelines.OperandsRead | src/compute/control/IDecode_1S.h:117-133 | Operands read without hazard or latched in an earlier clock are those of sequential execution |
| Pipelines.Pipeline.Backend | src/compute/control/Scoreboard.h:250-298 | Within a clock: scoreboard, register write, execute keep board and pipeline in step, with any kill |
| Pipelines.Pipeline.Clock | src/compute/control/IDecode_1S.h:136-225 | One clock keeps the scoreboard equal to the destinations in flight, never over- or underflows, refines sequential execution, and brings a stalled instruction nearer to issue; hands over iff operands and units are free, by the clocks since the last division, and never while one is held beside the ring; after a kill nothing in flight changes a register |
| Pipelines.Run | src/compute/control/IDecode_1S.h:136-225 | Any straight-line scalar program, 1 to 31 stages, any opcodes and banks: after draining the registers are those of sequential execution; clocks are bounded; at most one board entry per stage |
| Pipelines.Fill | src/compute/control/SimdCluster.h:422-435 | The slot count is tight: as many independent instructions as stages fill the board |
| Pipelines.RunFlushed | src/compute/control/IExecute.h:2184-2198 | With flushes at any moment the board never under- or overflows |
| CriticalPaths.Dag.VisitEdge | src/isa/analysis/TimingDAG.cpp:222-235 | Visiting an edge keeps the invariant of the pass: counters are the edges seen, the queue holds exactly the nodes seen on all edges and not yet left, costs are the costliest over the edges seen, whatever an earlier pass left behind |
| CriticalPaths.Dag.CriticalPath | src/isa/analysis/TimingDAG.cpp:190-260 | On any graph without cycles whose nodes the source reaches, with positive costs, the extracted chain copies a source-to-sink path of maximum cost |
| CriticalPaths.AnalyseBoth | src/wcet.cpp:613-626 | Both analyses in a row, costs and predecessors never reset, each give a maximum-cost path for their own weights; in the nodes' own times, the first weighs every path by its edges and the second by its edges and its scratchpad requests |
| CriticalPaths.TimeIsMoved | src/isa/analysis/TimingDAG.cpp:225-235 | Both analyses see the same paths; stripping moves the time of all scratchpad requests on a path to its edges and loses none |
| CriticalPaths.AccessAdds | src/isa/analysis/TimingDAG.cpp:225-235 | The second analysis has weights at least those of the first, which is why the stale marks do no harm |
| DagAppending.Append | src/isa/model/DAG.cpp:292-339 | Copies each reachable node once with block and access, each edge once in order with its cost, and counts incoming edges |
| DagAppending.PathIsCopied | src/isa/model/DAG.cpp:292-339 | Every path from the source has a copy of the same cost |
| DagAppending.PathHasOriginal | src/isa/model/DAG.cpp:292-339 | Every path in the copy from its source is such a copy |
| DagAppending.LongestIsCopied | src/isa/model/DAG.cpp:292-339 | A maximum-cost path stays one |
| PhaseList.BuildPhases | src/isa/model/ProgramPhaseList.cpp:26-54 | One execute and one access phase for every access of the critical path, in order: each access with its kind and cost, and the phases up to it add up to the fill of the pipeline and the path's cost so far; only edges after the last access are lost |
| PhaseList.FoldingKeepsTime | src/isa/analysis/TimingDAG.cpp:225-235 | A path with its scratchpad requests as computation takes as long as with them as accesses |
| PathPhases.SegmentIsLonger | src/isa/analysis/TimingDAG.cpp:222-235 | Between any two blocks that both visit, the costliest path takes at least as long as any other path |
| PathPhases.PhasePair | src/isa/model/ProgramPhaseList.cpp:26-54 | Each pair of phases is the access and the edges since the access before it, with the fill of the pipeline in the first |
| PathDominance.EmbeddedWcet | src/isa/model/ProgramPhaseList.cpp:56-83 | Leaving out accesses and merging the execute phases around them never raises the closed form, for any number of work-groups |
| PathDominance.CoveredDominates | src/wcet.cpp:613-626 | If the costliest path visits every block with an access, its closed form is no less than that over any path |
| PathDominance.DominatesExactly | src/isa/analysis/TimingDAG.cpp:225-235 | It is no less, whatever the accesses cost, iff the costliest path visits every block with an access that can lie between source and sink |
| PathPhases.DearAccessBreaks | src/isa/analysis/TimingDAG.cpp:225-235 | For any access that a path misses, some cost of it makes the closed form over that path too small for a path that makes it, for one work-group already |
| PathPhases.DearBranchTakesLonger | src/isa/analysis/TimingDAG.cpp:225-235 | A graph of four blocks whose costliest path has a closed form below the schedule of one work-group on the other path |
| PathDominance.UnavoidableWithin | src/isa/model/ProgramPhaseList.cpp:26-54 | If no path misses an access, every path has as many phases as the costliest one and none of them takes longer |
| PathPhases.PhasesNoSlower | src/isa/model/ProgramPhaseList.cpp:26-54 | Where no edge and no access takes longer, no phase does |
| CriticalPhases.PhasesOf | src/isa/model/ProgramPhaseList.cpp:26-54 | The phases of an extracted critical path: alternating, a pair for every access on it complete up to that access, and execute phases that add up, with the edges after the last access, to the cost of the costliest path and the fill of the pipeline |
| CriticalPhases.AnalysePhases | src/wcet.cpp:613-626 | Both phase lists of the analysis, each all that PhasesOf says for the costliest path under its own weights; they are the phases of the nodes' own times along that path, in the second list with every scratchpad request as part of the computation |
| CriticalPhases.TimesOfPath | src/isa/model/DAG.cpp:151-166 | What the phases of a path are taken of is, in the nodes' fields, all its edge and access times, scratchpad requests moved but not lost |
| PhaseList.ComputeWcet | src/isa/model/ProgramPhaseList.cpp:56-83 | The loop with its wrapped neighbour index computes the closed form |
| PhaseList.WcetIsSoundAndExact | src/isa/model/ProgramPhaseList.cpp:56-83 | Two slots that alternate, any durations within the phases' bounds: all work-groups are done by the closed form, with equality at the bounds |
| PhaseList.WcetBounds | src/isa/model/ProgramPhaseList.cpp:85-137 | The closed form lies between both lower bounds (without refresh) and the single-buffered time |
| PhaseList.BoundsAre | src/isa/model/ProgramPhaseList.cpp:85-137 | In the schedule of both slots, the lower bounds are the work of the busiest unit (without refresh) and of the busier slot, and the single-buffered time is the work of both slots |
| PhaseList.WcetIsMonotone | src/isa/model/ProgramPhaseList.cpp:56-83 | More work-groups never take less time |
| RefreshInflation.InflationIsSound | src/util/ddr4_lid.cpp:325-338 | Refreshes falling due within the inflated time are at most those charged, and the time left after them is enough for the computation |
| RefreshInflation.ChargeIsLeast | src/util/ddr4_lid.cpp:325-338 | The stretch between refreshes is the most whole cycles that fit, the refreshes charged are the fewest stretches that hold the computation, the cycles added the fewest that hold those refreshes; nothing inflates to nothing |
| RefreshInflation.InflationIsExact | src/util/ddr4_lid.cpp:325-338 | These conditions determine the inflated time |
| RefreshInflation.InflationIsBounded | src/util/ddr4_lid.cpp:325-338 | In the timing and the cycles alone: at most one refresh and one cycle of rounding more than the share of refreshes |
| RefreshInflation.InflationIsMonotone | src/util/ddr4_lid.cpp:325-338 | More cycles never inflate to less |
| RefreshInflation.ReportedBoundIsMonotone | src/wcet.cpp:508-514 | So does the bound that is reported, upload included, for more work-groups |
| RefreshInflation.ComputePerfectParallelism | src/isa/model/ProgramPhaseList.cpp:85-109 | The busiest unit's total, refreshes of DRAM included, is at least the total without and at most the inflated closed form |
| RefreshInflation.ReportBounds | src/wcet.cpp:613-622 | Best case, bound and single-buffered time as reported and in this order, with program upload and inflation; whatever the phases take within their bounds, the bound leaves time for all work-groups, the upload and every refresh that falls due within it |
| KernelBounds.FeasibleIsBounded | src/isa/analysis/TimingDAG.cpp:222-260 | If no path misses an access, work-groups on any mixture of paths that take no longer than the nodes say, scratchpad requests included, stay phase by phase within the phases of the costliest |
| KernelBounds.AnalyseKernel | src/wcet.cpp:613-626 | From graph, grid and DRAM timing to the figures of both analyses, for as many work-groups as the grid has: each list is of a costliest path, its figures are in order, and the bound covers every run within its phases; if no path misses an access, every run on any mixture of paths in the nodes' own times, none of them stripped |
| WorkDistribution.EnumerateGroups | src/compute/control/WorkScheduler.h:320-339 | Group i is at its place in row-major order; the number of groups is the one the analysis counts iff the grid is not empty |
| WorkDistribution.TidXIs | src/compute/control/RegFile.h:495-515 | The shifts and masks of the x identifier amount to offset plus thread number modulo width |
| WorkDistribution.TidYIs | src/compute/control/RegFile.h:516-546 | Those of the y identifier to offset plus thread number divided by width |
| WorkDistribution.ReadTidX | src/compute/control/RegFile.h:495-515 | All lanes of a column at once |
| WorkDistribution.ReadTidY | src/compute/control/RegFile.h:516-546 | All lanes of a column at once |
| WorkDistribution.ExactlyOneThread | src/wcet.cpp:492-505 | Every position of the grid is produced by exactly one group, column and lane |
| Bits.AndHighOnes | src/compute/control/RegFile.h:530-532 | A mask without its lowest ones rounds down |
| LinearLoads.RegistersTheorem | src/mc/control/StrideSequencer.h:373-395 | The bursts of a tile are its cover and carry, in every selected lane, the index of the thread that wants the word, iff the first phase does not wrap and no line is lost (RegisterCondition) |
| LinearLoads.LoadTheorem | src/compute/control/IExecute.h:1356-1425 | Written to the register file in order, the bursts of a complete run give each enabled thread of the clipped work-group its element and change nothing else if no line is lost, and leave the last line of the tile alone if one is |
| LinearLoads.LoadLinear | src/compute/control/IExecute.h:1356-1425 | The registers are what those bursts write: if no line is lost, each enabled thread of the clipped work-group receives the buffer element at its own identifiers plus the offsets, and no other register changes; if one is, the last line of the tile receives nothing; so a load is right iff no line is lost, wherever the contents can tell |
| LinearLoads.ClippedColumn | src/mc/control/StrideSequencer.h:237-256 | A work-group clipped to one word a line, on a buffer of 33 words, loses a line |
| LinearLoads.NarrowBuffer | src/mc/control/StrideSequencer.h:344-345 | A work-group on a buffer of five words a line, whose first phase wraps |
| LinearLoads.LoadClippedColumn | src/mc/control/StrideSequencer.h:508-518 | Whatever is emitted for the tile of ClippedColumn, the registers it writes leave some thread without its element, for all contents that differ from what its last thread held |
| LinearLoads.IndexIsThread | src/mc/control/StrideSequencer.h:373-395 | The register index formed from phase and line is at most the number of the thread that wants the word, and equal iff the line is right |
| LinearLoads.OneThread | src/mc/control/StrideSequencer.h:373-395 | Each requested word has one thread, so the lane map is injective |
| TicketLock.Run | src/compute/control/SimdCluster.h:1073-1135 | Any sequence of events: requests complete in the order of their commits, at most one of DRAM and scratchpads works at a time, at most one request a slot is outstanding, and all of them can still be completed |
| TicketLock.Cluster.Commit | src/compute/control/IExecute.h:2097-2134 | A commit numbers its request, blocks its work-group and flushes younger requests, so that no ticket is used twice |
| TicketLock.Cluster.Start | src/sp/control/StrideSequencer.h:390-393 | Only the oldest outstanding request may start, and it always may |
| TicketLock.Cluster.Done | src/compute/control/SimdCluster.h:1073-1107 | A unit at work completes the oldest request, frees its work-group and the next ticket comes up; otherwise nothing changes |
| TicketLock.Cluster.ServeOldest | src/compute/control/SimdCluster.h:1073-1107 | From every reachable state the unit of the oldest request fetches, starts and completes it |
| TicketLock.Cluster.AtMostOneRuns | src/mc/control/StrideSequencer.h:457-465 | No two units work at the same time |
| TicketLock.Cluster.HolderIsHead | src/compute/control/IExecute.h:1737-1766 | The oldest request has the ticket that is up and is in work, in hand, or at the head of the queue of a free unit: no deadlock, with tickets modulo 16 |

## Left out

- Timing and energy of DRAM: the timing rules are an arbitrary predicate on command and bank; completion cycles and statistics are not modelled.
- Depth and back-pressure of the FIFOs between sequencer, command generator and arbiter; a request is translated in one step.
- The distance heuristic of activations (`precharge_distance`) is a parameter.
- 32-bit wrap of addresses and requests with no period: requests must have a period and end below the top of the address space by a period and a window (`InRange`).
- Byte addresses that are not multiples of four.
- Word masks and register offsets that ride on a column access: covered by the data path, not by the command path.
- The two clocks between reading the scratchpad and writing DRAM: a beat is read and written in one step, since a request does not write the scratchpad it reads.
- Reading DRAM rows that were never written returns arbitrary values and is excluded from the transfer results.
- LinearLoads.LoadLinear: requires that the first phase does not wrap, because line registers before the first line then form indexes outside the work-group, whose truncation is not part of this model; RegistersTheorem covers these requests. Unit elements, offsets that are not negative and inside the buffer line; vector elements and edge clipping to the left are not modelled. DRAM is a sequence of words there and bursts are taken in order.
- Branches, control stack, masks, CPOP injection, vector instructions with several warps, two work-groups sharing the pipeline, and the three-stage decoder: the pipeline runs one straight-line scalar program. A vector instruction is a scalar one per column.
- Implicit reads of stride descriptor registers by memory instructions (`ssp_match`) and disabling of scoreboard entries when a work-group ends.
- Pipelines.RunFlushed: a flush kills what is in execute; decode goes on with its instruction, which is more than the hardware does.
- Execute depth is 1 to 31 in the model; the simulator demands at least 3.
- Node lookup by basic block and `setSource`/`setSink` of graphs: nodes are addressed directly. The expanded-loop flag of copied nodes is not modelled.
- Assembler, command line, statistics, file formats, CAM-indexed transfers, floating-point semantics.
- StrideRun.Sequence: requires one period or more and an end a period and a window below the top of the address space, because the address registers would wrap otherwise.
- StrideSequencing.StrideSequencer.InitRequestRegs: requires the same.
- StrideCommands.CommandsOf: requires the same.
- StrideRun.SequenceTheorem: requires one period or more.
- LinearLoads.LoadTheorem: requires what LoadLinear requires.
- KernelBounds.AnalyseKernel: requires a grid that is not empty; promises nothing for edges after the last access, and for mixed paths only where no path misses an access.
- StrideRun.PlacementTheorem: periods that overlap have no single destination for a word; they are the subject of OverlapTheorem.
- CommandArbitration.CmdArb.CmdBestCandidates: does not determine the chosen activation beyond the candidates after it.
- CommandArbitration.CmdArb.Clock: does not model the assertion that at most eight refreshes are pending, which depends on the timing rules.
- DramSystem.Run: requires that no linear stride ends in the top bank pair and row; RefreshWhileOpen shows that it has to.
- DramSystem.System.Finish: requires the same, because a refresh may come while the queues drain.
- ScratchpadMemory.StorageArray.DramRead: requires the four words read to be in the scratchpad; the source reads outside its array otherwise.
- ScratchpadMemory.StorageArray.RfRead: requires the same of a row.
- ScratchpadMemory.WindowToRegisters: requires the same of the window.
- ScratchpadMemory.StorageArray.DramWrite: does not stop at the size assertion, which is one word too strict; LastWordTripsAssertion says for which tiles it fails.
- ScratchpadMemory.StorageArray.RfWrite: does not stop at the size assertion either.
- DataQueues.DoRead: does not carry the register offsets of the lanes; LinearLoads covers them.
- DataQueues.StoreBurst: requires the words that its beats read to be in the scratchpad.
- TileTransfer.Save: requires the same of the whole tile (`Readable`).
- TileTransfer.RoundTrip: requires the same.
- Ringbuffers.Ringbuffer.UpdateAll: does not tell injected CPOPs apart, which survive the source's invalidation loop.
- Scoreboards.Scoreboard.PushPop: does not keep the population bits per work-group and the counters of the control stack.
- Scoreboards.Scoreboard.Check: looks the register up in the queue instead of the population bits, and leaves out implicit reads.
- DagAppending.Append: does not model the expanded-loop flag and the lookup of nodes by block.
- CriticalPaths.Dag.CriticalPath: requires a source other than the sink, and does not model that an edge cost is stored in 32 bits.
- LinearLoads.IndexIsThread: does not model CAM targets and the index transforms of two- and four-element vectors.
- TicketLock.Run: ticket signals arrive without delay; every completion and commit is one event.
