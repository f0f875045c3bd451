# Verified model of the APU microcode toolchain

This project models the core of the APU reference tools in Dafny and proves what they
are for:

* the static verifier of APU microcode, the image builder and parser around it, and the
  sequencer the verified programs run on, with its scoreboard, delayed kernels and
  transport engine (`Isa`, `Legality`, `ControlFlow`, `Precision`, `Apumc`, `Layout`,
  `Machine`, `Transport`, `Steps`, `Dispatch`, `LoopRounds`, `Transfers`, `Soundness`,
  `Progress`, `LoopBound`, `Scalar`, `Latency`, `Isolation`, `Containment`,
  `Conservation`, `Budget`, `Sequencer`, `Loader`, and the concrete programs in
  `StraightLine`, `Counterexamples` and `DmaWait`);
* the primitive engine on local memory, FIFOs and a bit reservoir, against the codec
  reference written in the other style (`Memory`, `LocalMemory`, `Reservoir`, `BitEngine`,
  `Entropy`, `Primitives`, `Instructions`, `Execution`, `Prediction`, `Kernels`, `Operands`,
  `KernelPrograms`, `Resampler`, `Crc`);
* the FLAC decoder from bits to streams (`BitStream`, `BitReader`, `Residual`,
  `Subframe`, `CodedNumber`, `Frame`, `FrameRoundTrip`, `FlacStream`, `Suffixes`,
  `WrittenSubframes`, `WrittenFrames`), after RFC 9639;
* the fixed-point keyword-spotting frontend (`Rounding`, `ComplexNumbers`,
  `Transforms`, `Dft`, `Fft`, `LogStage`, `Frontend`).

Code that updates things in place is modelled in place: the sequencer, the local
memory, the byte reader and the bit engine are classes, the FFT works on arrays, and the
worklist, the padding map and every decoding loop are methods with invariants. Each is
tied by its postcondition to a function on values, and the theorems are about those
functions. `Common`, `Arithmetic` and `Rounding` hold shared vocabulary and arithmetic.

`dafny verify dfyconfig.toml` checks the project.

How the machine is modelled: a run is any sequence of steps and idle cycles, so the
theorems hold for every fetch and stall schedule. Cycle counts, predicate inputs and the
timeout are a separate `Timing` value. The machine takes its engine as a parameter;
`Primitives` supplies the engine and discharges the conditions the theorems put on it,
with kernels as scripts over the local memory, and `KernelPrograms` puts the modelled
prediction kernels among them. `pushed` and `issued` are history variables: what the
input FIFO has accepted, and what output commands have carried.

Main results: `Soundness.VerifierSound`, `Progress.EveryPathEnds`, `LoopBound.RunsEnd`,
`Latency.TimingIsInvisible`, `Isolation.JobsDoNotInterfere`,
`Containment.RunStaysInWindow`, `Conservation.TransportConserves`, `Budget.RunBudget`,
`LoopRounds.LoopRunsItsCount` and `Sequencer.Sequencer.Run` about the machine;
`ControlFlow.ControlFlowReport`, `Precision.EdgesAreReal`, `Legality.LegalIff`,
`Apumc.BuildThenParse`, `Apumc.ParseThenBuild` and `Apumc.ImagesCanonical` about images;
`Loader.LoadedJobsAreSafe` and `Loader.LoadedJobsAreIndependent` about both together;
`Execution.EngineRefinesReader`, `Entropy.HuffmanRoundTrip`, `Prediction.RestoreIff`,
`Kernels.RestoreInChunks`, `KernelPrograms.MachinePredicts`,
`Resampler.StreamRefinesCodec` and `Crc.RemainderIff` about engine and codec;
`WrittenFrames.StreamIff`, `WrittenFrames.FrameIff` and `Frame.CorruptionDetected`
about FLAC; `Fft.FrameSpectrum`, `Frontend.FrontendStages` and `LogStage.LogMonotone`
about the frontend.

Where the code falls short of what a reader would expect, the theorem gives the input
and the condition:

* A write shorter than a word marks the whole word valid and so exposes leftover bytes:
  `Memory.WriteHidesLeftoversIff` for one write, `Counterexamples.LeftoversReachOutput`
  for a whole job. Non-interference therefore holds of runs whose refills and stores
  cover the words they touch.
* FRAME_COMMIT does not reset the retirement counter, although the instruction table in
  `docs/ip/apu.md` says so: `Counterexamples.CommitDoesNotRenewBudget` shows a run, and
  `Budget.DocumentedBudgetIff` says exactly when the two counts agree.
* The ALIGN instruction skips padding of any value, while the byte reader of the codec
  rejects padding that is not zero: `BitReader.PaddingIsNotChecked` shows a stream, and
  `BitReader.ReservoirRefinesReader` says exactly when the two agree.
* The builder accepts images with uncovered DMA waits that the parser refuses:
  `DmaWait.BuiltButRefused` shows one, and `Apumc.BuildThenParse` gives the condition.

## Model

| member | source | states |
|---|---|---|
| `Loader.LoadedJobsAreSafe` | scripts/apu_isa.py:864-1006 | A job started from any entry of an image that parses never traps on the PC range or the call stack, traps on a loop only for a run-time count of zero or above the limit, and at every point leaves the table payload and all bytes outside its scratch window as they were, for all data, predicate inputs and delays, and all kernels that leave the input alone, write only their destination and fault for reason 5 or 9 |
| `Loader.LoadedJobsAreIndependent` | scripts/apu_primitives.py:53-87 | A run of such a job whose refills and stores cover the words they touch agrees with the run from any other leftover scratch on outcome, registers, output and traps, whatever the kernels are |
| `Soundness.VerifierSound` | scripts/apu_isa.py:635-772 | Every run of an accepted program, for any data, predicate inputs and delays, avoids trap reasons 2 and 3, and reason 4 occurs only at a LOOP_SETUP with a rejected run-time count |
| `Soundness.StepSafe` | scripts/apu_interpreter.py:431-658 | One machine step from a state that abstracts to a reachable verifier state either ends safely or leads to such a state again |
| `Soundness.ControlSafe` | scripts/apu_interpreter.py:466-530 | The control instructions follow an edge the verifier explored: call, return, loop set-up and loop back included |
| `Soundness.ExecSafe` | scripts/apu_interpreter.py:431-696 | The simulation is kept over every mixture of steps and idle cycles |
| `Latency.TimingIsInvisible` | scripts/apu_interpreter.py:292-356 | If a job with flag predicates only finishes under one choice of kernel, transport, fetch and stall delays, then under any other choice it is still running, has hit the watchdog, or finished with the same registers, flags, retirement count, memory, FIFOs, output and job results |
| `Latency.TicksKeepFlush` | scripts/apu_interpreter.py:305-324 | A clock tick does not change the state reached when everything in flight has landed |
| `Latency.BusyRefines` | scripts/apu_interpreter.py:326-356 | While an operation is in flight, whatever a step does is one atomic step of the landed state or leaves it alone: the scoreboard lets no instruction see or overtake the pending register |
| `Latency.QuietRefines` | scripts/apu_interpreter.py:464-658 | With nothing in flight, a step with any delays is one step of the machine without delays |
| `Latency.EventRefines` | scripts/apu_interpreter.py:411-462 | Every step or idle cycle refines the machine without delays |
| `Latency.EventKeepsDoom` | scripts/apu_interpreter.py:437-444 | Once a fault is in flight the machine can wait, move or trap, and never finishes |
| `Latency.FinishIsAtomic` | scripts/apu_interpreter.py:431-696 | A run that finishes is a finishing run of the machine without delays |
| `Latency.AtomicIsFinish` | scripts/apu_interpreter.py:431-696 | Where the machine without delays finishes, no timed run ends in another state or traps for another reason than the watchdog |
| `Machine.NothingPending` | scripts/apu_interpreter.py:326-356 | Any instruction outside CONTROL and SCALAR that passes the scoreboard finds nothing in flight |
| `Isolation.JobsDoNotInterfere` | scripts/apu_primitives.py:36-87 | A run whose completed refills cover the words they touch and whose engine calls pass a test under which the engine is blind agrees with the run from any memory with the same table bytes, traps included |
| `Isolation.ExecAlike` | scripts/apu_interpreter.py:187-214 | Such runs from states that differ in invisible memory bytes only stay that way |
| `Isolation.ScriptsAreBlind` | scripts/apu_primitives.py:70-87 | Any engine that reaches the memory only through bounded reads and writes is blind to leftover bytes in every call whose stores cover the words they touch |
| `Isolation.WholeRunsAreCovered` | scripts/apu_interpreter.py:118-130 | Where the input is a whole number of words and every engine call passes the test, every run is covered |
| `Counterexamples.LeftoversReachOutput` | scripts/apu_interpreter.py:193-204 | For every input of one to three bytes, one job sends out different bytes from two memories that differ only in leftover scratch, because the short last refill marks its whole word valid |
| `Counterexamples.ProgramIsDeployable` | scripts/apu_isa.py:784-1006 | The program of the two counterexample runs is buildable for every legal budget; its image parses back to the program and the job entry |
| `Counterexamples.JobIsVerified` | scripts/apu_isa.py:635-772 | The verifier accepts the program of the two counterexample runs |
| `StraightLine.StraightAccepted` | scripts/apu_isa.py:676-772 | Every program of unpredicated instructions that fall through to an END is accepted |
| `Containment.RunStaysInWindow` | scripts/apu_primitives.py:56-87 | No run changes a byte outside the scratch window of its entry or below the table size, also when it traps |
| `Containment.CompletionsKeep` | scripts/apu_interpreter.py:187-214 | Completed transfers write inside the window only |
| `Conservation.TransportConserves` | scripts/apu_interpreter.py:99-214 | In every run, however it ends: the words pushed to the input FIFO spell the consumed input in order, no push overflows, output is a prefix of the ordered concatenation of the commanded payloads within the capacity, the logical counters stay within the physical ones, and committed output is frames times frame size until saturation; unless a transport fault is being reported, output and payload in flight are exactly what was commanded |
| `Conservation.RefillConserves` | scripts/apu_interpreter.py:193-204 | A refill with reserved space never overflows the FIFO and delivers exactly the next input bytes |
| `Conservation.IssueConserves` | scripts/apu_interpreter.py:99-158 | Issuing a transfer keeps the books and puts exactly one command in flight |
| `Conservation.JobConserves` | scripts/apu_interpreter.py:159-185 | FRAME_COMMIT, JOB_RESULT, EVENT and DMA_WAIT keep the books |
| `Conservation.ExecConserves` | scripts/apu_interpreter.py:99-214 | The books are kept over every mixture of steps and idle cycles, into every trap |
| `Transport.CompleteReasons` | scripts/apu_interpreter.py:187-214 | Failed completions carry reason 5 or 9 |
| `Transport.RefillWordsPack` | scripts/apu_interpreter.py:196-203 | The words pushed by a refill are the packed payload with the end flag on the last input word only |
| `Sequencer.Sequencer.Step` | scripts/apu_interpreter.py:431-658 | The step method on the mutable sequencer is the step function, whose meaning the lemmas of `Steps`, `Dispatch`, `LoopRounds` and `Transfers` give; it keeps retirements within budget and pays for every idle cycle |
| `Sequencer.Sequencer.Run` | scripts/apu_interpreter.py:660-696 | Every run ends in END or a trap, is one of the runs the theorems speak about, retires at most the budget and idles at most (budget + 1) timeouts |
| `LoopBound.RunsEnd` | scripts/apu_interpreter.py:431-696 | Every run of every program, accepted or not, retires no more instructions than a bound computed from the last address and the loop limit of its entry alone, and a run with that many timeouts of events is over, whatever the retirement budget |
| `LoopBound.EndsWithoutBudget` | docs/ip/apu.md:1049-1054 | With a budget above that bound a run of an accepted program ends at END or in a trap that is neither the budget nor the range nor the call stack, and a loop trap only for a rejected run-time count |
| `LoopBound.ControlHigher` | scripts/apu_interpreter.py:466-530 | Every control instruction that goes on inside the range climbs in an order bounded by the program: calls, returns, loop set-up, loop exit and loop repetition |
| `LoopBound.RunClimbs` | scripts/apu_interpreter.py:411-462 | A run retires no more than it climbs, and its other events are paid for by retirements and the running watchdog |
| `Sequencer.Sequencer.NoRetirementCycle` | scripts/apu_interpreter.py:411-420 | An idle cycle ticks the engines, advances the watchdog by one and traps exactly at the timeout |
| `Budget.RunBudget` | scripts/apu_interpreter.py:399-401 | The retirement counter of a run is the number of its retirements since the job began, never exceeds the limit, and is at the limit when the run ends with reason 8 |
| `Budget.BudgetTrapIff` | scripts/apu_interpreter.py:445-450 | A step traps with reason 8 exactly when it reaches the check with the counter at the limit, and then retires nothing |
| `Budget.DocumentedBudgetIff` | docs/ip/apu.md:1033-1033 | A run that ends with reason 8 has used up the budget per frame that the instruction table describes if and only if it has committed no frame |
| `Counterexamples.CommitDoesNotRenewBudget` | scripts/apu_interpreter.py:163-173 | A run that commits a frame and then traps with reason 8 after one of five allowed instructions |
| `Sequencer.Sequencer.TickKernel` | scripts/apu_interpreter.py:305-311 | In-place kernel tick against its specification |
| `Sequencer.Sequencer.CompleteKernel` | scripts/apu_interpreter.py:292-303 | In-place kernel write-back against its specification |
| `Sequencer.Sequencer.TickTransport` | scripts/apu_interpreter.py:313-324 | In-place transport tick and write-back against its specification |
| `Sequencer.Sequencer.Branch` | scripts/apu_interpreter.py:466-530 | In-place call stack and loop slot updates against their specification |
| `Sequencer.Sequencer.StepTransport` | scripts/apu_interpreter.py:569-584 | In-place issue of transport instructions against its specification |
| `Sequencer.Sequencer.StepPrimitive` | scripts/apu_interpreter.py:585-651 | In-place execution of primitive instructions against its specification |
| `Steps.ComparedThenPredicated` | scripts/apu_interpreter.py:269-287 | A comparison of two words, then an instruction with predicate 1 to 6: it is executed exactly when the words are equal, not equal, less as signed numbers, not less as signed numbers, less, or not less, and otherwise only the program counter and the count move |
| `Steps.StatusPredicated` | scripts/apu_interpreter.py:255-287 | With predicate 7 to 11 it is executed exactly when the input is exhausted, a word can be popped, the output FIFO has space, the kernel is done, or no transport is under way; a target without primitives reads its wires |
| `Steps.ScalarResults` | scripts/apu_interpreter.py:531-568 | Every scalar instruction moves on and writes the sum, difference, bits, shifted bits, floor quotient, extreme or nearest value of its operands to its destination and nothing else; CMP sets each flag to the comparison it stands for and writes nothing |
| `Steps.Branches` | scripts/apu_interpreter.py:466-485 | END ends, TRAP traps with reason 10, jumps and calls skip as many instructions as they say, a fifth nested call and a return on an empty stack trap with reason 3, and a return goes to the address remembered last |
| `Steps.CallReturns` | scripts/apu_interpreter.py:477-485 | A return that finds the stack as a call left it goes on behind the call with the stack from before it |
| `Steps.LoopBegins` | scripts/apu_interpreter.py:486-491 | A loop begins in a free slot with a count from one to the limit of the entry, and traps with reason 4 otherwise |
| `LoopRounds.RoundsLeft` | scripts/apu_interpreter.py:492-504 | In every run, as long as fewer rounds have been closed than a loop's counter says, the loop stays active with the rounds that are left, whatever lies in its body |
| `LoopRounds.LoopRunsItsCount` | scripts/apu_interpreter.py:486-504 | A loop that begins with n rounds closes exactly n: every closing before the last goes back to the start, the last one leaves and frees the slot |
| `Steps.Waits` | scripts/apu_interpreter.py:505-530 | WAIT goes on when the source it names is ready and otherwise spends one cycle, up to the timeout |
| `Steps.Books` | scripts/apu_interpreter.py:159-185 | DMA_WAIT, FRAME_COMMIT, JOB_RESULT and EVENT book frames, bytes, result and event at once, and trap when a frame would run ahead of input or output or a result code is above 22 |
| `Dispatch.EngineInstruction` | scripts/apu_interpreter.py:585-651 | A bitstream, entropy or local instruction spends a cycle exactly when it wants more bits than the stream holds and the input has not ended, or its FIFO is empty or full; otherwise the engine is asked once on the refilled input, its fault traps, and its writes land as words after its cycles unless the watchdog runs out |
| `Dispatch.KernelInstruction` | scripts/apu_interpreter.py:631-646 | A kernel instruction traps at once for an address, leaves any other fault to the next step, and otherwise moves on with its results there after one cycle or under way |
| `Dispatch.KernelRuns` | scripts/apu_interpreter.py:292-311 | A kernel with n cycles left changes nothing but the count in fewer cycles and has written its results and its flag in exactly n |
| `Dispatch.StepOrder` | scripts/apu_interpreter.py:431-464 | After the ticks a step reports a kernel fault, then a transport fault, then an illegal instruction, then a spent budget; an instruction whose predicate holds is held exactly while a register it reads or writes is in flight, and any engine, transport or END instruction while anything is |
| `Dispatch.ClearIff` | scripts/apu_interpreter.py:326-356 | The scoreboard holds an instruction exactly when its operands or result are among the pending registers, or it has to wait for all of them |
| `Dispatch.JobBegins` | scripts/apu_interpreter.py:358-380 | A job starts with zero registers, no flag, call, loop or command left over, empty FIFOs and no stored word of scratch memory; what lies in memory is kept |
| `Transfers.RefillIssues` | scripts/apu_interpreter.py:99-130 | INPUT_REFILL puts the next input bytes on the way, as many as are asked for and left, or stalls until the FIFO has space for their words |
| `Transfers.OutputIssues` | scripts/apu_interpreter.py:131-158 | An output command puts stored bytes on the way if they make whole frames and fit the output |
| `Transfers.CommandApproaches` | scripts/apu_interpreter.py:187-192 | A command with more than one cycle left comes one cycle nearer and nothing else happens |
| `Transfers.RefillLands` | scripts/apu_interpreter.py:193-204 | A refill that completes leaves its bytes in scratch memory and at the end of the input stream and reports how many there are |
| `Transfers.OutputLands` | scripts/apu_interpreter.py:205-214 | An output command that completes appends its bytes to the output, publishes the length of the output in the context word and reports its count |
| `Scalar.LogicMeaning` | scripts/apu_interpreter.py:543-548 | AND, OR and XOR act on every bit |
| `Scalar.ShiftLeftMeaning` | scripts/apu_interpreter.py:549-550 | A left shift moves the bits and fills with zeros |
| `Scalar.ShiftRightMeaning` | scripts/apu_interpreter.py:551-552 | A right shift moves the bits and fills with zeros |
| `Scalar.ArithmeticShiftMeaning` | scripts/apu_interpreter.py:553-554 | An arithmetic shift divides the signed value, rounding down |
| `Scalar.SaturationMeaning` | scripts/apu_interpreter.py:422-429 | Saturation gives the nearest value of the signed or unsigned range |
| `ControlFlow.ControlFlowReport` | scripts/apu_isa.py:635-772 | The worklist always ends, accepts exactly when the loop pairing succeeds, no reachable state is bad, the reachable states are within the limit and an END or TRAP is reachable, and its report of states, edges, terminals, loops and call depth is exact |
| `ControlFlow.ScanLoops` | scripts/apu_isa.py:641-668 | The linear scan succeeds exactly when every loop instruction of the range is well placed, and records the pairs and intervals |
| `ControlFlow.FindCrossing` | scripts/apu_isa.py:669-674 | The pairwise test finds a crossing exactly when there is one |
| `ControlFlow.CrossingIff` | scripts/apu_isa.py:669-674 | The listed intervals cross exactly when two loops of the program do |
| `ControlFlow.Visiting` | scripts/apu_isa.py:685-746 | One iteration computes the successors, terminal flag or rejection of its abstract state |
| `ControlFlow.ClosedCovers` | scripts/apu_isa.py:676-747 | A set that holds the initial state and is closed under successors holds every reachable state, whatever the order of exploration |
| `ControlFlow.TooMany` | scripts/apu_isa.py:747-750 | More visited states than the limit means that the program is not acceptable |
| `ControlFlow.WorklistEnds` | scripts/apu_isa.py:751-752 | With the worklist empty, acceptance is decided by the terminals |
| `Progress.EveryPathEnds` | docs/ip/apu.md:1049-1054 | Where no reachable state is unsafe, every path that repeats no loop, from every reachable state, can be completed to an END or a TRAP |
| `Progress.MaximalPathsEnd` | docs/ip/apu.md:1049-1054 | Such a path that cannot go on has reached an END or a TRAP |
| `Progress.PathsAreShort` | scripts/apu_isa.py:683-747 | Such paths are no longer than the fifth power of the last address plus three |
| `Progress.TerminalTestRedundant` | scripts/apu_isa.py:751-752 | The final test for a reachable END or TRAP never decides acceptance |
| `Precision.PairedIff` | scripts/apu_isa.py:641-674 | The loop pairing succeeds if and only if control instructions are known, jumps and calls stay in the range, every LOOP_SETUP and LOOP_BACK belongs to a pair of consecutive uses of one slot whose way back leads behind the setup, and loops lie behind or inside one another |
| `Precision.AcceptedIff` | scripts/apu_isa.py:635-772 | A program is accepted if and only if it is structured in this sense, no reachable state is unsafe, and the reachable states are at most 64 for every instruction an image may hold |
| `Precision.EdgesAreReal` | scripts/apu_isa.py:685-746 | No edge is explored in vain: for every state at a legal instruction of a paired program, every successor through a false predicate or from a control or scalar instruction is the next state of some machine in that state; a successor outside the range is a trap |
| `Precision.UnsafeIsReal` | scripts/apu_isa.py:699-746 | No state is rejected in vain: in every state the exploration calls unsafe some machine traps on the range, the call stack or a loop |
| `Legality.LegalIff` | scripts/apu_isa.py:401-584 | An instruction is accepted for a target and image version if and only if the target knows it, every field is one the instruction table allows, and the target offers all primitives it needs |
| `Legality.RequiredMaskIff` | scripts/apu_isa.py:370-399 | The required mask of an instruction has exactly the bits of the primitives it needs |
| `Legality.EntryLegalIff` | scripts/apu_isa.py:598-633 | A descriptor is accepted if and only if it runs inside the program with bounds on loops and retirements, its primitives are offered by the target, its scratch window lies between the tables and the end of the workspace, and its tables in the table payload |
| `Legality.ContentsLegalIff` | scripts/apu_isa.py:808-834 | Builder and parser accept program and entries, short of the flow of control, if and only if every instruction is legal and the three entries stand in order, each legal and declaring the primitives its range needs |
| `Legality.DmaCoveredIff` | scripts/apu_isa.py:987-999 | The parser besides refuses exactly the ranges that wait for a transfer while the entry declares none of the three |
| `Legality.MasksCoverIff` | scripts/apu_isa.py:814-834 | An entry is accepted exactly if it declares every primitive the instructions of its range need, some kernel where they wait for one |
| `Apumc.BuildThenParse` | scripts/apu_isa.py:784-861 | Parsing what was built returns program, entries, table and header, and fails exactly when a DMA wait lacks a transport primitive |
| `Apumc.ParseThenBuild` | scripts/apu_isa.py:864-1006 | An accepted image in the layout of the builder is exactly what the builder makes of the parsed contents |
| `Apumc.ImagesCanonical` | scripts/apu_isa.py:864-1006 | Two accepted images with equal header, program, entries and table are byte-identical |
| `DmaWait.BuiltButRefused` | scripts/apu_isa.py:987-999 | The image of a wait for DMA without transport primitives is built and then refused by the parser |
| `Apumc.InstructionRoundTrip` | scripts/apu_isa.py:271-303 | Decoding an encoded instruction gives it back, and it fits 64 bits |
| `Apumc.InstructionCanonical` | scripts/apu_isa.py:271-303 | Encoding a decoded 64-bit word gives it back |
| `Apumc.EntryRoundTrip` | scripts/apu_isa.py:319-335 | The words of a valid descriptor fit, have clear reserved bits and parse back to it |
| `Apumc.EntryCanonical` | scripts/apu_isa.py:931-956 | Descriptor words with clear reserved bits are the words of the parsed entry |
| `Apumc.PayloadDetermined` | scripts/apu_isa.py:961-970 | Behind the header every byte is decoded or zero padding |
| `Apumc.CheckPadding` | scripts/apu_isa.py:961-970 | The occupancy map accepts exactly the images whose unoccupied bytes are zero |
| `Apumc.Build` | scripts/apu_isa.py:784-861 | The builder succeeds exactly on buildable contents and returns their image |
| `Apumc.Parse` | scripts/apu_isa.py:864-1006 | The parser succeeds exactly on images that meet all its rules and returns program, entries and header |
| `Layout.ImageLayout` | scripts/apu_isa.py:784-861 | Header words, descriptor words, instruction fields, padding and tables of a built image, read straight from its bytes |
| `Layout.ParsedLayout` | scripts/apu_isa.py:864-970 | Of an accepted image, the header says version, sizes, union of primitives, scratch end and check value as they are; the entries and instructions returned are those that lie at its offsets, and every byte outside the four regions is zero |
| `Layout.RangesFitIff` | scripts/apu_isa.py:890-925 | The range tests accept a header if and only if it is aligned, within the limits of the target, and header, program, descriptors and tables lie inside the image without a common byte |
| `Memory.WriteHidesLeftoversIff` | scripts/apu_primitives.py:79-87 | A write keeps leftover bytes invisible if and only if it covers or finds valid every word it touches |
| `Memory.HalfWordLeak` | scripts/apu_primitives.py:79-87 | A two-byte write in a fresh epoch exposes the rest of its word |
| `Memory.UncoveredByte` | scripts/apu_primitives.py:79-87 | Any write that leaves part of an invalid word uncovered exposes some leftover byte |
| `Memory.ReadsAgree` | scripts/apu_primitives.py:70-77 | Memories that agree on valid words and tables answer every read alike |
| `Memory.EpochsDoNotInterfere` | scripts/apu_primitives.py:53-54 | After a new epoch no client that writes whole words can tell two memories with the same table apart |
| `Memory.SessionStaysInWindow` | scripts/apu_primitives.py:56-87 | No sequence of accesses changes a byte outside the window or in the table payload |
| `LocalMemory.LocalMemory.Read` | scripts/apu_primitives.py:70-77 | The in-place memory answers every read as the memory value does |
| `LocalMemory.LocalMemory.Write` | scripts/apu_primitives.py:79-87 | An in-place write leaves exactly the memory the value-level write gives, or the old one and the fault |
| `LocalMemory.LocalMemory.NewEpoch` | scripts/apu_primitives.py:53-54 | A new epoch clears the validity flags and nothing else |
| `LocalMemory.LocalMemory.PublishTable` | scripts/apu_primitives.py:42-47 | A table of whole words within the workspace replaces the front of the memory; any other is refused |
| `Primitives.EngineMeetsAll` | scripts/apu_primitives.py:228-411 | With kernels that leave the input alone, write only their destination and fault for reason 5 or 9, the engine faults for reason 5 or 9 only, never fills the input FIFO and writes only the destination of a kernel |
| `Primitives.EngineContainedAndBlind` | scripts/apu_primitives.py:228-411 | Whatever the kernels are, the engine stays inside the window, and its calls whose stores cover the words they touch cannot see leftover bytes |
| `Primitives.ClockIsBlind` | scripts/apu_primitives.py:125-129 | Cycle counts computed from registers, input and what a kernel read cannot depend on leftover bytes in such calls |
| `Primitives.SyncFindsFirst` | scripts/apu_primitives.py:259-276 | FRAME_SYNC reports the first byte position that matches, leaves the pattern at the front, and gives up only when no allowed position matches |
| `Execution.BitReads` | scripts/apu_primitives.py:249-252 | GET writes the number the next bits of the stream spell and consumes them, PEEK writes it and consumes nothing, SKIP consumes them and writes nothing; with too few bits each faults |
| `Execution.Aligns` | scripts/apu_primitives.py:253-256 | ALIGN consumes exactly the bits missing to a multiple of eight |
| `Execution.Refills` | scripts/apu_primitives.py:246-248 | REFILL keeps the stream and writes how many bits, up to 64, lie unpacked: as many as asked for or all there are |
| `Execution.Synchronizes` | scripts/apu_primitives.py:257-276 | FRAME_SYNC on the stream: aligned, the first matching byte position is written and left at the front |
| `Execution.CrcExtends` | scripts/apu_primitives.py:277-294 | CRC8 and CRC16 take the check value of a byte string to that of the string with one more byte |
| `Execution.CountsRun` | scripts/apu_primitives.py:334-343 | UNARY on the stream counts a run up to the bit that ends it, or faults beyond the limit |
| `Execution.ReadsRice` | scripts/apu_primitives.py:344-363 | RICE4 and RICE5 on a written Rice code return the signed value as a word and consume the code |
| `Execution.ReadsEscape` | scripts/apu_primitives.py:348-354 | With all parameter bits set they return the signed number of as many bits as asked for |
| `Execution.RestoresSign` | scripts/apu_primitives.py:364-374 | SIGN_RESTORE on the stream returns magnitude plus extra bits under the sign bit; a magnitude of zero reads nothing |
| `Execution.DecodesSymbol` | scripts/apu_primitives.py:302-333 | The Huffman instructions on the bytes of a table in local memory: symbol in the low half of a word, code length in the five bits above; the registers spell the symbol and exactly its code is consumed |
| `Execution.Loads` | scripts/apu_primitives.py:381-389 | LD32 writes the little-endian word at base plus register plus signed offset exactly if it is aligned, in the window and stored in this job |
| `Execution.Stores` | scripts/apu_primitives.py:381-390 | ST32 leaves exactly the four bytes of the register there and marks the word as stored |
| `Execution.LooksUp` | scripts/apu_primitives.py:391-397 | TABLE8, TABLE16 and TABLE32 write the element with the given index exactly if it is aligned and inside the table payload |
| `Execution.Pops` | scripts/apu_primitives.py:398-402 | FIFO_POP takes the oldest word and writes its bytes, their number and the end flag |
| `Execution.Pushes` | scripts/apu_primitives.py:403-411 | FIFO_PUSH appends the low bytes of a register, as many as asked for, with the end flag, exactly if the sideband is legal and there is space |
| `Execution.EngineRefinesReader` | scripts/apu_primitives.py:240-258 | From an empty reservoir on, through every sequence of arrivals and of GET, PEEK, SKIP and ALIGN instructions, the engine writes what a byte reader of the bytes arrived so far reads and stands at its position modulo eight, if and only if every ALIGN reached skips zeros only |
| `Instructions.UnaryCounts` | scripts/apu_primitives.py:334-343 | UNARY returns the length of the run, consumes it with the bit that ends it, and faults exactly beyond the limit |
| `Instructions.HuffmanDecodes` | scripts/apu_primitives.py:302-333 | HUFF_SYMBOL, HUFF_PAIR and HUFF_QUAD on a code of the table in local memory: the registers spell the symbol, whole, in nibbles or in bits, and exactly the code is consumed |
| `Instructions.HuffmanMessage` | scripts/apu_primitives.py:302-333 | Executing the instruction once per symbol over the concatenated codes of any message gives the registers of every symbol and leaves what stands behind the message |
| `Instructions.SignRestored` | scripts/apu_primitives.py:364-374 | SIGN_RESTORE adds the extra bits, applies the sign bit and consumes both |
| `Instructions.PushThenPop` | scripts/apu_primitives.py:398-411 | A word pushed to a FIFO and popped gives back data, byte count and last flag |
| `Instructions.StoreThenLoad` | scripts/apu_primitives.py:381-390 | A stored word is loaded back from the same address |
| `BitReader.ReservoirRefinesReader` | scripts/apu_primitives.py:177-200 | From the empty state, through every interleaving of pushes into the 64-word FIFO and of GET, PEEK, SKIP and ALIGN, the reservoir answers as a byte reader of the bytes pushed so far does and ends at its position modulo eight, if and only if every ALIGN reached skips zero bits only |
| `BitReader.SameAnswers` | scripts/apu_codecs.py:204-242 | Reservoir and reader that hold the same remaining bits, ALIGN of the reader included with its test for zero padding: over every sequence of operations answers and position modulo eight agree if and only if the padding skipped at every ALIGN reached is zero |
| `BitReader.AlignMeaning` | scripts/apu_codecs.py:239-242 | Aligning the reader succeeds if and only if all bits up to the next byte are zero, and then leaves the bits behind them |
| `BitReader.PaddingIsNotChecked` | scripts/apu_primitives.py:254-258 | Byte 0xFF, one bit read, then ALIGN: the engine answers and stands at a byte boundary, the reader refuses the padding |
| `BitReader.NoAlignNoPadding` | scripts/apu_primitives.py:187-200 | Sequences without ALIGN meet the condition, so there the two always agree |
| `BitReader.Reader.Get` | scripts/apu_codecs.py:213-225 | The value read in byte-sized pieces is the bits read, most significant first; truncation is reported and consumes nothing |
| `BitReader.Reader.GetSignedBits` | scripts/apu_codecs.py:227-229 | The value read is the two's complement of the bits |
| `BitReader.Reader.UnaryZeros` | scripts/apu_codecs.py:231-237 | The zeros before the next one are counted, up to the limit |
| `BitReader.Reader.Align` | scripts/apu_codecs.py:239-242 | Padding to the next byte must be zero |
| `Reservoir.RefillKeepsStream` | scripts/apu_primitives.py:177-185 | Refilling moves words into bits without changing the stream |
| `Reservoir.PeekReadsStream` | scripts/apu_primitives.py:187-194 | Peeking reads the front of the stream and consumes nothing |
| `Reservoir.GetReadsStream` | scripts/apu_primitives.py:196-200 | Getting reads and consumes the front of the stream |
| `Reservoir.PushExtendsStream` | scripts/apu_primitives.py:111-114 | A packed word is accepted if and only if the FIFO holds fewer than 64 words, and then appends its bytes to the stream |
| `Reservoir.PackWordBytes` | scripts/apu_interpreter.py:197-203 | A packed FIFO word unpacks to its bytes |
| `Reservoir.PackedStream` | scripts/apu_interpreter.py:196-203 | The packed words of any input spell its bits |
| `BitEngine.BitEngine.Refill` | scripts/apu_primitives.py:177-185 | In-place refill against its specification |
| `BitEngine.BitEngine.PeekBits` | scripts/apu_primitives.py:187-194 | In-place peek against its specification |
| `BitEngine.BitEngine.GetBits` | scripts/apu_primitives.py:196-200 | In-place get against its specification |
| `BitEngine.BitEngine.Rice` | scripts/apu_primitives.py:344-363 | In-place Rice decoding against its specification |
| `BitEngine.BitEngine.Huffman` | scripts/apu_primitives.py:302-333 | In-place canonical Huffman scan against its specification |
| `Entropy.HuffmanRoundTrip` | scripts/apu_primitives.py:302-333 | For every table of nondecreasing lengths and every message whose codes fit their lengths, decoding the concatenated codes returns the symbols and consumes exactly those bits |
| `Entropy.SymbolWritten` | scripts/apu_primitives.py:302-333 | Whatever is decoded was written: the stream starts with the code of a row up to which the table is in canonical order, the symbol is that row's, and exactly the code is consumed |
| `Entropy.PrefixFree` | scripts/apu_primitives.py:309-322 | The codes assigned by the scan are prefix-free |
| `Entropy.CodesAscend` | scripts/apu_primitives.py:309-322 | A later code lies past every extension of an earlier one |
| `Entropy.RiceAgrees` | scripts/apu_primitives.py:344-363 | RICE4 and RICE5 decode the residual of the codec modulo 2^32, leave the same bits, and fail in the same cases with the corresponding fault |
| `Entropy.RawAgrees` | scripts/apu_primitives.py:348-354 | The escape form reads the signed residual of the codec |
| `Residual.ResidualRoundTrip` | scripts/apu_codecs.py:578-608 | For every partitioning and Rice or escape code the format allows, decoding written residuals returns them and stops at the last bit |
| `Residual.PartitionsRoundTrip` | scripts/apu_codecs.py:589-605 | The same for the partitions, the shortened first one included |
| `Residual.RiceRoundTrip` | scripts/apu_codecs.py:600-605 | Rice codes of signed values decode to the values |
| `Residual.SignedRoundTrip` | scripts/apu_codecs.py:227-229 | Two's-complement fields decode to the values |
| `Residual.ResidualCount` | scripts/apu_codecs.py:578-608 | A decoded residual has the length the block needs, so the final length test never fires |
| `Residual.ReadResiduals` | scripts/apu_codecs.py:578-608 | The reading loop against its specification |
| `Subframe.SubframeRoundTrip` | scripts/apu_codecs.py:623-662 | For every constant, verbatim, fixed or linear plan within sections 9.2.5 to 9.2.7 of RFC 9639, decoding the written subframe returns the samples, each scaled by the wasted bits, and stops at its last bit; the residuals written are any that obey the prediction law |
| `WrittenSubframes.SubframeWritten` | scripts/apu_codecs.py:623-662 | Every accepted subframe is the written form of its samples, for some plan and number of wasted bits within the format: the decoder accepts nothing else |
| `WrittenSubframes.ResidualsWritten` | scripts/apu_codecs.py:578-608 | Every accepted residual is the written form of its values in some allowed coding |
| `Subframe.BodyRoundTrip` | scripts/apu_codecs.py:633-660 | The same for the subframe body |
| `Subframe.HeaderRoundTrip` | scripts/apu_codecs.py:624-632 | Kind and wasted bits are read back |
| `Subframe.SubframeCount` | scripts/apu_codecs.py:623-662 | A decoded subframe holds exactly one sample per sample time |
| `Subframe.ReadSubframe` | scripts/apu_codecs.py:623-662 | The decoder on the mutable reader against its specification |
| `Prediction.RestoreIff` | scripts/apu_codecs.py:641-658 | Restoration returns s if and only if s continues the warm-up in 32-bit words and every sample s[n] with residual r obeys its law: for linear prediction with shift k >= 0, 2^k*(s[n] - r) <= sum of c[i]*s[n-1-i] < 2^k*(s[n] - r) + 2^k, for k < 0 s[n] - r is the sum times 2^-k, and for fixed prediction r is the backward difference of that order at n |
| `Prediction.DifferencesIff` | scripts/apu_codecs.py:641-658 | The residuals of a sequence of samples are exactly those that obey this law |
| `Prediction.KernelIff` | scripts/apu_primitives.py:497-547 | A kernel call returns exactly the samples that obey this law after its history, and the last of them as the next history |
| `Kernels.CallRestores` | scripts/apu_primitives.py:501-547 | On separate regions one kernel call leaves in memory the samples that obey this law and raises the sample fault exactly when no 32-bit samples do |
| `Operands.FixedOperands` | scripts/apu_primitives.py:413-522 | FIXED resolves its registers and its parameter word to history, input, output and the order in the instruction |
| `Operands.LpcOperands` | scripts/apu_primitives.py:523-547 | LPC resolves its parameter block to coefficients in scratch or table memory, history and signed shift |
| `Operands.InstructionRestores` | scripts/apu_primitives.py:497-547 | FIXED and LPC as instructions leave the samples that obey this law, change nothing else, and fault exactly when no 32-bit samples do |
| `Kernels.RestoreInChunks` | scripts/apu_primitives.py:497-547 | On separate regions, the in-place kernel called over any split of the residuals leaves in memory the samples and the history of the codec's restoration loop, and faults exactly when that loop leaves the range |
| `Kernels.PredictKernel` | scripts/apu_primitives.py:501-547 | The in-place loop of FIXED and LPC from resolved operands against its specification, for every memory |
| `Kernels.CallPerforms` | scripts/apu_primitives.py:501-547 | On separate regions one such call writes samples and history of the prediction kernel and nothing else, and faults exactly when a sample leaves the 32-bit range |
| `Kernels.CallNeverOverflows` | scripts/apu_primitives.py:222-226 | Whatever the memory holds, such a call never raises the accumulator fault |
| `Operands.Predict` | scripts/apu_primitives.py:497-547 | The FIXED and LPC instructions from their operands on, against their specification, for every memory |
| `Operands.PredictedPerforms` | scripts/apu_primitives.py:497-547 | Bad alignment, references, ranges or shift fault and change nothing; good operands give the samples, history and faults of the prediction kernel |
| `KernelPrograms.ProgramPredicts` | scripts/apu_primitives.py:413-547 | FIXED and LPC, written as a sequence of range checks, reads and stores chosen from the answers so far, leave the memory and the outcome of the instruction |
| `KernelPrograms.PredictionObeysRules` | scripts/apu_primitives.py:435-571 | With these kernels added, kernels that obey the rules of the machine theorems still do |
| `KernelPrograms.PredictionCovers` | scripts/apu_primitives.py:79-87 | Every call of FIXED or LPC stores whole aligned words, so non-interference needs no assumption about them |
| `KernelPrograms.PredictionRuns` | scripts/apu_primitives.py:435-571 | The engine call of FIXED or LPC gives the memory and the outcome of the instruction and writes the count |
| `KernelPrograms.MachinePredicts` | scripts/apu_interpreter.py:585-651 | Executing FIXED or LPC on loaded operands, the machine goes on to the next instruction with the samples that obey the prediction law and the history in memory, nothing else changed there and the count in or on its way to the destination, or with the sample fault pending exactly when a sample leaves the range |
| `KernelPrograms.RunPredicts` | scripts/apu_interpreter.py:431-658 | The same for the next step of every run from the start of a job: no late fault of an earlier kernel is ever in the way |
| `Prediction.KernelRefinesCodec` | scripts/apu_codecs.py:611-658 | A kernel call from the recent samples restores what the codec restores, saves the history the next call needs, and fails in the same cases |
| `Prediction.KernelChunks` | scripts/apu_primitives.py:497-547 | Splitting the residuals changes neither samples, history nor failure |
| `Prediction.RestoreInverts` | scripts/apu_codecs.py:641-658 | Restoring the differences of 32-bit samples returns the samples |
| `Prediction.RestoreFaithful` | scripts/apu_codecs.py:641-658 | Whatever is restored has the given residuals as its differences |
| `Prediction.AccumulatorNeverOverflows` | scripts/apu_primitives.py:222-226 | The 72-bit fault is unreachable for up to 32 products of 32-bit operands |
| `WrittenFrames.StreamIff` | scripts/apu_codecs.py:742-797 | The decoder returns these samples and this offset if and only if a written stream of blocks with the announced numbers, sizes and total lies there - up to the end of the data, if decoding strictly |
| `WrittenFrames.FrameIff` | scripts/apu_codecs.py:665-739 | The decoder accepts a frame if and only if the written form of a header of this stream, of channels in allowed codings and of their samples, decorrelated, padded and sealed, lies there, and returns samples, end, strategy and number |
| `FlacStream.StreamDecodes` | scripts/apu_codecs.py:742-797 | Decoding a written stream of frames, numbered by frames or by samples as their strategy says, returns all samples and stops behind the last frame; bytes behind it are an error exactly when strict |
| `FlacStream.ReadStream` | scripts/apu_codecs.py:742-797 | The frame loop ends and computes its specification |
| `FrameRoundTrip.FrameDecodes` | scripts/apu_codecs.py:665-739 | For every header the format can express, every coding of every channel and every decorrelation, decoding the written frame, wherever it lies, returns the samples and stops at its last byte |
| `FrameRoundTrip.CheckHeadIff` | scripts/apu_codecs.py:684-700 | A header passes the checks of the decoder exactly if rate, sample size, channels, number and block size are those the stream announces |
| `FrameRoundTrip.EveryBlockFits` | scripts/apu_codecs.py:665-739 | Every block of samples within the decoder's limits can be written as a frame |
| `FrameRoundTrip.HeadRoundTrip` | scripts/apu_codecs.py:670-682 | All header fields are read back, coded number, explicit block size and rate included |
| `Frame.AcceptedResidue` | scripts/apu_codecs.py:709-722 | An accepted frame, footer included, has CRC-16 zero and is at least two bytes long |
| `Frame.CorruptionDetected` | scripts/apu_codecs.py:709-722 | Changing an accepted frame within two adjacent bytes never gives an accepted frame of the same extent |
| `Frame.MixedSplit` | scripts/apu_codecs.py:724-738 | Left-side, side-right and mid-side decorrelation lose nothing |
| `Frame.ReadFrame` | scripts/apu_codecs.py:665-739 | The frame decoder on the mutable reader against its specification |
| `CodedNumber.FormDecodes` | scripts/apu_codecs.py:251-271 | A form of a number is accepted if and only if no shorter form holds the number |
| `CodedNumber.DecodeEncode` | scripts/apu_codecs.py:251-271 | Decoding the shortest form of any number below 2^36 gives it back |
| `CodedNumber.EncodeDecode` | scripts/apu_codecs.py:251-271 | Everything accepted starts with the shortest form of the number read |
| `CodedNumber.CodesDistinct` | scripts/apu_codecs.py:251-271 | No two numbers share a code and no code is a prefix of another |
| `CodedNumber.ReadCodedNumber` | scripts/apu_codecs.py:251-271 | The reading loop against its specification |
| `Crc.RemainderIff` | scripts/apu_codecs.py:480-495 | A check value is the register contents if and only if message and check value together are a multiple of the generator polynomial |
| `Crc.DivisionExact` | scripts/apu_codecs.py:480-495 | The feedback bits are the quotient of the polynomial division |
| `Crc.ResidueIff` | scripts/apu_codecs.py:480-495 | Message and check value leave the register at zero, and no other check value does |
| `Crc.BurstDetected` | scripts/apu_codecs.py:480-495 | Messages that differ in a burst no longer than the check value never share it |
| `Crc.CrcResidueIff` | scripts/apu_codecs.py:480-495 | The same residue law for byte strings |
| `Crc.CrcDetects` | scripts/apu_codecs.py:480-495 | Byte strings that differ within as many adjacent bytes as the check value has never share it |
| `Crc.OneByteDetected` | scripts/apu_codecs.py:480-495 | Changing one byte changes CRC-8 and CRC-16 |
| `Crc.ByteCrc` | scripts/apu_codecs.py:480-495 | Adding a byte and shifting eight times computes the polynomial remainder |
| `Crc.Crc8` | scripts/apu_codecs.py:480-486 | CRC-8 is the remainder by x^8+x^2+x+1 |
| `Crc.Crc16` | scripts/apu_codecs.py:489-495 | CRC-16 is the remainder by x^16+x^15+x^2+1 |
| `Crc.SerialByte` | scripts/apu_primitives.py:277-294 | The CRC8 and CRC16 instructions advance the same register by one byte |
| `Crc.SerialCrc` | scripts/apu_primitives.py:277-294 | Folding the instruction over a byte string gives the value of the codec |
| `Resampler.StreamRefinesCodec` | scripts/apu_codecs.py:124-154 | Streaming any chunking of a signal gives the frames of the one-shot resampler |
| `Resampler.StreamIsEmit` | scripts/apu_primitives.py:640-676 | Any chunking from any position gives the frames and the final position of one run |
| `Resampler.EmitCount` | scripts/apu_codecs.py:135-153 | The loop emits exactly the ceiling of the remaining numerator over the denominator |
| `Resampler.EmitAt` | scripts/apu_codecs.py:136-152 | Output k is the frame at numerator k times the denominator, with all taps in bounds |
| `Resampler.PositionNearest` | scripts/apu_codecs.py:136-144 | Index and phase are the exact position rounded to the nearest 32nd, ties to even, with phase below 32 |
| `Resampler.FrameInterpolated` | scripts/apu_codecs.py:145-152 | The frame at a numerator, channel by channel: with 32*q + p the position in 32nds rounded to nearest even, the value is the sum over 16 taps of x[q-7+t]*bank[16*p+t], over 2^30, rounded to nearest even and clamped to 32 bits |
| `Resampler.OutputUnpadded` | scripts/apu_codecs.py:126-135 | On the padded signal the same holds of the signal itself with zeros outside it |
| `Resampler.ConstantReproduced` | scripts/apu_codecs.py:145-151 | A constant signal is reproduced exactly wherever all 16 taps lie inside it, for banks of unit gain |
| `Resampler.FilterNeverFaults` | scripts/apu_primitives.py:222-226 | The accumulator fault is unreachable in the resampler |
| `Resampler.PositionFits` | scripts/apu_primitives.py:677-679 | The saved 64-bit position does not wrap below 2^64 |
| `Resampler.ResampleAll` | scripts/apu_codecs.py:124-154 | The one-shot loop gives ceil(N*L/M) frames, and output k of every channel is the filtered value at the position 32*k*M/L, rounded to the nearest 32nd with ties to even: within half a unit of 2^-30 times the sum of 16 samples, zero outside the signal, times bank[16*p+t], clamped to 32 bits |
| `Resampler.ResampleChunk` | scripts/apu_primitives.py:640-679 | The chunk loop gives the same filtered values for the positions of its chunk, as many as fall into it, and saves the words that continue it; the accumulator fault is never raised |
| `Dft.TransformIsSpectrum` | scripts/apu_kws_frontend.py:229-248 | For twiddles that multiply like roots of unity up to three units, bin k of the recursive rounded transform is within 27 units, in each component, of 2^-9 times the sum over n of x[n] times the root with exponent n*k modulo 512 |
| `Dft.TransformIsDft` | scripts/apu_kws_frontend.py:222-248 | At every level a rounded transform differs from the sum by at most three units a level |
| `Transforms.TransformSplits` | scripts/apu_kws_frontend.py:229-243 | Two outputs of a transform are the butterfly of the transforms of even and odd points |
| `Fft.FftFrame` | scripts/apu_kws_frontend.py:212-248 | For windowed samples within 2^30 and twiddles of modulus at most 2^30+1 the in-place FFT never faults and every modulus stays within 2^30+18; if the twiddles multiply like roots of unity up to three units, every bin is within 27 units of 2^-9 times the sum of the samples times the roots |
| `Fft.FrameSpectrum` | scripts/apu_kws_frontend.py:288-290 | The same from S16 samples and a window within 0 to 2^30 on: no frame of audio raises the fault, and its spectrum is that sum |
| `Transforms.ButterflyWithin` | scripts/apu_kws_frontend.py:229-243 | A butterfly grows the modulus by at most two and every value stays in the signed 32-bit range |
| `Transforms.TwistWithin` | scripts/apu_kws_frontend.py:233-234 | A twiddle product grows the modulus by less than two |
| `Fft.StagesTransform` | scripts/apu_kws_frontend.py:219-248 | The staged loop on bit-reversed points is the recursive transform |
| `Fft.StageWithin` | scripts/apu_kws_frontend.py:222-248 | A stage grows every modulus by at most two |
| `Fft.LoadFrame` | scripts/apu_kws_frontend.py:216-220 | Clearing and bit-reversed stores give the reversed padded frame |
| `Fft.RunStage` | scripts/apu_kws_frontend.py:225-247 | One stage over all blocks against its specification |
| `Fft.WindowedBound` | scripts/apu_kws_frontend.py:289-289 | An S16 sample under a window value of at most one stays within 2^30 |
| `Frontend.FrontendStages` | scripts/apu_kws_frontend.py:268-345 | A window of the wrong size or outside S16 is rejected; for every other window no stage raises a fault and the result is the specified 490 feature bytes, which mean what `Frontend.FeaturesMeaning` says |
| `Frontend.FeaturesMeaning` | scripts/apu_kws_frontend.py:268-345 | The specified bytes stage by stage: window, sums of samples and roots, nearest square roots, weighted bands, interpolated logarithms of mel energy over peak, weighted coefficients and quantised bytes, each within its stated rounding |
| `Frontend.RowMeaning` | scripts/apu_kws_frontend.py:287-331 | The same for one frame |
| `Frontend.MelFrame` | scripts/apu_kws_frontend.py:287-310 | For S16 audio the window, FFT, magnitude and mel stages of a frame raise no fault and give the specified mel words |
| `Frontend.NearestSqrtIff` | scripts/apu_kws_frontend.py:143-152 | The result is the integer nearest to the square root, and a tie cannot occur |
| `Frontend.MelInRange` | scripts/apu_kws_frontend.py:132-140 | Every mel reduction stays below 2^64 and every mel word below 2^32 |
| `Frontend.ReductionInRange` | scripts/apu_kws_frontend.py:316-325 | Every cepstral reduction stays in the signed 64-bit range |
| `Frontend.FeatureRow` | scripts/apu_kws_frontend.py:316-331 | A row of logarithms faults exactly when a reduction leaves the signed 64-bit range, and otherwise gives the rounded, quantised and wrapped bytes |
| `LogStage.LogMel` | scripts/apu_kws_frontend.py:155-186 | The stage faults exactly outside 32-bit mel words and 16-bit peaks and otherwise returns the logarithm that `LogStage.LogMeaning` describes |
| `LogStage.LogMeaning` | scripts/apu_kws_frontend.py:155-186 | The logarithm is exponent times ln 2 plus the table interpolated at the nearest 2^-26th of the mantissa, for the exact floor exponent of the ratio |
| `LogStage.LogMonotone` | scripts/apu_kws_frontend.py:155-186 | For a fixed peak the logarithm does not decrease with the mel energy |
| `LogStage.LogFits` | scripts/apu_kws_frontend.py:186-186 | The final truncation to 32 bits never takes effect |
| `LogStage.NormalizeSpec` | scripts/apu_kws_frontend.py:163-173 | The loops end with the exact decomposition: exponent the floor of the binary logarithm, mantissa in [1, 2) |
| `LogStage.ExponentRange` | scripts/apu_kws_frontend.py:161-173 | The exponent stays within -20 to 28 |
| `LogStage.TwoDivisions` | scripts/apu_kws_frontend.py:174-183 | Index and fraction are one rounded position, and the index never exceeds 1023 |
| `LogStage.NormalizeLoop` | scripts/apu_kws_frontend.py:163-173 | The normalisation loops end and compute their specification |
| `Rounding.RoundSpec` | scripts/apu_kws_frontend.py:119-129 | The rounded quotient is within half a unit, even when exactly half way |
| `Rounding.RneNearest` | scripts/apu_kws_frontend.py:119-129 | A rounding shift of any sign is the nearest multiple, even when exactly half way |
| `Rounding.RoundUnique` | scripts/apu_kws_frontend.py:119-129 | That specification determines the quotient |

## Left out

- Kernels other than FIXED, LPC and RESAMPLE (requantisation, stereo, decorrelation, IMDCT, DCT32, PCM packing) are not modelled one by one; the machine theorems hold for all kernels that leave the input alone, write only their destination register and fault for reason 5 or 9, and non-interference for all kernels whatever.
- Kernels.RestoreInChunks: starts from resolved addresses and a predictor of 32-bit words; `Operands.PredictedPerforms` covers the operands of one call.
- KernelPrograms.MachinePredicts: the cycle count of the kernel is a parameter of the machine.
- LoopBound.RunsEnd: the bound is far above what any program of the instruction set needs; only its independence of data, delays and budget is claimed.
- Resampler.ResampleChunk: works on a window of frames, not on local memory, because the memory layout adds nothing to the schedule; the copy profile, the profile lock and the coefficient table itself are not modelled.
- Resampler.ConstantReproduced: takes unit gain of every phase as a hypothesis; the generator of the coefficients is not part of this model.
- Fft.FftFrame: takes the bound on the twiddle table, and for the spectrum the product law of `Dft.RootsOfUnity`, as hypotheses, LogStage.LogMel the shape of the log table, and Frontend.FrontendStages both and all of `Tables.Promised`; the generators of the tables are not part of this model.
- Precision.EdgesAreReal: speaks of single steps; that a whole path of edges is one run depends on data and is not claimed. The fall-through of engine and transport instructions is left out of it, because a predicate on the input can contradict what the instruction waits for.
- Latency.TimingIsInvisible: holds for programs that test comparison flags only; the live status predicates 7 to 11 read timing by design.
- Isolation.JobsDoNotInterfere: the covering of words is sufficient, not necessary, since an exposed byte may never be read.
- Sequencer.Sequencer.Step: primitive engine and transport engine are values in fields of the sequencer, so aliasing between them and their owner is not captured.
- LocalMemory.LocalMemory.Read: requires a scratch window inside the codec region, which every valid entry has; beyond it the validity list of the original has no entries.
- ControlFlow.ControlFlowReport: the pending-list high-water mark of the report is not modelled.
- Error offsets and messages, partial-decode attachments, trap details, the execution trace and the per-instruction cycle list.
- Register fields of instructions are taken as the four bits the encoding gives them; a field above 15 reads as zero and is not written.
- CRC-32 of images is a parameter of the builder and the parser.
- FlacStream.StreamDecodes: starts at the first frame; FLAC metadata parsing, WAV parsing and PCM conversion are not modelled.
- FrameRoundTrip.FrameDecodes: samples of a difference channel must fit 32 bits after scaling, as the decoder demands; 32-bit stereo with larger differences is rejected by the decoder and outside the encoder.
- The keyword-spotting graph, the assembler's text front end, report generators and command-line entry points.
