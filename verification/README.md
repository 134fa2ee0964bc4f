# A verified model of the virtual machine's execution core

This project models the execution core of the BEAM modular monolith, a rewrite of the Erlang
virtual machine in C, and proves properties of the model: process heap and copying collector,
interpreter, mailbox, run queue, scheduler and worker pool, atom table, ETS, and the two byte
decoders. `dafny verify dfyconfig.toml` checks all of it.

Code that changes things step by step is modelled step by step: classes with the record's fields,
arrays for heap, registers and index maps, linked nodes for queues and hash chains, loops where
the source loops. Each such method is proved against a function of its inputs or of the old
state, and the theorems are about those functions.

| file | models |
|---|---|
| `beam_core.dfy`, `byte_strings.dfy`, `sequences.dfy` | terms, tagged words, big-endian numbers, C strings, sequences without repetition |
| `heap_values.dfy`, `erl_process.dfy`, `beam_gc.dfy`, `gc_theorems.dfy`, `gc_frames.dfy`, `heap_runs.dfy` | what a heap means, the process record, the collector, call frames under it, whole runs |
| `beam_bif.dfy` | the built-in functions |
| `beam_emu.dfy`, `emu_exec.dfy` | the instruction set as a step function, and the dispatch loop on the process record |
| `emu_slices.dfy`, `emu_restarts.dfy`, `emu_frames.dfy`, `emu_calls.dfy`, `emu_unwind.dfy`, `emu_receive.dfy`, `emu_values.dfy`, `emu_branches.dfy` | preemption as meant and as written, call frames, calls and tail calls, exceptions, the receive loop, instructions on values, branches and limits |
| `mailbox_model.dfy`, `erl_message.dfy`, `mailbox_receive.dfy`, `mailbox_lockfree.dfy` | the mailbox as a queue with a cursor, as linked nodes, under a receive loop, under concurrent producers |
| `run_queue_model.dfy`, `run_queue.dfy`, `scheduler.dfy`, `scheduler_pool.dfy`, `pool_retirement.dfy` | the run queue, one scheduler, any number of workers, when a process is through |
| `atom_table.dfy`, `atom_concurrent.dfy` | the atom table, and its double-checked locking |
| `ets_model.dfy`, `ets.dfy` | ETS tables as chains, and as linked buckets |
| `beam_decode.dfy`, `decode_opcodes.dfy` | the code chunk decoder, with an encoder written for the round trip, and what the interpreter makes of its output |
| `beam_load.dfy`, `load_outcomes.dfy` | the file loader, with an encoder written for the round trip, and the outcome for every buffer |

## Where the code departs from its intent

The model follows the code. In these places that makes an intended property false; a lemma gives
an input or the exact condition.

- The collector writes a small integer where every reader and constructor expects a tuple header
  (src/memory/beam_gc.c:18). A value survives if and only if it has no tuple in it
  (`AsWrittenKeepsTupleFree`). The collector is modelled with either header; preservation is
  proved for the header of `beam_make_tuple`. tests/unit/test_gc.c:23 builds its tuple with the
  collector's header.
- The collector copies shared cells once for each way to reach them and hands a term back when
  there is no room (src/memory/beam_gc.c:15, 30). The exact room condition is
  `CollectionRoomExact`.
- The preempting return does not store the instruction pointer (src/emulator/beam_emu.c:33-36), so
  every slice begins where the first did: `AsWrittenRestarts`. Straight code ends if and only if
  one budget is long enough for all of it (`StraightCodeEndsIff`), where it should end once the
  budgets together are (`MeantEndsIff`). A process whose first slice is not cut is not affected
  (`UncutIsMeant`); `AsWrittenRepeatsWork` is the smallest one that is. Transparent preemption is
  proved with the instruction pointer stored.
- A cut that leaves return address and instruction pointer zero is taken for a new frame on entry
  (src/emulator/beam_emu.c:12-14): `CutIsSeamless`, `CutAtZero`.
- RAISE can put the stack top below the heap top (src/emulator/beam_emu.c:260) when a frame was
  popped past its TRY: `ApartExactly`, `RaiseCanCollide`. It does not restore the return address
  it saved, so a handler returns wrongly if and only if the raising code changed it:
  `ExactUnwinding`, `HandlerReturnsBehindCall`.
- MAKE_FUN2 compares with the capacity, not the stack top (src/scheduler/erl_process.c:105), and
  GET_TUPLE_ELEMENT does not compare its index with the arity (include/beam_core.h:100-104):
  `ApartExactly`, `ElementLoaded`.
- WAIT stores its own position (src/emulator/beam_emu.c:210), so a process that has waited once
  waits again in every later slice, whatever it has been sent: `WaitLasts`.
- LOOP_REC takes its fail branch only on an empty mailbox, because a cursor past the end wraps
  (src/messaging/erl_message.c:78-82). A receive with messages but no match never ends:
  `ReceiveEndsIff`, `ReceiveSpins`.
- TEST_IS_EQ_EXACT compares words (src/emulator/beam_emu.c:297), so equal tuples at different
  addresses are unequal: `ExactComparison`, `EqualTuplesDiffer`.
- A process that has run off the end of its code is put back into the run queue like a preempted
  one (src/scheduler/beam_scheduler_loop.c:37): `RequeuedIff`.
- Enqueueing writes the process state after releasing the lock (src/scheduler/run_queue.c:54-56).
  An exited process can be queued again, if and only if such a write for it is outstanding when
  its slice ends: `LeavingRetiresIff`, `ExitedProcessIsQueuedAgain`.
- A dequeue that finds no message behind the first clears the tail, even when a producer has
  exchanged a node in and not linked it yet (src/messaging/erl_message.c:60-64): `DequeueExactly`.
- A process identifier is shifted in 32 bits (src/emulator/beam_bif.c:7). Identifiers that agree
  modulo 2^28 are the same word, and those that are 3 modulo 2^28 are the empty list: `PidWords`.
- `update_counter` can give a BAG the same pair twice (src/global/ets.c:151-161):
  `BagCounterExactly`.
- `select_val` is decoded with three operands, the arity table has two
  (src/emulator/beam_decode.c:148-153): `SelectValStaysInStepIff`. Decoding stops without notice
  after 100001 instructions (src/emulator/beam_decode.c:99): `ChunkRoundTrip`.
- An atom operand is shifted in 32 bits (src/emulator/beam_decode.c:51), so an index of 2^28 or
  more loses its high bits: `ArgWordMeans`. The start of the code is computed in 32 bits as well
  (src/emulator/beam_decode.c:76): `StartWraps`.
- Decoder and interpreter disagree on operands and opcode numbers
  (src/emulator/beam_decode.c:111-187). A decoded move stores zero, a decoded call goes to its
  arity, a decoded select_val has no table, a decoded raise takes its first operand, the trace, and
  func_info, int_code_end and test_heap have the numbers of other instructions:
  `DecodedMoveExactly`, `DecodedCallExactly`, `DecodedSelectFails`, `CasesBecomeInstructions`,
  `PlaceholdersCollide`. The interpreter stops at every instruction the decoder skipped:
  `SkippedStops`.
- Atom names with a zero byte do not read back (src/global/atom_table.c:222,
  src/emulator/beam_load.c:107-110): `LookupReturnsName`, `NamesReadBack`.
- The loader keeps 63 bytes of the module name (src/emulator/beam_load.c:68): `NamesReadBack`.
- An atom table in a malformed file can make the loader read behind the buffer
  (src/emulator/beam_load.c:41, 55-64): `ParseOutcome`, `EmptyAtomChunkReadsPastEnd`.

## Model

| member | source | states |
|---|---|---|
| `BeamCore.TagTests` | include/beam_core.h:64-112 | the tag tests of a packed word tell the kinds of terms apart, and masking the tag off gives the address back |
| `BeamCore.PackInjective` | include/beam_core.h:26-46 | comparing words is comparing terms: two canonical terms share a word only when they are equal |
| `BeamCore.PidWords` | src/emulator/beam_bif.c:3-8 | the word of a process identifier is the shifted 32-bit number; it is the word of the empty list if and only if the identifier is 3 modulo 2^28, and two identifiers share a word if and only if they agree modulo 2^28 |
| `BeamCore.SmallWordIsPacked` | include/beam_core.h:80-82 | shifting an integer into a word is packing its 60-bit value |
| `BeamCore.SmallRoundTrip` | include/beam_core.h:80-86 | packing and reading an integer gives it back if and only if it fits in 60 bits |
| `ErlProcess.Process.constructor` | src/scheduler/erl_process.c:4-37 | a new process has an empty heap and stack sharing one array, 256 words unless asked otherwise |
| `ErlProcess.Process.AllocHeap` | src/scheduler/erl_process.c:102-116 | reserves words, growing to twice the capacity plus the request; old words are kept, the stack is not moved |
| `ErlProcess.Process.MakeTuple` | src/scheduler/erl_process.c:127-142 | appends header and fields to the filled heap and returns the pointer to them; nothing beyond them changes unless the heap grew |
| `ErlProcess.Process.MakeList` | src/scheduler/erl_process.c:144-154 | appends a list cell and returns the pointer to it |
| `ErlProcess.Process.StackPush` | src/scheduler/erl_process.c:156-164 | pushes one word, or refuses when the stack has met the heap and changes nothing |
| `ErlProcess.Process.StackPop` | src/scheduler/erl_process.c:166-174 | pops one word, or refuses on an empty stack |
| `ErlProcess.AppendedBlock` | src/scheduler/erl_process.c:127-154 | a block appended to the heap denotes the tree over the values of its fields |
| `HeapValues.RepresentsUnique` | include/beam_core.h:88-124 | a term denotes at most one tree |
| `HeapValues.RepresentsExtends` | src/scheduler/erl_process.c:102-116 | words added behind the filled heap change the value of no term |
| `HeapValues.CopyIsLayout` | src/memory/beam_gc.c:5-44 | with room, the copy of a term is the pre-order serialization of its value, whatever the old heap looked like |
| `HeapValues.LayoutRepresents` | src/memory/beam_gc.c:12-40 | a serialization denotes the value again; with the header the collector writes, if and only if no tuple occurs in it |
| `HeapValues.CopyLeaksIffNoRoom` | src/memory/beam_gc.c:14-15 | the copy of a term refers back to the old space if and only if the term's unfolded size did not fit |
| `HeapValues.CopyAllLeaksIffNoRoom` | src/memory/beam_gc.c:21-40 | the same for terms copied one after the other |
| `BeamGc.CopyTermInto` | src/memory/beam_gc.c:5-44 | the recursive copier in place returns the copy, writes exactly the words it reserves and leaves the rest of to-space alone |
| `BeamGc.CopyTuple` | src/memory/beam_gc.c:11-26 | the tuple branch, in place |
| `BeamGc.CopyCell` | src/memory/beam_gc.c:28-41 | the list branch, in place |
| `BeamGc.CopyRegister` | src/memory/beam_gc.c:58-63 | one register root: its copy behind the words so far, a zero register skipped |
| `BeamGc.CopyStackSlot` | src/memory/beam_gc.c:67-71 | one stack root: its copy in the same slot counted from the end |
| `BeamGc.CopyRoots` | src/memory/beam_gc.c:58-71 | both root loops: every root replaced by its copy, in order |
| `BeamGc.CopyStack` | src/memory/beam_gc.c:65-71 | the stack loop behind the register loop |
| `BeamGc.CollectProcess` | src/memory/beam_gc.c:46-81 | a collection replaces every root by its copy; with tagged headers and unfolded root sizes of at most the stack top, every root keeps its value and the heap top is their sum |
| `GcTheorems.CollectionPreservesMeaning` | src/memory/beam_gc.c:56-78 | with room every root unfolds to the same tree before and after, and the new heap is the serialization of those trees and nothing else |
| `GcTheorems.AsWrittenKeepsTupleFree` | src/memory/beam_gc.c:18 | with the small-integer header as written, a root keeps its value if and only if no tuple occurs in it |
| `GcTheorems.AsWrittenLosesTuple` | src/memory/beam_gc.c:18 | a one-element tuple comes back as a pointer that no longer passes the tuple test |
| `GcTheorems.LayoutPointsInside` | src/memory/beam_gc.c:25-40 | every pointer of a serialization leads into it |
| `GcTheorems.CollectionRoomExact` | src/memory/beam_gc.c:15-30 | heap and stack stay apart and nothing refers to the freed space if and only if the unfolded root sizes sum to at most the stack top |
| `GcTheorems.CollectTwice` | src/memory/beam_gc.c:46-81 | a second collection writes the same layout at its own base |
| `GcTheorems.UnsharedHasRoom` | src/memory/beam_gc.c:15-30 | when no heap word is reached twice the room condition holds by itself and the heap never grows |
| `GcTheorems.SharingNeedsRoom` | src/memory/beam_gc.c:5-44 | with a cell met from two roots the copies need more words than the heap had |
| `HeapRuns.StepRefines` | src/scheduler/erl_process.c:102-174 | construction, element access, push, pop and collection each do to the values what the heap-free machine does |
| `HeapRuns.RunRefines` | src/memory/beam_gc.c:46-81 | after any run mixing construction and collection every root denotes a finite tree, the one the heap-free machine computes, although pointers run both ways |
| `HeapRuns.RunsAgree` | src/memory/beam_gc.c:46-81 | two runs of one program that collect at different points agree on every root |
| `HeapRuns.FreshStores` | src/scheduler/erl_process.c:10-27 | a new process is a valid start for such runs |
| `GcFrames.FrameWordsImmediate` | src/memory/beam_gc.c:65-71 | the words of call frames are handed back by the copier if and only if no saved return address has the low bits of a pointer |
| `GcFrames.FramesSurvive` | src/memory/beam_gc.c:58-71 | a collection then leaves every frame on the stack as it is, needs no room for them, and keeps the value of every register |
| `BeamBif.Length1` | src/emulator/beam_bif.c:38-48 | the list walk ends on every term the heap can hold and returns the number of cells in the chain |
| `BeamBif.LengthOfList` | src/emulator/beam_bif.c:38-48 | the count for the list built from some elements is the number of those elements |
| `BeamBif.FlagWords` | src/emulator/beam_bif.c:26-36 | the answers true and false are the words 27 and 43 |
| `BeamBif.Dispatch` | src/emulator/beam_bif.c:3-72 | the six functions by index: process identifier, 60-bit sum and difference, type tests against the value, length; any other index is not found |
| `BeamEmu.FindLabel` | src/emulator/beam_emu.c:18-26 | the scan finds the first declaration of a label and nothing when there is none |
| `BeamEmu.TableSearch` | src/emulator/beam_emu.c:358-366 | the search of a SELECT_VAL table yields the label of the first entry whose key is the same word, and nothing if and only if no key is |
| `BeamEmu.StepWf` | src/emulator/beam_emu.c:28-423 | every instruction keeps at most 64 catch frames, heap top, stack top and saved tops within the capacity, and the cursor on a message |
| `EmuExec.JumpToLabel` | src/emulator/beam_emu.c:18-26 | the scan loop goes to the first matching label and stays put without one |
| `EmuExec.SelectTarget` | src/emulator/beam_emu.c:356-366 | the loop over the jump table ends at the first key that is the register's word, or behind the last |
| `EmuExec.PushFrame` | src/emulator/beam_emu.c:99-112 | ALLOCATE's pushes: return address, then zeros, as far as there is room |
| `EmuExec.DropFrame` | src/emulator/beam_emu.c:114-130 | DEALLOCATE's and CALL_LAST's pops: the words, then the return address |
| `EmuExec.DoArith` | src/emulator/beam_emu.c:50-97 | arithmetic in place is the arithmetic of the machine state |
| `EmuExec.DoStack` | src/emulator/beam_emu.c:99-159 | frames, calls, tail calls and returns in place |
| `EmuExec.DoMessage` | src/emulator/beam_emu.c:161-213 | SEND, LOOP_REC, LOOP_REC_END, REMOVE_MESSAGE and WAIT in place |
| `EmuExec.DoCatch` | src/emulator/beam_emu.c:215-265 | TRY, TRY_END and RAISE in place |
| `EmuExec.DoLoad` | src/emulator/beam_emu.c:280-348 | GET_TUPLE_ELEMENT and GET_LIST in place |
| `EmuExec.DoTest` | src/emulator/beam_emu.c:267-372 | MATCH_TUPLE, TEST_IS_TUPLE and SELECT_VAL in place |
| `EmuExec.DoCompare` | src/emulator/beam_emu.c:292-333 | TEST_IS_EQ_EXACT, TEST_IS_NE_EXACT and TEST_IS_LIST in place |
| `EmuExec.DoMakeFun` | src/emulator/beam_emu.c:388-408 | MAKE_FUN2 in place: room against the capacity, header, entry, captured registers, target register |
| `EmuExec.DoStep` | src/emulator/beam_emu.c:38-422 | the switch: one instruction on the process record is one step of the machine |
| `EmuExec.Loop` | src/emulator/beam_emu.c:28-36 | the dispatch loop is the recursive run and charges one reduction for every instruction and for a preemption |
| `EmuExec.ExecuteCode` | src/emulator/beam_emu.c:8-431 | one call on the process record gives the slice: result, state, registers, memory and the instruction pointer stored only where the source stores it |
| `EmuSlices.SliceBound` | src/emulator/beam_emu.c:28-36 | a slice with budget r executes at most r-1 instructions, exactly r-1 when preempted and none when r is at most 1, on every code |
| `EmuSlices.RunSplit` | src/emulator/beam_emu.c:28-36 | cutting a run anywhere and going on is the uncut run |
| `EmuSlices.PreemptionTransparent` | src/emulator/beam_emu.c:11-36 | with the instruction pointer stored at the preempting return, any cutting into slices gives the end of the uncut run |
| `EmuSlices.CutIsSeamless` | src/emulator/beam_emu.c:12-14 | going on after a cut gives the uncut run for every further budget if and only if the cut left return address and instruction pointer not both zero |
| `EmuRestarts.CutAtZero` | src/emulator/beam_emu.c:12-14 | a new process whose code pops a frame with the wrong size is cut with both zero, and the next slice differs from the uncut run |
| `EmuRestarts.AsWrittenRestarts` | src/emulator/beam_emu.c:32-36 | after any number of slices a process that is still being preempted is where it was before the first one |
| `EmuRestarts.UncutIsMeant` | src/emulator/beam_emu.c:32-36 | on all code, a process whose first slice is not cut is served as it was meant to be |
| `EmuRestarts.AsWrittenNeverEnds` | src/emulator/beam_emu.c:32-36 | a process that begins with straight code no shorter than its budgets is preempted for ever, whatever follows that code |
| `EmuRestarts.StraightCodeEndsIff` | src/emulator/beam_emu.c:32-36 | straight code ends, as written, if and only if one budget is longer than what is left of it |
| `EmuRestarts.MeantEndsIff` | src/emulator/beam_emu.c:32-36 | with the instruction pointer stored it ends if and only if the budgets together are longer |
| `EmuRestarts.AsWrittenRepeatsWork` | src/emulator/beam_emu.c:32-36 | an addition cut behind its first instruction is done twice as written: 2 where the uncut run gives 1 |
| `EmuRestarts.WhereSlicesEnd` | src/emulator/beam_emu.c:208-213 | a slice leaves the instruction pointer behind the code, at its WAIT, or, when it stopped for good or was preempted as written, where it was |
| `EmuRestarts.WaitLasts` | src/emulator/beam_emu.c:208-213 | a process that waited executes the same WAIT and nothing else in every later slice, whatever has arrived in its mailbox |
| `EmuFrames.StepKeepsEncoding` | src/emulator/beam_emu.c:99-159 | every disciplined instruction does to the flat stack what it does to a list of frames with handler marks |
| `EmuFrames.PushKeepsEncoding` | src/emulator/beam_emu.c:99-112 | ALLOCATE is a push of one frame |
| `EmuFrames.PopKeepsEncoding` | src/emulator/beam_emu.c:114-154 | a pop with the frame's own size succeeds, restores its return address and removes that frame |
| `EmuFrames.RaiseRestoresFrames` | src/emulator/beam_emu.c:250-265 | RAISE restores the frames of the matching TRY word for word |
| `EmuFrames.OtherStepsKeepStack` | src/emulator/beam_emu.c:38-422 | all other instructions leave heap, stack and handlers alone |
| `EmuCalls.RunKeepsEncoding` | src/emulator/beam_emu.c:28-423 | over every disciplined run the words above the stack top encode the list of frames |
| `EmuCalls.OlderFramesKept` | src/emulator/beam_emu.c:99-159 | frames below the lowest point of a run are untouched |
| `EmuCalls.BodyRestores` | src/emulator/beam_emu.c:99-154 | a function body of any nesting gives back return address, stack top and every older word |
| `EmuCalls.ChainKeepsStack` | src/emulator/beam_emu.c:99-159 | a callee in any number of pieces, tail calls to functions with frames of their own among them, keeps return address, stack depth and every stack word |
| `EmuCalls.CallReturns` | src/emulator/beam_emu.c:132-159 | CALL comes back to the next instruction with the caller's stack as it was, whatever chain of bodies, tail calls and plain instructions leads to the RETURN |
| `EmuCalls.TailLoopKeepsStack` | src/emulator/beam_emu.c:138-154 | a loop of tail calls of any length starts every turn at the same stack depth, words and return address |
| `EmuCalls.DisciplinedPreemption` | src/emulator/beam_emu.c:11-36 | frame-disciplined code meets the condition for transparent preemption at every cut |
| `EmuUnwind.ApartExactly` | src/emulator/beam_emu.c:215-265 | one instruction keeps heap and stack apart if and only if its closure fits and the top RAISE goes back to is not below the heap top |
| `EmuUnwind.RaiseCanCollide` | src/emulator/beam_emu.c:250-265 | closures that fit are not enough: a new process that pops a frame past its TRY and allocates has RAISE put the stack top below the heap top |
| `EmuUnwind.StepKeepsNesting` | src/emulator/beam_emu.c:215-265 | while frames are popped inside their handlers saved tops stay ordered and no word above the stack top is written |
| `EmuUnwind.HandlerKept` | src/emulator/beam_emu.c:215-265 | over a run, an active handler and the words above its saved top do not change |
| `EmuUnwind.ExactUnwinding` | src/emulator/beam_emu.c:215-265 | RAISE gives back exactly the stack and outer handlers of the matching TRY, uses that frame once, delivers the term in x0 and resumes at the first matching label; the return address is not restored |
| `EmuUnwind.HandlerReturnsBehindCall` | src/emulator/beam_emu.c:215-265 | a handler entered from a callee's RAISE returns behind the CALL instead of to the return address its TRY saved |
| `EmuUnwind.UncaughtExits` | src/emulator/beam_emu.c:253-257 | without a handler the process exits and nothing else changes |
| `EmuReceive.TakesMessage` | src/emulator/beam_emu.c:173-206 | the bytecode of a receive loop takes a wanted message in four instructions |
| `EmuReceive.SkipsMessage` | src/emulator/beam_emu.c:173-206 | and passes over any other in five |
| `EmuReceive.ReceiveProgram` | src/emulator/beam_emu.c:173-206 | with the first wanted message i-c places on, the loop runs 5(i-c)+4 instructions, takes that message and leaves the others in order |
| `EmuReceive.ReceiveSpins` | src/emulator/beam_emu.c:173-206 | with messages but none wanted the loop never takes its fail branch |
| `EmuReceive.SelfSendReceived` | src/emulator/beam_emu.c:161-206 | a process that sends itself a wanted message and then receives gets it and has its queue back as it was, the cursor null |
| `EmuValues.TupleTest` | include/beam_core.h:88-112 | the raw tuple, list and arity tests of a register are those of its value |
| `EmuValues.TestsDecideByValue` | src/emulator/beam_emu.c:267-278 | MATCH_TUPLE, TEST_IS_TUPLE and TEST_IS_LIST fall through for exactly the values they are named after |
| `EmuValues.ElementLoaded` | src/emulator/beam_emu.c:280-290 | GET_TUPLE_ELEMENT loads the element of the tuple, zero from anything else, and past the arity the word that stands there; no other register changes its value |
| `EmuValues.ListLoaded` | src/emulator/beam_emu.c:335-348 | GET_LIST loads head and tail and fails on anything but a cell |
| `EmuValues.ClosureBuilt` | src/emulator/beam_emu.c:388-408 | MAKE_FUN2 builds the tuple of entry and captured values and every other register keeps its value, even when the closure runs into the stack; below the stack it leaves the stack alone |
| `EmuValues.ExactComparison` | src/emulator/beam_emu.c:292-313 | exact comparison finds equal the equal values that are immediate or at one address, and no others |
| `EmuValues.EqualTuplesDiffer` | src/emulator/beam_emu.c:292-313 | two equal one-element tuples at different addresses compare as different |
| `EmuValues.DividesTowardZero` | src/emulator/beam_emu.c:94 | the quotient rounds toward zero |
| `EmuValues.ArithmeticExact` | src/emulator/beam_emu.c:50-97 | arithmetic is arithmetic modulo 2^60 and fails if and only if it divides by zero |
| `EmuBranches.SelectValJumps` | src/emulator/beam_emu.c:350-372 | SELECT_VAL goes to the label of the first entry whose key is the register's word and to the fail label when no key is |
| `EmuBranches.ComparisonsDecide` | src/emulator/beam_emu.c:292-313 | of the two exact comparisons one falls through and the other jumps: by value, and for blocks by address |
| `EmuBranches.MoveLoads` | src/emulator/beam_emu.c:42-48 | MOVE gives one register the value of its literal and leaves the values of the others |
| `EmuBranches.SendDelivers` | src/emulator/beam_emu.c:161-171 | SEND puts the register's word behind the addressee's messages; a process that sends to itself keeps its cursor on its message |
| `EmuBranches.LoopRecShows` | src/emulator/beam_emu.c:173-189 | LOOP_REC shows the message under the cursor, the first one for a null cursor, and jumps if and only if there is no message |
| `EmuBranches.CallExtAnswers` | src/emulator/beam_emu.c:374-386 | CALL_EXT puts the answer of the function with that index into x0 and nothing else changes, or stops with not found for an index past the table |
| `EmuBranches.LengthCalled` | src/emulator/beam_emu.c:374-386 | calling length/1 on a list in x0 leaves its number of elements there |
| `EmuBranches.BifTable` | src/emulator/beam_bif.c:50-72 | there is a table of functions whose answers are those of the dispatcher on every state |
| `EmuBranches.DoesNothing` | src/emulator/beam_emu.c:39-97 | an instruction with a tested register operand past 255, a label and the two case markers leave everything as it is |
| `EmuBranches.PushLimits` | src/emulator/beam_emu.c:99-112 | a frame, the return address with zeros below, is pushed if and only if it fits above the heap, and otherwise as far as it does; no other word changes |
| `EmuBranches.PopLimits` | src/emulator/beam_emu.c:114-154 | a frame is popped if and only if that many words are left, the last of them, cut to 32 bits, becoming the return address; otherwise the stack is left empty |
| `EmuBranches.HandlerLimits` | src/emulator/beam_emu.c:215-248 | the sixty-fifth handler is refused and changes nothing; TRY_END drops the innermost |
| `EmuBranches.TopLevelReturn` | src/emulator/beam_emu.c:12-14 | a new process that loads x0 and returns finishes in two instructions with x0 as its value and no state written |
| `EmuBranches.Endings` | src/emulator/beam_emu.c:410-422 | HALT exits with x0 as the value, WAIT without one, and an opcode without a case stops with BADARG |
| `ErlMessage.Mailbox.constructor` | src/messaging/erl_message.c:4-14 | a new mailbox is empty with no cursor |
| `ErlMessage.Mailbox.EnqueueMessage` | src/messaging/erl_message.c:30-51 | appends at the tail; links, cursor and count stay consistent |
| `ErlMessage.Mailbox.DequeueMessage` | src/messaging/erl_message.c:53-68 | takes the head of the queue or reports an empty one; a cursor at index 2 or later stays on its message |
| `ErlMessage.Mailbox.ResetSaveCursor` | src/messaging/erl_message.c:70-74 | puts the cursor on the head |
| `ErlMessage.Mailbox.PeekSave` | src/messaging/erl_message.c:76-87 | reads the message under the cursor; a null cursor restarts at the head |
| `ErlMessage.Mailbox.AdvanceSave` | src/emulator/beam_emu.c:197-206 | moves the cursor to the next message or off the end |
| `ErlMessage.Mailbox.RemoveCurrentMessage` | src/messaging/erl_message.c:89-109 | unlinks the message under the cursor wherever it stands and keeps all others in order |
| `ErlMessage.SelectiveReceive` | src/messaging/erl_message.c:70-109 | the receive loop over the list ends, takes the earliest match and leaves the others in order |
| `MailboxReceive.FindsFirstMatch` | src/messaging/erl_message.c:70-109 | the loop reaches the first match in one turn for each message looked at |
| `MailboxReceive.NoMatchSpins` | src/messaging/erl_message.c:78-82 | with messages but no match the cursor wraps and the search never ends |
| `MailboxReceive.ReceiveEndsIff` | src/messaging/erl_message.c:76-87 | a receive loop ends if and only if the mailbox is empty or some message matches |
| `MailboxModel.RemovalClosesGap` | src/messaging/erl_message.c:89-109 | a removal keeps all other messages in order and puts the cursor on the message that followed |
| `MailboxReceive.ArrivalsKeepCursor` | src/messaging/erl_message.c:30-51 | any number of arrivals go to the end and leave the cursor on its message |
| `MailboxReceive.TakesOldestMatch` | src/messaging/erl_message.c:70-109 | whatever arrives between the turns, the loop takes the oldest match among all messages there at that moment and leaves the others in order |
| `MailboxReceive.FindsMatchAmid` | src/messaging/erl_message.c:70-109 | a match that is there is taken in one turn for each message up to it, whatever arrives behind it |
| `MailboxLockfree.ExchangeKeeps` | src/messaging/erl_message.c:40 | the exchange step keeps the half-linked list faithful to the exchange order |
| `MailboxLockfree.LinkKeeps` | src/messaging/erl_message.c:41-45 | the link step does, too, in whatever order producers take it |
| `MailboxLockfree.DequeueKeeps` | src/messaging/erl_message.c:53-68 | a dequeue keeps the list faithful while links are pending, too, unless it takes the last linked message |
| `MailboxLockfree.DequeueExactly` | src/messaging/erl_message.c:53-68 | a dequeue keeps the list whole if and only if the message behind the first is linked or no link is pending |
| `MailboxLockfree.EarlyDequeueLoses` | src/messaging/erl_message.c:60-64 | otherwise it clears the tail and every message behind the first is lost |
| `MailboxLockfree.LinkIsEnabled` | src/messaging/erl_message.c:41-45 | a producer between its two steps can always take the second |
| `MailboxLockfree.RunKeeps` | src/messaging/erl_message.c:30-68 | so does every interleaving of any number of producers with the owner |
| `MailboxLockfree.QuietQueueIsFifo` | src/messaging/erl_message.c:30-68 | whenever no link is pending the chain from head visits every node in use once, in exchange order, and ends in the tail |
| `MailboxLockfree.PerProducerOrder` | src/messaging/erl_message.c:39-45 | what has been taken out of one producer's messages is a prefix of what it sent |
| `MailboxLockfree.DrainReturnsAll` | src/messaging/erl_message.c:53-68 | draining a quiet queue returns everything sent, in order, and leaves the empty queue for the next phase |
| `RunQueueList.Level.Append` | src/scheduler/run_queue.c:43-53 | appends to one linked level |
| `RunQueueList.Level.TakeFirst` | src/scheduler/run_queue.c:71-81 | takes the oldest of one level |
| `RunQueueList.RunQueue.constructor` | src/scheduler/run_queue.c:22-29 | four empty levels |
| `RunQueueList.RunQueue.EnqueueProcess` | src/scheduler/run_queue.c:34-58 | appends to the level of the priority or refuses the priority |
| `RunQueueList.RunQueue.DequeueProcess` | src/scheduler/run_queue.c:60-92 | takes the oldest of the highest level that has one |
| `RunQueueList.RunQueue.StealProcess` | src/scheduler/run_queue.c:94-126 | takes the oldest of the lowest level that has one |
| `RunQueueModel.Highest` | src/scheduler/run_queue.c:69-72 | the level found is not empty and every higher one is |
| `RunQueueModel.Lowest` | src/scheduler/run_queue.c:103-106 | the level found is not empty and every lower one is |
| `RunQueueModel.DequeueTakesHighest` | src/scheduler/run_queue.c:60-92 | a dequeue finds nothing if and only if all levels are empty; otherwise exactly one level has lost its oldest, and all levels above it are empty |
| `RunQueueModel.StealTakesLowest` | src/scheduler/run_queue.c:94-126 | the same for a thief, with all levels below it empty |
| `RunQueueModel.LevelsAreFifo` | src/scheduler/run_queue.c:34-126 | over every history each level's departures followed by its contents are its arrivals |
| `RunQueueModel.Conservation` | src/scheduler/run_queue.c:34-126 | over every history enqueued equals returned plus queued, as multisets |
| `Scheduler.SchedulerStep` | src/scheduler/beam_scheduler_loop.c:26-45 | one step runs the process the queue yields and puts it back at NORMAL exactly when the test after the slice says so |
| `Scheduler.RequeuedIff` | src/scheduler/beam_scheduler_loop.c:36-42 | a process is put back if and only if its slice was preempted or ran off the end of its code |
| `Scheduler.RunKinds` | src/emulator/beam_emu.c:33-430 | how a slice can end: the state it writes and the result for each kind of end |
| `Scheduler.StepServesAgenda` | src/scheduler/beam_scheduler_loop.c:26-45 | a step serves the first of MAX, HIGH, NORMAL and adds only behind them |
| `Scheduler.AgendaRunsInOrder` | src/scheduler/beam_scheduler_loop.c:26-45 | whatever the slices do, the first steps run the agenda in order |
| `Scheduler.BoundedWaiting` | src/scheduler/beam_scheduler_loop.c:26-45 | a process at position k of NORMAL behind m in MAX and HIGH runs on exactly step m+k+1 |
| `Scheduler.LowRunsLast` | src/scheduler/run_queue.c:69-88 | a LOW process runs if and only if the three levels above are empty |
| `Scheduler.LowIsPromoted` | src/scheduler/beam_scheduler_loop.c:37-41 | a LOW process that has run and is put back is the only one of NORMAL |
| `Scheduler.BusyAgendaStarvesLow` | src/scheduler/beam_scheduler_loop.c:37-41 | while slices put their processes back LOW is never served |
| `SchedulerPool.WorkersTake` | src/scheduler/beam_scheduler_loop.c:56-64 | a worker takes the oldest of the highest level, a thief the oldest of the lowest, and with nothing queued neither takes anything |
| `SchedulerPool.StepKeepsPlaces` | src/scheduler/beam_scheduler_loop.c:60-82 | no atomic step of any worker creates, loses or doubles a place of a process |
| `SchedulerPool.SingleOwnership` | src/scheduler/beam_scheduler_loop.c:52-85 | a process enqueued once is always in exactly one queue slot, with exactly one worker, or retired |
| `SchedulerPool.StepKeepsStateFits` | src/scheduler/run_queue.c:54-56 | what a worker can find in the state field of the process it holds |
| `SchedulerPool.RetiresOnlyAfterLeaving` | src/scheduler/beam_scheduler_loop.c:36-42 | in every interleaving a process retires only after a slice that waited, exited or failed |
| `SchedulerPool.ExitedProcessIsQueuedAgain` | src/scheduler/run_queue.c:54-56 | the converse fails: with two workers the state written after the lock is released puts an exited process back into the queue |
| `PoolRetirement.RetiresIff` | src/scheduler/beam_scheduler_loop.c:36-42 | a process whose slice is over retires whatever the other workers do if and only if the test would let it go now and no worker has a state write for it outstanding |
| `PoolRetirement.LeavingRetiresIff` | src/scheduler/beam_scheduler_loop.c:36-42 | so a process whose slice waited or exited retires in every interleaving if and only if no worker is late with a re-enqueue of it when the slice ends |
| `PoolRetirement.FailedSliceRetiresIff` | src/scheduler/beam_scheduler_loop.c:36-42 | a process whose slice fails without writing a state retires in every interleaving if and only if no worker is late with a re-enqueue of it when it is set RUNNING |
| `PoolRetirement.FailedSliceRetires` | src/scheduler/beam_scheduler_loop.c:26-45 | from the dequeue on: with no such write outstanding then, it leaves for good, whatever the other workers do before, during and after its slice |
| `PoolRetirement.SoleWorkerRetires` | src/scheduler/beam_scheduler_loop.c:26-45 | with one worker it always retires |
| `PoolRetirement.SlicesArePlausible` | src/emulator/beam_emu.c:33-430 | the interpreter's slices end in the ways the pool allows |
| `AtomTableList.ComputeHash` | src/global/atom_table.c:27-34 | the hash loop is FNV-1a over the bytes, modulo 2^32 |
| `AtomTableList.HashIsFnv` | src/global/atom_table.c:27-34 | the hash of no bytes is the FNV offset basis, and each further byte is exclusive-ored in before the multiplication by the FNV prime |
| `AtomTableList.XorBits` | src/global/atom_table.c:30 | bit for bit, the exclusive or is set where the operands differ |
| `AtomTableList.AtomTable.constructor` | src/global/atom_table.c:44-76 | an empty table with the capacity asked for, or 256 |
| `AtomTableList.AtomTable.FindEntry` | src/global/atom_table.c:101-116 | finds an entry if and only if the name is in the table, and then the entry of that name |
| `AtomTableList.AtomTable.Insert` | src/global/atom_table.c:118-155 | appends the name with the next index; no earlier entry changes |
| `AtomTableList.AtomTable.GrowIndexMap` | src/global/atom_table.c:121-128 | doubles the index map and moves no entry |
| `AtomTableList.AtomTable.ProbeAndInsert` | src/global/atom_table.c:194-203 | the write-locked region: the list of names grows by the name exactly when it was missing |
| `AtomTableList.AtomTable.Intern` | src/global/atom_table.c:182-204 | returns the atom whose index holds the name and grows the table only for a new one |
| `AtomTableList.AtomTable.Lookup` | src/global/atom_table.c:206-223 | the name of an atom as a C string, nothing for other terms and unused indices |
| `AtomConcurrent.StepKeeps` | src/global/atom_table.c:185-203 | each locked region keeps names distinct and every answer given so far true |
| `AtomConcurrent.GrowingBijection` | src/global/atom_table.c:182-204 | in every interleaving two answers are equal if and only if their names are, and no later intern changes an answer |
| `AtomConcurrent.LookupReturnsName` | src/global/atom_table.c:206-223 | looking up an interned term at any later time returns the name that was interned if and only if it holds no zero byte |
| `AtomConcurrent.SecondProbeNeeded` | src/global/atom_table.c:194-200 | without the second probe two threads enter one name twice |
| `EtsModel.InsertActsOnFront` | src/global/ets.c:61-100 | insertion acts on the front of its key's values by the table's kind and on no other key of the bucket |
| `EtsModel.LookupReadsFront` | src/global/ets.c:102-118 | lookup reads the front value |
| `EtsModel.DeleteActsOnFront` | src/global/ets.c:120-139 | deletion removes the front value only |
| `EtsModel.BumpAdds` | src/global/ets.c:154-157 | a counter becomes the sum with the increment modulo 2^60 |
| `EtsModel.UpdateActsOnFront` | src/global/ets.c:145-164 | a counter update adds the increment to the front value modulo 2^60 and changes no other |
| `EtsModel.TableRefinesMap` | src/global/ets.c:61-164 | for every history and every hash function the table is a map from key to newest-first values |
| `EtsModel.SetHoldsOne` | src/global/ets.c:67-76 | a SET or ORDERED_SET holds at most one value for a key |
| `EtsModel.BagHasNoDuplicates` | src/global/ets.c:77-86 | a BAG holds no pair twice under insertions and deletions |
| `EtsModel.BagCounterExactly` | src/global/ets.c:151-161 | a counter update keeps a BAG free of duplicates if and only if the new value is not among the key's other values |
| `EtsList.EtsTable.constructor` | src/global/ets.c:22-34 | an empty table of 64 buckets |
| `EtsList.EtsTable.InsertPair` | src/global/ets.c:61-100 | insertion into the linked buckets, item count included |
| `EtsList.EtsTable.LookupKey` | src/global/ets.c:102-118 | the newest value of the key, or not found |
| `EtsList.EtsTable.DeleteKey` | src/global/ets.c:120-139 | the pointer-to-pointer removal, item count included |
| `EtsList.EtsTable.UpdateCounterOf` | src/global/ets.c:145-164 | the newest value of the key becomes its sum with the increment modulo 2^60, which is reported; no value is found for a missing key |
| `EtsList.Bucket.Unlink` | src/global/ets.c:126-138 | unlinks the first entry of the key and no other |
| `BeamDecode.DecodeArgAt` | src/emulator/beam_decode.c:12-65 | the operand decoder is the function the round trip is about and never passes the end |
| `BeamDecode.DecodeCodeChunk` | src/emulator/beam_decode.c:67-202 | the chunk decoder refuses a chunk if and only if it is shorter than 20 bytes; on no input does it emit more instructions than bytes or than 100001 |
| `BeamDecode.DecodeEncodedArg` | src/emulator/beam_decode.c:19-64 | decoding one operand below 2^28 in any of its three widths gives the term or number it stands for and stops right behind it |
| `BeamDecode.ArgWordMeans` | src/emulator/beam_decode.c:45-64 | every operand below 2^28 becomes its term or number; a larger atom index loses its high bits |
| `BeamDecode.DecodeNestedArg` | src/emulator/beam_decode.c:29-42 | an operand of nine bytes or more carries its length in front; at most 1024 bytes are read and the last four count |
| `BeamDecode.DecodeCutOffArg` | src/emulator/beam_decode.c:12-42 | an operand cut off by the end: a short or medium one reads as zero and takes nothing, a wide one is what its remaining bytes stand for |
| `BeamDecode.StartWraps` | src/emulator/beam_decode.c:76 | the start of the code is computed in 32 bits, so a size field near 2^32 sends the decoder back into the header; a start past the end gives no instructions |
| `BeamDecode.CasesMatchTable` | src/emulator/beam_decode.c:106-197 | the decoder's own cases read as many operands as the arity table says, except select_val |
| `BeamDecode.DecodeEncoded` | src/emulator/beam_decode.c:98-198 | decoding undoes encoding and stays in step across skipped opcodes |
| `BeamDecode.ChunkRoundTrip` | src/emulator/beam_decode.c:67-202 | decoding an encoded chunk gives every instruction back if and only if there are at most 100001 |
| `BeamDecode.OperandsRecovered` | src/emulator/beam_decode.c:106-187 | the fields of a decoded instruction give back every operand that was encoded |
| `BeamDecode.UnusedFieldsZero` | src/emulator/beam_decode.c:104 | fields a case does not fill are zero |
| `BeamDecode.SelectValStaysInStepIff` | src/emulator/beam_decode.c:148-153 | behind select_val with the two operands of the table the decoder keeps in step if and only if nothing follows that it could read |
| `BeamDecode.SelectValSwallowsReturn` | src/emulator/beam_decode.c:148-153 | a return behind select_val is lost |
| `DecodeOpcodes.CasesBecomeInstructions` | src/emulator/beam_decode.c:106-187 | each of the decoder's cases with an interpreter opcode writes the number of that instruction, and this is where its operands land among the instruction's fields |
| `DecodeOpcodes.PlaceholdersCollide` | src/emulator/beam_decode.c:125-141 | three of its four placeholder numbers are other instructions: func_info is a MOVE, int_code_end an ADD of x0 to itself, test_heap a comparison |
| `DecodeOpcodes.SkippedStops` | src/emulator/beam_decode.c:188-197 | the records the interpreter has no case for are exactly the skipped opcodes and line numbers, and it stops at them with BADARG |
| `DecodeOpcodes.DecodedMoveExactly` | src/emulator/beam_decode.c:111-115 | a decoded register move is one if and only if the source register holds zero |
| `DecodeOpcodes.DecodedCallExactly` | src/emulator/beam_decode.c:116-120 | a decoded call goes to its label if and only if that stands at the instruction whose number is the arity |
| `DecodeOpcodes.DecodedSelectFails` | src/emulator/beam_decode.c:148-153 | a decoded select_val always goes to its fail label |
| `DecodeOpcodes.ChunkIsProgram` | src/emulator/beam_decode.c:67-202 | an encoded chunk of at most 100001 instructions decodes to the program with the instruction of each in its place |
| `BeamLoad.ChunkNames` | src/emulator/beam_load.c:39-86 | the chunk identifiers, letter by letter |
| `BeamLoad.PaddingAligns` | src/emulator/beam_load.c:91-93 | the padding is less than four bytes and ends at the next multiple of four |
| `BeamLoad.ReadAtomTable` | src/emulator/beam_load.c:51-72 | the name loop reads the names or finds that they run over the buffer |
| `BeamLoad.BeamFile.AtomChunk` | src/emulator/beam_load.c:39-73 | one atom chunk: absolute count, limit of 100000, names, module name |
| `BeamLoad.BeamFile.OtherChunk` | src/emulator/beam_load.c:74-89 | one other chunk recorded under its kind |
| `BeamLoad.BeamFile.Chunks` | src/emulator/beam_load.c:27-94 | the chunk loop ends on every buffer and is the recursive walk |
| `BeamLoad.BeamFile.GetAtom` | src/emulator/beam_load.c:107-110 | an atom by index as a C string, nothing past the end |
| `BeamLoad.ParseFile` | src/emulator/beam_load.c:11-97 | header check and walk on a new record |
| `BeamLoad.ReadAtomsOf` | src/emulator/beam_load.c:51-72 | reading encoded names gives the names back, for both length widths |
| `BeamLoad.WalkOne` | src/emulator/beam_load.c:28-93 | the walk over one padded chunk records it and goes on behind its padding |
| `BeamLoad.LoaderRoundTrip` | src/emulator/beam_load.c:11-97 | for any chunks in any order, counts of either sign and both widths, loading an encoded file finds every name and the exact bytes of every known chunk, or rejects it if and only if a table has over 100000 names |
| `BeamLoad.NamesReadBack` | src/emulator/beam_load.c:62-69 | a caller reads a name back if and only if it holds no zero byte; the module name if and only if it also fits in 63 bytes |
| `LoadOutcomes.ReadAtomsExactly` | src/emulator/beam_load.c:51-72 | the name loop stays in the buffer if and only if that many encoded names stand there |
| `LoadOutcomes.ParseOutcome` | src/emulator/beam_load.c:11-97 | for every buffer: it is read past its end if and only if behind chunks in order comes an atom chunk whose count or names it does not hold, and rejected if and only if the header is bad or the count there is over the limit |
| `LoadOutcomes.EmptyAtomChunkReadsPastEnd` | src/emulator/beam_load.c:39-41 | a file of 20 bytes that ends in an atom chunk of length zero is read past its end |

## Left out

- src/io, src/jit, src/core, benchmarks and scripts: foreign calls, a fixed stub and wiring.
- src/global/dist_node.c and src/emulator/beam_code_server.c: bounded linear scans; they would only add easy members.
- src/memory/beam_alloc.c: allocation is taken to succeed and `realloc` to keep contents; failed allocations and their error returns are not modelled. Null-pointer argument checks are not modelled either.
- Threads and memory ordering: every atomic operation and every locked region is one step; timed sleeps and the pool's running flag are left out.
- The mailbox's `count` and `atomic_count` under concurrent producers: `count` is modelled for one thread only.
- Off-heap binaries, floats, bignums and references: declared in headers, not implemented in the modelled files.
- Runs of decoded chunks: what the interpreter makes of each decoded instruction is in `DecodeOpcodes`.
- The fields `catch_ip`, `catch_sp` and `sp` of the frame: written by the interpreter, never read back by it.
- The interpreter's mailbox is the abstract queue with a cursor, and messages to other processes go to a list; the linked mailbox is proved against the same queue in `ErlMessage`.
- The interpreter calls built-in functions through a table it is given; the six functions are proved in `BeamBif`, and `EmuBranches.CallsBifs` says that the table holds them.
- Reads through pointers that lead outside the process heap return words of a function given with the environment.
- MAKE_FUN2 with 67108863 or more free variables, whose header arithmetic wraps, and SELECT_VAL tables of odd length.
- Code longer than 2^32 - 1 instructions, where return addresses wrap, and atom tables with 2^32 names.
- EmuValues.ClosureBuilt: asks that the heap stay in place; when growing moves it, every pointer in a register or on the stack still leads to the old block.
- BeamGc.CollectProcess: asks that every root denote a value; a saved return address does unless its low two bits are those of a pointer, and then the code reads memory through it (`GcFrames.FrameWordsImmediate`).
- ErlMessage.Mailbox.DequeueMessage: asks for no cursor or a cursor at index 2 or later, because otherwise the code leaves the cursor, or the predecessor it remembers, on a freed node.
- MailboxLockfree.DequeueKeeps: excludes the dequeue of the last linked message while a link is pending, which `DequeueExactly` shows to lose messages, and an exchange in the middle of such a dequeue, which is one step in the model.
- EmuCalls.RunKeepsEncoding: is about code that pops frames with the size it pushed them with and not from under a handler; what other code does to the flat stack is only bounded by `BeamEmu.StepWf`.
- Words of a grown heap that nobody has written are zero in the model and arbitrary in the source.
- `BeamGc` splits the recursive copier into its tuple branch, its list branch and the store of one field; the dispatch loop of the interpreter is split by groups of instructions.
- Each level of the run queue and each bucket of an ETS table is an object of its own in the model, an array slot in the source.
- Words read through a pointer that leads outside its block, and untagged words used as terms, keep the form they were written in; the tag tests on packed words are proved for canonical terms.
- Processes are enqueued from outside before the workers start; an outside enqueue that is late with its own state write is not a step of the pool.
- The hash of ETS is any function of the key; the atom table's hash is modelled as it is.
- Messages are sent without copying; a message that points into the sender's heap is a word like any other in the model.
- The atom names of the loader are not interned and its buffer is not kept alive: chunks are recorded as their bytes.
