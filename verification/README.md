# Verified models of ndsrecomp's stateful cores

This project models the parts of the repository that keep state over long runs or rewrite data in
place, and proves what those parts are for. `dafny verify dfyconfig.toml` checks all of it.

- **The ARM runtime** (`recompiler/armv4t/runtime_arm.cpp`). `ArmArchitecture` is the reference: a
  register file in which every bank's registers exist side by side and nothing is ever copied.
  `ArmRuntime.Cpu` is the runtime's own state, where the live registers sit in `R` and a mode switch
  copies them out and in. Every method is proved to act on the reference file, and so is every run.
  `ArmRuns` then proves what runs keep, up to interrupts being invisible to the code they interrupt.
  `ArmFlags` proves carry chains over numbers of any width, `ArmShifts` proves the barrel shifter
  against repeated shifts by one bit, `CallReturnStack` the generated call-return stack.
- **The shared shard cache** (`tools/compile_live_shards.py`). `ShardIndex` is the merge that
  `record_capture` performs, `IndexProtocol` the lock, temporary file and atomic replace as a state
  machine with crashes between any two steps, `ShardRuns` the bounded batch loop, `ShardHistory` what
  whole sequences of compiler runs keep that have the cache to themselves, `SharedCache` what any number
  of compiling processes keep that interleave step by step.
- **The streaming manifest reader** (`tools/coverage_stream.py`). `Json` is a whole-document decoder,
  `JsonPrefixes` says what its prefixes decode to, `CoverageStream.Window` is the sliding window over a
  file that arrives in pieces of any size, `ManifestWalk` the walk that must yield the flattening of the
  document.
- **Coverage accounting** (`tools/ingest_coverage_manifests.py`). `RootHits` spreads block counters
  over bitmap bits (with `Division`), `HotSpans` cuts and ranks interpreted spans,
  `CoverageTotals` chains them over records, callers, owned rows and both CPUs, `AssembleRuns` joins
  captured pages.
- **Captures and their sanitizer** (`tools/net_capture_tool.py`). `CaptureCodec` is the file format,
  `UdpChecksum` the checksum of RFC 768 and RFC 1071, `FrameLayout` says where a frame names the
  console, `Sanitizer` is the in-place rewriter, `SanitizedFrames` proves what it leaves alone.
- **The audio trace** (`oracle/shim/nds_oracle.cpp`, `oracle/firmware_traversal.py`). `AudioTrace.Ring`
  keeps the newest 1048576 frames of an unbounded history, `AudioCompare.PairedMachines` compares two
  of them chunk by chunk.
- **Name decompression and page lookup** (`tools/wfc_dns.py`, `tools/rom_alias.py`): `WfcDns`, `RomAlias`.

## What the code turned out not to do

Each of these is stated in the project, with a concrete counterexample and the condition under which
the property does hold.

- In the 25 reserved mode encodings a User write to R13 or R14 is lost and a User read returns a stale
  copy (`UserWriteLands`, `UserReadIsRight`, `ArmRuntime.StaleUserRead`); a zero-initialised CPU starts in
  one of them. That read is also the one place where an interrupt shows (`EmptyInterrupt`).
- Processes of different ROMs may share a cache directory only if it already has an index: an existing
  index, of whatever ROM or schema, turns away everybody who could harm it. On an empty directory two of
  them both pass the start-up check, and the second one's record erases the first one's
  (`NeverLosesExactly`, `MixedRomsLoseCaptures`).
- A page's published roots are lost exactly when a refusal overwrites the only record that knew some of
  them (`MoveKeepsRootsExactly`, `SharedGrowthExactly`). A process alone with the cache gets there when
  the library is gone and the compiler now refuses the page (`RunKeepsRootsExactly`,
  `LostLibraryLosesRoots`). Processes that share it also get there with every library in place, when one
  publishes a key and another, whose view is older, fails on the same key (`StaleRefusalLosesRoots`).
  While no library is lost, nothing is ever forgotten exactly when no two processes may compile the same
  key (`SafeAssignmentExactly`).
- The comment above `record_capture`'s merge says disk entries win on a collision; for the key being
  recorded the new entry wins, and the model follows the code.
- The streaming reader's accept test can be fooled exactly by a number with a fraction or an exponent
  that is handed out on its own (`AcceptTestIsExact`). A reader that finishes is right all the same: the
  cursor is then on the `.`, `e` or `E`, so what follows is a spurious error, and only the last value
  yielded before that error can be a cut-short number. Documents without such numbers finish however they
  arrive; with one, arriving one character at a time, they never do (`StreamManifest`).
- A written capture reads back as itself exactly when its strings are short ASCII without zero bytes
  and its numbers fit their fields (`CaptureCodec.RoundTrip`).
- The ROM index leaves out the last 256 bytes of every module, so pages of exactly 256 bytes can be
  missed and shorter ones are never found (`LocateIsExact`).
- A DNS question whose name takes no header byte that a reply rewrites keeps that name in every reply
  exactly when question and header hold all the bytes its name reads; a name that reads on behind the
  question is already unreadable in a refusal (`RefusalKeepsNameExactly`, `RepliesKeepNameExactly`; an
  answered instance is `CompressedQuestionBreaks`). For names that do take rewritten bytes it depends on
  their values (`HeaderNamesGoEitherWay`).
- `compare_audio`'s checks for overwritten history and short reads cannot fire: the request itself is
  refused first, and a request inside what was produced is always granted in full.

## Modelling choices

- Status registers are records of their fields, so a flag test is a field read and a sign-bit mask is a
  comparison with 2^31. The `|` of two disjoint halves in `arm_shift_ror` is a sum.
- The register arrays of the C struct are sequences that the methods reassign; the call stack, the audio
  ring and the sample buffers are arrays.
- 32-bit wrap-around is written as `% 2^32` wherever a value may leave the range.
- FNV-1a is a parameter, SHA-256 in the audio client is the bytes it was fed, and `work_identity` is the
  tuple it hashes: collisions are outside the model.
- What a compiler invocation does to one page (publish, refuse, fail) and which pages it is given are
  inputs to a run. Python dictionaries whose order matters are sequences.
- JSON objects keep duplicate keys as a member list, and numbers stay text.
- ROM modules are named by their position in the dictionary's order.

## Model

| member | source | states |
|---|---|---|
| ArmRuntime.Cpu.BankOut | recompiler/armv4t/runtime_arm.cpp:708-722 | The live registers reach exactly the slots of the bank being left; R8-R12 go to FIQ's copy from FIQ mode and to the shared copy otherwise. |
| ArmRuntime.Cpu.BankIn | recompiler/armv4t/runtime_arm.cpp:724-736 | The live registers become the incoming bank's; R0-R7 and PC stay. |
| ArmRuntime.Cpu.ReadUserReg | recompiler/armv4t/runtime_arm.cpp:740-757 | Reads the User-mode register of the logical register file; in a reserved mode R13/R14 come from the saved User slot instead. |
| ArmRuntime.Cpu.WriteUserRegister | recompiler/armv4t/runtime_arm.cpp:759-781 | Acts on the logical register file as a write to the User bank, from any mode. |
| ArmRuntime.Cpu.SwitchMode | recompiler/armv4t/runtime_arm.cpp:803-816 | Changing the mode bits changes CPSR and no register of any bank, although live registers move. |
| ArmRuntime.Cpu.MoveToCpsr | recompiler/armv4t/runtime_arm.cpp:792-816 | Changes the named CPSR fields (flags only from User mode) and no bank's registers, whatever swap that causes. |
| ArmRuntime.Cpu.MoveToSpsr | recompiler/armv4t/runtime_arm.cpp:818-833 | Changes the named fields of the current bank's SPSR, and nothing in the User bank. |
| ArmRuntime.Cpu.ReturnFromException | recompiler/armv4t/runtime_arm.cpp:835-853 | PC set and CPSR restored on the logical register file, no bank's registers changed. |
| ArmRuntime.Cpu.RestoreCpsrFromSpsr | recompiler/armv4t/runtime_arm.cpp:855-868 | CPSR restored, every bank's registers kept. |
| ArmRuntime.Cpu.EnterException | recompiler/armv4t/runtime_arm.cpp:890-931 | Entry saves CPSR and the return address in the entered bank only, masks IRQs, clears Thumb and goes to the vector. |
| ArmRuntime.Cpu.Perform | recompiler/armv4t/runtime_arm.cpp:695-992 | A whole run of the swapping runtime, with code that decides from everything it can read except User R13 and R14 in the reserved mode encodings, is the run of the reference machine that never swaps. |
| ArmRuntime.StaleUserRead | recompiler/armv4t/runtime_arm.cpp:740-757 | Counterexample: on a zero-initialised CPU the User R13 read returns the stale copy, not the live register. |
| ArmRuntime.EmptyInterrupt | recompiler/armv4t/runtime_arm.cpp:740-992 | In every state with a reserved mode encoding an IRQ whose handler does nothing changes no register or status outside the IRQ bank, and still afterwards the User R13 read is the live R13, whatever it was before. |
| ArmRuns.ModeSwitchesKeepBanks | recompiler/armv4t/runtime_arm.cpp:792-868 | Every sequence of MSR, CPSR restore and exception return keeps the logical registers of all six banks, FIQ's R8-R12 included. |
| ArmRuns.UserWriteIsVisible | recompiler/armv4t/runtime_arm.cpp:759-781 | A User-register write made in any architectural mode is what that register reads as after any mode switches that end in User or System mode. |
| ArmRuns.UserWriteLands | recompiler/armv4t/runtime_arm.cpp:759-781 | A User-register write lands for every value exactly when the mode is architectural or the register is not banked. |
| ArmRuns.UserReadIsRight | recompiler/armv4t/runtime_arm.cpp:740-757 | A User read gives the User register whatever the saved slot holds, exactly when the mode is architectural or the register is not R13 or R14. |
| ArmRuns.UserModeIsConfined | recompiler/armv4t/runtime_arm.cpp:799-802 | From User mode no run without SWI or IRQ entry changes the mode or the interrupt masks. |
| ArmRuns.UserSpsrIsNeverWritten | recompiler/armv4t/runtime_arm.cpp:820-823 | No run of any steps writes an SPSR for the User bank. |
| ArmRuns.InterruptIsInvisible | recompiler/armv4t/runtime_arm.cpp:941-992 | One IRQ bracket taken outside the IRQ bank changes nothing but the IRQ bank. |
| ArmRuns.OwnWorkHandlersRestore | recompiler/armv4t/runtime_arm.cpp:941-992 | Every handler whose steps, however decided, only use R13, the flags, branches and state changes within its mode meets the condition of the transparency results. |
| ArmRuns.StepIgnoresIrqBank | recompiler/armv4t/runtime_arm.cpp:695-992 | Outside the IRQ bank no step's effect depends on what the IRQ bank holds. |
| ArmRuns.InterruptsAreTransparent | recompiler/armv4t/runtime_arm.cpp:941-992 | Whatever IRQ brackets are inserted anywhere into a run that otherwise avoids the IRQ bank, the final CPSR, PC and every other bank equal those of the run without them. |
| ArmRuns.InterruptsLeaveOnlyTheLink | recompiler/armv4t/runtime_arm.cpp:941-992 | If the handlers also put back their stack pointer, the two runs differ in nothing but the IRQ bank's link register and SPSR. |
| ArmRuns.LoweredRun | recompiler/armv4t/runtime_arm.cpp:835-853 | The run with brackets is the run of its flattened code, so the transparency result speaks of what the runtime executes. |
| ArmFlags.AddWords | recompiler/armv4t/runtime_arm.cpp:479-502 | An ADDS/ADCS chain over any number of words yields the 32n-bit sum with final C as carry-out, and V exactly when the signed sum does not fit. |
| ArmFlags.SubtractWords | recompiler/armv4t/runtime_arm.cpp:504-527 | A SUBS/SBCS chain yields the difference, C exactly when A >= B unsigned, N != V exactly when A < B signed. |
| ArmFlags.SumValue | recompiler/armv4t/runtime_arm.cpp:491-502 | After every word of the chain, the words so far and the carry add up to the exact partial sum. |
| ArmFlags.DifferenceValue | recompiler/armv4t/runtime_arm.cpp:515-527 | After every word of the chain, the words so far and the borrow give the exact partial difference. |
| ArmFlags.NoBorrowIsNotLess | recompiler/armv4t/runtime_arm.cpp:515-527 | No borrow out of the low n words exactly when they compare greater or equal. |
| ArmFlags.SignedComparison | recompiler/armv4t/runtime_arm.cpp:515-527 | N != V after the top word exactly when the whole numbers compare less as signed. |
| ArmFlags.SignedOverflow | recompiler/armv4t/runtime_arm.cpp:491-502 | V after the top word exactly when the whole signed sum is not representable. |
| ArmFlags.WordComparison | recompiler/armv4t/runtime_arm.cpp:515-527 | The XOR-built V of one SBC: N != V exactly when the true signed difference is negative. |
| ArmFlags.WordOverflow | recompiler/armv4t/runtime_arm.cpp:491-502 | The XOR-built V of one ADC: set exactly when the true signed sum does not fit a word. |
| ArmShifts.ShiftLeft | recompiler/armv4t/runtime_arm.cpp:393-407 | For every amount, 0, 32 and beyond included: the value and carry of that many left shifts by one; C untouched unless asked for. |
| ArmShifts.ShiftRight | recompiler/armv4t/runtime_arm.cpp:409-423 | The value and carry of that many logical right shifts by one. |
| ArmShifts.ShiftRightSigned | recompiler/armv4t/runtime_arm.cpp:425-439 | The value and carry of that many arithmetic right shifts by one, saturating to the sign. |
| ArmShifts.RotateRight | recompiler/armv4t/runtime_arm.cpp:441-457 | The value and carry of that many rotations by one, whole turns included. |
| ArmShifts.RorIs | recompiler/armv4t/runtime_arm.cpp:441-457 | Rotating n times by one is moving the low n mod 32 bits to the top, and the carry is the result's top bit. |
| ArmShifts.AsrIs | recompiler/armv4t/runtime_arm.cpp:425-439 | n arithmetic shifts by one floor-divide the signed value by 2^n. |
| ArmShifts.LslIs | recompiler/armv4t/runtime_arm.cpp:393-407 | n left shifts by one multiply by 2^n modulo 2^32. |
| CallReturnStack.Stack.PushReturn | recompiler/armv4t/runtime_arm.cpp:622-635 | A full stack aborts and changes nothing; otherwise one frame is added on top. |
| CallReturnStack.Stack.ShouldReturn | recompiler/armv4t/runtime_arm.cpp:637-655 | The downward search unwinds to the innermost waiting frame with that address and state, or changes nothing. |
| CallReturnStack.Stack.CancelReturn | recompiler/armv4t/runtime_arm.cpp:657-665 | Drops the top frame exactly when it waits for that address in either state. |
| CallReturnStack.Stack.Restore | recompiler/armv4t/runtime_arm.cpp:680-685 | The waiting frames become the saved ones, clamped to the buffer. |
| CallReturnStack.Stack.Perform | recompiler/armv4t/runtime_arm.cpp:622-685 | All later answers depend on the waiting frames alone, so a restored stack cannot be told from the saved one. |
| CallReturnStack.BalancedCallsRestoreStack | recompiler/armv4t/runtime_arm.cpp:622-655 | Every balanced tree of calls and matching returns restores the stack exactly when its nesting fits, and aborts otherwise. |
| CallReturnStack.NonLocalReturn | recompiler/armv4t/runtime_arm.cpp:637-655 | A return abandons the frames above the innermost match; an unmatched one changes nothing. |
| ShardIndex.Merge | tools/compile_live_shards.py:262-286 | The locked read-modify-write: disk entries over local ones, the new record over both, an unusable file ignored. |
| ShardIndex.RecordKeepsKeysExactly | tools/compile_live_shards.py:262-286 | A record keeps every key on disk exactly when the file is usable or nothing on it would be lost. |
| IndexProtocol.StepKeepsInv | tools/compile_live_shards.py:47-121 | Each step of each process, crashes included, keeps mutual exclusion, a whole index file and the local-within-disk relation; processes of other ROMs may come whenever there is an index. |
| IndexProtocol.RunKeepsInv | tools/compile_live_shards.py:47-121 | So does every interleaving of any number of processes, and no key on disk is ever missing later. |
| IndexProtocol.ReplayIsLastRecord | tools/compile_live_shards.py:262-286 | Replaying the log gives each key the last record logged for it. |
| IndexProtocol.IndexNeverLosesCaptures | tools/compile_live_shards.py:262-286 | Over every interleaving and crash of processes of any ROMs on an existing index, or of one ROM where there is none: the index only gains keys, holds for each key the last record, each process's local keys stay within the disk keys, and whoever passes the start-up check is of the index's ROM. |
| IndexProtocol.NeverLosesExactly | tools/compile_live_shards.py:1517-1524 | No run of processes of these ROMs ever loses a key if and only if there is an index already or all of them are of one ROM. |
| IndexProtocol.RecordedState | tools/compile_live_shards.py:262-286 | `record_capture` run alone leaves the merged index, no temporary file and a free lock. |
| IndexProtocol.StartedState | tools/compile_live_shards.py:1517-1524 | The locked start-up on an empty cache passes and leaves the disk as it was. |
| IndexProtocol.MixedRomsLoseCaptures | tools/compile_live_shards.py:1517-1524 | Counterexample for any two ROMs, keys, records and leftover temporary file: both start on an empty cache and the second record erases the first. |
| SharedCache.MoveKeepsInv | tools/compile_live_shards.py:262-286 | The compiling processes keep what the protocol keeps, and every record in flight or on disk is one a compilation of its key can leave. |
| SharedCache.MoveKeepsRootsExactly | tools/compile_live_shards.py:1279-1391 | Each step of each process keeps a page's published roots if and only if it is not the arrival of a refusal that overwrites the only record knowing some of them. |
| SharedCache.SharedGrowthExactly | tools/compile_live_shards.py:262-286 | Over every interleaving of any number of processes, with crashes and vanishing libraries, a page's roots never shrink exactly when no such refusal arrives. |
| SharedCache.SharedCoverageOnlyGrows | tools/compile_live_shards.py:524-530 | Without one, a process that reads the index afterwards compiles the page from at least every root anybody ever published for the same bytes. |
| SharedCache.StaleRefusalLosesRoots | tools/compile_live_shards.py:271-283 | Counterexample for every key, root and library, none of them missing: two processes compile one key, the first publishes it, the second fails and overwrites the record. |
| SharedCache.DividedNeverForgets | tools/compile_live_shards.py:1559-1605 | While no library is lost and every key with roots is compiled by one process only, no run ever forgets a page. |
| SharedCache.SafeAssignmentExactly | tools/compile_live_shards.py:1559-1605 | What can be arranged beforehand: while no library is lost, no page ever loses a published root, whatever the compilers do, if and only if no two processes may compile the same key that has roots. |
| ShardRuns.MergeEntries | tools/compile_live_shards.py:407-426 | One duplicate-free list in address and mode order, with both sides' hits added and kinds united root by root. |
| ShardRuns.SortedIsUnique | tools/compile_live_shards.py:407-426 | A set of roots has exactly one such ordered list, so equal sets give equal work keys. |
| ShardRuns.RunBatch | tools/compile_live_shards.py:1559-1605 | The loop, with its early exits and counters, computes the batch function the laws below are about. |
| ShardRuns.BatchAccounts | tools/compile_live_shards.py:1559-1605 | ok + skipped + pending = candidates, attempts never exceed the cap, pending is an in-order subsequence, and everything not pending is satisfied. |
| ShardRuns.BatchKeepsSatisfied | tools/compile_live_shards.py:1573-1582 | Nothing a batch does makes recorded work unrecorded. |
| ShardHistory.PublishedEntries | tools/compile_live_shards.py:429-474 | The entries of a generation name exactly the roots its published libraries were compiled from, with no hits and the one kind `published`. |
| ShardHistory.MakeCandidate | tools/compile_live_shards.py:524-530 | The candidate's roots are exactly the observed and the published ones; hits count observations only, and published roots are marked. |
| ShardHistory.BuildKeepsRootsExactly | tools/compile_live_shards.py:1279-1391 | A build keeps a page's published roots unless it is a refusal of that page and the overwritten record alone knew some root, and only then. |
| ShardHistory.RunKeepsRootsExactly | tools/compile_live_shards.py:1559-1605 | A whole run that has the cache to itself keeps them exactly when it does not reach, refuse and so forget that page. |
| ShardHistory.SafeBeforehandExactly | tools/compile_live_shards.py:1573-1582 | Told before a run that has the cache to itself: whatever the compiler does and whatever the cap is, nothing is forgotten, exactly when the candidate passes the skip test or its roots are known elsewhere. |
| ShardHistory.HistoryGrowsExactly | tools/compile_live_shards.py:429-474 | Over any history of runs, one after the other, and vanishing library files the roots never shrink exactly when no run takes the forgetting branch. |
| ShardHistory.RecoverableNeverForgets | tools/compile_live_shards.py:1573-1582 | No such run takes it when every missing library of the page is one the compiler does not refuse. |
| ShardHistory.LostLibraryLosesRoots | tools/compile_live_shards.py:1573-1582 | Counterexample: a deleted library and a refused rebuild lose published roots. |
| ShardHistory.BatchGrows | tools/compile_live_shards.py:1559-1605 | With the cache to itself, whatever candidates a batch is given and whatever libraries are missing, a page whose missing libraries are not refused loses no published root. |
| ShardHistory.BatchAddsOnly | tools/compile_live_shards.py:1559-1605 | To a page a batch adds only roots of that page's candidates. |
| ShardHistory.CoverageOnlyGrows | tools/compile_live_shards.py:524-530 | Across any runs, one after the other, and any vanished libraries in between, unless a run forgot the page, it is compiled from at least every root set ever published for the same bytes. |
| ShardHistory.CandidatesAreStable | tools/compile_live_shards.py:915-933 | After a run that forgot none of its pages, the same observations name exactly the same work keys. |
| ShardHistory.RerunSkipsRecorded | tools/compile_live_shards.py:1573-1582 | A rerun over the same inputs skips every page the first run neither forgot nor left pending. |
| ShardHistory.BatchDrains | tools/compile_live_shards.py:1559-1605 | With successful builds, none of which brings back another record's missing library, a batch works off exactly the cap of the backlog and leaves the rest pending. |
| ShardHistory.BatchDrainsAtLeast | tools/compile_live_shards.py:1559-1605 | With successful builds of any libraries it works off at least that much. |
| ShardHistory.BacklogEmptiesAtLatest | tools/compile_live_shards.py:1559-1605 | With n candidates and no failures, whatever libraries the builds write, the backlog is empty after ceil(n / cap) runs at the latest. |
| ShardHistory.BacklogEmptiesOnTime | tools/compile_live_shards.py:1559-1605 | If moreover no build brings back another record's missing library, it is empty after k runs exactly when k >= ceil(n / cap). |
| Json.ValueExtends | tools/coverage_stream.py:86-106 | Prefix stability: a decode that ends strictly inside the buffer, and not at a number, is the decode of the whole text. |
| Json.NumberExtends | tools/coverage_stream.py:86-106 | A number followed by a character that cannot continue it keeps its extent under any continuation. |
| JsonPrefixes.ValueShrinks | tools/coverage_stream.py:86-106 | The converse: a value of the whole text, of any kind, that ends before the edge of a prefix is already found in that prefix. |
| CoverageStream.FirstCutsFractions | tools/coverage_stream.py:86-106 | Arriving one character at a time, a number with a fraction or exponent is never accepted whole. |
| CoverageStream.AcceptedIsFinal | tools/coverage_stream.py:86-106 | A decode the accept test lets through is the decode of the whole text, unless the text holds a fraction or exponent there. |
| CoverageStream.FractionIsCutShort | tools/coverage_stream.py:86-106 | Every fractional number, cut one character into its tail, is accepted as its integer part. |
| CoverageStream.AcceptTestIsExact | tools/coverage_stream.py:86-106 | Every accepted prefix decodes to the whole text's value if and only if that value is not a fraction or exponent number. |
| CoverageStream.Window.Pull | tools/coverage_stream.py:41-62 | Unread buffer plus rest of file stays the unconsumed text, for every chunk size and short read. |
| CoverageStream.Window.SkipSpaces | tools/coverage_stream.py:67-72 | Consumes exactly the white space in front of the unconsumed text. |
| CoverageStream.Window.Take | tools/coverage_stream.py:80-84 | Consumes the expected character of the whole remaining text, or fails and consumes no more than white space. |
| CoverageStream.Window.Next | tools/coverage_stream.py:86-106 | Succeeds exactly when a decode of the whole remaining text does, and gives that decode, or a number cut short with the cursor left on its fraction or exponent mark; one character at a time it is always cut short. |
| ManifestWalk.StreamItems | tools/coverage_stream.py:123-156 | If the array loop ends, it delivered exactly the elements of the whole remaining text; otherwise all but perhaps the last are right. |
| ManifestWalk.StreamObject | tools/coverage_stream.py:123-156 | If the recursive member loop ends, it delivered exactly the reference walk; it fails only where the walk fails or a fraction was cut short. |
| ManifestWalk.ObjectAgrees | tools/coverage_stream.py:123-156 | The reference walk that never builds the document yields the flattening of the parsed document. |
| ManifestWalk.StreamManifest | tools/coverage_stream.py:112-156 | For every document, chunk size and short-read pattern: a finished stream is the flattening of a document that parses to an object; documents without directly handed-out fractions or exponents always finish, and no others do when they arrive one character at a time; before a spurious error only the last value can be wrong. |
| CaptureCodec.WriteCapture | tools/net_capture_tool.py:160-177 | Produces the packed file of header and records. |
| CaptureCodec.ReadCapture | tools/net_capture_tool.py:106-158 | The single pass computes the front-to-back parse, with its error cases. |
| CaptureCodec.RoundTrip | tools/net_capture_tool.py:106-177 | What was written reads back as the same capture if and only if the capture is well formed. |
| CaptureCodec.PrefixIsAcceptedOnBoundaries | tools/net_capture_tool.py:106-158 | A prefix of a written file is accepted exactly when it ends on a record boundary, and is then that prefix of the records. |
| CaptureCodec.RecordPrefix | tools/net_capture_tool.py:130-158 | The same for the record area alone. |
| UdpChecksum.Checksum | tools/net_capture_tool.py:249-267 | The word loop and the terminating fold compute the sender's checksum for every length, odd ones and fragments shorter than a header included. |
| UdpChecksum.FoldResidue | tools/net_capture_tool.py:264-265 | Folding keeps the residue modulo 65535 and reaches zero only from zero. |
| UdpChecksum.ChecksumVerifies | tools/net_capture_tool.py:249-267 | Among all non-zero values exactly the computed one makes the receiver's ones-complement sum 0xFFFF. |
| Sanitizer.SanitizeState.LearnIdentity | tools/net_capture_tool.py:209-213 | The first learned address stays. |
| Sanitizer.SanitizeState.MapMac | tools/net_capture_tool.py:221-229 | Memoised answers agree with the pure mapping. |
| Sanitizer.SanitizeState.MapHostname | tools/net_capture_tool.py:231-238 | Memoised answers agree with the pure mapping. |
| Sanitizer.SanitizeState.RewriteOptions | tools/net_capture_tool.py:346-376 | The walk over the frame being edited replaces exactly the fields the untouched frame shows, and reports a change exactly when a byte changed. |
| Sanitizer.SanitizeState.SanitizeFrame | tools/net_capture_tool.py:270-387 | The in-place rewriter computes the all-at-once replacement of every recognised field followed by the checksum repair. |
| Sanitizer.PatchElsewhere | tools/net_capture_tool.py:287-300 | Bytes no field covers are untouched by any list of replacements. |
| Sanitizer.PatchField | tools/net_capture_tool.py:287-300 | Every field ends up holding its own replacement. |
| SanitizedFrames.OnlyFieldsChange | tools/net_capture_tool.py:270-387 | No byte outside the recognised fields and the UDP checksum changes, and the length stays. |
| SanitizedFrames.FieldsAreReplaced | tools/net_capture_tool.py:270-387 | Every recognised field holds its replacement in the output. |
| SanitizedFrames.LayoutSurvives | tools/net_capture_tool.py:346-376 | The sequence of option codes and lengths, and where the fields are, is the same before and after. |
| SanitizedFrames.DecodeSummary | tools/net_capture_tool.py:390-425 | The decoder's loop computes the summary function, out-of-range reads included. |
| SanitizedFrames.DecodeOptions | tools/net_capture_tool.py:410-421 | The option loop remembers the last message type that the recursive walk would report. |
| SanitizedFrames.SummarySurvives | tools/net_capture_tool.py:390-425 | `decode_dhcp_summary` gives the same answer before and after, for every frame. |
| SanitizedFrames.RewrittenChecksumVerifies | tools/net_capture_tool.py:378-385 | Whenever the payload changed under a checksum in use, the stored value is not zero and the receiver accepts it. |
| SanitizedFrames.SanitizeCapture | tools/net_capture_tool.py:445-467 | Every frame of a capture is sanitized with the identity learned up to and including it. |
| SanitizedFrames.IdentityIsLearnedOnce | tools/net_capture_tool.py:280-285 | The identity is the source of the first sent frame of at least 14 bytes, for the rest of the capture. |
| SanitizedFrames.ConsoleAddressIsReplaced | tools/net_capture_tool.py:280-302 | From that frame on every address field equal to the console's becomes one fixed synthetic address and every other address field is untouched. |
| SanitizedFrames.ConsoleAddressIsGone | tools/net_capture_tool.py:280-302 | If the synthetic address differs, no recognised address field of the output names the console. |
| RootHits.Decode | tools/ingest_coverage_manifests.py:82-116 | The byte and bit loops, skipping zero bytes, name the roots of the bitmap in order. |
| RootHits.NamedExactly | tools/ingest_coverage_manifests.py:82-116 | A root is named exactly when its bit is set. |
| RootHits.Spread | tools/ingest_coverage_manifests.py:118-129 | The loop with its dictionary of remainders computes each root's share of its block. |
| RootHits.SpreadConservesHits | tools/ingest_coverage_manifests.py:118-129 | The shares of an occupied block add up to its counter and differ by at most one. |
| RootHits.RemainderGoesFirst | tools/ingest_coverage_manifests.py:121-129 | Within a block the roots that come first in the sorted order receive the remainder. |
| RootHits.CountBlocks | tools/ingest_coverage_manifests.py:118-129 | The counter has exactly the occupied blocks as keys. |
| RootHits.RootAddresses | tools/ingest_coverage_manifests.py:82-129 | Every named address once, in ascending order when counters are spread and in bitmap order otherwise, and all shares together the counters of the occupied blocks. |
| HotSpans.AddHits | tools/ingest_coverage_manifests.py:283-285 | Folding a record into the hit map gives each root exactly its own shares more, and nothing else changes. |
| HotSpans.CutRuns | tools/ingest_coverage_manifests.py:721-757 | The cutting loop yields the maximal runs of a mode's addresses. |
| HotSpans.SpansKeepHits | tools/ingest_coverage_manifests.py:721-757 | The spans' entries add up to the hits of the addresses. |
| HotSpans.SpansAreSeparated | tools/ingest_coverage_manifests.py:721-757 | The spans of a mode are disjoint, ordered and not joinable. |
| HotSpans.SpansCover | tools/ingest_coverage_manifests.py:721-757 | Every address lies in a span. |
| HotSpans.SpansAreContiguous | tools/ingest_coverage_manifests.py:721-757 | Inside a span no two consecutive addresses are more than one instruction apart. |
| HotSpans.ModesAddUp | tools/ingest_coverage_manifests.py:721-757 | The two modes partition the hits of the map. |
| HotSpans.HotRanges | tools/ingest_coverage_manifests.py:721-757 | The spans of both modes, ranked by entries, start and mode, carry exactly the map's total, and no two start at the same root. |
| HotSpans.ChosenIsBest | tools/ingest_coverage_manifests.py:677-718 | No choice of at most `limit` qualifying spans carries more hits than the promoted ones. |
| HotSpans.SelectSeeds | tools/ingest_coverage_manifests.py:677-718 | With promotion each root is seeded with exactly the entries of the chosen spans that start there, without it nothing is; the statistics count spans and entries. |
| HotSpans.ChosenSeedIsItsSpan | tools/ingest_coverage_manifests.py:702-709 | Among the chosen spans of a ranked list every start is seeded with exactly its own span's entries. |
| CoverageTotals.AddRecords | tools/ingest_coverage_manifests.py:280-285 | The record loop: each CPU's map has exactly the roots its records name, each with the sum of its shares, and all of them together the counters of the occupied blocks; a record of an unknown CPU that names a root ends it. |
| CoverageTotals.FoldCallers | tools/ingest_coverage_manifests.py:377-381 | Folding callers in gives each address exactly its caller hits more. |
| CoverageTotals.RemoveOwned | tools/ingest_coverage_manifests.py:388-399 | Exactly the owned addresses go, they are counted, and their hits and the remaining ones are all. |
| CoverageTotals.Report | tools/ingest_coverage_manifests.py:280-404 | The whole chain over both CPUs: the spans of each carry the counters of its records' occupied blocks plus its callers' hits minus what the owned addresses had, and no seed is an owned address. |
| CoverageTotals.AllHotRanges | tools/ingest_coverage_manifests.py:721-757 | Every CPU gets the ranked spans of its own map. |
| CoverageTotals.SelectAll | tools/ingest_coverage_manifests.py:677-718 | Every CPU's seeds and statistics are those of its own spans. |
| CoverageTotals.EveryRootIsAccountedFor | tools/ingest_coverage_manifests.py:280-404 | Every observed root or caller is owned already or lies in a span of its CPU and mode. |
| CoverageTotals.SeedsAreThePromotedSpans | tools/ingest_coverage_manifests.py:677-718 | One seed per promoted span, at its start, with its entries, and no other seed. |
| AssembleRuns.CountVersions | tools/ingest_coverage_manifests.py:569-571 | The counter holds the number of captured versions of every address. |
| AssembleRuns.SortPages | tools/ingest_coverage_manifests.py:573-580 | A permutation of the pages in address and digest order. |
| AssembleRuns.GatherEntries | tools/ingest_coverage_manifests.py:586-604 | Merging page by page leaves every entry point once, with all its hits and kinds. |
| AssembleRuns.Attribute | tools/ingest_coverage_manifests.py:586-617 | A run keeps exactly the entry points that lie in its image, ordered, and falls back on the session's only where its pages have none. |
| AssembleRuns.Assemble | tools/ingest_coverage_manifests.py:582-617 | The two nested loops yield the maximal joinable runs of the sorted pages, each with its entries. |
| AssembleRuns.AssembleAll | tools/ingest_coverage_manifests.py:551-618 | Every CPU with unresolved pages once, in ascending order, each from its own pages, versions and session. |
| AssembleRuns.RunsPartition | tools/ingest_coverage_manifests.py:551-618 | Every unresolved page version lands in exactly one run. |
| AssembleRuns.RunsAreSound | tools/ingest_coverage_manifests.py:551-618 | A run's image holds each page's bytes at that page's address, and every multi-page run uses only addresses with one captured version. |
| AssembleRuns.RunsAreMaximal | tools/ingest_coverage_manifests.py:551-618 | No two neighbouring runs could legally be joined. |
| AudioTrace.Ring.Push | oracle/shim/nds_oracle.cpp:372-382 | The ring refines the unbounded history: pushing appends to it, and every retained ordinal stays readable. |
| AudioTrace.Ring.Drain | oracle/shim/nds_oracle.cpp:384-393 | Draining in blocks moves all pending output to the history, in order. |
| AudioTrace.Ring.Copy | oracle/shim/nds_oracle.cpp:395-410 | The exact slice of the unbounded history for every retained start, nothing otherwise, and no other buffer element written. |
| AudioTrace.Ring.Request | oracle/shim/nds_oracle.cpp:651-679 | The reply is refused exactly below the oldest ordinal and otherwise carries the encoded slice, cut to 4096 frames and to what exists. |
| AudioTrace.PcmAt | oracle/shim/nds_oracle.cpp:664-674 | Decoding the little-endian bytes of a reply gives back every signed sample. |
| AudioTrace.SlotsDiffer | oracle/shim/nds_oracle.cpp:376-379 | Samples less than one ring apart never share a slot. |
| AudioCompare.PairedMachines.CompareChunk | oracle/firmware_traversal.py:106-147 | One chunk: the first differing frame, channel and values, or cursor, hash and counter advanced by exactly the chunk. |
| AudioCompare.PairedMachines.Compare | oracle/firmware_traversal.py:81-161 | The chunked loop computes the whole-stream comparison, with every failure case and what it leaves behind. |
| AudioCompare.PairedMachines.Perform | oracle/firmware_traversal.py:70-161 | Any schedule of outputs, comparisons and resets on the real rings is that run of the two unbounded streams. |
| AudioCompare.DifferingSample | oracle/firmware_traversal.py:117-132 | The first differing byte of two replies points at the first differing sample and its values. |
| AudioCompare.RunKeepsSound | oracle/firmware_traversal.py:81-161 | Over every run the streams agree below the cursor and the hash was fed exactly that prefix, once. |
| AudioCompare.PassedExactly | oracle/firmware_traversal.py:81-161 | A comparison passes exactly when all of the oracle's output is a prefix of native's, still retained, and at most 1024 frames behind. |
| AudioCompare.EvidenceIsComplete | oracle/firmware_traversal.py:163-169 | Whatever the schedule was, a passing final comparison leaves the hash fed with the oracle's whole stream. |
| WfcDns.ReadName | tools/wfc_dns.py:17-46 | Terminates on every packet (unseen pointers, then bytes left) and computes the recursive reading, with all five faults. |
| WfcDns.SelfSeen | tools/wfc_dns.py:27-37 | A name that can be read can be read through a pointer to it: barring its own position changes nothing. |
| WfcDns.EncodedNameReads | tools/wfc_dns.py:17-46 | Reading an encoded label sequence gives back its labels and ends behind it. |
| WfcDns.QuestionIsKept | tools/wfc_dns.py:49-74 | Every reply to a name that lies inside the question repeats that name, compressed or not; the converse is RefusalKeepsNameExactly. |
| WfcDns.AnswerNamesTheQuestion | tools/wfc_dns.py:72-74 | The answer's 0xC00C name decodes to the queried name. |
| WfcDns.UncompressedReply | tools/wfc_dns.py:49-74 | For every uncompressed question both names in the reply decode to the queried one, and a match ends in the answer record. |
| WfcDns.RefusalKeepsNameExactly | tools/wfc_dns.py:66-68 | For a name that takes no header byte the refusal changes: it keeps the name exactly when question and header hold all the bytes it reads. |
| WfcDns.RepliesKeepNameExactly | tools/wfc_dns.py:49-74 | For a name that takes no header byte any reply changes: every reply to the packet keeps it, exactly under the same condition. |
| WfcDns.HeaderNamesGoEitherWay | tools/wfc_dns.py:66-68 | Beyond that limit the positions read do not decide: of two names that read the same rewritten header bytes one is lost and one kept. |
| WfcDns.CompressedQuestionBreaks | tools/wfc_dns.py:49-74 | Counterexample that is even answered: a question name pointing behind the question can no longer be read. |
| WfcDns.MatchesExactly | tools/wfc_dns.py:61-65 | For any two strings, the empty suffix and dots inside labels included: the test accepts exactly the names whose labels end with the suffix's labels, letter case and closing dots aside. |
| WfcDns.HostsMatchExactly | tools/wfc_dns.py:61-65 | So a host name is answered exactly when it is the zone itself or lies below it. |
| RomAlias.RomImages.BuildIndex | tools/rom_alias.py:76-85 | The dictionary holds, for every probe, the covered places with those bytes, in order. |
| RomAlias.RomImages.Find | tools/rom_alias.py:87-96 | The lazily built index answers as the specification, built or not. |
| RomAlias.LocateFinds | tools/rom_alias.py:87-96 | For every page of at least 256 bytes: the first word-aligned match among places leaving more than 256 bytes. |
| RomAlias.LocateIsExact | tools/rom_alias.py:87-96 | The index agrees with the linear scan on every set of images if and only if the page is longer than 256 bytes. |
| RomAlias.ShortPageIsNowhere | tools/rom_alias.py:87-96 | A page shorter than the probe is never found. |
| RomAlias.RomImages.Resolve | tools/rom_alias.py:99-120 | The accumulating loop computes the classification the next lemmas are about. |
| RomAlias.ResolvedExactly | tools/rom_alias.py:99-120 | An address is reported under a base exactly when a page captured there resolves to that base. |
| RomAlias.AliasIsVerbatim | tools/rom_alias.py:99-120 | A reported address shows module bytes at the reported base. |
| RomAlias.UnresolvedExactly | tools/rom_alias.py:99-120 | Unresolved pages are exactly those found nowhere, each as often as captured. |

## Left out

- Dispatch tables, `lookup_in`, the event trace and fingerprint rings, the bus, `runtime_tick` and the
  environment-gated aborts of `runtime_arm.cpp`; the headers it forwards to are not part of this model.
- The nesting counters and trace records of `runtime_swi` and `runtime_irq`, and the handler each one
  dispatches: a handler is code in the run.
- ArmRuns.InterruptsAreTransparent: handlers must restore the registers they share and return, as the
  real ones do; a handler that leaves results in memory is outside, since memory is not modelled.
- ArmRuntime.Cpu.Perform: code that decides from the User R13 or R14 read in a reserved mode encoding; the
  value is the User bank's saved slot, which is no register of the machine.
- IndexProtocol.IndexNeverLosesCaptures: lock timeouts and stale-lock ages.
- ShardHistory.CoverageOnlyGrows: runs one after the other; interleaved processes are in `SharedCache`.
- SharedCache.SharedCoverageOnlyGrows: histories in which a page was forgotten; by `SharedGrowthExactly` these
  are the ones in which its published roots shrink at some step. The batch cap and the order of candidates are
  left to `ShardHistory`: here a process may begin any key its own view does not satisfy. Index records edited
  by hand to claim roots that their key does not name are not modelled.
- Which manifests a run reads, the persisted queue, hit thresholds and candidate priorities of
  `collect_candidates`: the order of candidates is an input to a run.
- Compilers, subprocesses, snapshots, provider and codegen fingerprints of `compile_live_shards.py`.
- ManifestWalk.StreamManifest: Python's recursion limit and the text of error messages are not modelled.
- CaptureCodec.RoundTrip: replaced characters of non-ASCII text are numbers, not Unicode text.
- Sanitizer.SanitizeState.SanitizeFrame: `--force` runs over sanitized captures are not claimed to be
  idempotent, because hostname substitutes are hashed again.
- Everything `ingest_coverage_manifests.py` prints or writes.
- AssembleRuns.Assemble: pages of one size, as each manifest is checked to have; hexadecimal digests are
  ordered as numbers.
- CoverageTotals.Report: roots of schema 2 and 3 manifests, which come one by one, and which caller notes
  are taken; the callers and the owned rows are given.
- WfcDns.MatchesExactly: letter case of ASCII only.
- WfcDns.RepliesKeepNameExactly: names that read header bytes which a reply rewrites.
- AudioTrace.Ring.Copy: a null buffer, and ordinals beyond 64 bits.
- AudioCompare.PairedMachines.Compare: both machines stand still during one comparison, as the traversal
  keeps them; the hash is the bytes it was fed, and the messages are the values they print.
- RomAlias.RomImages.Find: loading images from disk and declared bases; modules are named by position.
- The sockets, screenshots, bisection scripts and scenario drivers around all of these.
