# DartPlant verification model

A Dafny model of the parts of DartPlant whose correctness rests on state, order and arithmetic, with proofs of
what they keep. `dafny verify dfyconfig.toml` checks all of it; nothing here runs DartPlant.

| module | models |
|---|---|
| `Machine`, `BitLaws`, `PackedWord` | fixed-width integers, bit operations and their laws, checked arithmetic, state-and-count words |
| `ElfSymbols`, `ElfSysvHash`, `ElfGnuHash`, `ElfExample` | the symbol lookups over an untrusted virtual-address reader; an example image |
| `ElfLoad`, `ElfDynamic` | load-segment validation, address translation, the three readers, the dynamic section (System V gABI, chapter 5) |
| `ManagedPatches`, `PatchSteps`, `HookRegistry` | managed code patches and the normalization of code bytes, what installs and unhooks do to them, the registry |
| `HookDrain`, `UnhookLiveness`, `HookOutcomes` | the concurrent drain protocol of gated hooks, which unhooks finish, and what calls end in |
| `AbiEvidence`, `AbiLayout` | the evidence solver and the calling-convention allocator |
| `EntryTargets` | entry targets, code payloads and their registry |
| `RootPool`, `RootRace`, `PinRace` | root slots, leases and handles of the Flutter VM adapter; the race for the slots; concurrent pins |
| `CapabilityProofs`, `ThreadTransition` | capability proofs and thread transitions of that adapter |
| `LoaderAdmission`, `DobbyTickets` | the loader callback admission word and the Dobby ticket map |

Code that changes objects in place is modelled by classes and loops proved against functions or predicates; the
laws are then lemmas about those. Concurrent protocols are state machines whose steps are single atomic operations
or critical sections; sequentially consistent, and proved over every sequence of steps. Foreign calls (the VM's
safepoint stubs, the hook backends, the process's modules, the garbage collector) are arbitrary answers or functions.

Where the code does less than its documentation says, the model follows the code:

* The project README (`README.md:109-111`) says third-party code changes stay visible in fingerprints. `PeelExact` gives
  the exact condition for every byte: a foreign value is hidden iff it equals what some patch wrote there, or a
  record left by an install that failed before its bytes were captured takes it. The patched bytes of such a record
  (`src/core/hook_registry.cpp:1372-1386`) are still zeros, and normalization takes them for a patch:
  `UncapturedOutlivesPatch` ends with pristine memory and a normalized byte that is neither live nor pristine, and
  `RecoveryShowsBackend` with a backend's byte taken for code. `ShownAsBase` says exactly when a byte comes back as
  base; with every record captured it always does (`CapturedIsBase`).
* An entrant beyond the depth limit or without thread storage, and a refused or failed set-up, keep their gate pin for
  ever (`src/interceptor/callback_dispatch.cpp:947-1011`), by design. An unhook asked for after that never finishes,
  with everybody outside and the mutex free: `LostUnhook`. `CanUninstallExactly` gives the condition; without lost
  pins no unhook is lost (`NoUnhookLost`).
* The drain keeps the backend in place under every tracked activation, but a gate that bypasses to the backup after an
  install needed recovery (`src/host/publication_gate.cpp:116-127`) lets activations run there untracked:
  `UntrackedOutlivesBackend`, with the exact condition in `InBackupAfterUninstall`. After every other install answer
  nobody is left in the backup (`NobodyLeftInBackup`).
* `EnterGeneratedToNative` and `LeaveNativeToGenerated` undo four words on failure but not the safepoint word, which
  their stubs have changed (`RefusedAtSafepoint`, `RefusedOutsideSafepoint`; their contracts say exactly which refusals
  leave it alone). A thread in native code can come back iff its capability is verified and its exit marker is the one for
  native code (`ComesBack` one way, `Perform` the other, over every sequence of calls and resets). Entering twice, or a
  reset while it is in native code, strands it for good (`EnteredTwiceIsStranded`, `ResetInNativeStrands`).
* A revalidation between the two parts of a repeated retirement leaves admission open on an invalid binding
  (`RevalidationOvertakesRetirement`). `LeftOpen` gives all such steps and `OpenOnInvalidExactly` all such runs.
* A refused entry-target request may still make the provisional payload it names exact
  (`RefusedRequestMakesExact`, reached from an empty registry by `RefusedAfterAll`).
* `AcquireRoot` can report that no slot is free although one was at every moment, but only with more needs than slots
  (`RefusedForNothing`, `EnoughSlots`). Two concurrent pins can refuse each other although there are slots enough for
  either (`BothRefused`, `FullPinsStarve`); `NoPinRefused` says when no pin is refused.
* Hooks are told apart by their entries only (`src/core/hook_registry.cpp:498-504`), so two backends may write the same
  bytes. Unhooked oldest first they then leave the first one's bytes in place; `OverlapRestored` gives the condition.

## Model

| member | source | states |
|---|---|---|
| `Machine.CheckedAdd` | `src/elf/dynamic_view.cpp:20-24` | the sum exists exactly when it fits in 64 bits |
| `Machine.CheckedMul` | `src/elf/dynamic_view.cpp:26-30` | the product exists exactly when it fits in 64 bits, although the code only divides |
| `Machine.CheckedMulAdd` | `src/elf/dynamic_view.cpp:32-35` | `base + index * stride` exists exactly when it fits in 64 bits |
| `Machine.AndAbsorbsOr` | `src/elf/dynamic_view.cpp:261-263` | a word that holds each of two masks holds their union; the arithmetic fact behind the Bloom test |
| `BitLaws.AndBits` | `src/elf/dynamic_view.cpp:66-68` | bit k of `x & y` is set iff it is in both |
| `BitLaws.OrBits` | `src/elf/dynamic_view.cpp:261-262` | bit k of `x | y` iff it is in one of them |
| `BitLaws.XorBits` | `src/elf/dynamic_view.cpp:66-66` | bit k of `x ^ y` iff it is in exactly one |
| `BitLaws.ShiftRightDivides` | `src/elf/dynamic_view.cpp:261-262` | a shift to the right divides by the power of two |
| `BitLaws.LowMask` | `src/elf/dynamic_view.cpp:253-255` | a mask of k ones is the remainder modulo 2^k |
| `BitLaws.PowerOfTwo` | `src/elf/dynamic_view.cpp:228-233` | `x & (x - 1)` is zero for powers of two only |
| `BitLaws.MaskHeld` | `src/elf/dynamic_view.cpp:261-263` | a word passes the filter's mask test iff it has both bits |
| `BitLaws.Le64Reads` | `src/elf/dynamic_view.cpp:56-59` | the eight bytes of a word read back as the word, high half included |
| `ElfSymbols.ReadSymbolName` | `src/elf/dynamic_view.cpp:78-98` | the loop returns the name in the string table, up to its terminator, or fails where a byte is unreadable or none terminates it |
| `ElfSymbols.NameAtSpells` | `src/elf/dynamic_view.cpp:78-98` | that name is the bytes before the first zero, and nothing else |
| `ElfSymbols.NameMeans` | `src/elf/dynamic_view.cpp:78-98` | a record's name is what the string table spells from its offset on, terminator included |
| `ElfSymbols.RecordReads` | `src/elf/dynamic_view.cpp:100-112` | record i stands 24 * i bytes into the table, and the fields written there are read back |
| `ElfSymbols.MatchSymbol` | `src/elf/dynamic_view.cpp:100-132` | malformed, not found or found, as the record at that index says |
| `ElfSymbols.VerdictMeaning` | `src/elf/dynamic_view.cpp:100-145` | the verdict of a set of records in words: found iff some record carries the name and all that do are one defined symbol; not found iff none carries it |
| `ElfSymbols.ScannedVerdict` | `src/elf/dynamic_view.cpp:134-145` | remembering the first match and refusing a different one computes that verdict |
| `ElfSymbols.RejectedVerdict` | `src/elf/dynamic_view.cpp:139-145` | a refused record makes the verdict malformed whatever else the set holds |
| `ElfSysvHash.ComputeSysvHash` | `src/elf/dynamic_view.cpp:61-70` | the byte loop computes the System V hash in 32 bits |
| `ElfSysvHash.StepFolds` | `src/elf/dynamic_view.cpp:64-68` | one byte's step: of the 32 bits of 16 * hash + byte the top four are folded into bits 4 to 7 of the rest |
| `ElfExample.LongHash` | `src/elf/dynamic_view.cpp:61-70` | the hash of `snprintf`, by number |
| `ElfSysvHash.OpensExactly` | `src/elf/dynamic_view.cpp:147-177` | which headers, tables and buckets the lookup goes on with, and where the chain words start |
| `ElfSysvHash.LayoutLink` | `src/elf/dynamic_view.cpp:187-206` | the link of record i is chain word i |
| `ElfSysvHash.FindSysvSymbol` | `src/elf/dynamic_view.cpp:147-214` | on every input the walk ends and gives the verdict over the bucket's chain when that chain ends in range, and malformed otherwise |
| `ElfSysvHash.ChainDistinct` | `src/elf/dynamic_view.cpp:178-212` | a chain that ends never visits an index twice |
| `ElfSysvHash.ChainShort` | `src/elf/dynamic_view.cpp:178-212` | an in-range chain is shorter than the table, so the visit bound never refuses one (pigeonhole) |
| `ElfSysvHash.ChainUnique` | `src/elf/dynamic_view.cpp:178-212` | there is at most one chain from a bucket |
| `ElfSysvHash.NoChainFrom` | `src/elf/dynamic_view.cpp:178-212` | an index out of range, or a walk as long as the table, means that no chain ends, so the bound refuses nothing else |
| `ElfSysvHash.BrokenLink` | `src/elf/dynamic_view.cpp:187-206` | an unreadable link, or one to itself, means that no chain ends |
| `ElfSysvHash.LayoutOpens` | `src/elf/dynamic_view.cpp:147-177` | the header of a laid-out table opens at the bucket of every hash |
| `ElfSysvHash.SysvIsLinearScan` | `src/elf/dynamic_view.cpp:147-214` | on a well-formed table the lookup equals the linear scan over all of dynsym |
| `ElfGnuHash.ComputeGnuHash` | `src/elf/dynamic_view.cpp:72-76` | the byte loop computes the GNU hash in 32 bits |
| `ElfGnuHash.GnuHashIs` | `src/elf/dynamic_view.cpp:72-76` | the hash in closed form: 5381 * 33^n plus the bytes times powers of 33, modulo 2^32 |
| `ElfGnuHash.OpensExactly` | `src/elf/dynamic_view.cpp:216-250` | which headers and tables the lookup goes on with, and where filter and buckets start |
| `ElfGnuHash.BloomIndexIs` | `src/elf/dynamic_view.cpp:253-255` | the filter word is bits 6 and up of the hash modulo the number of words |
| `ElfGnuHash.MaskBits` | `src/elf/dynamic_view.cpp:261-262` | the mask has the bits named by the low six bits of the hash and of the shifted hash |
| `ElfGnuHash.FirstLook` | `src/elf/dynamic_view.cpp:252-275` | what filter word and bucket decide, for every reader |
| `ElfGnuHash.ChainReads` | `src/elf/dynamic_view.cpp:276-290` | where the chain word of a record is, and when it can be read |
| `ElfGnuHash.ChainWord` | `src/elf/dynamic_view.cpp:291-300` | end bit and hash of a chain word, by parity and half |
| `ElfGnuHash.FindGnuSymbol` | `src/elf/dynamic_view.cpp:216-312` | on every input: malformed, Bloom miss, empty bucket or the verdict over the run |
| `ElfGnuHash.ScanRun` | `src/elf/dynamic_view.cpp:276-311` | the chain loop gives the verdict over the run's hash-agreeing records when an end bit is met, malformed otherwise |
| `ElfGnuHash.RunEnds` | `src/elf/dynamic_view.cpp:276-311` | on a well-formed table every non-empty bucket's run ends |
| `ElfGnuHash.BloomAdmitsPresent` | `src/elf/dynamic_view.cpp:252-263` | the Bloom filter never rejects a name the table holds |
| `ElfGnuHash.GnuIsLinearScan` | `src/elf/dynamic_view.cpp:216-312` | on a well-formed table the lookup equals the linear scan of the hashed records |
| `ElfGnuHash.FindElfDynamicSymbol` | `src/elf/dynamic_view.cpp:629-635` | which index answers |
| `ElfGnuHash.IndexesAgree` | `src/elf/dynamic_view.cpp:629-635` | two well-formed indexes over one symbol table answer alike for every name no unhashed record carries |
| `ElfExample.SysvExample` | `src/elf/dynamic_view.cpp:147-214` | an image with one symbol whose System V table, of three buckets, is well formed |
| `ElfExample.GnuExample` | `src/elf/dynamic_view.cpp:216-312` | its GNU table, of two buckets and two Bloom words with a shift, is, too |
| `ElfExample.BothFind` | `src/elf/dynamic_view.cpp:629-635` | and both lookups find the symbol |
| `ElfLoad.HeaderMeans` | `src/elf/dynamic_view.cpp:388-388` | which headers are loaded and readable, by type and flag bit |
| `ElfLoad.AlignmentMeans` | `src/elf/dynamic_view.cpp:37-40` | which alignments are valid: powers of two modulo which address and offset agree |
| `ElfLoad.ValidateElfLoadLayout` | `src/elf/dynamic_view.cpp:316-335` | accepts exactly the layouts whose load segments are sound, ordered and apart |
| `ElfLoad.ValidateElfLoadFileBounds` | `src/elf/dynamic_view.cpp:337-346` | accepts exactly when every file range lies in the file |
| `ElfLoad.ElfVaToFileOffset` | `src/elf/dynamic_view.cpp:353-370` | returns the offset exactly when all holders of the range agree on one |
| `ElfLoad.ResolvesIffHeld` | `src/elf/dynamic_view.cpp:353-370` | in a valid layout a range resolves iff one segment's file range holds it; it is never ambiguous |
| `ElfLoad.TranslationExact` | `src/elf/dynamic_view.cpp:353-370` | the translated range lies in the file and byte k translates to offset + k |
| `ElfLoad.LoadedReadableBytes` | `src/elf/dynamic_view.cpp:386-395` | the remaining bytes of the first readable segment that holds the address |
| `ElfLoad.FileBackedReadableBytes` | `src/elf/dynamic_view.cpp:410-428` | the consistent remainder over all holders, or nothing |
| `ElfLoad.FileReadableBytes` | `src/elf/dynamic_view.cpp:444-454` | the remaining file bytes of the first holder |
| `ElfLoad.FileReadFits` | `src/elf/dynamic_view.cpp:444-465` | a non-empty file read succeeds iff it fits what the reader calls readable |
| `ElfLoad.RangesMean` | `src/elf/dynamic_view.cpp:320-379` | which bytes and ranges a segment holds in the file and in memory, counted from its first address |
| `ElfLoad.LoadedReadFits` | `src/elf/dynamic_view.cpp:397-408` | a read of the loaded image succeeds exactly when it fits, does not wrap and meets mapped memory; it gives that memory |
| `ElfLoad.FileBackedReadFits` | `src/elf/dynamic_view.cpp:410-442` | the same for the mapped image, where the read must also not wrap |
| `ElfLoad.ReadersAgree` | `src/elf/dynamic_view.cpp:386-465` | over an image mapped from the file all three readers return the file's bytes on readable segments |
| `ElfLoad.FileBackedIsFile` | `src/elf/dynamic_view.cpp:430-465` | whatever the file-backed reader returns is what the file reader returns |
| `ElfLoad.BothBack` | `src/elf/dynamic_view.cpp:410-465` | so a table inside a readable segment backs the lookups alike through both readers |
| `ElfDynamic.ReadElfDynamicView` | `src/elf/dynamic_view.cpp:535-627` | returns a view iff the entries before the first DT_NULL declare one: readable, one value per tag, usable anchors |
| `ElfDynamic.Conflicting` | `src/elf/dynamic_view.cpp:49-54` | two values for one tag leave no view |
| `ElfDynamic.EntryReads` | `src/elf/dynamic_view.cpp:548-556` | an entry is sixteen bytes, tag and value |
| `ElfDynamic.DescribesByTags` | `src/elf/dynamic_view.cpp:535-627` | the view by the gABI's tag numbers: which entries give it, and exactly when there is one |
| `ElfDynamic.SevenDescribe` | `src/elf/dynamic_view.cpp:535-627` | a section of seven entries that describes one |
| `ElfDynamic.DescribesHere` | `src/elf/dynamic_view.cpp:535-627` | the declarations collected up to DT_NULL are the only ones |
| `ManagedPatches.OverlayOriginalBytes` | `src/core/hook_registry.cpp:389-412` | in place: each covered byte that still holds the patched value becomes the original, every other byte stays |
| `ManagedPatches.HonestPeel` | `src/core/hook_registry.cpp:424-435` | peeling all records, newest first, gives the base byte iff some record rewrites the value, as long as no uncaptured record diverts it |
| `ManagedPatches.DivertedPeel` | `src/core/hook_registry.cpp:424-435` | if one diverts, the peel gives what that record puts there |
| `ManagedPatches.ZeroLeft` | `src/core/hook_registry.cpp:424-435` | when records leave a zero byte, in terms of what each of them takes and puts |
| `ManagedPatches.DivertsOnWalk` | `src/core/hook_registry.cpp:424-435` | so when an uncaptured record diverts can be read off the records, without walking through them |
| `ManagedPatches.PeelExact` | `src/core/hook_registry.cpp:414-477` | for every byte value at every managed address: another byte than base if an uncaptured record puts one there; else the base byte if some patch takes the value for its own, and the value unchanged otherwise |
| `ManagedPatches.ShownAsBase` | `src/core/hook_registry.cpp:414-477` | a byte comes back as base iff it is base or masked and no uncaptured record is in the way |
| `ManagedPatches.NormalizedIsBase` | `src/core/hook_registry.cpp:414-477` | in every sound state the normalized memory is the base image, although later snapshots contain earlier patches, exactly where no uncaptured record diverts it and no backend holds bytes nobody captured |
| `ManagedPatches.CapturedIsBase` | `src/core/hook_registry.cpp:414-477` | so it is the base image everywhere once every live record is captured |
| `PatchSteps.RecordSays` | `src/core/hook_registry.cpp:338-386` | what the record of an install says, captured or failed, field by field and byte by byte |
| `PatchSteps.Snapshot` | `src/core/hook_registry.cpp:338-387` | the whole entry range is copied |
| `PatchSteps.InstallSound` | `src/core/hook_registry.cpp:1284-1428` | an install keeps the state sound, captured or failed after publication, whatever earlier patches and third-party bytes its snapshots caught |
| `PatchSteps.InstallOverlaid` | `src/core/hook_registry.cpp:1284-1428` | and third-party bytes still differ from the managed image only where some patch is involved |
| `PatchSteps.ClaimedSiteSound` | `src/interceptor/arm64_bridge.cpp:902-1042` | claimed return sites hold branch and original, and count their consumers |
| `PatchSteps.BackendRestoredSound` | `src/core/hook_registry.cpp:534-581` | restoring a backend's bytes in any order keeps the state sound |
| `PatchSteps.SitesReleasedSound` | `src/interceptor/arm64_bridge.cpp:1045-1119` | releasing return sites keeps the state sound; only the last consumer restores the instruction |
| `PatchSteps.SharedSiteKept` | `src/interceptor/arm64_bridge.cpp:1056-1104` | a site two hooks consume has at least two consumers, so one release leaves it in place |
| `PatchSteps.RelabelSound` | `src/core/hook_registry.cpp:583-638` | a record changes state freely while live and becomes unhooked only owning nothing |
| `PatchSteps.TakenOverSound` | `src/core/hook_registry.cpp:414-477` | third-party bytes that no patch is involved with any more join the base image, and the state stays sound |
| `PatchSteps.InstallUndone` | `src/core/hook_registry.cpp:534-581` | backend bytes put back and return sites released, an install leaves neither a byte nor a site behind |
| `PatchSteps.OverlapRestored` | `src/core/hook_registry.cpp:893-962` | two backends over one another: put back newest first they always restore memory, oldest first iff the first changed no byte they share |
| `PatchSteps.AllUnhookedRestored` | `src/core/hook_registry.cpp:534-608` | once every hook is unhooked memory is the base image and no return site is left |
| `HookRegistry.OverlayHooks` | `src/core/hook_registry.cpp:424-435` | the reverse loop over records is the newest-first peel |
| `HookRegistry.OverlayPayload` | `src/core/hook_registry.cpp:451-474` | overlaying a payload's return sites in any order peels each byte once |
| `HookRegistry.OverlayPayloads` | `src/core/hook_registry.cpp:437-475` | the payloads of live hooks are peeled once each |
| `HookRegistry.NormalizeManagedCodeBytesLocked` | `src/core/hook_registry.cpp:414-477` | the whole routine, with its range guards, is hook peel then site peel on every byte |
| `HookRegistry.FindHookLocked` | `src/core/hook_registry.cpp:498-504` | finds a live hook at the target iff there is one |
| `HookRegistry.Registry.InstallHook` | `src/core/hook_registry.cpp:893-962` | refused installs change nothing; one that succeeds, or fails after publication, leaves exactly the described record, sites and bytes, and a consistent registry when it overlaps nobody's patch |
| `HookRegistry.Registry.BeginUnhook` | `src/core/hook_registry.cpp:610-638` | which states are refused, which left alone and which become unhooking |
| `HookRegistry.Registry.FinishUnhook` | `src/core/hook_registry.cpp:534-608` | backend first, then return sites; what each failure leaves behind |
| `HookRegistry.Registry.RestoreReturnInterception` | `src/interceptor/arm64_bridge.cpp:1045-1119` | given up only while all are intact; all back, none back, or some back with their sites still recorded when the roll-back fails too |
| `HookRegistry.IntactIfClean` | `src/interceptor/arm64_bridge.cpp:1056-1071` | return sites are intact iff no third-party code stands on them |
| `HookRegistry.Registry.FinishRestoring` | `src/core/hook_registry.cpp:534-608` | with a backend and a code writer that succeed an unhook finishes iff no third-party code stands on the hook's return sites |
| `HookRegistry.Registry.InstallAndUnhook` | `src/core/hook_registry.cpp:534-608` | an install and its undisturbed unhook leave code, sites and other records as they were |
| `HookRegistry.SitesAnswered` | `src/interceptor/arm64_bridge.cpp:1045-1119` | what return sites that cannot be given up cost |
| `HookRegistry.PartlyShowsBase` | `src/interceptor/arm64_bridge.cpp:1073-1092` | what a failed roll-back leaves: the original code at the stuck instructions |
| `HookRegistry.Registry.Retire` | `src/core/hook_registry.cpp:754-774` | every record but an unhooked one is kept as retired |
| `HookRegistry.Registry.ForeignWrite` | `src/core/hook_registry.cpp:414-477` | a third-party write to any byte, patched or not, keeps the registry consistent; at a free byte it joins the pristine code |
| `HookRegistry.Registry.Normalized` | `src/core/hook_registry.cpp:708-719` | the routine on the registry's own memory |
| `HookRegistry.Registry.ShownAt` | `src/core/hook_registry.cpp:708-719` | after any sequence of installs, failed installs, unhooks, retirements and third-party writes: which byte comes back as base, which as it stands, and that it is the pristine code where nothing foreign stands over a patch and every record is captured |
| `HookRegistry.InstallConsistent` | `src/core/hook_registry.cpp:1284-1428` | an install over third-party bytes keeps the registry consistent and neither hides nor brings any |
| `HookRegistry.InstallKeepsPristine` | `src/core/hook_registry.cpp:354-387` | installing moves the base image away from the pristine code at most where the backend writes outside its record |
| `HookRegistry.RestoreKeepsPristine` | `src/core/hook_registry.cpp:534-581` | and restoring a backend nowhere else |
| `HookRegistry.UncapturedOutlivesPatch` | `src/core/hook_registry.cpp:1372-1386` | a run of the registry: a neighbour fails after publication over a patched byte, the patch is unhooked, memory is pristine, and normalization shows the patch |
| `HookRegistry.RecoveryShowsBackend` | `src/host/publication_gate.cpp:116-127` | another: the byte of a backend that could not roll back is shown as it stands |
| `PackedWord.AddOne` | `src/host/publication_gate.cpp:287-324` | adding an entrant never carries into or out of the halves |
| `PackedWord.SubOne` | `src/host/publication_gate.cpp:270-280` | releasing an entrant never borrows from the state |
| `PackedWord.WithState` | `src/host/publication_gate.cpp:23-33` | storing a state keeps the entrants |
| `PackedWord.PackedExactly` | `src/host/publication_gate.cpp:14-16` | a control word is determined by its halves |
| `PackedWord.MoveOnWord` | `src/host/publication_gate.cpp:14-33` | each change of one half is one machine operation on the word |
| `HookDrain.StepOnWord` | `src/host/publication_gate.cpp:225-324` | every step of the protocol does at most one such operation on the control word |
| `HookDrain.StepInv` | `src/core/hook_registry.cpp:534-638` | every atomic step of every party keeps the drain invariant: pins and `in_flight` count exactly their holders, the gate is closed only inside the close-to-bypass window |
| `HookDrain.RunInv` | `src/core/hook_registry.cpp:534-638` | so does every interleaving |
| `HookDrain.Positive` | `src/core/internal.h:117-125` | a held pin or count is visible in the word or in `in_flight` |
| `HookDrain.UninstallsWhenIdle` | `src/core/hook_registry.cpp:534-569` | the step that uninstalls the backend finds the gate closed, no entrant and nothing in flight |
| `HookDrain.UninstalledForGood` | `src/host/publication_gate.cpp:225-251` | the uninstall succeeds at most once, and afterwards no activation becomes bound for the backup |
| `HookDrain.NobodyNew` | `src/interceptor/arm64_bridge.S:51-119` | no single step does so once the backend is gone |
| `HookDrain.BypassesExactly` | `src/interceptor/arm64_bridge.S:51-119` | an activation comes to run the backup untracked exactly by entering a gate that bypasses to the backup |
| `HookDrain.BypassedOnlyAfterRecovery` | `src/host/publication_gate.cpp:116-127` | the gate is in that state only after an install answered that it needs recovery, with a backup handed out |
| `HookDrain.NobodyLeftInBackup` | `src/core/internal.h:93-126` | in every interleaving of every other install nobody is in the backup, or bound for it, once the backend is gone |
| `HookDrain.OnlyUntrackedLeft` | `src/core/hook_registry.cpp:534-569` | without a backend whoever is in the backup came that way |
| `HookDrain.DrainGivesUp` | `src/core/hook_registry.cpp:546-551` | a holder that gives up an unhooking record before the close leaves somebody counted in it, unless a pin is lost |
| `HookDrain.FinishGivesUp` | `src/core/hook_registry.cpp:552-559` | one that gives up at the close or after it leaves somebody counted or pinned |
| `UnhookLiveness.UnhookUninstalls` | `src/core/hook_registry.cpp:534-638` | an undisturbed unhook uninstalls iff nothing is in flight and no pin is held or lost, untracked activations notwithstanding |
| `UnhookLiveness.InBackupAfterUninstall` | `src/host/publication_gate.cpp:116-127` | after it somebody is in the backup iff some activation was untracked |
| `UnhookLiveness.UntrackedOutlivesBackend` | `src/host/publication_gate.cpp:116-127` | a concrete run: install needing recovery, one entry, unhook; the backend goes under the activation |
| `UnhookLiveness.NoUnhookLost` | `src/core/hook_registry.cpp:1114-1131` | in every reachable state with no pin lost, an unhooking record that nobody is at has an activation that holds a pin, is counted or is committed to finish it |
| `UnhookLiveness.StuckForGood` | `src/interceptor/callback_dispatch.cpp:947-966` | a lost pin, or retirement, keeps the backend in place in every continuation |
| `UnhookLiveness.LostUnhook` | `src/interceptor/callback_dispatch.cpp:960-966` | a concrete run: one entry beyond the depth limit, then an unhook that no continuation ever finishes although everybody is outside |
| `UnhookLiveness.CanUninstallExactly` | `src/interceptor/callback_dispatch.cpp:947-1011` | from a reachable state with the backend in place some continuation uninstalls it iff no pin is lost and the record is not retired |
| `HookOutcomes.InstallOutcome` | `src/host/publication_gate.cpp:87-223` | the gate and the record after each answer to an install, by the gate's numbers |
| `HookOutcomes.EnterByGate` | `src/interceptor/arm64_bridge.S:51-119` | what an entry does, by the gate's number |
| `HookOutcomes.BeginByRecord` | `src/core/hook_registry.cpp:1043-1112` | a pinned activation is counted, but behind a retired record it keeps its pin for ever |
| `HookOutcomes.PassThrough` | `src/core/hook_registry.cpp:1043-1131` | an ordinary pass gives back pin and count; the last one out of an unhooking record commits to finish it |
| `HookOutcomes.PinsLost` | `src/interceptor/callback_dispatch.cpp:947-1011` | which activations lose their pins |
| `HookOutcomes.UnhookCompletes` | `src/core/hook_registry.cpp:534-638` | an undisturbed unhook of an idle hook: backend gone, record unhooked, gate bypassing to the target |
| `HookOutcomes.UnhookPostponed` | `src/core/hook_registry.cpp:534-638` | of a hook somebody is in: draining, and left to be finished |
| `HookOutcomes.UninstallRefused` | `src/host/publication_gate.cpp:240-244` | a backend that refuses: draining again, record failed, backend in place |
| `HookOutcomes.UninstallDone` | `src/host/publication_gate.cpp:246-248` | one that agrees, with return instructions that can or cannot be restored |
| `HookOutcomes.UnhookRefused` | `src/core/hook_registry.cpp:610-638` | an unhook of an unhooked, unhooking or retired record changes nothing |
| `HookOutcomes.FinisherCompletes` | `src/core/hook_registry.cpp:1123-1130` | the last activation out of an unhooking record completes the unhook, undisturbed |
| `HookOutcomes.FinisherLeaves` | `src/core/hook_registry.cpp:1118-1130` | and just leaves when the record is no longer unhooking or somebody is counted again |
| `HookOutcomes.FailedOnlyUnpublished` | `src/host/publication_gate.cpp:116-150` | in every interleaving the gate has failed only after an install that published nothing |
| `HookOutcomes.BypassedForGood` | `src/host/publication_gate.cpp:246-248` | in every interleaving the gate bypasses to the target from the step after the uninstall on |
| `HookOutcomes.EntersTarget` | `src/interceptor/arm64_bridge.S:59-60` | and entries stay outside |
| `HookOutcomes.TargetOnlyAfter` | `src/host/publication_gate.cpp:128-150` | it does so only then, or after an install that failed with something published |
| `RootPool.Pool.AcquireRoot` | `adapters/flutter_vm/flutter_vm.cpp:1589-1600` | takes the first free slot, or none iff all are used |
| `RootPool.Pool.ReleaseRoot` | `adapters/flutter_vm/flutter_vm.cpp:1602-1606` | the slot is free and null again |
| `RootPool.Pool.PinGeneratedRoots` | `adapters/flutter_vm/flutter_vm.cpp:1767-1804` | succeeds iff a lease and enough slots are free; otherwise the pool is as it was, also after running out midway |
| `RootPool.Pool.FillLease` | `adapters/flutter_vm/flutter_vm.cpp:1788-1800` | the filling loop and its roll-back |
| `RootPool.Pool.GeneratedRootGet` | `adapters/flutter_vm/flutter_vm.cpp:1806-1815` | reads the slot of that index of a live lease |
| `RootPool.Pool.GeneratedRootSet` | `adapters/flutter_vm/flutter_vm.cpp:1817-1826` | changes this root of this lease, and no other lease's value or strong handle's root |
| `RootPool.Pool.UnpinGeneratedRoots` | `adapters/flutter_vm/flutter_vm.cpp:1828-1843` | returns per index the last value and frees exactly the lease's slots |
| `RootPool.Pool.DropLease` | `adapters/flutter_vm/flutter_vm.cpp:1836-1841` | the loop behind it |
| `RootPool.Pool.RetainObject` | `adapters/flutter_vm/flutter_vm.cpp:1639-1669` | strong handles keep their slot, weak ones and failures give it back |
| `RootPool.Pool.ReleaseObject` | `adapters/flutter_vm/flutter_vm.cpp:1671-1683` | a strong handle's slot is freed, nothing else |
| `RootPool.Pool.Relocate` | `adapters/flutter_vm/flutter_vm.cpp:1585-1587` | a collection changes used slots only |
| `RootPool.OwnersApart` | `adapters/flutter_vm/flutter_vm.cpp:1589-1606` | no slot has two owners |
| `RootPool.Conservation` | `adapters/flutter_vm/flutter_vm.cpp:1639-1843` | used slots number exactly the slots of live leases plus one per strong handle; used and free make up the pool |
| `RootRace.RunInv` | `adapters/flutter_vm/flutter_vm.cpp:1589-1606` | under every interleaving of racing compare-and-swaps and two-step releases: one owner per used slot, null in free ones, and what the owner stored |
| `RootRace.Undisturbed` | `adapters/flutter_vm/flutter_vm.cpp:1589-1606` | a slot keeps its owner's value whatever the others do |
| `RootRace.Conserved` | `adapters/flutter_vm/flutter_vm.cpp:1589-1606` | as many slots are used as tasks own one |
| `RootRace.EnoughSlots` | `adapters/flutter_vm/flutter_vm.cpp:1589-1600` | while no more tasks are active than there are slots, no interleaving refuses any, and with k active ones only the first k slots are used |
| `RootRace.StepSpread` | `adapters/flutter_vm/flutter_vm.cpp:1591-1598` | the reason: at most k - i active tasks stand at slot i or beyond |
| `RootRace.FreeSlotFound` | `adapters/flutter_vm/flutter_vm.cpp:1589-1600` | a scan never passes a slot that stays free |
| `RootRace.RefusedForNothing` | `adapters/flutter_vm/flutter_vm.cpp:1589-1600` | with one task more a scan can be refused although some slot was free at every moment |
| `PinRace.StepProjects` | `adapters/flutter_vm/flutter_vm.cpp:1767-1843` | every access of a pin or unpin is a run of the race for leases and of the race for slots |
| `PinRace.RunInv` | `adapters/flutter_vm/flutter_vm.cpp:1767-1843` | in every interleaving each call holds exactly the lease, slots and values its progress says, and nobody else does |
| `PinRace.PinnedHolds` | `adapters/flutter_vm/flutter_vm.cpp:1797-1843` | a pinned root holds its value until it is given back |
| `PinRace.PinnedUndisturbed` | `adapters/flutter_vm/flutter_vm.cpp:1767-1843` | whatever other calls do |
| `PinRace.NothingKept` | `adapters/flutter_vm/flutter_vm.cpp:1788-1796` | a refused call owns no lease and no slot |
| `PinRace.AllGivenBack` | `adapters/flutter_vm/flutter_vm.cpp:1786-1843` | once no call is under way every lease and slot is free and every slot null |
| `PinRace.NoPinRefused` | `adapters/flutter_vm/flutter_vm.cpp:1778-1800` | no interleaving refuses a call while no more calls are under way than leases and no more values than slots |
| `PinRace.NoLeaseLeft` | `adapters/flutter_vm/flutter_vm.cpp:1778-1786` | with every lease taken a new pin is told that the pool is busy, and nothing changes hands |
| `PinRace.BothRefused` | `adapters/flutter_vm/flutter_vm.cpp:1788-1796` | two pins that between them hold every slot are both refused, although each alone would be served |
| `PinRace.FullPinsStarve` | `adapters/flutter_vm/flutter_vm.cpp:1767-1804` | so can two full pins of 96 roots over 128 slots |
| `CapabilityProofs.Adapter.MarkCapabilityVerified` | `adapters/flutter_vm/flutter_vm.cpp:595-610` | masks and every named record, stamped with the current generation |
| `CapabilityProofs.Adapter.MarkCapabilityFailed` | `adapters/flutter_vm/flutter_vm.cpp:612-628` | the same for failure |
| `CapabilityProofs.Adapter.MarkCapabilityAmbiguous` | `adapters/flutter_vm/flutter_vm.cpp:630-637` | failure, then a second pass over the records |
| `CapabilityProofs.Adapter.ResetCapabilityProof` | `adapters/flutter_vm/flutter_vm.cpp:639-652` | masks cleared and records back to unverified or unavailable |
| `CapabilityProofs.Adapter.HasVerifiedCapability` | `adapters/flutter_vm/flutter_vm.cpp:548-568` | true iff every named bit is verified with a record of this generation and identity |
| `CapabilityProofs.Adapter.InvalidateArtifactBinding` | `adapters/flutter_vm/flutter_vm.cpp:1498-1502` | invalid, proofs reset, next generation |
| `CapabilityProofs.Adapter.RevalidateArtifacts` | `adapters/flutter_vm/flutter_vm.cpp:2746-2789` | each branch of the call, in order, with its state and status |
| `CapabilityProofs.RunSound` | `adapters/flutter_vm/flutter_vm.cpp:595-652` | in every interleaving of critical sections no capability is both verified and failed |
| `CapabilityProofs.ProvenStep` | `adapters/flutter_vm/flutter_vm.cpp:548-652` | one section makes or keeps a proof exactly by marking it or not killing it |
| `CapabilityProofs.ProvenExactly` | `adapters/flutter_vm/flutter_vm.cpp:548-568` | a capability is reported verified iff some section marked it and no later one failed, reset or outdated it |
| `CapabilityProofs.MarkedInThisGeneration` | `adapters/flutter_vm/flutter_vm.cpp:548-568` | the mark was made in the generation it is reported in |
| `CapabilityProofs.FailedStep` | `adapters/flutter_vm/flutter_vm.cpp:612-652` | which sections put a capability into the failed mask, keep it there or take it out |
| `CapabilityProofs.QuiescingIsBusy` | `adapters/flutter_vm/flutter_vm.cpp:2759-2763` | while a valid binding drains a revalidation is busy and changes nothing, unless there is no candidate |
| `CapabilityProofs.StaysClosed` | `adapters/flutter_vm/flutter_vm.cpp:2710-2789` | in every interleaving closed admission on a draining binding stays closed until the binding is invalid |
| `CapabilityProofs.OnlyRevalidationReopens` | `adapters/flutter_vm/flutter_vm.cpp:2746-2789` | closed admission and an invalid binding come back only through a successful revalidation |
| `CapabilityProofs.RetiredOnce` | `adapters/flutter_vm/flutter_vm.cpp:2710-2744` | retirement moves on one generation, leaves no proof, and repeating it changes nothing |
| `CapabilityProofs.LeftOpen` | `adapters/flutter_vm/flutter_vm.cpp:2691-2789` | exactly which steps leave admission open on an invalid binding |
| `CapabilityProofs.OpenOnInvalidExactly` | `adapters/flutter_vm/flutter_vm.cpp:2691-2789` | in every interleaving admission ends up open on an invalid binding iff some step left it so and no later one closed it or revalidated |
| `CapabilityProofs.RevalidationOvertakesRetirement` | `adapters/flutter_vm/flutter_vm.cpp:2710-2789` | a concrete interleaving of a second retirement and a revalidation that does |
| `ThreadTransition.Thread.EnterGeneratedToNative` | `adapters/flutter_vm/flutter_vm.cpp:1845-1943` | succeeds iff ready, in generated state with no or a stale runtime-call marker, and the stub kept the native words; a refusal before the stub changes no word, one after it the safepoint word at most |
| `ThreadTransition.Thread.LeaveNativeToGenerated` | `adapters/flutter_vm/flutter_vm.cpp:1945-2013` | the same on the way back, also under interference; exactly what each refusal leaves |
| `ThreadTransition.Thread.EnterAndLeave` | `adapters/flutter_vm/flutter_vm.cpp:1845-2013` | a successful round trip ends in generated state with clear exit markers, whatever native code did; with the VM's stubs the safepoint word is back as well |
| `ThreadTransition.Perform` | `adapters/flutter_vm/flutter_vm.cpp:1845-2013` | after a failure every call up to the next reset is refused and changes nothing; a stranded thread (in native code, without a verified capability or without the exit marker) never comes back, whatever calls and resets follow |
| `ThreadTransition.ComesBack` | `adapters/flutter_vm/flutter_vm.cpp:1945-2013` | any other thread in native code does, by one call |
| `ThreadTransition.ResetInNativeStrands` | `adapters/flutter_vm/flutter_vm.cpp:1498-1502` | a reset while the thread is in native code is such a case |
| `ThreadTransition.EnteredTwiceIsStranded` | `adapters/flutter_vm/flutter_vm.cpp:1885-1898` | a second enter is refused and costs the capability, so nothing brings the thread back |
| `ThreadTransition.RefusedAtSafepoint` | `adapters/flutter_vm/flutter_vm.cpp:1924-1941` | the roll-back does not cover the safepoint word: a concrete case |
| `ThreadTransition.RefusedOutsideSafepoint` | `adapters/flutter_vm/flutter_vm.cpp:1991-2009` | nor does that of a leave: a concrete case |
| `ThreadTransition.BeginObservation` | `adapters/flutter_vm/flutter_vm.cpp:296-402` | which states are admitted, borrowed, left through the exit stub or aborted on |
| `ThreadTransition.EndObservation` | `adapters/flutter_vm/flutter_vm.cpp:404-430` | when ending aborts and what it restores |
| `ThreadTransition.Observe` | `adapters/flutter_vm/flutter_vm.cpp:296-430` | an observation that does not abort ends in the admissible state it began in; with the VM's stubs every word is back |
| `ThreadTransition.StubsRestore` | `adapters/flutter_vm/flutter_vm.cpp:385-428` | leaving and re-entering the safepoint is the identity |
| `EntryTargets.EntryTarget.MergeEvidence` | `src/core/method_model.h:156-179` | refuses only a different known size; the proof becomes unique or shared exactly by evidence |
| `EntryTargets.EntryTarget.MergeEvidenceAndUpgradePayload` | `src/core/method_model.h:232-258` | moves the target iff it still lies in the expected payload and is not hooked |
| `EntryTargets.EntryTarget.AddAlias` | `src/core/method_model.h:181-190` | adds a logical function at most once and makes the target shared iff there are two |
| `EntryTargets.EntryTarget.DistinctLogicalFunctionAliasCount` | `src/core/method_model.h:273-286` | the nested loop counts the set of logical identities, entry kinds ignored |
| `EntryTargets.EntryTarget.UnbindHookRecord` | `src/core/method_model.h:217-220` | only the bound hook unbinds |
| `EntryTargets.CombinedRises` | `src/core/method_model.h:170-177` | unknown, unique, shared: the level only rises |
| `EntryTargets.Normalize` | `src/core/method_model.h:326-345` | every accepted request has a payload that starts at or before the entry and ends where the code ends, in 64 bits |
| `EntryTargets.NormalizeExactly` | `src/core/method_model.h:326-345` | which requests are accepted, and with which owner and range |
| `EntryTargets.Registry.GetOrCreate` | `src/core/method_model.h:320-403` | accepts exactly the stated requests; targets keep fitting their payloads; exact or hooked targets never move; proofs and sharing only grow |
| `EntryTargets.Registry.AskedAgain` | `src/core/method_model.h:346-403` | a request that was served is served again by the same target |
| `EntryTargets.FirstRequest` | `src/core/method_model.h:320-403` | an empty registry serves every sensible request |
| `EntryTargets.Registry.Requests` | `src/core/method_model.h:164-179` | over any sequence of requests a target is proven unique, or shared, only if some request for it says so |
| `EntryTargets.Registry.MergeExisting` | `src/core/method_model.h:350-383` | the branches for a known target, and what a refusal may touch |
| `EntryTargets.Registry.FindOrCreatePayload` | `src/core/method_model.h:447-482` | one payload per owner and start, whose length never changes; refuses another length |
| `EntryTargets.Registry.EraseImage` | `src/core/method_model.h:411-420` | forgets exactly the image's targets and payloads |
| `EntryTargets.Registry.OnePayloadPerRange` | `src/core/method_model.h:447-482` | registered targets of one owner with equal payload starts share one object and one end |
| `EntryTargets.Registry.RefusedRequestMakesExact` | `src/core/method_model.h:364-371` | a refused request can make another target's provisional payload exact |
| `EntryTargets.RefusedAfterAll` | `src/core/method_model.h:320-403` | three requests to an empty registry that do so |
| `EntryTargets.EntryTarget.HasProvenUniqueIdentity` | `src/core/method_model.h:260-270` | a shared target is never proven unique |
| `AbiEvidence.ResolveSlotEvidence` | `src/abi/evidence_solver.cpp:11-36` | settles the facts: unknown without any, proven iff all are proven and equal, conflicting otherwise; the mask names every source |
| `AbiEvidence.SettlesOnce` | `src/abi/evidence_solver.cpp:11-36` | a set of facts settles one slot |
| `AbiEvidence.ResolveFunctionAbiEvidence` | `src/abi/evidence_solver.cpp:38-132` | settles every slot and convention fact of the set of providers |
| `AbiEvidence.OrderIrrelevant` | `src/abi/evidence_solver.cpp:38-132` | order and duplicates of providers never matter for conflict, full proof and slots, nor for any field without a conflict |
| `AbiEvidence.ConflictPermanent` | `src/abi/evidence_solver.cpp:38-132` | more providers never clear a conflict |
| `AbiEvidence.SlotConflictPermanent` | `src/abi/evidence_solver.cpp:11-36` | nor does more evidence on one slot |
| `AbiLayout.ComputeDartCallLayout` | `src/abi/calling_convention.cpp:71-169` | status and layout as the placement rule says, an empty layout on every refusal |
| `AbiLayout.AssignRegisters` | `src/abi/calling_convention.cpp:99-128` | the forward loop gives each formal below the limit the register of its rank while the file lasts |
| `AbiLayout.AssignStack` | `src/abi/calling_convention.cpp:130-142` | the backward loop gives the rest their entry-stack words |
| `AbiLayout.Arm64Distinct` | `src/abi/calling_convention.cpp:52-69` | the ARM64 profile is valid and its argument registers are distinct |
| `AbiLayout.Arm64Registers` | `src/abi/calling_convention.cpp:52-69` | which they are |
| `AbiLayout.StatusMeans` | `src/abi/calling_convention.cpp:71-95` | what each status means, in the order of the checks |
| `AbiLayout.RegisterRule` | `src/abi/calling_convention.cpp:97-128` | a formal is in a register iff the convention allows it and the formals before it have left one: the next of its file |
| `AbiLayout.StackSteps` | `src/abi/calling_convention.cpp:130-142` | the last stack formal is at offset 0, each earlier one a word above the next |
| `AbiLayout.ResultRegisters` | `src/abi/calling_convention.cpp:144-166` | where each kind of result comes |
| `AbiLayout.PlacementsDistinct` | `src/abi/calling_convention.cpp:97-142` | no two formals share a location |
| `AbiLayout.StackDescends` | `src/abi/calling_convention.cpp:130-142` | stack offsets strictly decrease in formal order |
| `AbiLayout.StackWordTaken` | `src/abi/calling_convention.cpp:130-142` | every stack word below the count is some formal's |
| `AbiLayout.StackWordInRange` | `src/abi/calling_convention.cpp:130-142` | and no formal is placed outside them |
| `AbiLayout.ArithmeticFitsIff` | `src/abi/calling_convention.cpp:36-41` | no signed 32-bit value overflows exactly under the stated bound |
| `AbiLayout.EvidenceDecidesStatus` | `src/abi/calling_convention.cpp:71-95` | with a valid profile the solver's result is laid out iff fully proven, supported and without optional parameters outside closure calls; conflict iff providers disagree |
| `AbiLayout.LayoutKeepsParameter` | `src/abi/calling_convention.cpp:97-142` | a layout repeats every parameter fact a provider proved |
| `AbiLayout.LayoutKeepsResult` | `src/abi/calling_convention.cpp:97-142` | and every result fact, with or without parameters |
| `LoaderAdmission.StepRefines` | `adapters/lsposed/lsposed_module.cpp:31-68` | every turn of every loop, with stale snapshots and spurious failures, is a move of the pair (state, number inside) |
| `LoaderAdmission.RunRefines` | `adapters/lsposed/lsposed_module.cpp:31-68` | in every interleaving the word refines that pair and the state only moves forward |
| `LoaderAdmission.FetchSubTakesOne` | `adapters/lsposed/lsposed_module.cpp:46-48` | the wrapping subtraction takes one entrant and borrows nothing |
| `LoaderAdmission.EntryExactly` | `adapters/lsposed/lsposed_module.cpp:31-44` | when a turn of the entry loop gets in and when it is refused |
| `LoaderAdmission.CloseExactly` | `adapters/lsposed/lsposed_module.cpp:50-60` | when a turn of the closing loop drains the word |
| `LoaderAdmission.UndisturbedCalls` | `adapters/lsposed/lsposed_module.cpp:31-60` | what undisturbed entries and closes do to the word, by the numbers of the states |
| `LoaderAdmission.UndisturbedExit` | `adapters/lsposed/lsposed_module.cpp:46-48` | leaving takes one entrant out |
| `LoaderAdmission.UndisturbedFinish` | `adapters/lsposed/lsposed_module.cpp:62-68` | finishing closes an empty draining word and nothing else |
| `LoaderAdmission.ClosedForGood` | `adapters/lsposed/lsposed_module.cpp:31-68` | once closed nobody is inside and nobody ever enters again |
| `LoaderAdmission.FinishExactly` | `adapters/lsposed/lsposed_module.cpp:62-68` | finishing succeeds iff admission is not active and nobody is inside; it is then closed |
| `DobbyTickets.Host.Reserve` | `adapters/dobby/dobby_host.cpp:26-75` | reserves the target for a fresh ticket only when nobody owns it and the backend prepared properly |
| `DobbyTickets.Host.Finish` | `adapters/dobby/dobby_host.cpp:76-112` | the final section: published, kept for recovery or erased, as the result says |
| `DobbyTickets.Host.Unhook` | `adapters/dobby/dobby_host.cpp:123-139` | never touches a preparing ticket; keeps what the backend could not release |
| `DobbyTickets.Host.NeverStolen` | `adapters/dobby/dobby_host.cpp:123-129` | between its sections an install's target is owned by its ticket, in preparation |
| `DobbyTickets.Host.NoTicketLost` | `adapters/dobby/dobby_host.cpp:82-112` | a reported success or recovery owns its ticket in the matching state until unhooked; other failures own nothing |

## Left out

- Program-header parsing, header lookups by flags and reading unmapped process memory: plain guards around the code that is modelled; the mapped image is a partial byte map.
- The memory-order annotations of the atomics: every atomic operation is one sequentially consistent step.
- The roll-back of an install whose patched bytes cannot be captured: its branch follows an internal invariant of buffer sizes.
- ARM64 stub generation, the return-graph search and the JumpToFrame bridge: represented by the bytes they write and the consumers they count.
- HookRegistry.Registry.InstallHook: for an install whose writes overlap a live captured patch the new state is given but not that it is consistent; PatchSteps.OverlapRestored covers two such backends. The order of snapshot, site claim and backend write inside one install, under one mutex, is one step.
- HookRegistry.Registry.Retire: the code of a retired image is not unmapped or mapped again, so a record that outlives its mapping is not followed.
- Bytes a backend writes outside the recorded entry range, such as those of raw hooks without a code size: nobody's managed bytes, they count as part of the base image.
- Non-gated hooks in the drain protocol: their unhook branch does not check `in_flight` again, so the drain theorems do not hold for them.
- HookDrain.StepInv: the two copies of the backend-installed flag are one flag; between their writes the gate lets nobody through.
- Hook listeners, their ordering and their ownership by VM adapters: a sorted insert and a stable erase would only add simple members.
- RootPool.Pool.AcquireRoot: one step here; its compare-and-swap loop under concurrency is RootRace, one task for each slot needed.
- RootPool.Pool.PinGeneratedRoots: one step here; concurrent pins and unpins, access by access, are PinRace. Lease fields are values of one array. Strong handles race for slots in RootRace only.
- CapabilityProofs.Adapter.InvalidateArtifactBinding: generations are unbounded; the 64-bit wrap is not modelled. Masks are sets of bits.
- ABI candidate selection, capability predicates and their domain keys: arbitrary answers.
- ThreadTransition.Perform: a reset is one step; the retirement and revalidation around it are those of CapabilityProofs.
- ThreadTransition.Thread.EnterGeneratedToNative: the profile's offsets are distinct words of one thread.
- AbiLayout.ComputeDartCallLayout: unbounded counts; AbiLayout.ArithmeticFitsIff gives the bound under which the 32-bit arithmetic is exact. More than 2^32 formals are not modelled.
- EntryTargets.Registry.GetOrCreate: every registered target has a payload; targets made outside the registry are not modelled. Alias counts are unbounded.
- Weak pointers: an expired one is a null entry, produced by an explicit expiry step.
- The runtime-evidence store, value codecs, logging, signal handling, symbol lookup by the dynamic loader and the public API: they would only add simple members.
