# OpenBoot A/B update engine: a verified model

OpenBoot is a bootloader for small RISC-V parts. It keeps two application slots; each slot ends in a
4 KiB reserve holding a 32-byte boot record. A host updates the slot that is not running with HELLO,
ERASE, WRITE and COMMIT, and a reset launches the slot with the newest valid record. The device must
come out of any update bootable although an erase or a program can fail or lose power half way, and
although some parts serve stale data through the memory-mapped view for blocks touched since reset.

The project models that engine, the flash under it, the host that drives it, and the tools around it.

## How it is put together

- `Bytes`, `Crc32`, `Geometry`: bytes and words, the CRC and what it detects, slot and block arithmetic
  under the build's own assertions. The geometry is symbolic, with 256-byte erase blocks and a die smaller
  than the build expects as instances.
- `Flash`: the physics. Programming clears bits, an erase sets the scrambled pattern. The fate of every
  operation is chosen by the environment: an erase lands whole or not at all, a write lands any prefix of
  whole words, any code may be reported (an erase that reports success has landed), and when the plan runs
  out power is gone. A dirty block reads as anything until reset unless the part is always coherent.
- `Record`, `Decision`, `Core`: boot records, the boot decision and the device engine as a transition system
  whose steps are functions.
- `Invariant`, `Preservation`, `WritePath`, `CommitPath`, `Frames`: one joint invariant over RAM and flash,
  and its preservation by every command with every flash failure.
- `Protocol`: the answer of every command, status and detail, and exactly when it is given.
- `Safety`, `Theorems`, `Lineage`, `BitmapHistory`, `Repetition`, `StaleBoot`: whole runs of frames, failures,
  power cuts and resets, and what they keep. `Idempotence` holds the supporting lemmas on repeated operations.
- `Limits`, `Stranding`, `BusyDie`: the concrete situations in which a promise stops.
- `NorFlash`, `Bitmap`, `BootCore`, `EngineRuns`: the same flash and engine in the form of the C code, with arrays and
  static fields updated in place, loops and unsigned 32-bit arithmetic. Every method is proved to take exactly
  the step of the transition system, and whole runs of it keep the promises.
- `HostProto`, `Link`, `Client`, `UpdateFlow`, `FlashPlan`, `FlashFlow`, `Bless`: the host's frame codec, an in-order
  lossy link to the device, the retry layer and the flash and bless flows, composed with the device. The link keeps
  a ghost record of what was sent, which frames the host took, and where the resets BOOT caused went (`BootLog`).
  `SteadyLink` is the link that delivers to a device on which nothing fails.
- `Completeness`, `Lifecycle`: that updates succeed when nothing fails, and a part's life from the factory on.
- `Sof`, `FlashDriver`, `Bundle`, `Hex`, `HexFile`, `Factory`, `Idle`: the two UART parsers, the SPI-NOR driver, release
  bundles, Intel HEX, the application companion with the factory composer, and the idle deadline.

`dafny verify dfyconfig.toml` checks everything.

## Hypotheses

- Flash starts truthful: a valid record carries the CRC of its slot's true bytes (`Theorems.AlwaysTruthful`).
  A blank part and a factory-programmed one are (`Limits.BlankStart`, `Lifecycle.FactoryStarts`).
- COMMIT does not look at the image's first word, but the boot decision refuses an image that begins with the
  erased pattern. One slot is bootable exactly when its image does not (`Theorems.ActiveBootableUnlessBlank`,
  `Theorems.BootAnswerExact`). Committing such an image does not strand a part that has another: a reset makes the
  other slot active again. What strands it is the next mutation before that reset, and
  `Theorems.FrameStrandsExactly` and `Stranding.AnsweredMutationLaunches` give the exact condition. The theorems
  over runs therefore suppose that nothing mutates while the active image is blank (`Theorems.SparesBlank`).
  `Stranding.FactoryStranded` shows a factory part lost that way, `Limits.BlankCommitStrands` a blank one.
- COMMIT checks the capacity of the write slot before it recognises a replay, so a replay is acknowledged only
  when the next write slot fits the silicon (`Theorems.CommitReplayExact`, `Limits.HalfDieRefusesReplay`).
- The die has finished before the next driver call. The driver does not ask: after a timeout it returns with the
  operation still running, and the die then ignores the next call's first command while its status poll reports
  the end of the earlier one. `FlashDriver.EraseDoneExactly` and `FlashDriver.WriteDoneExactly` say exactly
  when zero then means that the work was done, and `FlashDriver.EraseAfterTimeout` shows it failing. The flash
  model under the engine supposes a finished die: `FlashDriver.EraseIsOutcome` and `FlashDriver.WriteIsOutcome`
  prove that every driver call on one is an outcome it allows, and `BusyDie.BusyDieBreaksTruth` shows what the
  engine loses without it.
- COMMIT recognises a replay by length and CRC alone and HELLO keeps that memory, so a bless of the image just
  committed is acknowledged for the other slot without a record (`Bless.BlessStoresUnlessRepeated`,
  `Limits.SecondBlessIsEmpty`).
- The erase block is a multiple of 32 bytes (both supported sizes, 256 and 4096, are), so a record fits one.
- No request to stay is pending when a session starts: a reset consumes it before the bootloader runs
  (`BootCore.BootCore.PowerCycle`). Where the launch after a BOOT is promised over the link, that is a hypothesis.
- The link is in-order and idle when the flow starts, and corruption is detected by the frame CRC.
  `Frames.BurstNeverExecutes` proves detection for bursts of up to four bytes.

## Where code and documentation differ

- docs/PROTOCOL.md section 6.6 says BOOT is refused from the moment a record is invalidated until a COMMIT
  succeeds. The code asks the other slot instead (firmware/core/boot_core.c:369-372); the model follows the code
  and `Theorems.InterruptedUpdateBoots` states it.
- The comment at firmware/core/boot_core.c:369-371 says the slot asked has not been written this power cycle.
  After a COMMIT and a further update in the same power cycle it has been; the answer may then come from a stale
  view. `Theorems.BootAnswerExact` shows that OK is honest all the same, `Theorems.StaleViewRefuses` that a
  refusal need not be, and `StaleBoot.BootAnswersEveryView` when the view cannot matter.
- The comment in tools/src/flows.rs:407-408 says an interrupted update stays in the bootloader; with A/B slots
  the previous application boots.
- The base-16 conversion the HEX reader uses accepts a leading plus sign, so `:+1` style fields are read. The
  model keeps that (`Hex.FromHex`).

## Model

| member | source | states |
|---|---|---|
| `Theorems.AlwaysTruthful` | firmware/core/boot_core.c:202-345 | From flash with truthful records: after any frames, flash failures, power cuts and resets, every valid record's CRC is the CRC of its slot's true bytes, those bytes are the image a COMMIT attested, and no flash operation was misaligned, out of bounds or into an unerased block |
| `Theorems.NeverBricked` | firmware/core/boot_core.c:439-609 | A device with something to launch still has after any such run, provided no ERASE, WRITE or COMMIT arrives in a session whose active slot holds an image that begins with the erased pattern. Committing such an image is survived as long as a reset comes before the next mutation |
| `Theorems.ActiveStaysBootable` | firmware/core/boot_core.c:439-609 | And while no host commits such an image at all, the active slot itself stays bootable |
| `Theorems.FrameStrandsExactly` | firmware/core/boot_decision.c:130-152 | The exact condition for one frame: afterwards there is nothing to launch if and only if the active image was blank before it and the write slot cannot boot after it |
| `Stranding.AnsweredMutationLaunches` | firmware/core/boot_core.c:441-496 | After an ERASE or a WRITE answered OK there is something to launch if and only if the active image was not blank before it |
| `Stranding.TwoCommandsStrand` | firmware/core/boot_core.c:441-576 | Concrete failure: on any freshly reset part with something to launch and an erased slot on offer, a COMMIT of the four erased bytes is answered OK and the old application still launches; one ERASE then is answered OK and nothing can be launched |
| `Stranding.FactoryStranded` | firmware/compose_factory.py:101-146 | So a part straight from the factory can lose its last application to two commands |
| `Theorems.CrashOutcome` | firmware/core/boot_core.c:515-576 | Power lost anywhere inside one frame: the next boot picks the active slot with every byte as before, or the write slot under a record over exactly the image it was issued for; never nothing |
| `Lineage.RunOutcome` | firmware/core/boot_decision.c:130-152 | After any run of frames, failures, power cuts and resets in which nothing mutates while the active image is blank: the reset launches the slot that was active at the start with every byte as before, or a slot whose record a COMMIT of that run issued over exactly the image below it |
| `Theorems.FrameKeepsBootable` | firmware/core/boot_core.c:611-670 | One frame keeps the active slot bootable unless it commits a blank image |
| `Theorems.ActiveBootableUnlessBlank` | firmware/core/boot_decision.c:116-128 | In every reachable state the active slot is bootable exactly when its image does not begin with the erased pattern |
| `Theorems.RunningCrcIsTrue` | firmware/core/boot_core.c:220-255 | While the run is unbroken the running CRC is the CRC of the true bytes from the write base to the run's position, through failures, retries and re-erases |
| `Theorems.BootAnswerExact` | firmware/core/boot_core.c:363-373 | After BOOT mode 0 answers OK the boot decision launches an application, exactly unless the active image is blank and the other slot cannot boot; in all three record states, whatever a stale view serves |
| `Theorems.BootAnswerHonest` | firmware/core/boot_core.c:578-602 | With a bootable active slot, OK means launch |
| `Theorems.InterruptedUpdateBoots` | firmware/core/boot_core.c:354-372 | After a record was invalidated: BOOT is answered OK exactly when the active slot is bootable as the memory-mapped view serves it; OK means launch; a coherent view never refuses |
| `StaleBoot.BootAnswersEveryView` | firmware/core/boot_core.c:354-372 | Exactly when the answer does not depend on what is served: after an interrupted update, with a bootable active slot, BOOT is answered OK under every stale view if and only if the part reads coherently, or no block the check reads has been touched this power cycle: the record's, the image's first and, in a build that checks image CRCs, all of the image's |
| `Theorems.StaleViewRefuses` | firmware/core/boot_core.c:354-372 | And a stale view can refuse: with the active slot's record block touched this power cycle, a view serving zeros there is answered with no record although the reset would launch |
| `Theorems.IdleLaunchIsBootDecision` | firmware/core/main.c:79-120 | Until a session opens nothing has touched flash, so the idle launch selects what the boot decision would |
| `Protocol.OnlyHelloOpens` | firmware/core/boot_core.c:634-670 | Without a session every command but HELLO is answered with a state error, opcodes outside the protocol with a command error, neither with any effect; and the device resets after exactly one answer, BOOT's OK |
| `Protocol.NotARequest` | firmware/core/boot_core.c:611-633 | A buffer that cannot be delimited is met with silence, one with a wrong CRC with a frame-error report, one with nonzero flags with a refusal; nothing changes |
| `Protocol.HelloAnswers` | firmware/core/boot_core.c:396-439 | HELLO is accepted exactly on magic OBP1 and version 0.2, with a distinct refusal for length, magic and version that changes nothing |
| `Protocol.HelloForgets` | firmware/core/boot_core.c:186-197 | What an accepted HELLO leaves depends on flash and the power cycle's state alone: every earlier session is forgotten |
| `Protocol.EraseTable` | firmware/core/boot_core.c:441-464 | Which refusal ERASE answers, exactly and without effect; and once accepted, the report of the first erase to fail among the disarm and one erase per block, or OK when none does |
| `Protocol.WriteTable` | firmware/core/boot_core.c:466-482 | Which refusal WRITE answers, exactly and without effect; not-erased exactly when some byte of the range lies in a block not marked |
| `Protocol.WriteBodyReports` | firmware/core/boot_core.c:483-496 | An accepted WRITE answers the disarm's report, else the program's, else a mismatch exactly when the bytes do not read back, else OK |
| `Protocol.CrcTable` | firmware/core/boot_core.c:498-513 | CRC changes nothing and answers, on a coherent part, the CRC of the true bytes of exactly the word-aligned ranges of the region |
| `Protocol.CommitTable` | firmware/core/boot_core.c:515-576 | Which refusal COMMIT answers, exactly and without effect, over the true bytes of the write slot; everything else stores the record with the next generation |
| `Protocol.MismatchExactly` | firmware/core/boot_core.c:539-551 | A fitting claim that is no repetition is answered as a mismatch exactly when the device can vouch and the true bytes' CRC is another, and as not sequential exactly when it cannot vouch |
| `Protocol.StoreTable` | firmware/core/boot_decision.c:90-114 | The store answers OK exactly when erase and program succeed and the record reads back, with detail 1 for a failed operation and the comparison's otherwise |
| `Protocol.BootTable` | firmware/core/boot_core.c:354-373 | BOOT mode 0 changes nothing and answers OK exactly: after a COMMIT always; before any mutation when the true flash has a bootable slot; in between when the active slot is bootable as served. Mode 1 arms the request and nothing else |
| `Protocol.UntouchedBootExact` | firmware/core/boot_core.c:363-373 | Before any mutation BOOT answers OK exactly when the reset then launches |
| `Protocol.StayIsOneShot` | firmware/core/boot_core.c:603-609 | BOOT mode 1 keeps the device in the bootloader through the reset it causes, although there may be an application to launch, and the reset after that one launches again |
| `Theorems.CommitWins` | firmware/core/boot_core.c:553-576 | A stored record has a generation in 1..0xFFFFFFFE strictly above the other slot's valid record, and the selection picks the committed slot exactly when its image is not blank |
| `Theorems.CommitReplayExact` | firmware/core/boot_core.c:527-537 | Replaying a stored COMMIT changes nothing, and is acknowledged exactly when the next write slot also fits the silicon |
| `Limits.BlankCommitStrands` | firmware/core/boot_core.c:539-575 | Concrete failure: on a blank part a COMMIT of four erased bytes is accepted, BOOT answers OK, and the reset finds nothing to launch |
| `Limits.HalfDieRefusesReplay` | firmware/core/boot_core.c:527-537 | Concrete failure: on a die holding only slot A the repeated COMMIT is refused although its record is in place |
| `Limits.SecondBlessIsEmpty` | firmware/core/boot_core.c:527-537 | Concrete failure: HELLO and the same COMMIT once more after a commit are answered OK although the slot now offered holds no record and gets none |
| `Repetition.RepetitionChangesNothing` | firmware/core/boot_core.c:234-255 | ERASE, WRITE or COMMIT answered OK and executed again any number of times, with any flash failures, leaves content, erased blocks, RAM and session as the first execution left them |
| `BitmapHistory.BitmapIsHistory` | firmware/core/boot_core.c:190-197 | In every reachable state the bitmap equals the set of write-slot image blocks successfully erased since the session opened or the slots flipped |
| `BitmapHistory.WrittenBytesWereErased` | firmware/core/boot_core.c:466-491 | Every byte an accepted WRITE programs lies in a block erased since then, in the write slot's image area, outside the other slot and both record reserves |
| `FlashFlow.FlashDevice` | tools/src/flows.rs:401-499 | If the flow returns Flashed over an in-order link that may lose or corrupt any message: the device holds exactly the image at the write base, under a valid record newer than the other slot's, nothing outside that slot changed, and what was sent is HELLO, ERASEs and WRITEs, that image's COMMIT, the read-back if asked and supported, and the BOOT the options ask for, whose reset jumps to the image unless it is blank (on a device nobody had asked to stay), or stays, or none. Without force only HELLO is sent. No mismatch is ever reported. And when the link delivers and no operation fails, the result is exactly what source and device geometry decide, Flashed included |
| `FlashFlow.ExecuteFlash` | tools/src/flows.rs:401-470 | The forced part: no failure means installed, sent in that order and parted as asked; and on a steady link there is no failure |
| `FlashFlow.Choose` | tools/src/flows.rs:481-495 | HELLO alone is sent; the build and plan are for the slot the device names, and on a steady link exactly the device's own geometry decides |
| `FlashFlow.Boot` | tools/src/flows.rs:288-298 | BOOT is attempted once; OK means the device reset: into the bootloader for mode 1, to the installed image for mode 0 |
| `FlashPlan.InstalledBoots` | firmware/core/boot_decision.c:130-190 | Such an image is what the next boot selects and jumps to, at its slot's own address, exactly when it does not begin with the erased pattern |
| `Completeness.UpdateCompletes` | tools/src/flows.rs:401-437 | The converse of the flow's promise: while no operation fails, each command in a world of its own, HELLO, the chunked ERASEs, the chunk WRITEs and COMMIT are all answered OK and the image is installed, from every reachable state and for every image of whole words that fits the write slot |
| `Lifecycle.UpdatesComplete` | firmware/core/boot_core.c:306-337 | While no operation fails, each command of each update in a world of its own, any number of updates up to the generation ceiling all succeed, alternating slots: the newest image is active and outranks the other slot, which still holds the image before it whole |
| `Lifecycle.FactoryStarts` | firmware/core/boot_core.c:375-389 | A factory part's first power-up satisfies the joint invariant, with slot A active and bootable and slot B offered for writing: the hypotheses of the theorems above are met |
| `Lifecycle.FactoryNeverBricks` | firmware/compose_factory.py:101-146 | A factory part always has an application to launch, whatever frames, failures, power cuts and resets follow, unless one erases, writes or commits while the active image begins with the erased pattern |
| `Lifecycle.FirstUpdateBoots` | tools/src/flows.rs:481-499 | The first update of a factory part, nothing failing, makes the reset jump to slot B's address exactly when it is not blank, with the factory application still whole in slot A |
| `Bless.BlessDevice` | tools/src/flows.rs:616-637 | If bless returns Ok over the lossy link, nothing but a record reserve changed, and either the slot's bytes as they were have the image's CRC and now lie under the newest record, or the device repeated its answer to an earlier commit of that length and CRC and changed nothing. A reported mismatch is real. Only HELLO and one COMMIT are sent. On a steady link an image the device can judge is accepted exactly when the bytes' CRC is the image's, and otherwise reported as a mismatch |
| `Bless.BlessStoresUnlessRepeated` | firmware/core/boot_core.c:527-551 | An accepted bless stores a record exactly unless the device still remembers committing that length and CRC this power cycle; then it does nothing |
| `Invariant.InvPowerUp` | firmware/core/boot_core.c:375-389 | Reset on truthful flash establishes the joint invariant: truthful records, true run, bitmap, record state, roles and generations |
| `Frames.InvHandleFrame` | firmware/core/boot_core.c:611-670 | Any frame with any flash failures and any stale view keeps the invariant |
| `Preservation.InvMutationBegin` | firmware/core/boot_core.c:199-218 | Disarming before mutation: on success the write slot holds no record, on failure the old one or none; the run and roles are untouched |
| `Preservation.InvEraseLoop` | firmware/core/boot_core.c:456-461 | The block loop keeps the invariant and changes no byte outside its range, wherever it fails |
| `Preservation.InvErase` | firmware/core/boot_core.c:441-464 | ERASE keeps the invariant, changes only the write slot, and leaves its record as it was or gone |
| `WritePath.CoveredIsArmed` | firmware/core/boot_core.c:265-276 | Bytes the bitmap check admits lie only in blocks erased since reset |
| `WritePath.InvWriteChunk` | firmware/core/boot_core.c:485-494 | Program, verify and fold keep the invariant; on success the chunk reads back and only its range changed |
| `WritePath.InvWrite` | firmware/core/boot_core.c:466-496 | WRITE keeps the invariant and changes only the write slot |
| `CommitPath.AttestationTrue` | firmware/core/boot_core.c:278-297 | Whatever CRC COMMIT compares with the host's claim is the CRC of the true image bytes, on stale-view parts included |
| `CommitPath.RecordStoreEffect` | firmware/core/boot_decision.c:90-114 | After a store, wherever it stopped, the slot holds what it held, nothing, or exactly this record; success means this record |
| `CommitPath.InvCommitStores` | firmware/core/boot_core.c:539-575 | A COMMIT that reaches the store attests the true image and keeps the invariant; success makes the write slot active with exactly that record |
| `Safety.ExecuteEvolves` | firmware/core/boot_core.c:611-670 | Every command changes at most the write slot and leaves there the old content, no record, or a record issued for exactly the image below it |
| `Record.ParseEncode` | firmware/core/boot_decision.c:66-104 | A stored record reads back as itself |
| `Record.ParseCanonical` | firmware/core/boot_decision.c:66-88 | Only the exact encoding of a sound record is ever accepted |
| `Record.TornMeansIntended` | firmware/tests/core_host/ob_host.c:165-171 | A record torn at any whole word is accepted only as exactly the intended record, with only its last word missing; no assumption about CRC collisions |
| `Record.ErasedHoldsNoRecord` | firmware/core/boot_decision.c:66-72 | An erased record block holds no record |
| `Decision.SelectIsArgmax` | firmware/core/boot_decision.c:130-152 | The one-pass selection is the argmax of generation over bootable slots, ties to slot A, and reports the highest valid generation |
| `Decision.BootableCongruent` | firmware/core/boot_decision.c:162-169 | Whether a slot boots depends only on that slot's bytes |
| `Decision.LaunchAddress` | firmware/core/boot_decision.c:171-190 | Where a reset goes: nowhere on request or when no slot can boot; to the start of the region exactly when slot A is bootable and no bootable slot B is newer; one slot further exactly when slot B is and is newer |
| `Geometry.SlotLayout` | firmware/core/openboot_port.h:76-113 | Under the build's assertions slots, records and reserves are block-aligned, inside the region and inside 32 bits |
| `Geometry.CapacityMeaning` | firmware/core/boot_decision.c:36-46 | A slot has capacity exactly when the silicon holds it whole; slot B only if slot A |
| `Geometry.SlotsShareNoBlock` | firmware/core/openboot_port.h:103-113 | No erase block belongs to both slots |
| `Crc32.TableUpdate` | firmware/core/crc32.c:4-21 | The nibble-table loop computes the bitwise register on every byte string |
| `Crc32.BitwiseCrc` | firmware/app/openboot_app.c:71-83 | The companion's bit loop computes the same CRC |
| `Crc32.UpdateConcat` | firmware/core/crc32.c:11-26 | Folding chunks is one pass over their concatenation |
| `Crc32.BurstDetected` | firmware/core/crc32.c:11-26 | Equal-length messages that differ only inside four consecutive bytes never share a CRC |
| `Crc32.SealedBurstDetected` | firmware/core/crc32.c:11-26 | A message with its CRC appended, changed inside four consecutive bytes anywhere, the CRC included, never checks again |
| `NorFlash.NorFlash.XipCrc` | firmware/core/ob_xip.h:23-38 | The word loop over the memory-mapped view computes the CRC of the bytes shown |
| `NorFlash.NorFlash.Erase` | firmware/tests/core_host/ob_host.c:110-131 | The array simulation's erase has exactly the specified effect and report |
| `NorFlash.NorFlash.ProgramBytes` | firmware/tests/core_host/ob_host.c:137-145 | Programming ANDs the data into the programmable bits and shows the result |
| `NorFlash.NorFlash.Write` | firmware/tests/core_host/ob_host.c:147-175 | The array simulation's write has exactly the specified effect: a whole-word prefix lands |
| `NorFlash.NorFlash.Verify` | firmware/tests/core_host/ob_host.c:177-186 | The controller comparison is 0 exactly when the true bytes are the buffer's |
| `NorFlash.NorFlash.XipRead` | firmware/tests/core_host/ob_host.c:87-96 | Dirty blocks serve the stale view, clean ones the truth |
| `NorFlash.NorFlash.Reset` | firmware/tests/core_host/ob_host.c:255-261 | Reset restores coherence and forgets which blocks were erased |
| `Flash.EraseEffect` | firmware/tests/core_host/ob_host.c:110-131 | An erase changes nothing outside its block, and a reported success has landed |
| `Flash.WriteEffect` | firmware/tests/core_host/ob_host.c:137-175 | A write changes nothing outside its bytes and keeps cells and programmable bits in step |
| `Flash.RewriteHarmless` | firmware/tests/core_host/ob_host.c:133-145 | Programming bytes that already read as the data changes nothing, however much lands |
| `BootCore.BootCore.CoreInit` | firmware/core/boot_core.c:375-389 | Entry of the main loop derives the specified power-up state from a coherent view |
| `BootCore.BootCore.PowerCycle` | firmware/core/boot_decision.c:171-190 | A reset makes the specified boot decision from the true content, consumes a request, and takes the engine exactly to the specified power-up state |
| `BootCore.BootCore.ReadRangeOk` | firmware/core/boot_core.c:159-165 | The 32-bit comparisons decide mathematical containment in the application region |
| `BootCore.BootCore.WriteRangeOk` | firmware/core/boot_core.c:177-184 | The 32-bit comparisons decide mathematical containment in the write window, with no wrap |
| `BootCore.BootCore.SessionOpen` | firmware/core/boot_core.c:190-197 | Opening a session takes exactly the specified step |
| `BootCore.BootCore.MutationBegin` | firmware/core/boot_core.c:202-218 | Disarming takes exactly the specified step |
| `BootCore.BootCore.StreamClassifyWrite` | firmware/core/boot_core.c:234-246 | Classification and poisoning are exactly the specified ones; the saved chunk is compared byte by byte |
| `BootCore.BootCore.StreamFold` | firmware/core/boot_core.c:249-256 | Folding a chunk takes exactly the specified step |
| `BootCore.BootCore.BitmapMark` | firmware/core/boot_core.c:258-263 | Sets exactly the block's bit; the byte index fits the array for every legal geometry |
| `BootCore.BootCore.BitmapCovers` | firmware/core/boot_core.c:265-276 | True exactly when every overlapped block is marked; indices fit the array |
| `BootCore.BootCore.RecordLoad` | firmware/core/boot_decision.c:48-88 | The word-by-word loader returns the specified record of the memory-mapped view |
| `BootCore.BootCore.BootSelect` | firmware/core/boot_decision.c:130-152 | The loop returns the specified selection and highest generation |
| `BootCore.BootCore.BootDecide` | firmware/core/boot_decision.c:171-190 | A request is consumed and keeps the bootloader; otherwise the selected slot is launched |
| `BootCore.BootCore.RecordStore` | firmware/core/boot_decision.c:90-114 | Erase, write and verify in the specified order with the specified codes |
| `BootCore.BootCore.RecordNoteCommitted` | firmware/core/boot_core.c:306-337 | The slots flip and everything session-scoped is re-armed, exactly as specified |
| `BootCore.BootCore.BootRecordTrusted` | firmware/core/boot_core.c:363-373 | The three-state gate is exactly the specified one |
| `BootCore.BootCore.DoHello` | firmware/core/boot_core.c:396-439 | HELLO takes exactly the specified step and answer |
| `BootCore.BootCore.DoErase` | firmware/core/boot_core.c:441-464 | ERASE takes exactly the specified step and answer, every error path included |
| `BootCore.BootCore.DoWrite` | firmware/core/boot_core.c:466-496 | WRITE takes exactly the specified step and answer, every error path included |
| `BootCore.BootCore.DoCrc` | firmware/core/boot_core.c:498-513 | CRC answers for the memory-mapped view and changes nothing |
| `BootCore.BootCore.DoCommit` | firmware/core/boot_core.c:515-576 | COMMIT takes exactly the specified step and answer, every error path included |
| `BootCore.BootCore.DoBoot` | firmware/core/boot_core.c:578-609 | BOOT takes exactly the specified step, answer and action |
| `BootCore.BootCore.HandleFrame` | firmware/core/boot_core.c:611-670 | One received buffer takes the engine exactly where the transition system goes, with the same reply and action |
| `EngineRuns.Operate` | firmware/core/boot_core.c:611-670 | Any list of frames and resets takes the imperative engine exactly where the transition system goes |
| `EngineRuns.PowerOnAndOperate` | firmware/core/boot_core.c:375-389 | So the promises hold of the arrays and static fields: from truthful flash, after any such list, every valid record is truthful, no flash operation was illegal, and a part with something to launch still has unless a frame mutated while the active image was blank |
| `EngineRuns.StayOnce` | firmware/core/boot_decision.c:171-190 | On the imperative engine: BOOT mode 1 answers OK, the next reset stays whatever the slots hold, and the one after decides by the slots again |
| `Frames.ReceiveSealed` | firmware/core/boot_core.c:127-134 | A sealed request followed by any padding is received as that request |
| `Frames.BurstNeverExecutes` | firmware/core/boot_core.c:611-633 | A change within four consecutive bytes of a sealed frame, its CRC included and only the length byte kept, is reported as a frame error and never executed |
| `HostProto.DecodeIsReceive` | tools/src/proto/mod.rs:70-104 | Host and device accept exactly the same buffers as the same frame |
| `HostProto.DecodeSealed` | tools/src/proto/mod.rs:51-68 | A sealed frame decodes to itself, padding ignored |
| `HostProto.HelloAcceptedExactly` | tools/src/proto/device_info.rs:64-152 | The host accepts a HELLO answer exactly when the write slot begins inside the silicon, and reads the device's own values |
| `HostProto.HelloAlwaysAccepted` | firmware/core/boot_core.c:327-328 | In every reachable state, wrong-variant silicon included, HELLO is accepted: slot B is offered only when A is active |
| `Link.Link.Xfer` | tools/src/transport/mod.rs:49-63 | The exchange ends on the answer to this attempt or on a frame-error report, every stale, foreign or undecodable frame before it discarded, or in silence when none came; an answer is the newest execution's and leaves nothing in flight; and if the next request is delivered and its answer arrives, that answer is returned |
| `Client.BootClient.Attempt` | tools/src/client.rs:141-176 | One fresh sequence number per attempt; nothing is returned exactly after a silence or a frame-error report; otherwise the answer taken: its payload if the status is OK, the device's error if not |
| `Client.BootClient.Run` | tools/src/client.rs:178-206 | One attempt for every silence and every frame-error report besides the one answered, at most as many as allowed, and no answer only after exactly that many; the first answer to an attempt is the result, error statuses included; an OK answer belongs to the last execution of the command; and one delivery and one arrival are enough |
| `Client.FreshSequence` | tools/src/client.rs:132-136 | Through the wrap at 256 no retry reuses a sequence number of the same command |
| `UpdateFlow.EraseOutcome` | tools/src/client.rs:233-242 | ERASE answered OK: the record is invalid and only the slot changed, however many attempts and resets it took |
| `UpdateFlow.WriteOutcome` | tools/src/client.rs:244-253 | WRITE answered OK: the chunk is in flash and everything written before it still is |
| `UpdateFlow.CommitOutcome` | tools/src/client.rs:255-264 | COMMIT answered OK, stored or replayed: the image is installed |
| `UpdateFlow.MismatchIsTrue` | firmware/core/boot_core.c:539-551 | COMMIT reports a mismatch only when it can vouch for the true bytes and their CRC differs from the claim |
| `UpdateFlow.CommitNeverMismatches` | tools/src/flows.rs:268-283 | Once the whole image was written, no COMMIT answer, after any retries and resets, is a mismatch |
| `FlashFlow.LiveCheck` | tools/src/flows.rs:440-450 | On an always-coherent part the CRC read back after the update always agrees |
| `UpdateFlow.HelloOutcome` | tools/src/client.rs:210-231 | HELLO answered OK: a session on unchanged flash, described by the answer |
| `BootLog.BootLeads` | firmware/core/boot_core.c:578-609 | Over the lossy link, a BOOT answered OK has reset the device: mode 1 into the bootloader, mode 0, unless someone had asked to stay, where the unchanged flash says |
| `BootLog.OnlyBootResets` | firmware/core/boot_core.c:634-670 | However often any other command is attempted, no answer of it resets the device and nobody asks to stay |
| `SteadyLink.CommitJudges` | firmware/core/boot_core.c:515-576 | Nothing failing, a COMMIT of bytes the device can read is accepted exactly when their CRC is the claim, and otherwise answered as a mismatch |
| `FlashFlow.EraseRegion` | tools/src/flows.rs:244-262 | The chunked erase covers its span; only the slot changed |
| `FlashFlow.WriteImage` | tools/src/flows.rs:412-425 | The sequential chunk loop leaves the whole image in place |
| `FlashPlan.PlanAlwaysFits` | tools/src/flows.rs:343-369 | For a device's own geometry a committable image always has a plan, and the rounded erase span fits the window |
| `FlashPlan.CommittableExactly` | tools/src/flows.rs:183-238 | The host takes an image for a device exactly when it starts at the offered slot's address, the silicon holds that slot, and it ends below the record reserve |
| `FlashPlan.ForBase` | tools/src/bundle.rs:311-327 | A bundle yields the build for that base, or nothing when it has none |
| `Sof.UartReceiver.TakeByte` | firmware/transports/uart_transport.c:72-105 | Each byte takes the automaton where the parser goes; the buffer index stays within 64 |
| `Sof.UartReceiver.Poll` | firmware/transports/uart_transport.c:57-109 | A poll consumes pending bytes up to the first complete frame, or counts towards a gap |
| `Sof.PollLine` | firmware/transports/uart_transport.c:57-109 | Polled over any line, the automaton hands up exactly the parser's frames, however the bytes are cut into polls and wherever the silences fall |
| `Sof.CutAnywhere` | firmware/transports/uart_transport.c:57-109 | Where a run of bytes is cut into polls makes no difference to the stream |
| `Sof.RecvSofFrame` | tools/src/transport/framing.rs:54-110 | The host loop returns the first frame the parser delivers on what it consumed, or nothing when the stream delivers none |
| `Sof.RecvAll` | tools/src/transport/framing.rs:54-110 | Receiving until the deadline yields exactly the parser's frames in order |
| `Sof.SameFramesBothEnds` | tools/src/transport/framing.rs:1-12 | Polling a line and reading the stream it carries, the firmware automaton and the host loop return the same frames, for every stream of bytes and gaps |
| `Sof.GapResynchronises` | tools/src/transport/framing.rs:34-110 | After any noise and a gap the next framed frame is delivered whole |
| `Sof.SealedResynchronises` | tools/src/transport/framing.rs:34-110 | So any sealed request or answer after noise and a gap is delivered, by both ends |
| `Sof.OnlyWholeFrames` | firmware/transports/uart_transport.c:92-103 | Only frames as long as their own length byte says are ever delivered |
| `Sof.DeliveredStands` | firmware/transports/uart_transport.c:72-105 | Every frame delivered stands in the stream, contiguous and right behind the two start bytes |
| `Factory.OpenbootRecordValid` | firmware/app/openboot_app.c:85-117 | The companion accepts 32 bytes exactly when the bootloader's rule does at the same capacity |
| `Factory.GetRecord` | firmware/app/openboot_app.c:119-136 | An application learns exactly whether the bootloader would load its slot's record |
| `Factory.BootRecordIsEncode` | firmware/compose_factory.py:82-98 | The composer's record is byte for byte the bootloader's encoding at generation 1 |
| `Factory.FirstCommitStoresSameBytes` | firmware/compose_factory.py:82-88 | A first successful COMMIT of the same image leaves those very bytes in flash |
| `Factory.FactoryBoots` | firmware/compose_factory.py:101-146 | A blessed factory image on a blank part has a truthful generation-1 record in slot A, nothing in B, and the reset jumps to the start of the region exactly when the application is not blank, and otherwise stays |
| `FlashDriver.CmdAddr` | firmware/ports/flash_ch5xx.c:205-219 | Opcode and 24-bit address are clocked out, after a write-enable exactly for mutating opcodes, which a busy die ignores |
| `FlashDriver.Wait` | firmware/ports/flash_ch5xx.c:226-243 | Deselecting makes an idle die act once; polling reports exactly whether the operation then running, new or earlier, ends within the bound |
| `FlashDriver.FlashErase` | firmware/ports/flash_ch5xx.c:249-273 | From any state a driver call can find: on a finished die zero means exactly the requested blocks are erased and a timeout that some leading whole blocks are; on one still busy from a timeout the first block is ignored and zero means the others; the gate is closed on every path |
| `FlashDriver.EraseDoneExactly` | firmware/ports/flash_ch5xx.c:249-273 | So zero means the range is erased exactly when the die had finished before the call, or its first block was blank already |
| `FlashDriver.EraseAfterTimeout` | firmware/ports/flash_ch5xx.c:226-273 | Concrete failure: an erase times out, and the next one, of another block, reports success with nothing erased |
| `FlashDriver.PageIsLinear` | firmware/ports/flash_ch5xx.c:289-303 | A page program that stays in its page is linear although the die wraps |
| `FlashDriver.FlashWrite` | firmware/ports/flash_ch5xx.c:277-311 | On a finished die zero means one linear AND program of the whole buffer, a timeout one of a whole-word prefix; on one still busy the first page is ignored; the gate is closed on every path |
| `FlashDriver.WriteDoneExactly` | firmware/ports/flash_ch5xx.c:277-311 | So zero means the whole buffer was programmed exactly when the die had finished before the call, or its first page would have cleared nothing |
| `FlashDriver.FlashVerify` | firmware/ports/flash_ch5xx.c:314-340 | On a finished die zero exactly when flash equals the buffer, on a busy one exactly when the undriven lines happen to; changes nothing and closes the gate |
| `FlashDriver.EraseIsOutcome` | firmware/ports/flash_ch5xx.c:249-273 | On a finished die the driver's erase of a block is one of the outcomes the flash model allows: same bits, same code; after a reported success the die has finished again |
| `FlashDriver.WriteIsOutcome` | firmware/ports/flash_ch5xx.c:277-311 | On a finished die the driver's write is one of the outcomes the flash model allows, whole when it reports success, after which the die has finished again |
| `BusyDie.BusyDieBreaksTruth` | firmware/core/boot_core.c:202-218 | Concrete failure, why the die must have finished: from every reachable state, after an update whose record write timed out although it landed, the next ERASE's disarm is ignored and reported done, the ERASE succeeds, and a valid record vouches for an image that is gone |
| `FlashDriver.LinearIsProgram` | firmware/ports/flash_ch5xx.c:277-311 | What a driver write leaves is one of the outcomes the flash model allows |
| `Bundle.NewBundleExactly` | tools/src/bundle.rs:85-132 | A bundle is made exactly from one to eight flashable, pairwise disjoint images, and holds those images ascending |
| `Bundle.Create` | tools/src/bundle.rs:85-132 | The check, sort and neighbour loops compute that decision |
| `Bundle.EncodeFile` | tools/src/bundle.rs:134-160 | The push-and-patch loops produce the specified file, 32-bit wrap of lengths and offsets included |
| `Bundle.ParseFile` | tools/src/bundle.rs:171-238 | The parse loop computes the specified result on every byte string, never indexing out of range |
| `Bundle.ParseOfEncode` | tools/src/bundle.rs:134-238 | Every bundle that can be made and whose file is under 2^32 bytes reads back as itself |
| `Bundle.ChangedByteRejected` | tools/src/bundle.rs:200-209 | Changing any one byte of a file that parses makes one that does not |
| `Hex.RenderedDataReads` | tools/src/hex.rs:58-101 | A data line rendered with its checksum parses to the record it came from |
| `Hex.Accumulator.Feed` | tools/src/hex.rs:136-158 | Each record takes the accumulator exactly one specified step; min and max are the true bounds |
| `Hex.FillImage` | tools/src/hex.rs:160-190 | The fill loop rejects exactly the overlapping record sets, and otherwise yields the address map with 0xFF in gaps |
| `Hex.ParseIntelHex` | tools/src/hex.rs:197-212 | A file is rejected or amounts to its address map based at the lowest data-record address, zero-length records included |
| `Hex.OutcomeIsUnique` | tools/src/hex.rs:160-190 | The records determine the outcome |
| `Hex.SwappedDataLines` | tools/src/hex.rs:136-158 | Exchanging neighbouring data lines changes nothing |
| `HexFile.ExtendedPlaces` | tools/src/hex.rs:136-158 | A data line after a rendered extended-address line lands at 65536 times a linear, or 16 times a segment value, plus its offset, whatever came before |
| `HexFile.WrittenImageReads` | tools/src/hex.rs:197-212 | An image of up to 16 MiB cut anywhere into rendered lines under any extended addresses that put the pieces end to end reads back whole at its base |
| `HexFile.EndMatters` | tools/src/hex.rs:160-212 | The same file without its end record, or with anything after it, is rejected |
| `HexFile.OthersIgnored` | tools/src/hex.rs:85-107 | Correctly summed lines of any other type change nothing |
| `Idle.ElapsedIsTrueElapsed` | firmware/core/boot_decision.c:154-160 | Within one wrap the 32-bit comparison is the true elapsed comparison |
| `Idle.MainLoop.Watch` | firmware/core/main.c:68-124 | The deadline never fires early and fires at most 4096 passes late, measured from each anchor through any number of re-anchorings, whatever the traffic and the wraps, until an application is launched or a session opens |

## Left out

- FlashFlow.FlashDevice: corruption that the CRC does not detect, duplication and reordering of messages are not modelled, and the link is idle when the flow starts; I/O errors of the operating system abort the flow and are not modelled separately.
- Link.Link.Xfer: time is replaced by an environment script that decides when each message arrives and when the host stops waiting; a device whose application a BOOT started goes on answering as a freshly reset bootloader.
- BootCore.BootCore.HandleFrame: the stale view is one arbitrary content per frame, so two reads of the same dirty byte within one frame agree; driver codes are one byte, as the answer reports them.
- Flash.WriteEffect: bit decay and marginally programmed cells are not modelled, only whole-word prefixes and whole-block erases.
- FlashDriver.FlashWrite: the byte engine's busy flag, safe-access windows, and the exact register encodings are abstracted to commands clocked into the die; the unique-ID and chip-information reads are left out.
- Sof.UartReceiver.Poll: FIFO depth and baud timing are left out; bytes the hardware has dropped are simply not in the stream.
- FlashDriver.FlashErase: time passes for the die by status polls, so an operation never ends in the middle of a command sequence; one that did would be as if finished before the write-enable, or as if busy after it.
- EngineRuns.Operate: the stale view is one arbitrary content per frame, as in the transition system.
- Idle.MainLoop.Watch: ticks are given by the environment with a bounded gap between passes.
- Hex.ParseIntelHex: takes lines already split and trimmed; the wording of error messages is not modelled.
- Factory.FactoryBoots: supposes the programmed part reads back as the composed image, and erased above it.
- Completeness.UpdateCompletes: every command is attempted once, on a link that loses nothing; `FlashFlow.FlashDevice` covers losses and retries.
- Lifecycle.UpdatesComplete: supposes both slots fit the silicon.
- USB transport, HID and serial I/O, interface selection, the keyboard tunnel and its timing: byte plumbing behind the frame seam.
- Clock, pin and register code of the ports, and the application's update request: reset and jump are events.
- Verify, erase, probe and boot flows of the host tool, progress output and device-info printing: each uses the commands whose outcome the flash flow's lemmas already state.
- Chip-name tables, the READ opcode and USB identity: no state to reason about.
- Build scripts, board files, bench harnesses and silicon probes.
