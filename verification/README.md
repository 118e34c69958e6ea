# wormvars, verified

wormvars keeps small named variables on a few NOR-flash sectors used as a circular
log of 32-byte cells. Writing a variable appends a cell and retires the previous one
in four flash writes; an index in RAM says where each variable is; `fs_init` rebuilds
that index after a power loss; `fs_thread` is a cooperative collector that moves live
cells out of a sector and erases it, and that `fs_write` re-enters whenever it
changes sector.

This project models the store, its flash device and the protothread example program,
and proves what they are for:

- **Crash refinement over whole runs** (`Runs.RunRefines`, `Runs.LastWriteWins`):
  under any interleaving of writes, collector steps, power cuts after any single flash
  operation, and boots that are themselves cut, the store holds exactly an atomic map.
  A cut write counts if and only if the cell write of line 385 happened
  (`Committing.CommitIsCellWrite` ties the commit point to that flash operation).
- **Collector correctness**: the invariant at each of its seven resume points, the
  re-entrant call from `fs_write`, the erase of dead sectors only, the choice of the
  victim by a pigeonhole argument, the exact length and gain of a pass, and the number
  of user writes that always fit into one. Every slot is free, live or dead throughout.
- **Sustained service** (`Pacing.ErasedService`): a pace of collector calls after each
  user write at which no write is ever refused, over runs of any length; as shipped two
  calls are enough (`Pacing.ShippedPace`).
- **Service across power cuts** (`Outages.ServiceOutcome`): for a caller who keeps that
  pace and makes `2 * MaxLive + 4` awake calls after each boot, over every run with cuts
  at any flash operation, a write is accepted if and only if no boot so far found every
  sector full and every sector but sector 0 in use. With two or more reserved blank
  sectors no boot ever does, so as shipped no write is refused (`Outages.ShippedService`).
- **Recovery exactness**: a boot finds every variable again, resolves the one possible
  duplicate by its `newer` flag, and a second boot writes nothing and starts in the same
  sector.
- **Bit clearing loses nothing**: at all seven flash writes of the store, those of the
  recovery and of the nested collector call included, AND and overwrite are the same.
- **The device**: the chunk list of the mock behaves as a NOR array for block accesses;
  where an address lies, and what a read, write or erase at any address does, is stated
  in plain numbers.
- **The code step by step**: which sector the circular search finds, when `fs_thread`
  waits, what each resume point does and what status it returns, and what a boot makes
  of any image, also one with more variables than descriptors.
- **The code as written**: classes `FlashMock`, `Fs` and `Example` follow the sources
  statement by statement, with byte buffers and arrays, and every method leaves exactly
  the state that its pure counterpart gives. Module Sessions runs `Fs` over `FlashMock`,
  call by call and through power cycles, against the atomic map.

Six promises do not hold of the code as it stands. Each is settled exactly:

1. `fs_write` with a full descriptor table programs the cell before it notices
   (line 385 before line 408). It keeps the store sound if and only if the variable
   exists already, a descriptor is free, or the call is refused earlier
   (`Limits.WriteKeepsIff`, example `Limits.FullTableExample`); the next successful
   write then stores the AND of two values (`Limits.OrphanCorrupts`), and a boot indexes
   every variable if and only if there are at most `FD_MAX` (`Scanning.TableOverflow`).
2. `fs_init` on a live index, as in test/WormvarsTest.cc:92, invalidates every variable
   on flash, and RAM hides it until the next power cycle (`Limits.LiveInitWipes`,
   `Limits.LiveInitHides`); the map survives if and only if nothing was indexed
   (`Limits.LiveInitSurvives`).
3. The retry loop of lines 607-611 can never succeed (`Stuck.WedgedForever`). Once all
   sectors are full, whatever the collector's resume point and until the next power
   cycle, there is room again if and only if the sector it is emptying, or will pick,
   holds no variable (`Stuck.FullStoreOutcome`). A power cycle makes sector 0 current and
   forgets the victim: after it there is room again if and only if a sector other than
   sector 0 holds no variable (`Rebooting.FullBootOutcome`). Over all runs, power cycles
   included, a full store can be freed if and only if one of the two holds
   (`Rebooting.FullStoreFreeable`). So a power cycle can rescue a store that is stuck, and
   can trap one that is not (`Rebooting.BootTrapExample`: eight accepted writes).
   Without user writes a pass reaches its erase if and only if, when it is looked at, a
   blank sector is left or the victim's variables fit into the current one
   (`Stuck.PassOutcome`); a pass that is doomed stays so whatever is called
   (`Stuck.DoomedForever`), and a user write can doom one that is not: the last of six
   accepted writes to two variables does (`Stuck.TrapExample`).
4. `fs_read` finds what `fs_write` stored if and only if the extension is below 8
   (`Runs.ReadReturns`): the header truncates it, the search does not.
5. The bounded buffer delivers the produced sequence if and only if the number of items
   is a multiple of the buffer size, or at most one (`BoundedBuffer.Example.Run`).
6. The reserve of `FS_MIN_BLANKSECTORS` keeps relocation possible across power cuts from
   two sectors on, not with one: at every pace of collector calls some run with a cut
   between the last move and the erase ends in a full store that nothing frees
   (`Foundering.OneBlankFounders`). Which boots are safe with one is exact
   (`Outages.ServiceOutcome`).

## How it is built

| file | content |
|---|---|
| block.dfy | a cell as bytes and as fields, AND writes, hash check, the in-place C routines |
| store.dfy | the store as pure functions over RAM and flash, with a log of flash images |
| committing.dfy | the commit point is the cell write of line 385 |
| images.dfy | what a flash image means without RAM; effect of each single flash operation |
| invariant.dfy, writing.dfy | RAM/flash invariant; the four writes of `fs_write` |
| victim.dfy, collecting.dfy | choice of the victim; collector, sector change and re-entry |
| booting.dfy | recovery scan |
| scanning.dfy | the recovery scan of any image |
| threading.dfy | the waits and yields of the collector, one call at a time |
| system.dfy | runs with power cuts against the atomic map |
| progress.dfy, budget.dfy | slots, calls and user writes of a relocation pass |
| conservation.dfy | free, live and dead slots |
| limits.dfy | full descriptor table, `fs_init` on a live index |
| stuck.dfy | full stores and passes begun too late, with an example |
| rebooting.dfy | what a power cycle makes of a full store, with an example |
| pacing.dfy | the pace at which no write is ever refused |
| surviving.dfy | states from which the collector comes to rest; what a cut and a boot make of them |
| outages.dfy | service over whole runs with power cuts |
| foundering.dfy | the run that one reserved blank sector does not survive |
| device.dfy | class `FlashMock`, chunk lists, byte addresses |
| wormvars.dfy | class `Fs`: wormvars.c over `FlashMock` |
| sessions.dfy | runs of class `Fs` against the atomic map |
| boundedbuffer.dfy | class `Example`: the protothread example program |
| arithmetic.dfy | products, quotients and sizes of finite sets |

Conventions. The geometry (sectors, slots per sector, minimum blank sectors, descriptor
limit) is a parameter `Config`, constrained as wormvars.c:101-104 does and by the widths
of the C counters; `Budget.Shipped` is the shipped one. An address is a sector and a
slot; `FlashDevice.ByteAddress` gives the byte address and
`FlashDevice.AddressRoundTrip` shows that nothing is confused. The checksum is an
arbitrary function. `State.log` collects the image after each flash write or erase, so a
power cut is a prefix of the log; single flash operations are atomic. `Env` is what
`timer_expired` and `flash_ready` answer during a call. A power cycle is zeroed RAM
followed by `fs_init`. Bit fields are allocated from the least significant bit and names
are little-endian. `Legal` in system.dfy states the one duty of callers: a new variable
is written only while fewer than `fdMax` exist. Where README.md of the repository shows
the new cell as still flagged newer after a write, the code clears the flag at lines
414-416, and the model follows the code. Lemmas about recursive functions carry
`{:induction false}`: each induction is the one written out.

## Model

| member | source | states |
|---|---|---|
| Block.CellRoundTrip | wormvars/wvars_structs.h:31-38 | cells and 32-byte strings are in bijection under the packed layout |
| Block.AndWriteCommutes | ll_mock/FlashMock.cc:99-110 | a byte-wise AND of 32, 4 or 1 bytes over a cell is a field-wise AND of the whole cell, the header or the flags |
| Block.HeaderProtocol | wormvars/wormvars.c:157-195 | for every checksum function a built cell passes the check, still passes after `newer` is cleared in place, and is invalid after `size` is cleared in place |
| Block.CheckOnBytes | wormvars/wormvars.c:157-195 | the five outcomes of the check in terms of the bytes the code looks at |
| Block.HashOnBytes | wormvars/wormvars.c:297-311 | the header updates made on bytes build exactly the hashed cell |
| Block.CheckBlock | wormvars/wormvars.c:157-195 | in-place check: classifies the cell and leaves the buffer unchanged |
| Block.UpdateBlockHash | wormvars/wormvars.c:297-311 | in-place hashing of a buffer gives the hashed cell |
| Images.HoldsIsUnique | wormvars/wormvars.c:199-294 | valid cells and flags determine live cells and write pointers, so an image stores at most one map |
| Images.ProgramCommits | wormvars/wormvars.c:377-385 | the cell write turns an image of `m` into one of `m[k := data]`, on a blank slot, leaving at most one stale cell |
| Images.RetireKeeps | wormvars/wormvars.c:394-399 | clearing `size` of the stale cell keeps the stored map |
| Images.ClearNewerKeeps | wormvars/wormvars.c:361-375 | clearing `newer` of a live cell keeps the stored map |
| Images.EraseKeeps | wormvars/wormvars.c:621-628 | erasing a sector without valid cells keeps the stored map |
| Writing.ClearStep | wormvars/wormvars.c:361-375 | first flash write: index and map unchanged, the previous cell is no longer `newer` |
| Writing.WriteCellCommits | wormvars/wormvars.c:361-430 | the map gains exactly the written variable, the invariant holds again, and the logged images switch from old to new map at one flash write |
| Committing.WrittenBytes | wormvars/wormvars.c:355-378 | the 32 bytes of that cell, byte for byte, zero padding and the bytes under the checksum included |
| Committing.CommitIsCellWrite | wormvars/wormvars.c:377-385 | for every successful user write, flash operation number `CommitPoint` of the call is the one that puts the new cell on the blank slot at the write pointer, and changes nothing else |
| Writing.AndIsOverwrite | wormvars/wormvars.c:361-416 | at all four flash writes AND equals overwrite: the cell lands on a blank slot, header rewrites only clear bits |
| Progress.FsWriteOverwrites | wormvars/wormvars.c:336-431 | the same for a whole `fs_write`, whatever the nested collector call did before its own four writes |
| Progress.RollingOverwrites | wormvars/wormvars.c:314-333 | the same for both copies that a relocation writes when its own write changes sector |
| Booting.ResolveOverwrites | wormvars/wormvars.c:231-259 | the recovery writes clear `size` in the cell that is given up and change nothing else, in all three branches |
| Store.NextFreeIsNearest | wormvars/wormvars.c:318-327 | every sector that comes before the one found, going upwards and around, is full |
| Collector.ActivateKeeps | wormvars/wormvars.c:317-323 | the sector that becomes current is blank and is not the victim |
| Collector.UpdateSectorKeeps | wormvars/wormvars.c:314-333 | either there is room afterwards and the map is unchanged, or all sectors are full and nothing changed |
| Collector.WriteKeeps | wormvars/wormvars.c:336-431 | result code, new map, commit point and invariant of a whole `fs_write`, collector re-entry included |
| Collector.WriteKeepsCollecting | wormvars/wormvars.c:567-618 | a user write at any yield point keeps what the collector relies on |
| Collector.EraseIsSafe | wormvars/wormvars.c:621-628 | when every descriptor lies outside the victim no cell in it is valid, and the erase keeps invariant and map |
| Collector.RelocLoopKeeps | wormvars/wormvars.c:567-628 | from any index the loop keeps invariant and map up to its next yield or the erase |
| Collector.MoveKeeps | wormvars/wormvars.c:602-617 | moving a variable rewrites its current value, never an older one, and ends at line 617, or at 610 exactly when all sectors are full |
| Collector.ThreadKeeps | wormvars/wormvars.c:552-632 | every collector call from every resume point keeps the invariant and is a stutter on the map, in RAM and in all logged images |
| Store.CapacityIsProduct | wormvars/wormvars.c:102-104 | the bound on `FD_MAX` in `ValidConfig` is `(sectors - minBlank - 1) * slots` |
| Victim.Chosen | wormvars/wormvars.c:496-549 | on any state: nothing is reported if and only if enough other sectors are blank; else the full sector with fewest live variables, the first upwards and around from the current one |
| Victim.BestSoFar | wormvars/wormvars.c:535-545 | the running minimum is attained first in circular order by a full non-current sector |
| Victim.CountersFit | wormvars/wormvars.c:500-533 | the eight-bit histogram counters never wrap |
| Victim.VictimChoice | wormvars/wormvars.c:496-549 | a reported victim is full, not current, has fewest live variables, is first in circular order, and holds at most `fd_index / (sectors - minBlank)` |
| Scanning.ScanSector | wormvars/wormvars.c:199-294 | on any image the scan of a sector goes past written slots and stops at the first blank one, at a valid cell of a new variable when the table is full of earlier ones, or at the end; the code 0, 1, -1 or 2 says which |
| Scanning.BootOfAny | wormvars/wormvars.c:460-493 | a boot of any image: the index lists valid cells of different variables, flash changes only by invalidating cells of indexed variables, where each pointer stops, and that writing goes on in the last partly written sector, else the last blank one, else sector 0 |
| Scanning.TableOverflow | wormvars/wormvars.c:262-273 | a boot indexes all variables if and only if at most `fdMax` exist; else the table is full and some pointer stays on a valid cell |
| Booting.DuplicateFlags | wormvars/wormvars.c:225-260 | two valid cells of one variable have opposite flags and the `newer` one is live: the "unexpected" branch is unreachable |
| Booting.ResolveKeeps | wormvars/wormvars.c:225-260 | resolving a duplicate keeps the map and the scan invariant |
| Booting.InitFileDescriptorsKeeps | wormvars/wormvars.c:199-294 | scanning a sector indexes its valid cells, finds its first unprogrammed slot and classifies it, with the table never full |
| Booting.InitFromKeeps | wormvars/wormvars.c:466-487 | the sector loop ends in the invariant, with the partly written sector current if there is one |
| Booting.BootKeeps | wormvars/wormvars.c:460-493 | booting an image that stores `m` gives a store of `m`; every image on the way stores `m`; at most one flash operation happens, and none without a stale cell |
| Booting.SecondBoot | wormvars/wormvars.c:460-493 | a second boot performs no flash write and finds the same addresses, write pointers and current sector |
| Booting.StartsOnce | wormvars/wormvars.c:466-487 | the partly written sector, else the last blank one, else 0: the write pointers determine where a boot starts |
| Runs.ExecKeeps | wormvars/wormvars.c:336-632 | one completed call: invariant, map and the images it logged |
| Runs.StepRefines | wormvars/wormvars.c:336-493 | each legal step, power cuts included, is a step of the atomic map; a cut write counts exactly from its commit point |
| Runs.RunRefines | wormvars/wormvars.c:199-632 | over any run from an erased device the store holds the atomic map |
| Runs.CallsNeverBlock | wormvars/wormvars.c:336-632 | in every state that keeps the invariant each call can be made and cut anywhere |
| Runs.ReadReturns | wormvars/wormvars.c:434-457 | `fs_read` returns the stored value exactly when the variable exists and the extension is below 8 |
| Runs.LastWriteWins | wormvars/wormvars.c:336-457 | after any run a read returns the bytes of the last write of that variable that took effect, completed or cut after its commit point, zero-padded |
| Runs.DuplicateDiscipline | wormvars/wormvars.c:225-260 | in every image a cut can leave at most one variable has two valid cells, never three, with opposite flags |
| Threading.Waits | wormvars/wormvars.c:555-622 | at lines 555, 576 and 622 a call changes nothing until the awaited condition holds, and then moves on |
| Threading.Yields | wormvars/wormvars.c:556-619 | enough blank sectors restart the thread; otherwise the loop starts on the choice; a rewritten descriptor is not moved |
| Threading.LoopOutcome | wormvars/wormvars.c:567-631 | the next descriptor in the victim is copied and its cell read as soon as the device is ready; without one the victim, and nothing else, is erased as soon as it is |
| Threading.EndsByErase | wormvars/wormvars.c:552-632 | a call erases a sector if and only if it takes the thread back to its start through a flash operation |
| Progress.RoomyMove | wormvars/wormvars.c:596-617 | a relocation with room uses one slot and leaves one variable fewer in the victim |
| Progress.RollingMove | wormvars/wormvars.c:314-333 | re-entrancy: two copies are written, the second live and the first dead, both levels end at line 617 with the same `reloc`, nothing is erased |
| Progress.ErasesOnlyDead | wormvars/wormvars.c:552-632 | from any resume point a sector that a collector call erases is the victim, full, not current, without descriptors and without valid cells |
| Progress.ThreadStep | wormvars/wormvars.c:567-628 | a collector call conserves free slots minus remaining moves minus blank sectors exactly, and is one step nearer the erase |
| Progress.ThreadRoom | wormvars/wormvars.c:314-333 | a pass changes sector at most once, exactly when the victim's variables do not fit into the current sector |
| Progress.PassEnds | wormvars/wormvars.c:567-628 | without user writes a pass ends after exactly the predicted number of calls |
| Progress.WholePass | wormvars/wormvars.c:552-632 | with `L` live variables a pass takes `2L+1` calls, keeps the map and gains exactly `slots-L` free slots, one less if and only if they do not fit into the current sector |
| Progress.NotBefore | wormvars/wormvars.c:552-632 | after fewer calls the pass is still going on |
| Conservation.SlotsConserved | wormvars/wormvars.c:106-136 | in every state of the invariant free, live and dead slots add up to the device; the free ones are those above the write pointers, the live ones one per variable |
| Conservation.PassConserves | wormvars/wormvars.c:552-632 | a pass turns exactly as many dead slots into free ones as it gains, and keeps the number of live ones |
| Budget.UserWrite | wormvars/wormvars.c:336-431 | a user write during a pass succeeds and costs at most one unit of slack, even if it re-enters the collector |
| Budget.WriteBudget | wormvars/wormvars.c:314-353 | with slack for the user writes no interleaving gets a refusal before the erase |
| Budget.PassBudget | wormvars/wormvars.c:496-628 | with a blank sector left, `slots-L-1` user writes always fit into the pass |
| Budget.ShippedBudget | wormvars/wvars_structs.h:28-29 | as shipped a victim has at most 50 live variables, so 77 writes fit |
| Limits.WriteCodes | wormvars/wormvars.c:344-430 | -1 for more than 28 bytes, -2 if every sector is full, -1 for a new variable with a full table, else 0; the first two change nothing |
| Limits.FullTableEffect | wormvars/wormvars.c:385-426 | with a full table the cell is programmed, not indexed, and the pointer stays |
| Limits.WriteKeepsIff | wormvars/wormvars.c:336-431 | `fs_write` keeps the invariant if and only if it is refused for length or room, the variable exists, or a descriptor is free |
| Limits.FullTableExample | wormvars/wormvars.c:408-426 | a reachable store of one descriptor that a second variable breaks |
| Limits.OrphanCorrupts | wormvars/wormvars.c:377-431 | after that, a successful write of another variable stores the AND of both values |
| Limits.LiveInitWipes | wormvars/wormvars.c:460-493 | `fs_init` on a live index leaves an image from which a boot recovers the empty map |
| Limits.LiveInitHides | test/WormvarsTest.cc:91-95 | until then every read answers as before |
| Limits.LiveInitSurvives | wormvars/wormvars.c:460-493 | the stored map survives `fs_init` and a power cycle if and only if the index was empty |
| Stuck.WedgedForever | wormvars/wormvars.c:607-611 | in the retry loop all sectors are full and no sequence of calls changes anything |
| Stuck.FullThread | wormvars/wormvars.c:552-632 | from each resume point of a full store a collector call frees it or moves only the resume point, one turn nearer the outcome |
| Stuck.FullStoreOutcome | wormvars/wormvars.c:552-632 | with all sectors full, at any resume point and under any calls without a power cycle, there is room again if and only if the victim holds no variable, within three awake calls; else nothing changes and four awake calls end in the retry |
| Stuck.DoomedForever | wormvars/wormvars.c:567-628 | with no blank sector and too little room for the victim's variables, no sequence of calls ever erases the victim |
| Stuck.PassOutcome | wormvars/wormvars.c:567-628 | without user writes the predicted number of calls reaches the erase if and only if the pass is not doomed |
| Stuck.TrapExample | wormvars/wormvars.c:314-353 | a reachable trap: three sectors of two slots, two variables, and six writes that all return 0, of which the last dooms the pass |
| Rebooting.RestingTrapped | wormvars/wormvars.c:496-549 | a full store between two passes can be freed if and only if a sector other than the current one holds no variable |
| Rebooting.FullBootOutcome | wormvars/wormvars.c:466-487 | booting a full image makes sector 0 current: under any later calls there is room again if and only if another sector holds no variable, within three awake calls |
| Rebooting.LostForever | wormvars/wormvars.c:466-632 | otherwise no run at all, power cuts and boots included, changes the flash again |
| Rebooting.FullStoreFreeable | wormvars/wormvars.c:460-632 | over all runs with power cuts a full store can be freed if and only if its victim holds no variable or a sector other than sector 0 holds none |
| Rebooting.BootTrapExample | wormvars/wormvars.c:485-487 | eight accepted writes lead to a full store that the collector would free and that a power cycle makes unrecoverable |
| Pacing.MaxLiveFits | wormvars/wormvars.c:102-104 | the limit on FD_MAX leaves a dead slot in every victim |
| Pacing.ThreadOnTrack | wormvars/wormvars.c:552-632 | a collector call keeps the room set aside for the pass, and an awake one brings its end nearer |
| Pacing.UserOnTrack | wormvars/wormvars.c:336-431 | a write on a store that is on track succeeds and takes one slot of that room, or starts a new sector with room for any pass |
| Pacing.SteadyService | wormvars/wormvars.c:314-353 | with enough awake collector calls after each write no write of any run is refused |
| Pacing.ErasedService | wormvars/wormvars.c:314-632 | the same over any run from an erased device |
| Surviving.SafeThread | wormvars/wormvars.c:552-632 | every collector call keeps a safe store safe, and every awake one brings it nearer to rest, with one blank sector short or two |
| Surviving.ThreadShows | wormvars/wormvars.c:552-632 | every image a collector call leaves has the write pointers and live cells of the state before or after it |
| Surviving.WriteShows | wormvars/wormvars.c:361-430 | the same for the four flash writes of `fs_write` |
| Surviving.UserCut | wormvars/wormvars.c:314-431 | a cut at any flash operation of a write on a store on track leaves the image of a safe store, sector change and nested call included |
| Surviving.CountIsLive | wormvars/wormvars.c:526-533 | how many descriptors point into a sector depends on the live cells alone, so the victim's count survives a boot |
| Surviving.BootSettles | wormvars/wormvars.c:460-493 | the boot of a safe store is safe, unless a single blank sector is reserved, every sector is full and only sector 0 may be without variables |
| Outages.StepWorks | wormvars/wormvars.c:199-632 | each event of a disciplined run, cuts and cut boots included, keeps the room and the calls still owed in balance |
| Outages.ServiceOutcome | wormvars/wormvars.c:199-632 | over every disciplined run with power cuts a write is accepted if and only if no boot so far found the store stranded, and with two reserved blank sectors none does |
| Outages.ShippedService | wormvars/wormvars.c:57 | as shipped no write of such a run is refused |
| Foundering.OneBlankFounders | wormvars/wormvars.c:466-487 | with one reserved blank sector, for every pace, a concrete disciplined run whose boot finds the store stranded |
| Pacing.ShippedPace | wormvars/wvars_structs.h:28-29 | as shipped two awake calls after each write are enough |
| Pacing.SomePace | wormvars/wormvars.c:102-104 | every admissible geometry has such a pace |
| FlashDevice.SectorOfIs | ll_mock/FlashMock.cc:40-51 | an address belongs to sector `s` exactly if it lies in its range of `32 * slots` bytes, counted from 0x0F4000 |
| FlashDevice.ShippedSectors | wormvars/wormvars.c:69-99 | as shipped: 0x1000 bytes per sector, eight sectors, nothing below or above |
| FlashDevice.BlockAddress | wormvars/wormvars.c:69-99 | slot `k` of sector `s` lies at 0x0F4000 + 0x1000 * s + 32 * k, all its bytes in that sector |
| FlashDevice.ReadAnywhere | ll_mock/FlashMock.cc:63-75 | a read of any size at any address: the first chunk with that address, then 0xFF |
| FlashDevice.WriteAnywhere | ll_mock/FlashMock.cc:78-124 | a write at any address: the three refusals, else ANDed and appended bytes or a new chunk, and no other chunk or sector changes |
| FlashDevice.AddressRoundTrip | ll_mock/FlashMock.cc:40-51 | a block address determines its sector and slot |
| FlashDevice.ChunkLimit | ll_mock/FlashMock.cc:91-94 | over block accesses the chunk limit is never hit |
| FlashDevice.WriteRefines | ll_mock/FlashMock.cc:78-124 | an aligned write is accepted and is an AND of its block alone |
| FlashDevice.EraseRefines | ll_mock/FlashMock.cc:126-136 | an erase fills its sector with ones and leaves the others |
| FlashDevice.StoreWrites | ll_mock/FlashMock.cc:99-110 | the byte writes of the store have the field-wise effect of its cell operations |
| FlashDevice.Indistinguishable | ll_mock/FlashMock.cc:40-136 | over any sequence of block accesses the chunk list and a NOR array answer alike |
| FlashDevice.NewIndistinguishable | ll_mock/FlashMock.cc:40-136 | in particular a new device, with no chunks, and an erased NOR array |
| FlashDevice.FlashMock.AddressToSector | ll_mock/FlashMock.cc:40-51 | the wrapped subtraction and the range test: found exactly for addresses in a sector, in numbers for the shipped geometry |
| FlashDevice.FlashMock.Read | ll_mock/FlashMock.cc:53-76 | fills the buffer with the chunk, extended by 0xFF; outside every sector leaves it alone |
| FlashDevice.FlashMock.Rewrite | ll_mock/FlashMock.cc:102-109 | the in-place loop ANDs written bytes and appends the others |
| FlashDevice.FlashMock.Write | ll_mock/FlashMock.cc:78-124 | rejects, merges into the chunk of that address or appends a new one |
| FlashDevice.FlashMock.Erase | ll_mock/FlashMock.cc:126-136 | empties exactly the sector that the address lies in, wherever in it, and does nothing outside the device |
| FlashDevice.FlashMock.WriteBlock | ll_mock/FlashMock.cc:78-124 | the same write seen on cells |
| Wormvars.Fs.FsRead | wormvars/wormvars.c:434-457 | code and data of the specification, state unchanged |
| Wormvars.Fs.FillBuffer | wormvars/wormvars.c:338-359 | the write buffer before hashing |
| Wormvars.FilledCell | wormvars/wormvars.c:355-378 | hashing that buffer gives the cell of key and zero-padded data |
| Wormvars.Fs.WriteOut | wormvars/wormvars.c:361-430 | search, four flash writes and index update, full table included |
| Wormvars.Fs.SearchFree | wormvars/wormvars.c:317-327 | the circular search: the sector found has room and every sector on the way to it is full |
| Wormvars.Fs.UpdateSector | wormvars/wormvars.c:314-333 | code 0, 1 or -1; with 1 the nearest sector with room is current, and the state is what `fs_thread(1)` makes of that; otherwise nothing changes |
| Wormvars.Fs.FsWrite | wormvars/wormvars.c:336-431 | state and code of the specification |
| Wormvars.Fs.MarkFull | wormvars/wormvars.c:505-524 | marks exactly the full non-current sectors, or reports enough blank ones |
| Wormvars.Fs.CountLive | wormvars/wormvars.c:526-533 | the eight-bit histogram is the live count of each marked sector |
| Wormvars.Fs.FindRelocSector | wormvars/wormvars.c:496-549 | the victim of the specification, or none |
| Wormvars.Fs.Move | wormvars/wormvars.c:607-617 | one turn of the relocation loop |
| Wormvars.Fs.NextDescriptor | wormvars/wormvars.c:567-575 | on to the next descriptor in the victim |
| Wormvars.Fs.RelocLoop | wormvars/wormvars.c:567-628 | the loop up to its next yield, or the erase |
| Wormvars.Fs.FsThread | wormvars/wormvars.c:552-632 | one call from any resume point: state; status 3 exactly if a sector was erased, else 0 exactly at a wait, else 1; nothing changes while it waits |
| Wormvars.Fs.ScanCell | wormvars/wormvars.c:206-286 | one turn of the recovery scan |
| Wormvars.Fs.InitFileDescriptors | wormvars/wormvars.c:199-294 | state and code of the specification |
| Wormvars.Fs.FsInit | wormvars/wormvars.c:460-493 | state of the specification |
| Sessions.ThreadAfter | wormvars/wormvars.c:552-632 | what a collector call does to RAM and flash does not depend on what was logged before |
| Sessions.ExecIsCall | wormvars/wormvars.c:336-632 | nor does any other call: the runs of module Runs are the calls of class `Fs` |
| Sessions.CallSurvives | wormvars/wormvars.c:336-632 | cut after any flash operation of a call, the device holds the old map, or from the commit point on the new one |
| Sessions.Serve | wormvars/wormvars.c:336-632 | a call on class `Fs`: state, result code, and that survival for the operations it performed on `FlashMock` |
| Sessions.Session | wormvars/wormvars.c:336-632 | any sequence of legal calls on class `Fs` is a run of the atomic map |
| Sessions.PowerOn | wormvars/wormvars.c:460-493 | a power cycle on a device that stores `m` starts class `Fs` with `m`, and every image on the way stores `m` |
| Sessions.Life | wormvars/wormvars.c:336-493 | boot, legal calls and power off take the device from one map to the next |
| Sessions.FirstLife | ll_mock/FlashMock.cc:40-136 | the first life of a new device ends with the map of its accepted writes |
| Sessions.ReadBack | wormvars/wormvars.c:434-457 | reading through class `Fs` gives the value of the atomic map |
| BoundedBuffer.AddAllFromZero | pt-1.4/example-buffer.c:51-57 | `n` additions from slot 0 fill the first `n` slots and keep the rest |
| BoundedBuffer.GetAllAt | pt-1.4/example-buffer.c:58-67 | the `j`-th of consecutive removals, with wrap-around |
| BoundedBuffer.LastRound | pt-1.4/example-buffer.c:51-67 | a round delivers its items if and only if it is empty, full, or the very first with one item |
| BoundedBuffer.RoundData | pt-1.4/example-buffer.c:85-121 | buffer, pointer and delivered items of a round of `n` items |
| BoundedBuffer.Example.Producer | pt-1.4/example-buffer.c:84-102 | moves items until it blocks or ends; semaphores, pointer, buffer and continuation afterwards |
| BoundedBuffer.Example.Consumer | pt-1.4/example-buffer.c:104-121 | likewise for the consumer |
| BoundedBuffer.Example.Round | pt-1.4/example-buffer.c:136-137 | each round but the last moves exactly `size` items and returns the pointer to 0 with full + empty = size |
| BoundedBuffer.Example.Run | pt-1.4/example-buffer.c:123-165 | consumed equals produced if and only if `numItems` is a multiple of `size` or at most 1; rounds are `numItems / size` rounded up; no thread restarts |

## Left out

- Sessions.Life: the power goes between two calls; cuts inside a call are settled by `Sessions.Serve` and `Runs.RunRefines`.
- Pacing.ErasedService: rounds of one write and its collector calls, without power cycles; `Outages.ServiceOutcome` covers runs with them, for callers who also let the collector work after each boot.
- FlashDevice.Indistinguishable: covers block-aligned accesses of at most 32 bytes, the only ones the store makes; overlapping chunks at other offsets are not a NOR array in the mock either.
- BoundedBuffer.Example.Run: assumes that the producer is evaluated before the consumer in `producer(..) & consumer(..)`, an order that C leaves open.
- Torn flash writes and the strength of the checksum: single flash operations are atomic and the checksum is any function.
- Busy waiting on `flash_ready()` inside `fs_write` and `fs_init`, timers and sleeps: waiting changes no state; the answers that `fs_thread` gets are inputs.
- More than 28 bytes in `fs_read`: out of bounds in C, so it is a precondition.
- Debug variants, printing, access counters and the sector map of the mock, and the C wrappers in ll_mock/flash.cc.
- pt-1.4/example-small.c, pt-1.4/example-codelock.c and the label or switch encodings of continuations: a resume point is an explicit value.
- Unused structures in wormvars/wvars_structs.h (`st_fileSystem`, `st_FsSector`, `un_fsName`).
