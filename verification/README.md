# io-edge-hub: a verified model of its storage, protocols and littlefs engine

This project models the parts of the io-edge-hub firmware whose correctness is
an argument rather than a glance, and proves that argument in Dafny 4.11.
`dafny verify dfyconfig.toml` checks everything.

**The littlefs engine.**
`Allocator` is the lookahead window with its checkpoint counter, over every run
of checkpoints, drops, allocations, commits and releases.
`CtzIndex` and `CtzList` are the skip lists that store file blocks: the popcount
closed form, the append that builds pointers out of earlier pointers, the
logarithmic search, the traversal and the copy-on-write path above them.
`CtzFile` is a whole file write: the gap, the data and the flush that copies the
old tail.
`BdRead` and `BdCache` are the read and program caches against the plain disk.
`GlobalState` and `GlobalRuns` are the pending move and orphan flag kept as the XOR
of one delta per metadata pair.
`Handles`, `HandleRuns` and `StorageTask` are the list of open nodes and the
storage task that puts fixed cells on it.

**The flash and what is kept on it.**
`Nor` is the W25Q128 behind its driver.  Its `fuse` counts the device steps that
are still carried out, so that a run stops where a power cut or a bus error would;
`late` says that the last of them is reported as failed although it was done.
`ConfigStore` and `ConfigRuns` are the A/B configuration slots, and `Collision`
shows that their checksum can be met by a torn record.  `Tlv`, `FwUpgrade`,
`FwImage`, `FwTrailer`, `FwRuns` and `FwSession` are the firmware upgrade with its
page buffer, verification of signed images, MCUboot trailer and UDP transfer.

**The protocols.**
`WebSocket` (RFC 6455), `MbTcpStream`, `RegMap`, `MbServer`, `MbReplies`,
`MbCoils`, `MbDecoder`, `MbTransport`, `MbExchange` and `MbDevices` (Modbus over TCP
and RTU), `Sha1` and `Sha1Example` (FIPS 180-4), `Base64` (RFC 4648), `Crc`,
`CivilTime`, `History` and `HistoryFiles`.

Code that works by changing things is a class or a method with its loops, proved
against a specification function; the theorems over all inputs and all runs are
lemmas about those functions.  `Bits`, `Bytes`, `Words`, `Streams` and
`Collections` are shared vocabulary: numbers, bytes, words as sets of one-bits,
folds over streams, and sequences without repetition.

Where a promise of the source does not hold as written, the code is modelled as
it is and the exact condition is proved:

- `lfs_bd_read` ends on every call exactly when the program size is a multiple of
  the read size (`BdRead.ReadAlwaysEndsIff`).
- A torn configuration write is detected exactly when its body does not collide
  with the erased checksum (`ConfigStore.TornIff`), and at every generation there
  are configurations that do collide (`Collision.TornCollides`); the comment in
  config_store.rs states it without condition.
- An acknowledged save is what the next boot loads exactly when the generation did
  not wrap and the boot before it had seen a record, or none in slot B beats
  generation 1 (`ConfigRuns.LoadsAcknowledgedIff`, with
  `ConfigRuns.UnreadableBootLoses`).  A boot is safe for all that follows exactly
  when it reads the newest record, or that record is of generation 0, or it is of
  generation 1 and slot B, which holds one of generation 1, is not the slot written
  next (`ConfigRuns.BootSafeIff`).
- A boot magic in the slot was preceded by a successful `finish`, in every state of
  every run, exactly when images are kept below the size of the slot
  (`FwRuns.VouchedIff`, from `FwRuns.NoUnverifiedUpgrade`).  `start` admits one of
  exactly that size, and its data can then end in the magic without any `finish`
  (`FwRuns.WholeSlotMagic`).
- That the verified image is still in the slot needs more.  In all runs in which no
  erase over a pending image stops part way it holds exactly when images are of at
  most `swap_info_off()` bytes (`FwRuns.SafeIff`); for every larger size there is a
  verified image whose bytes the trailer changes (`FwRuns.LongImageSpoiled`).  With
  images of at most that size it holds in every state of a run exactly when no erase
  over a pending image stops part way, after one to six of its seven commands
  (`FwRuns.RunSafeIff`, with the run `FwRuns.CutEraseRun`): END and CONFIRM do not
  reboot, and the erase wipes the magic last.
- What a commit writes to a pair that is waiting to be replaced or dropped is lost to
  the state a mount will find: a commit loses nothing exactly when its pair stays or
  nothing is pending (`GlobalState.CommitKeepsIff`).  A mount finds the committed
  state after a step exactly when the step neither stages a pair with a change of
  state nor commits one to a pair it takes off the list (`GlobalState.StepShownIff`),
  and once all is linked, exactly when what the run lost cancels out
  (`GlobalState.SettledIff`).
- After a failed device read the read cache labels the bytes of its last window as
  another one, and reads inside it are right exactly where the two places on the disk
  hold the same bytes (`BdCache.Bd.Read`, `BdCache.StaleReadIff`, with the read
  `BdCache.WrongRead`).
- The upgrade trailer survives exactly for images of at most `swap_info_off()`
  bytes, although `start` admits the whole slot (`FwTrailer.TrailerIff`).
- After `finish` the received count reads zero exactly when nothing was received
  or a lone page was lost in its last flush, against the comment in fw.rs
  (`FwUpgrade.CountAfterFinishIff`, with `FwUpgrade.CountSurvives`).
- WebSocket frames are all reported exactly when none is empty, and a server
  header is right exactly up to 16-bit lengths (`WebSocket.FramesReportedIff`,
  `WebSocket.AnnouncedIff`).
- FC15 equals the FC05 requests exactly when the addresses do not wrap
  (`MbServer.MultipleIsSingleIff`), and FC16 takes exactly twice to just under three
  times as many bytes as registers (`MbCoils.WordsServed`).
- Writing both time words sets the clock exactly when the low word differs from the one
  written last (`MbCoils.ClockSetIff`).
- `b64_decode` refuses invalid characters exactly in front of the first padding
  (`Base64.AcceptedIff`, with `Base64.JunkPasses`), against its comment in fw_upg.rs.
- The history cleanup keeps at most ten files, and the newest by name, exactly when
  the directory holds at most twelve history files and its removals are carried
  out, because its list drops further names (`HistoryFiles.TidyIff`,
  `HistoryFiles.TwelveFilesIff`, `HistoryFiles.ThirteenFiles`).
- History names order as time exactly within a UTC+8 year or by place in the year
  (`History.NameOrderIff`), against the comment in storage.rs.
- A comment in storage.rs says a failed close leaves its node linked while lfs.c
  unlinks it; the handle theorems allow both.

## Model

| member | source | states |
|---|---|---|
| Allocator.ScanSets | crates/littlefs2-sys/littlefs/lfs.c:640-661 | A rescan keeps the blocks passed since the checkpoint out of the new window although no traversal reports them, and marks used exactly what was tracked |
| Allocator.AdvancePassed | crates/littlefs2-sys/littlefs/lfs.c:665-714 | Advancing moves exactly the block under the cursor from the window to the passed blocks |
| Allocator.AllocInv | crates/littlefs2-sys/littlefs/lfs.c:665-714 | From every invariant state one `lfs_alloc` call ends, with `ckpoint` as its measure, returns only a free block and keeps `size - next <= ckpoint <= block_count` |
| Allocator.StepInv | crates/littlefs2-sys/littlefs/lfs.c:613-714 | Every checkpoint, drop, allocation, commit and release keeps the allocator invariant |
| Allocator.AllocatorSafety | crates/littlefs2-sys/littlefs/lfs.c:613-714 | After any legal run an allocated block is neither in use nor handed out since the checkpoint, and NOSPC means every block is in use, handed out or freed too recently |
| Allocator.FreeIsFound | crates/littlefs2-sys/littlefs/lfs.c:665-714 | After any legal run, a call whose traversals succeed never reports a failed one and returns a block whenever one is neither in use, handed out nor freed too recently |
| Allocator.NoBlockTwice | crates/littlefs2-sys/littlefs/lfs.c:613-714 | Between checkpoints no block is handed out twice, whatever is committed or freed meanwhile |
| Allocator.LookaheadBuffer.constructor | crates/littlefs2-sys/littlefs/lfs.c:619-623 | A mounted allocator starts in the invariant with an empty window at the seed |
| Allocator.LookaheadBuffer.CkpointNow | crates/littlefs2-sys/littlefs/lfs.c:613-615 | The counter is reset and nothing else changes |
| Allocator.LookaheadBuffer.DropNow | crates/littlefs2-sys/littlefs/lfs.c:619-623 | The window is emptied and the counter reset |
| Allocator.LookaheadBuffer.Mark | crates/littlefs2-sys/littlefs/lfs.c:626-636 | The traversal callback sets exactly the bit of its block, if the window holds it, through the wrapping offset arithmetic |
| Allocator.LookaheadBuffer.TraverseNow | crates/littlefs2-sys/littlefs/lfs.c:652-654 | After a traversal bit i is set exactly when the i-th block of the window was reported |
| Allocator.LookaheadBuffer.Refill | crates/littlefs2-sys/littlefs/lfs.c:640-661 | The buffer after a scan is the specified window over the tracked blocks |
| Allocator.LookaheadBuffer.ScanNow | crates/littlefs2-sys/littlefs/lfs.c:640-661 | A failing traversal leaves the dropped state, a complete one the scanned state |
| Allocator.LookaheadBuffer.SkipUsedNow | crates/littlefs2-sys/littlefs/lfs.c:668-691 | The bit loop stops at the first free block of the window or at its end |
| Allocator.LookaheadBuffer.HitNow | crates/littlefs2-sys/littlefs/lfs.c:669-687 | A hit returns the cursor block and skips eagerly past used ones |
| Allocator.LookaheadBuffer.AllocNow | crates/littlefs2-sys/littlefs/lfs.c:665-714 | The loop over the bit buffer computes the specified allocation, outcome and new state |
| CtzIndex.StartClosed | crates/littlefs2-sys/littlefs/lfs.c:2869-2880 | The summed capacities of blocks 0 to i-1 equal the popcount closed form (the sum of ctz(1..n) is n - popcount(n)) |
| CtzIndex.NoUnderflow | crates/littlefs2-sys/littlefs/lfs.c:2869-2880 | The unsigned subtraction in the closed form never goes below zero |
| CtzIndex.IndexCorrect | crates/littlefs2-sys/littlefs/lfs.c:2869-2880 | For every block size from 128 and every 32-bit position `lfs_ctz_index` returns the block whose capacity range holds it, and the offset behind its pointers |
| CtzIndex.IndexUnique | crates/littlefs2-sys/littlefs/lfs.c:2869-2880 | No other block holds the position |
| CtzIndex.IndexOnto | crates/littlefs2-sys/littlefs/lfs.c:2869-2880 | Every data byte of every block is the image of its position, so the closed form is a bijection |
| CtzIndex.WalkIsIndex | crates/littlefs2-sys/littlefs/lfs.c:2869-2880 | The closed form equals walking the blocks one by one |
| CtzList.HopProgress | crates/littlefs2-sys/littlefs/lfs.c:2882-2914 | A search hop uses a pointer the block has, never overshoots and lowers the hop bound |
| CtzList.HopBoundLog | crates/littlefs2-sys/littlefs/lfs.c:2882-2914 | The hop bound is at most 2 log2(d) + 1 |
| CtzList.Search | crates/littlefs2-sys/littlefs/lfs.c:2895-2909 | The search loop lands exactly on the target block within the bound, following stored pointers only |
| CtzList.Find | crates/littlefs2-sys/littlefs/lfs.c:2882-2914 | `lfs_ctz_find` lands on the block and offset of a position in at most 2 log2(d) + 1 reads; an empty file gives the null block |
| CtzList.Traverse | crates/littlefs2-sys/littlefs/lfs.c:3016-3057 | `lfs_ctz_traverse` reports every block of the file exactly once, last first |
| CtzList.PushBlock | crates/littlefs2-sys/littlefs/lfs.c:2975-3004 | A block whose pointers name block n - 2^j for every j <= ctz(n) extends the skip list |
| CtzList.WritePointers | crates/littlefs2-sys/littlefs/lfs.c:2975-3004 | The pointer loop, reading each pointer from the block the previous one named, writes exactly those pointers |
| CtzList.CopyBytes | crates/littlefs2-sys/littlefs/lfs.c:2948-2973 | The used bytes of the last block are copied to the new one, and only that block changes |
| CtzList.ExtendInto | crates/littlefs2-sys/littlefs/lfs.c:2917-3013 | Extending into a good block keeps the file and its bytes, with a copied or a new last block |
| CtzList.Extend | crates/littlefs2-sys/littlefs/lfs.c:2917-3013 | Bad candidates are abandoned, the first good one is used, and only running out fails, leaving the file as it was |
| CtzList.RelocatedHeld | crates/littlefs2-sys/littlefs/lfs.c:3262-3330 | A copy of the last block up to the write offset can take its place in the list |
| CtzList.Relocate | crates/littlefs2-sys/littlefs/lfs.c:3262-3330 | `lfs_file_relocate` copies the block so far to the next candidate that takes it, and the file is as before |
| CtzList.ProgRetrying | crates/littlefs2-sys/littlefs/lfs.c:3619-3640 | Blocks that refuse the data are left for others until one takes it; it fails exactly when none is left that does |
| CtzList.PrefixIsFile | crates/littlefs2-sys/littlefs/lfs.c:3588-3600 | The blocks before a write position form a file of that length |
| CtzList.WriteLoop | crates/littlefs2-sys/littlefs/lfs.c:3583-3640 | The write loop stores the old bytes followed by the data, and succeeds exactly when as many candidates take data as the write needs blocks |
| CtzList.WriteAt | crates/littlefs2-sys/littlefs/lfs.c:3568-3640 | Before the flush, a write at a position, exactly when enough candidates take data, has built a list holding the old prefix and the data, while the old list still stores the old bytes |
| CtzList.WriteSpan | crates/littlefs2-sys/littlefs/lfs.c:3583-3640 | A write behind what was written since the last flush continues it: the new bytes follow, or fewer candidates take data than all of it needs blocks |
| CtzFile.ReadByte | crates/littlefs2-sys/littlefs/lfs.c:3498-3546 | Reading byte by byte, with a search at the start and at each new block only, returns the byte of the file at each position |
| CtzFile.FillGap | crates/littlefs2-sys/littlefs/lfs.c:3672-3684 | The gap between the end of the file and a later position is filled with zeros, one write each |
| CtzFile.CopyTail | crates/littlefs2-sys/littlefs/lfs.c:3368-3388 | The flush copies the bytes behind the data from the old list, which the writes have not touched, to the new one |
| CtzFile.WriteFile | crates/littlefs2-sys/littlefs/lfs.c:3346-3694 | A write at any position and its flush: byte for byte the new file is the data where it lies, the old file elsewhere and zeros in a gap; appending keeps the old file whole and, from inside it, puts the data right behind; it is refused exactly beyond the size limit and fails exactly when fewer candidates take data than gap, data and tail need blocks; an empty write inside the file changes nothing; the old list stores the old bytes in every case |
| BdRead.TurnValid | crates/littlefs2-sys/littlefs/lfs.c:54-122 | Every turn of the read loop, on whichever path, keeps the bytes read so far equal to the disk overlaid by the program cache, and the read cache coherent |
| BdRead.TurnProgress | crates/littlefs2-sys/littlefs/lfs.c:54-122 | When program units are multiples of read units every turn lowers the measure |
| BdRead.StuckIsStuck | crates/littlefs2-sys/littlefs/lfs.c:91-104 | Otherwise there is a call on which a turn changes nothing |
| BdRead.ReadAlwaysEndsIff | crates/littlefs2-sys/littlefs/lfs.c:44-125 | `lfs_bd_read` ends on every valid call with a positive hint if and only if the program size is a multiple of the read size, which initialisation does not check |
| BdRead.LoadReaches | crates/littlefs2-sys/littlefs/lfs.c:106-121 | A refill starts in the read unit of the byte wanted and goes on, in whole units, to the end of the hint, the block or the cache |
| BdCache.Bd.Read | crates/littlefs2-sys/littlefs/lfs.c:44-125 | From a coherent cache a success returns exactly the disk overlaid by the program cache; out of range is corrupt, and only then; it fails only when the device does, which it asks at most once for a byte; a failed device read leaves the cache coherent or labels old bytes as the window of some byte asked for; a read inside the window of any cache returns what it holds |
| BdCache.StaleReadIff | crates/littlefs2-sys/littlefs/lfs.c:76-88 | Such a read returns the bytes the disk holds at the same place of the window before, and is right if and only if they equal those asked for |
| BdCache.WrongRead | crates/littlefs2-sys/littlefs/lfs.c:76-125 | For any two blocks that differ in their first byte: after a read of one and a failed load for the other, reading the other gives the byte of the first |
| BdCache.Bd.Matches | crates/littlefs2-sys/littlefs/lfs.c:127-152 | `lfs_bd_cmp` agrees with comparing the disk contents and fails only when the device does |
| BdCache.Bd.Flush | crates/littlefs2-sys/littlefs/lfs.c:176-207 | A flush puts the aligned window on the disk; with validation success means the device stored it; it fails only for want of a program or a checking read, and is corrupt only with validation and a device that stored something else; then the window is kept |
| BdCache.Bd.Sync | crates/littlefs2-sys/littlefs/lfs.c:211-223 | A sync leaves a coherent read cache and an empty program cache, and fails only as a flush does |
| BdCache.Bd.SyncAppended | crates/littlefs2-sys/littlefs/lfs.c:211-223 | After programming in sequence a sync makes the disk equal to the logical view |
| BdCache.Bd.ProgTurn | crates/littlefs2-sys/littlefs/lfs.c:235-268 | One turn of programming extends the view by the bytes it took |
| BdCache.Bd.Prog | crates/littlefs2-sys/littlefs/lfs.c:227-271 | Programming makes the data part of the logical view and leaves every other byte of every block; it fails only when the device runs out of programs, of reads to check them, or stores something else |
| BdCache.FlushedView | crates/littlefs2-sys/littlefs/lfs.c:176-207 | Flushing a window over erased bytes changes no view, padding included |
| BdCache.ProgrammedThen | crates/littlefs2-sys/littlefs/lfs.c:227-271 | Programming in pieces is programming at once |
| GlobalState.CommitBalances | crates/littlefs2-sys/littlefs/lfs.c:2295-2334 | Writing out what is pending turns the committed state into the current one, but for what was lost before |
| GlobalState.StepInv | crates/littlefs2-sys/littlefs/lfs.c:2041-2087 | Every commit, also to a pair that is waiting to be replaced, and every compaction, relocation, split and drop keeps: XOR of the deltas of the pairs to be linked, with what was stolen, is `gdisk` but for what was lost, and every waiting pair knows the pairs it replaces |
| GlobalState.CommitKeepsIff | crates/littlefs2-sys/littlefs/lfs.c:2469-2600 | A commit loses nothing of the state if and only if its pair is not waiting to be replaced or dropped, or nothing is pending |
| GlobalState.ShownIs | crates/littlefs2-sys/littlefs/lfs.c:4614-4629 | In every such state the XOR over the pairs linked now is `gdisk` but for exactly what was lost and what the waiting pairs hold beyond those they replace |
| GlobalState.WithheldKept | crates/littlefs2-sys/littlefs/lfs.c:2041-2600 | What a waiting pair withholds changes exactly by what is committed to a pair it will replace |
| GlobalState.MovedWithholds | crates/littlefs2-sys/littlefs/lfs.c:2041-2087 | A moved pair passes on what it withholds, and one moved off the list withholds nothing |
| GlobalState.StagedWithholds | crates/littlefs2-sys/littlefs/lfs.c:1876-1903 | A staged pair withholds exactly the change from the committed to the current state |
| GlobalState.ShownAfter | crates/littlefs2-sys/littlefs/lfs.c:2041-2600 | After any run, cut at any step, a mount finds `gdisk` but for exactly what is lost and what is withheld |
| GlobalState.SettledIff | crates/littlefs2-sys/littlefs/lfs.c:2041-2600 | After any run that leaves nothing waiting, a mount finds `gdisk` if and only if what was lost cancels out |
| GlobalState.StepShownIff | crates/littlefs2-sys/littlefs/lfs.c:1876-1903 | With nothing withheld or lost before, a mount finds `gdisk` after a step if and only if the step stages no pair with a change of state and commits none to a pair it takes off the list |
| GlobalState.Conservation | crates/littlefs2-sys/littlefs/lfs.c:4614-4629 | After every commit, compaction, nested relocation and drop, with any of the waiting pairs linked by any commit, wherever the run is cut, the XOR over the linked pairs is `gdisk`, so a mount recovers exactly that, as long as no step stages or loses a change of state |
| GlobalState.SplitShown | crates/littlefs2-sys/littlefs/lfs.c:1876-1903 | From a split on, also one whose own compaction moves the pair, a mount finds what it found before, until a commit links all that waits; then it finds what that commit committed, but for exactly what was lost |
| GlobalState.Mount | crates/littlefs2-sys/littlefs/lfs.c:4537-4629 | The mount fold returns the XOR of the deltas along the tail list, one orphan exactly with the flag, and what the last superblock found says |
| GlobalState.MoveReadsBack | crates/littlefs2-sys/littlefs/lfs.c:4902-4909 | The bits a prepared move sets, type, id and both block numbers, read back as that move |
| GlobalState.Lfs.PrepMoveState | crates/littlefs2-sys/littlefs/lfs.c:4902-4909 | The state then holds exactly this move, or none for the id 0x3ff, and the orphan flag as before |
| GlobalState.Lfs.PrepOrphansState | crates/littlefs2-sys/littlefs/lfs.c:4890-4899 | The orphan flag is set exactly when orphans or an old superblock remain, and the move is as before |
| GlobalState.Lfs.PrepSuperblockState | crates/littlefs2-sys/littlefs/lfs.c:4884-4887 | Nothing that reaches the disk changes |
| GlobalRuns.MoveRecovered | crates/littlefs2-sys/littlefs/lfs.c:4902-4909 | After any run that ends settled with nothing lost, a mount finds the move prepared last before the last commit, by id and pair, or none if that cleared it |
| GlobalRuns.MoveKept | crates/littlefs2-sys/littlefs/lfs.c:4902-4909 | With none prepared before the last commit it finds the one of the start |
| GlobalRuns.OrphansRecovered | crates/littlefs2-sys/littlefs/lfs.c:4890-4899 | And the orphan flag if and only if orphans or an old superblock were left when the count was last changed before the last commit |
| GlobalState.Lfs.StealState | crates/littlefs2-sys/littlefs/lfs.c:1855-1872 | Dropping a pair takes its delta over into RAM |
| GlobalState.Lfs.CommitState | crates/littlefs2-sys/littlefs/lfs.c:2295-2334 | A commit writes the pending delta, or nothing when nothing is pending, and balances the books |
| GlobalState.Lfs.CompactState | crates/littlefs2-sys/littlefs/lfs.c:2041-2087 | A compaction carries the delta of the rewritten pair on, whether or not it moves |
| Crc.CrcConcat | crates/proto/src/crc.rs:18-52 | Continuing any CRC over more data is the CRC of the whole, for every polynomial and register |
| Crc.SerialCrc | crates/proto/src/crc.rs:3-50 | The nested bit loops compute the CRC of the message for every polynomial and seed |
| Crc.Crc32Ieee | crates/proto/src/crc.rs:18-31 | `crc32_ieee` is the register from all ones, inverted |
| Crc.RowCorrect | crates/littlefs2-sys/littlefs/lfs_util.c:18-23 | Every row of the nibble table holds what its four bits add to the register |
| Crc.TableByte | crates/littlefs2-sys/littlefs/lfs_util.c:27-30 | Two table rows do what eight shifts do |
| Crc.LfsCrc | crates/littlefs2-sys/littlefs/lfs_util.c:17-33 | The nibble-table CRC equals the bit-serial one for every register and message |
| Crc.LfsIeee | crates/littlefs2-sys/littlefs/lfs_util.c:17-33 | `lfs_crc` from all ones, inverted, is `crc32_ieee` |
| Crc.Annihilates | crates/littlefs2-sys/littlefs/lfs.c:1788-1804 | Trailing bytes take a register to zero exactly when they spell it, little-endian |
| Crc.StoredCrc | crates/littlefs2-sys/littlefs/lfs.c:1788-1804 | A message with a stored CRC word behind it checks to zero if and only if the word is its CRC |
| Crc.OctetBit | crates/proto/src/fw_upg.rs:90-97 | Eight CCITT shifts in closed form, bit by bit |
| Crc.ParallelByte | crates/proto/src/fw_upg.rs:91-95 | The byte formula of the upgrade protocol is eight shifts |
| Crc.ParallelCrc16 | crates/proto/src/fw_upg.rs:90-97 | The byte-parallel CRC-16 equals the bit-serial one for every seed and message |
| Nor.AndBit | crates/firmware/src/w25q.rs:156-171 | What a program leaves in a byte, bit by bit: a bit stays set exactly when it was set and is written as set |
| Nor.ProgrammedAt | crates/firmware/src/w25q.rs:156-171 | A program clears bits in its range and changes nothing else |
| Nor.ProgramBlank | crates/firmware/src/w25q.rs:156-171 | On erased bytes a program stores exactly its data |
| Nor.ProgramConcat | crates/firmware/src/w25q.rs:156-171 | Programming in two pieces is programming at once |
| Nor.EraseExact | crates/firmware/src/w25q.rs:184-203 | The greedy 64/32/4 KiB decomposition erases a leading part of the range and nothing else: all of it exactly when the device carries out as many commands as it has blocks, none exactly when it carries out none |
| Nor.EraseCut | crates/firmware/src/w25q.rs:184-203 | An erase succeeds exactly when all its commands are reported as done; the range is wiped exactly when all are carried out, else a leading part short of the last sector, and none of it if none is |
| Nor.EraseSucceeds | crates/firmware/src/w25q.rs:184-203 | A device that reports enough steps as done erases the whole range |
| Nor.W25q.Read | crates/firmware/src/w25q.rs:134-153 | A read succeeds exactly inside the chip and returns its bytes |
| Nor.W25q.Write | crates/firmware/src/w25q.rs:156-171 | A write crossing a 256-byte page or the end of the 16 MiB chip is refused without effect; an empty one succeeds without effect |
| Nor.W25q.Erase | crates/firmware/src/w25q.rs:184-203 | The erase loop follows the decomposition block by block; a range that is empty, not made of 4 KiB sectors or beyond the chip is refused without effect |
| Nor.W25q.WriteAny | crates/firmware/src/storage.rs:339-352 | For every range, cutting a write at page ends is one flat program of what lies inside the chip, up to the step that is not carried out; it succeeds exactly when all lies inside and no step is reported as failed, done or not |
| ConfigStore.FromToBytes | crates/proto/src/config_store.rs:60-98 | The 13 words survive packing and unpacking |
| ConfigStore.FromBytesInjective | crates/proto/src/config_store.rs:83-98 | Different bytes are different configurations |
| ConfigStore.RoundTrip | crates/proto/src/config_store.rs:168-194 | What `encode_record` wrote `decode_record` returns, generation included |
| ConfigStore.PackWords | crates/proto/src/config_store.rs:77-79 | The packing loop is the little-endian concatenation |
| ConfigStore.EncodeRecord | crates/proto/src/config_store.rs:168-177 | The record is magic, generation, length, words and CRC in that layout |
| ConfigStore.FieldPlaces | crates/proto/src/config_store.rs:60-98 | Where each of the 13 settings, the magic, the generation and the length lie in a record, byte by byte |
| ConfigStore.TornHeader | crates/proto/src/config_store.rs:198-214 | A record cut inside its header is never valid |
| ConfigStore.TornSum | crates/proto/src/config_store.rs:198-214 | A record cut inside its checksum is valid only when nothing is missing |
| ConfigStore.TornIff | crates/proto/src/config_store.rs:11-12 | A torn record reads as nothing or as the whole record if and only if its torn body does not collide with the erased checksum |
| Collision.Steer | crates/proto/src/crc.rs:18-31 | Between any bytes in front and behind, the bytes of some word as wide as the register bring it to zero |
| Collision.TornCollides | crates/proto/src/config_store.rs:11-12 | At every generation and every cut behind four field bytes there is a configuration whose torn record decodes to another configuration |
| ConfigStore.SlotErase | crates/firmware/src/w25q.rs:184-203 | A configuration slot is one erase command, so its erase is all or nothing |
| ConfigStore.SaveEffect | crates/firmware/src/storage.rs:438-459 | Erase and write fill the target slot up to the failing step and leave the other slot |
| ConfigStore.Store.BootConfigLoad | crates/firmware/src/storage.rs:364-394 | Boot loads the slot with the higher generation, A on a tie, a valid one before an invalid or unreadable one, else the defaults; each read may fail on its own |
| ConfigStore.Store.ConfigStoreInit | crates/proto/src/config_store.rs:138-165 | The other entry makes the same choice, and reports a failed read |
| ConfigStore.Store.WriteRecord | crates/proto/src/config_store.rs:209-213 | The three writes act as one program of the record |
| ConfigStore.Store.CfgSave | crates/firmware/src/storage.rs:438-459 | The target gets as much of the record as the device carries out, the other slot is untouched, and slot and generation move on exactly when every step was reported as done |
| ConfigRuns.FreshInv | crates/proto/src/config_store.rs:138-165 | A device with both slots erased starts inside the invariant, with the defaults as the configuration it must load |
| ConfigRuns.SavedViewOfRecord | crates/firmware/src/storage.rs:438-459 | The view the run theorems speak of is what the save leaves in the slot |
| ConfigRuns.AckedIsGood | crates/firmware/src/storage.rs:438-459 | The saves the run theorems call acknowledged are those `CfgSave` reports as done; one that was carried out and reported as failed is not |
| ConfigRuns.BootRefines | crates/firmware/src/storage.rs:364-394 | What `BootConfigLoad` does to a readable chip is the boot of the run theorems |
| ConfigRuns.SaveRefines | crates/firmware/src/storage.rs:438-459 | What `CfgSave` leaves on the chip and in RAM is the save of the run theorems |
| ConfigRuns.SeesIff | crates/firmware/src/storage.rs:364-388 | A boot makes the choice it should if and only if the slot with the newest record is read |
| ConfigRuns.BootLoads | crates/firmware/src/storage.rs:364-394 | In every invariant state a boot that reads the newest record loads the last acknowledged or booted configuration or a later one |
| ConfigRuns.StepInv | crates/firmware/src/storage.rs:438-459 | Every save, stopped after any device step or reported as failed after its last, and every boot that reads the newest record keep the invariant |
| ConfigRuns.RunRamOk | crates/firmware/src/storage.rs:364-459 | After any run at all, whatever was read when, the state in RAM is the generation of its slot |
| ConfigRuns.FullSaveSettles | crates/firmware/src/storage.rs:438-459 | After any boots, a save that outdates the other slot puts the store back into the invariant |
| ConfigRuns.AcknowledgedSurvives | crates/proto/src/config_store.rs:138-215 | Once such a save is acknowledged, every boot after any run loads it or one whose save began later, never anything older or mixed |
| ConfigRuns.BootsAreMonotone | crates/firmware/src/storage.rs:364-394 | What one boot loads no later boot replaces by anything tried before it |
| ConfigRuns.LoadsAcknowledgedIff | crates/firmware/src/storage.rs:438-459 | After any boots, an acknowledged save is what the next readable boot loads if and only if the 32-bit generation did not wrap and RAM knew the other record or none in slot B beats generation 1 |
| ConfigRuns.BootSafeIff | crates/firmware/src/storage.rs:364-394 | In every invariant state: no run after a boot goes back behind the generation it should have chosen, if and only if it reads the newest record or missing it is harmless, which is at generation 0, and at generation 1 when slot B holds one and is not written next |
| ConfigRuns.FirstSaveMissed | crates/firmware/src/storage.rs:364-394 | After the first save a boot that cannot read it is not safe |
| ConfigRuns.UnreadableBootLoses | crates/firmware/src/storage.rs:367-388 | Generations 8 and 7, a boot that reads neither, an acknowledged save: the next boot loads generation 7 |
| Tlv.WalkTlv | crates/proto/src/fw_upg.rs:62-86 | The walk loop is the specified search |
| Tlv.WalkFindsKeyhash | crates/proto/src/fw_upg.rs:62-86 | Over any encoded block, whatever follows it, the walk returns the first key-hash entry, or nothing if there is none |
| FwUpgrade.FlushLive | crates/firmware/src/fw.rs:58-70 | A page of a live session fits its flash page, finds it erased, and is stored whole unless the device stops |
| FwUpgrade.PutLive | crates/firmware/src/fw.rs:108-135 | `write` takes all data in order, with whole pages flashed and erased bytes behind, or the device failed and a prefix is on the flash |
| FwUpgrade.PutSucceeds | crates/firmware/src/fw.rs:108-135 | Only the device can refuse a page of a live session |
| FwUpgrade.PutBehind | crates/firmware/src/fw.rs:108-135 | A write never touches the slot beyond the announced size |
| FwUpgrade.StartLive | crates/firmware/src/fw.rs:77-106 | A started session has a clean slot, has accepted nothing and leaves the rest of the chip |
| FwUpgrade.StartErases | crates/firmware/src/fw.rs:77-106 | A start that passes its checks succeeds exactly when seven erase commands are reported as done; one that fails has wiped the front of the slot only, all of it exactly when all seven were carried out, none exactly when none was |
| FwUpgrade.StartIff | crates/firmware/src/fw.rs:77-106 | Each answer of `start` exactly: a session begins if and only if none runs, the size is 64 bytes to the slot, the key hash is left out or ours, and all erase commands are reported as done; a running session is never disturbed |
| FwUpgrade.WriteIff | crates/firmware/src/fw.rs:108-135 | Data past the announced size is refused and fails the session; data that fits is accepted while the device works |
| FwUpgrade.FailedStays | crates/firmware/src/fw.rs:108-165 | A failed, idle or aborted session takes nothing and cannot be finished |
| FwUpgrade.AbortClears | crates/firmware/src/fw.rs:137-145 | Giving up forgets what was received, leaves the flash, and the next start begins clean |
| FwUpgrade.FinishIff | crates/firmware/src/fw.rs:149-239 | `finish` succeeds exactly when the whole image was accepted, flushed, readable, CRC-correct and signed with the key hash; then the flash holds exactly the accepted bytes |
| FwImage.HeaderIff | crates/proto/src/fw_upg.rs:36-57 | A header leads to the TLV block behind the body if and only if its magic and header size are the expected ones and the body ends aligned |
| FwImage.RefusedIff | crates/proto/src/fw_upg.rs:36-57 | Exactly the headers under 16 bytes and the unexpected ones are refused |
| FwImage.ImageIff | crates/firmware/src/fw.rs:243-264 | An image of header, body and any TLV block that fits the slot passes the key-hash test if and only if the header is expected, the block fits the 512-byte read and its first key hash is the device's |
| FwImage.ImageAcceptedIff | crates/firmware/src/fw.rs:149-239 | `finish` accepts such an image if and only if in addition all of it arrived, could be flushed and read back, and has the announced CRC |
| FwUpgrade.CountAfterFinishIff | crates/firmware/src/fw.rs:147-282 | After `finish`, of a live, failed or idle session, the total reads 0, and the count reads 0 if and only if nothing was flashed and nothing buffered, or the lone buffered page was lost because the device stopped |
| FwUpgrade.CountSurvives | crates/firmware/src/fw.rs:147-282 | A start, 64 bytes and a `finish`, whatever it answers, leave the count at 64 |
| FwTrailer.TrailerReadsBack | crates/firmware/src/fw.rs:294-314 | On an erased trailer a successful call leaves the magic in the last 16 bytes, image-ok 1 or erased, copy-done erased, and swap type 3 or 2, at their addresses |
| FwTrailer.TrailerFrame | crates/firmware/src/fw.rs:294-314 | Writing the trailer never touches what is below it, even when it fails |
| FwTrailer.TrailerIntact | crates/firmware/src/fw.rs:294-314 | After a verified image that ends below the trailer both image and trailer are intact |
| FwTrailer.ImageReceived | crates/firmware/src/fw.rs:77-135 | A working device starts, erases and takes any image of an admitted size whole |
| FwTrailer.TrailerSpoiled | crates/firmware/src/fw.rs:85-88 | For every larger size there is an image which any idle session on a working device starts, takes, verifies and marks, and whose trailer is then not there |
| FwTrailer.TrailerIff | crates/proto/src/fw_upg.rs:111-133 | The trailer survives for every image of a size if and only if that size is at most `swap_info_off()` |
| FwRuns.InitialInv | crates/firmware/src/fw.rs:40-47 | After power-up every run starts inside the invariant; for images below the trailer, exactly when the trailer is erased |
| FwRuns.PendingInv | crates/firmware/src/fw.rs:40-47 | So it does with a pending trailer, when the slot holds the image it was written for |
| FwRuns.StepInv | crates/firmware/src/fw.rs:77-239 | Every command, with the device failing anywhere, keeps the session invariant, unless an erase over a pending image stops part way |
| FwRuns.AcceptedIsLog | crates/firmware/src/fw.rs:108-135 | In every run the received bytes are exactly the bytes written since the start, `written` is a multiple of 256, and after a failure a prefix remains |
| FwRuns.NoUnverifiedUpgrade | crates/firmware/src/net.rs:445-459 | With images below the size of the slot, in every state of every run, with the device stopping anywhere, cut erases included, a boot magic means that an image passed `finish` since the last start |
| FwRuns.VouchedIff | crates/firmware/src/fw.rs:85-88 | From power-up with an erased trailer, that holds for all runs with images of at most a given size if and only if the size is below that of the slot |
| FwRuns.WholeSlotMagic | crates/firmware/src/fw.rs:77-135 | Failing run: after START and DATA with an image as large as the slot that ends in the magic, the magic is there although nothing passed `finish` |
| FwRuns.MagicOnlyUnsigned | crates/firmware/src/fw.rs:243-264 | Zeros and the magic are such an image, and the key-hash test of `finish` would reject it |
| FwRuns.StepSafeIff | crates/firmware/src/fw.rs:85-99 | With images of at most `swap_info_off()` bytes: after one command a boot magic means the slot holds a complete verified image, if and only if it is not a start over a pending image whose erase gets through one to six of its seven commands |
| FwRuns.RunSafeIff | crates/firmware/src/net.rs:445-459 | With images of at most `swap_info_off()` bytes: all states of a run are safe in that sense if and only if it contains no such start |
| FwRuns.LongImageSpoiled | crates/firmware/src/fw.rs:294-314 | For every larger size there is an image which any idle session on a working device takes, verifies and marks, and whose bytes the trailer then changes |
| FwRuns.SafeIff | crates/proto/src/fw_upg.rs:111-133 | All runs without such a start, with images of at most a given size, are safe if and only if the size is at most `swap_info_off()` |
| FwRuns.PendingReached | crates/firmware/src/fw.rs:77-314 | Start, the whole image and END on a working device make it pending, in a state the run theorems start from |
| FwRuns.CutEraseRun | crates/firmware/src/w25q.rs:184-203 | From any idle session: an upgrade that is pending, another start, and a device that stops after one to six erase commands, the last reported as done or not, leave the magic and no image |
| FwRuns.GoBackN | crates/firmware/src/net.rs:423-443 | For any loss, repetition or reordering of packets cut from one image the accepted bytes are a prefix of it, and the reported count is its length |
| FwRuns.RetransmitAccepted | crates/firmware/src/net.rs:423-443 | The packet at the reported count is taken whole, however the session got there |
| FwRuns.TransferCompletes | crates/firmware/src/net.rs:423-443 | A sender that goes on from the reported count, however it cuts the rest, gets the whole image accepted on a working device |
| FwSession.Fw.PageFlush | crates/firmware/src/fw.rs:58-70 | One page program at the write position; the buffer is emptied whether or not it succeeds |
| FwSession.Fw.Start | crates/firmware/src/fw.rs:77-106 | Return codes and state in the order of the checks |
| FwSession.Fw.FillPage | crates/firmware/src/fw.rs:119-132 | One turn of the loop continues the specified write |
| FwSession.Fw.Write | crates/firmware/src/fw.rs:108-135 | The page loop is the specified write; a write past the total fails the session |
| FwSession.Fw.Abort | crates/firmware/src/fw.rs:137-145 | The session is given up and the count reset |
| FwSession.Fw.ReadBack | crates/firmware/src/fw.rs:186-213 | The 64-byte readback computes the CRC of the flashed image |
| FwSession.Fw.TlvKeyhashOk | crates/firmware/src/fw.rs:243-264 | The key-hash test on the flash, with the wrapping 32-bit sums of the source |
| FwSession.Fw.Finish | crates/firmware/src/fw.rs:149-239 | Flush, size, readback, CRC and key hash as specified |
| FwSession.Fw.BootSetPending | crates/firmware/src/fw.rs:294-314 | Magic, image-ok when permanent, swap-info, stopping at a failure |
| FwSession.Fw.WriteChunks | crates/firmware/src/net.rs:429-438 | A packet is written in pages, results ignored |
| FwSession.Fw.FwUdpCmd | crates/firmware/src/net.rs:377-462 | Replies and state changes of START, DATA, DATA_V2 and END; the trailer follows a successful finish only; a malformed or foreign command changes nothing |
| CivilTime.DateOfDays | crates/proto/src/time_math.rs:28-50 | Every valid date, of any year, is the date of its day number |
| CivilTime.DaysOfDate | crates/proto/src/time_math.rs:28-50 | Every day number has a valid date and is the day number of that date |
| CivilTime.CivilOfNextDay | crates/proto/src/time_math.rs:39-50 | The date of the next day number is the next day of the Gregorian calendar |
| CivilTime.Epoch | crates/proto/src/time_math.rs:39-50 | Day 0 is 1970-01-01 |
| CivilTime.CivilIsCalendar | crates/proto/src/history.rs:107-118 | The conversion counts days in the calendar over any distance |
| CivilTime.DatesGrow | crates/proto/src/time_math.rs:39-50 | Dates order as their day numbers do |
| CivilTime.UnixRoundTrip | crates/proto/src/time_math.rs:52-69 | Every 32-bit timestamp survives the way through its civil time |
| CivilTime.CivilRoundTripIff | crates/proto/src/time_math.rs:52-69 | A valid civil time survives the way through its timestamp if and only if it lies in the 32-bit range |
| History.MakeHistName | crates/proto/src/history.rs:121-141 | The buffer filled digit by digit is the specified name |
| History.NameSpells | crates/proto/src/history.rs:96-141 | A name spells month, day and time of day eight hours ahead of UTC, always a real date, so that nothing is ever clamped |
| History.NameOfLess | crates/proto/src/history.rs:121-141 | Names order as the numbers they spell |
| History.NamesOrderByPlace | crates/proto/src/history.rs:121-141 | Names order exactly by month, day and time in UTC+8 |
| History.NameOrderIff | crates/firmware/src/storage.rs:668-674 | Of two timestamps the earlier has the smaller name if and only if both fall in one UTC+8 year or it also comes earlier in its year |
| History.NameOrderWithinYear | crates/firmware/src/storage.rs:668-674 | Within one UTC+8 year name order is time order |
| History.NewYearNames | crates/firmware/src/storage.rs:668-674 | Across New Year it is not: one second later the name is smaller |
| HistoryFiles.ListNames | crates/firmware/src/storage.rs:652-664 | The list holds the first twelve history files in reading order, each name cut to 23 bytes; later ones are lost |
| HistoryFiles.IsDataIff | crates/firmware/src/storage.rs:657-658 | A history file is one whose name goes on after `data_` |
| HistoryFiles.BufferLess | crates/firmware/src/storage.rs:669-674 | The zero-padded 24-byte buffers the scan compares order as the names do |
| HistoryFiles.SmallestLeast | crates/firmware/src/storage.rs:669-674 | The scan finds a name that no listed one is smaller than |
| HistoryFiles.ListShared | crates/firmware/src/storage.rs:667-691 | Of the listed names none is lost, ten stay, and none that is tried for removal is newer by name than one that stays |
| HistoryFiles.CleanupOldFiles | crates/firmware/src/storage.rs:651-691 | The loops remove exactly the specified files, for every directory and every set of removals that work |
| HistoryFiles.StayingCount | crates/firmware/src/storage.rs:651-691 | Whatever the directory, at most two files go, and all that are tried go exactly when each is another file whose removal works |
| HistoryFiles.TidyIff | crates/firmware/src/storage.rs:651-691 | At most ten history files stay and none that is gone is newer by name than one that stays, if and only if there are at most twelve and each removal is carried out |
| HistoryFiles.TwelveFilesIff | crates/firmware/src/storage.rs:652-664 | With names that fit and removals that work, twelve files is the exact bound; beyond it each cleanup takes two files away |
| HistoryFiles.UnseenOlderStays | crates/firmware/src/storage.rs:652-664 | Beyond it, a file older than all that are listed stays while newer ones go |
| HistoryFiles.ThirteenFiles | crates/firmware/src/storage.rs:652-664 | A directory of thirteen files where eleven stay, the oldest among them |
| History.HisRoundTripIff | crates/proto/src/history.rs:52-93 | The stored part of a record reads back as the record if and only if it is an AI record or a DI record with unused values zero |
| History.RecordStored | crates/proto/src/history.rs:43-65 | Ten bytes of a DI record are stored, sixteen of any other, each value at its place |
| WebSocket.ChunkingIrrelevant | crates/proto/src/ws.rs:233-327 | However the stream is cut into calls, parsing ends the same |
| WebSocket.XorByteBit | crates/proto/src/ws.rs:305-309 | Unmasking is the exclusive or, bit by bit |
| WebSocket.FrameParsed | crates/proto/src/ws.rs:233-327 | A frame with a payload is reported exactly, unmasked, and the parser is ready for the next |
| WebSocket.MaskedFrameRead | crates/proto/src/ws.rs:300-322 | Whatever bytes travel in a masked frame, payload byte k is wire byte k combined with mask byte k % 4 |
| WebSocket.HelloFrame | crates/proto/src/ws.rs:370-394 | The masked frame of section 5.7 of RFC 6455 reports "Hello" |
| WebSocket.StuckForever | crates/proto/src/ws.rs:300-322 | Inside a frame of length zero nothing is ever reported, and the session closes when the buffer is full |
| WebSocket.FramesReportedIff | crates/proto/src/ws.rs:233-327 | For every list of frames and every cutting the reported frames are the sent ones if and only if no payload is empty |
| WebSocket.LongLengthIff | crates/proto/src/ws.rs:272-291 | A 64-bit length is refused by its low 32 bits only |
| WebSocket.Session.FeedHeader | crates/proto/src/ws.rs:236-255 | Two header bytes set flags, opcode, mask flag and the next state as specified |
| WebSocket.Session.FeedLen64 | crates/proto/src/ws.rs:272-291 | Eight bytes shifted together, cut to 32 bits, decide between closing and going on |
| WebSocket.Session.FeedPayload | crates/proto/src/ws.rs:300-323 | A payload byte is stored unmasked and the last one reports the frame |
| WebSocket.Session.Feed | crates/proto/src/ws.rs:233-327 | The byte loop is the specified parser and stops at the byte that closes the session |
| WebSocket.WsFrameHdr | crates/proto/src/ws.rs:158-176 | The header is the specified one |
| WebSocket.ServerFrameEncodes | crates/proto/src/ws.rs:158-176 | Up to the payload limit a server frame is the encoder's, so it parses back |
| WebSocket.AnnouncedIff | crates/proto/src/ws.rs:158-176 | The header announces the length of its payload if and only if that fits 16 bits, because the shift amounts wrap on the 32-bit target |
| MbTcpStream.ReadsFrames | crates/firmware/src/mbtcp.rs:83-141 | Byte by byte the reader finds exactly the frames of the stream, max(8, 6 + min(len, 256)) bytes each, and keeps its incomplete end |
| MbTcpStream.TakePiece | crates/firmware/src/mbtcp.rs:108-116 | A bulk copy of up to the wanted bytes acts like its bytes one by one |
| MbTcpStream.ReadsIrrelevant | crates/firmware/src/mbtcp.rs:87-141 | The frames handed to the decoder depend on the stream alone, not on the reads |
| MbTcpStream.Connection.TakeTurn | crates/firmware/src/mbtcp.rs:107-137 | Every inner turn takes at least one byte and the buffer never holds more than 262 |
| MbTcpStream.Connection.ServeRead | crates/firmware/src/mbtcp.rs:106-137 | The inner loop over one read is the specified reader |
| RegMap.SetBitAt | crates/proto/src/regmap.rs:163-181 | Writing one DO bit sets that bit and no other |
| RegMap.WriteHoldingInv | crates/proto/src/regmap.rs:127-160 | A holding write keeps the driven outputs equal to the register and the trigger registers at rest |
| RegMap.WriteDoBitInv | crates/proto/src/regmap.rs:163-181 | So does a bit write |
| RegMap.CoilReadsBack | crates/proto/src/regmap.rs:163-189 | A coil reads back as last written and the others keep their state |
| RegMap.TriggersFireOnce | crates/proto/src/regmap.rs:145-157 | A write calls save (reboot) exactly once if it writes a nonzero value to the trigger register, and otherwise not at all |
| MbDecoder.RegFile.IoWriteHolding | crates/proto/src/regmap.rs:127-160 | The register file and its hook log change as specified; a write of the same value has no effect |
| MbDecoder.RegFile.IoWriteDoBit | crates/proto/src/regmap.rs:163-181 | The DO register is cut to a byte and driven |
| MbServer.BitOfReply | crates/proto/src/mb_server.rs:115-169 | Bit i of an FC01 or FC02 reply is bit addr+i of the register, and the padding is zero |
| MbServer.ProcessInv | crates/proto/src/mb_server.rs:77-106 | No PDU separates the outputs from their register or leaves a trigger set |
| MbServer.MultipleIsSingleIff | crates/proto/src/mb_server.rs:294-331 | An FC15 request has the effect of the same FC05 requests in order if and only if the addresses do not run past the address space |
| MbServer.ProcessCounts | crates/proto/src/mb_server.rs:67-106 | Every PDU counts once as bus and server message, never as unanswered, unless it clears the counters |
| MbReplies.HoldingReply | crates/proto/src/mb_server.rs:171-201 | FC03 answers with the code of the first fault, or with a reply whose word i is holding register addr + i, the clock live, and changes no register |
| MbReplies.InputReply | crates/proto/src/mb_server.rs:203-227 | FC04 likewise for the input registers |
| MbCoils.CoilReply | crates/proto/src/mb_server.rs:115-141 | FC01 answers the code of the first fault, or bits that are the coils asked for, from holding register 0, padded with zeros; no register changes |
| MbCoils.DiscreteReply | crates/proto/src/mb_server.rs:143-169 | FC02 the same for the sixteen inputs in input register 5 |
| MbCoils.CoilRoundTrip | crates/proto/src/mb_server.rs:229-249 | A coil written by FC05 is what FC01 reads, on for any value but zero; the others are as before; a missing one is refused |
| MbCoils.WordWritten | crates/proto/src/mb_server.rs:251-270 | FC06 stores the word it was sent, echoes the request and touches nothing else; a missing register is refused |
| MbCoils.CoilsServed | crates/proto/src/mb_server.rs:294-331 | Each answer of FC15 exactly, for any quantity and number of bytes |
| MbCoils.CoilsRoundTrip | crates/proto/src/mb_server.rs:294-331 | Coils written by FC15 read back through FC01 as they were sent, lowest bit first |
| MbCoils.WordsServed | crates/proto/src/mb_server.rs:333-373 | Each answer of FC16 exactly, for any quantity and number of bytes: the quotient it tests lets up to a third too many bytes pass |
| MbCoils.Refused | crates/proto/src/mb_server.rs:77-113 | An unserved function code gets exception 1, a served one of the wrong length no reply, and neither changes a register |
| MbCoils.EchoQuery | crates/proto/src/mb_server.rs:272-292 | FC08 echoes sub-function 0 and answers exception 1 to an unserved one |
| MbCoils.HistorySwitched | crates/proto/src/regmap.rs:127-146 | The history hook runs with what the register says from then on, if and only if the register changes |
| MbCoils.ClockSetIff | crates/proto/src/regmap.rs:142-146 | FC16 over both time words sets the clock, to exactly the value sent, if and only if the low word differs from the one written last |
| MbReplies.WriteRegsStores | crates/proto/src/mb_server.rs:333-373 | FC16 stores every register of its range that exists, touches none outside it, and succeeds exactly when all exist |
| MbReplies.WriteReadsBack | crates/proto/src/mb_server.rs:333-373 | FC16 and then FC03 reads back every word as written, but for the clock, which runs on, and the triggers, which rest |
| MbReplies.CountersCount | crates/proto/src/mb_server.rs:77-106 | Over every run of requests without a clear the counters grow by the requests and the exception replies, up to saturation |
| MbReplies.CountersTell | crates/proto/src/mb_server.rs:272-292 | After a clear, each FC08 sub-function reads back how many requests came, or how many of them got an exception, or zero |
| MbReplies.TriggersFireAsRequested | crates/proto/src/regmap.rs:127-160 | Over every run of requests save and reboot are called exactly as often as the requests write a nonzero value to their trigger registers |
| MbDecoder.GatherBits | crates/proto/src/mb_server.rs:124-140 | The bit loop with its wrapping address fails exactly when a requested bit does not exist, and packs the bits as specified |
| MbDecoder.Decoder.ReadBitsNow | crates/proto/src/mb_server.rs:115-169 | FC01 and FC02: silence, exceptions and reply |
| MbDecoder.Decoder.Fc03Now | crates/proto/src/mb_server.rs:171-201 | Holding registers with live time, quantity and area limits |
| MbDecoder.Decoder.Fc04Now | crates/proto/src/mb_server.rs:203-227 | Input registers with their limits |
| MbDecoder.Decoder.Fc05Now | crates/proto/src/mb_server.rs:229-249 | Any nonzero value is ON; the request is echoed |
| MbDecoder.Decoder.Fc06Now | crates/proto/src/mb_server.rs:251-270 | One register with its side effects |
| MbDecoder.Decoder.Fc08Now | crates/proto/src/mb_server.rs:272-292 | Echo, clear, or one of the five counters |
| MbDecoder.Decoder.WriteCoilsNow | crates/proto/src/mb_server.rs:313-326 | The shifted data byte drives the coils in order up to the first missing one |
| MbDecoder.Decoder.Fc15Now | crates/proto/src/mb_server.rs:294-331 | Length and quantity tests, then the coils |
| MbDecoder.Decoder.WriteRegsNow | crates/proto/src/mb_server.rs:361-370 | The registers in order up to the first missing one |
| MbDecoder.Decoder.Fc16Now | crates/proto/src/mb_server.rs:333-375 | The quotient test the source makes, then the registers |
| MbDecoder.Decoder.ProcessNow | crates/proto/src/mb_server.rs:77-106 | Counters and dispatch as specified |
| MbTransport.RxFeedConcat | crates/proto/src/rtu_frame.rs:57-71 | Reception depends on the bytes, not on how they were handed over |
| MbTransport.ClosedFrameOk | crates/proto/src/rtu_frame.rs:122-128 | A frame closed with its CRC passes the receiver's check |
| MbTransport.CrcOkIffZero | crates/proto/src/rtu_frame.rs:97-100 | The CRC check is that the CRC over the whole frame is zero |
| MbTransport.AnswerChecks | crates/proto/src/rtu_frame.rs:113-128 | Whatever is answered comes from the addressed unit with a correct CRC; a broadcast is never answered |
| MbTransport.AnsweredOrCounted | crates/proto/src/rtu_frame.rs:75-129 | Every frame gets exactly one of a reply and a tick of the no-response counter, unless it clears the counters |
| MbExchange.AduServed | crates/proto/src/mbtcp_adu.rs:22-88 | A request of any PDU that fits gets the same transaction and unit, protocol 0, the length of what follows and the decoder's answer; a broadcast or dropped PDU gets nothing and is counted |
| MbExchange.WrongLength | crates/proto/src/mbtcp_adu.rs:49-59 | With any length field the PDU served is the announced part of what came |
| MbExchange.ForeignRefused | crates/proto/src/mbtcp_adu.rs:38-47 | A foreign protocol gets exception 4 under its own header, and nothing is counted |
| MbExchange.RequestsFramed | crates/firmware/src/mbtcp.rs:83-130 | Requests sent back to back are taken apart where they were put together |
| MbExchange.RtuServed | crates/proto/src/rtu_frame.rs:75-129 | A closed frame to this unit or to all is served, and answered under its unit number with the CRC behind it unless it is a broadcast; one to another unit is only counted |
| MbExchange.BrokenFrame | crates/proto/src/rtu_frame.rs:75-112 | Frames too long, too short or with a wrong CRC change no register and are counted, each in its own counters |
| MbExchange.Generator | crates/proto/src/crc.rs:3-16 | The frame CRC has the generator 0xA001 and starts with all ones |
| MbTransport.AbsentIgnored | crates/proto/src/mbtcp_adu.rs:29-31 | No frame, or an ADU under eight bytes, changes nothing |
| MbTransport.HandleInv | crates/proto/src/mbtcp_adu.rs:22-85 | Every RTU or TCP request keeps registers, outputs and triggers together |
| MbTransport.CounterShows | crates/proto/src/rtu_frame.rs:75-129 | Over every run at all, with clears, saturation and frames that are not there, the no-response counter shows what went unanswered since the last clear |
| MbTransport.Accounting | crates/proto/src/rtu_frame.rs:75-129 | Over every run without a counter clear replies and silences add up to the requests, and the counter shows the silences up to saturation |
| MbTransport.Serve | crates/proto/src/regmap.rs:127-181 | Over any run the register invariant holds at the end |
| MbTransport.OutputsFollowRegister | crates/proto/src/regmap.rs:127-181 | Over any run the driven outputs equal the register and both trigger registers are zero |
| MbDevices.RtuFrame.Feed | crates/proto/src/rtu_frame.rs:57-71 | The buffer takes what fits and notes an overflow |
| MbDevices.RtuFrame.CheckCrc | crates/proto/src/rtu_frame.rs:98-100 | The comparison of stored and computed CRC is the specified check |
| MbDevices.RtuFrame.T35Expired | crates/proto/src/rtu_frame.rs:75-129 | The frame is taken, the buffer is empty again, and counters, registers and reply are as specified |
| MbDevices.MbtcpAduProcess | crates/proto/src/mbtcp_adu.rs:22-85 | Foreign protocol, broadcast, dropped and answered ADUs as specified |
| Sha1.CompressNow | crates/proto/src/ws.rs:48-81 | The schedule and round loops are the block function of section 6.1.2 of FIPS 180-4 |
| Sha1Example.DigestOfAbc | crates/proto/src/ws.rs:339-346 | The digest of "abc" is the published one |
| Sha1.MixIsLogical | crates/proto/src/ws.rs:58-63 | The round functions of the code are Ch, Parity and Maj of section 4.1.1 of FIPS 180-4 |
| Sha1.Absorb | crates/proto/src/ws.rs:23-46 | More data only meets the blocks so far and the left-over bytes |
| Sha1.UpdateConcat | crates/proto/src/ws.rs:23-46 | Any split of the updates gives the state of the whole message |
| Sha1.PadFillsBlocks | crates/proto/src/ws.rs:83-91 | The padded message is whole blocks |
| Sha1.AbsorbBlocks | crates/proto/src/ws.rs:36-41 | The block loop absorbs the whole blocks and leaves the tail |
| Sha1.Stream.Update | crates/proto/src/ws.rs:23-46 | Topping up, whole blocks and left-over act as one update |
| Sha1.Stream.PadZeros | crates/proto/src/ws.rs:86-88 | The padding loop appends exactly the zeros section 5.1.1 of FIPS 180-4 asks for |
| Sha1.Stream.Finalize | crates/proto/src/ws.rs:83-91 | However the message was fed, the digest is that of the padded message |
| Sha1.HashChunks | crates/proto/src/ws.rs:23-98 | However a message is cut into updates, the digest is the standard digest of the whole |
| Base64.DataSteps | crates/proto/src/fw_upg.rs:162-177 | The decoder loop over encoded data returns the data although the 32-bit accumulator drops high bits |
| Base64.RoundTripIff | crates/proto/src/fw_upg.rs:147-179 | Decoding an encoded string returns it if and only if the buffer has room |
| Base64.AlphabetIs | crates/proto/src/ws.rs:103-104 | The alphabet is table 1 of RFC 4648 |
| Base64.ValIff | crates/proto/src/fw_upg.rs:148-157 | A character decodes to a value if and only if it stands for it |
| Base64.AcceptedIff | crates/proto/src/fw_upg.rs:158-179 | Exactly which inputs are accepted, and how many bytes come out |
| Base64.JunkPasses | crates/proto/src/fw_upg.rs:143-146 | Any character passes behind the first padding |
| Base64.EncodeChunk | crates/proto/src/ws.rs:111-130 | The 24-bit value of a chunk gives its four characters, padded |
| Base64.B64Encode | crates/proto/src/ws.rs:107-137 | The chunk loop is the encoder, cut at the buffer |
| Base64.B64Decode | crates/proto/src/fw_upg.rs:147-179 | The character loop is the decoder |
| Handles.AppendEndsIff | crates/littlefs2-sys/littlefs/lfs.c:519-531 | Appending a node keeps the list finite if and only if it is not already in it |
| Handles.UnlinkedSpells | crates/littlefs2-sys/littlefs/lfs.c:519-526 | Rewriting the one pointer that names a node takes exactly that node out of the list, or nothing |
| Handles.OpenList.Append | crates/littlefs2-sys/littlefs/lfs.c:528-531 | A new node becomes the head of a list without repetition |
| Handles.OpenList.Remove | crates/littlefs2-sys/littlefs/lfs.c:519-526 | The pointer walk unlinks exactly the node, or nothing |
| HandleRuns.StepInv | crates/firmware/src/storage.rs:970-1214 | Every storage command, with every outcome of littlefs, keeps the handle invariant |
| HandleRuns.OpenIff | crates/firmware/src/storage.rs:997-1080 | An open closes what the slot held and holds the new handle if and only if fence, closes, path, open and seek all went well; the fence goes up exactly on a failed close |
| HandleRuns.CloseWriteIff | crates/firmware/src/storage.rs:1133-1149 | Closing an upload gives its handle up and unlinks its node unless littlefs kept it |
| HandleRuns.ReadChunkIff | crates/firmware/src/storage.rs:1152-1214 | The read handle is kept until the file ends or a read fails, and then closed |
| HandleRuns.DownloadIff | crates/firmware/src/storage.rs:1289-1399 | The same for the download |
| HandleRuns.HandleDiscipline | crates/firmware/src/storage.rs:966-1149 | Over every command sequence no node is opened while linked, no slot holds two handles, every held handle is listed, and the list has no repetition |
| HandleRuns.WalkEnds | crates/littlefs2-sys/littlefs/lfs.c:519-531 | After every command sequence the pointers, which no open or close checks, lead through exactly the open nodes, each once, and to the end |
| HandleRuns.SlotsIndependent | crates/firmware/src/storage.rs:970-1399 | A command for one slot leaves the handles, flags and nodes of the others |
| HandleRuns.FenceHolds | crates/firmware/src/storage.rs:180-197 | Once the fence is up no command opens anything: nodes on the list and handles held are among those before it, and the fence stays up |
| HandleRuns.FenceForever | crates/firmware/src/storage.rs:180-197 | So over every run behind it |
| StorageTask.Task.CloseOrPoison | crates/firmware/src/storage.rs:188-197 | In memory, a close is the specified one: the node leaves the list or the fence goes up, or both |
| StorageTask.Task.SlotCloseAll | crates/firmware/src/storage.rs:970-993 | Both handles of the slot are closed, as specified, and the invariant holds |
| StorageTask.Task.LfsOpen | crates/littlefs2-sys/littlefs/lfs.c:3061-3232 | The node is linked in memory, and unlinked again on an error |
| StorageTask.Task.FtpOpenRead | crates/firmware/src/storage.rs:997-1036 | The code on the real list is the step of the run theorems, for every outcome of path, open, seek and closes; it reports whether the slot holds the handle |
| StorageTask.Task.FtpOpenWrite | crates/firmware/src/storage.rs:1038-1096 | The same for the write handle |
| StorageTask.Task.FtpCloseWrite | crates/firmware/src/storage.rs:1133-1149 | The same for closing the write handle |
| StorageTask.Task.FtpReadChunk | crates/firmware/src/storage.rs:1152-1214 | The same for a chunk: at the end or on a failed read the handle is closed |
| StorageTask.Task.FileOpen | crates/firmware/src/storage.rs:1289-1332 | The same for opening the download |
| StorageTask.Task.FileChunk | crates/firmware/src/storage.rs:1335-1399 | The same for its chunks |

## Left out

- littlefs tags other than the pending move, path lookup, filtered directory traversal, orphan repair and v1 migration: the allocator takes "all blocks in use" as the result of a traversal, and global state takes the pairs and their deltas as given.
- The history file handle, whose cell can be opened again after a failed append, so that the handle invariant does not cover it.
- Factory erase of both configuration slots: not atomic under power loss, so no crash theorem holds for it.
- The `RPC_SEQ` wait protocol: its counter is global, so no exclusive-reply property holds with several clients.
- FTP ASCII conversion: it is not an inverse of download.
- Two upgrade channels interleaved in one session: the run theorems assume one.
- HTTP routing, JSON, shell, logging, drivers, network bring-up, scripts and web pages: input and output only.
- `rtu_t35_ms`, `ip_addr_valid`, `find_latest`, `ws_accept_key`, the big-endian byte form of the SHA-1 digest and the debug words of `finish`: easy members.
- Timeouts (Modbus half frames, chip busy polling) and yields between pages: time is not modelled.
- Bit patterns within a byte at a power cut: a byte is programmed or not, and one erase command is all or nothing.
- Nor.W25q.Write: the address sum is unbounded; the source's 32-bit sum could wrap only for addresses no caller uses.
- Nor.W25q.Erase: the address sum is unbounded for the same reason.
- BdCache.Bd.Read: it requires a positive hint and a program size that is a multiple of the read size, which `BdRead.ReadAlwaysEndsIff` shows to be what ending needs.
- ConfigRuns.BootSafeIff: it compares generations, so that of two records of generation 1 either may be the one that is lost.
- FwRuns.NoUnverifiedUpgrade: for images below the size of the slot, which `FwRuns.VouchedIff` shows to be exactly where it holds.
- FwRuns.StepSafeIff: for images of at most `swap_info_off()` bytes, which `FwRuns.SafeIff` shows to be exactly where it can hold.
- FwRuns.RunSafeIff: likewise.
- HistoryFiles.CleanupOldFiles: a directory entry that cannot be read counts as not there.
- BdCache.Bd.Prog: data is programmed in sequence onto erased bytes, as littlefs's own assertions demand, and without validation the device is taken to be honest.
- CtzList.WriteAt: the list before the flush, which `CtzFile.WriteFile` adds; inline files are not modelled; a block refuses data for good or not at all, and each block takes data once in a call.
- CtzFile.WriteFile: one write and its flush; further writes before the flush are `CtzList.WriteSpan`.  Inline files and the read cache between the two lists are not modelled, and the length fits the signed 32-bit result.
- BdCache.Bd.Flush: a program cache that holds an inline file (`LFS_BLOCK_INLINE`) is not modelled; the source passes over it.
- BdCache.Bd.Sync: the device's own `sync` behind the flush is taken to succeed.
- CtzList.Extend: the candidates the allocator would return are given as a list with the outcome of writing each.
- Allocator.AllocatorSafety: NOSPC also allows blocks freed since the window was scanned, which the window cannot know.
- Sha1.Stream.Finalize: the length field keeps 64 bits, as the source does, which is the standard's for messages below 2^61 bytes.
- RegMap.TriggersFireOnce: the reboot hook is taken to return, so that the log goes on.
