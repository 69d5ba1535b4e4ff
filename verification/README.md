# Model of an SSD firmware simulator

A Dafny model of the storage core of an SSD simulator, with proofs about it. The centre is the
page-mapping flash translation layer (FTL) over a NAND that can only be programmed page by page and
erased block by block. Around it stand the other parts whose correctness is not obvious from their
text: the page ECC, the write-ahead log and the snapshot, the PRP walker and the queue pair of the
NVMe front end, the NVMe/TCP framer, RAID striping and mirroring, the DMA channel, and the priority
message queues.

## How it is built

Each component is modelled twice. A pure function on values says what an operation does, branch by
branch. A class with arrays and fields does the same in place, in loops, and each of its methods is
proved to take `View()` to exactly what the function says. The properties are lemmas about the
functions, so they hold of the in-place code. The number of blocks, pages per block, reserved blocks
and logical pages is symbolic.

What comes from outside is a parameter: the random draws of `rand()`, whether `malloc` and `fwrite`
succeed, time stamps, what `recv` delivers, what a command answers. Mutexes make NAND calls and
locked sections atomic.

| files | source |
|---|---|
| `NandModel`, `NandDevice`, `Ecc` | modules/nand/nand.c |
| `FtlModel`, `FtlDevice`, `Victims`, `WalModel`, `Snapshot`, `FtlErase` | modules/ftl/ftl.c, the operations |
| `FtlInvariant`, `FtlRelocation`, `FtlSteps`, `FtlRuns` | what every step keeps, and the refinement of a plain table |
| `FtlChoices`, `FtlMoves`, `FtlGain`, `FtlCounts` | which blocks are picked, where pages go, what GC gains, what is counted |
| `FtlLeveling`, `FtlSpares` | wear leveling inside a write, and the reserve of spare blocks |
| `FtlRotation`, `FtlStuck`, `FtlRing` | one GC pass exactly, when the GC loop of a write ends, and which wear draws end it |
| `FtlJam`, `FtlFill` | why no write succeeds after that, and runs from new media that lead there |
| `FtlLosses`, `FtlDirty`, `FtlScript`, `FtlScenarios` | what a broken invariant costs, and runs from new media that break it |
| `WalReplay`, `FtlLog`, `FtlRecovery` | the log, and recovery from snapshot and log |
| `Prp`, `PrpPages`, `Ring` | src/protocol/nvme/vfio_user_nvme.c |
| `TcpFramer` | src/protocol/nvme/nvme_tcp_target.c |
| `Raid`, `Dma`, `MsgQueue` | modules/raid/raid.c, modules/dma/dma.c, ipc/msg_queue.c |
| `Common`, `Layout` | shared definitions |

`dafny verify dfyconfig.toml` checks the whole project.

## The invariant of the FTL

`FtlInvariant.Safe`: the forward and the inverse table are mutual inverses; every mapped page is valid,
lies in a block that is not bad and carries an intact ECC word; every valid page of the open block lies
below the write pointer. `FtlInvariant.Inv` adds the counts: in blocks that are not bad the stored count
is the number of valid bits, and FREE means that it is zero. `Safe` alone is enough for the refinement of
a plain table (`RunRefines`), as long as no FREE block that still holds a valid page is opened or filled;
while the counts are right there is no such block.

## Where the code does not keep its promises

Each of these is stated with its exact condition, or for every state of the failing family. Where a run
is named, it starts on new media and is a theorem as well.

- The GC loop of `ftl_write` with its default selector, greedy, never has enough free blocks once it comes to a
  stuck state (modules/ftl/ftl.c:886-892): one in which the cheapest victim is full of live pages, which is the
  open block, of which only the allocated pages count, or any block when all are full. It then runs
  until a victim wears out (modules/nand/nand.c:457-464), and forever if and only if none ever does
  (`EndlessIff`); the write it belongs to answers NO_SPACE or does not return, and so do all later
  ones while the host only reads and writes (`JammedWrite`, `NoWriteAgain`). If every pass gains a page
  the loop ends (`GainingLoopEnds`). New media, with whatever blocks bad from the factory, get there by
  filling all good user blocks but six and writing one page more. Then the loop makes at least
  6 * (wear limit + 1) passes whatever the draws (`UnwornWrite`); in the geometry of the repository 29185
  writes to 229 LPNs are enough (`RepositorySticks`).
- `nand_mark_cold_block` forges a valid count (modules/nand/nand.c:702-705). The wear check keeps the
  counts right if and only if it does not do so (`WearCheckKeeps`); where it does, a trim marks a block
  with valid data FREE (`ForgedTrimFrees`), and relocating into that block loses pages
  (`DirtyDestinationLoses`; the run is `ForgingLosesLpn`). A write or GC move that opens such a block fails if its
  first page is valid, and breaks the write-pointer invariant if and only if a later one is and stays so
  (`DirtyOverwrite`, `DirtyWrite`, `DirtyMove`).
- Read-disturb handling can choose the open block as destination (modules/ftl/ftl.c:2057), and so can a
  replacement. The write-pointer invariant survives if and only if the moved pages lie below the
  pointer (`ReadDisturbKeeps`, `ReplaceBlockKeeps`); otherwise a later GC pass loses data
  (`DisturbThenGcLosesData`; the run is `DisturbLosesLpn`), or the next write answers OVERWRITE
  (`SpareThenOverwrite`; the run is `SpareBreaksPointer`).
- A snapshot holds the write position, and the log does not. After recovery the write-pointer
  invariant holds if and only if nothing valid lies above that position (`RecoveredDevice`); one write is
  enough to make the first write after recovery answer OVERWRITE (`RecoveryMeetsOverwrite`).
- `nand_mark_block_bad` can be called on a block that holds data. It keeps the invariant if and only if
  nothing is mapped there (`MarkBadKeeps`); otherwise replacing the block afterwards loses every LPN
  stored in it (`MarkedBadLosesData`), and reading one of them is enough for that (`BadReadLosesData`).
- `lpn + count` in `ftl_trim` is a 32-bit sum; the loop stays in the table if and only if it does not
  wrap into range (`TrimStaysInRange`).
- Static wear leveling compares erase counts as unsigned words (modules/ftl/ftl.c:656), so it also moves data
  to a more worn block when every FREE block is more worn than every USED one (`StaticPickBackwards`).
- The checksum of a log entry is a byte sum: it refuses every entry with one byte changed (`TornByte`), and
  accepts one with LPN and new page exchanged (`ExchangedPasses`).
- The page ECC cannot locate an error: any single-bit error looks like one in byte 0 (`SingleFlip`). The
  comments of the source promise correction (modules/nand/nand.c:1429-1434).
- `prp_write_data` and `prp_read_data` can report RET_OK after moving only part of a two-page transfer
  (`OkMeansAll`, `ShortTransfer`).
- The controller never checks the completion ring for room (`OverrunHidesEverything`).
- A RAID 0 whose stripe size does not divide the member size has pages it can never access
  (`Raid0Misaligned`); a RAID 1 member added to an array with data is served unsynchronised
  (`Raid1Add`); a RAID 1 without a valid member in the mirror set answers OK and stores nothing
  (`Raid1Stored`).
- A DMA stop that comes before the thread has taken its first step does not stop the transfer
  (`StopDecides`); in every later position it does (`StopEnds`).
- A DMA pause strands the channel if and only if it lands behind the last check of the thread and the
  thread, going on alone, leaves before a resume, at most four steps later (`PauseStrandsIff`); and its
  unlocked check can overwrite COMPLETE (`PauseOverwritesComplete`).

## Model

| member | source | states |
|---|---|---|
| FtlRuns.RunRefines | modules/ftl/ftl.c:807-986 | every run of reads, writes, trims, GC passes, bad-block replacements and read-disturb calls, with all its replies, is a run of one plain table from LPN to page, also after counts have been forged; each call is admitted by the exact conditions of the lemma about it |
| FtlRuns.StepRefines | modules/ftl/ftl.c:807-986 | each single call answers as the plain table may and changes the content as the plain table does; the stored counts stay right unless its wear check forges one |
| FtlRuns.ReadYourWrite | modules/ftl/ftl.c:807-986 | after an OK write, and then any run that neither writes nor trims that LPN, reading returns exactly the bytes written, however often the page was relocated, and also after counts have been forged |
| FtlRuns.RunKeepsCounts | modules/ftl/ftl.c:571-604 | a run in which no wear check forges a count keeps the whole invariant, the counts included |
| FtlRuns.InitEstablishes | modules/ftl/ftl.c:718-783 | starting on new media fails exactly without a free user block, and otherwise establishes the invariant with nothing stored |
| FtlSteps.ReadMeetsContent | modules/ftl/ftl.c:807-855 | a read returns the stored page, NOT_MAPPED or PARAM, exactly when it should; the buffer is touched only in the first case, and the bad-block branch is never taken from a state that keeps the invariant |
| FtlSteps.WriteMeetsContent | modules/ftl/ftl.c:865-986 | an OK write changes exactly its LPN to exactly its data; every other end, a GC loop that is still going included, changes nothing the host can see; this holds for every write that finds the counts right, even if it forges one itself, and afterwards as long as no FREE block that still holds a valid page is opened |
| FtlSteps.WriteAnswers | modules/ftl/ftl.c:886-930 | the exact answer of every write: PARAM, NO_SPACE from a failed GC loop, INTERNAL when the log cannot be written, NO_SPACE when the open block went bad half full and no spare is left, and OK in all other cases |
| FtlSteps.ProgramKeeps | modules/ftl/ftl.c:908-930 | the program step with its replacement of a bad open block and its one retry keeps tables and content, and leaves the data in an unowned sound page of the open block |
| FtlSteps.ProgramAnswers | modules/ftl/ftl.c:908-930 | with a free user block, programming fails only in a bad block for which no spare is left |
| FtlSteps.CommitKeeps | modules/ftl/ftl.c:932-947 | the table updates of a committed write change exactly one LPN, keep both tables mutual inverses, and leave the open block with a valid page |
| FtlSteps.TrimMeetsContent | modules/ftl/ftl.c:1746-1803 | trim answers OK or PARAM exactly when it should and unmaps exactly its clipped range |
| FtlSteps.TrimStaysInRange | modules/ftl/ftl.c:1765-1771 | the trim loop stays inside the table, and visits exactly the clipped range, if and only if the 32-bit sum lpn + count does not wrap into range |
| FtlSteps.TrimWraps | modules/ftl/ftl.c:1765-1771 | with the geometry of the repository, trimming 2^32 - 1 pages from LPN 1 runs off the table |
| FtlSteps.WearCheckKeeps | modules/ftl/ftl.c:571-604 | dynamic wear leveling is invisible to the host and harmless to the tables, and keeps the counts right if and only if it does not forge one |
| FtlSteps.StaticWearKeeps | modules/ftl/ftl.c:617-706 | static wear leveling right after a committed write keeps tables, write position and content; it never picks the open block as its destination |
| FtlSteps.ReadDisturbKeeps | modules/ftl/ftl.c:2043-2104 | read-disturb handling keeps tables, counts and content always, and the write-pointer invariant if and only if its destination is not the open block or every live page of the source lies below the write pointer |
| FtlRelocation.GcMoveKeeps | modules/ftl/ftl.c:529-552 | one page of GC keeps invariant and content, and a page that lands in the victim lands ahead of the scan |
| FtlRelocation.GcPassInvisible | modules/ftl/ftl.c:492-563 | one GC pass over any victim, the open block included, keeps tables, write position and content however it ends: out of pages, failed program, victim worn out by the erase; with forged counts as long as each block it opens is clean when it is opened |
| FtlRelocation.GcLoopInvisible | modules/ftl/ftl.c:886-892 | any number of passes of the GC loop is invisible, and a loop that ends well has left enough free blocks |
| FtlRelocation.MoveLiveKeeps | modules/ftl/ftl.c:663-697 | relocation at equal offsets moves every live page, changes nothing the host can see, and makes nothing else in the destination valid |
| FtlRelocation.RelocateKeeps | modules/ftl/ftl.c:655-700 | relocating a block into a clean FREE one keeps all content and leaves no mapping behind, even if the source wears out; the write-pointer invariant survives if and only if the destination is not the open block or the live pages lie below the write pointer |
| FtlRelocation.CopyValidEffect | modules/nand/nand.c:830-851 | the copy loop of block replacement leaves exactly the valid pages of the source in the clean destination and touches no third block |
| FtlRelocation.CopyValidMedia | modules/nand/nand.c:830-851 | page for page, the destination holds what reading the source delivers |
| FtlRelocation.ReplaceBlockKeeps | modules/ftl/ftl.c:1953-2010 | replacing a block succeeds exactly for a block that is not FREE while a spare is left, keeps content and leaves no mapping behind; the write-pointer invariant survives if and only if the spare is not the open block or nothing valid sits at or above the write pointer |
| FtlInvariant.ReadStep | modules/nand/nand.c:287-355 | reading a mapped page delivers its data and changes nothing but a read counter |
| FtlInvariant.ProgramStep | modules/nand/nand.c:366-429 | programming a page that is not valid never hits a mapped page and keeps tables, counts and content |
| FtlInvariant.RemapStep | modules/ftl/ftl.c:549-552 | moving a mapping to an unowned sound page with the same data keeps both tables mutual inverses and the content |
| FtlInvariant.InvalidateStep | modules/nand/nand.c:576-603 | clearing the valid bit of an unowned page keeps counts equal to the valid bits, with FREE exactly at count 0 |
| FtlInvariant.EraseStep | modules/nand/nand.c:436-490 | erasing a block without mapped pages is invisible, whether or not it wears out |
| FtlInvariant.AllocStep | modules/ftl/ftl.c:157-179 | an allocated page is never valid unless its block is bad, and the write-pointer invariant survives |
| FtlGain.GcPassGain | modules/ftl/ftl.c:492-563 | a GC pass over a used user block, with a good user block open, succeeds if and only if there is room for its moves and the victim survives the erase; it then adds exactly pages - live, or slots already allocated - live for the open block, and leaves a good user block open |
| FtlGain.GcScanGain | modules/ftl/ftl.c:515-553 | a scan succeeds exactly if there is room for all its moves, the ones into the open victim and out of it again included, and uses exactly that room |
| FtlGain.GainNeverNegative | modules/ftl/ftl.c:492-563 | a pass never loses room, and it gains nothing exactly if every (allocated) page of the victim was live, or the victim was the open block, not used up, and held nothing live |
| FtlRotation.GcMoveExact | modules/ftl/ftl.c:529-552 | one GC move with room left, exactly: the slot it takes, the blocks and the inverse table after it |
| FtlRotation.PassRotates | modules/ftl/ftl.c:492-563 | a pass over a block whose live pages fill its front moves them, in order, to the front of the next free block, leaves the victim FREE and erased once more, and changes no other block |
| FtlRotation.PassWears | modules/ftl/ftl.c:492-563 | if the victim wears out instead, the pass fails with BAD_BLOCK, but its live pages have moved all the same and the victim is lost |
| FtlRotation.PassOwned | modules/ftl/ftl.c:492-563 | a pass that gets to its erase leaves no valid page of the user region without an owner if there was none before, whether or not the victim wears out |
| FtlStuck.GainingLoopEnds | modules/ftl/ftl.c:886-892 | a GC loop in which every pass gains at least a page ends within (5 + 1) * pages - programmable + 1 passes, whatever the victims |
| FtlStuck.StuckOpenPass | modules/ftl/ftl.c:191-217 | if the allocated pages of the open block are all live and no USED block is cheaper, greedy picks the open block, and the pass leads to such a state again, with the same write position and as many free blocks |
| FtlStuck.StuckFullPass | modules/ftl/ftl.c:191-217 | if all USED blocks are full of live pages, a pass over the greedy victim leads to such a state again |
| FtlStuck.StuckNeverEnough | modules/ftl/ftl.c:886-892 | from a stuck state the loop never has enough free blocks, for any number of greedy passes and any wear draws; it goes on or fails by wear-out |
| FtlStuck.DrawnLoop | modules/ftl/ftl.c:886-892 | for every sequence of wear draws, the loop over greedy victims is still going after all of them if and only if it would be without wear and no draw hits a worn victim on the way |
| FtlStuck.EndlessIff | modules/ftl/ftl.c:886-892 | for every infinite stream of wear draws, the GC loop with the greedy selector never ends if and only if within Distance(s) passes it comes to a stuck state, and no victim ever wears out |
| FtlRing.RingTurns | modules/ftl/ftl.c:130-149 | when the open block becomes FREE and the next FREE block is opened, the ring of blocks, the open one and then the FREE ones in the order of the circular search, turns by one |
| FtlRing.RingAt | modules/ftl/ftl.c:492-563 | so in a loop stuck at its open block, as long as no victim wears out, the victim of pass j has been erased as often as the (j mod r)-th block of the ring of r blocks was, plus j div r times |
| FtlRing.RingWrite | modules/ftl/ftl.c:886-892 | the write that meets such a loop, for every sequence of wear draws: it answers NO_SPACE if and only if a draw hits whose victim is past its wear limit by then, and otherwise it is still looping |
| FtlRing.RingForever | modules/ftl/ftl.c:886-892 | for every infinite stream of draws, such a loop never ends if and only if no draw ever hits a victim past its wear limit |
| FtlJam.StuckWears | modules/nand/nand.c:457-464 | a pass of a stuck loop whose victim wears out fails and leaves one FREE block fewer; the state is stuck again, or dry if that was the last one |
| FtlJam.DryPass | modules/ftl/ftl.c:492-563 | without a FREE block, and with live pages in every USED one, a greedy pass fails with NO_SPACE and leaves such a state again |
| FtlJam.JammedWrite | modules/ftl/ftl.c:886-892 | in a stuck or dry state a write is still looping or answers NO_SPACE, never OK, for any greedy passes and any wear draws, and leaves the device stuck or dry |
| FtlJam.NoWriteAgain | modules/ftl/ftl.c:886-892 | from such a state on, in every run of reads and writes with greedy victims and any wear draws, no write is ever answered OK, and the content stays what it is |
| FtlFill.FillingSticks | modules/ftl/ftl.c:886-892 | on new media of any geometry, with any factory-bad blocks that leave six good user blocks, writes that fill all good user blocks but six and one page more, with two pages left standing in each block filled, are all answered OK and end in a stuck state with a ring of six blocks never erased |
| FtlFill.FewLpnsStick | modules/ftl/ftl.c:886-892 | two pages a block, six good user blocks and one LPN more than twice the blocks filled are enough for such a run |
| FtlFill.UnwornWrite | modules/ftl/ftl.c:886-892 | the next write, for every sequence of wear draws: still looping through the first 6 * (wear limit + 1) passes whatever they are, and NO_SPACE if and only if a later draw hits |
| FtlFill.RepositorySticks | modules/ftl/ftl.c:886-892 | in the geometry of the repository, on new media with six good user blocks: after at most 29185 OK writes to 229 of 22937 LPNs the next write, to any LPN and with any draws, loops at least 6 * (wear limit + 1) passes and answers NO_SPACE if and only if a later draw hits; and in every run of reads and writes from there no write is answered OK |
| FtlScript.PlainWrite | modules/ftl/ftl.c:865-986 | a write without garbage collection and wear leveling, exactly: its slot, both tables, every block |
| FtlScript.RelocateFirst | modules/ftl/ftl.c:2055-2101 | the relocation of a block that holds one page, exactly: both blocks, the table, the wear-out |
| FtlCounts.WritesConserved | modules/ftl/ftl.c:545-547 | in every run from new media without read-disturb moves, FTL writes = host writes + GC moves + static-wear moves, and the NAND counts exactly the pages copied by block replacement on top |
| FtlCounts.WordsConserved | modules/ftl/ftl.c:545-547 | the same as the 32-bit counters of the source show it, however often they have wrapped |
| FtlCounts.RunCounted | modules/ftl/ftl.c:686-704 | over any run, the FTL exceeds that sum by exactly the pages moved by read-disturb calls |
| FtlCounts.CopyCounted | modules/nand/nand.c:831-851 | block replacement costs one NAND write for each valid page |
| FtlLosses.ForgedTrimFrees | modules/nand/nand.c:593-600 | in every state where forging happens, trimming an LPN of the forged block marks it FREE although another of its pages is still valid |
| FtlLosses.DirtyDestinationLoses | modules/ftl/ftl.c:2055-2101 | in every state in which read-disturb handling picks a FREE block that still holds a valid page at the offset of a stored page, the LPN stored there reads OK before and NOT_MAPPED after |
| FtlLosses.GcLosesPage | modules/ftl/ftl.c:492-563 | whenever the open block holds exactly one live page and that page lies above the write pointer, a GC pass over it succeeds and the page is lost |
| FtlLosses.DisturbThenGcLosesData | modules/ftl/ftl.c:2043-2104 | in every state in which read-disturb handling moves the only live page of its source above the write pointer of the open block, that LPN reads OK before, and NOT_MAPPED after the handling and one GC pass of the open block |
| FtlLosses.SpareThenOverwrite | modules/ftl/ftl.c:1953-2010 | in every state in which the spare is the open block and the replaced block holds a valid page at the write position, the next write after the replacement answers OVERWRITE |
| FtlLosses.OverwriteAnswer | modules/ftl/ftl.c:894-931 | a write whose slot is valid in a good open block answers OVERWRITE |
| FtlDirty.AllocSafeIff | modules/ftl/ftl.c:157-179 | opening a FREE block that may still hold valid pages leaves the state safe if and only if nothing is valid from its second page on |
| FtlDirty.DirtyOverwrite | modules/ftl/ftl.c:894-931 | a write that opens such a block with its first page valid answers OVERWRITE, and nothing stored changes |
| FtlDirty.DirtyWrite | modules/ftl/ftl.c:894-947 | with its first page not valid the write is stored, and the state stays safe if and only if from the second page on nothing is valid but the page the write replaces |
| FtlDirty.DirtyMove | modules/ftl/ftl.c:515-553 | a GC move that opens such a block fails if and only if its first page is valid, changes nothing the host can see, and leaves the state safe if and only if nothing is valid from the second page on |
| FtlScenarios.ForgingHappens | modules/nand/nand.c:698-705 | a run from new media after which the wear check of an OK write forges a count and breaks the invariant |
| FtlScenarios.ForgingLosesLpn | modules/ftl/ftl.c:2043-2104 | the same run goes on with a trim and reads; then LPN 3 reads OK, read disturb is handled, and LPN 3 reads NOT_MAPPED |
| FtlScenarios.DisturbBreaksPointer | modules/ftl/ftl.c:2055-2101 | a run from new media (four writes, one trim, 100000 reads) after which read-disturb handling moves LPN 1 above the write pointer of the open block |
| FtlScenarios.DisturbLosesLpn | modules/ftl/ftl.c:2043-2104 | after the same run LPN 1 reads OK, and NOT_MAPPED after read-disturb handling and one GC pass |
| FtlScenarios.SpareBreaksPointer | modules/ftl/ftl.c:1953-2010 | a run from new media, for any erase limit, after which replacing a block fills the open block beyond the write pointer, and the next write answers OVERWRITE |
| FtlLosses.MarkBadKeeps | modules/nand/nand.c:612-643 | marking a block bad keeps the invariant if and only if nothing is mapped in it |
| FtlLosses.MarkedBadLosesData | modules/ftl/ftl.c:1970-1995 | if a block is marked bad while it holds data and is then replaced, every LPN stored there is sent to a page that was never written and reads NOT_MAPPED |
| FtlLosses.BadReadLosesData | modules/ftl/ftl.c:830-847 | ftl_read does that by itself: reading an LPN stored in such a block answers BAD_BLOCK, replaces the block, and from then on the LPN reads NOT_MAPPED |
| FtlErase.SecureEraseMeetsContent | modules/ftl/ftl.c:1852-1919 | a successful secure erase unmaps exactly its clipped range; however it ends, nothing outside the range changes and inside it a page is kept or shows an erase pattern |
| FtlChoices.NextFreeIsNext | modules/ftl/ftl.c:130-149 | the circular search returns a block if and only if it is the first FREE user block from the start position on, or else the first FREE block below it |
| FtlChoices.StaticPickIs | modules/ftl/ftl.c:633-660 | static wear leveling moves the most worn USED block to the least worn FREE one, if and only if their erase counts differ, as a 32-bit word, by more than the threshold |
| FtlChoices.StaticPickBackwards | modules/ftl/ftl.c:655-660 | the word wraps below zero: data is moved to a more worn block whenever every FREE block is more worn than every USED one |
| FtlChoices.ColdBlockIs | modules/ftl/ftl.c:571-599 | dynamic wear leveling picks the last USED block that is less worn than every good block before it, if and only if the erase counts of the good blocks are too far apart |
| FtlChoices.DisturbedIs | modules/nand/nand.c:967-996 | read-disturb handling picks the first USED user block with the highest read count, if and only if that count has reached the threshold |
| FtlMoves.RelocateLands | modules/ftl/ftl.c:663-700 | a relocation moves exactly the live pages, each to the same offset, and erases the source or wears it out |
| FtlMoves.StaticWearMoves | modules/ftl/ftl.c:655-705 | static wear leveling as a whole: nothing happens, or the picked block moves page for page and exactly its live pages are counted |
| FtlLeveling.WriteLevels | modules/ftl/ftl.c:949-957 | static wear leveling as part of an OK write: with fewer than 999 writes since the last check the counter goes up by one and nothing else happens; otherwise it is reset, and if the erase counts of the most worn USED block and the least worn FREE one are more than 100 apart as 32-bit words, every live page moves to the same offset of that FREE block, the source is erased or wears out, both counters show it, and no other block changes; if not, nothing is moved |
| FtlLeveling.SomeDue | modules/ftl/ftl.c:617-656 | that is due whenever some USED block has been erased more than 100 times more often than some FREE one |
| FtlLeveling.SinceCheckCounts | modules/ftl/ftl.c:952-957 | over any run the counter is the number of OK writes modulo 1000, so leveling comes round with every thousandth |
| FtlLeveling.WearCheckDoes | modules/ftl/ftl.c:571-604 | dynamic wear leveling, whole: with erase counts more than 50 apart the last block that is USED and less worn than every good one before it has its stored count set to 1, unless it is smaller, and that is counted; otherwise nothing changes |
| FtlMoves.GcPassEmpties | modules/ftl/ftl.c:504-562 | every GC pass is counted, and a successful one leaves its victim FREE, clean, unmapped and erased once more |
| FtlMoves.ReplaceRetires | modules/ftl/ftl.c:1970-2004 | after a replacement the block is bad, the write position has moved along if it was the open block, and every LPN stored in it is found at the same offset of the spare |
| FtlCounts.HostWritesCounted | modules/ftl/ftl.c:932-934 | over any run the host-write counter grows by exactly the writes answered with OK |
| FtlCounts.HostWordCounted | modules/ftl/ftl.c:932-934 | and so does the 32-bit counter, modulo 2^32 |
| FtlCounts.TrimReleases | modules/ftl/ftl.c:1769-1797 | trim releases, and counts, exactly the pages that were stored in its range |
| FtlCounts.TrimCounted | modules/ftl/ftl.c:1746-1803 | a trim that answers OK is counted, with exactly the pages it released, and any other changes nothing |
| FtlCounts.ReplaceMovesCounted | modules/ftl/ftl.c:1953-2010 | a replacement that succeeds is counted, with exactly the pages whose owners it has sent to the spare |
| FtlSpares.ReplaceTakesOne | modules/ftl/ftl.c:1953-2010 | a replacement that succeeds takes exactly one spare and is counted once, one that fails takes none |
| FtlSpares.ReserveConserved | modules/ftl/ftl.c:1953-2010 | over any run, spares left and replacements counted add up to the same |
| FtlLog.QuietWriteExplains | modules/ftl/ftl.c:899-947 | a write that relocates nothing appends one entry that replays to exactly its own table updates |
| FtlLog.TrimRangeExplains | modules/ftl/ftl.c:1770-1793 | a fully logged trim loop appends entries that replay to exactly its table updates |
| FtlLog.QuietRunExplains | modules/ftl/ftl.c:1576-1645 | replaying what a run of logged writes and trims without relocation has logged, from the tables it started from, rebuilds both tables |
| FtlLog.RecoverFromCheckpoint | modules/ftl/ftl.c:1576-1645 | replaying the whole log over both tables as they stood anywhere in such a run ends at exactly the final tables |
| FtlRecovery.RecoveredDevice | modules/ftl/ftl.c:1417-1481 | load the snapshot of the middle of such a run into a device with the NAND of its end, and replay the log: tables and content are those of the end, the write position is that of the snapshot, and the invariant holds if and only if nothing valid lies above it by then |
| FtlRecovery.RecoveryMeetsOverwrite | modules/ftl/ftl.c:1458-1463 | if one write came between snapshot and power failure, and did not have to open a block, then the first write of the recovered device, to any LPN, answers OVERWRITE |
| WalReplay.ReplayOverCheckpoint | modules/ftl/ftl.c:1592-1640 | the same for logs by themselves: any checkpoint of a run catches up to the final tables |
| WalReplay.ReplayIdempotent | modules/ftl/ftl.c:1592-1640 | replaying a log over the very tables it led to changes nothing |
| WalReplay.ReplayAppend | modules/ftl/ftl.c:1592-1640 | replay of a log is replay of its parts, one after the other |
| WalReplay.TornEntriesIgnored | modules/ftl/ftl.c:1594-1603 | entries with a wrong magic or checksum, anywhere in the file and whatever page numbers they carry, make no difference |
| WalReplay.AppendStamps | modules/ftl/ftl.c:1540-1566 | appending leaves an intact entry with the next sequence number, or none if the write fails; the number is used up either way |
| WalReplay.TornByte | modules/ftl/ftl.c:1493-1503 | an entry of which one byte of one field has changed is refused, whichever it is |
| WalReplay.ExchangedPasses | modules/ftl/ftl.c:1493-1503 | the byte sum does not see the order: an entry with LPN and new page exchanged is accepted |
| Snapshot.SnapshotRoundTrip | modules/ftl/ftl.c:1372-1481 | save, lose everything in memory, load: both tables, write position and saved 32-bit counters come back whatever the device held before, and over the same NAND so do invariant and content |
| Snapshot.RebuiltAgrees | modules/ftl/ftl.c:1465-1477 | for an arbitrary table each rebuilt inverse entry names the last LPN that maps to the page, and is invalid exactly if none does |
| Snapshot.CompleteIffInjective | modules/ftl/ftl.c:1465-1477 | the rebuilt inverse finds every in-range mapping if and only if the table is injective on the pages that exist |
| Snapshot.RebuiltIsInverse | modules/ftl/ftl.c:1465-1477 | rebuilding from a consistent forward table gives exactly the inverse it came with |
| Snapshot.LoadRefusals | modules/ftl/ftl.c:1417-1456 | exactly which files load, and what a refusal leaves behind: a table cut short has already overwritten part of the forward table |
| Snapshot.RebuildInverse | modules/ftl/ftl.c:1465-1477 | the two loops in place leave the rebuilt inverse in the array |
| Snapshot.ReplayLog | modules/ftl/ftl.c:1592-1640 | the replay loop over both tables in place ends at the replayed tables |
| Victims.ChoiceIsUsed | modules/ftl/ftl.c:462-480 | whatever a selector may choose is a USED block, and a user block except for the windowed selector |
| Victims.FraIsGreedy | modules/ftl/ftl.c:436-455 | under the count invariant FRA picks exactly what greedy picks |
| Victims.LeastUnique | modules/ftl/ftl.c:191-217 | the first block of least valid count is unique, so greedy is deterministic |
| Victims.CostBenefitOrders | modules/ftl/ftl.c:227-260 | cost-benefit scores the better of two blocks higher: fewer valid pages and not more erases, or fewer erases and not more valid pages |
| Victims.CatOrders | modules/ftl/ftl.c:273-325 | so does CAT, its age factor included |
| Victims.CatIsAged | modules/ftl/ftl.c:304-312 | its score is that of cost-benefit times (100 + what the block lacks to the most erased one) over that erase count |
| Victims.MostErasedIs | modules/ftl/ftl.c:283-293 | CAT measures age against the largest erase count of a USED block |
| Victims.WindowedIs | modules/ftl/ftl.c:335-366 | the windowed selector takes the first least valid USED block among the open one and the 32 before it, and greedy decides only if none of them is USED |
| Victims.UsedListIs | modules/ftl/ftl.c:389-393 | the list of d-choices holds every USED user block once, in order |
| Victims.CandidateAt | modules/ftl/ftl.c:407-409 | draw i takes place 7 * passes + 13 * i of that list, round it |
| FtlDevice.FtlDevice.LeastValid | modules/ftl/ftl.c:191-217 | the greedy scan returns the first USED block with the least valid count, and nothing exactly if there is none with a count in range |
| FtlDevice.FtlDevice.BestScore | modules/ftl/ftl.c:227-261 | the scoring loop returns the first USED user block with the highest score, and nothing exactly if no user block is USED |
| FtlDevice.FtlDevice.SelectCat | modules/ftl/ftl.c:273-324 | CAT picks the first block with the highest cost-age score relative to the most erased USED block |
| FtlDevice.FtlDevice.SelectWindowed | modules/ftl/ftl.c:335-367 | the least valid block of the window, else the least valid user block |
| FtlDevice.FtlDevice.SelectDChoices | modules/ftl/ftl.c:378-424 | the least valid of the drawn USED blocks, else greedy |
| FtlDevice.FtlDevice.SelectFra | modules/ftl/ftl.c:436-455 | the first USED block without valid pages, else greedy |
| FtlDevice.FtlDevice.SelectVictim | modules/ftl/ftl.c:462-480 | every selector returns a USED block of its choice set, and finds one whenever the user region has one |
| FtlDevice.FtlDevice.Start | modules/ftl/ftl.c:718-783 | ftl_init over arrays: the initial state, or NO_SPACE |
| FtlDevice.FtlDevice.FindNextFree | modules/ftl/ftl.c:130-149 | the circular search returns the first free block from the start position on |
| FtlDevice.FtlDevice.AllocPage | modules/ftl/ftl.c:157-179 | hands out the next slot and moves the write pointer, switching blocks when the open one is full |
| FtlDevice.FtlDevice.EvacuatePage | modules/ftl/ftl.c:529-552 | the loop body of GC in place is one step of the relocation the lemmas speak of |
| FtlDevice.FtlDevice.ScanVictim | modules/ftl/ftl.c:515-553 | the GC loop in place, each early return included |
| FtlDevice.FtlDevice.Recycle | modules/ftl/ftl.c:492-563 | gc_do_recycle in place, once its victim is chosen |
| FtlDevice.FtlDevice.CheckWear | modules/ftl/ftl.c:571-604 | wear_leveling_check in place, with the forged count |
| FtlDevice.FtlDevice.LevelStatically | modules/ftl/ftl.c:617-706 | static_wear_leveling_check in place |
| FtlDevice.FtlDevice.Empty | modules/ftl/ftl.c:2055-2101 | the relocation loop and final erase shared with read-disturb handling, in place, with the number of pages moved |
| FtlDevice.FtlDevice.ReplaceBlock | modules/ftl/ftl.c:1953-2010 | ftl_replace_bad_block in place |
| FtlDevice.FtlDevice.HandleReadDisturb | modules/ftl/ftl.c:2043-2104 | ftl_handle_read_disturb in place |
| FtlDevice.FtlDevice.Read | modules/ftl/ftl.c:807-855 | ftl_read in place |
| FtlDevice.FtlDevice.Trim | modules/ftl/ftl.c:1746-1803 | ftl_trim in place, with its statistics |
| FtlDevice.FtlDevice.ProgramPage | modules/ftl/ftl.c:908-930 | the program step in place, replacement and retry included |
| FtlDevice.FtlDevice.CommitPage | modules/ftl/ftl.c:932-947 | the counter and table updates of a write in place |
| FtlDevice.FtlDevice.CollectUntilFree | modules/ftl/ftl.c:886-892 | the GC loop in place with real victim selection; it fails for want of a victim only if no user block is USED |
| FtlDevice.FtlDevice.Write | modules/ftl/ftl.c:865-986 | ftl_write in place, end to end |
| FtlDevice.FtlDevice.OverwritePass | modules/ftl/ftl.c:1893-1901 | one overwriting pass of secure erase in place, stopping at the first write that fails |
| FtlDevice.FtlDevice.SecureErase | modules/ftl/ftl.c:1852-1919 | ftl_secure_erase in place: the passes, then the trim |
| FtlErase.OverwriteAllKeeps | modules/ftl/ftl.c:1885-1902 | the passes keep tables and write position, and change nothing outside the range and nothing inside it but to erase patterns |
| FtlErase.PassesFill | modules/ftl/ftl.c:1885-1901 | behind k passes that all succeeded, every page of the range reads as 4096 bytes of 0x00, 0xFF, 0xAA or 0x55, by the number of the last pass modulo 4, and each page has been written once in each pass |
| FtlErase.SecureEraseWrites | modules/ftl/ftl.c:1885-1905 | a secure erase that answers OK has written each page of its clipped range once in each pass before it trims |
| FtlErase.SecureEraseRefuses | modules/ftl/ftl.c:1852-1879 | a secure erase beyond the table, of no page or without a pass answers PARAM, without memory INTERNAL, and changes nothing |
| NandDevice.NandDevice.constructor | modules/nand/nand.c:188-215 | new media: factory-bad blocks as drawn, everything else FREE and clean, free reserved blocks counted |
| NandDevice.NandDevice.PageRead | modules/nand/nand.c:287-355 | page read in place: the checks in order, ECC decoding of tagged pages, the read counter |
| NandDevice.NandDevice.PageWrite | modules/nand/nand.c:366-429 | page write in place: refuses bad blocks and valid pages, otherwise stores data and ECC word and updates the block |
| NandDevice.NandDevice.Erase | modules/nand/nand.c:436-490 | block erase in place, with random wear-out above the erase limit |
| NandDevice.NandDevice.FreeCount | modules/nand/nand.c:496-512 | counts the FREE blocks outside the reserved region |
| NandDevice.NandDevice.MarkInvalid | modules/nand/nand.c:576-603 | page invalidation in place, with the 32-bit count and the switch to FREE at zero |
| NandDevice.NandDevice.MarkBad | modules/nand/nand.c:612-643 | marking a block bad in place, with its valid map cleared and its first page stamped |
| NandDevice.NandDevice.AllocReserved | modules/nand/nand.c:652-674 | allocation from the reserved region in place |
| NandDevice.NandDevice.Replace | modules/nand/nand.c:803-864 | block replacement of the NAND layer in place |
| FtlDevice.FtlDevice.LogEntry | modules/ftl/ftl.c:1696-1729 | one log entry is appended when a log is open, and the failure of the file is passed on |
| Ecc.DecodeCharacterised | modules/nand/nand.c:1436-1479 | for pages of any length, with x the exclusive or of all error bytes: Clean iff x = 0, Corrected iff x is a single bit, otherwise Uncorrectable; only byte 0 can change, by x, and only when Corrected |
| Ecc.SingleFlip | modules/nand/nand.c:1436-1479 | every single-bit error is reported as Corrected, and the page is really restored if and only if the bit was in byte 0 |
| Ecc.EncodeIsWordOfXor | modules/nand/nand.c:1384-1412 | the page word depends on the page only through the exclusive or of its bytes |
| Ecc.WordInjective | modules/nand/nand.c:1296-1319 | the two codewords of a byte determine it |
| Ecc.ParityEquations | modules/nand/nand.c:1296-1319 | the codeword of a nibble: data bits at positions 3, 5, 6 and 7, and the three even parities of a Hamming code over positions 1 to 7 |
| Ecc.DistanceThree | modules/nand/nand.c:1296-1319 | the codewords of different nibbles differ in at least three bits |
| Ecc.EncodePage | modules/nand/nand.c:1384-1412 | the encoding loop computes the page word; an empty page is refused |
| Ecc.DecodePage | modules/nand/nand.c:1436-1479 | the decoder in place: every byte it flipped in vain is put back |
| MsgQueue.RunRefines | ipc/msg_queue.c:130-348 | whatever the calls, the queues answer as letter boxes do, one for each module: a message goes to the end of the box of its own destination with the number of messages sent before it as its id, receiving takes the oldest of the highest priority of that box, and the codes, and what init, deinit and clear leave, are those of the boxes |
| MsgQueue.OthersUntouched | ipc/msg_queue.c:130-514 | a call changes no queue but that of the module it addresses |
| MsgQueue.SendDelivers | ipc/msg_queue.c:219-348 | a message sent to a module with an empty queue is what that module receives next, whatever calls about other modules come in between, changed only in id and time stamp |
| MsgQueue.ReachableQueues | ipc/msg_queue.c:130-348 | in every reachable state every list descends in priority and is within capacity, holds what the boxes hold, and every answer was theirs |
| MsgQueue.SortedHead | ipc/msg_queue.c:331-334 | the head of the list is the oldest message of the highest priority, and removing it leaves the list of the others |
| MsgQueue.InsertAt | ipc/msg_queue.c:265-288 | insertion puts the message behind all of at least its priority and in front of the first lower one |
| MsgQueue.MessageList.Init | ipc/msg_queue.c:130-158 | initialisation in place |
| MsgQueue.MessageList.FindSlot | ipc/msg_queue.c:265-273 | the search loop finds the first node of lower priority and the node before it |
| MsgQueue.MessageList.Splice | ipc/msg_queue.c:259-288 | the four ways of linking a node in, with head and tail |
| MsgQueue.MessageList.Send | ipc/msg_queue.c:219-294 | sending in place: head, tail, count and links stay consistent, the error cases change nothing |
| MsgQueue.MessageList.Recv | ipc/msg_queue.c:307-348 | receiving in place: the first message leaves, the tail is cleared with the last one |
| MsgQueue.MessageList.Deinit | ipc/msg_queue.c:169-205 | de-initialisation in place |
| MsgQueue.MessageList.Clear | ipc/msg_queue.c:480-514 | clearing in place |
| Raid.MapRoundTrip | modules/raid/raid.c:118-132 | striping has an inverse on both sides, for any stripe size |
| Raid.StaysInsideIff | modules/raid/raid.c:118-132 | every logical page lands inside its member if and only if the stripe size divides the member size or there is one member |
| Raid.MapBijective | modules/raid/raid.c:118-132 | in that case the member pages all come from logical pages below the capacity |
| Raid.MapAt | modules/raid/raid.c:118-132 | stripes go round the members row by row: page off of the stripe in row r of member m is page r * stripe + off there |
| Raid.OffTheEnd | modules/raid/raid.c:118-132 | otherwise some logical page below the capacity maps just behind the end of member 0 |
| Raid.CapacityFixed | modules/raid/raid.c:69-107 | the capacity of an array is zero, the member size, or count times the member size |
| Raid.Raid0Read | modules/raid/raid.c:460-518 | RAID 0 reads like a flat array: the page stored there, INTERNAL where the member is missing, PARAM beyond the capacity |
| Raid.Raid0Write | modules/raid/raid.c:532-587 | a striped write succeeds exactly if its member is there, and then changes that page of the flat array and no other |
| Raid.Raid0Membership | modules/raid/raid.c:346-445 | adding a member makes exactly its pages readable, as zeros; removing it makes exactly its pages unreadable |
| Raid.MembershipAnswers | modules/raid/raid.c:346-445 | what adding and removing answer and leave, for every level: INTERNAL and no change for a member that is there already, NO_SPACE without memory, OK and no change for a removal of one that is not there, and never a change of another member |
| Raid.Raid0Misaligned | modules/raid/raid.c:118-132 | with a stripe size that does not divide the member size, some page below the capacity can never be accessed |
| Raid.Raid1Write | modules/raid/raid.c:562-574 | a mirrored write updates every valid member of the mirror set |
| Raid.Raid1Stored | modules/raid/raid.c:490-574 | an OK mirrored write can be read back if and only if some member of the mirror set is valid; otherwise it has stored nothing |
| Raid.Raid1Add | modules/raid/raid.c:346-395 | there is no rebuild: adding a mirror member keeps the mirror if and only if it lies outside the mirror set or the array holds only zeros |
| Raid.StepMirrored | modules/raid/raid.c:346-587 | every write, removal and addition leaves all valid members with the last writes, if and only if it is not an addition that `Raid1Add` shuts out |
| Raid.Raid1Survives | modules/raid/raid.c:490-505 | after any writes, removals and additions that each meet the condition of `Raid1Add`, and leave one member of the mirror set, a mirror read returns the last write |
| Raid.RaidController.CalculateCapacity | modules/raid/raid.c:69-107 | the capacity loop over the members |
| Raid.RaidController.AddMember | modules/raid/raid.c:346-395 | adding a member in place, the failed allocation included |
| Raid.RaidController.RemoveMember | modules/raid/raid.c:407-445 | removing a member in place |
| Raid.RaidController.WritePage | modules/raid/raid.c:532-587 | raid_write in place |
| Raid.RaidController.ReadPage | modules/raid/raid.c:460-518 | raid_read |
| TcpFramer.SegmentationIrrelevant | src/protocol/nvme/nvme_tcp_target.c:865-952 | two ways of cutting the same byte stream into segments dispatch the same frames, fail alike, and leave the same bytes buffered |
| TcpFramer.ReceiveIsParse | src/protocol/nvme/nvme_tcp_target.c:865-952 | receiving segment by segment dispatches exactly the frames of the whole stream |
| TcpFramer.ParseSplit | src/protocol/nvme/nvme_tcp_target.c:883-949 | parsing can be interrupted anywhere: the left-over with more bytes behind it parses to the remaining frames |
| TcpFramer.RoomLeft | src/protocol/nvme/nvme_tcp_target.c:865-952 | after a call that does not fail the buffer has room for at least one more byte |
| TcpFramer.FramesCoverStream | src/protocol/nvme/nvme_tcp_target.c:944-948 | the bytes spanned by the frames, in order, and the left-over are the stream: nothing dropped, nothing twice |
| TcpFramer.PlenReadsBack | src/protocol/nvme/nvme_tcp_target.c:885 | the length field is read back as the 32-bit length that was put there, whatever surrounds it |
| TcpFramer.FramesStand | src/protocol/nvme/nvme_tcp_target.c:883-948 | every dispatched frame is what the stream says at its place: type in the first byte, data length by the offset in the fourth, total length in the next four; of a connection request no more than 128 bytes are removed |
| TcpFramer.PduParses | src/protocol/nvme/nvme_tcp_target.c:883-948 | a PDU at the front of the stream is dispatched as what it is, and parsing goes on behind it, or behind 128 bytes of an over-long connection request |
| TcpFramer.StreamParses | src/protocol/nvme/nvme_tcp_target.c:883-948 | round trip: a stream put together from PDUs is dispatched as exactly these, with their types and data lengths, in order |
| TcpFramer.Connection.Compact | src/protocol/nvme/nvme_tcp_target.c:944-948 | removing a PDU moves the rest of the buffer to the front |
| TcpFramer.Connection.ProcessPdu | src/protocol/nvme/nvme_tcp_target.c:865-952 | the receive buffer in place: append, dispatch every complete PDU, keep the rest |
| Ring.ExactlyOnceInOrder | src/protocol/nvme/vfio_user_nvme.c:955-996 | over every interleaving of postings and polls that never overruns the ring, the host has taken a prefix of what was posted, and the n-th completion carried tag 1 iff n / size is even |
| Ring.PollingSynchronous | src/protocol/nvme/vfio_user_nvme.c:964-989 | a poll finds something exactly if something is unread, and takes the oldest unread completion |
| Ring.PollingDrains | src/protocol/nvme/vfio_user_nvme.c:955-996 | as many polls as completions are unread take them all |
| Ring.PostingKeepsIff | src/protocol/nvme/vfio_user_nvme.c:955-989 | posting keeps controller and host in step if and only if the ring has a free slot |
| Ring.OverrunHidesEverything | src/protocol/nvme/vfio_user_nvme.c:955-989 | posting into a full ring overwrites the oldest unread completion, and the host then sees nothing new |
| Ring.ProcessPostsInOrder | src/protocol/nvme/vfio_user_nvme.c:936-996 | one call executes exactly the waiting commands, each once, in ring order, and posts one completion for each in that order |
| Ring.PendingAt | src/protocol/nvme/vfio_user_nvme.c:937-946 | command i of a call is the one i slots behind the head, round the ring |
| Ring.OwedAt | src/protocol/nvme/vfio_user_nvme.c:966-967 | its completion is what its execution answers and reports the slot behind it as head |
| Ring.PostAllRuns | src/protocol/nvme/vfio_user_nvme.c:936-996 | a call whose completions fit the free part of the ring appends exactly them, tagged for their positions, to what was posted |
| Ring.OutOfRangeTailNeverMet | src/protocol/nvme/vfio_user_nvme.c:937-995 | a doorbell value beyond the ring is never met by the head |
| Ring.QueuePair.ExecuteNext | src/protocol/nvme/vfio_user_nvme.c:937-995 | the loop body in place: fetch, execute, stamp head and tag, advance both pointers |
| Ring.QueuePair.RingSubmission | src/protocol/nvme/vfio_user_nvme.c:1107-1128 | a submission doorbell in place: the new tail, every waiting command processed, an interrupt exactly if there was one |
| Prp.RoundTrip | src/protocol/nvme/vfio_user_nvme.c:158-279 | a clean transfer that reports RET_OK, with a list, one page, or enough room behind the offset of PRP2, is read back with the same pointers as exactly the buffer written |
| Prp.ScatterGather | src/protocol/nvme/vfio_user_nvme.c:158-279 | for every end of a clean transfer: the same end on the way back, exactly the bytes moved come back in order, and no guest memory outside its pieces has changed |
| Prp.CleanByPages | src/protocol/nvme/vfio_user_nvme.c:195-211 | a transfer is clean if it visits every page at most once and the list entries it reads lie on one page without data |
| Prp.TwoPagesClean | src/protocol/nvme/vfio_user_nvme.c:206-208 | a transfer without a list is clean if its two pages differ |
| Prp.OkMeansAll | src/protocol/nvme/vfio_user_nvme.c:158-214 | RET_OK means that all bytes were moved if and only if there is a list, one page is enough, or PRP2 leaves enough room behind its offset |
| Prp.ShortTransfer | src/protocol/nvme/vfio_user_nvme.c:206-214 | such a short transfer: 8192 bytes asked for, 8191 moved, RET_OK |
| Prp.AlignedSuffices | src/protocol/nvme/vfio_user_nvme.c:164-168 | a page-aligned PRP2, as section 4.3 of NVMe 1.4 requires, always leaves enough room |
| Prp.GatherIsPlan | src/protocol/nvme/vfio_user_nvme.c:171-213 | reading moves exactly the planned pieces, one for each entry, in order |
| Prp.ScatterIsPlan | src/protocol/nvme/vfio_user_nvme.c:236-278 | writing moves exactly the planned pieces and changes nothing else |
| Prp.EntryReadsBack | src/protocol/nvme/vfio_user_nvme.c:205 | a 64-bit address stored in a list entry is the address read from it |
| PrpPages.ReadsRoute | src/protocol/nvme/vfio_user_nvme.c:158-214 | prp_read_data in guest addresses: byte for byte the buffer is what the guest has at the addresses the pointers name, which are PRP1, then PRP2 or, for more than two pages, the entries stored one behind the other in the list at PRP2, each read to the end of its page |
| PrpPages.WritesRoute | src/protocol/nvme/vfio_user_nvme.c:224-279 | prp_write_data over pages that are apart: afterwards the guest finds the buffer, byte for byte, at these addresses, and every other byte as it was |
| PrpPages.RouteClean | src/protocol/nvme/vfio_user_nvme.c:195-211 | different pages, and a list on a page of its own, make a transfer of any length clean |
| PrpPages.ReadBlocked | src/protocol/nvme/vfio_user_nvme.c:171-205 | where one of these pages is not mapped, reading fails with the bytes before it delivered |
| Prp.Guest.Find | src/protocol/nvme/vfio_user_nvme.c:123-142 | address translation returns the first region that holds the address |
| Prp.Guest.Follow | src/protocol/nvme/vfio_user_nvme.c:195-210 | the next address: PRP2 itself, or the next list entry |
| Prp.Guest.PrpRead | src/protocol/nvme/vfio_user_nvme.c:158-214 | prp_read_data over mapped memory |
| Prp.Guest.CopyIn | src/protocol/nvme/vfio_user_nvme.c:252 | a copy into one region changes exactly its piece |
| Prp.Guest.PrpWrite | src/protocol/nvme/vfio_user_nvme.c:224-279 | prp_write_data over mapped memory |
| Dma.RunSafe | modules/dma/dma.c:89-223 | over every interleaving of the thread with pause, resume and stop: transferred + remaining = length at each loop head, what lies below the count has arrived, and COMPLETE means that the destination equals the source |
| Dma.StepInv | modules/dma/dma.c:131-223 | every step of thread and controller keeps the channel invariant |
| Dma.PauseInLastChunkStrands | modules/dma/dma.c:553-561 | for any length there is a run in which a pause lands behind the check of the last chunk, and then, whatever calls follow, all bytes have arrived but COMPLETE is never reported |
| Dma.PauseStrandsIff | modules/dma/dma.c:131-200 | with the pause set and the thread gone on alone for k steps, COMPLETE can still be reached if and only if the thread has not left, which takes it at most four steps if it was past its last check when the pause was set, and never happens if it was not; until then a resume is enough, for any length |
| Dma.StopEnds | modules/dma/dma.c:507-521 | a stop ends a transfer in progress, paused or not: the thread is gone within four steps, has moved no more than the chunk it held, the join can return, the state is ERROR and the error is counted |
| Dma.StopDecides | modules/dma/dma.c:507-515 | after a stop the channel can still come to report COMPLETE if and only if it did so before, or the thread had not taken its first step, which the stop does not prevent |
| Dma.RunCounted | modules/dma/dma.c:187-200 | over every interleaving a transfer is counted exactly once, as a transfer or as an error, and COMPLETE means as a transfer |
| Dma.ReadyCompletes | modules/dma/dma.c:103-200 | left alone, a channel completes its transfer, for any length |
| Dma.StopIsFinal | modules/dma/dma.c:490-524 | once a stop has returned, no later call changes another byte of the destination or the count, and what lies below that count has arrived unchanged |
| Dma.StrandedForever | modules/dma/dma.c:595-603 | once the thread is gone without COMPLETE, no call brings COMPLETE about |
| Dma.PauseOverwritesComplete | modules/dma/dma.c:553-561 | a run from every fresh channel in which the unlocked check of a pause overwrites COMPLETE, and no later call brings it back |
| Dma.Channel.RunThread | modules/dma/dma.c:103-200 | the locked sections and copies of the thread in place |
| Dma.Channel.CopyChunk | modules/dma/dma.c:153-159 | the copy of one chunk in place |
| Dma.Channel.PauseBegin | modules/dma/dma.c:553-556 | the unlocked check of a pause |
| Dma.Channel.PauseEnd | modules/dma/dma.c:558-561 | the locked assignment of a pause |
| Dma.Channel.ResumeBegin | modules/dma/dma.c:595-598 | the unlocked check of a resume |
| Dma.Channel.ResumeEnd | modules/dma/dma.c:600-603 | the locked assignment of a resume |
| Dma.Channel.StopBegin | modules/dma/dma.c:507-515 | a stop up to the join |

## Left out

- Hybrid mapping, the block map and hot/cold migration (modules/ftl/ftl.c:1181-1348): the mapping mode is the default, page mapping.
- Read-disturb handling and replacement into the open block with pages above the write pointer, and opening or filling a FREE block that still holds a valid page, as steps of the runs: excluded by the exact conditions of `ReadDisturbKeeps`, `ReplaceBlockKeeps`, `RelocateKeeps`, `DirtyWrite` and `DirtyMove`.
- Marking blocks bad from outside while they hold data, as a step of the runs, and the callers that do so: `nand_page_write_with_retry`, `nand_page_read_with_retry`; `MarkBadKeeps` has the exact condition.
- FtlStuck.EndlessIff: requires a good open block of the user region, and an owner for every valid page of the user region, which a GC pass that fails half way need not leave; it is about the greedy selector, and erase counts do not wrap.
- FtlGain.GcPassGain: requires a good open block of the user region; after a replacement the open block can lie in the reserved region, where FREE blocks are not counted as room.
- FtlSteps.TrimMeetsContent: requires that the trim loop stays inside the table, because past its end the behaviour of the source is undefined; `TrimStaysInRange` says exactly when it does. `FtlDevice.Trim` and `FtlDevice.SecureErase` require the same.
- FtlDevice.FtlDevice.CollectUntilFree: makes at most as many GC passes as it is given wear draws and then reports `Running`, because the loop of the source has no bound.
- FtlLog.QuietRunExplains: says nothing about runs with GC, static wear moves or a bad-block retry, because relocations are never logged and the retry is logged under its first page (modules/ftl/ftl.c:902 against 918-921).
- FtlErase.SecureEraseMeetsContent: requires that the trim loop stays inside the table, and that each write finds the counts right or opens clean blocks only, as the runs do.
- FtlCounts.WritesConserved: counters are unbounded numbers; `WordsConserved` and `HostWordCounted` say what that means for the 32-bit words of the source.
- Victims.ChoiceIsUsed: scores are real numbers, so rounding of the double arithmetic is not modelled.
- FtlDevice.FtlDevice.HandleReadDisturb: read counters are unbounded; the flag `need_reclaim`, energy, read totals and other statistics are not modelled, because nothing modelled depends on them.
- Initialisation flags and NULL checks of the FTL and NAND calls, printing and logging: every modelled call is made on an initialised device with buffers that exist, and none of it reads what is printed.
- FtlRecovery.RecoveredDevice: the block metadata of the NAND is that of the end of the run; what `nand_init` rebuilds of it from out-of-band data after a restart is not modelled.
- The rebuild of valid bits from out-of-band data in `nand_init` and the injection of retention errors (modules/nand/nand.c:219-246, 907-957).
- BCH, LDPC and CRC paths of the NAND module: no modelled path calls them, the page ECC is the one that reads and programs use.
- Opening, seeking, flushing, clearing and re-opening log and snapshot files: a file is the value that was written to it, and a failed write is a parameter.
- MsgQueue.MessageList.Send: one list in place; the array of all module queues, message ids and time stamps are modelled on values in `MsgQueue.Step`. Blocking receive and the count queries are not modelled.
- Ring.QueuePair.RingSubmission: requires a tail inside the ring, because with a tail beyond it the loop of the source never ends (`OutOfRangeTailNeverMet`); rings live in mapped memory, so failed address translations of queue slots are not modelled, and neither are queue creation, register writes and interrupts beyond whether one is raised.
- Prp.Guest.PrpRead: reading list entries beyond the mapped region is the end `WildList`, because the behaviour of the source is undefined there; regions are mapped in whole pages, because a page that is only partly mapped is copied past its end.
- TcpFramer.Connection.ProcessPdu: covers framing only, for a call in which recv delivers data; the handlers of the PDUs, data reassembly and the closing of connections are not modelled.
- Dma.RunSafe: one controller, buffers of the transfer length that do not overlap, both addresses incrementing; completion callbacks, the timed wait and reconfiguration while the thread runs are not modelled.
- Raid.RaidController.constructor: takes only configurations that raid_init accepts, and a stripe size above 0; RAID statistics and state queries are not modelled.
- The vhost-user front end, DIF, UFS, host interface queues, NVMe status codes, Identify and SMART data, firmware slots, manager, sockets and `main.c`: they call the modelled parts or fill in fields, and no modelled part calls them or reads what they keep.
