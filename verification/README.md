# A verified model of littlefs v2

This project models the littlefs v2 filesystem in `littlefs/` — its file data, directory logs,
crash protocol, block allocator, caches and path walk — and proves what each part promises the
next. Run `dafny verify dfyconfig.toml` to check all of it.

## How it is laid out

| files | what they model |
|---|---|
| `Words`, `Arith`, `Aligned`, `Bits`, `Blocks`, `Wrappers` | machine words as bounded integers, byte orders, rounding, the bit tricks of `lfs_util.h`, block numbers, results and errors |
| `CtzIndex`, `CtzList`, `FileData` | the skip list a file is stored in, and reading, writing, seeking, flushing and shrinking a file |
| `Crc` | the table-driven checksum and the theory the commits rely on |
| `Tags`, `DirLog`, `DirLookup`, `DirScan`, `DirFind`, `DirOrder` | directory logs: what they mean, looking records up backwards, parsing a block, finding a name, and what keeps names in order |
| `DirCommit`, `DirUpdate`, `DirRecovery` | writing a commit, appending and compacting, and what a power failure leaves |
| `DirCompact`, `DirSplit`, `DirInputs`, `Handles` | what compaction keeps, splitting over several pairs of blocks, directories at which it goes wrong, and open handles |
| `GlobalState`, `Rename`, `Orphans`, `OrphanFlag` | the distributed global state, renaming across directories, repair of the directory list, and the mark that calls for it |
| `Allocator`, `BlockCache` | the lookahead allocator and the caches over the block device |
| `PathWalk`, `Stepped` | the names a path leads through, and mounting and traversing in steps |

The reference for everything about directories is `DirLog.Replay`: records replayed forwards into
entries. Parsing, backward lookup, name search, compaction, splitting, handles, renaming and crash
recovery are all proved against it. The reference for files is a byte sequence (`FileData.File.Text`).

Objects that the source updates in place are classes here: `CtzList.Store`, `FileData.File`,
`DirCommit.Writer`, `DirSplit.Compactor`, `GlobalState.Globals`, `Allocator.Allocator`, `BlockCache.Bd`,
`Rename.Volume`, `Handles.Handle`, `Orphans.TailList`, `OrphanFlag.Upkeep` and the two stepped walks. Devices follow
`SDCard.h`: a program overwrites, an erase promises nothing (`CtzList.Store.Erase` leaves arbitrary bytes).
The allocator below `CtzList.Store` hands out any block that is not in use; compactions draw their pairs from
`Allocator.Allocator` itself.

## Where the code and its documentation differ

The model follows the code. Each difference is a lemma or method contract that says exactly when the promise
holds, and where it can fail there is an input at which it does.

- The portable `lfs_npw2` finds the smallest power of two only from 2 on (`Bits.Npw2`).
- `lfs_init` accepts blocks of 104 bytes and more, and of 4 to 7, where its subtraction wraps
  (`CtzIndex.InitAcceptsWhat`; at 8 it divides by zero); of these, `lfs_ctz_index` is right for every file
  position exactly from 112 bytes on, and for every 32-bit position from 116 on (`CtzIndex.ExactBlockSizes`).
- `lfs_file_truncate` to the first byte of a block keeps a head one block too far on
  (`FileData.ShrinksInPlaceUnlessBlockStart`; `FileData.CutToOneBlock`); its end then reads as the block behind
  (`FileData.File.ReadBehind`).
- The size guard of `lfs_dir_compact` allows 36 bytes for what needs 40 (`DirSplit.GuardIsShort`;
  `DirInputs.GuardPassesTooMuch`).
- `lfs_dir_split` acknowledges the allocator each time, while nothing leads to the pairs drawn before. The pairs of
  one compaction share no block exactly if the device has two unvisited blocks for each
  (`DirSplit.Compactor.CompactDirectory`, `Allocator.Allocator.DrawnExactly`); with just two a compaction that splits
  twice succeeds, and its chain does not hold the entries (`DirInputs.TwoBlocksToSpare`).
- When a commit of `lfs_mkdir`, `lfs_remove` or `lfs_rename` fails after the count of orphans was taken back, the next
  commit takes the mark for repair from the disk, and the orphan stays
  (`OrphanFlag.Upkeep.NextCommit`; `OrphanFlag.DirectoryThatIsLost`).
- A failed `lfs_dir_drop` leaves its delta behind, and the next commit stores it twice
  (`GlobalState.Globals.FailedDropThenCommit`; `GlobalState.DropThatLoses`). A compaction that splits and then
  fails has stored what was owed where nothing leads (`GlobalState.Globals.Compact`;
  `GlobalState.SplitThatLoses`).
- A rename whose first commit fails leaves its move prepared in memory, and the next commit of anything carries
  it out: the entry is gone (`Rename.Volume.FirstFailsThenCommit`).
- `lfs_bd_read` hangs in front of pending bytes that do not begin at a read unit, unless the read cache helps it
  over (`BlockCache.Bd.ReadFor`; `BlockCache.HangingRead`). `lfs.h` does not ask that the read size divides the
  program size, which rules that out (`BlockCache.Bd.NeverHangs`).
- A path's "." counts as a level for a later ".." (`PathWalk.WalkIsStack`). One pass over the path tells whether
  that matters (`PathWalk.WalkNormalisesIff`; `PathWalk.DotsCount`).
- The bit that the allocator sets for a block is the right one exactly on devices of up to 2^31 blocks
  (`Allocator.SlotExact`).

## What is assumed

- A torn block is arbitrary bytes. The one assumption is `DirRecovery.Trusted`: a checksum that a scan accepts
  in it covers only bytes that the finished block has in the same places; it holds of the finished block and of
  bytes that no checksum accepts. `Crc.BurstDetected` and
  `Crc.CrcInjective` say how far the checksum itself backs this.
- `Orphans.Sound`: directories without a parent are empty and not split, and no two directory entries share a
  block. `OrphanFlag` shows that this holds after every commit of `lfs_mkdir`, `lfs_remove` and a rename over a
  directory; for relocations it is assumed. That different heads end up with different blocks needs one thing more,
  which `Orphans.HeadsApart` states and `Orphans.OneLinkEach` gives a condition for.
- `Allocator.Allocator.Safe`: when a compaction begins, the blocks in use that lie in the rest of the allocator's
  window are marked. For the exact count of pairs the rest of the window must have no other marks either.
- `DirFind.Orderly`: names are sorted and given once, a superblock stays in front, ids are used as the file system
  uses them. `DirOrder` shows that a formatted root is like that, and that creating an entry where the search
  says, deleting, writing to entries and compacting any range keep it.

## Model

| member | source | states |
|---|---|---|
| `Bits.PointerSum` | littlefs/lfs.cpp:2204-2215 | the pointers in blocks 1 to n, ctz(j)+1 each, number 2n - popc(n) |
| `Bits.CtzAfterSkip` | littlefs/lfs.cpp:2231-2245 | skipping by less than the trailing zeros keeps the count that the next skip relies on |
| `Bits.Npw2` | littlefs/lfs_util.h:111-125 | the portable shift cascade finds the exponent of the smallest power of two, exactly if its argument is at least 2 |
| `Bits.CtzByNpw2` | littlefs/lfs_util.h:128-134 | the portable form counts the trailing zeros of every non-zero word |
| `CtzIndex.InitAcceptsWhat` | littlefs/lfs.cpp:3538 | the block sizes that initialisation accepts: 104 and more, and 4 to 7 |
| `CtzIndex.IndexIsLocate` | littlefs/lfs.cpp:2204-2215 | from 104 bytes on the 32-bit arithmetic never wraps |
| `CtzIndex.StartClosedForm` | littlefs/lfs.cpp:2204-2215 | block n starts at n(bs-8) + 8 + 4 popc(n-1), by summing what the blocks before it hold |
| `CtzIndex.StartCountsPointers` | littlefs/lfs.cpp:2204-2215 | the start of a block is the room of the blocks before it less their pointers |
| `CtzIndex.LivesAtUnique` | littlefs/lfs.cpp:2204-2215 | a position lies in one block at one offset only |
| `CtzIndex.LocateExact` | littlefs/lfs.cpp:2204-2215 | the two-step division returns that block and offset for every position |
| `CtzIndex.MissesAfterPowerOfTwo` | littlefs/lfs.cpp:2204-2215 | in blocks too small for the overhead, positions that it gets wrong |
| `CtzIndex.ExactBlockSizes` | littlefs/lfs.cpp:3538 | which of the block sizes that pass the check index every file position, and every word, right: if and only if at least 112, and 116 |
| `CtzList.LocateInBlock` | littlefs/lfs.cpp:2204-2215 | every position lies inside its block, behind the block's pointers |
| `CtzList.NextPosition` | littlefs/lfs.cpp:2292-2312 | the next position is the next byte of the block, or the first behind the pointers of the next block |
| `CtzList.LocateMonotone` | littlefs/lfs.cpp:2204-2215 | later positions lie in the same or later blocks |
| `CtzList.HoldsFrame` | littlefs/lfs.cpp:2251-2347 | a list whose blocks are not programmed keeps its links and its content |
| `CtzList.SkipPays` | littlefs/lfs.cpp:2231-2245 | each skip pays for itself out of a bound of two bit lengths |
| `CtzList.ReplaceLast` | littlefs/lfs.cpp:2289-2312 | a copy of an incomplete last block makes an equal list |
| `CtzList.AppendLinked` | littlefs/lfs.cpp:2314-2338 | a block with the right pointers makes the list one longer, and keeps the invariant |
| `CtzList.Store.CtzFind` | littlefs/lfs.cpp:2217-2249 | ends at the block and offset of the position, reading only pointers that exist, in at most 2 bitlength(last index) reads |
| `CtzList.Store.CtzExtend` | littlefs/lfs.cpp:2251-2347 | a block nobody uses, as copy of the last or linked behind it, in which position size can be written; nothing in use changes |
| `CtzList.Store.CtzTraverse` | littlefs/lfs.cpp:2349-2390 | visits every block of the list exactly once, from the head down |
| `FileData.PrefixHolds` | littlefs/lfs.cpp:2670-2751 | the list up to a position holds the content up to it |
| `FileData.RunAppends` | littlefs/lfs.cpp:2999-3018 | bytes programmed at the end of the last block append to the content |
| `FileData.OverwrittenAt` | littlefs/lfs.cpp:2899-3034 | what splicing means, byte by byte: the data at its place, zeros between the old end and it, the old bytes elsewhere |
| `FileData.File.Read` | littlefs/lfs.cpp:2813-2897 | returns the file's bytes at the position, as many as there are, flushing first if it must; only that flush can fail, and only on a full device |
| `FileData.File.Write` | littlefs/lfs.cpp:2899-3034 | the file becomes the old one with the data spliced in at the position, zero-filled past the end; the old blocks are untouched; refused if it would pass the size limit, else it fails only on a full device |
| `FileData.File.Seek` | littlefs/lfs.cpp:3036-3072 | the target is a 32-bit sum; past the limit it is refused, and the file does not change; it fails otherwise only on a full device with writes pending |
| `FileData.File.Flush` | littlefs/lfs.cpp:2670-2751 | the new list holds what the user saw, the old list still reads as before; it fails only on a full device |
| `FileData.File.Rewrite` | littlefs/lfs.cpp:2670-2751 | seek, any number of writes of any lengths, flush, whatever went on before: the flushed list holds the spliced bytes, and the old head still reads the old content |
| `FileData.ShrinksInPlaceUnlessBlockStart` | littlefs/lfs.cpp:3095-3112 | looking the new head up at position n is right if and only if n is not the first byte of a block |
| `FileData.CutToOneBlock` | littlefs/lfs.cpp:3095-3112 | cutting a file to exactly one block is an input at which it is wrong |
| `FileData.File.Shrink` | littlefs/lfs.cpp:3074-3143 | a truncation that shrinks in place leaves exactly the first n bytes; any other leaves a head one block behind the end |
| `FileData.File.ReadBehind` | littlefs/lfs.cpp:2854-2880 | then a read in the last block returns the block behind at that offset: a byte that was cut away, or one of a pointer |
| `Crc.TableIsShifts` | littlefs/lfs_util.cpp:15-20 | the sixteen constants are four bit-shifts each of their index |
| `Crc.PolynomialReflected` | littlefs/lfs_util.h:201-202 | the polynomial of the shifts is 0x04c11db7, read from its lowest bit |
| `Crc.TableByteIsCrcByte` | littlefs/lfs_util.cpp:24-27 | two table steps are the eight shifts of a byte |
| `Crc.LfsCrc` | littlefs/lfs_util.cpp:14-30 | the table loop computes the reflected CRC-32 bit by bit, for all data and starting values |
| `Crc.CrcAppend` | littlefs/lfs.cpp:1313-1363 | the checksum of a concatenation continues that of its first part |
| `Crc.CrcOfSealed` | littlefs/lfs.cpp:1325-1363 | data followed by its own little-endian checksum sums to zero |
| `Crc.CrcInjective` | littlefs/lfs.cpp:1313-1363 | different starting values never end in the same checksum |
| `Crc.BurstDetected` | littlefs/lfs.cpp:1313-1363 | messages of one length that differ only within four consecutive bytes have different checksums |
| `Tags.UnpackPacked` | littlefs/lfs.cpp:293-340 | type, id and size come out of a packed tag, and lie in its upper eleven, middle ten and lower ten bits |
| `Tags.PackUnpacked` | littlefs/lfs.cpp:293-340 | every valid tag word is the packing of its parts |
| `Words.ByteOrderRoundTrip` | littlefs/lfs.cpp:1247-1277 | words survive both byte orders; what each of the four bytes weighs |
| `DirLog.NthOfApply` | littlefs/lfs.cpp:909-925 | creates shift later ids up, deletes shift them down, attributes stay with their entry |
| `DirLog.BackwardIsForward` | littlefs/lfs.cpp:535-595 | for every log, entry and kind, the backward walk finds the last write that forward replay leaves |
| `DirLog.PendingMoveIsDelete` | littlefs/lfs.cpp:542-547 | looking past a pending move is looking in the log with that DELETE appended |
| `DirLog.WalkInParts` | littlefs/lfs.cpp:550-592 | a walk over two logs is a walk over the second carried on in the first |
| `DirLog.WalkStays` | littlefs/lfs.cpp:550-592 | on its way back through a log the file system wrote, a walk never leaves the ids that fit a tag |
| `DirLookup.Get` | littlefs/lfs.cpp:535-602 | reading the exclusive-or chain of a block backwards answers as replay does, with and without a pending move |
| `DirLookup.AnswerIs` | littlefs/lfs.cpp:573-590 | removed records count as missing; the tag names the id asked for, and the buffer gets the first bytes, and zeros behind them |
| `DirLookup.GetGlobal` | littlefs/lfs.cpp:535-602 | without an id the last record of the type is found |
| `DirScan.Fetch` | littlefs/lfs.cpp:828-977 | the tag loop over a block finds what the step-by-step scan defines: the last state that a matching checksum promotes, and that the block may be appended to exactly if whole program units are left behind it and no record was begun there |
| `DirScan.ErasedExactly` | littlefs/lfs.cpp:851-886 | a block counts as erased if and only if its last commit ends a program unit and the word behind it is no tag, so never if a record was begun behind it, by a commit that is torn or whose checksum does not match |
| `DirScan.FetchedUnderChecksums` | littlefs/lfs.cpp:893-931 | up to its last commit a fetched block falls into parts that each have a checksum of their own, and it matches |
| `DirCommit.StepOverRecord` | littlefs/lfs.cpp:1238-1281 | a stored record is read back as it was written |
| `DirCommit.StepOverFooter` | littlefs/lfs.cpp:1306-1344 | a stored checksum tag promotes everything read so far |
| `DirCommit.FooterSeals` | littlefs/lfs.cpp:1325-1344 | what a checksum tag covers, with the tag, sums to zero |
| `DirCommit.NextWordInvalid` | littlefs/lfs.cpp:1316-1323 | the chosen tag bit makes the word behind the commit no tag |
| `DirCommit.ScanStops` | littlefs/lfs.cpp:851-858 | after such a commit a scan stops there, with the block still appendable unless full |
| `DirCommit.Writer.CommitAttr` | littlefs/lfs.cpp:1238-1281 | a record is stored exactly if it leaves room for a checksum, and every later scan reads it back |
| `DirCommit.Writer.WriteFooters` | littlefs/lfs.cpp:1295-1344 | checksum tags fill the program unit without adding to what the log says |
| `DirCommit.Writer.CheckFooters` | littlefs/lfs.cpp:1352-1371 | re-reading the commit on a device that keeps its bytes never reports an error |
| `DirCommit.Writer.CommitCrc` | littlefs/lfs.cpp:1283-1374 | if and only if there is room for a checksum, every scan of the block ends with exactly this commit |
| `DirUpdate.RamIsScanned` | littlefs/lfs.cpp:1750-1765 | the count, tail and split kept in memory are those a scan makes of the records |
| `DirUpdate.RamCountsEntries` | littlefs/lfs.cpp:1750-1765 | the count kept in memory is the number of entries that replaying the records leaves, through creates and deletes |
| `DirUpdate.AppendCommit` | littlefs/lfs.cpp:1786-1856 | a successful append is fetched with memory's offset, tag, count, tail and split, and the old records followed by the new; the count is the number of entries that replay then leaves, if it was so before, and the tail the last one among the records; it succeeds exactly if they fit |
| `DirUpdate.CommitIsVisible` | littlefs/lfs.cpp:1786-1856 | lookups in the fetched block walk through the old log carried on by the commit |
| `DirUpdate.CompactBlock` | littlefs/lfs.cpp:1589-1690 | the other block becomes a directory of exactly the given records, under the given revision |
| `DirRecovery.FetchedLogAt` | littlefs/lfs.cpp:787-977 | the log that a fetch promotes is the one that lookups walk backwards |
| `DirRecovery.FetchResumes` | littlefs/lfs.cpp:828-977 | bytes behind the last commit play no part in finding it |
| `DirRecovery.SummaryTail` | littlefs/lfs.cpp:926-934 | the tail that a scan remembers is that of the last tail record, hard or soft as that one is; without one the directory leads nowhere |
| `DirRecovery.WholeIsTrusted` | littlefs/lfs.cpp:893-931 | the assumption about torn bytes holds of the finished block |
| `DirRecovery.NothingNewIsTrusted` | littlefs/lfs.cpp:893-931 | and of any bytes in which no new checksum is accepted |
| `DirRecovery.TornScan` | littlefs/lfs.cpp:828-977 | whatever a scan of torn bytes promotes, the finished block promotes as well |
| `DirRecovery.PromotedIsWhole` | littlefs/lfs.cpp:893-931 | a scan never promotes a part of a commit's records, nor its global-state delta without them |
| `DirRecovery.TornAppend` | littlefs/lfs.cpp:1786-1856 | after power fails anywhere in an append, a fetch finds the last whole commit or the new directory, entries, tail and stored global-state delta together, never a mixture; it may be appended to only if nothing was begun behind |
| `DirRecovery.Fetch` | littlefs/lfs.cpp:796-847 | of a pair, the newer block is taken if it holds a commit, or else the other |
| `DirRecovery.NewerOneWay` | littlefs/lfs_util.h:149-151 | revision comparison survives wrap-around, and the next revision is always newer |
| `DirRecovery.TornCompaction` | littlefs/lfs.cpp:1589-1705 | after power fails anywhere in a compaction, a fetch finds the directory as it was or the finished one, the stored global-state delta with it |
| `DirCompact.Filter` | littlefs/lfs.cpp:665-691 | the inner traversal computes the fate of a record under those that follow it |
| `DirCompact.FateIsWalk` | littlefs/lfs.cpp:665-691 | a record survives under an id if and only if the backward walk from that id reaches it |
| `DirCompact.Traverse` | littlefs/lfs.cpp:693-785 | what a filtered traversal hands to its callback for a range of ids |
| `DirCompact.EmittedIsFound` | littlefs/lfs.cpp:733-755 | a record is kept as the newest of its kind exactly when a lookup finds it |
| `DirCompact.CompactionKeepsMeaning` | littlefs/lfs.cpp:1611-1639 | every value of every entry in the range is the same after compaction as before |
| `DirCompact.CompactionKeepsLookups` | littlefs/lfs.cpp:1611-1639 | so lookups of names and structs by class, and of user attributes by type, find what they found |
| `DirSplit.WrittenIsPiece` | littlefs/lfs.cpp:1611-1667 | a block compacted for a range of ids has those entries, their number, the tail and the state delta |
| `DirSplit.SizeOfMonotone` | littlefs/lfs.cpp:1495-1504 | fewer ids take no more room |
| `DirSplit.GuardIsShort` | littlefs/lfs.cpp:1509-1515 | entries that pass the size guard fit in the block if and only if they leave room for tail and delta together |
| `DirInputs.GuardPassesTooMuch` | littlefs/lfs.cpp:1509-1515 | two files with attributes of 217 bytes in a block of 512 pass the guard and do not fit with a tail and a delta |
| `DirSplit.Compactor.Write` | littlefs/lfs.cpp:1589-1690 | one block is written, if and only if everything fits, and stores what was owed; else nothing changes |
| `DirSplit.Compactor.Split` | littlefs/lfs.cpp:1433-1464 | the upper ids move to a new pair and link to the old tail, and the root goes with its first id; nothing but drawn blocks is written; a failure leaves what was owed as it was, or stored apart, the latter only for ids that neither fit nor are a single one |
| `DirSplit.Compactor.Compact` | littlefs/lfs.cpp:1484-1540 | over any number of splits, if the allocator draws no block twice, the chain of pairs holds the same entries in order, then the old tail; the stored deltas add up to what was owed; until the last write nothing but drawn blocks is written; a worn superblock hands on all entries and the root |
| `DirSplit.Compactor.CompactDirectory` | littlefs/lfs.cpp:1433-1540 | the drawn pairs share no block if and only if there are two unvisited blocks for each, and then the chain holds the entries; it succeeds with two whatever it splits, and with two splits they are broken |
| `DirSplit.SharedPairsDoNotCover` | littlefs/lfs.cpp:1433-1464 | two pieces in the same two blocks never make a chain |
| `DirSplit.PieceIsFetched` | littlefs/lfs.cpp:1385-1399 | a fetch of a pair picks the block that was written, whatever the other block of a fresh pair holds |
| `DirSplit.TornBeforeLast` | littlefs/lfs.cpp:1484-1540 | power lost before the last write of a compaction leaves the directory as it was |
| `DirSplit.TornLastWrite` | littlefs/lfs.cpp:1589-1690 | power lost in the last write leaves the directory as it was, or the finished piece with all that was split off behind it |
| `DirInputs.FilesAreOrderly` | littlefs/lfs.cpp:965-973 | any list of files sorted by their letters is an orderly directory with every entry named |
| `DirInputs.SizeOfFiles` | littlefs/lfs.cpp:1495-1504 | the size of a range of them is the sum of their sizes |
| `DirInputs.TwoBlocksToSpare` | littlefs/lfs.cpp:1433-1464 | three files of 140 bytes in blocks of 512, and two blocks to spare: the compaction succeeds and the chain does not hold them |
| `Handles.MovedIsTraced` | littlefs/lfs.cpp:1876-1901 | a handle's new id is exactly the one that walks back to its old id |
| `Handles.SameEntry` | littlefs/lfs.cpp:1876-1901 | the handle names the same entry: its history carries on |
| `Handles.StayApart` | littlefs/lfs.cpp:1876-1901 | handles on different entries never meet |
| `Handles.Handle.Follow` | littlefs/lfs.cpp:1876-1901 | the first pass renumbers the handle, or nulls it if and only if its entry was deleted |
| `Handles.Handle.Settle` | littlefs/lfs.cpp:1903-1913 | after any splits the handle is on the pair that holds its entry, under the entry's id there, as fetches of the pairs find it |
| `DirFind.FindMatch` | littlefs/lfs.cpp:1088-1110 | names compare byte by byte, longer ones first |
| `DirFind.CompareChains` | littlefs/lfs.cpp:1088-1110 | this comparison is transitive |
| `DirFind.FirstDifference` | littlefs/lfs.cpp:1096-1105 | the first byte that differs decides, and without one a stored name comes before those it begins, as the code orders them |
| `DirFind.MatchIsRight` | littlefs/lfs.cpp:909-973 | while a directory is scanned, the remembered id follows the entry through creates and deletes, or marks where it belongs; a superblock is no name |
| `DirFind.FoundOrPlaced` | littlefs/lfs.cpp:940-1012 | a name is found if and only if an entry has it; otherwise the id separates the smaller names from the greater, behind a superblock if there is one |
| `DirFind.FindName` | littlefs/lfs.cpp:940-1012 | the search of a directory, past a pending move, finds what replaying that DELETE leaves |
| `DirOrder.FormattedRoot` | littlefs/lfs.cpp:3706-3710 | a formatted root is orderly; no name is found in it, and every name's place is 1, behind the superblock |
| `DirOrder.InsertKeepsOrderly` | littlefs/lfs.cpp:965-973 | creating the entry where the search says keeps the names sorted, the superblock in front and all entries named |
| `DirOrder.DeleteKeepsOrderly` | littlefs/lfs.cpp:909-925 | so does deleting a named entry |
| `DirOrder.OtherKeepsOrderly` | littlefs/lfs.cpp:909-925 | so do structs, attributes, tails, states and checksums |
| `DirOrder.CompactedKeepsOrderly` | littlefs/lfs.cpp:1611-1639 | so does compacting any range of ids |
| `DirOrder.FetchCountsEntries` | littlefs/lfs.cpp:909-934 | the count that a fetch finds in an orderly directory with every entry named is the number of entries that replay leaves, as the search of a directory asks |
| `GlobalState.ClearIsLinear` | littlefs/lfs.cpp:1642-1648 | clearing the orphan count commutes with adding deltas |
| `GlobalState.ClearedIs` | littlefs/lfs.cpp:1648 | what is cleared is the size field of the tag, and nothing else |
| `GlobalState.BytesRoundTrip` | littlefs/lfs.cpp:390-400 | a delta survives storing: its tag, then the two blocks of its pair, little-endian |
| `GlobalState.GetGState` | littlefs/lfs.cpp:1030-1046 | adds the delta a directory stores, or nothing |
| `GlobalState.XorAllInAnyOrder` | littlefs/lfs.cpp:3845-3849 | the sum over all directories does not depend on their order |
| `GlobalState.Globals.Commit` | littlefs/lfs.cpp:1814-1856 | after a commit the deltas of all directories still add up to the disk's state less its orphan count; no other directory's delta changes |
| `GlobalState.Globals.Compact` | littlefs/lfs.cpp:1654-1687 | so they do after a compaction that splits any number of times and then writes its own block; if that fails, exactly if it had split nothing off or nothing was owed |
| `GlobalState.Globals.Drop` | littlefs/lfs.cpp:1414-1431 | so they do after a directory is dropped, its delta taken over |
| `GlobalState.Globals.FailedDropThenCommit` | littlefs/lfs.cpp:1414-1431 | after a drop that failed, the next commit keeps the sum right if and only if the dropped delta was zero |
| `GlobalState.DropThatLoses` | littlefs/lfs.cpp:1414-1431 | any delta held by two directories makes it wrong |
| `GlobalState.SplitThatLoses` | littlefs/lfs.cpp:1654-1687 | any new state is lost to a compaction that splits once and fails |
| `GlobalState.Globals.Remount` | littlefs/lfs.cpp:3845-3866 | mounting recovers the disk's state from the deltas in any order, the orphan count reduced to whether there were any |
| `Rename.NewEntryIsRenamed` | littlefs/lfs.cpp:754-765 | a moved entry has the new name, the type of the old one (a file or a directory) and every struct and attribute of it |
| `Rename.ReplaySamePair` | littlefs/lfs.cpp:3334-3385 | within one directory, one commit puts the new entry in place and takes the old one out under the id it then has |
| `Rename.Volume.Rename` | littlefs/lfs.cpp:3372-3403 | after each commit of a rename the visible tree is exactly the renamed one, before the first it is the old one, whichever commits fail; what memory and disk hold of the move then |
| `Rename.Volume.FirstFailsThenCommit` | littlefs/lfs.cpp:3372-3389 | after a rename whose first commit failed, the next commit leaves the tree it should if and only if the rename stayed in its directory or the old place has gone |
| `Rename.Volume.SecondFailsThenCommit` | littlefs/lfs.cpp:3391-3402 | after one whose second failed, a commit that skips the pending move keeps what was seen if and only if the old place has gone |
| `Rename.StrayMove` | littlefs/lfs.cpp:542-547 | a pending move changes what is seen if and only if there is an entry in its place |
| `Rename.CarriedOut` | littlefs/lfs.cpp:4406-4434 | carrying out a pending move changes nothing that can be seen |
| `Rename.Volume.Demove` | littlefs/lfs.cpp:4406-4434 | after a mount the pending move is made physical, and the visible tree stays |
| `Orphans.RepairIsRight` | littlefs/lfs.cpp:4436-4511 | in a repaired list every head is named by an entry as exactly that pair, no entry changes, everything with a parent is still there |
| `Orphans.RepairKeepsOrder` | littlefs/lfs.cpp:4436-4511 | the repaired list is the directories that are no orphans, in their order, each with its entries and its way on, and with its link unless its parent names other blocks |
| `Orphans.HeadsApart` | littlefs/lfs.cpp:4436-4511 | after the repair different heads have different blocks if and only if before it no two found the same entry |
| `Orphans.OneLinkEach` | littlefs/lfs.cpp:4436-4511 | which holds if no entry shares a block with the links to two heads |
| `Orphans.AstrayLink` | littlefs/lfs.cpp:4436-4511 | a stale link that shares blocks with two entries can be led to where another link leads |
| `Orphans.TailList.FindParent` | littlefs/lfs.cpp:4269-4294 | the first directory with an entry that shares a block, and the pair it names |
| `Orphans.ParentIsFirst` | littlefs/lfs.cpp:4269-4294 | place by place: no entry of an earlier directory shares a block, nor a later one of that directory |
| `Orphans.TailList.Deorphan` | littlefs/lfs.cpp:4436-4511 | the repair ends, and leaves the repaired list |
| `OrphanFlag.Upkeep.Mkdir` | littlefs/lfs.cpp:1964-2014 | after every commit of making a directory the repair is right and called for if needed, whichever commits fail; there is an orphan at the end exactly if the last one fails in a directory of several pairs; on success the list has an empty directory behind the last pair of the parent and its name at its place in the parent, after a first commit alone only the former, and all else is as before |
| `OrphanFlag.Upkeep.Remove` | littlefs/lfs.cpp:3233-3276 | so it is for removing one; there is an orphan at the end exactly if it cannot be taken off the list; its name is gone after the first commit, the directory after the second, and nothing else |
| `OrphanFlag.Upkeep.RenameOver` | littlefs/lfs.cpp:3346-3424 | and for renaming an entry, which may name a directory, over one: the entry ends up in the place of the one it replaces |
| `OrphanFlag.Upkeep.NextCommit` | littlefs/lfs.cpp:4391-4396 | the next commit keeps the mark of a list with an orphan if and only if the count was not taken back |
| `OrphanFlag.Upkeep.MkdirThenCommit` | littlefs/lfs.cpp:1976-2014 | so a new directory is lost exactly if its last commit failed, with its parent of several pairs |
| `OrphanFlag.Upkeep.RemoveThenCommit` | littlefs/lfs.cpp:3233-3276 | and a removed one exactly if taking it off the list failed |
| `OrphanFlag.DirectoryThatIsLost` | littlefs/lfs.cpp:1976-2014 | a directory made in a root of two pairs |
| `Allocator.SlotExact` | littlefs/lfs.cpp:463-473 | the bit of a block is the right one if and only if the device has at most 2^31 blocks |
| `Allocator.Allocator.Mark` | littlefs/lfs.cpp:463-473 | after a traversal exactly the visited blocks within the window are marked |
| `Allocator.Allocator.Ack` | littlefs/lfs.cpp:475-477 | an acknowledgement starts a new count of blocks handed out |
| `Allocator.Allocator.Reset` | littlefs/lfs.cpp:481-486 | a reset starts an empty window anywhere |
| `Allocator.Allocator.Scan` | littlefs/lfs.cpp:490-512 | the rest of a window yields a block whose bit is clear, or passes over marked blocks only |
| `Allocator.Allocator.Alloc` | littlefs/lfs.cpp:488-532 | a block handed out is neither in use nor handed out since the last acknowledgement; the device is full only if every block was one or the other; it always ends; on the way it passes over blocks in use and blocks marked from earlier only |
| `Allocator.Allocator.AllocPair` | littlefs/lfs.cpp:1376-1383 | with an acknowledgement before each pair, no block is drawn twice before the allocator has been all around; drawing fails only if one block or none is to be had |
| `Allocator.Allocator.DrawnExactly` | littlefs/lfs.cpp:488-532 | so the blocks drawn repeat exactly if they are more than the unvisited ones |
| `Aligned.AlignedFits` | littlefs/lfs_util.h:102-108 | what fits in whole units still fits when rounded up to a unit |
| `BlockCache.BypassNeverStalls` | littlefs/lfs.cpp:68-85 | whole units fit in front of pending bytes wherever both begin if and only if the read size divides the program size |
| `BlockCache.Bd.ReadSome` | littlefs/lfs.cpp:36-109 | a turn of the read loop takes bytes as the device under the pending bytes has them, or loads the cache; it does nothing exactly if the read hangs and has come to the unit of the pending bytes |
| `BlockCache.Bd.ReadFor` | littlefs/lfs.cpp:36-109 | a read that hangs is not over after any number of turns, any other after two turns a byte |
| `BlockCache.Bd.NeverHangs` | littlefs/lfs.cpp:68-85 | no read hangs if the read size divides the program size |
| `BlockCache.HangingRead` | littlefs/lfs.cpp:68-85 | for all other sizes that `lfs.h` allows, one programmed byte makes a read hang |
| `BlockCache.Bd.Read` | littlefs/lfs.cpp:27-112 | any mix of hits, misses and bypass returns the device under the pending bytes, and ends, unless the read hangs |
| `BlockCache.Bd.Cmp` | littlefs/lfs.cpp:120-141 | equal if and only if the device holds the data; otherwise the first byte that differs decides, lower if the device has the lower byte |
| `BlockCache.Bd.Flush` | littlefs/lfs.cpp:143-177 | a validated flush that succeeds means the device holds the buffer, whatever its prog does; nothing else changes |
| `BlockCache.Bd.Sync` | littlefs/lfs.cpp:179-191 | afterwards the read cache agrees with the device, and what was pending is stored |
| `BlockCache.Bd.Prog` | littlefs/lfs.cpp:193-244 | what is seen of the block is the data in its place, behind what the buffer held where it was skipped; refused exactly if the cache holds other bytes; no other block changes |
| `BlockCache.Bd.NothingSkipped` | littlefs/lfs.cpp:200-241 | nothing is programmed along if and only if the program goes on within the pending bytes or begins a unit |
| `PathWalk.WalkIsStack` | littlefs/lfs.cpp:1125-1160 | for every path, the names looked up are those a clamped stack leaves if "." is a name until the end |
| `PathWalk.ComponentsAreRuns` | littlefs/lfs.cpp:1127-1129 | the components of a path are its longest pieces without slashes, all of them, in order |
| `PathWalk.WalkNormalises` | littlefs/lfs.cpp:1125-1160 | without "." the walk is the usual normalisation |
| `PathWalk.WalkNormalisesIff` | littlefs/lfs.cpp:1125-1160 | the walk is the usual normalisation if and only if one pass over the path counts no excess, and the excess is by how many names it is too long |
| `PathWalk.DotsCount` | littlefs/lfs.cpp:1133-1157 | the excess at "a/./..": it leads to "a", not to the root |
| `PathWalk.FindCancel` | littlefs/lfs.cpp:1140-1160 | the forward scan finds the ".." that cancels a name, and where the walk goes on |
| `PathWalk.Walk` | littlefs/lfs.cpp:1124-1210 | the character loop looks up exactly those names, moving forward only |
| `Stepped.Traverse` | littlefs/lfs.cpp:4033-4113 | reports the blocks of every directory on the list and of open files, up to the first error or the loop bound |
| `Stepped.TraverseIsRight` | littlefs/lfs.cpp:4033-4113 | of the directories visited along the list every one's blocks are reported, in full and in turn, and nothing else but those of open files behind them; after an error all up to there |
| `Stepped.Traversal.Step` | littlefs/lfs.cpp:4115-4208 | each call keeps the outcome and brings it nearer |
| `Stepped.TraverseInSteps` | littlefs/lfs.cpp:4115-4208 | repeated calls report what the loop reports, within three calls more than the list bound |
| `Stepped.Mount` | littlefs/lfs.cpp:3736-3878 | the mount loop over the list of directories, which `Stepped.MountIsRight` says the outcome of |
| `Stepped.MountIsRight` | littlefs/lfs.cpp:3758-3866 | each limit is the least of ours and those of its kind in the superblocks found, the root is the last directory with a superblock, the global state is the sum of the deltas; `Invalid` if and only if, in a list that can be read, a version is not 2.0, a limit exceeds ours or an earlier one, or there is no superblock; else the error of the directory that cannot be read, or of a list that is too long |
| `Stepped.Mounting.Step` | littlefs/lfs.cpp:3880-4022 | each call keeps the outcome of the mount and brings it nearer |
| `Stepped.MountInSteps` | littlefs/lfs.cpp:3880-4022 | repeated calls end with the same state or error as the loop, within three calls more than the list bound |
| `Stepped.MountAddsUp` | littlefs/lfs.cpp:3845-3849 | a mount that succeeds has added up the deltas of all directories on the list |

## Left out

- Relocation of bad or worn blocks (`lfs_fs_relocate`, the relocate labels): `block_cycles` is -1 in this repository and commits here do not meet bad blocks.
- Inline files, user-attribute calls, and formatting beyond its first commit: only easier members.
- The hardware driver and the wrappers around the filesystem (`SDCard`, `DSPI_A`, `LittleFS`, `inc`); an abstract device stands for them. Device read errors are not modelled.
- `lfs_traverse_async`: it clears the bitmap on every call, so its window is not one the allocator may rely on.
- The caches are proved on their own; `CtzList.Store` and `DirCommit.Writer` act on the device as seen through them.
- Endianness is one byte encoding per field; buffers are sequences replaced whole where the source copies memory.
- The portable `lfs_popc` multiplication trick; its value is `Bits.Popc`.
- FileData.File.Shrink: models the shrinking half of `lfs_file_truncate` only; growing is a write of zeros and adds nothing to `FileData.File.Write`. When the head is one block too far on, reads from its last block are modelled, those from earlier blocks are not.
- DirCompact.Traverse: models attributes after LFS_FROM_MOVE and LFS_FROM_USERATTRS are expanded (`Rename.FromMove`) and ids as unbounded numbers.
- DirLookup.Get: does not model a slice at an offset other than 0, which only inline files read.
- DirSplit.Compactor.Compact: models no bad blocks, and takes as given when the superblock is worn and has room to be expanded; it does not model the count of revisions and blocks that decides this.
- Handles.Handle.Follow: does not model the position of a directory iterator.
- Rename.Volume.Rename: takes each commit as one step, as `DirRecovery.TornAppend` and `DirRecovery.TornCompaction` allow, and the pending move as a field, which `GlobalState.Globals.Remount` recovers from the deltas; the directory that a rename replaces is dropped later, as any orphan.
- OrphanFlag.Upkeep.Remove: models the search for the predecessor as part of the last commit; that it may fail is that commit's failure.
- OrphanFlag.Upkeep.RenameOver: does not model the commit between the two that takes a moved entry out of another directory; from the first commit on the pending move hides it there (`Rename.Volume.Rename`), and a repair carries the move out before it looks for orphans.
- Orphans.TailList.Deorphan: models the list as a sequence in which a corrected link leads to the same directory, and the error returns of fetches and commits are not modelled.
- BlockCache.Bd.Prog: does not model programs to the inline block, or to blocks beyond the device, which only its flush refuses.
- Stepped.Mounting.Step: models the form that searches for the global state; without that search the mount stops at the first superblock.
- Stepped.TraverseInSteps: loop and stepped form share one function for what a directory contributes; the source has two copies of that code, and that they are equal is assumed. `Stepped.MountInSteps` likewise.
