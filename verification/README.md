# Storage machinery under the VFS layer: a model and its proofs

The repository stacks four pieces of storage code on a RAM disk: littlefs, FatFs, the
page cache of SPIFFS, and a VFS layer with a mount list and a descriptor table.  This
project models the parts of them that keep data safe and proves what they promise.
`dafny verify dfyconfig.toml` checks everything.

**littlefs metadata** (`Lfs*.dfy`).  A directory is a log of XOR-chained tags in a pair of
blocks; CREATE and DELETE tags renumber the entries around them.  `LfsLog.Replay` gives a
log its meaning, oldest tag first: one value for each id and tag class, and a count.  The
code reads the same log in three other ways, each proved to agree with `Replay`: the
backward lookup with a running id correction (`LfsGet`), the self-filtering traversal
that rewrites a log when it is compacted or split (`LfsTraverse`, `LfsCompact`,
`LfsMeaning`, `LfsMinimal`, `LfsSplit`), and the forward scan of a fetch (`LfsPair`).  `LfsCommit` and
`LfsCrash` put commits on a pair of blocks and cut the power after any number of programmed
tags: a fetch finds the old meaning or the new one, over whole runs of commits.  `LfsImage`
and `LfsWrite` are the same on the bytes of a block: the scan with its valid bits and running
checksum, and the commit, with its padding and erase checksum, that such a scan reads back.
`LfsDamage` proves what the checksum is for: it decides whether a commit counts, and damage does
not go unnoticed.  `LfsAtomic` cuts a commit off at any byte and fetches the two blocks of the pair.
`LfsSplitting` writes the pairs of a split directory one after the other: the chain from the old
head is the old or the new one at every cut.  `LfsGstate` proves that the shares of the global move state always add up.

**littlefs data.**  `LfsUtil` and `LfsPopc` are the bit arithmetic; `LfsCtzIndex` and `LfsCtz`
prove the closed form that finds a position in a CTZ skip list, the number of pointer reads of
a lookup, and the traversal.  `LfsExtend` adds a block without touching any list in use.
`LfsAlloc` is the lookahead allocator with its checkpoints.  `LfsFile` puts them together into
a copy-on-write file that reads back what was written, while the last synced contents stay
readable at every byte that is programmed.  `LfsCache` is the layer of the program cache and
the read cache, `LfsCrc` the nibble-table CRC-32 (the polynomial of clause 3.2.9 of
IEEE 802.3, without a final XOR), `LfsTortoise` the cycle detector of the tail list.

**FatFs** (`Fat*.dfy`), as configured in `src/vfs/fatfs/ffconf.h`: 512-byte sectors, no exFAT,
no long names, a sector buffer in every file.  `FatEntry` packs FAT12, FAT16 and FAT32 entries,
`FatVolume` moves the one-sector window with its mirror write, `FatChain` and `FatAlloc`
allocate and remove cluster chains, `FatData` and `FatFile` read, write and seek.  `FatFormat`
shows that mounting derives the geometry that formatting chose.  The type limits are the
shifted ones of `src/vfs/fatfs/ff.c:41-43`, not those of the Microsoft FAT32 File System
Specification 1.03, section "FAT Type Determination".

**SPIFFS page cache** (`SpiffsCache`) and **VFS** (`VfsMounts` for the circular list and the
lookup of a mount, `VfsRefs` for the reference counter over every run of the code, in every
interleaving of tasks: how far each step moves the counter away from the references, and the
guards under which none does).

Code that updates state is a class with those fields and methods that loop as the code
does; each method is proved against a function of the old state, and the properties are
lemmas about that function.  `old`-style contracts speak of *views*: the contents a reader would
see (`LfsFile.File.View`, `FatFile.Fil.View`, `LfsCache.Bd.Seen`, `FatVolume.Volume.Fat`).

Where the code falls short of what one would expect of it, the model keeps the code and says
exactly when, each with an input:

- Looking up a file at the id of a pending move answers "no entry" although the file after it
  has slid down to that id: `LfsGet.PendingMoveExact`, example `LfsGet.PendingMoveExample`.
- Compaction brings a user attribute back that was set by a list and then deleted in one and the
  same commit, when another tag follows: `LfsMeaning.CompactionPreserves`, example
  `LfsMeaning.RevivingExample`.  No caller commits such a list (`LfsMeaning.CallersReviveNone`).
- The lookahead allocator reports a full disk while blocks freed since the last scan are still
  marked in its window: `LfsAlloc.FullReportExact`, example `LfsAlloc.FreedButFull`.
- A `spiffs_phys_wr` with write-through to a page that is cached leaves a stale page:
  `SpiffsCache.Spiffs.PhysWr`, example `SpiffsCache.StalePage`.
- `vfs_opendir` keeps its reference when the driver has no directories: `VfsRefs.CounterExact`,
  `VfsRefs.LostForever`, example `VfsRefs.LostReference`.
- `vfs_closedir` of a stream whose `vfs_opendir` failed gives a reference back that is not there:
  `VfsRefs.BooksExact`, example `VfsRefs.StaleStream`, where a mount with an open file is
  unmounted without force.
- Closing one descriptor from two tasks at once gives its reference back twice:
  `VfsRefs.BooksExact`, example `VfsRefs.DoubleClose`.
- With 2^16 references the counter of a mount reads zero: `VfsRefs.UmountLockExact`, example
  `VfsRefs.WrappedAround`, where lost references add up until a mount with an open file is
  unmounted without force.
- Mounting adds up the system area in 32 bits: `FatFormat.MountedFits`, example
  `FatFormat.WrappedExample`.
- `remove_chain` does not count a previous cluster that was free: `FatAlloc.Allocator.RemoveChain`
  says exactly when the free count suffers, example `FatAlloc.FreePrevious`.  No caller passes a
  free cluster: `f_truncate` reads its link first (`FatAlloc.Allocator.CutBehind`), and every other
  call passes 0.

## Model

| member | source | states |
|---|---|---|
| LfsLog.ApplyGet | src/vfs/littlefs/lfs.c:1246-1275 | one tag of the log, seen from a key: CREATE and DELETE renumber, a deleted tag removes, any other file tag sets its own key only |
| LfsChain.UnpackPack | src/vfs/littlefs/lfs.c:350-392 | type, id and size come back out of the 31 bits of a tag |
| LfsChain.Unchain | src/vfs/littlefs/lfs.c:1164-1195 | XORing a word of the log with the tag before it gives the tag, and XORing it with the tag gives the one before: the chain decodes in both directions |
| LfsChain.CommittedWord | src/vfs/littlefs/lfs.c:1629-1662 | the valid bit of the previous tag has no part in the word a commit writes |
| LfsChain.ScanForward | src/vfs/littlefs/lfs.c:1164-1200 | the forward scan of an image decodes exactly the tags of the log it holds |
| LfsGet.StepUndoesApply | src/vfs/littlefs/lfs.c:733-775 | one step of the backward scan, with its id correction, undoes one step of replay: it answers, or asks the question that the older log answers the same |
| LfsGet.ScanIsReplay | src/vfs/littlefs/lfs.c:718-781 | scanning any log backwards gives the value forward replay gives, and none exactly when replay has none |
| LfsGet.GetSlice | src/vfs/littlefs/lfs.c:718-781 | on the bytes of any log, for masks of a full type or a top class and from the start of the payload: the tag and the payload (cut or zero-padded to the caller's size) that replay assigns, or no entry exactly when there is none, through the XOR chain and with a pending move |
| LfsGet.ScanBackward | src/vfs/littlefs/lfs.c:733-781 | the same for the loop, from any initial id correction |
| LfsGet.ReadPayload | src/vfs/littlefs/lfs.c:757-772 | the bytes read after a tag are that entry's payload |
| LfsGet.VisibleAnswer | src/vfs/littlefs/lfs.c:725-731 | hiding the file of a pending move is the same as starting with an id correction of minus one behind it |
| LfsGet.PendingMoveExact | src/vfs/littlefs/lfs.c:725-731 | with a pending move the answer is right if and only if the lookup is not for the moved id with a file following it |
| LfsGet.PendingMoveExample | src/vfs/littlefs/lfs.c:725-731 | a two-file log on which the lookup at the moved id answers "no entry" |
| LfsTraverse.Filter | src/vfs/littlefs/lfs.c:852-880 | filtering a tag through the rest of the block and the attributes keeps it, with its shifted id, exactly when no later item deletes or supersedes it |
| LfsTraverse.CollectKeeps | src/vfs/littlefs/lfs.c:912-1104 | for every item list and key: the last collected value, also when read without deletions or among groups only, in terms of replay |
| LfsTraverse.CollectMeaning | src/vfs/littlefs/lfs.c:912-1104 | the last value the traversal collects for a key is the replayed one if and only if the list does not revive that key |
| LfsTraverse.BuriedIs | src/vfs/littlefs/lfs.c:852-880 | a key is buried exactly when a group set it and the log no longer has it |
| LfsCompact.Traverse | src/vfs/littlefs/lfs.c:912-1104 | the traversal of a block and pending attributes over ids [begin, end) emits the collected entries of that window, renumbered from 0 |
| LfsCompact.TraverseMove | src/vfs/littlefs/lfs.c:1000-1060 | FROM_MOVE emits the structs and user attributes that survive in the source log, under the target id |
| LfsCompact.TraverseUserAttrs | src/vfs/littlefs/lfs.c:1061-1075 | FROM_USERATTRS emits every attribute of the list, in order, under the id of its tag |
| LfsMeaning.CompactionGet | src/vfs/littlefs/lfs.c:912-1104 | key by key: what replaying the compacted log gives, and when it equals log-then-attributes |
| LfsMeaning.CompactionShape | src/vfs/littlefs/lfs.c:2014-2021 | a compacted log holds no splices, only file tags with ids below end - begin |
| LfsMeaning.CompactionPreserves | src/vfs/littlefs/lfs.c:852-1104 | for every log, attribute list and window: replaying the compacted log gives exactly the files of log-then-attributes at ids [begin, end), if and only if the attributes revive nothing there |
| LfsMeaning.CompactionCount | src/vfs/littlefs/lfs.c:2014-2021 | a fetch of the compacted log counts end - begin files when the last one has a name |
| LfsMeaning.CallersReviveNone | src/vfs/littlefs/lfs.c:3472-3480 | attribute lists that delete nothing after a move or an attribute list revive nothing |
| LfsMeaning.RevivingExample | src/vfs/littlefs/lfs.c:852-880 | a list of three attributes whose deleted attribute the compacted log has back |
| LfsMeaning.MoveCopies | src/vfs/littlefs/lfs.c:1000-1060 | a move gives the target id every struct and user attribute of the source file and changes no other key |
| LfsMinimal.CollectOnce | src/vfs/littlefs/lfs.c:852-1104 | whatever list is collected, nothing outside a group is followed by a tag for the same key, and a deletion by nothing that filters |
| LfsMinimal.CompactedOnce | src/vfs/littlefs/lfs.c:858-872 | a compacted log sets no key twice, and deletes at most with its last entry (for attributes that are single tags) |
| LfsMinimal.CompactedSize | src/vfs/littlefs/lfs.c:2014-2021 | it has as many entries as there are things the files still have, and one more only for an attribute deleted last, however long the log was |
| LfsSplit.CommitSize | src/vfs/littlefs/lfs.c:1914-1929 | the size found by traversing is that of the tags compaction will emit |
| LfsSplit.SplitPoint | src/vfs/littlefs/lfs.c:2127-2176 | the halving loop stops at the first cut behind which there is one file or little enough for a pair |
| LfsSplit.ChainIsOnePiece | src/vfs/littlefs/lfs.c:2124-2194 | wherever the cuts are, walking the chain of parts finds exactly what compacting in one piece would have kept: nothing is lost, nothing is there twice |
| LfsSplit.ChainPreserves | src/vfs/littlefs/lfs.c:2124-2194 | the chain has the value of log-then-attributes at a key if and only if the attributes do not revive it |
| LfsSplit.SplittingCompact | src/vfs/littlefs/lfs.c:2124-2231 | with any number of spare pairs the parts cover the ids in order, each split off at the first cut that leaves it room, a log that has room is not split, and the chain means the whole (without the expansion of the superblock) |
| LfsSplitting.ChainUnique | src/vfs/littlefs/lfs.c:2785-2800 | following hard tails from a pair until one is not hard passes one chain of pairs, and no other |
| LfsSplitting.ChainDevice.Split | src/vfs/littlefs/lfs.c:1879-1909 | with every write of a pair atomic: the parts are written from the last one to the first, each linked to the one behind, and the old pair last; in every state on the way the pairs from the old head on are the old chain or the new one, and at the end the new one, whose files are those of compacting in one piece |
| LfsGstate.DecodeEncode | src/vfs/littlefs/lfs.c:441-453 | the global state comes back out of its twelve little-endian bytes |
| LfsGstate.TotalUpdate | src/vfs/littlefs/lfs.c:1394-1410 | XORing a change into one pair's share XORs it into the sum of all shares |
| LfsGstate.MaskedIs | src/vfs/littlefs/lfs.c:2303-2303 | masking takes the ten orphan bits away and nothing else: type, id and both blocks of a pending move stay |
| LfsGstate.Balance | src/vfs/littlefs/lfs.c:2298-2325 | the change a commit writes takes the sum of shares from gdisk xor gdelta to gstate, up to the orphan bits, which it leaves out |
| LfsGstate.Global.Append | src/vfs/littlefs/lfs.c:2298-2337 | an appended commit keeps the sum of shares xor gdelta equal to gdisk up to the orphan bits, and afterwards the sum on disk is gstate, with the id of a pending move, and without orphans |
| LfsGstate.Global.Compact | src/vfs/littlefs/lfs.c:2044-2094 | the same for a compaction; one that relocated keeps gdisk instead |
| LfsGstate.Global.Split | src/vfs/littlefs/lfs.c:1879-1909 | the same when a new pair appears in the list |
| LfsGstate.Global.Drop | src/vfs/littlefs/lfs.c:1858-1875 | the same when a pair is dropped and its share stolen |
| LfsCommit.CommitEndConcat | src/vfs/littlefs/lfs.c:1200-1262 | behind validated commits a fetch goes on into what follows |
| LfsCommit.AppendMeans | src/vfs/littlefs/lfs.c:2262-2337 | appending the tags of a commit gives the intended files, count, tail and share |
| LfsCommit.CompactMeans | src/vfs/littlefs/lfs.c:1951-2094 | rewriting the log by compaction gives the same intended meaning as appending |
| LfsCommit.CompactTail | src/vfs/littlefs/lfs.c:2028-2042 | a compacted log has the tail that the commit leaves, byte for byte, when that is a pair of blocks |
| LfsCrash.NewerNotBoth | src/vfs/littlefs/lfs_util.h:187-192 | of two revisions at most one is newer, across wrap-around |
| LfsCrash.NextRevNewer | src/vfs/littlefs/lfs.c:1957-1957 | the incremented 32-bit revision is newer than the old one, also where it wraps |
| LfsCrash.FetchedIs | src/vfs/littlefs/lfs.c:1107-1160 | a sound pair is fetched from its current block |
| LfsCrash.CutCommit | src/vfs/littlefs/lfs.c:1668-1812 | a commit cut after k tags ends the block at its old end until the checksum is there |
| LfsCrash.AppendAtomic | src/vfs/littlefs/lfs.c:1107-1384 | after any prefix of an appended commit, followed by anything that does not validate, the fetch gives the old meaning or the complete new one, and the new one from the checksum on |
| LfsCrash.RewriteAtomic | src/vfs/littlefs/lfs.c:1951-2094 | the same for a compaction into the other block, with an arbitrary revision while it is torn |
| LfsCrash.EventAtomic | src/vfs/littlefs/lfs.c:2233-2345 | any single attempt, complete or cut, keeps the pair sound and means all or nothing |
| LfsCrash.RunsAreAtomic | src/vfs/littlefs/lfs.c:2233-2345 | after any run of attempts with power losses the fetch gives the fold of exactly the commits that took, including every completed one |
| LfsPair.FetchBlock | src/vfs/littlefs/lfs.c:1164-1384 | the scan of one block learns the end of its last valid commit, and the count and tail of the log up to there, if no committed tag deletes the tail |
| LfsPair.FetchPair | src/vfs/littlefs/lfs.c:1107-1384 | trying the more recent block first and the other one then finds the meaning of the pair, and fails exactly when neither block has a commit |
| LfsPair.GetGstate | src/vfs/littlefs/lfs.c:1394-1410 | the backward scan for the newest move state XORs exactly the pair's share into the given state |
| LfsPair.TraverseAttrs | src/vfs/littlefs/lfs.c:2273-2297 | without a filter the traversal emits exactly the entries the attributes stand for |
| LfsPair.PairDevice.Program | src/vfs/littlefs/lfs.c:1603-1618 | programming tag by tag leaves every prefix of whole tags in the trace of device states |
| LfsPair.PairDevice.Rewrite | src/vfs/littlefs/lfs.c:1980-2012 | erasing and programming the other block leaves every prefix in the trace |
| LfsPair.TryAppend | src/vfs/littlefs/lfs.c:2262-2337 | an append succeeds exactly when its tags fit into the room, and leaves, like one that runs out of it, only states from which a fetch gives old or new |
| LfsPair.CompactInto | src/vfs/littlefs/lfs.c:1951-2094 | the same for a compaction that fits |
| LfsPair.RelocatingCommit | src/vfs/littlefs/lfs.c:2233-2379 | append exactly if the end is erased and the tags fit, and fall back to compaction otherwise, without splitting or relocating: afterwards the fetch gives the intended meaning, and every device state on the way gives old or new |
| LfsImage.ReadTag | src/vfs/littlefs/lfs.c:1184-1275 | one round of the scan: the next word is a tag only if its valid bit is clear and it ends inside the block, and a checksum tag counts only if the running checksum is the one behind it |
| LfsImage.FetchImage | src/vfs/littlefs/lfs.c:1164-1338 | on any bytes the scan ends behind the last commit whose checksum holds, with the count and the tail of the log up to there |
| LfsImage.ReadsHold | src/vfs/littlefs/lfs.c:1184-1230 | whatever the scan passes is a log that the block holds, chained word to word, with the valid bits taken off |
| LfsImage.FetchAndGet | src/vfs/littlefs/lfs.c:718-1384 | a fetch and then a lookup, on nothing but the bytes of a block, answer what replaying its committed log answers |
| LfsDamage.ChecksumDecides | src/vfs/littlefs/lfs.c:1200-1236 | a checksum tag counts if and only if the four bytes behind its word are the CRC of all bytes from the end of the checksum before, or the start of the block, to the end of that word; where it does not the scan ends and commits nothing more |
| LfsDamage.DamageNotFetched | src/vfs/littlefs/lfs.c:1200-1236 | a block damaged within four consecutive bytes of a commit is not fetched with that commit, whatever else a scan of it finds |
| LfsDamage.PayloadDamage | src/vfs/littlefs/lfs.c:1184-1236 | when no word is hit the fetch finds exactly the commits in front of the damaged one |
| LfsWrite.WrittenTag | src/vfs/littlefs/lfs.c:1620-1662 | the word and payload that a commit programs read back as that tag, whatever valid bit was in front |
| LfsWrite.BlockCommit.CommitAttr | src/vfs/littlefs/lfs.c:1620-1662 | programs one tag or refuses it exactly when it does not fit; a scan of the block passes one cell more, and the running checksum covers it |
| LfsWrite.StopsHere | src/vfs/littlefs/lfs.c:1738-1759 | after the valid bit has been turned for the byte behind a commit, nothing that was there is taken for a tag |
| LfsWrite.BlockCommit.CommitCrc | src/vfs/littlefs/lfs.c:1668-1812 | the checksum tags, with their padding, reach the end of a program unit and all validate; in front of the last one is the erase checksum, of the program unit that follows, whenever one does; the scan stops there; the final check never fails; the bytes in front and behind stay |
| LfsWrite.BlockCommit.Commit | src/vfs/littlefs/lfs.c:1597-1812 | a whole commit: a scan passes what it passed before, then these tags, then checksums; it fails exactly when the tags do not fit |
| LfsWrite.AppendToBlock | src/vfs/littlefs/lfs.c:2262-2337 | fetching a block and committing behind its last commit: the next fetch finds the old log with the tags applied |
| LfsWrite.AppendToBytes | src/vfs/littlefs/lfs.c:2262-2337 | the same for a commit with its attributes: the bytes of the block mean what was intended |
| LfsWrite.RewriteBlock | src/vfs/littlefs/lfs.c:1979-2073 | on an erased block: the revision, and a log that means the tags |
| LfsWrite.TornBytes | src/vfs/littlefs/lfs.c:1603-1618 | power lost at any byte of a commit: with the bytes in front of the old end in place, a fetch finds the old log if and only if what is behind holds no validating commit |
| LfsAtomic.TornCommit | src/vfs/littlefs/lfs.c:1603-1812 | a commit cut off at any byte, with nothing behind the cut that validates: it counts from its first checksum on, then the block means the old log with its tags, and until then the old log |
| LfsAtomic.AppendTorn | src/vfs/littlefs/lfs.c:2262-2337 | the same for the fetch of a pair of byte blocks, when the current one is appended to |
| LfsAtomic.BehindTorn | src/vfs/littlefs/lfs.c:2339-2345 | an append given up half-way leaves a sound pair with the old meaning, ready for the compaction that follows |
| LfsAtomic.RewriteTorn | src/vfs/littlefs/lfs.c:1951-2094 | the same when the other block is rewritten with the next revision |
| LfsAtomic.FetchImages | src/vfs/littlefs/lfs.c:1107-1384 | on the bytes of the two blocks: which block is fetched, its count and its tail, and failure exactly when neither has a commit |
| LfsAtomic.AppendPair | src/vfs/littlefs/lfs.c:2262-2337 | an appended commit makes the pair mean what was intended, and however far its bytes have got, the old meaning or that one; it fails exactly when the tags do not fit |
| LfsAtomic.FittingCommits | src/vfs/littlefs/lfs.c:2143-2163 | what is taken to fit into one pair: fewer than 255 files that leave room for a tail, a move state and three words, in half a block; compacting it does not run out of room |
| LfsAtomic.RewritePair | src/vfs/littlefs/lfs.c:1951-2094 | the same for a commit that compacts into the other block |
| LfsUtil.Npw2 | src/vfs/littlefs/lfs_util.h:151-166 | the straight-line fallback finds the least power of two that is not smaller |
| LfsUtil.CtzOf | src/vfs/littlefs/lfs_util.h:168-175 | lfs_npw2 of a & -a is the number of trailing zeros |
| LfsUtil.LowestBit | src/vfs/littlefs/lfs_util.h:168-175 | a & -a, in 32 bits, is the lowest set bit of a |
| LfsUtil.PopcPred | src/vfs/littlefs/lfs_util.h:177-186 | popc(n-1) + 1 = popc(n) + ctz(n) |
| LfsPopc.PopcOf | src/vfs/littlefs/lfs_util.h:177-186 | counting in fields of 2, 4 and 8 bits with masks, and summing by one multiplication, gives the number of one bits |
| LfsUtil.CtzSubLess | src/vfs/littlefs/lfs_util.h:168-175 | 2^k blocks back, for k < ctz(n), lies a block with exactly k trailing zeros |
| LfsUtil.CtzSubSame | src/vfs/littlefs/lfs_util.h:168-175 | 2^ctz(n) blocks back lies a block with more trailing zeros |
| LfsCtzIndex.StartClosed | src/vfs/littlefs/lfs.c:2872-2883 | the first position of block n, summed block by block, has the closed form with popcount |
| LfsCtzIndex.SecondEstimate | src/vfs/littlefs/lfs.c:2880-2880 | the first estimate is at most one too large, and the second is exact |
| LfsCtzIndex.Index | src/vfs/littlefs/lfs.c:2872-2883 | for every position below 2^31 and block size of at least 128 the result is the block and offset of that position |
| LfsCtzIndex.LocatedUnique | src/vfs/littlefs/lfs.c:2872-2883 | there is only one such block and offset |
| LfsCtz.ReadsDecrease | src/vfs/littlefs/lfs.c:2895-2912 | every pointer followed lowers a measure of reads left |
| LfsCtz.ReadsInitially | src/vfs/littlefs/lfs.c:2895-2912 | that measure starts at no more than 2(floor(log2(current)) + 1) |
| LfsCtz.Find | src/vfs/littlefs/lfs.c:2885-2917 | the lookup lands on the block and offset of the position within that many pointer reads |
| LfsCtz.ContentAt | src/vfs/littlefs/lfs.c:2885-2917 | the byte at a position of the file is the byte at its offset in its block |
| LfsCtz.Traverse | src/vfs/littlefs/lfs.c:3019-3060 | the traversal visits every block of the list exactly once, last block first |
| LfsExtend.CopyBlock | src/vfs/littlefs/lfs.c:2950-2976 | the incomplete last block is copied byte by byte, nothing else is touched |
| LfsExtend.AppendBlock | src/vfs/littlefs/lfs.c:2978-3003 | the new block holds at slot k the address of block n - 2^k for all k up to ctz(n) |
| LfsExtend.Extend | src/vfs/littlefs/lfs.c:2920-3016 | for a given new block: a list in which that block can be written, whose first `size` bytes are the old file; only the new block is programmed |
| LfsExtend.OpenProg | src/vfs/littlefs/lfs.c:3610-3647 | programming data at the end of the open list appends exactly that data |
| LfsAlloc.Lookahead.constructor | src/vfs/littlefs/lfs.c:619-623 | the dropped allocator: empty window, everything still to be examined |
| LfsAlloc.Lookahead.Checkpoint | src/vfs/littlefs/lfs.c:612-615 | what must not be handed out is what the traversal reports, plus the blocks the window still marks |
| LfsAlloc.Lookahead.MarkUsed | src/vfs/littlefs/lfs.c:626-636 | exactly the bit of that block is set, if it lies in the window |
| LfsAlloc.Lookahead.Scan | src/vfs/littlefs/lfs.c:640-660 | the new window, no larger than the checkpoint, marks exactly the claimed blocks |
| LfsAlloc.Lookahead.Alloc | src/vfs/littlefs/lfs.c:665-714 | the block was not in use and not handed out since the checkpoint; NOSPC if and only if every block is in use or was still marked at the checkpoint; the checkpoint count bounds the loop |
| LfsAlloc.Lookahead.AllocGood | src/vfs/littlefs/lfs.c:2924-3015 | the retry over bad blocks ends, tries only bad blocks before a good one, and fails if and only if every good block is in use or was still marked at the checkpoint |
| LfsAlloc.FullReportExact | src/vfs/littlefs/lfs.c:665-714 | when the allocator reports a full disk there is a free block after all if and only if the window still marked a block that is not in use |
| LfsAlloc.FreedButFull | src/vfs/littlefs/lfs.c:665-714 | a window over four blocks on which the second allocation fails although block 3 is free |
| LfsFile.FlushedRead | src/vfs/littlefs/lfs.c:3491-3550 | reads exactly the bytes of the list at the position, cut at the end of the file |
| LfsFile.File.constructor | src/vfs/littlefs/lfs.c:3064-3240 | a file opened on its committed list reads it back |
| LfsFile.File.Traversal | src/vfs/littlefs/lfs.c:4756-4785 | the traversal reports the committed, the current and the half-written list |
| LfsFile.File.AllocBlock | src/vfs/littlefs/lfs.c:3610-3625 | a block allocated after a checkpoint belongs to no list in use; there is none if and only if every block is in one of the lists or still marked in the window |
| LfsFile.File.Grow | src/vfs/littlefs/lfs.c:3590-3632 | starting a fresh block fails if and only if every block is in use or still marked; it changes neither the view nor the committed contents, also when it fails; whatever a power loss leaves of that block, the committed list still reads the same |
| LfsFile.File.FlushedWrite | src/vfs/littlefs/lfs.c:3571-3651 | what was written before the device was full is the prefix of the data at the position; at every block programmed on the way, a power loss leaves the committed contents readable |
| LfsFile.File.Flush | src/vfs/littlefs/lfs.c:3349-3427 | flushing changes no byte of the view or of the committed contents; after success the list is the view, and it fails only on a full device |
| LfsFile.File.ZeroFill | src/vfs/littlefs/lfs.c:3676-3688 | the gap up to the position is filled with zeros |
| LfsFile.File.Write | src/vfs/littlefs/lfs.c:3655-3696 | the view becomes old[..pos] + data + old[pos+len..], zero-filled past the end, at the end in append mode; refused beyond the largest size, and cut short only when every block is in a list in use or still marked in the allocator's window; the committed contents stay, also whatever a power loss leaves of any block being programmed |
| LfsFile.File.Read | src/vfs/littlefs/lfs.c:3552-3568 | reads the view at the position, after flushing what is being written; fails only when that finds the device full |
| LfsFile.File.Seek | src/vfs/littlefs/lfs.c:3699-3750 | to an absolute position: moves the position and nothing a reader sees; refused beyond the largest size, and failing only on a full device |
| LfsFile.File.Sync | src/vfs/littlefs/lfs.c:3430-3488 | only a sync changes the committed contents, to the view; it fails only when the device is full or the metadata commit, whose outcome is given, does |
| LfsFile.OneMore | src/vfs/littlefs/lfs.c:3571-3651 | a block outside the committed list is programmed: the list and its contents can be read from every disk that differs in that block only |
| LfsCache.Bd.Read | src/vfs/littlefs/lfs.c:44-125 | for every alignment and hint the read ends and gives the disk overlaid by the program cache; refused exactly out of bounds |
| LfsCache.Bd.Cmp | src/vfs/littlefs/lfs.c:127-152 | equal exactly when those bytes are the data; less or greater by the first byte that differs; an error only out of bounds |
| LfsCache.Bd.Flush | src/vfs/littlefs/lfs.c:176-208 | afterwards the block on disk holds what was seen through the cache, up to 0xff padding of the last program unit; with validation the read cache agrees with the disk, without it only the page of this block may be stale |
| LfsCache.Bd.Sync | src/vfs/littlefs/lfs.c:211-224 | the same from any state that unvalidated programming leaves, and afterwards the read cache is empty and agrees |
| LfsCache.Bd.Prog | src/vfs/littlefs/lfs.c:227-271 | sequential programming shows the data at its offset, in this block only, also when the read cache holds the block |
| LfsCache.Bd.ProgAndSync | src/vfs/littlefs/lfs.c:1603-1771 | a metadata commit on the device: any number of unvalidated programs and the sync, from any state in which the read cache agrees, leave the joined parts on disk, padded, and an empty read cache |
| LfsCache.BypassFits | src/vfs/littlefs/lfs.c:93-105 | the read that bypasses the cache is aligned, nonempty and not too long |
| LfsCache.LoadFits | src/vfs/littlefs/lfs.c:107-121 | the part loaded into the read cache covers the offset, whatever the hint, so the read makes progress |
| LfsCrc.FeedByte | src/vfs/littlefs/lfs_util.c:26-33 | two nibbles through the table are eight steps of the bitwise division by the polynomial |
| LfsCrc.Crc | src/vfs/littlefs/lfs_util.c:17-37 | the table-driven loop computes the bitwise CRC of the buffer |
| LfsCrc.ChecksumCloses | src/vfs/littlefs/lfs.c:1796-1807 | the CRC over data and four more bytes is 0 if and only if those are the CRC of the data |
| LfsCrc.OwnBytes | src/vfs/littlefs/lfs.c:1796-1807 | feeding a CRC its own little-endian bytes gives 0 |
| LfsCrc.CrcInjective | src/vfs/littlefs/lfs_util.c:17-37 | different states stay different over any data |
| LfsCrc.BurstDetected | src/vfs/littlefs/lfs_util.c:17-37 | any change confined to four consecutive bytes changes the CRC |
| LfsTortoise.Detect | src/vfs/littlefs/lfs.c:4459-4475 | reports exactly when the tail is the pair the tortoise stands on, in either order; after `period` steps it moves the tortoise there and doubles the period |
| LfsTortoise.ListNoRepeat | src/vfs/littlefs/lfs.c:4688-4760 | a tail list that ends never repeats a pair |
| LfsTortoise.CycleNoList | src/vfs/littlefs/lfs.c:4688-4760 | a tail list that repeats a pair never ends |
| LfsTortoise.Noticed | src/vfs/littlefs/lfs.c:4459-4475 | no path longer than three times the number of pairs goes unnoticed |
| LfsTortoise.Walk | src/vfs/littlefs/lfs.c:4791-4820 | the walk ends within 3N steps, reports a cycle only when there is no list, and otherwise visits the whole list |
| FatEntry.StoreLoadSame | src/vfs/fatfs/ff.c:1177-1304 | a stored entry loads back, masked to its width, and the top bits of a FAT32 entry stay |
| FatEntry.StoreLoadOther | src/vfs/fatfs/ff.c:1177-1304 | every other entry loads as before, also the FAT12 neighbour that shares a byte |
| FatEntry.StoreEntries | src/vfs/fatfs/ff.c:1255-1304 | a store updates the table of entries at that cluster only |
| FatVolume.Volume.SyncWindow | src/vfs/fatfs/ff.c:1058-1076 | writes the dirty window back, with its mirror, and changes no sector as seen through the window |
| FatVolume.Volume.MoveWindow | src/vfs/fatfs/ff.c:1080-1101 | loads another sector without changing what is seen; every first-FAT sector but the dirty one equals its mirror |
| FatVolume.Volume.GetFat | src/vfs/fatfs/ff.c:1177-1250 | returns the entry, also when it straddles sectors, or 1 out of range; the FAT as seen stays |
| FatVolume.Volume.PutFat | src/vfs/fatfs/ff.c:1255-1304 | stores the entry into the FAT as seen, also across sectors, and refuses exactly clusters out of range |
| FatChain.FreeUpdate | src/vfs/fatfs/ff.c:1500-1504 | the number of free entries changes by one exactly when an entry turns zero or non-zero |
| FatChain.CreateSucceeds | src/vfs/fatfs/ff.c:1540-1633 | on chains that are disjoint and acyclic create_chain never answers with an internal error |
| FatChain.CreateNew | src/vfs/fatfs/ff.c:1540-1633 | a new chain of one formerly free cluster joins the others, which stay disjoint, acyclic and covering |
| FatChain.CreateStretch | src/vfs/fatfs/ff.c:1540-1633 | stretching appends exactly one formerly free cluster to that chain and leaves all others |
| FatChain.WalkStep | src/vfs/fatfs/ff.c:1483-1530 | freeing one cluster and going on frees what the whole walk frees; the number of non-zero entries falls, also on a cyclic FAT |
| FatChain.WalkChain | src/vfs/fatfs/ff.c:1483-1530 | on a chain the walk visits exactly its clusters |
| FatChain.RemoveAll | src/vfs/fatfs/ff.c:1445-1535 | removing a chain frees exactly its clusters; all others remain a disjoint tiling |
| FatChain.RemoveTail | src/vfs/fatfs/ff.c:1445-1535 | removing from the middle leaves the front as a chain |
| FatAlloc.Allocator.Search | src/vfs/fatfs/ff.c:1592-1605 | the wrap-around search finds a free entry, or answers 0 only if there is none |
| FatAlloc.Allocator.FindFree | src/vfs/fatfs/ff.c:1576-1606 | the same with the next cluster tried first |
| FatAlloc.Allocator.Link | src/vfs/fatfs/ff.c:1608-1625 | the new cluster is marked as end and linked, and the free count stays the number of zero entries |
| FatAlloc.Allocator.CreateChain | src/vfs/fatfs/ff.c:1540-1633 | follows an existing link, or appends one free cluster, or answers 0 only if no entry is free |
| FatAlloc.Allocator.Release | src/vfs/fatfs/ff.c:1496-1504 | frees one cluster and keeps a right free count right |
| FatAlloc.Allocator.ReleaseAll | src/vfs/fatfs/ff.c:1483-1530 | the loop ends on any FAT and frees exactly the clusters of the walk |
| FatAlloc.Allocator.RemoveChain | src/vfs/fatfs/ff.c:1445-1535 | ends the part before, frees the walk, and refuses clusters out of range, on any FAT; a right free count stays right if and only if it is unknown, or the call refuses, or the previous cluster is 0 or was in use, or every cluster is free afterwards; otherwise it is one too high |
| FatAlloc.Allocator.CutBehind | src/vfs/fatfs/ff.c:4945-4952 | what truncating does to the FAT keeps a right free count right: it cuts only behind a cluster that is in use |
| FatAlloc.FreePrevious | src/vfs/fatfs/ff.c:1445-1535 | a FAT of two free clusters on which the call leaves one free cluster and a count of two |
| FatAlloc.UncountedUse | src/vfs/fatfs/ff.c:1462-1466 | marking a cluster as used without counting keeps a known free count right if and only if it was in use before, and leaves it one too high otherwise |
| FatData.SectorsIn | src/vfs/fatfs/ff.c:1160-1168 | sector i * csize + j of a file is sector j of its i-th cluster |
| FatData.SectorsDistinct | src/vfs/fatfs/ff.c:1160-1168 | no two sectors of a file are the same sector of the volume |
| FatData.WriteInSector | src/vfs/fatfs/ff.c:4122-4136 | writing into one sector of a file overwrites exactly those bytes of its contents |
| FatData.WriteSectors | src/vfs/fatfs/ff.c:4080-4105 | writing a run of sectors overwrites exactly their bytes |
| FatFile.Fil.constructor | src/vfs/fatfs/ff.c:3732-3925 | a file opened on a given chain shows the bytes of its sectors |
| FatFile.Fil.EnterRead | src/vfs/fatfs/ff.c:3953-3971 | at a sector boundary the cursor is on the cluster of the next byte |
| FatFile.Fil.Read | src/vfs/fatfs/ff.c:3929-4022 | any read gives the bytes of the view from the cursor on, cut at the end, through direct transfers and the sector buffer; the view stays |
| FatFile.Fil.EnterWrite | src/vfs/fatfs/ff.c:4055-4076 | at a sector boundary the cluster of the next byte is there, or the disk is full |
| FatFile.Fil.GrowChain | src/vfs/fatfs/ff.c:4056-4068 | the chain of the file grows by a free cluster without changing a byte of the view |
| FatFile.Fil.DirectWrite | src/vfs/fatfs/ff.c:4078-4105 | the multi-sector transfer, with the refill of a stale sector buffer, overwrites the view |
| FatFile.Fil.Write | src/vfs/fatfs/ff.c:4029-4141 | any write overwrites or extends the view at the cursor with exactly the `bw` bytes reported; fewer than asked only at the size limit or with no free cluster |
| FatFile.Fil.Seek | src/vfs/fatfs/ff.c:4523-4599 | inside the file, or anywhere in read mode, the cursor moves there, clipped to the size, and the view stays; in write mode a position behind the end extends the file up to it, or up to the last cluster when no cluster is free, and the old contents stay in front |
| FatFormat.AutoAu | src/vfs/fatfs/ff.c:6211-6228 | the automatic size is two to the number of steps of the table that the volume has reached |
| FatFormat.Attempt | src/vfs/fatfs/ff.c:6205-6283 | one round of the loop, for volumes of fewer than 2^32 sectors, accepts a sound plan exactly when the size and type work, and says what it tries instead |
| FatFormat.Decide | src/vfs/fatfs/ff.c:6255-6280 | a plan is accepted if and only if its cluster count is inside the limits of its type |
| FatFormat.MakePlan | src/vfs/fatfs/ff.c:6205-6283 | the retry loop ends, with a plan if and only if the volume can be planned: with a given cluster size when a type works, otherwise always but for volumes too small for a FAT12 volume of single sectors, below 2^17 sectors for FAT32 alone, or with too many clusters of 128 sectors where FAT32 is excluded; it says which type and size; and mounting the record it leads to derives the same type, cluster count, FAT base and data base |
| FatFormat.DefaultPlannable | src/vfs/fatfs/ff.c:6205-6283 | with 512 root entries and both types allowed every volume of 128 sectors up to 2^32 - 1 can be formatted |
| FatFormat.MountedClusters | src/vfs/fatfs/ff.c:1160-1168 | every cluster of a mounted volume lies inside its data area, the second one at the front, and one behind the other |
| FatFormat.Consistent | src/vfs/fatfs/ff.c:6232-6254 | the FAT computed from the estimate is large enough for the final cluster count, in 16 bits where the record has 16 |
| FatFormat.RecordFields | src/vfs/fatfs/ff.c:6289-6313 | every field survives its width in the boot record |
| FatFormat.MountAgrees | src/vfs/fatfs/ff.c:3529-3578 | mounting the record of any sound plan succeeds with that plan's geometry |
| FatFormat.MountedFits | src/vfs/fatfs/ff.c:3529-3578 | any record that mounts has a FAT large enough for all entries and all clusters inside the volume; its FATs end before its data if and only if the 32-bit sum of the system area does not wrap around |
| FatFormat.WrappedExample | src/vfs/fatfs/ff.c:3529-3578 | a record whose two FATs of 2^31 sectors each put the data area on the first FAT |
| SpiffsCache.Spiffs.constructor | src/vfs/spiffs/spiffs_cache.c:284-315 | the cache starts empty and in agreement with the flash |
| SpiffsCache.Spiffs.PageGet | src/vfs/spiffs/spiffs_cache.c:14-30 | finds the read page of a flash page, or none exactly when it is not cached; notes the time of the access and changes nothing else |
| SpiffsCache.Spiffs.PageFree | src/vfs/spiffs/spiffs_cache.c:33-57 | frees one page; a write-back writes what the flash already holds |
| SpiffsCache.Spiffs.RemoveOldest | src/vfs/spiffs/spiffs_cache.c:60-87 | evicts a page if and only if none is free and some read page was not accessed just now; it is a read page with the longest distance to its last access, and if no page went unused for 2^32 accesses none was last accessed before it |
| SpiffsCache.RecentEvictable | src/vfs/spiffs/spiffs_cache.c:66-81 | once time has gone on there is a page to evict if and only if there is a read page |
| SpiffsCache.LongestUnused | src/vfs/spiffs/spiffs_cache.c:71-81 | without wrap-around between accesses that page is the one unused for the longest time |
| SpiffsCache.Spiffs.Allocate | src/vfs/spiffs/spiffs_cache.c:90-108 | takes one free page and no other, or fails exactly when all are in use |
| SpiffsCache.Spiffs.DropPage | src/vfs/spiffs/spiffs_cache.c:111-116 | from any cache, also with stale pages: afterwards the flash page is not cached and write pages are kept |
| SpiffsCache.Spiffs.PhysRd | src/vfs/spiffs/spiffs_cache.c:121-179 | every read returns what the cache shows for the page, which is the flash contents if the cache agrees with the flash; it caches no page twice and keeps an agreeing cache so; the page is cached afterwards if it was, or if one was free or could be evicted; its time of access is noted, and no other; a page that leaves the cache is one that was unused for the longest time |
| SpiffsCache.Spiffs.PhysWr | src/vfs/spiffs/spiffs_cache.c:182-221 | from any cache, also with stale pages: the flash gets the data, and what the cache shows of that page changes with it unless a write-through leaves the cached page; other pages are shown as before; an agreeing cache still agrees if and only if this was not a write-through that changes a cached page |
| SpiffsCache.StalePage | src/vfs/spiffs/spiffs_cache.c:182-221 | a read, a write-through and a read of one page: the second read returns the old byte |
| SpiffsCache.Spiffs.AllocateByFd | src/vfs/spiffs/spiffs_cache.c:248-263 | a write page for a descriptor, if and only if a page is free or can be evicted, without losing another write page, from any cache; what leaves was unused for the longest time; an agreeing cache still agrees |
| VfsMounts.MountList.RPush | src/vfs/clist.h:14-22 | the circle of next pointers gains the mount at its end |
| VfsMounts.MountList.LPush | src/vfs/clist.h:24-32 | the circle gains the mount at its front |
| VfsMounts.MountList.LPop | src/vfs/clist.h:34-46 | the circle loses its first mount and returns it |
| VfsMounts.MountList.LPopRPush | src/vfs/clist.h:48-52 | the circle turns by one |
| VfsMounts.MountList.RPop | src/vfs/clist.h:65-75 | the circle loses its last mount and returns it |
| VfsMounts.MountList.FindBefore | src/vfs/clist.h:77-92 | the node before a mount, or null exactly when the mount is not in the circle |
| VfsMounts.MountList.Find | src/vfs/clist.h:94-103 | the mount itself exactly when it is in the circle |
| VfsMounts.MountList.Remove | src/vfs/clist.h:105-123 | removes exactly that mount, wherever it is, and keeps the order of the others |
| VfsMounts.MountList.Count | src/vfs/clist.h:152-164 | the number of mounts |
| VfsMounts.MountList.Search | src/vfs/vfs.c:734-764 | the last of the longest mount points that are component prefixes of the path, or none exactly when there is none |
| VfsMounts.MountList.FindMount | src/vfs/vfs.c:722-780 | that mount, its counter alone incremented, and the rest of the path, or the whole path for a driver that wants it |
| VfsRefs.InvStep | src/vfs/vfs.c:94-128 | under its guard every step of every task keeps the books: counter equals references, one holder of the mutex, no mount listed twice, nothing unmounts what is referenced |
| VfsRefs.DriftStep | src/vfs/vfs.c:700-705 | for every step of the code and every mount: how far it moves the counter away from the references |
| VfsRefs.BooksExact | src/vfs/vfs.c:700-705 | a step keeps the counters of all mounts right if and only if its guard holds: the descriptor released is still open, the one cleared is not in use again, the stream wiped is open, the stream reused is not |
| VfsRefs.RunInv | src/vfs/vfs.c:349-416 | so does every run from start-up, in every interleaving, as long as the guards held |
| VfsRefs.CountersExact | src/vfs/vfs.c:94-128 | in any run of the code the counters have been right from start-up on if and only if the guard of every step before held |
| VfsRefs.CarefulRuns | src/vfs/vfs.c:257-304 | callers that close only what is open, and what no other task is opening or closing, keep every guard in every interleaving |
| VfsRefs.CounterIsReferences | src/vfs/vfs.c:700-705 | callers that close only what is open and what nobody else is opening or closing: in every state of every run open_files is the number of open files, open directories, operations under way and lost references |
| VfsRefs.CounterExact | src/vfs/vfs.c:257-260 | for such callers it is the number of references proper if and only if opendir was not called on that mount while its driver has no directories; with directories it always is |
| VfsRefs.DoubleClose | src/vfs/vfs.c:29-42 | a run in which two tasks close one descriptor leaves the counter at minus one |
| VfsRefs.StaleStream | src/vfs/vfs.c:257-304 | a run in which a stream that failed to open is closed, and a mount with an open file then unmounted without force |
| VfsRefs.LostReference | src/vfs/vfs.c:257-260 | a run in which opendir on a driver without directories leaves a reference, and the unmount is refused |
| VfsRefs.UnmountedUnreferenced | src/vfs/vfs.c:374-416 | in any run whose guards held and whose counters did not wrap around, an unforced unmount that succeeds removes a mount to which no open file, directory or operation refers, and only that |
| VfsRefs.UmountLockExact | src/vfs/vfs.c:390-393 | an unforced unmount that passes the counter has no references if and only if there are fewer than 2^16 of them |
| VfsRefs.WrappedAround | src/vfs/vfs.c:390-393 | a run with 2^16 - 1 lost references and one open file, at whose end the mount is unmounted without force |
| VfsRefs.LostForever | src/vfs/vfs.c:257-260 | a lost reference is never given back, and no unforced unmount gets past it |

## Left out

littlefs:

- The 10-bit wrap-around of ids, and the limit of 0x3ff on sizes of payloads: ids are unbounded.
- LfsGet.GetSlice: a nonzero offset into the payload, and masks other than those of a full type or a top class (names, inline reads).
- Relocation of pairs, tired and bad metadata blocks, growing the superblock, orphan repair, `lfs_fs_deorphan` and `lfs_fs_demove`.
- That a torn commit never validates is an assumption: junk behind a cut is any sequence of cells without a valid checksum.  That the erase checksum finds erased flash (`fcrc`) is one, too.  Programs reach the device in order.
- LfsCommit.CompactMeans: requires that the commit keeps every file named, as LfsCrash.RewriteAtomic does.
- LfsCrash.RewriteAtomic: requires that the commit keeps every file named, as the callers of `lfs_dir_commit` see to; without a name the count of a compacted log falls short.
- LfsCrash.EventAtomic: the same requirement, on the commit of the attempt.  LfsAtomic.RewritePair has it, too.
- LfsPair.FetchPair: requires what LfsPair.FetchBlock requires, of both blocks; so does LfsAtomic.FetchImages.
- LfsPair.FetchBlock: requires that no committed tag deletes the tail, and LfsImage.FetchImage that committed tails have eight bytes, as all tails that the code writes have; what is behind the last commit is unrestricted.
- LfsWrite.AppendToBlock: requires room for a checksum behind the last commit, and that the checksums in the block have their four bytes, as the code writes them.  Whether the part behind is erased (`dir->erased`) is left to the caller.
- LfsPair.PairDevice.Rewrite: the erase empties the block at once, and programming goes tag by tag; LfsAtomic is about single bytes and leaves the old ones in place.
- LfsPair.RelocatingCommit: compaction always fits and sticks; splitting is the subject of LfsSplit and LfsSplitting.
- LfsMinimal.CompactedOnce: moves and attribute lists are left out; the code lets nothing supersede what they stand for, so a key may be emitted again behind them.
- LfsDamage.PayloadDamage: requires that the checksums in front have their four bytes, as the code writes them; damage to a word may lead the scan elsewhere, which is LfsDamage.DamageNotFetched.
- LfsAtomic.FittingCommits: about the tags; with `metadata_max` below the block size the erase checksum, which the code does not reckon with, may still find no room.
- LfsSplit.SplittingCompact: does not expand the superblock.
- LfsSplitting.ChainDevice.Split: a pair is read and written in one step, as LfsCrash allows; the new pairs are given, and the update of `lfs->root` when a root is split at 0 is left out.
- LfsAtomic.AppendPair: the append and the compaction after an append that did not fit are separate calls, joined by LfsAtomic.BehindTorn; as in LfsWrite the commit has its erase checksum from the commit code, and room for a checksum is required behind the last commit.
- Errors of reads and erases: the RAM disk has none.  Erasing is not modelled apart from starting a block afresh.
- LfsFile.File.Sync: whether the metadata commit succeeds is a parameter; the commit itself is the subject of LfsCrash.
- LfsFile.File.Seek: whether the new position lies in the cached part of the block is a parameter; relative seeks are left to the caller.
- LfsFile.File.Read: files work on whole blocks of the disk; the caches between are the subject of LfsCache.
- LfsFile.File.constructor: the metadata lookup, the creation and the truncation of `lfs_file_opencfg`.
- Inline files, truncation, `lfs_file_relocate`, and the descriptors of other files beyond their lists.
- Dropping the lookahead buffer after a traversal that failed; `lfs_bd_crc`; version negotiation, migration and growing.
- LfsExtend.Extend: the block is given; the retry of `lfs_ctz_extend` over bad blocks is LfsAlloc.Lookahead.AllocGood, since a bad block never shows on the RAM disk.
- littlefs masks and shifts are divisions and remainders by powers of two; block numbers and counters are unbounded naturals.

FatFs:

- Disk errors, and the branches that abort on an inconsistent FAT, which the invariants rule out.
- Directories, names, FSINFO, exFAT, long names, fast seek, locking, and several handles on one file.
- FatFile.Fil.constructor: the directory lookup, the creation and the seek to the end of `f_open`.
- FatFormat.MakePlan: an erase block of one sector, as `src/vfs/fatfs/diskio.c:96-98` has it, and a volume of fewer than 2^32 sectors, the width of the record's field.
- The partition table, the root directory and the cleared FAT that formatting writes.

SPIFFS:

- The bitmap of used pages is a set; the HAL overwrites and succeeds; accesses stay inside one page.
- Flushing and releasing write pages, which the nucleus does; nucleus and garbage collector are not part of this model.

VFS:

- `vfs_normalize_path`, `vfs_iterate_mounts`, and everything drivers do.
- The mount list (VfsMounts) and the counters (VfsRefs) are separate models; in the second a lookup may find any listed mount.
- Updates of the `open_files` counter, which the code makes outside the mutex on a plain 16-bit integer (src/vfs/vfs.h:130, src/vfs/vfs.c:113, 303 and 702), are taken as atomic; so "every interleaving" is one of such updates.
- After a forced unmount with references left, what the drivers do with them.

Boards, kernel hooks, device drivers, logging and `printf` have no invariant of their own.
