# mvs_nfsd: verified models

An NFS version 3 server for MVS 3.8 that exports partitioned datasets (PDS) as directories and their
members as files. This project models the path of an NFS WRITE from RPC bytes to a stowed member,
the prediction of whether it will fit, and the directory and handle codecs around it, and proves what
each part keeps and what whole runs of it do.

The server is single-threaded, so each request is one atomic step and a run is a sequence of steps.
What the operating system decides (ENQ, DEQ, allocation, STOW, unlink, rename, the VTOC, the clock,
memory, and how a socket delivers bytes) is an arbitrary function of the call, so a theorem holds for
every pattern of outcomes.

| files | what they model |
|---|---|
| `SpillStore`, `MemberImage`, `PendingMember` | a member's bytes in memory and in a scratch dataset with delayed visibility, against a flat file |
| `Packing`, `BlockCalc`, `FlushLines` | the running block estimate against the layout of the whole text |
| `TrackSpace`, `Admission`, `TrackCapacity` | track arithmetic, the admit chain, blocks per track |
| `FullTable`, `PoolState`, `PendingPool`, `PoolRuns`, `PoolExamples` | the pool of pending members with flush and VFS calls, and runs of it |
| `Xdr`, `Rpc` | XDR buffers, record marking, the replay self-check |
| `Names`, `MemberSearch`, `DirListing`, `DirBlocks` | directory blocks, cookies, cached listing, paged replies |
| `IspfStats` | ISPF statistics and the calendar |
| `Paths`, `Handles` | paths, member file names, file handles |

Check it all with `dafny verify dfyconfig.toml`.

## Where the code does less than it says

- The comment at src/mvsspl.c:244-249 says cut bytes can never resurface. They can: `CutBytesResurface`
  is a run, `ShrinkThenStore` the exact condition, with blocks unsynced or not. A new tail block that
  cannot be read would bring back what the storage makes up: `GarbledBytesRead` is a run in which no
  prediction of space reads the member before the store. Its block is the first; src/mvsspl.c:17-20
  says that about the first 49152 bytes can be read back before a reopen, which the model does not
  rely on, so this run is one of its pessimistic storage.
- Re-CREATE of a spilled member leaves the scratch extent behind (src/mvspww.c:836-837):
  `OldBytesResurface` is a run, `StoreBehind` the exact condition for each later store.
- Usable secondary space is credited again in full once a predicted end passes the allocation
  (src/mvsblkc.c:288-295): `ChainBalance` gives the exact over-credit, `SecondaryIsCreditedAgain`
  a dataset over-admitted by it.
- A refused first WRITE leaves an empty slot that hides the member on disk (src/mvspww.c:899-909):
  `RefusedWriteHides` is a run, `Pool.Write` names the guard.
- A flush that meets a full dataset or an abend leaves the slot clean (src/mvspwfl.c:438, 485), so COMMIT
  and RENAME can then report success without the bytes being on disk: `CommitAfterAbend` is a run,
  `FlushSlot` names the guard, and `RunAsFiles` shows that nothing else but a refusal does this.
- The size limit is tested on a 64-bit sum that can wrap (src/mvspww.c:656-660): `CapWraps` gives the
  writes that pass. Such a write to a member in memory clears storage past its buffer
  (src/mvspww.c:729-731), so runs with one are outside the model.
- A cached listing is called full although it may start in mid-directory (src/mvsvfs.c:1289):
  `MidDirectoryHides` is a run, `CacheHides` says exactly which readers it serves correctly.
- The parsed extension is cut to 15 characters (src/mvsio.c:209-210): `OneLeafPerMember` shows that 14
  is the exact bound for one file name per member.

## Model

| member | source | states |
|---|---|---|
| `SpillStore.OverlayAgrees` | src/mvsspl.c:216-230 | laying data over whatever a write sees is the flat-file splice if and only if what it sees agrees with the flat file everywhere outside the data |
| `SpillStore.OverlayIsSplice` | src/mvsspl.c:189-233 | what whole-block read/modify/write leaves is the flat-file splice if and only if the bytes found past the old extent, outside the data, are zero |
| `SpillStore.LastBlock` | src/mvsspl.c:190-201 | the block range a write touches reaches the new extent, leaves no hole behind the old one, and stays inside it for a pure overwrite |
| `SpillStore.SpillFile.Open` | src/mvsspl.c:54-87 | a new scratch dataset is empty and in its flat-file state |
| `SpillStore.SpillFile.Sync` | src/mvsspl.c:89-118 | after a reopen nothing is waiting to become readable, and no byte has changed |
| `SpillStore.SpillFile.LoadBlock` | src/mvsspl.c:120-146 | a block past the extent is zeros, a readable one is loaded as it stands, and an unreadable one is whatever the storage returns, padded |
| `SpillStore.SpillFile.StoreBlock` | src/mvsspl.c:148-166 | never called past the physical end; only that block changes, and it becomes the resident one |
| `SpillStore.SpillFile.RewriteBlock` | src/mvsspl.c:216-230 | one turn of the block loop: the block holds what was there with the data laid over it, all else is untouched |
| `SpillStore.SpillFile.RewriteRange` | src/mvsspl.c:216-230 | the block loop: every byte in range is what the write sees of the file, readable or not, with the data laid over; all rewritten blocks then wait for a reopen |
| `SpillStore.SpillFile.WriteBlocks` | src/mvsspl.c:187-230 | the sync test is enough for every load but that of the tail block to be real; data stored or a readable tail makes the new tail readable |
| `SpillStore.SpillFile.Write` | src/mvsspl.c:168-235 | in every state the content becomes what the write sees with the data laid over; zeros past the extent and a readable tail block are kept, or come about, exactly as stated, and so the flat-file state is kept |
| `SpillStore.SpillFile.Truncate` | src/mvsspl.c:237-251 | a grow zero-extends; a shrink changes nothing but the extent, and keeps the flat-file state if and only if the new tail block can be read and the bytes cut off inside it are zero |
| `SpillStore.SpillFile.Read` | src/mvsspl.c:253-280 | a read inside the extent returns the content, whatever was unreadable before |
| `SpillStore.SpillFile.Close` | src/mvsspl.c:282-292 | the handle is closed and its extent forgotten |
| `SpillStore.SpillFile.Transition` | src/mvsspl.c:294-309 | on success the scratch holds exactly the buffer's bytes; when it cannot be opened or written it is closed again |
| `SpillStore.Perform` | src/mvsspl.c:168-280 | every request keeps the scratch in step with its bytes and with what is known of its tail block; a cut to nothing restores the flat-file state whatever came before; a read inside it answers with its bytes |
| `SpillStore.AllowedIsFlat` | src/mvsspl.c:168-280 | a store whose tail block is readable where it must be loaded, and zeros where it must be, leaves the flat file's bytes and nothing unknown |
| `SpillStore.NeverCutAllowed` | src/mvsspl.c:168-280 | from the sizes alone: requests that cut nothing off and read inside the file are allowed, whatever they store |
| `SpillStore.Run` | src/mvsspl.c:89-309 | for every run of writes at any offset, grows, shrinks and reads in which every store is sure in that sense, shrinks that cost exactness and truncates to nothing that restore it among them, and every content of unreadable blocks, all reads return the flat file's bytes |
| `SpillStore.ShrinkThenStore` | src/mvsspl.c:203-250 | with any blocks unsynced, a shrink followed by a store is exact if and only if the cut bytes in the new tail block outside the data are zero, or, when that block must be loaded and cannot be read, the load happens to return the right bytes |
| `SpillStore.UnreadableTail` | src/mvsspl.c:203-213 | a store over an unreadable tail block is exact for every content it may return if and only if the data covers all of the block below the new size |
| `SpillStore.ShrinkThenGrow` | src/mvsspl.c:244-250 | a shrink followed by a grow loads nothing and is exact if and only if the bytes cut off inside the new tail block, up to the new size, were zero |
| `SpillStore.GarbledBytesRead` | src/mvsspl.c:203-213 | a WRITE of 20000 bytes, SETATTR to 100, WRITE of 100 bytes at 0 and SETATTR to 200, after which a read returns what the storage made up, if the storage cannot read back a first block that waits for a reopen |
| `MemberImage.StoreIsSplice` | src/mvspww.c:719-756 | a store shows the zero-padded splice, whatever an inexact scratch may hold, if and only if the member is in memory, or the store is sure on its scratch and that is zero between the member's end and the data |
| `MemberImage.SizeIsResize` | src/mvspww.c:993-1018 | the same for a resize; a cut always is exact |
| `MemberImage.StoreBehind` | src/mvspww.c:832-840 | on a scratch longer than the member, as after re-CREATE, a store that is sure is the splice if and only if what lies between the member's end and the data is zero |
| `MemberImage.SoundStays` | src/mvspww.c:719-1024 | an exact scratch of the member's own size stays so through every store, and through a cut if and only if its new last block can be read and was cut at zeros |
| `MemberImage.EmptyIsSound` | src/mvsspl.c:237-251 | SETATTR to nothing makes any spilled image sound again, whatever its scratch had come to |
| `PendingMember.Member.EnsureCap` | src/mvspww.c:556-583 | capacity doubles up to 16 KB without changing the content, and fails only for want of memory |
| `PendingMember.Member.SpillTransition` | src/mvspww.c:590-608 | moving to disk keeps the content, and a failure leaves it in memory |
| `PendingMember.Member.StoreInMemory` | src/mvspww.c:719-756 | the buffered content becomes the zero-padded splice |
| `PendingMember.Member.StoreOnDisk` | src/mvspww.c:719-756 | the spilled member follows its image |
| `PendingMember.Member.StoreRange` | src/mvspww.c:719-756 | in every state, and on either side of the threshold or across it, a store moves the member to the stored image, and a refused one changes nothing |
| `PendingMember.Member.ReadRange` | src/mvspww.c:758-772 | a read inside the member returns its bytes, wherever they live |
| `PendingMember.Member.SetSize` | src/mvspww.c:965-1024 | in every state a resize moves the member to the resized image, whether that cuts the scratch, extends it, or uncovers what lay behind the member |
| `PendingMember.Member.Recreate` | src/mvspww.c:832-840 | only the logical size is reset; the scratch and its extent stay behind the member |
| `PendingMember.Serve` | src/mvspww.c:719-1024 | every request at all keeps the member in step with an image; only want of memory or scratch refuses |
| `PendingMember.TraceIsFlat` | src/mvspww.c:719-1024 | from the start, or from any CREATE or SETATTR to nothing that is done, the member holds the flat file's bytes as long as every store and resize since met an image on which it is exact |
| `PendingMember.NeverCutIsFlat` | src/mvspww.c:719-1024 | from the requests alone: up to the first cut, or CREATE over bytes, every image is sound and the member holds the flat file's bytes |
| `PendingMember.EmptiedIsFlat` | src/mvspww.c:832-840 | a member emptied by CREATE or SETATTR is the empty flat file, whatever its scratch had come to |
| `PendingMember.RunMember` | src/mvspww.c:556-1024 | every run of any requests, through doubling, the move to disk, refusals, shrinks and re-CREATE, is a trace of images, and a read answers as a flat file if every request since the start, or since the member was last emptied, met an image on which it is exact, as they all do up to the first cut or CREATE over bytes |
| `PendingMember.CutBytesResurface` | src/mvsspl.c:244-250 | WRITE of 20000 bytes, SETATTR to 17000 and to 18000: the cut bytes come back |
| `PendingMember.OldBytesResurface` | src/mvspww.c:832-840 | WRITE of 20000 bytes, CREATE, a byte at 0 and one at 100: the first store is exact, the second brings old bytes back |
| `Packing.PackIsLayout` | src/mvsblkc.c:81-141 | the greedy layout holds the records in order in blocks within capacity |
| `Packing.PackMinimal` | src/mvsblkc.c:81-141 | no in-order layout uses fewer blocks |
| `Packing.OnlineIsPack` | src/mvsblkc.c:110-141 | placing records one at a time counts the blocks of the greedy layout |
| `Packing.PackMonotone` | src/mvsblkc.c:81-141 | more or longer records never need fewer blocks |
| `BlockCalc.WrapLength` | src/mvsblkc.c:67-74 | rounding-up division counts the records a wrapped line becomes |
| `BlockCalc.EmitLineV` | src/mvsblkc.c:110-141 | the record loop of V format places exactly the records of the wrapped line |
| `BlockCalc.EmitFRepresents` | src/mvsblkc.c:81-104 | the division of F format adds a line's records to the layout so far |
| `BlockCalc.EmitRepresents` | src/mvsblkc.c:143-149 | emitting a line adds its wrapped records to what the counters stand for |
| `BlockCalc.AddBlocksForData` | src/mvsblkc.c:163-189 | the loop folds a piece of the stream in byte by byte |
| `BlockCalc.AddInPieces` | src/mvsblkc.c:163-189 | any chunking of a stream gives the estimate of the whole |
| `BlockCalc.TotalCounts` | src/mvsblkc.c:191-207 | the total counts an unfinished line as the records it would become |
| `BlockCalc.AddAllCounts` | src/mvsblkc.c:163-207 | from any reached state the running total is the layout of everything fed in |
| `BlockCalc.EstimateIsLayout` | src/mvsblkc.c:163-207 | the running total equals the block count of splitting on LF, wrapping and packing the whole text, and no in-order layout has fewer |
| `BlockCalc.TextBlocksMonotone` | src/mvsblkc.c:163-207 | appending never lowers the block count |
| `FlushLines.CountLines` | src/mvspdir.c:428-445 | the whole-buffer count is the number of text lines |
| `FlushLines.CountLinesInChunks` | src/mvspwfl.c:213-249 | the chunked count is that number too, for every chunk size |
| `FlushLines.LinesVersusRecords` | src/mvsblkc.c:67-74 | lines are at most the predictor's records, with equality if and only if no line wraps |
| `TrackSpace.TrackRoom` | src/mvsblkc.c:233-272 | the room on a track never takes the record number past 255 |
| `TrackSpace.Ttr` | src/mvsblkc.c:307-334 | track and record come back out of the packed word |
| `TrackSpace.AvailableInTracks` | src/mvsblkc.c:274-305 | without wrap-around the space left is the room on the track and whole tracks after it |
| `TrackSpace.AdvanceOnTrack` | src/mvsblkc.c:307-334 | staying on a track lowers its room by exactly the blocks placed |
| `TrackSpace.AdvancePastTrack` | src/mvsblkc.c:307-334 | how many tracks an advance crosses, and the room on the one reached |
| `TrackSpace.AdvanceConserves` | src/mvsblkc.c:274-334 | advancing by n lowers the space left by exactly n plus the over-credit of tracks entered past the allocation; exact if and only if no such track is entered |
| `TrackSpace.ChainOneMore` | src/mvsblkc.c:636-687 | fitting one more member is testing it where the chain so far ends |
| `TrackSpace.ChainBalance` | src/mvsblkc.c:636-687 | a chain that passes leaves exactly the space its needs leave, plus the credit of every track entered past the allocation |
| `TrackSpace.ChainInsideIsSum` | src/mvsblkc.c:636-687 | with predicted ends inside the allocated tracks the chain passes if and only if the summed needs fit, secondary space or not |
| `TrackSpace.ChainIsSum` | src/mvsblkc.c:636-687 | without usable secondary space the chain passes if and only if the summed needs fit |
| `TrackSpace.ChainAnyOrder` | src/mvsblkc.c:636-687 | then the order of the slots does not matter |
| `TrackSpace.SecondaryIsCreditedAgain` | src/mvsblkc.c:288-295 | a dataset with ten blocks left that admits ten after ten, and one whose verdict depends on slot order |
| `Admission.ScanStored` | src/mvsblkc.c:509-527 | re-reading a stored range folds exactly that range in |
| `Admission.ScanGap` | src/mvsblkc.c:529-548 | a gap is folded in as zeros |
| `Admission.BuildTrial` | src/mvsblkc.c:558-600 | fast append and three-piece rebuild both give the estimate of the content after the write; the rebuild even when the old account was wrong |
| `Admission.NeverUndercounts` | src/mvsblkc.c:336-350 | an account never charges less than the layout of the member's text, and exactly that when it has consumed just the member |
| `PoolState.NeedsCoverFootprint` | src/mvsblkc.c:636-687 | where every account is the fold of a stream its member begins, the charges of all members pending for a dataset cover their layouts |
| `PoolState.ChainHoldsFootprint` | src/mvsblkc.c:636-687 | an admitted chain whose predicted ends stay inside the allocation, secondary space or not, means the layouts of all members pending for the dataset fit together |
| `PoolState.CountedExactly` | src/mvsblkc.c:336-350 | a true account that has consumed just its member is the estimate of the member's content |
| `PoolState.InSpaceWithoutSecondary` | src/mvsblkc.c:250-350 | without usable secondary space no predicted end can leave the allocation, so the layouts of everything pending fit outright |
| `PoolState.FitTogether` | src/mvsblkc.c:636-687 | the admit loop over the slots passes if and only if the whole chain does |
| `FullTable.Table.MarkFull` | src/mvspwfl.c:75-93 | the dataset is remembered for a minute, and only the oldest or unused entry can be given up for it |
| `FullTable.Table.ClearFull` | src/mvspwfl.c:95-105 | that dataset is forgotten and no other |
| `FullTable.Table.IsFull` | src/mvspwfl.c:107-121 | the answer is whether a live entry exists, and dropping expired ones changes no later answer |
| `PendingPool.CapWraps` | src/mvspww.c:648-660 | the 64-bit size test lets exactly those writes past the limit through whose offset and count wrap to within it |
| `PendingPool.Pool.constructor` | src/mvspww.c:796-808 | an empty pool holds nothing, its accounts are true, and clients see what is on disk |
| `PendingPool.Pool.Find` | src/mvspww.c:452-464 | finds the slot of a key if and only if there is one |
| `PendingPool.Pool.Enqueue` | src/mvspww.c:266-290 | the exclusive enqueue is taken or the slot is unchanged |
| `PendingPool.Pool.GiveBackEnqueue` | src/mvspww.c:346-383 | the DEQ is attempted if held, the flag is cleared whatever happens, an abend asks for shutdown |
| `PendingPool.Pool.GiveBackAllocation` | src/mvspww.c:311-344 | the same for the allocation |
| `PendingPool.Pool.Lock` | src/mvspww.c:266-303 | both resources are taken or neither is |
| `PendingPool.Pool.Release` | src/mvspww.c:385-445 | unallocate is attempted before DEQ, and both are whatever became of the first |
| `PendingPool.Pool.Stow` | src/mvspwfl.c:422-495 | what is on disk afterwards, and that the member is stowed, to be tried again, or given up, each exactly by whether the dataset is known full and how STOW ends |
| `PendingPool.Pool.FlushSlot` | src/mvspwfl.c:422-553 | only a dirty slot is written and nothing a client sees changes; the slot is dirty afterwards if and only if the flush failed, the dataset was not known full and STOW did not abend |
| `PendingPool.Pool.Drop` | src/mvspww.c:423-445 | a released member falls back to what is on disk and every other is untouched |
| `PendingPool.Pool.Retire` | src/mvspww.c:1057-1096 | flush if dirty, then release; the other clean slots stay true, and without a failed flush no member changes for a client |
| `PendingPool.Pool.Take` | src/mvspww.c:471-507 | a free slot, else the least recently written one is retired |
| `PendingPool.Pool.Begin` | src/mvspww.c:510-550 | a fresh slot holds both resources, or the pool is as before |
| `PendingPool.Pool.SlotNew` | src/mvspww.c:536-550 | succeeds exactly when the call that locks gets enqueue and allocation; a new empty clean slot, the chosen one, or nothing held for the key |
| `PendingPool.Pool.Admit` | src/mvsblkc.c:602-694 | admitted if and only if the dataset has no usable DSCB, or its VTOC entry can be read and the needs of the member after the write and of every other pending member chain through; the account is the fold of the content the write should give if it was true before or is rebuilt; the reads of a rebuild make the scratch readable before the store |
| `PendingPool.Pool.Predict` | src/mvsblkc.c:602-694 | with the VTOC entry at hand the prediction passes if and only if the whole chain does |
| `PendingPool.Pool.Reread` | src/mvsblkc.c:565-600 | exactly the rebuilds that have bytes before or after the data read the member, which settles its scratch and changes nothing a client sees |
| `PendingPool.Pool.Adopt` | src/mvsblkc.c:689-694 | the account is true if it was the fold of what was stored, and the layouts of all members pending for the dataset then fit |
| `PendingPool.Pool.Change` | src/mvspww.c:902-916 | an admitted change stores its image or nothing; where the account was true or is rebuilt it is done if and only if the store works and there is room for the content after it, and the account is true afterwards if the image shows what it should |
| `PendingPool.Pool.WriteAt` | src/mvspww.c:902-916 | a write to a slot leaves the stored image in it, which shows the splice where the image before says so, or changes nothing; with a true account it is done if and only if the store works and there is room; accounts stay true unless the store fails or is not exact, and sound images sound |
| `PendingPool.Pool.WriteNew` | src/mvspww.c:877-916 | a first write is done if and only if it gets its slot, can be stored and has room, and leaves the stored image; a refused one shows an empty member exactly when the locks were had; accounts stay true unless the store fails, and sound images sound |
| `PendingPool.Pool.Write` | src/mvspww.c:863-916 | without a wrap, and with a true account, done if and only if within the limit, in a dataset not known full, storable, at 0 if not pending, and the member has or gets a slot with room for its new content; a done WRITE leaves the stored image and everything pending within the space; a refused one shows an empty member if and only if it was not pending, the offset 0, the dataset not known full and the locks had; accounts stay true unless a store fails or is not exact, and sound images stay sound |
| `PendingPool.Pool.CreateNew` | src/mvspww.c:842-861 | done if and only if it gets its slot and an empty member has room; then an empty dirty member in memory, else the view as before |
| `PendingPool.Pool.AdmitEmpty` | src/mvspww.c:839-861 | a new empty member is kept, in memory and owing a flush, if and only if it has room; else everything taken for it is given back and the member is as on disk |
| `PendingPool.Pool.Recreate` | src/mvspww.c:826-861 | re-CREATE leaves the emptied image, scratch and all, even when it is then refused, which is exactly when an empty member has no room, and starts its account over; a true slot stays true unless it was clean, not empty, and refused; only a spilled member with bytes can stop being sound |
| `PendingPool.Pool.Create` | src/mvspww.c:814-861 | done if and only if the dataset is not known full and the member has or gets a slot with room to be empty; it is then pending, dirty and empty, on the emptied image, and everything pending fits; a refused one empties it exactly when it was pending and its dataset not known full; accounts stay true, and images sound but for a spilled member with bytes |
| `PendingPool.Pool.Truncate` | src/mvsvfs.c:812-893 | done if and only if within the limit and: of a pending member, no growth, or one that can be stored and has room; of another, size 0 where an empty member gets a slot with room, or no shrink of what is on disk; it leaves the resized image, exact where the image before says so; accounts stay true unless a store fails or is not exact; images stay sound unless a cut is ragged, and size 0 makes one sound |
| `PendingPool.Pool.TruncateAbsent` | src/mvsvfs.c:812-893 | of a member that is not pending: size 0 begins an empty one in memory exactly when it gets a slot with room, a size below what is on disk is refused, and any other is accepted exactly when the member exists and changes nothing |
| `PendingPool.Pool.ResizeAt` | src/mvspww.c:960-1024 | a cut is always done, a growth exactly when it can be stored and has room; the slot is left with the resized image or nothing changes; its image stays sound unless the cut is ragged, and size 0 makes it sound |
| `PendingPool.Pool.ReadPending` | src/mvsvfs.c:485-511 | a READ of a pending member returns its bytes from the offset, as many as there are, with the end flag exactly when they reach it, and changes nothing a client sees; sound images stay sound |
| `PendingPool.Pool.Discard` | src/mvspww.c:1031-1040 | pending bytes are dropped without being written, and no other member is touched |
| `PendingPool.Pool.Commit` | src/mvspww.c:1042-1055 | COMMIT never changes what a client sees; it succeeds exactly when nothing is dirty or the flush saves it, leaves dirty bytes on disk, and keeps clean slots true unless the dataset is known full or STOW abends |
| `PendingPool.Pool.Sweep` | src/mvspww.c:1057-1096 | sweeping changes no member for a client unless a flush fails |
| `PendingPool.Pool.Remove` | src/mvsvfs.c:641-699 | a done REMOVE leaves no pending bytes and no member; a refused one has dropped what was pending |
| `PendingPool.Pool.Rename` | src/mvsvfs.c:708-805 | a done RENAME puts what COMMIT of the source leaves on disk under the new name, which is what a client saw where clean slots are true; what a refused one drops |
| `PendingPool.Pool.Replace` | src/mvsvfs.c:740-805 | once nothing of the source is owed to the disk, the target shows what the disk has under the source; a rename that fails has dropped what was pending for the target |
| `PendingPool.Pool.Move` | src/mvsvfs.c:780-805 | the source's slot cannot shadow the renamed member |
| `PendingPool.Pool.TouchStats` | src/mvspww.c:1105-1177 | the enqueue taken for a stats-only STOW is given back or counted as leaked |
| `PendingPool.Pool.HeldExactly` | src/mvspww.c:266-445 | with releases that work, enqueues and allocations held are exactly those of the members pending |
| `PoolRuns.Serve` | src/mvspww.c:814-1177 | any one request keeps the pool sound, makes no member it does not name, keeps clean slots true unless it spoils one, and unless a member is released with its flush failed does what it means, or nothing if refused, unless it disturbs something named by the state before it; accounts stay true unless a store fails or strays, and an admitted request leaves everything pending within the space; images stay sound but for CREATE over a spilled member with bytes and a ragged cut of one, and SETATTR to nothing makes one sound |
| `PoolRuns.Run` | src/mvspww.c:266-1177 | after every run, under every pattern of failures, no two slots share a key, and enqueues and allocations are exactly those of the used slots |
| `PoolRuns.RemovedStaysRemoved` | src/mvsvfs.c:641-699 | a done REMOVE is never undone by later flushes, sweeps or evictions, whatever fails |
| `PoolRuns.TraceTrue` | src/mvspwfl.c:422-495 | from any point of a run at which clean slots are true, they stay so as long as no COMMIT meets a full dataset or abend and no refusal leaves an empty slot, even where STOW refuses |
| `PoolRuns.TraceLeads` | src/mvspww.c:814-1177 | from any such point, what clients see is what the requests mean on a map from members to bytes, through COMMITs that fail and are retried, up to the next refusal that drops or empties pending bytes, inexact store, or member released with its flush failed; a WRITE splices a pending member and replaces another, and SETATTR resizes a pending one and leaves a longer size of another alone |
| `PoolRuns.TraceSound` | src/mvspww.c:719-1024 | from any point of a run at which a member's image is sound, it stays so through every eviction, sweep, flush and store, until a CREATE over its spilled bytes or a ragged cut |
| `PoolRuns.TraceExact` | src/mvspww.c:719-1024 | so every WRITE and SETATTR that is done on it gives the flat-file bytes |
| `PoolRuns.CalmIsStraight` | src/mvspww.c:719-1024 | and a run without such requests from a point at which every image is sound, as at the start, has no straying store at all |
| `PoolRuns.TraceCounted` | src/mvsblkc.c:558-694 | from any point at which accounts are true, as at the start, every account is the fold of a stream that its member begins, as long as no store fails or strays |
| `PoolRuns.TraceFits` | src/mvsblkc.c:602-694 | from any such point every admitted CREATE, WRITE and growth leaves the layouts of everything pending for its dataset within the space its VTOC entry shows, if predicted ends stay inside the allocation |
| `PoolRuns.RunAsFiles` | src/mvspww.c:814-1177 | all of these between any two points of every run, through evictions, sweeps, failures and refusals; a COMMIT that is done has its member on disk; and where STOW never fails, a run in which every request is done and no spilled member is created over or cut raggedly acts as a map from members to bytes throughout, with true accounts and everything admitted fitting |
| `PoolRuns.Save` | src/mvspww.c:814-1055 | CREATE, WRITE after WRITE in order and COMMIT, from any state of the pool: if each is done, what was written is what clients see and what is on disk, across the move to disk and whatever member was there before |
| `PoolRuns.Append` | src/mvspww.c:863-916 | a WRITE at the end of a pending member appends, even on a scratch that holds older bytes behind the member |
| `PoolExamples.RefusedWriteHides` | src/mvspww.c:895-909 | a WRITE over a member on disk, refused because the VTOC could not be read, after which a client sees an empty member |
| `PoolExamples.WriteThenAbend` | src/mvspwfl.c:475-489 | a COMMIT that abends fails and leaves the slot clean with its bytes not on disk |
| `PoolExamples.CommitAfterAbend` | src/mvspww.c:1042-1055 | the next COMMIT and a RENAME report success, and the client finds the old bytes under the new name |
| `PoolExamples.WrappedWritePasses` | src/mvspww.c:648-660 | offset 2^64-1 with count 2 passes the size test |
| `Xdr.Be32RoundTrip` | src/xdr.c:43-61 | a word comes back from its four bytes |
| `Xdr.Buffer.WriteRaw` | src/xdr.c:176-185 | data is appended whole, or the error is latched and nothing changes |
| `Xdr.Buffer.WriteWord` | src/xdr.c:149-165 | a word is appended, or the error is latched |
| `Xdr.Buffer.WriteHyper` | src/xdr.c:167-174 | two words, high first |
| `Xdr.Buffer.WriteOpaque` | src/xdr.c:187-198 | length, data and zero padding |
| `Xdr.Buffer.WriteAll` | src/xdr.c:149-207 | any list of writes appends its encoding, or latches the error for want of room |
| `Xdr.Buffer.Skip` | src/xdr.c:139-147 | the position advances within capacity, except where the 32-bit sum wraps |
| `Xdr.Buffer.ReadWord` | src/xdr.c:43-61 | a word is read, or zero with the error latched |
| `Xdr.Buffer.ReadHyper` | src/xdr.c:63-71 | two words, high first |
| `Xdr.Buffer.ReadRaw` | src/xdr.c:73-83 | the bytes at the position, or the error, except where the 32-bit sum wraps |
| `Xdr.Buffer.ReadOpaque` | src/xdr.c:85-109 | the data with its padding passed over; an error only when it is too long or runs off the end |
| `Xdr.Buffer.ReadString` | src/xdr.c:111-137 | a string shorter than its buffer is read with its padding passed over; -1 exactly when its length cannot be read or does not fit the buffer, while one that runs off the end is answered with its length and only latches the error |
| `Xdr.Buffer.Read` | src/xdr.c:43-147 | where an encoding lies, a matching read returns its item and stops at its end; after an error nothing changes |
| `Xdr.ReadAll` | src/xdr.c:43-147 | matching reads over an encoded list return it and consume it exactly |
| `Xdr.RoundTrip` | src/xdr.c:43-214 | any writes that fit are read back, ending where the writes did; others latch the error |
| `Rpc.RecvAll` | src/rpc.c:97-114 | the buffer is filled whatever pieces the bytes arrive in, and it fails only at end of stream or on a stall |
| `Rpc.ReadMark` | src/rpc.c:429-470 | length and last-fragment bit of a record mark |
| `Rpc.ReadFragment` | src/rpc.c:429-470 | one fragment's payload lands after the earlier ones, or it does not fit |
| `Rpc.FragmentsJoin` | src/rpc.c:429-470 | however a payload is cut into fragments, the message in the stream is the payload |
| `Rpc.Reassemble` | src/rpc.c:429-470 | for any stream of bytes and any delivery the buffer holds the message the stream holds; it fails exactly when the stream ends first or it does not fit, or on a stall |
| `Rpc.RpcRecv` | src/rpc.c:429-476 | a message is delivered if and only if the stream holds one, it fits, and the self-check does not refuse it |
| `Rpc.FrameIsOneFragment` | src/rpc.c:478-488 | a sent frame is one fragment whose payload is the body |
| `Rpc.Scan` | src/rpc.c:267-420 | the scan finds the first two occurrences of the handle magic |
| `Rpc.SelfCheck` | src/rpc.c:267-420 | accepts exactly the messages that are not a WRITE with wrong length or an embedded CALL |
| `Rpc.WalkExact` | src/rpc.c:222-263 | the walk over the fields ends at the end of every call laid out properly |
| `Rpc.ExpectedLenExact` | src/rpc.c:222-263 | the recomputed length of every well-formed WRITE is its length |
| `Rpc.GoodWriteAccepted` | src/rpc.c:267-420 | every well-formed WRITE with at most one handle magic is accepted |
| `Rpc.ReplayRefused` | src/rpc.c:267-420 | every replay of a WRITE from its beginning, with the handle whole in both parts and no magic across the cut, is refused |
| `Names.CompareSame` | src/mvsdol.c:180-244 | the order of names is antisymmetric |
| `Names.LessTransitive` | src/mvsdol.c:180-244 | the order of names is transitive |
| `Names.ReachesAbove` | src/mvspdir.c:671-680 | comparing padded fields with a terminated name misses no name at or above it, and takes in none below it when the name is of member characters |
| `Names.TrimmedPadding` | src/mvsio.c:270-280 | trimming undoes padding |
| `Names.BytesToString` | src/mvsio.c:270-280 | the loop removes exactly the trailing blanks |
| `Names.ToCookie` | src/mvsvfs.c:1142-1157 | a name becomes its blank-padded field |
| `Names.FromCookie` | src/mvsvfs.c:1163-1178 | the string a cookie holds |
| `Names.CookieRoundTrip` | src/mvsvfs.c:1142-1178 | every member name comes back from its cookie, and the zero cookie is the start |
| `MemberSearch.Search` | src/mvsdol.c:180-244 | for each operator set, the equal entry, else the nearest above, else the nearest below, or nothing if there is none |
| `DirListing.DirSlot.ReaddirNext` | src/mvsvfs.c:1397-1502 | the first entry after the cookie in the cached list, loaded from the cookie when nothing is cached |
| `DirListing.FromHolds` | src/mvspdir.c:648-715 | a read from a name is the suffix of the members that reach it |
| `DirListing.AfterFrom` | src/mvsvfs.c:1397-1502 | a list loaded at or before the cookie continues as the directory does |
| `DirListing.AfterNext` | src/mvsvfs.c:1397-1502 | following an entry's cookie drops exactly that entry |
| `DirListing.CacheHides` | src/mvsvfs.c:1289-1294 | a cached list answers a reader correctly if and only if every member above the cookie is in it |
| `DirListing.Fattr3Size` | src/nfs3.c:52-68 | the attributes take 84 bytes |
| `DirListing.PlainEstimateExact` | src/nfs3.c:818-820 | the READDIR estimate is the exact size of every entry |
| `DirListing.PlusEstimateDominates` | src/nfs3.c:30-42 | the READDIRPLUS estimate is never too small for any name length, and over by at most four bytes |
| `DirListing.Readdir` | src/nfs3.c:799-843 | a reply continues the listing, is at most maxcount with trailer if it has two or more entries, and stops only before an entry that would not fit |
| `DirListing.Readdirplus` | src/nfs3.c:893-955 | the same bound and continuation, passing over members without attributes or handle; it stops only before an entry with attributes that would not fit, with nothing but passed-over entries in between |
| `DirListing.NextPage` | src/nfs3.c:806-838 | after an unfinished page there is strictly less to list, and the last cookie continues exactly there when the list starts at or before the cookie |
| `DirListing.Round` | src/mvsvfs.c:1283-1294 | one page with the cached list lost or another reader served before it |
| `DirListing.ListAll` | src/mvsvfs.c:1232-1502 | through any page sizes, losses of the cached list and other readers, listing an unchanged directory ends; it is complete, once and in order if no page was served from a list starting after its cookie, which without other readers never happens |
| `DirListing.MidDirectoryHides` | src/mvsvfs.c:1289-1294 | a reader in mid-directory, after which one from the start is not shown the first member |
| `DirListing.ShownHolds` | src/nfs3.c:899-927 | what is listed is in order and is every member that may be shown |
| `DirBlocks.FieldCompare` | src/mvspdir.c:671-672 | an eight-byte comparison with the start buffer depends only on the string in it, not on what follows its NUL |
| `DirBlocks.EntryAt` | src/mvspdir.c:552-595 | where the pieces of an entry lie |
| `DirBlocks.SkipDirEntry` | src/mvspdir.c:597-613 | skipping advances by the entry's length |
| `DirBlocks.ExtractDirEntry` | src/mvspdir.c:552-631 | extracting returns the entry and advances by the same length |
| `DirBlocks.ProcessDirBlock` | src/mvspdir.c:648-683 | from any well-formed block exactly the entries reached from the start name are appended, and the end mark is noticed |
| `DirBlocks.ReadPdsDir` | src/mvspdir.c:685-715 | reading a well-formed directory appends exactly the reached entries of all its blocks |
| `DirBlocks.KeptIsFrom` | src/mvspdir.c:685-715 | for a sorted directory that is the suffix from the start name |
| `DirBlocks.GetMemberEntry` | src/mvspdir.c:760-824 | looking up a member succeeds if and only if it exists, and returns its entry |
| `IspfStats.YearAndDay` | src/mvspdir.c:412-426 | the year and day of a day count, by whole years |
| `IspfStats.LeapStep` | src/mvspdir.c:240-246 | the closed form goes up by one exactly at leap years |
| `IspfStats.YearStartClosed` | src/mvspdir.c:240-249 | the closed-form day count equals the year-by-year sum |
| `IspfStats.MonthAndDay` | src/mvspdir.c:265-285 | month and day add up to the day of the year |
| `IspfStats.JulianToMonthDay` | src/mvspdir.c:265-285 | the month loop computes them, with its fallback |
| `IspfStats.BcdRoundTrip` | src/mvspdir.c:404-407 | a two-digit number comes back from packed decimal |
| `IspfStats.DateRoundTrip` | src/mvspdir.c:287-316 | packing and unpacking any date with a time of day gives that day at that time |
| `IspfStats.EncodeStats` | src/mvspdir.c:447-505 | the thirty bytes are the encoding, and no byte past them is touched |
| `IspfStats.DecodeStats` | src/mvspdir.c:326-376 | user data decodes field by field, with or without the extended counts |
| `IspfStats.ConvertDate` | src/mvspdir.c:287-316 | local wall-clock fields become a UTC time |
| `IspfStats.StatsRoundTrip` | src/mvspdir.c:326-505 | decoding encoded statistics returns the changed date to the second, the creation date at local midnight, counts clamped at 65535 and the rest as it was |
| `IspfStats.StatsStable` | src/mvspdir.c:326-505 | encoding what was decoded changes no byte |
| `IspfStats.FlushesKeep` | src/mvspdir.c:507-543 | whatever the entry held, after any number of flushes version, creation day, initial size and id are what plain statistics keep of it, and the modification level has gone up once each time to at most 99 |
| `Paths.MemberNameValid` | src/mvsio.c:33-59 | the loop accepts exactly the PDS member names |
| `Paths.FileNameRoundTrip` | src/mvsvfs.c:1185-1221 | the file name generated for a member stands for that member |
| `Paths.AcceptedLeaf` | src/mvsio.c:186-252 | with an extension of at most 14, an accepted file name is the generated one but for case |
| `Paths.NameNoLonger` | src/mvsio.c:186-252 | the generated file name is no longer than any that is accepted for its member |
| `Paths.SixteenthIgnored` | src/mvsio.c:209-210 | with an extension of fifteen, a further character is not looked at |
| `Paths.OneLeafPerMember` | src/mvsio.c:204-252 | file names of one member differ only in case if and only if the extension has at most 14 characters |
| `Paths.PathType` | src/mvsio.c:73-140 | the classification is decided by the first export that takes the path |
| `Paths.LeafAfterLastSlash` | src/mvsio.c:186-193 | the member file is what follows the last slash |
| `Paths.PathNoLonger` | src/mvsio.c:73-140 | the path of a place is no longer than any path that names it |
| `Paths.OnlyOne` | src/mvsio.c:90-103 | with exports that are not nested, no other export takes the path |
| `Paths.PlaceRoundTrip` | src/mvsio.c:73-140 | the path of every place names that place |
| `Handles.PutField` | src/fhandle.c:51-63 | a field is the string cut or padded, and nothing past it is touched |
| `Handles.GetField` | src/fhandle.c:69-82 | a field without trailing blanks, up to a NUL |
| `Handles.FieldRoundTrip` | src/fhandle.c:51-82 | a string that fits comes back from its field |
| `Handles.Encode` | src/fhandle.c:277-290 | sixty bytes of magic, hash, dataset and member |
| `Handles.Decode` | src/fhandle.c:296-317 | wrong length or magic is refused, anything else decodes |
| `Handles.WireRoundTrip` | src/fhandle.c:277-317 | every handle comes back from its bytes |
| `Handles.Resolve` | src/fhandle.c:174-272 | the first export and dataset that match, or stale |
| `Handles.ResolvesTo` | src/fhandle.c:115-272 | a handle made from a path resolves to the whole path of the same place under its generated file name |
| `Handles.CanonicalFits` | src/fhandle.c:174-272 | that path is no longer than the path the handle was made from, so it is never cut |
| `Handles.HandleRoundTrip` | src/fhandle.c:115-272 | resolving a handle made from any path and making it again gives the same handle |
| `Handles.OneObjectPerHandle` | src/fhandle.c:115-168 | paths with one handle name the same export and dataset and, for extensions of at most 14, the same file but for case |
| `Handles.HandleSurvivesWire` | src/fhandle.c:115-317 | a handle sent to a client and back still resolves to the same object |
| `TrackCapacity.NextRow` | src/mvsutl.c:163-227 | the 3390 table descends in block length and ascends in count |
| `TrackCapacity.BlocksPerTrack` | src/mvsutl.c:231-279 | the table's row on a 3390, else the largest count whose cost fits the track |
| `TrackCapacity.CapacityAntitone` | src/mvsutl.c:231-279 | a longer block never fits more often |
| `TrackCapacity.CapacityFitsByte` | src/mvsutl.c:231-279 | at most 103 blocks on a known device, so the record number fits a byte |

## Left out

- Sockets, the select loop, operator commands, logging, performance counters, tripwires: plumbing.
- Assembler services and JCC stdio: only their outcomes are modelled. The STAE is taken to be established.
- EBCDIC tables: one character set stands for both; member-name bytes sort above blank and NUL.
- Configuration parsing: a resolved export table is the input. The hash of an export path is a parameter, taken to be distinct per export.
- src/mvsfsz.c and src/mvsprw.c caches, LOOKUP, GETATTR, ACCESS, READ of a member that is not pending, FSSTAT and the mount protocol: small lookups and encoders.
- I/O errors of the scratch dataset after its first write: a run ends there.
- 32-bit overflow of sizes in the spill store: the 1 MiB member limit keeps them small.
- SpillStore.SpillFile.Read: says nothing of a read past the extent, which no caller makes.
- MemberImage.StoreIsSplice: claims nothing of the bytes after a store that is not sure, until the member is emptied; what they are exactly is SpillStore.ShrinkThenStore.
- MemberImage.SizeIsResize: the same for a growth that is not sure.
- PendingPool.Pool.Write: promises nothing of a WRITE whose offset and count wrap, because the code then stores outside the member's buffer; a run has none.
- PendingPool.Pool.Truncate: takes the size of a member on disk to be the number of its bytes.
- PendingPool.Pool.TouchStats: models the enqueue, not the directory entry's new changed date.
- PendingPool: a slot holds the image that PendingMember.Member is proved to be in step with.
- PendingPool: allocations are counted per member, and the checks of path and read-only export before a call, the diagnostic fields and the ring of recent flushes are left out.
- PoolState.ChainHoldsFootprint: says nothing once a predicted end passes the allocation, because secondary space is then credited again; TrackSpace.ChainBalance is the exact over-credit.
- BlockCalc.EstimateIsLayout: needs a format in which a record carries data and fits a block; the code counts nothing for others.
- DirListing: a reply is its list of items; the 128 KB reply buffer and its error latch are Xdr's. A directory that ends without an end mark, the choice of a slot in the pool of eight, and the root directory's index cookies are left out.
- DirBlocks.ProcessDirBlock: starts from well-formed blocks; the code does not defend itself against others.
- IspfStats.DecodeStats: needs 34 bytes when the extended bit is on; the code would read past shorter user data.
- IspfStats.StatsRoundTrip: is for local times that a non-negative 32-bit time_t holds.
- IspfStats: the branch that leaves a member without statistics as it is, and the fixed values shown for one, are left out.
- Handles.HandleRoundTrip: needs exports that are not nested, directories of different names and distinct hashes.
