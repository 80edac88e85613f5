# A verified model of the kernel's stateful cores

The kernel is small: page tables with a count per frame, a block device with bitmaps and block trees under
directories, a hashed buffer cache, a task table with a scheduler and sleep queues, open-file tables, rings for
pipes and terminals, a block cipher with a table of encrypted files, and the argument area of exec.  This project
models each of these twice and connects the two:

* **specification modules** hold the state as values and each operation as a function, and prove what holds over
  all runs; for the buffer cache, sleep_on, pipes and the scheduler, over all interleavings at the points where the
  code can sleep, while file, directory and descriptor calls run one after another;
* **`...Code` modules** hold the state in arrays and fields and run the loops and updates of the C code in place;
  every method is proved equal to its specification function.

| modules | about |
|---|---|
| Paging, PagingSteps, PagingLoops, PagingRun, PagingCode | copy-on-write paging refines eager copying; exact frame counts |
| PagingDirectory, PagingStart, PagingUnverified, PagingOutcome | addresses that map the page directory; boot, the first fork and the runs from there; kernel stores without verify_area; which operations are served |
| Zones, Truncate, Files, FilesCode | zone bitmap, block trees as a disjoint forest, files as byte sequences |
| Cache, CacheLinks, CacheTable, CacheCode, CacheProtocol, CacheCalls | buffer cache: transparency, links, identity under concurrency |
| LinkCounts, LinkCountsCode, Naming, NamingCalls | directories and link counts; what paths mean before and after each call |
| EncTable, EncRemove, EncTableCode, Cipher, CipherCode | table of encrypted files and the block cipher |
| Scheduler, SchedulerCode, SleepQueue, SleepQueueCode | scheduling, progress, sleeping and waking |
| Descriptors, DescriptorsCode, DescriptorAnswers, Pipe, PipeCode, Tty, TtyInput, TtyCode, ExecArgs, ExecArgsCode | open files, the two rings, exec arguments |
| Counting | how often a value occurs in a table of rows, the common base of all count invariants |

`dafny verify dfyconfig.toml` checks everything.

Results that differ from what one might expect of the code:

* `remove_func` skips the slot after the removed entry (fs/security.c:428 and 435); EncRemove gives the exact
  condition under which that entry can still be found, and a concrete pair of inodes where it cannot.
* The cipher's scratch array has one slot that is never written (index modulo 1023); Cipher says which two bytes
  are lost.  Keys with repeated characters can exchange columns; the exact condition for a key to work is proved.
* `dup2` of a descriptor onto itself closes it.
* An erase typed after its line was partly read is ignored; the terminal ring differs from the plainly edited
  input exactly when that has happened.
* The test `p-len < 0` in `copy_strings` compares an unsigned number, so it never refuses anything: strings that
  do not fit end in a panic or in a read outside the page array (ExecArgs has which).
* do_execve does not test the result of its first `copy_strings`: when the pages do not suffice for the
  environment and there is an argument, the second call starts at byte 0 and reads page[0xFFFFF].
* `sys_pipe` stores its two descriptor numbers without verify_area: after a fork they show in every task that shares
  the page, and at address 0 of a child of init they go into the page directory.
* A page that `do_no_page` has taken stays counted when `put_page` fails, which is exactly when its page table is
  missing and one frame was free.
* Task 1 gets the page directory, frame 0, mapped read-only, and so do its children.  What they read there changes
  with every page table hung in or taken out: PagingDirectory has the exact condition, PagingStart a run.
* `change_ldt` does not notice when there is no page left for the page table of the arguments.
* `new_block` leaves a bit beyond the last zone set when it finds one.

## Model

| member | source | states |
|---|---|---|
| PagingCode.Memory.GetFreePage | mm/memory.c:52-72 | takes the last frame with count 0, clears it and sets its count to 1; 0 and no change when no frame is free |
| PagingCode.Memory.FreePage | mm/memory.c:78-88 | lowers the count of one frame of the paging area and changes nothing else |
| PagingCode.Memory.FreePageTables | mm/memory.c:94-119 | the two loops compute FreeTables; with exact counts no free_page in them can panic |
| PagingCode.Memory.CopyPageTables | mm/memory.c:138-177 | the loops compute CopyTables, also when the table allocation fails half-way (-1) |
| PagingCode.Memory.PutPage | mm/memory.c:185-206 | the page is entered present, writable and user-accessible; false and no entry when its table cannot be allocated |
| PagingCode.Memory.UnWpPage | mm/memory.c:208-223 | an unshared page is made writable in place; a shared one is replaced by a private copy and its count drops |
| PagingCode.Memory.WriteVerify | mm/memory.c:238-249 | only a present, read-only entry is un-shared; otherwise nothing changes |
| PagingCode.Memory.DoNoPage | mm/memory.c:251-259 | the fault takes a page and places it; the page that stays counted but unplaced when put_page fails is reported |
| PagingCode.Memory.VerifyArea | kernel/fork.c:18-31 | the loop, with the rounding of address and size and the segment base, un-shares page after page until memory runs out |
| PagingCode.AreaIsCovered | kernel/fork.c:22-30 | the pages visited are exactly those that hold a byte of the area |
| PagingSteps.GetFreePageStep | mm/memory.c:52-72 | a page handed out is cleared, nobody refers to it, no visible page changes and the counts stay exact |
| PagingSteps.CopyEntryStep | mm/memory.c:159-170 | one copied entry: parent and child see the same page, both read-only, the count grows by one, every other view stays |
| PagingSteps.ClearEntryStep | mm/memory.c:104-112 | one cleared entry: the page is no longer seen there, its count drops by one, all other views stay |
| PagingSteps.UnWpStep | mm/memory.c:208-223 | the write fault changes no page anybody sees, except that an address showing the page directory gets a copy of it; the faulting entry becomes writable on a frame of count 1 and the counts stay exact |
| PagingSteps.StoreStep | mm/memory.c:230-249 | a store through a writable entry changes the page seen there and no page seen at any other address of any task |
| PagingLoops.CopyTablesLoop | mm/memory.c:138-177 | copy_page_tables of whole tables: on success each copied address shows the parent's page; always the counts stay exact and no other view changes |
| PagingLoops.FreeTablesLoop | mm/memory.c:94-119 | afterwards nothing is mapped in the range, every other view is unchanged and the counts are exact |
| PagingLoops.CopyThenFreeRestores | kernel/fork.c:49-52 | copy_page_tables, complete or cut short by lack of memory, followed by free_page_tables of the copy restores every count |
| PagingLoops.FreeTwice | kernel/exit.c:68-69 | freeing the code range and then the data range that contains it equals freeing the larger range once |
| PagingLoops.CopyTablesFree | mm/memory.c:151-154 | copy_page_tables succeeds if and only if there is a free frame for each page table in the range |
| PagingLoops.NoPageStep | mm/memory.c:251-259 | on success, which is when one or two frames are free as the page table exists or not, the address shows a cleared page; a page is lost exactly when the table is missing and one frame was free, and is then the only count left over |
| PagingLoops.VerifyAreaOk | kernel/fork.c:18-31 | verify_area succeeds if and only if there is a free frame for each page that is shared and read-only when its turn comes |
| PagingLoops.VerifyAreaUnshares | kernel/fork.c:18-31 | after success every present page of the area is writable and unshared; views are unchanged, except that addresses of the area that showed the page directory have a copy; out of memory this holds of the first pages |
| PagingRun.ForkStep | kernel/fork.c:33-126 | fork keeps the invariant; a fork refused for lack of memory leaves mem_map as it was; a done fork shows the child a copy of all the parent shows |
| PagingRun.StepRefines | mm/memory.c:138-259 | every single operation of the sharing machine is matched by the machine that copies at once |
| PagingRun.CowRefinesEager | mm/memory.c:138-259 | over every run of fork, exec, exit, wait, page faults, user stores and kernel stores behind verify_area, each task sees at every address what it would see if fork had copied all memory; addresses mapping frame 0 show the page directory until stored to |
| PagingRun.OthersUnaffected | mm/memory.c:208-259 | a store, exec, page fault or kernel store behind verify_area of one task, even one that kills it, changes no view another task has |
| PagingRun.DeliverStep | kernel/fork.c:18-31 | a kernel store behind verify_area, which ignores the write bit, acts as on private pages |
| PagingOutcome.TouchEnds | mm/memory.c:251-259 | a page fault is served exactly when the page is there or one frame is free, two where the page table is missing; otherwise the task is killed |
| PagingOutcome.WriteEnds | mm/memory.c:208-259 | a store is served exactly when its page fault is and, at a read-only page that is shared, a frame is free |
| PagingOutcome.DeliverEnds | kernel/fork.c:18-31 | a kernel store behind verify_area is served exactly when there is a frame for each page verify_area must replace and enough are left for the page fault |
| PagingOutcome.PutEnds | fs/pipe.c:89-90 | a kernel store without verify_area is served exactly when its page fault is |
| PagingOutcome.OutcomeForeseen | mm/memory.c:138-259 | every operation of the runs is done, refused or kills the task exactly as the page tables, the free frames and the task table before it say |
| PagingDirectory.ForkDirectory | kernel/fork.c:68-126 | fork succeeds if and only if a slot is vacant and there are free frames for the task structure and each page table; done, it changes the page directory if and only if the parent has a page table |
| PagingDirectory.DirectoryMovesIff | mm/memory.c:94-206 | the page directory changes exactly with the operations that hang a page table in or take one out, told from the page tables and the free frames before the operation |
| PagingDirectory.OthersReadTheSameIff | mm/memory.c:94-259 | what another task reads is unchanged if and only if not both its address maps the page directory and the operation moves a page table |
| PagingUnverified.PutReaches | fs/pipe.c:89-90 | a kernel store without verify_area is seen at every address that maps the frame, and nowhere else |
| PagingUnverified.PutContainedIff | fs/pipe.c:89-90 | such a store that changes a word leaves all other addresses and the kernel image as they were if and only if the frame is in the paging area with count 1 |
| PagingUnverified.PutRefines | fs/pipe.c:89-90 | at an unmapped address or a page with count 1 it acts as a store of the program to private memory |
| PagingUnverified.PutReachesParent | fs/pipe.c:89-90 | after any successful fork such a store by the child, to any page the parent maps but the page directory, is seen by the parent at the same address |
| PagingUnverified.PipeReachesInit | fs/pipe.c:89-90 | from boot: a pipe call of the first child of init changes what init reads, and at address 0 writes into the page directory |
| PagingStart.BootIsConsistent | boot/head.s:127-150 | the memory set up at boot satisfies the exact-count invariant with all frames of the paging area free |
| PagingStart.SharedEntryStep | mm/memory.c:159-170 | a copied kernel entry is read-only in the copy, and the kernel's own table and all counts stay |
| PagingStart.FirstForkStep | mm/memory.c:138-177 | the fork of task 0 succeeds and leaves a consistent system: task 1 shows the page directory at its address 0 and the kernel image behind it in 160 read-only pages, and two frames are used |
| PagingStart.RunsFromBootRefineEager | mm/memory.c:138-259 | from boot and the first fork on, over every run, each task sees what it would see if every fork copied all pages |
| PagingStart.DirectoryShowsThrough | mm/memory.c:157-164 | once init has forked, the exit of its child changes what init reads at its address 0 |
| FilesCode.FileSystem.FindFirstZero | fs/bitmap.c:24-37 | the first clear bit of a bitmap block, the block size when all are set |
| FilesCode.FileSystem.NewBlock | fs/bitmap.c:67-97 | computes NewBlock: first clear bit over the loaded maps, marked, its zone cleared; 0 when none; a bit beyond the last zone stays set |
| FilesCode.FileSystem.BmapCreate | fs/inode.c:49-125 | _bmap with and without create computes Bmap and CreateBlock at all three depths |
| FilesCode.FileSystem.FreeBlock | fs/bitmap.c:39-65 | clears one bit; neither panic can occur under its precondition |
| FilesCode.FileSystem.TruncateFile | fs/truncate.c:41-58 | the loops over direct, indirect and double-indirect tables compute TruncateInode |
| FilesCode.FileSystem.FreeInd | fs/truncate.c:5-21 | frees every entry of a table and the table, in list order |
| FilesCode.FileSystem.FreeDind | fs/truncate.c:23-39 | frees every indirect table of a double-indirect one, then the table |
| FilesCode.FileSystem.FileRead | fs/file_dev.c:12-51 | the read loop delivers the bytes of ReadLoop and advances the position by their number |
| FilesCode.FileSystem.FileWrite | fs/file_dev.c:53-113 | the write loop equals WriteLoop; returns the number of bytes written, -1 for none; sets the position |
| Zones.NewBlockStep | fs/bitmap.c:67-97 | a zone handed out was in no tree, is cleared and marked; allocating it changes no tree and no file data |
| Zones.EnsureStep | fs/inode.c:58-109 | one level of create: old zone kept, or nothing, or a fresh zone that no tree referred to, with every other position unchanged |
| Zones.CreateBlockSpec | fs/inode.c:49-125 | create_block returns 0 or a zone; bmap then gives that zone, a newly allocated zone was referred to nowhere, every other (inode, block) maps as before, and the trees stay a disjoint forest |
| Zones.PosOfInjective | fs/inode.c:49-115 | different block numbers below the limit use different positions of the tree |
| Truncate.FreedIsReached | fs/truncate.c:5-58 | the zones freed are exactly those the inode reached |
| Truncate.FreedNoDup | fs/truncate.c:5-58 | no zone is freed twice |
| Truncate.NeverCleared | fs/bitmap.c:57-62 | at each step of truncate the bit about to be cleared is set: the panic cannot occur |
| Truncate.TruncateSpec | fs/truncate.c:41-58 | truncate clears the bits of exactly the zones the inode reached, the inode maps nothing and has size 0, all other bits, trees and data stay, and the forest stays disjoint |
| Files.WriteLoopSpec | fs/file_dev.c:69-113 | a write that returns n changes exactly the n bytes at its start position, sets the size to the maximum of old size and end, and changes no other file; it stops short only where the next block has no zone and every data zone is taken |
| Files.ReadLoopSpec | fs/file_dev.c:16-49 | a read delivers exactly the bytes of the file from its position on, zeros in holes |
| Files.StepRefines | fs/read_write.c:49-97 | each write, read or truncation acts on the files as on byte sequences; a write answers 0 for no bytes, is refused if and only if it would pass the largest size, and otherwise answers the number of its bytes, or less only where no zone is left for the next block |
| Files.FilesAreByteSequences | fs/file_dev.c:12-113 | over every run of writes, reads and truncations of any regular files, each file behaves as one byte sequence with zero-filled holes, and each call answers as in StepRefines |
| CacheCode.BufferCache.constructor | fs/buffer.c:242-271 | buffer_init: all buffers idle and without device, in one ring in the order of memory |
| CacheCode.BufferCache.RemoveFromQueues | fs/buffer.c:88-104 | unlinks the buffer from its hash chain and the free ring; the rest stay soundly linked |
| CacheCode.BufferCache.InsertIntoQueues | fs/buffer.c:106-121 | links the buffer at the end of the ring and, with a device, at the head of its chain |
| CacheCode.BufferCache.FindBuffer | fs/buffer.c:123-131 | the buffer with the block if its chain has one, else -1, which means no buffer has it |
| CacheCode.BufferCache.GetHashTable | fs/buffer.c:140-154 | the buffer of the block with its use counted; for one caller the mismatch retry is never taken |
| CacheCode.BufferCache.FirstFree | fs/buffer.c:167-174 | the first idle buffer of the ring |
| CacheCode.BufferCache.Getblk | fs/buffer.c:161-211 | for one caller the linked implementation equals Getblk on the abstract pool |
| CacheCode.BufferCache.SyncDev | fs/buffer.c:69-83 | writes back every dirty buffer of the device |
| CacheCode.BufferCache.Bread | fs/buffer.c:227-240 | equals Bread on the abstract pool |
| CacheCode.BufferCache.Brelse | fs/buffer.c:213-221 | equals Brelse on the abstract pool |
| CacheLinks.RingRemove | fs/buffer.c:98-103 | unlinking one buffer leaves the circle of the others in order |
| CacheLinks.RingInsert | fs/buffer.c:109-112 | linking before the head puts the buffer at the end of the ring |
| CacheLinks.ChainRemove | fs/buffer.c:91-96 | unlinking one buffer leaves the chain of the others |
| CacheLinks.ChainInsert | fs/buffer.c:114-120 | linking at the head puts the buffer in front of its chain, with a check for an empty chain |
| CacheTable.UnhashTable | fs/buffer.c:88-96 | taking a buffer off its chain keeps every other buffer on the chain of its own block |
| CacheTable.RehashTable | fs/buffer.c:113-120 | putting a buffer on the chain of its new block completes the table again |
| Cache.GetblkSpec | fs/buffer.c:161-211 | the buffer returned carries the block and is in use; no block changes its contents; the ring stays a permutation; Blocked exactly when every buffer is in use |
| Cache.BreadSpec | fs/buffer.c:227-240 | as getblk, and the buffer holds the contents of the block |
| Cache.ModifySpec | fs/buffer.c:161-240 | changing a buffer in use changes the contents of its own block and of no other |
| Cache.SyncKeeps | fs/buffer.c:69-83 | write-back keeps the pool invariant and every block's contents |
| Cache.SyncMakesDurable | fs/buffer.c:69-83 | after sync_dev the disk itself holds the contents of every block of the device |
| Cache.GetblkTakesOldest | fs/buffer.c:167-210 | the buffer recycled is the idle one taken longest ago, and goes behind all others |
| Cache.StepUses | fs/buffer.c:69-240 | one call: counts follow the uses, a call sleeps exactly when its block is not cached and every buffer is in use, brelse panics exactly when nobody uses the buffer, and a buffer in use keeps its block, and its contents unless they are updated |
| Cache.CountsAreUses | fs/buffer.c:140-240 | over every run the count of a buffer grows by the calls that returned it less its releases |
| Cache.HeldKeepsBlock | fs/buffer.c:140-240 | as long as uses of it are left, a buffer keeps its block through every getblk, and once read holds the last update of that block |
| Cache.CacheIsTransparent | fs/buffer.c:69-240 | every run of getblk, bread, updates, brelse and sync_dev reads what a plain disk without a cache would hold: eviction loses no data |
| CacheProtocol.IdentityHolds | fs/buffer.c:140-221 | in every interleaving at the sleep points no two queued buffers carry the same block, a used buffer is for the block it was handed out for, and the mismatch retry of get_hash_table is never taken |
| CacheCalls.HandedOutAsAsked | fs/buffer.c:140-211 | in every interleaving a call that ends with a buffer ends with one for the device and block its caller asked for; getblk never ends without one, get_hash_table only when no buffer carries the block |
| CacheCalls.AloneEnds | fs/buffer.c:140-211 | wherever a process stands in getblk or get_hash_table, if it runs alone from there it ends its call with a buffer for the block it asked for within five steps, as soon as that is cached or a buffer is idle |
| CacheCalls.GetblkEnds | fs/buffer.c:161-211 | a process left alone in getblk gets the buffer of its block if one has it, else an idle one |
| CacheCalls.GetHashEnds | fs/buffer.c:140-154 | a process left alone in get_hash_table gets the buffer of its block, or nothing if none has it |
| CacheCalls.BrelseEnds | fs/buffer.c:213-221 | a process left alone in brelse gives back the one reference it names, and the buffer has a user less |
| CacheProtocol.UsedBufferKeepsBlock | fs/buffer.c:161-211 | a buffer with users keeps its device and block in every step of every process, but for its sole user re-keying it inside getblk |
| CacheProtocol.StepKeepsInv | fs/buffer.c:140-221 | every step of every process keeps b_count equal to the references of all processes |
| LinkCountsCode.Namespace.FindSlot | fs/namei.c:78-123 | the index of the first entry with the name, the number of entries when none has it |
| LinkCountsCode.Namespace.AddEntry | fs/namei.c:135-190 | the name goes to the first empty entry or a new last one; the inode number is still 0 |
| LinkCountsCode.Namespace.GetDir | fs/namei.c:198-245 | walks the path with one use counted at a time; the directory found, which Naming.WalkLeads characterizes, has one use more, or nothing has changed |
| LinkCountsCode.Namespace.Open | fs/namei.c:316-388 | the state after open_namei is that of Step: existing inode in use, or a new one with one link entered |
| LinkCountsCode.Namespace.Mkdir | fs/namei.c:390-465 | the state after sys_mkdir is that of Step, every way out releasing the inodes it held |
| LinkCountsCode.Namespace.Empty | fs/namei.c:470-512 | true exactly for a directory with nothing but "." and ".." |
| LinkCountsCode.Namespace.Rmdir | fs/namei.c:514-576 | the state after sys_rmdir is that of Step |
| LinkCountsCode.Namespace.Unlink | fs/namei.c:578-628 | the state after sys_unlink is that of Step |
| LinkCountsCode.Namespace.Link | fs/namei.c:630-687 | the state after sys_link is that of Step |
| LinkCountsCode.Namespace.Iput | fs/inode.c:127-161 | the last use of an inode without links frees it, otherwise only the use count drops |
| LinkCountsCode.Namespace.NewInode | fs/bitmap.c:128-158 | the first free inode with one link and one use |
| LinkCounts.StepKeeps | fs/namei.c:316-687 | create, link, unlink, mkdir, rmdir and close each keep link counts exact, names distinct and the directories a tree |
| LinkCounts.LinkCountsAreExact | fs/namei.c:316-687 | over every run from an empty file system an inode's link count is the number of entries of live directories naming it, "." and ".." included; unused inodes are named nowhere; names in a directory are distinct |
| LinkCounts.EmptyHasTwoLinks | fs/namei.c:562-570 | an empty directory reached by name has exactly two links and its parent at least two: the warning is never printed and the parent never drops to 0 |
| LinkCounts.EmptyIsLeaf | fs/namei.c:551-570 | what rmdir removes is named by one entry besides its own ".", and its ".." is the directory it is removed from |
| LinkCounts.DeletedGainsNoEntries | fs/namei.c:30-44 | a deleted directory keeps its entries as they are until it is freed, whatever is called |
| LinkCounts.RmdirUndoesMkdir | fs/namei.c:390-576 | rmdir after mkdir restores every inode; only an empty entry with the name is left in the parent |
| LinkCounts.NamedIsLinked | fs/namei.c:614-618 | whatever a live directory names is allocated with at least one link: the repair in unlink is never needed |
| Naming.WalkLeads | fs/namei.c:198-245 | get_dir returns the end of the chain of directories in which each has an entry with the next component, cut off at 14 characters, for the next one; it returns nothing if and only if there is no such chain |
| NamingCalls.StepMeans | fs/namei.c:316-687 | each call has an effect exactly when its paths lead to directories in which the names are, or are not, and an inode is free, as it requires; afterwards the new path leads to the new inode, both names of a link to the same one, and a removed name to nothing, while all other names and uses stay |
| EncTableCode.HashIndex | include/linux/security.h:17-18 | the macros as the preprocessor expands them are linear probing |
| EncTableCode.HashTable.Add | fs/security.c:393-411 | the probing loop equals Add, also in a full table that holds the inode |
| EncTableCode.HashTable.Search | fs/security.c:446-459 | the probing loop equals Search, also in a full table that holds the inode |
| EncTableCode.HashTable.Remove | fs/security.c:413-443 | the loop ends and equals Remove in every table in which the search for the inode ends |
| EncTable.TurnShrinks | fs/security.c:431-435 | an entry taken out and added again comes back nearer to its home slot, where it was, or not at all: why the loop of remove_func ends |
| EncTableCode.HashTable.CompareHash | fs/security.c:522-529 | whether the two hashes agree in all characters |
| EncTable.SearchIsExact | fs/security.c:446-459 | in a good table search succeeds exactly for members, at a slot that holds the member |
| EncTable.AddIsExact | fs/security.c:393-411 | add rejects exactly the members; otherwise it fills one free slot, adds exactly that entry and keeps the table good |
| EncTable.TableIsASet | fs/security.c:393-459 | after any adds to an empty table with a free slot kept, search finds exactly the inodes added, each with its first entry |
| EncRemove.RemoveKeepsOthers | fs/security.c:413-443 | a matching remove drops exactly its entry: none other is lost or duplicated |
| EncRemove.RemoveFindable | fs/security.c:413-443 | all others stay findable if and only if the slot after the removed one was free, held an entry at its first probe, or some entry further on crossed the removed slot; only that one entry can be lost |
| EncRemove.RemoveKeepsGood | fs/security.c:413-443 | under that condition, and no other, every entry is findable after the removal: the table is good again |
| EncRemove.RemoveRefuses | fs/security.c:413-443 | an inode that search does not find and a wrong key change nothing and give -1 and -EINVAL; in a good table search finds exactly the stored inodes |
| EncRemove.StepStores | fs/security.c:393-443 | one add or removal acts as on a map from inodes to hashes if and only if it is no removal that breaks a probe path |
| EncRemove.TableIsAMap | fs/security.c:393-459 | from an empty table, over every run of adds and harmless removals with a free slot kept, search finds exactly the inodes of the map, each with its hash |
| EncRemove.RemoveLosesOne | fs/security.c:428-435 | two concrete colliding inodes: after removing the first the second is stored but not found |
| CipherCode.BuildMatrix | fs/security.c:294-297 | the stepping loop modulo 1023 fills every matrix slot but 1023 with the byte of its row and column |
| CipherCode.SortColumns | fs/security.c:305-320 | the exchange sort with curr_min equals Sort on key and columns |
| CipherCode.UnsortColumns | fs/security.c:368-379 | the matching loops equal Unsort |
| CipherCode.CopyOut | fs/security.c:324-327 | rows come out in the order of the column pointers |
| CipherCode.EncryptBlock | fs/security.c:279-331 | for any accepted key length the loops compute Encrypt, also in place |
| CipherCode.DecryptBlock | fs/security.c:333-389 | for any accepted key length the loops compute Decrypt, also in place |
| CipherCode.EncryptThenDecrypt | fs/security.c:279-389 | encrypting and decrypting a block in place restores every byte but the two that pass through the slot never written |
| CipherCode.RndKeyGen | fs/security.c:218-246 | levels 0 to 3 give keys of 2, 4, 8 and 16 pairwise different characters of the set, closed by a 0: those that the ticks pick, one after the other |
| CipherCode.EveryKeyComes | fs/security.c:226-243 | every key of pairwise different characters of the set comes out for some ticks |
| CipherCode.KeysFollowTicks | fs/security.c:226-243 | two runs give the same key only if their ticks agree, each modulo the number of characters still there |
| Cipher.EncryptPermutesRows | fs/security.c:279-331 | each row is permuted by the order that sorts the key, but for the cell fed from slot 1023 |
| Cipher.SortedInOrder | fs/security.c:305-320 | the working key ends in rising order, each character beside its own column |
| Cipher.RoundTrip | fs/security.c:279-389 | with pairwise different key characters every byte comes back, except byte 1023 and the last byte of the column of the largest character, whose values are given |
| Cipher.BytesComeBackIff | fs/security.c:279-389 | for any key every byte comes back, but for the two that pass through the slot never written, whose values are given, if and only if the two column orders undo each other |
| Cipher.DistinctUndoes | fs/security.c:305-379 | with pairwise different characters the column orders undo each other |
| Cipher.RepeatedKeyFails | fs/security.c:368-379 | a key of any length made of one character does not work: decryption writes the last column first |
| SchedulerCode.Kernel.Schedule | kernel/sched.c:68-116 | the loops equal Schedule and run at most twice |
| SchedulerCode.Kernel.FindNext | kernel/sched.c:99-108 | the downward scan equals Scan |
| SchedulerCode.Kernel.RecomputeCounters | kernel/sched.c:110-113 | the downward loop equals Recompute |
| SchedulerCode.Kernel.DoTimer | kernel/sched.c:170-180 | user and kernel ticks equal the two timer steps |
| SchedulerCode.Kernel.Nice | kernel/sched.c:218-223 | the priority drops only while it stays positive |
| Scheduler.ChoosePicks | kernel/sched.c:98-115 | the task chosen is runnable with the largest counter, the last such in the table, 0 when none is runnable; counters are recomputed exactly when some task is runnable and none of these has any left |
| Scheduler.ScheduleSpec | kernel/sched.c:68-116 | told from the table before the call: exactly the interruptible tasks with a signal or an expired alarm become runnable, a counter keeps its half below the priority exactly when all that may run have none left, and the task chosen is the last of those with the largest counter |
| Scheduler.QuantumLasts | kernel/sched.c:170-180 | a task left alone keeps the processor for as many user ticks as its counter says, and the last one calls schedule |
| Scheduler.EventEffects | kernel/sched.c:162-223 | what wake_up, a signal, release, sys_nice and the counter of a new task change, and that they change nothing else |
| Scheduler.RecomputeOnce | kernel/sched.c:98-114 | with priorities at least 1 the scan after one recomputation succeeds |
| Scheduler.Progress | kernel/sched.c:98-115 | from any schedule call a runnable task with a positive counter is chosen within as many user ticks as the counters of the others, and of the tasks they fork, add up to, whatever they do |
| Scheduler.StepWaits | kernel/sched.c:68-180 | each event leaves the waiting task chosen or waiting, and each user tick uses up the budget, to which only a fork adds, by the counter of the new task |
| Scheduler.CountersStayBounded | kernel/sched.c:110-113 | with fixed priorities no counter ever exceeds twice its priority less one |
| Scheduler.NicedCountersStayBounded | kernel/sched.c:218-223 | under any use of sys_nice that keeps priorities at most a cap, counters stay below twice the cap and priorities positive |
| SleepQueueCode.Kernel.SleepOn | kernel/sched.c:125-136 | sleep_on up to schedule is the Sleep step |
| SleepQueueCode.Kernel.SleepOnReturns | kernel/sched.c:137-139 | the rest of sleep_on is the Resume step |
| SleepQueueCode.Kernel.WakeUp | kernel/sched.c:162-168 | wake_up is the Wake step |
| SleepQueue.SleeperReferredOnce | kernel/sched.c:125-168 | over every interleaving each sleeper is referred to exactly once, by a queue head or another task's pending tmp, and nobody else is |
| SleepQueue.SleepJoins | kernel/sched.c:125-136 | a task that goes to sleep stands in front of all that slept on the queue before; other queues and sleepers stay |
| SleepQueue.WakeRouses | kernel/sched.c:162-168 | wake_up wakes the head of its queue and nobody else and leaves the queue empty |
| SleepQueue.ResumeRouses | kernel/sched.c:137-139 | a woken task that runs leaves sleep_on and wakes the task its tmp names and nobody else |
| SleepQueue.NoLostSleeper | kernel/sched.c:125-168 | every sleeper stands in the chain of a queue head or of a woken task that has not run yet |
| SleepQueue.NobodyLeftBehind | kernel/sched.c:125-168 | when all queues are empty and all woken tasks have run, nobody sleeps |
| SleepQueue.OneWakeIsEnough | kernel/sched.c:125-168 | after one wake_up, in any interleaving, a task of that chain that still sleeps is behind a woken task yet to run |
| SleepQueue.WakeThenResumeAll | kernel/sched.c:125-168 | one wake_up and then running the woken tasks in turn takes the whole chain out of sleep_on |
| SleepQueue.CoveredStays | kernel/sched.c:125-168 | no step of anybody takes a sleeper out of the chain of woken tasks except by waking it |
| DescriptorsCode.Tables.Open | fs/open.c:123-168 | lowest free descriptor and first free file; a failed open leaves the tables as they were |
| DescriptorsCode.Tables.Close | fs/open.c:175-191 | equals Close; the panic on a count of 0 cannot occur |
| DescriptorsCode.Tables.DupFd | fs/fcntl.c:12-28 | equals DupFd with all four error cases |
| DescriptorsCode.Tables.Dup2 | fs/fcntl.c:30-34 | equals Dup2 |
| DescriptorsCode.Tables.Pipe | fs/pipe.c:52-92 | two files on one inode at the two lowest descriptors; every failing way out restores the tables |
| DescriptorsCode.Tables.Fork | kernel/fork.c:115-121 | the loops count every file and both inodes once more for the child |
| DescriptorsCode.Tables.Exit | kernel/exit.c:73-79 | every descriptor is closed, working directory and root are given back |
| Descriptors.CountsAreConserved | fs/open.c:57-191 | over every run of open, dup, dup2, close, pipe, fork, exit, chdir and chroot each f_count is the number of descriptors pointing at the file and each i_count the number of open files, working directories and roots on the inode |
| Descriptors.CloseReleasesLast | fs/open.c:175-191 | closing releases the inode exactly when no other descriptor of any task points at the file |
| Descriptors.ForkKeeps | kernel/fork.c:115-121 | the child has the parent's descriptors, working directory and root, and all counts stay exact |
| Descriptors.ExitKeeps | kernel/exit.c:73-79 | after exit all counts are exact again |
| Descriptors.Dup2OntoItself | fs/fcntl.c:30-34 | dup2 of a descriptor onto itself closes it and answers -EBADF |
| Descriptors.Dup2Shares | fs/fcntl.c:12-34 | dup2 onto another descriptor makes both point at one file and touches no other task |
| Descriptors.NothingLeaks | kernel/exit.c:73-79 | when no task is left every file and inode slot is free |
| DescriptorAnswers.OpenAnswers | fs/open.c:123-168 | open fails exactly without a free descriptor, a free file or an inode; else it answers the lowest free descriptor, which points at the first unused file, now on the inode |
| DescriptorAnswers.CloseAnswers | fs/open.c:175-191 | close fails exactly for a descriptor not in use; else it frees that one and no other |
| DescriptorAnswers.DupAnswers | fs/fcntl.c:12-28 | each of the three errors under its condition; else the lowest free descriptor from the given one on, pointing at the same file |
| DescriptorAnswers.PipeAnswers | fs/pipe.c:52-92 | pipe fails exactly without two free descriptors, two unused files or an inode; else the two lowest descriptors point at the first two unused files, both on the inode |
| DescriptorAnswers.ChangesDirectory | fs/open.c:57-85 | chdir and chroot set the one directory of the task and change no descriptor and no file |
| DescriptorAnswers.ExitLeaves | kernel/exit.c:73-79 | the task keeps no descriptor and no directory, and no other task is touched |
| PipeCode.PipeInode.ReadBytes | fs/pipe.c:17-21 | moves the oldest bytes of the ring into the buffer, as many as there are and at most count |
| PipeCode.PipeInode.WriteBytes | fs/pipe.c:35-47 | appends bytes to the ring until it is full or all are written |
| Pipe.PutAppends | include/linux/fs.h:104-110 | storing at the head of a ring that is not full appends one byte to its contents |
| Pipe.DropTakesFront | include/linux/fs.h:104-110 | advancing the tail takes the oldest byte |
| Pipe.ReadLoopTakes | fs/pipe.c:17-21 | the copy loop of the model takes exactly the oldest bytes |
| Pipe.TryWriteGives | fs/pipe.c:35-47 | the write loop of the model appends exactly what fits |
| Pipe.PipeIsFifo | fs/pipe.c:7-50 | over every interleaving bytes written are bytes read followed by the ring, at most 4095 bytes wait, and each call returns exactly the bytes it moved |
| Pipe.StretchEnds | fs/pipe.c:7-50 | each stretch of a call between sleep points ends as the pipe before it says: a reader asleep at an empty pipe with a writer, with 0 at one without, else with the oldest bytes; a writer done, asleep with the pipe full, or giving up without readers |
| Pipe.SleepsOnlyWhenStuck | fs/pipe.c:11-44 | a reader sleeps if and only if the pipe is empty and has a writer, a writer only at a full pipe with a reader, and with a reader a write that ends has written all |
| TtyCode.LeftIsRoom | include/linux/tty.h:24-34 | LEFT is the room left out of 1023 characters, and EMPTY means no characters |
| TtyCode.PutEnters | include/linux/tty.h:24-34 | PUTCH appends a character to a queue that is not full |
| TtyCode.GetTakes | include/linux/tty.h:24-34 | GETCH takes the oldest character |
| TtyCode.Terminal.PutQueue | kernel/keyboard.s:81-96 | the characters of a key enter the read queue together, or not at all when they do not fit |
| TtyCode.DecTakesBack | include/linux/tty.h:24-34 | DEC of the head takes back the character LAST names |
| TtyCode.Terminal.Classify | kernel/tty_io.c:138-176 | the tests on a character in their order equal ActionFor |
| TtyCode.Terminal.CopyToCooked | kernel/tty_io.c:132-196 | the loop on the two rings equals CookAll |
| TtyCode.Terminal.ReadLoop | kernel/tty_io.c:229-239 | the do loop on the ring equals TakeLoop |
| TtyCode.CookForgets | kernel/tty_io.c:132-196 | editing depends on nothing but what is in the ring |
| TtyCode.TakeForgets | kernel/tty_io.c:229-239 | reading depends on nothing but what is in the ring |
| Tty.DataCountsLines | kernel/tty_io.c:132-257 | over every run data is the number of newlines and EOF characters in the ring, and readers got what stood in front of the ring, in order |
| Tty.RingIsEditedInput | kernel/tty_io.c:132-257 | the ring is a plain line editor's result on all input less what was read, if and only if no erase ever came after its part of a line had been read |
| Tty.EraseComesTooLate | kernel/tty_io.c:149-162 | such a run: a, newline and c are typed and read in one call, then erase is typed; the reader keeps the c that a line editor takes back |
| Tty.EraseStopsAtBreaks | kernel/tty_io.c:149-162 | an erase takes back at most the last unread character and never a newline or EOF |
| Tty.CanonicalReadStops | kernel/tty_io.c:229-239 | a canonical read passes no EOF character on and stops at the first |
| TtyInput.ActionIs | kernel/tty_io.c:138-176 | exactly when a typed character is dropped, erases, stops or starts output, interrupts or is entered, and as which character, for every setting |
| TtyInput.ReadersGetCooked | kernel/tty_io.c:132-257 | over every run each typed character is taken once and in order; no reader gets a character the settings replace, nor an editing, EOF or interrupt character; output is stopped exactly when the last flow character was a stop |
| TtyInput.ReaderWaitsForLine | kernel/tty_io.c:224-228 | a reader goes on exactly when there is something to read and, in canonical mode, a whole line or fewer than 21 places left |
| TtyInput.TakeLoopEnds | kernel/tty_io.c:229-239 | a read takes characters until it has what it has room for, or the ring is empty, or an EOF was taken in canonical mode, and not fewer |
| ExecArgsCode.ExecImage.CopyStrings | fs/exec.c:106-136 | ends as CopyEnding says, also for strings that do not fit; copied strings are laid one after the other below p in exactly the pages they need, and no page gets lost |
| ExecArgsCode.ExecImage.GetPages | fs/exec.c:120-126 | gets exactly the missing pages from the one of the lowest byte on, none where that byte number has wrapped around |
| ExecArgsCode.ExecImage.PlacePages | fs/exec.c:155-160 | every allocated page appears at its place below the top of the segment, for one more free page if the page table is missing; with none the segment stays as it was |
| ExecArgsCode.ExecImage.FillTable | fs/exec.c:73-82 | one pointer loop equals Fill |
| ExecArgsCode.ExecImage.CreateTables | fs/exec.c:60-84 | equals Tables |
| ExecArgsCode.ExecImage.PassArguments | fs/exec.c:421-451 | ends as ExecEnding says; where it refuses, all pages taken are given back and nothing is placed; where the strings are copied and a page is left for the page table, the new program finds argc, and tables naming all its arguments and environment strings, below the strings |
| ExecArgs.CopyEndingIs | fs/exec.c:106-136 | copy_strings lays the strings if and only if they fit and the pages suffice, and refuses strings that fit exactly for want of pages |
| ExecArgs.ExecEndingIs | fs/exec.c:421-428 | the arguments are copied if and only if they take less than 131072 bytes and the pages suffice; when they take less, the kernel reads outside its page table array if and only if there is an argument and the pages do not suffice for the environment |
| ExecArgs.ArgumentsGoAstray | fs/exec.c:421-422 | such an input: no free page, one argument and one environment string |
| ExecArgs.TablesNameStrings | fs/exec.c:60-84 | argc, then pointer tables that name the strings in order and end with 0, just below the strings, which are unchanged, as is all below the stack pointer |
| ExecArgs.ArgumentsRoundTrip | fs/exec.c:60-160 | copied, placed and tabled, all argv and envp strings come back equal and in order; tables and strings do not overlap |
| ExecArgs.TouchedPages | fs/exec.c:128-134 | every byte from the lowest string on lies in an allocated page: the panic is not reached |
| ExecArgs.FillGives | fs/exec.c:73-82 | a pointer loop over strings laid in a row leaves a table of them, ends behind them and changes nothing else |

## Left out

- PagingRun.CowRefinesEager: mem_map counts are unbounded here, the code keeps them in 16 bits; what the kernel and task 0 themselves write to frames below LOW_MEM other than the page directory is no operation of the runs; the argument pages of exec enter as page faults and stores.
- PagingRun.OthersUnaffected: stores of the kernel without verify_area, those of sys_pipe, are no operation of the runs; PagingUnverified says whom they reach.
- PagingCode.Memory.VerifyArea: the area ends below 4 GB, so that linear addresses do not wrap around.
- PagingCode.Memory.CopyPageTables: entries of a page table are records of their fields (frame, writable, present, rest) instead of packed words.
- TLB invalidation, segment descriptors and the processor's own page walk: no state of their own in the model.
- Zones.CreateBlockSpec: bit 0 of the zone map is taken as reserved, as mkfs leaves it.
- FilesCode.FileSystem.FreeBlock: the early return for a buffer still in use and the release of the buffer are not modelled; the store is the logical contents that Cache shows the buffer cache to provide.
- Files.FilesAreByteSequences and LinkCounts.LinkCountsAreExact: the calls run one after another; calls that sleep in bread and interleave, such as two creates of one name between find_entry and add_entry, are not modelled.
- FilesCode.FileSystem.FileRead: the branch for encrypted files and a failing bread are not modelled.
- FilesCode.FileSystem.FileWrite: the branch for encrypted files and a failing bread are not modelled.
- Files.FilesAreByteSequences: the branches of file_read and file_write for encrypted files are not modelled; the cipher is treated on single blocks.
- CacheCode.BufferCache.InsertIntoQueues: checks for an empty chain before it sets the back link of the old head, which the code does not (fs/buffer.c:120).
- CacheCode.BufferCache.Getblk: for one caller with successful disk transfers; sleeping callers are treated in CacheProtocol, which leaves out the contents of blocks.
- LinkCounts.LinkCountsAreExact: link and use counts are unbounded, the code keeps 8 and 16 bits; mkdir whose add_entry fails frees a block twice and panics, so that path is a stop; owner and mode bits only make calls fail and are not modelled; inode numbers come from one device.
- NamingCalls.StepMeans: whether new_block and add_entry find room and the permission bits allow writing are inputs of each call.
- LinkCountsCode.Namespace.Open: return codes and the exits that put an existing inode back unchanged (O_EXCL, EPERM, EISDIR) are not modelled.
- LinkCountsCode.Namespace.Mkdir: return codes, and the exit after a failed add_entry, which panics.
- LinkCountsCode.Namespace.Iput: the pipe branch, and the bitmaps behind the freed inode, which Truncate treats.
- LinkCountsCode.Namespace.AddEntry: the answer NULL when the directory cannot grow is a flag of its callers; the entries of a directory are one sequence; how they lie in blocks follows from Files.
- iget with its sleeping retry, get_empty_inode and the write-back of inodes: their counts enter through LinkCounts and Descriptors, their buffers are not modelled.
- EncTable.TableIsASet: inode numbers are not 0 and a free slot is kept, without which the loops of the code do not end.
- CipherCode.RndKeyGen: the time stamp counter is a parameter; level 4 would overrun the 32-byte key and is excluded.
- Cipher.RoundTrip: stated for keys of pairwise different characters; Cipher.BytesComeBackIff covers all other keys.
- Directory encryption, the read and write of the table's block, key timeouts and the key hash function.
- Scheduler.Progress: alarms are the set that has expired at each schedule; processor switching itself has no state here.
- interruptible_sleep_on, signal delivery, time accounting.
- Descriptors.CountsAreConserved: open_namei, namei and get_pipe_inode enter by their result; a task slot is vacant at exit rather than when the parent waits; sys_encr, sys_decr and the file explorer, which overwrite pwd and root, are excluded.
- find_empty_process: the slot it returns is a parameter of Descriptors.Fork and is searched for in PagingRun.
- Pipe.PipeIsFifo: which sleeping call runs next is arbitrary, so wake_up calls need no state; SIGPIPE is not modelled.
- Tty.DataCountsLines: echo and the write queue, signals, VTIME and VMIN are left out; a tty_read call is a sequence of Read steps.
- ExecArgsCode.ExecImage.PassArguments: nothing is said of what follows a panic or a read outside the page array, nor of the arguments where exactly as many pages are free as the strings need and the page table is missing, as they are then not placed; strings are shorter than the 64 MB of a data segment; the loading of the ELF image in between does not touch the argument pages.
- The disk driver, console, keyboard, serial lines, ioctl, boot code but for the page tables it leaves, system call entry and the file explorer.
