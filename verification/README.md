# OS/161, modelled and proved in Dafny

OS/161 is a teaching operating system in C. This project models its storage managers,
its on-disk file system, its threads and synchronisation, and a few arithmetic and text
routines, and proves what they promise over every run.

* **SFS, the file system.** `SfsFormat` is the disk format, `SfsBlocks` block ownership,
  `Bitmap` and `Uio` the helpers, `Sfs` the code of allocation, block mapping, file I/O,
  truncation, the table of loaded vnodes, sync and mount, `SfsDir` the directory
  operations. `SfsSpace` counts what files take. `SfsView` and `SfsRun` give the simple file
  system that all of it refines: a map from names to files, a byte sequence for each file,
  the references held, the blocks each file has, and the free ones.
  `SfsMount` closes the circle from mksfs through mount, any run of calls, sync, unmount
  and mount again.
* **malloc and free.** `HeapBlocks` is the heap as a list of blocks and its image in
  memory, `Malloc` the code.
* **The kernel subpage allocator.** `KheapBlocks` and `Kheap`.
* **Threads, semaphores, locks, condition variables and the stoplight.** `Kernel` is the
  state machine whose steps are the primitives, `KernelInv` what every run keeps,
  `KernelQueues` who is woken by what and in which order, `ThreadCode` the code that takes
  these steps, `Stoplight` the cars.
* **The ring queue** (`Queue`), **random numbers** (`Random`, `ParkMiller`), **printf and
  atoi** (`Printf`) and **page faults** (`PageTable`). `Arith` holds the arithmetic they
  share.

Check everything with `dafny verify dfyconfig.toml`.

## How the model reads

Objects that the C code updates in place are classes, their arrays and tables fields of
type `seq` or `map`; the free map, the printf buffer, the ring and the random tables are
arrays. Pointers into a table are indices. Words are 32 bits wide, written out where it
matters. An exit or panic of the C code that cannot happen is an `assert false` with the
words of the message.

* The disk is a sequence of blocks of 512 bytes with as many blocks as the superblock says.
  A vnode is known by its inode number. `Inodes()` is the inode table as the kernel sees
  it: the loaded copy if there is one, else the block on disk.
* `Valid` in `Sfs` says, among other things, that the blocks marked in use are exactly the
  reserved ones and those owned by one pointer each, that clean vnodes equal their blocks,
  and that the disk's copy of the free map is current unless the map is dirty.
  `Consistent` in `SfsDir` adds the directory: whole slots without holes, unique names,
  link counts equal to the number of slots, unlinked files loaded.
* In malloc a pointer inside the heap is the index of an 8-byte unit, and a header is a unit
  with the fields of the C bit-fields. sbrk is the kernel's, with a parameter for a kernel
  that has no memory to give; the page that alloc_kpages finds and whether kmalloc succeeds
  are parameters.
* The primitives of thread.c and synch.c run with interrupts off, so each pass of one is a
  step; a preemption may come between any two steps. What lock_create leaves in heldThread
  is arbitrary.

## Where code and promise differ

* A write that moves no byte still extends the file to its offset, so a file can become
  longer than the 143 blocks it can hold (`SfsRun.TooLongExample`, `SfsRun.WriteSize`).
* mksfs asserts on a disk of two blocks (`SfsMount.MarkBitmap`).
* A write, link or creation that runs out of space can leave the file or the directory an
  indirect block without entries (`SfsSpace.RangeFull`, `SfsRun.WriteReplied`). An empty
  write inside a block that is missing allocates it (`SfsSpace.BlockEnd`).
* A read whose range ends at 2^31 or later is not cut off at the end of the file, unless
  the file has the largest size, because the end overflows an off_t (`SfsRun.ReadStops`).
* A request above 2^32-8 bytes wraps in malloc's rounding (`Malloc.RoundUpServes`). One whose
  rounded size with its header is 2^31 or more is a negative argument to sbrk: if that is
  granted the top of the heap drops, and the pointer returned lies outside
  (`Malloc.Heap.Malloc`, `Malloc.DroppedTopExample`). A block of no bytes at the top cannot be
  freed (`Malloc.Heap.Free`, `Malloc.EmptyTopBlockExample`).
* q_preallocate(n) makes n additions safe only if the doubled size exceeds n
  (`Queue.PreallocateThenAdd`, `Queue.PreallocateExample`).
* random.c says that setstate may be called with the current state. It then swaps the
  position and the mark, because the mark is read before it is stored
  (`Random.Generator.DrawAndSet`, `Random.SameKeeps`, `Random.SecondTimeExample`).
* fault_handler does not look at what kmalloc returns for a second-level table
  (`PageTable.Vm.FaultHandler`).
* With both flags `-` and `0`, printf pads with zeros on the right (`Printf.RoundTrip`).

## Model

| member | source | states |
|---|---|---|
| SfsRun.Run | os161/kern/fs/sfs/sfs_vnode.c:115-1379 | Any sequence of open, create, link, remove, rename, read, write, truncate, close and sync calls, by any callers, gives only replies and changes that `Allowed` permits: the directory is a map from names to files, a file is a byte sequence, a file without name and holder is erased. Replies and changes are determined but for which of the free blocks are taken: a write takes exactly the blocks its range lacks, with the indirect block, and answers ENOSPC if and only if fewer are free, EINVAL if and only if it goes past block 143, and how far it got; a new name takes what the directory lacks; truncation and erasure give exactly the blocks of the file back. Names are refused exactly if they exist, have 60 bytes or more, or if all 1144 slots are taken. After a sync the disk alone holds the file system. Validity of the whole disk and of the directory is kept throughout. |
| SfsRun.Do | os161/kern/fs/sfs/sfs_vnode.c:1183-1379 | One call of such a run, made with a reference to the root taken and dropped around it. |
| SfsRun.RunSpace | os161/kern/fs/sfs/sfs_vnode.c:60-261 | Over any run the free blocks, the blocks of all files and of the directory, and their inodes keep their sum: no block is lost and none is made. |
| SfsRun.StepSpace | os161/kern/fs/sfs/sfs_vnode.c:60-261 | Every call that `Allowed` permits keeps it. |
| SfsRun.CountWithout | os161/kern/fs/sfs/sfs_vnode.c:60-261 | The count of blocks does not depend on the order of the files. |
| SfsRun.WriteReplied | os161/kern/fs/sfs/sfs_vnode.c:417-513 | The state after a write gives the reply and the blocks that the view predicts from the blocks there and the number of free ones. |
| SfsRun.LinkRenamed | os161/kern/fs/sfs/sfs_vnode.c:664-703 | So it does after a link or a rename. |
| SfsRun.CreateCreated | os161/kern/fs/sfs/sfs_vnode.c:1183-1236 | And after a creation, whether it succeeds or not. |
| SfsRun.NeedsSame | os161/kern/fs/sfs/sfs_vnode.c:664-703 | What one more name needs, told from the slots on disk, is what the number of names and slots tells. |
| SfsRun.MovedInside | os161/kern/fs/sfs/sfs_vnode.c:183-189 | The bytes that a reply counts lie below 143*512. |
| SfsRun.NoGarbage | os161/kern/fs/sfs/sfs_vnode.c:856-924 | In every consistent state each file has a name or is held: nothing leaks. |
| SfsRun.RemoveView | os161/kern/fs/sfs/sfs_vnode.c:1269-1297 | Removing a name is removing it from the map, followed by erasing what has neither name nor holder. |
| SfsRun.ReleaseView | os161/kern/fs/vfs/vnode.c:73-98 | Dropping a reference erases the file exactly if it has no name left and nobody else holds it. |
| SfsRun.RenameView | os161/kern/fs/sfs/sfs_vnode.c:1305-1379 | Renaming moves the binding and touches no contents. |
| SfsRun.LinkView | os161/kern/fs/sfs/sfs_vnode.c:1243-1264 | Linking adds one binding and touches no contents. |
| SfsRun.CreatView | os161/kern/fs/sfs/sfs_vnode.c:1183-1236 | Creating adds one binding to a new, empty file; a failed creation changes no name and no file. |
| SfsRun.WriteKeeps | os161/kern/fs/sfs/sfs_vnode.c:417-513 | A write to a file leaves the directory, all link counts and all other files alone. |
| SfsRun.TruncateKeeps | os161/kern/fs/sfs/sfs_vnode.c:1063-1157 | So does truncation, after which the file is empty. |
| SfsRun.NamedIffLinked | os161/kern/fs/sfs/sfs_vnode.c:591-752 | A file has a name exactly if its link count is positive. |
| SfsRun.GetRoot | os161/kern/fs/sfs/sfs_vnode.c:1657-1670 | The root can always be loaded. |
| SfsRun.WriteSize | os161/kern/fs/sfs/sfs_vnode.c:501-506 | A write keeps a file within 143*512 bytes if and only if it was within them and the write starts no further than there. |
| SfsRun.TooLongExample | os161/kern/fs/sfs/sfs_vnode.c:501-506 | An empty write past that point makes the file longer than it can hold. |
| SfsRun.RunSized | os161/kern/fs/sfs/sfs_vnode.c:417-513 | In any run without such writes no file ever exceeds the largest size. |
| SfsRun.FilesNotFree | os161/kern/fs/sfs/sfs_vnode.c:115-261 | No file has the number of a free block. |
| SfsRun.ReadStops | os161/kern/fs/sfs/sfs_vnode.c:426-445 | A read that starts inside a file stops at its end if and only if its range ends below 2^31 or the file has at least 143*512 bytes. |
| SfsRun.SyncView | os161/kern/fs/sfs/sfs_fs.c:80-145 | sfs_sync changes no name, no file, no reference and no block that any file has; afterwards nothing in memory is newer than the disk. |
| SfsRun.PutRoot | os161/kern/fs/vfs/vnode.c:73-98 | Giving the root back changes no view, and makes nothing in memory newer than the disk. |
| SfsMount.Mksfs | os161/sbin/mksfs/mksfs.c:39-165 | mksfs succeeds exactly on a name of fewer than 32 bytes without slash and with at most one colon, at its end, a block size of 512, and a disk with at most 32 map blocks and room for superblock, root and map; then the disk is what mount relies on, with the name as a C string at offset 8 of the superblock, an empty root directory with one link, and every other block free. Blocks past the map are not written. Every other exit, the failed assertion included, has its exact condition. |
| SfsMount.CheckName | os161/sbin/mksfs/mksfs.c:134-147 | Exactly the legal names pass, without their colon. |
| SfsMount.DoAllocBit | os161/sbin/mksfs/mksfs.c:75-84 | Marks one bit; its assertion holds exactly if the bit was clear. |
| SfsMount.MarkBitmap | os161/sbin/mksfs/mksfs.c:86-114 | The bits set are exactly superblock, root, map and everything past the end; the assertion fails exactly on disks too small for these. |
| SfsMount.FormattedImage | os161/sbin/mksfs/mksfs.c:58-114 | Such a disk has one owner per block in use and a consistent, empty directory. |
| SfsMount.SuperReads | os161/sbin/mksfs/mksfs.c:39-56 | The superblock reads back as written: magic, size and name. |
| SfsMount.DoMount | os161/kern/fs/sfs/sfs_fs.c:209-311 | EINVAL exactly for a wrong magic number; otherwise the mounted file system is the one on the disk, with nothing loaded. |
| SfsMount.MakeAndMount | os161/sbin/mksfs/mksfs.c:116-165 | A made and mounted file system is valid, shows no names, files or holders and a directory without blocks, and every block past the map is free. |
| SfsMount.Remount | os161/kern/fs/vfs/vfslist.c:488-528 | Syncing, unmounting and mounting again shows the same names, contents, blocks of files and free blocks; EBUSY, without change, exactly if a vnode is loaded; the assertions of unmount hold. |
| Sfs.Sfs.Mount | os161/kern/fs/sfs/sfs_fs.c:281-305 | Loading the free map gives a valid state that agrees with the disk. |
| Sfs.Sfs.ReadMap | os161/kern/fs/sfs/sfs_fs.c:39-73 | sfs_mapio, reading: the map in memory equals the map blocks. |
| Sfs.Sfs.SyncMap | os161/kern/fs/sfs/sfs_fs.c:126-133 | sfs_mapio, writing: the map blocks equal the map in memory; no file changes. |
| Sfs.Sfs.StoreMapBlock | os161/kern/fs/sfs/sfs_fs.c:53-71 | One map block is written; no pointer and no byte of a file changes. |
| Sfs.Sfs.Sync | os161/kern/fs/sfs/sfs_fs.c:80-145 | sfs_sync: every loaded inode and the map are on disk; no file changes. |
| Sfs.Sfs.Synced | os161/kern/fs/sfs/sfs_fs.c:80-145 | After a sync the disk alone holds the file system. |
| Sfs.MapStored | os161/kern/fs/sfs/sfs_fs.c:39-73 | Map blocks read into memory write back unchanged. |
| Sfs.StoredMap | os161/kern/fs/sfs/sfs_fs.c:39-73 | A map that has been stored is the one read back. |
| SfsDir.Creat | os161/kern/fs/sfs/sfs_vnode.c:1183-1236 | Opens the file of that name, or binds the name to a new empty file with one link and one reference; EEXIST exactly for an existing name with O_EXCL; for a new name ENOSPC exactly if no block is free or fewer than one and what the directory lacks, ENAMETOOLONG exactly for 60 characters or more and EINVAL exactly if all 1144 slots are in use, with a block free. On failure no file has changed and the block of the inode is back. |
| SfsDir.CreatNew | os161/kern/fs/sfs/sfs_vnode.c:1214-1235 | The part for names that do not exist. |
| SfsDir.Link | os161/kern/fs/sfs/sfs_vnode.c:1243-1264 | Binds the name and raises the link count, which cannot overflow 16 bits; EEXIST exactly for existing names, ENAMETOOLONG exactly for new names of 60 characters or more, EINVAL exactly if then all 1144 slots are in use, ENOSPC exactly if then fewer blocks are free than the directory lacks, which otherwise it gets, and no other. |
| SfsDir.Remove | os161/kern/fs/sfs/sfs_vnode.c:1269-1297 | Unbinds the name and lowers the link count; the file goes exactly if that was its last link and nobody had it loaded. References are as before. |
| SfsDir.Rename | os161/kern/fs/sfs/sfs_vnode.c:1305-1379 | Moves the file to the new name with link count, contents and references as before, or fails without change to any file, for the reasons and with the space of a link; the recovery path is never taken. |
| SfsDir.Unlink | os161/kern/fs/sfs/sfs_vnode.c:1284-1291 | Clears the slot and lowers the link count, which is positive. |
| SfsDir.LookOnce | os161/kern/fs/sfs/sfs_vnode.c:726-752 | A reference to the file of that name; the panic about a zero link count is unreachable. |
| SfsDir.NewFile | os161/kern/fs/sfs/sfs_vnode.c:761-783 | A new inode without links, loaded once; no other file changes. |
| SfsDir.Load | os161/kern/fs/sfs/sfs_vnode.c:1545-1651 | One more reference, and no other change. |
| SfsDir.Release | os161/kern/fs/vfs/vnode.c:73-98 | One reference less; an unlinked file goes with the last, and its blocks and inode, so many and no others, become free. No other block changes hands. |
| SfsDir.SetLinkCount | os161/kern/fs/sfs/sfs_vnode.c:1227-1231 | Changing a link count changes no byte, no slot, no block and no other file. |
| SfsDir.ReadDir | os161/kern/fs/sfs/sfs_vnode.c:523-550 | Delivers the entry in the slot; the short-entry panic is unreachable. |
| SfsDir.WriteDir | os161/kern/fs/sfs/sfs_vnode.c:556-584 | Writes all of the slot or none of it; an existing slot can always be written and takes no space; a new one takes what its block lacks; EINVAL exactly for slot 1144. |
| SfsDir.NEntries | os161/kern/fs/sfs/sfs_vnode.c:591-606 | The number of slots, at most 1144; the size panic is unreachable. |
| SfsDir.FindName | os161/kern/fs/sfs/sfs_vnode.c:614-658 | Finds the name if and only if it is bound, with its slot and inode, and the last free slot if there is one; the assertion that a name occurs once holds. |
| SfsDir.DirLink | os161/kern/fs/sfs/sfs_vnode.c:664-703 | Puts the entry in a free slot, or at the end exactly if there is none, or says exactly why not. |
| SfsDir.DirUnlink | os161/kern/fs/sfs/sfs_vnode.c:708-720 | Clears the slot, and cannot fail. |
| SfsDir.LinkFits | os161/kern/fs/sfs/sfs_vnode.c:1227-1231 | A file that is given a slot has fewer than 65535 links. |
| SfsDir.LinkConsistent | os161/kern/fs/sfs/sfs_vnode.c:1243-1264 | Filling a slot and raising the count keeps counts equal to the slots that name each file, and every unlinked file loaded. |
| SfsDir.UnlinkConsistent | os161/kern/fs/sfs/sfs_vnode.c:1269-1297 | So does clearing a slot and lowering the count. |
| SfsDir.LinkSucceeds | os161/kern/fs/sfs/sfs_vnode.c:1243-1264 | A successful link as a whole: bindings, counts and the rest of the disk. |
| SfsDir.UnlinkSucceeds | os161/kern/fs/sfs/sfs_vnode.c:1269-1297 | A successful unlink as a whole. |
| SfsDir.RenameSteps | os161/kern/fs/sfs/sfs_vnode.c:1305-1379 | Link under the new name, unlink the old and release, taken together, move the binding. |
| SfsDir.RemoveSteps | os161/kern/fs/sfs/sfs_vnode.c:1269-1297 | Unlink and release, taken together. |
| SfsDir.CreatFails | os161/kern/fs/sfs/sfs_vnode.c:1214-1225 | Creating an inode, failing to link it and releasing it leaves every file as it was and loses no block but an indirect block of the directory. |
| SfsView.WriteOverwrites | os161/kern/fs/sfs/sfs_vnode.c:417-513 | On contents a write is overwriting at the offset with the gap filled by zeros; other files keep theirs. |
| SfsView.ReadDelivers | os161/kern/fs/sfs/sfs_vnode.c:417-513 | A read delivers the slice of the contents from the offset on; one that completes ends at the end of the request or of the file. |
| SfsView.ReadBack | os161/kern/fs/sfs/sfs_vnode.c:417-513 | What was overwritten reads back. |
| Sfs.WrittenBelowMax | os161/kern/fs/sfs/sfs_vnode.c:183-189 | Bytes are only ever written below 143*512. |
| SfsView.SlotWritten | os161/kern/fs/sfs/sfs_vnode.c:556-584 | Writing an encoded entry changes that slot and no other. |
| SfsView.NamesAdd | os161/kern/fs/sfs/sfs_vnode.c:664-703 | A new name in a free slot is one new binding; names stay unique. |
| SfsView.NamesRemove | os161/kern/fs/sfs/sfs_vnode.c:708-720 | Clearing a slot removes one binding. |
| SfsView.LinksPut | os161/kern/fs/sfs/sfs_vnode.c:664-720 | How filling or clearing a slot changes the number of slots that name a file. |
| SfsView.LinksBounded | os161/kern/fs/sfs/sfs_vnode.c:591-606 | No file has more links than there are slots. |
| SfsView.NamesCount | os161/kern/fs/sfs/sfs_vnode.c:591-606 | There are at most as many names as slots, and as many exactly if no slot is free. |
| Sfs.Sfs.Balloc | os161/kern/fs/sfs/sfs_vnode.c:60-78 | Hands out a free block below the end of the disk, cleared, or fails exactly on a full disk; the panic is unreachable. |
| Sfs.Sfs.Bfree | os161/kern/fs/sfs/sfs_vnode.c:83-89 | Clears one bit. |
| Sfs.Sfs.Bused | os161/kern/fs/sfs/sfs_vnode.c:94-103 | Tests one bit. |
| Sfs.Sfs.Bmap | os161/kern/fs/sfs/sfs_vnode.c:115-261 | The block of the file, allocated if asked for; EINVAL exactly past the largest file. Allocation gives the file exactly the block and, past block 15, the indirect block, where they were missing, and fails exactly if fewer blocks are free; no byte, size or other pointer of any file changes. |
| Sfs.Sfs.BmapDirect | os161/kern/fs/sfs/sfs_vnode.c:140-169 | The same for the direct blocks. |
| Sfs.Sfs.BmapIndirect | os161/kern/fs/sfs/sfs_vnode.c:171-260 | The same through the indirect block. |
| Sfs.Sfs.LoadIndirect | os161/kern/fs/sfs/sfs_vnode.c:191-232 | The indirect block, created if it is missing; no other block changes hands. |
| Sfs.Sfs.GrowDirect | os161/kern/fs/sfs/sfs_vnode.c:149-158 | A free block becomes that direct block of the file and nothing else changes hands. |
| Sfs.Sfs.GrowIndirect | os161/kern/fs/sfs/sfs_vnode.c:203-223 | A free block becomes the indirect block, and nothing else changes hands. |
| Sfs.Sfs.GrowEntry | os161/kern/fs/sfs/sfs_vnode.c:237-252 | A free block becomes that entry of the indirect block, and nothing else changes hands. |
| Sfs.Sfs.CheckUsed | os161/kern/fs/sfs/sfs_vnode.c:255-258 | A block found is marked in use, so the panics about blocks marked free are unreachable. |
| Sfs.Sfs.PartialIo | os161/kern/fs/sfs/sfs_vnode.c:277-347 | Moves the bytes of part of a block, or nothing on an error; a write takes exactly what that block lacks. |
| Sfs.Sfs.BlockIo | os161/kern/fs/sfs/sfs_vnode.c:352-412 | Moves a whole block, or nothing on an error; a write takes exactly what that block lacks. |
| Sfs.Sfs.DeviceIo | os161/kern/fs/sfs/sfs_vnode.c:386-411 | Offset and residue come back advanced by exactly what the device moved. |
| Sfs.Sfs.WholeBlocks | os161/kern/fs/sfs/sfs_vnode.c:475-485 | Moves a prefix of the blocks asked for, all of them if there is no error, and takes exactly what these blocks lack. |
| Sfs.Sfs.IoChunks | os161/kern/fs/sfs/sfs_vnode.c:447-497 | Moves a prefix of the request that ends at a block boundary if it is not all; all of it if there is no error; takes exactly what the blocks it got to lack. |
| Sfs.Sfs.AlignedIo | os161/kern/fs/sfs/sfs_vnode.c:470-497 | The part from the first block boundary on. |
| Sfs.Sfs.LastIo | os161/kern/fs/sfs/sfs_vnode.c:487-497 | The trailing partial block. |
| Sfs.Sfs.Read | os161/kern/fs/sfs/sfs_vnode.c:417-513 | Delivers exactly the bytes of the file in its range, up to its end unless the end of the range overflows an off_t, never a byte past 143*512, and changes nothing; EINVAL exactly if that range goes past block 143, with what lies before it delivered; its assertion holds. |
| Sfs.ResultReach | os161/kern/fs/sfs/sfs_vnode.c:183-189 | A transfer that does not run out of space moves all of its range below block 143, and fails exactly if there is more. |
| Sfs.ReadLengthIs | os161/kern/fs/sfs/sfs_vnode.c:431-445 | A range is cut off at the end of the file exactly if it ends below 2^31. |
| Sfs.Sfs.Write | os161/kern/fs/sfs/sfs_vnode.c:417-513 | Changes exactly the bytes it moved and the size; no other byte of any file and no other inode. It takes exactly the blocks that its range lacks, as far as it got. |
| Sfs.WriteFails | os161/kern/fs/sfs/sfs_vnode.c:417-513 | A write fails with ENOSPC if and only if fewer blocks are free than its range lacks, and then takes all of them; with EINVAL if and only if they suffice and it goes past block 143. |
| SfsSpace.LackingSplit | os161/kern/fs/sfs/sfs_vnode.c:115-261 | What a range lacks is what its first part lacks and what the rest lacks after that, however it is split. |
| SfsSpace.RangeTwice | os161/kern/fs/sfs/sfs_vnode.c:447-497 | Two adjoining transfers take what one over both would. |
| SfsSpace.RangeFull | os161/kern/fs/sfs/sfs_vnode.c:203-252 | A transfer that runs out of space has taken all there was, the last block perhaps for an indirect block without entries. |
| SfsSpace.ChunkEntry | os161/kern/fs/sfs/sfs_vnode.c:171-260 | A block past the direct ones takes one or two blocks, or fails with fewer free. |
| SfsSpace.ChunkFull | os161/kern/fs/sfs/sfs_vnode.c:115-261 | Allocation for one block fails exactly if fewer blocks are free than it lacks. |
| SfsSpace.GainGrew | os161/kern/fs/sfs/sfs_vnode.c:60-78 | A block taken is one block of one file more and one free block less. |
| SfsSpace.FileBlocksCount | os161/kern/fs/sfs/sfs_vnode.c:1063-1157 | A file has as many blocks on the disk as blocks that exist in it. |
| SfsSpace.FreeFileSpace | os161/kern/fs/sfs/sfs_vnode.c:1063-1157 | Truncation makes that many blocks free, and no block of another file. |
| SfsSpace.ErasedSpace | os161/kern/fs/sfs/sfs_vnode.c:856-924 | Erasure makes one more free, that of the inode. |
| Sfs.Sfs.GrowSize | os161/kern/fs/sfs/sfs_vnode.c:501-506 | The size becomes the larger of the old size and the end of the write. |
| Sfs.Sfs.Truncate | os161/kern/fs/sfs/sfs_vnode.c:1063-1157 | Truncation to 0 frees every block of the file once and no other. |
| Sfs.Sfs.FreeDirect | os161/kern/fs/sfs/sfs_vnode.c:1093-1100 | Frees exactly the direct blocks. |
| Sfs.Sfs.FreeIndirect | os161/kern/fs/sfs/sfs_vnode.c:1102-1146 | Frees exactly the blocks of the indirect block, and itself. |
| Sfs.Sfs.SyncInode | os161/kern/fs/sfs/sfs_vnode.c:38-51 | Afterwards the disk holds the loaded inode; no file changes. |
| Sfs.Sfs.LoadVnode | os161/kern/fs/sfs/sfs_vnode.c:1545-1651 | At most one vnode per inode: the loaded one with one more reference, or a new one that equals the disk; the panics about unallocated blocks are unreachable. |
| Sfs.Sfs.FindVnode | os161/kern/fs/sfs/sfs_vnode.c:1555-1580 | Finds the vnode exactly if it is loaded. |
| Sfs.Sfs.AddVnode | os161/kern/fs/sfs/sfs_vnode.c:1582-1650 | The inode as the kernel sees it is unchanged by loading it. |
| Sfs.Sfs.MakeObj | os161/kern/fs/sfs/sfs_vnode.c:761-783 | A free block becomes an inode of the type without blocks or links. |
| Sfs.Sfs.IncRef | os161/kern/fs/vfs/vnode.c:59-66 | One more reference. |
| Sfs.Sfs.DecRef | os161/kern/fs/vfs/vnode.c:73-98 | One reference less; the last one writes the inode back, or erases an unlinked file. |
| Sfs.Sfs.ReclaimLinked | os161/kern/fs/sfs/sfs_vnode.c:856-924 | Dropping the vnode of a linked file loses no update. |
| Sfs.Sfs.ReclaimUnlinked | os161/kern/fs/sfs/sfs_vnode.c:856-924 | Frees every data block, the indirect block and the inode of the file once each, and no other bit. |
| Sfs.Sfs.DropInode | os161/kern/fs/sfs/sfs_vnode.c:896-915 | Discarding an emptied inode frees its block. |
| Sfs.Sfs.Unlist | os161/kern/fs/sfs/sfs_vnode.c:901-915 | Removes exactly that vnode from the table; the panic is unreachable. |
| Sfs.Sfs.UpdateInode | os161/kern/fs/sfs/sfs_vnode.c:501-506 | Changing size or link count moves no block and no byte. |
| Sfs.TableSync | os161/kern/fs/sfs/sfs_vnode.c:38-51 | Writing a dirty inode back makes its block agree and leaves the table of inodes unchanged. |
| Sfs.TableDrop | os161/kern/fs/sfs/sfs_vnode.c:890-915 | A clean vnode can be dropped without changing the table of inodes. |
| Sfs.WriteZeroTails | os161/kern/fs/sfs/sfs_vnode.c:417-513 | Everything past the end of a file stays zero, so gaps read as zeros. |
| SfsBlocks.OneOwner | os161/kern/fs/sfs/sfs_vnode.c:60-261 | Distinct pointers hold distinct blocks, all marked in the free map and none reserved. |
| SfsBlocks.AllocDirectOk | os161/kern/fs/sfs/sfs_vnode.c:149-158 | Taking a direct block keeps one owner per block and every byte of every file. |
| SfsBlocks.AllocIndirectOk | os161/kern/fs/sfs/sfs_vnode.c:203-223 | So does taking an indirect block. |
| SfsBlocks.AllocEntryOk | os161/kern/fs/sfs/sfs_vnode.c:237-252 | So does taking a block through the indirect block. |
| SfsBlocks.AllocInodeOk | os161/kern/fs/sfs/sfs_vnode.c:761-783 | So does taking a block for an inode. |
| SfsBlocks.WriteDataOk | os161/kern/fs/sfs/sfs_vnode.c:277-412 | Writing a data block changes only bytes of that block of that file. |
| SfsBlocks.FreeFileOk | os161/kern/fs/sfs/sfs_vnode.c:1063-1157 | Freeing all blocks of a file keeps one owner per block; its bytes become zero, others stay. |
| SfsBlocks.FreeInodeOk | os161/kern/fs/sfs/sfs_vnode.c:896-899 | Freeing an inode without blocks keeps one owner per block and every byte. |
| SfsBlocks.WriteInodeOk | os161/kern/fs/sfs/sfs_vnode.c:38-51 | Writing an inode back changes no pointer and no byte. |
| SfsBlocks.WriteReservedOk | os161/kern/fs/sfs/sfs_fs.c:39-73 | Writing the map changes no pointer and no byte. |
| SfsFormat.InodeRoundTrip | os161/kern/include/kern/sfs.h:45-52 | An inode decodes from its block as it was encoded. |
| SfsFormat.EntryRoundTrip | os161/kern/include/kern/sfs.h:57-60 | A directory entry decodes as it was encoded. |
| SfsFormat.InodeLayout | os161/kern/include/kern/sfs.h:45-52 | Where size, type, link count and block numbers of an inode are in its block, most significant byte first. |
| SfsFormat.BigEndian | os161/kern/include/kern/sfs.h:35-52 | Words are stored most significant byte first. |
| SfsFormat.EntryLayout | os161/kern/include/kern/sfs.h:57-60 | Where the number and the name of a directory entry are. |
| SfsFormat.WordsRoundTrip | os161/kern/fs/sfs/sfs_vnode.c:234-252 | A block of words reads back as written. |
| SfsFormat.ZeroInode | os161/kern/fs/sfs/sfs_vnode.c:761-783 | A cleared block is an inode of invalid type without blocks. |
| Bitmap.Bitmap.constructor | os161/kern/lib/bitmap.c:31-64 | Nothing is marked but the bits past the end. |
| Bitmap.Bitmap.Alloc | os161/kern/lib/bitmap.c:73-94 | Marks the lowest clear bit; ENOSPC exactly if there is none. |
| Bitmap.Bitmap.Mark | os161/kern/lib/bitmap.c:108-118 | Adds the bit to the set. |
| Bitmap.Bitmap.Unmark | os161/kern/lib/bitmap.c:121-131 | Removes the bit from the set; its assertion holds. |
| Bitmap.Bitmap.Test | os161/kern/lib/bitmap.c:135-142 | Membership. |
| Bitmap.MarkedBy | os161/kern/lib/bitmap.c:73-118 | Or-ing in a mask adds exactly one element to the set of marked bits. |
| Bitmap.UnmarkStep | os161/kern/lib/bitmap.c:121-131 | And-ing a mask out removes exactly one. |
| Uio.Uio.constructor | os161/kern/userprog/uio.c:114-123 | mk_kuio. |
| Uio.Uio.Move | os161/kern/userprog/uio.c:12-82 | Moves n bytes, or as many as the buffer has left, and accounts for exactly them in base, length, offset and residue. |
| Uio.Uio.MoveZeros | os161/kern/userprog/uio.c:85-108 | Delivers n zeros, or as many as the buffer has left. |
| Malloc.Heap.Malloc | os161/lib/libc/malloc.c:308-403 | Takes the lowest free block that fits, else extends the heap; the data exceed the rounded request by at most 8 bytes; the client view gains exactly this block. NULL exactly if nothing fits and sbrk refuses. The heap stays valid exactly if something fits, sbrk refuses, or the rounded size with its header is below 2^31 (or wraps to 0); otherwise the top drops and the pointer lies outside. |
| Malloc.Heap.Extend | os161/lib/libc/malloc.c:382-402 | The part that asks sbrk, with the outcome for every size. |
| Malloc.Heap.MallocSbrk | os161/lib/libc/malloc.c:236-255 | The top moves by the size read as an int, exactly if the kernel grants that. |
| Malloc.Heap.Sbrk | os161/kern/arch/mips/mips/syscall.c:745-815 | The break moves, and its old value is returned, exactly if it stays between the start of the region and the stack. |
| Malloc.ChangeIs | os161/lib/libc/malloc.c:386 | The break moves up exactly if the rounded size with its header is below 2^31. |
| Malloc.DroppedTopExample | os161/lib/libc/malloc.c:308-403 | malloc(2^32-16) after malloc(8) lowers the top into the first block, and the next search runs off the end. |
| Malloc.Heap.Free | os161/lib/libc/malloc.c:457-514 | Accepts exactly null and data pointers of live blocks below the top; a live block is rejected exactly if it is empty and at the top; the client view loses exactly the block freed; every other pointer is rejected without change. |
| Malloc.Heap.constructor | os161/lib/libc/malloc.c:123-178 | An empty, 8-aligned heap. |
| Malloc.Heap.Search | os161/lib/libc/malloc.c:333-380 | Finds the first fit below the top; the heap-corrupt exits in the loop are unreachable, and it runs off the end exactly if nothing fits and the top is not between blocks, which in a valid heap it is. |
| Malloc.Heap.Take | os161/lib/libc/malloc.c:364-376 | Splitting and marking keeps tiling, tags and magic bits, and no two free blocks touch. |
| Malloc.Heap.SplitAt | os161/lib/libc/malloc.c:267-302 | The headers written are those of the two halves. |
| Malloc.Heap.AddBlock | os161/lib/libc/malloc.c:391-397 | The new header makes the new memory one live block. |
| Malloc.Heap.Drop | os161/lib/libc/malloc.c:253 | A top that has dropped leaves a valid heap exactly if it did not move. |
| Malloc.Heap.TryMerge | os161/lib/libc/malloc.c:427-451 | Merges the two blocks exactly if both are free; the heap-corrupt exit is unreachable. |
| Malloc.Heap.WipeBlock | os161/lib/libc/malloc.c:413-420 | Marks the block free and fills its data. |
| Malloc.Heap.FreeBlock | os161/lib/libc/malloc.c:492-508 | Freeing merges on both sides and restores that no two free blocks touch. |
| Malloc.Heap.MergeUp | os161/lib/libc/malloc.c:498-502 | Merging with the block above. |
| Malloc.Heap.MergeDown | os161/lib/libc/malloc.c:504-508 | Merging with the block below. |
| Malloc.Heap.ClientStore | os161/lib/libc/malloc.c:308-403 | A store of the client into its own block keeps the heap well formed and changes that word only. |
| Malloc.RoundUpServes | os161/lib/libc/malloc.c:329-330 | The rounded size covers the request if and only if the request is at most 2^32-8. |
| Malloc.EmptyTopBlockExample | os161/lib/libc/malloc.c:473-476 | malloc(0) on an empty heap gives a block that free rejects. |
| Malloc.NextCoalesced | os161/lib/libc/malloc.c:308-514 | Every call keeps that no two free blocks touch. malloc, free and client stores take such steps (their contracts say so). |
| Malloc.RunCoalesced | os161/lib/libc/malloc.c:308-514 | So does every run of such steps; when everything has been freed the heap is empty or one free block. |
| HeapBlocks.SplitImage | os161/lib/libc/malloc.c:267-302 | The stores of a split turn the image of the block list into the image of the split list. |
| HeapBlocks.MergeImage | os161/lib/libc/malloc.c:427-451 | The stores of a merge turn it into the image of the merged list. |
| HeapBlocks.GrowImage | os161/lib/libc/malloc.c:386-397 | Appending a header and data appends a block. |
| HeapBlocks.WipeImage | os161/lib/libc/malloc.c:413-420 | Wiping a block changes that block only. |
| HeapBlocks.SegmentOrdered | os161/lib/libc/malloc.c:333-380 | Blocks tile the heap in address order. |
| HeapBlocks.LiveDisjoint | os161/lib/libc/malloc.c:308-403 | Live blocks, headers included, do not overlap. |
| HeapBlocks.CarveView | os161/lib/libc/malloc.c:364-376 | Allocation changes the data of no live block. |
| HeapBlocks.ReleaseView | os161/lib/libc/malloc.c:492-508 | Freeing changes the data of no other live block. |
| HeapBlocks.CarveNoAdjacentFree | os161/lib/libc/malloc.c:267-302 | Allocation keeps that no two free blocks touch. |
| HeapBlocks.ReleaseNoAdjacentFree | os161/lib/libc/malloc.c:492-508 | Freeing keeps it too. |
| HeapBlocks.AllFreedIsOneBlock | os161/lib/libc/malloc.c:492-508 | Without live blocks there is at most one block. |
| Kheap.Kheap.SubpageKmalloc | os161/kern/lib/kheap.c:350-460 | Returns an 8-aligned block of the smallest size that fits, not live before; the live blocks gain exactly it; memory changes on a new page only; fails exactly without a free block of that size and without a page, or a record, for a new one. |
| Kheap.Kheap.SubpageKfree | os161/kern/lib/kheap.c:462-540 | The live blocks lose exactly this one; only its words change; its page is given back exactly if that was its last live block; false exactly for addresses on no page. |
| Kheap.Kheap.Checked | os161/kern/lib/kheap.c:164-233 | Between calls the disabled checks hold: the lists by size and the list of all pages have the same length, and every page listed has a live block. |
| Kheap.Kheap.ClientStore | os161/kern/lib/kheap.c:350-540 | A store of the owner into a live block changes that word only and keeps the whole state of the allocator valid. |
| Kheap.LiveDisjoint | os161/kern/lib/kheap.c:350-460 | Live blocks do not overlap. |
| Kheap.Kheap.constructor | os161/kern/lib/kheap.c:104-153 | An allocator without pages. |
| Kheap.Kheap.AllocPageref | os161/kern/lib/kheap.c:110-133 | The first record not in use, or none exactly if all are. |
| Kheap.Kheap.FreePageref | os161/kern/lib/kheap.c:135-148 | Clears one bit. |
| Kheap.Kheap.FindPage | os161/kern/lib/kheap.c:372-407 | The first page on the list of its size with a free block, if there is one. |
| Kheap.Kheap.TakeBlock | os161/kern/lib/kheap.c:380-405 | Takes the head of the free list; the assertions about offset and count hold. |
| Kheap.Kheap.BuildPage | os161/kern/lib/kheap.c:440-450 | The list runs through every block of the page once; only the page is written. |
| Kheap.Kheap.FillPage | os161/kern/lib/kheap.c:431-450 | The record of a new page describes it. |
| Kheap.Kheap.AddPage | os161/kern/lib/kheap.c:431-456 | The new page is on both lists and its record in use. |
| Kheap.Kheap.FindOwner | os161/kern/lib/kheap.c:481-498 | The page of an address, if there is one. |
| Kheap.Kheap.FillDeadbeef | os161/kern/lib/kheap.c:6-16 | Writes within the block only. |
| Kheap.Kheap.PutBlock | os161/kern/lib/kheap.c:507-528 | Puts the block in front of the free list; the count cannot exceed the blocks of a page. |
| Kheap.Kheap.DropPage | os161/kern/lib/kheap.c:529-534 | The page is on neither list and its record free. |
| Kheap.RemoveFrom | os161/kern/lib/kheap.c:307-330 | Unlinks exactly the given record from a list. |
| Kheap.BlockType | os161/kern/lib/kheap.c:332-348 | The smallest size that fits; the panic is unreachable up to 2048. |
| KheapBlocks.SizesDouble | os161/kern/lib/kheap.c:52-53 | The eight sizes are 16 times the powers of two, so a block of more than the least size is less than twice what was asked for. |
| Kheap.ListsAgree | os161/kern/lib/kheap.c:204-230 | The lists by size partition the list of all pages, which has as many pages as they have together. |
| Kheap.PagePushed | os161/kern/lib/kheap.c:452-456 | Pushing a page keeps both lists and the bits right. |
| Kheap.PageRemoved | os161/kern/lib/kheap.c:307-330 | Removing a page keeps them right. |
| KheapBlocks.PackUnpack | os161/kern/lib/kheap.c:80-82 | Page address and block type come out of the word as they went in. |
| KheapBlocks.TakeFirst | os161/kern/lib/kheap.c:380-405 | Taking the first free block makes exactly it live. |
| KheapBlocks.PutFirst | os161/kern/lib/kheap.c:507-528 | Putting a block back makes exactly it free, and the list stays acyclic, aligned and in its page. |
| KheapBlocks.StoreFree | os161/kern/lib/kheap.c:350-540 | What is stored in a live block does not concern the free list of its page. |
| KheapBlocks.SomeLive | os161/kern/lib/kheap.c:529-534 | A page with fewer free blocks than blocks has a live one. |
| KheapBlocks.BlocksDisjoint | os161/kern/lib/kheap.c:350-460 | Blocks of a page do not overlap. |
| KernelInv.NoLostWakeup | os161/kern/thread/synch.c:62-95 | In every reachable state a count is the initial value plus Vs minus completed Ps, and nobody sleeps on a positive semaphore or a free lock. |
| KernelInv.MutualExclusion | os161/kern/thread/synch.c:141-173 | In every reachable state two threads that hold a lock are the same, and it is the one the lock names. |
| KernelInv.CvWaitAtomic | os161/kern/thread/synch.c:225-239 | A waiter is asleep on the condition variable as soon as the lock is free, and returns only with the lock held. |
| KernelQueues.BroadcastWakes | os161/kern/thread/synch.c:254-265 | After cv_broadcast nobody sleeps on the cv; exactly the threads that did are at the end of the run queue, in sleep order; every other sleeper is in its place, and no lock or semaphore changed. |
| KernelQueues.SignalWakes | os161/kern/thread/synch.c:241-252 | After cv_signal exactly the thread that has slept longest on the cv, if any, is at the end of the run queue. |
| KernelQueues.VWakes | os161/kern/thread/synch.c:85-95 | V raises the count by one and moves exactly the sleepers on the semaphore, in order. |
| KernelQueues.ReleaseWakes | os161/kern/thread/synch.c:157-173 | lock_release by the holder frees the lock and moves exactly the sleepers on it; by another thread it does nothing. |
| KernelQueues.WaitWakes | os161/kern/thread/synch.c:225-239 | cv_wait frees the lock, moves exactly the sleepers on it and puts the caller last among the sleepers, on the cv. |
| KernelQueues.PTakes | os161/kern/thread/synch.c:62-83 | P lowers the count by one, or puts the caller last among the sleepers exactly if it is 0. |
| KernelQueues.AcquireTakes | os161/kern/thread/synch.c:141-155 | lock_acquire makes the caller the holder, or puts it last among the sleepers exactly if the lock is held; so does the end of cv_wait. |
| KernelQueues.MatchPart | os161/kern/thread/thread.c:665-694 | The two halves of a wakeup are the members of two sets in their order. |
| KernelQueues.Spawned | os161/kern/thread/thread.c:404-442 | A forked thread is at the start of its program and last in the run queue. |
| KernelQueues.Exits | os161/kern/thread/thread.c:572-622 | A thread at the end of its program becomes the last zombie, and nothing else changes but the count. |
| KernelQueues.Reaps | os161/kern/thread/thread.c:538-557 | Zombies stay until a thread that has run before is picked; then all of them are gone. |
| KernelQueues.QueueStep | os161/kern/thread/scheduler.c:87-118 | Threads enter the run queue at its end only and leave it at its head only, when they are picked. |
| KernelQueues.RoundRobin | os161/kern/thread/scheduler.c:87-118 | In every run a thread behind i others moves up by one with each pick and is the one picked after i picks. |
| KernelInv.ThreadsConserved | os161/kern/thread/thread.c:478-562 | In every reachable state each created, undestroyed thread is in exactly one of current, run queue, sleepers and zombies, and numthreads counts those that are not zombies. |
| KernelInv.ReachesInv | os161/kern/thread/thread.c:478-729 | The invariant holds in every state of every run. |
| KernelInv.StepInv | os161/kern/thread/thread.c:478-729 | Every step keeps it. |
| KernelInv.InitialInv | os161/kern/thread/thread.c:201-272 | It holds at the start. |
| KernelInv.MatchSplits | os161/kern/thread/thread.c:665-694 | A wakeup splits the sleepers into those on the address and the others, without loss. |
| KernelInv.DispatchConserved | os161/kern/thread/scheduler.c:86-105 | Scheduling and exorcism keep every thread in exactly one place. |
| Stoplight.NoDeadlock | os161/kern/asst1/stoplight.c:90-382 | When nothing is running or runnable, every car is out and the semaphores are back at 1,1,1,1,3. |
| Stoplight.SomeCarCanGo | os161/kern/asst1/stoplight.c:90-382 | While any car is unfinished, some car can complete its next operation. |
| Stoplight.FourStuck | os161/kern/asst1/stoplight.c:90-312 | A circle of waiting cars needs four cars inside. |
| Stoplight.OneCarPerQuadrant | os161/kern/asst1/stoplight.c:90-312 | No two cars are in the same quadrant. |
| Stoplight.AtMostThreeInside | os161/kern/asst1/stoplight.c:337-382 | At most three cars are inside. |
| Stoplight.ThreeInside | os161/kern/asst1/stoplight.c:337-446 | Any three cars can be inside together: a run leads there. |
| Stoplight.Routes | os161/kern/asst1/stoplight.c:90-312 | A car enters by a quadrant at its side and leaves by the quadrant at the side of its destination that cars from there do not enter by. |
| Stoplight.TrafficReached | os161/kern/asst1/stoplight.c:399-446 | Every state reached with any number of cars and any schedule is one these speak of. |
| Stoplight.CarPlaces | os161/kern/asst1/stoplight.c:90-382 | What a car holds at each point of each of its twelve programs, and which quadrant it asks for next. |
| Stoplight.AllOut | os161/kern/asst1/stoplight.c:413-417 | When all cars are out the semaphores are back at their initial values. |
| Stoplight.CarsFinish | os161/kern/asst1/stoplight.c:90-446 | Once all cars have arrived, under every schedule they take at most Measure further steps, and while one is unfinished a car runs or can be scheduled: all cars leave. |
| Stoplight.RunStepsBounded | os161/kern/asst1/stoplight.c:90-382 | In every run without forks, under every schedule, the number of operations attempted, sleeping and exiting included, is at most the measure of the first state. |
| Stoplight.MeasureDrops | os161/kern/asst1/stoplight.c:90-382 | Every operation that a thread attempts lowers the measure; preemption and scheduling keep it. |
| Stoplight.CarsKeepGoing | os161/kern/asst1/stoplight.c:90-446 | In every state reached, a thread can run or be scheduled unless every car is out and the semaphores are back. |
| ThreadCode.System.ThreadWakeup | os161/kern/thread/thread.c:665-694 | Moves exactly the sleepers on the address to the run queue, in sleep order. |
| ThreadCode.System.ThreadWakeupOne | os161/kern/thread/thread.c:699-729 | Moves the earliest of them only. |
| ThreadCode.System.Stash | os161/kern/thread/thread.c:507-532 | The current thread goes to the end of the list its next state says. |
| ThreadCode.System.Resume | os161/kern/thread/thread.c:538-557 | The head of the run queue becomes current; zombies are destroyed unless it is new. |
| ThreadCode.System.Exorcise | os161/kern/thread/thread.c:133-149 | Destroys every zombie, none of which is current. |
| ThreadCode.System.ThreadSleep | os161/kern/thread/thread.c:650-660 | Refines the sleep step. |
| ThreadCode.System.ThreadYield | os161/kern/thread/thread.c:627-638 | Refines the yield step. |
| ThreadCode.System.ThreadExit | os161/kern/thread/thread.c:618-620 | Refines the exit step; the assertion about numthreads holds. |
| ThreadCode.System.ThreadFork | os161/kern/thread/thread.c:404-442 | Refines the fork step. |
| ThreadCode.System.SemP | os161/kern/thread/synch.c:62-83 | Refines one pass of P. |
| ThreadCode.System.SemV | os161/kern/thread/synch.c:85-95 | Refines V. |
| ThreadCode.System.LockAcquire | os161/kern/thread/synch.c:141-155 | Refines one pass of lock_acquire. |
| ThreadCode.System.LockRelease | os161/kern/thread/synch.c:157-173 | Refines lock_release, which does nothing for a thread that does not hold the lock. |
| ThreadCode.System.CvWait | os161/kern/thread/synch.c:225-239 | Refines the first half of cv_wait. |
| ThreadCode.System.RunCurrent | os161/kern/thread/synch.c:62-265 | The code of every primitive takes the step of the state machine. |
| Queue.Queue.AddTail | os161/kern/lib/queue.c:90-108 | Appends; asks for memory exactly when it holds one element less than its size, doubles then, and fails exactly if there is none. |
| Queue.Queue.Grow | os161/kern/lib/queue.c:17-51 | Order and contents survive; the additions inside never grow again, so the mutual recursion ends. |
| Queue.Queue.Refill | os161/kern/lib/queue.c:43-48 | Adds the old elements, around the end of the old ring, to the new one. |
| Queue.NewSize | os161/kern/lib/queue.c:31-36 | The old size doubled until it reaches the target, and always positive. |
| Queue.Queue.RemHead | os161/kern/lib/queue.c:110-121 | Takes the oldest element. |
| Queue.Queue.Preallocate | os161/kern/lib/queue.c:70-81 | The size becomes the old one doubled until it reaches the size asked for; contents stay; ENOMEM exactly if it has to grow and there is no memory. |
| Queue.Queue.AddAll | os161/kern/lib/queue.c:90-108 | Without memory, k additions all succeed if and only if the elements then held are fewer than the slots; up to the failing one they are appended in order. |
| Queue.PreallocateThenAdd | os161/kern/lib/queue.c:70-108 | Preallocating for n makes n additions to an empty queue safe if and only if the old size doubled until it reaches n is larger than n. |
| Queue.DoubledExact | os161/kern/lib/queue.c:31-36 | That size equals n exactly if n is the old size doubled some number of times. |
| Queue.Queue.constructor | os161/kern/lib/queue.c:53-68 | An empty queue. |
| Queue.PreallocateExample | os161/kern/thread/scheduler.c:28-45 | A run queue of 32 slots preallocated for 32 threads has no room for the 32nd. |
| Queue.RingPush | os161/kern/lib/queue.c:90-108 | Storing at the write index appends, also around the end. |
| Queue.RingPop | os161/kern/lib/queue.c:110-121 | Advancing the read index drops the first element. |
| Random.Generator.Draw | os161/lib/libc/random.c:396-442 | The i-th number is half the i-th new term of the recurrence; so each number is the sum of those deg and sep places earlier modulo 2^31, or one more; n calls move the rear by n modulo the degree. |
| Random.Generator.Random | os161/lib/libc/random.c:413-442 | The new word is the sum of the oldest and the one sep back modulo 2^32, and the number half of it; or the congruential step 1103515245 x + 12345 modulo 2^31. The rear advances by one cyclically. |
| Random.Generator.Feed | os161/lib/libc/random.c:423-439 | The sum of the oldest word and the one sep back modulo 2^32 replaces the oldest; the pointers stay in bounds and sep apart, and never wrap together. |
| Random.Generator.Srandom | os161/lib/libc/random.c:230-247 | The state is the congruential fill from the seed, moved on by ten times the degree of steps of the recurrence; the rear is at 0. |
| Random.FilledAt | os161/lib/libc/random.c:239-241 | Word n of the fill is a^n x + c (1 + a + ... + a^(n-1)) modulo 2^32 for the seed x, a = 1103515245 and c = 12345. |
| Random.Generator.Spin | os161/lib/libc/random.c:413-442 | Any number of calls of either kind of generator; the congruential numbers have the same closed form modulo 2^31. |
| Random.Generator.Congruents | os161/lib/libc/random.c:420-422 | The congruential ones. |
| Random.Recurrence | os161/lib/libc/random.c:396-442 | x(n) = x(n - deg) + x(n - sep) modulo 2^32. |
| Random.TermHalves | os161/lib/libc/random.c:427-430 | Dropping the lowest bit keeps the recurrence up to a carry. |
| Random.Trinomials | os161/lib/libc/random.c:123-154 | The degrees are 7, 15, 31 and 63, one less than a power of two, and the separations 3 and 1 in turn. |
| Random.TypeFor | os161/lib/libc/random.c:299-322 | The largest generator that fits in the bytes. |
| Random.Rotation | os161/lib/libc/random.c:353-394 | A table read with the rear at another place produces the same words from there on. |
| Random.Generator.Warmup | os161/lib/libc/random.c:244-245 | Ten times the degree of steps lead back to the start. |
| Random.Generator.InitState | os161/lib/libc/random.c:281-332 | Chooses the largest generator that fits and seeds it; fails exactly below 8 bytes, without change to the sequence. |
| Random.Generator.SetState | os161/lib/libc/random.c:353-394 | Stores the position of the current table and restores that of the new one. |
| Random.Generator.SwitchAndBack | os161/lib/libc/random.c:353-394 | Switching to a different table, drawing from it and switching back resumes the same sequence. |
| Random.Generator.DrawAndSet | os161/lib/libc/random.c:344-442 | After n draws, switching to the current table makes the mark m the position and the position (rear + n) modulo the degree the mark; so the position is kept exactly if the draws led to m. |
| Random.Generator.InitDrawSet | os161/lib/libc/random.c:281-442 | After initstate the position is kept exactly if n is a multiple of the degree; already after one draw it is lost. |
| Random.Run | os161/lib/libc/random.c:230-442 | Over any run of draws, srandom, initstate and setstate on any tables, the current one included, the position, every mark and what each table produces are those counted from the calls, and every number handed out is the one so predicted: tables do not disturb one another. |
| Random.Do | os161/lib/libc/random.c:230-442 | One call of such a run. |
| Random.Begin | os161/lib/libc/random.c:281-332 | A seeded generator with no marks to start from. |
| Random.AlternatingSums | os161/lib/libc/random.c:353-394 | When every few draws are followed by setstate to the current table, position and mark hold the two alternating sums of the draws modulo the degree. |
| Random.SameKeeps | os161/lib/libc/random.c:344-394 | So such a call keeps the position if and only if these two sums agree modulo the degree. |
| Random.SecondTimeExample | os161/lib/libc/random.c:344-394 | The second such call, after one draw and seven more with degree seven, moves the position. |
| Random.WindowStep | os161/lib/libc/random.c:427-439 | Adding rear to front and advancing is one step of the recurrence on the words in order of age. |
| Random.ShiftTerms | os161/lib/libc/random.c:396-442 | Steps of the window are consecutive terms of the recurrence. |
| Random.Multiplexed | os161/lib/libc/random.c:364-371 | Type and position come out of the mark as they went in. |
| ParkMiller.Schrage | os161/kern/dev/generic/pseudorand.c:24-32 | The split computation is 16807*seed mod 2^31-1, and no intermediate value leaves 32 signed bits. |
| ParkMiller.StepBijective | os161/kern/dev/generic/pseudorand.c:20-39 | The step is a bijection on 1..2^31-2. |
| ParkMiller.AfterIs | os161/kern/dev/generic/pseudorand.c:20-39 | After n calls the seed is 16807^n times the first, modulo 2^31-1, and still in range. |
| ParkMiller.Pseudorand.Random | os161/kern/dev/generic/pseudorand.c:20-39 | One step; the result is at most randmax. |
| ParkMiller.Pseudorand.Draw | os161/kern/dev/generic/pseudorand.c:20-39 | The results of n calls in a row. |
| ParkMiller.RandMaxReached | os161/kern/dev/generic/pseudorand.c:41-48 | randmax is reached. |
| Printf.RoundTrip | os161/lib/libc/atoi.c:20-72 | atoi of the text of %d is the number, for every number and width, if and only if not both flags are given, or there is nothing to pad, or the number is 0. |
| Printf.ConversionPrints | os161/lib/libc/__printf.c:461-528 | %d with any flags and width prints sign, digits and padding in the order the flags say. |
| Printf.DecimalLength | os161/lib/libc/__printf.c:330-369 | The text has the larger of the width and the natural length. |
| Printf.PrintAndParse | os161/lib/libc/__printf.c:535-553 | Printing with %d and parsing gives the number back exactly if not both flags `-` and `0` are set, or nothing is padded, or it is 0; the text has the larger of the width and the natural length. |
| Printf.DigitsFit | os161/lib/libc/__printf.c:54 | Digits and terminator of 32 bits fit in 12 bytes in base 8, 10 and 16. |
| Printf.Convert | os161/lib/libc/__printf.c:391-432 | Lays down exactly the digits of the number, within the buffer. |
| Printf.Pf.PrintNum | os161/lib/libc/__printf.c:378-456 | Prints sign, base prefix and digits, padded. |
| Printf.Pf.PrintStuff | os161/lib/libc/__printf.c:330-369 | Prints prefixes, text and padding in the order of the flags. |
| Printf.Pf.PrintFill | os161/lib/libc/__printf.c:313-322 | Prints the fill character that often. |
| Printf.Pf.Print | os161/lib/libc/__printf.c:113-119 | The count is the number of characters sent. |
| Printf.Pf.Modifier | os161/lib/libc/__printf.c:149-206 | A flag or a digit of the width. |
| Printf.Pf.GetNum | os161/lib/libc/__printf.c:213-276 | Sign and magnitude of the argument; the smallest number wraps around. |
| Printf.Pf.SetBase | os161/lib/libc/__printf.c:288-308 | Base and prefix of the conversion. |
| Printf.Pf.Reset | os161/lib/libc/__printf.c:124-138 | The field state is cleared. |
| Printf.Pf.Send | os161/lib/libc/__printf.c:461-528 | One character of the format takes the step of the specification, whose whole runs TextPrinted explains. |
| Printf.Vprintf | os161/lib/libc/__printf.c:535-553 | The text is that of the format: plain characters as they are and the conversions in order; the result is its length. |
| Printf.TextPrinted | os161/lib/libc/__printf.c:461-553 | Fed any format character by character, the machine prints its plain characters and the text of its conversions in order, and remembers nothing else outside of a conversion. |
| Printf.ReadyIff | os161/lib/libc/__printf.c:461-553 | A format needs an argument for each of its conversions of types d, o, u, p, x, c and s, and no others. |
| Printf.PlainText | os161/lib/libc/__printf.c:467-475 | A format without % prints itself. |
| Printf.Sequenced | os161/lib/libc/__printf.c:535-553 | A format that ends outside of a conversion, followed by another, prints the text of the first and that of the second with the arguments left over. |
| Printf.StringPrints | os161/lib/libc/__printf.c:500-509 | %s with any modifiers prints the string, or (null), padded. |
| Printf.UnsignedPrints | os161/lib/libc/__printf.c:489-499 | %u, %o and %x with any modifiers print digits without leading zeros whose value in base 10, 8 or 16 is the argument, after the prefix that # asks for, padded. |
| Printf.SignedPrints | os161/lib/libc/__printf.c:489-499 | %d prints the sign and the digits of the absolute value, padded. |
| Printf.PointerPrints | os161/lib/libc/__printf.c:489-499 | %p prints 0x and the hexadecimal digits, padded. |
| Printf.CharPrints | os161/lib/libc/__printf.c:510-528 | %c prints the low byte of its argument, and %% and all other characters themselves, padded. |
| Printf.RunModifiers | os161/lib/libc/__printf.c:149-206 | Modifiers in any order: the width is the value of the digits among them, zeros fill exactly if the first of these is 0. |
| Printf.DigitsWrite | os161/lib/libc/__printf.c:391-432 | The digits laid down are the number in that base. |
| Printf.PaddedLength | os161/lib/libc/__printf.c:330-369 | Padding makes the text as wide as asked and takes nothing from it. |
| Printf.AtoiText | os161/lib/libc/atoi.c:20-72 | atoi of blanks and tabs, a sign or none, digits and anything else: the value of the digits modulo 2^32, with the sign, as an int. |
| Printf.RunWidth | os161/lib/libc/__printf.c:177-204 | The digits of a width add up to it. |
| Printf.Atoi | os161/lib/libc/atoi.c:20-72 | Skips blanks, takes a sign and the longest run of digits, modulo 2^32. |
| Printf.ParseDigits | os161/lib/libc/atoi.c:41-63 | The value of the digits, modulo 2^32. |
| Printf.ValueOfDigits | os161/lib/libc/__printf.c:404-424 | The digits of a number have its value. |
| Printf.ZerosMatter | os161/lib/libc/atoi.c:58-59 | Zeros on the right change every number but 0, also modulo 2^32. |
| PageTable.Vm.FaultHandler | os161/kern/vm/vm.c:430-465 | A mapped page yields its frame and nothing changes; an unmapped one is given a frame that was free and is now zero, marked as a user frame of the address space, or stays unmapped exactly if fewer frames are free than one for the page and one for a missing second-level table. So many frames are taken and no other. No other translation changes, and of the frames in use only the one with the page's second-level table, in its entry. The handler survives exactly if that table exists or a frame is free for it. |
| PageTable.Vm.Run | os161/kern/vm/vm.c:430-497 | Over any sequence of faults in any address spaces two faults get the same frame if and only if they are for the same page; the frames taken are exactly those of pages that faulted and of their tables, and frames keep what they are for; a fault fails, or the run stops for want of a second-level table, only when no frame is free, and a page that failed stays unmapped. |
| PageTable.Vm.TakeFrame | os161/kern/vm/vm.c:467-497 | Takes the first free frame and clears it; 0 exactly if there is none. |
| PageTable.Vm.ClearFrame | os161/kern/vm/vm.c:481-486 | Clears one frame. |
| PageTable.Vm.EnsureTable | os161/kern/vm/vm.c:437-447 | A new second-level table maps nothing and takes one frame, marked as a kernel frame of the address space; it is missing afterwards exactly if it was and no frame is free. |
| PageTable.Vm.MapPage | os161/kern/vm/vm.c:445-453 | The entry gets a frame that was free and is now zero, marked as a user frame, and no other frame is taken; or 0, without change, exactly if there is none. |
| PageTable.FaultDone | os161/kern/vm/vm.c:430-465 | Making the table and mapping the page, taken together, with the number of frames they take. |
| PageTable.Vm.constructor | os161/kern/vm/vm.c:430-497 | No page is mapped and every frame free. |
| PageTable.FramesDistinct | os161/kern/vm/vm.c:430-497 | Distinct pages have distinct frames, across address spaces too. |
| PageTable.TablesApart | os161/kern/vm/vm.c:430-497 | No page is ever in the frame of a second-level table. |
| PageTable.EntrySet | os161/kern/vm/vm.c:445-453 | Setting an entry of the two-level table changes one page of the flat map. |
| PageTable.IndexSplit | os161/kern/vm/vm.c:432-433 | The two indices make up the page number. |

## Left out

- I/O errors and retries of SFS (EIO, sfs_rwblock): the disk always answers.
- Concurrent use of SFS: the calls of a run follow one another; kernel buffers only in uio.
- Sfs.Sfs.Truncate: lengths other than 0, which no caller uses; its bounds keep one block too many.
- sfs_stat, sfs_tryseek, sfs_lookup and the other small vnode operations would only add easy members.
- Exhaustion of kernel memory in SFS and in the run queue, sleepers and zombies (array.c is not modelled; they are sequences).
- SfsDir.Link: the file that is linked is a regular file, not the root directory.
- SfsRun.Run: offsets are not negative; which of the free blocks a file gets is not said, only how many; a call for a file that the caller does not hold is denied by the run itself.
- SfsMount.Mksfs: the disk has at least two blocks, which are written before the map is looked at.
- SfsMount.DoMount: the device has exactly as many blocks as the superblock says, and a disk with the magic number was made by mksfs or synced.
- Malloc.Heap.Free: a pointer into the heap is 8-aligned and not the heap base itself, and client data that look like a header are not passed as one.
- Malloc.Heap.MallocSbrk: nobody but malloc moves the break; what a header stored past the top overwrites is not modelled.
- Kheap.Kheap.SubpageKfree: an address on one of the pages is a live block, since double free is not checked; requests of more than a page and kmalloc itself are not modelled.
- Kheap.Kheap.AllocPageref: the bits of a word are booleans, not a bit vector.
- Kheap.Kheap.FreePageref: the same.
- KernelInv.NoLostWakeup: a V or a wakeup made by a device interrupt, also while the scheduler idles, is not a step, so it speaks of thread programs only.
- KernelInv.MutualExclusion: threads are numbers that are never used again, while the code compares addresses of threads, which kmalloc may hand out again after a thread has exited with a lock held.
- Stoplight.CarsFinish: preemptions between two operations are not bounded.
- Uio.Uio.Move: a residue smaller than the buffer covers the request, as with all callers; otherwise the residue would wrap.
- Uio.Uio.MoveZeros: the same.
- Queue.Queue.Grow: the bytes of the new ring can be counted in 32 bits.
- Queue.Queue.AddTail: so they can when a full ring is doubled.
- Queue.NewSize: the same.
- Random.Generator.Draw: locking of the generator, and the initial table of constants.
- Random.Generator.SetState: the first word of the table is a mark that initstate or setstate left there.
- PageTable.Vm.FaultHandler: a store through a null pointer ends the model; fork, the TLB and the rest of vm.c and addrspace.c are not modelled.
- Printf.Pf.Modifier: the width does not overflow an int.
- Thread creation beyond lists and counters, processes, fork, exec, wait and signals.
- catlock.c and catsem.c, whose counters rest on an atomicity the code does not give.
- Device drivers, LAMEbus, console, emu file system, VFS naming, ELF loading, user programs, string functions.
