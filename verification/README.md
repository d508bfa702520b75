# FunsOS storage layer and small cores, verified

FunsOS is a from-scratch x86 kernel. This project models, in Dafny, the parts of it whose
correctness takes an argument and not just a reading, and proves what those parts are for:

- **ext2 files** (`Bytes`, `Sequences`, `Volume`, `Ext2Tree`, `Ext2Map`, `Ext2File`, `Ext2Truncate`, `Ext2Fs`,
  `Ext2Grow`, `FileModel`, `Ext2Run`, `Ext2Cases`). A file is a tree of direct, single-indirect and double-indirect pointers over a
  bitmap-allocated device, and behaves as a flat byte array. Ownership (every block
  reachable from every inode marked, outside the layout, and pointed at once) is an
  invariant of every write and, exactly when the cut is clean, of truncation; over every
  run of writes, cuts and reads each file is a byte array of its own.
- **ext4 files** (`Ext4Tree`, `Ext4Layout`, `Ext4Files`, `Ext4IO`, `Ext4Fs`, `Ext4Cases`). The recursive search
  of an extent tree of any depth is lookup in the flat list of its extents; reading and
  writing by extents sit on top of it, and over every run of writes and reads each file is a
  byte array of its own.
- **Directories** (`Directory`, `Ext2Dir`, `Ext4Dir`). The `rec_len` chain in a buffer is a table from
  names to inodes; lookup, insertion and unlinking are operations on that table, first on
  bytes and then through the file layers down to the device.
- **Write-back block cache** (`Cache`). Hash chains and an LRU list relinked in place; every
  sequence of operations refines a plain disk.
- **Counted bitmap allocator** (`CountedAlloc`). Free counts per group and in the superblock are
  exact; multi-block allocation is all or nothing, for numbers below 2^31.
- **Dentry LRU** (`Dcache`). A circular list through a sentinel; reclaim is exact LRU among the
  unreferenced.
- **Shunting-yard evaluator** (`Calc`, `CalcGrammar`, `CalcScan`), **keyboard ring** (`Keyboard`), **calendar**
  (`Calendar`), **line scanners** (`LineScan`) and **PCM conversion** (`Sound`).

Each operation that works by changing things is a method on an object, proved against a
specification; what is promised about the specification is proved as lemmas. The
interleavings of the keyboard ring are runs of a transition system.

## What the model takes as given

- The block device is a total map from block numbers to bytes; transfers succeed. The file
  systems and the cache call the disk driver with (drive, count, sector) while
  `drivers/ide.h` declares (drive, sector, count); the proofs rest on the intended meaning.
- Each operation is one step. Some locks are taken twice on one path
  (`fs/ext4.c:377` and `:410`, `fs/cache.c:390` and `:405`); locking itself is not modelled.
- Memory allocation succeeds in the file systems; in the cache it may fail at any call.
- A mounted volume is formatted as the standard tools leave it: bitmap bits past the end of
  a group are set (the scan looks at all of them, `fs/ext2.c:176`), and the layout's own blocks
  are marked used.
- `offset + count` does not wrap 32 bits, and cached block numbers are below 2^29, where the
  32-bit sector address stops identifying the block (`Cache.LbaExact`).
- The inode table is a map from inode numbers to sizes and block arrays; the bytes of the
  table, permissions, link counts and times are not modelled.
- The extent header is the packed ten bytes of `fs/ext4.h`, with a two-byte generation field;
  the on-disk format of the Linux kernel's ext4 documentation has twelve bytes. The model
  follows the code.
- Block and inode numbers of the counted allocator fit 32 bits.
- A 32-bit sum in the PCM converter wraps in two's complement, which the C standard leaves
  undefined.
- Numbers of the calculator are reals, so decimal rounding is not modelled.

## What turned out not to hold

Each of these is proved for all inputs, with the exact condition, on the state before the
call, under which the code does what it should; where the condition alone does not show a
failing input, one is given.

- A hole in an ext2 file need not read as zeros: a missing indirect block is read from
  block 0 (`Ext2Cases.HoleReadsThroughBlockZero`; exact in `Ext2File.ReadPathExact` for blocks and
  `Ext2File.ReadBytesExact` for bytes).
- Truncating an ext2 file to more than 12 blocks can leave pointers to freed blocks
  (`Ext2Truncate.TruncateAbove12Dangles`; exact in `Ext2Truncate.TruncateExact` and, for the
  whole volume, `Ext2Fs.TruncateSound`).
- A partial write into a fresh block exposes what the device held there
  (`Ext2Cases.ShortWriteExposes` and `Ext4Cases.ShortWriteExposes`; exact, for a write into part
  of any one hole, in `Ext2File.ExposesExactly` and `Ext4IO.ExposesExactly`; for every write
  `Ext2File.BlankFreeKeeps` and `Ext4IO.BlankFreeKeeps` rule it out when the free blocks are
  blank).
- Growing an ext2 file need not uncover zeros: a cut inside a block clears nothing
  (`Ext2Cases.CutByteReturns`; exact in `Ext2Grow.GrowExact` and `Ext2Grow.CutAndGrow`).
- A write of 2^31 bytes or more to an ext2 file returns a negative count, and the inode is not
  written back (exact in `Ext2Fs.Ext2.WriteData`).
- The extent search misses a block whose extent ends at or past block 2^32
  (`Ext4Cases.LastBlockMissed`; exact in `Ext4Tree.Traverse` for one block and
  `Ext4Files.SearchExact` for a tree). The ext4 files of this project are those whose extents
  end below it.
- `ext2_create` returns 0 also when no record has room: the appended block is linked to a copy
  of the inode that is dropped (`Ext2Cases.CreateLosesName`; exact in `Ext2Dir.CreateOp`).
- `ext4_add_dir_entry` returns 0 also when the volume had no block for the new record
  (`Ext4Cases.AddFailsSilently`; exact in `Ext4Dir.AddOp`).
- Freeing a free block breaks the counts (`CountedAlloc.FlipExact`); an item number of 2^31 or
  more reads as a failed allocation and stays taken (`CountedAlloc.Allocator.Alloc`, and for many
  at once `CountedAlloc.AllocMany`).
- Cache access times stop telling which entry was used later once the 32-bit clock has wrapped
  between the two uses (`Cache.Cache.StampsExact`); eviction goes by the list and is not affected.
- Unlinking adds two record lengths in 16 bits, which can lose other names of a directory of
  64 KiB or more (`Directory.UnlinkLosesTheOther`; exact in `Directory.Unlink` and
  `Directory.OverflowNames`); after a zero `rec_len` an appended entry is never found
  (`Directory.AddEntry`); a second record of the same name reappears when the first is
  unlinked (`Directory.DroppedTable`).
- The 64-entry stacks hold every expression up to nesting depth 15 and not every deeper one
  (`Calc.SixtyFourIsEnough`).
- `grep` and `head` stop after 255 characters of a longer line (`LineScan.SeenExactly`,
  `LineScan.FirstExactly`).
- The timestamp wraps on 2106-02-07 (`Calendar.FitsExactly`).
- Folding 32-bit stereo into a narrower mono format is off by one when the sum overflows and is
  odd (`Sound.FoldExact`). Channel conversion of S24 and of S32 reports a size and writes nothing (`Sound.Convert`).

## Model

| member | source | states |
|---|---|---|
| `Volumes.Volume.AllocBlock` | fs/ext2.c:161-192 | First fit: returns the lowest-numbered block the bitmaps show free, marks exactly that block and changes no other block of the device; returns 0 exactly when every block is marked, and then changes nothing |
| `Volumes.Volume.FindFree` | fs/ext4.c:98-119 | The scan over groups and bits finds the first clear bit, or shows that every bit of every group is set |
| `Volumes.Volume.FreeBlock` | fs/ext2.c:194-214 | Marks exactly that block free and writes nothing but its group's bitmap |
| `Volumes.Volume.WriteBit` | fs/ext4.c:128-148 | A bitmap read, changed in one bit and written back changes the mark of that one block |
| `Volumes.WriteKeepsFormat` | fs/ext2.c:25-29 | A write to a block outside the layout keeps every mark, so the volume stays formatted, and every other block |
| `Volumes.FirstFit` | fs/ext2.c:176-183 | The first clear bit in scan order is the lowest free block number: group and bit order is number order |
| `Volumes.TakenShifts` | fs/ext2.c:161-192 | Once the lowest free block is marked, the next allocations take the second lowest, third lowest and so on of the volume before |
| `Volumes.FlipBitEffect` | fs/ext2.c:176-179 | Bit i of group g is the mark of block first + g * per + i and of no other block |
| `Volumes.FlipBitFormatted` | fs/ext2.c:206-208 | Marking a block, or releasing one outside the on-disk layout, keeps the padding bits and the layout's own blocks marked |
| `Ext2Tree.InstallPtr` | fs/ext2.c:369-373 | Storing a fresh block's number in one slot changes that slot of that file and no other pointer of any file |
| `Ext2Tree.InstalledKeepsInv` | fs/ext2.c:341-416 | Filling a slot with a block nobody owned keeps all blocks of all files marked, outside the layout and pairwise distinct |
| `Ext2Tree.AddSlot` | fs/ext2.c:393-401 | Allocate, clear if it will hold pointers, link in: the ownership invariant of the whole volume is kept and no data block of any file is written |
| `Ext2Tree.PtrFrame` | fs/ext2.c:418-422 | A write to a block that holds no pointers moves no pointer |
| `Ext2Map.SlotForOk` | fs/ext2.c:349-376 | Every file block below 12 + p + p * p has a data slot the driver reads and writes |
| `Ext2Map.SlotForInjective` | fs/ext2.c:390-391 | Two file blocks never use the same slot |
| `Ext2Map.SlotForOnto` | fs/ext2.c:349-376 | Every data slot is the slot of some file block |
| `Ext2Map.EntryUnmoved` | fs/ext2.c:366-372 | The copy of a pointer block read before allocating is still that block's content when it is written back |
| `Ext2Map.FillRoot` | fs/ext2.c:358-365 | Root pointer found, or filled with the lowest free block and cleared; missing afterwards exactly when it was missing and the volume full, and then nothing changes; no other pointer of the file changes |
| `Ext2Map.FillEntry` | fs/ext2.c:393-401 | Entry of a pointer block found, or filled with the lowest free block and cleared if it is to hold pointers; missing afterwards exactly when it was missing and the volume full, and then nothing changes; no other pointer of the file changes |
| `Ext2Map.MapDirect` | fs/ext2.c:349-355 | A direct block is found or made |
| `Ext2Map.MapIndirect` | fs/ext2.c:356-375 | A single-indirect block is found or made, with its pointer block: the lowest free block, or the second lowest when the pointer block is missing too |
| `Ext2Map.ResolvedChild` | fs/ext2.c:356-413 | From a pointer block to its entry: a missing entry behind k missing pointer blocks gets the (k + 1)-th lowest free block of the volume before, or none exactly when no more than k are free |
| `Ext2Map.MapDouble` | fs/ext2.c:376-413 | A double-indirect block is found or made, with both pointer blocks: the lowest, second or third lowest free block, as none, one or both are missing |
| `Ext2Map.MapBlock` | fs/ext2.c:347-416 | The device block returned is the tree's pointer for that file block afterwards; a mapped block is found without changing anything; a hole behind k missing pointer blocks gets the (k + 1)-th lowest free block of the volume before, and 0 comes back exactly when no more than k are free or the block number is past the addressable range |
| `Ext2File.FindBlock` | fs/ext2.c:347-416 | The block for a position, found or made, with everything the write has done so far kept |
| `Ext2File.WriteStep` | fs/ext2.c:342-425 | One turn of the write loop extends what the write has done by one chunk, or stores nothing at an unmapped block of a full volume |
| `Ext2File.WriteFile` | fs/ext2.c:330-434 | For every offset and buffer: the volume stays sound, the stored prefix is in place, the size is updated, it stops short only when the volume is full or the next block cannot be addressed, a fully mapped range is written whole without allocating, and a write into one hole behind k missing pointer blocks is complete exactly when more than k blocks are free, and goes to the (k + 1)-th lowest of them |
| `Ext2File.FileAfterWrite` | fs/ext2.c:330-434 | The file as a byte array: the range holds the data, mapped bytes outside it are kept, untouched holes stay holes, and bytes of a freshly taken block outside the range are what the device held in a block that was free |
| `Ext2File.BlankFreeKeeps` | fs/ext2.c:418-422 | If the free blocks of the volume hold zeros before a write, no byte outside the range written changes |
| `Ext2File.ExposesExactly` | fs/ext2.c:418-422 | A write into part of any one hole, behind k missing pointer blocks, changes no other byte of the file if and only if the (k + 1)-th lowest free block before the write holds zeros around that part |
| `Ext2Cases.ShortWriteExposes` | fs/ext2.c:418-422 | A sound volume on which a byte reads 0, one byte elsewhere in its block is written, and the byte then reads 9 |
| `Ext2File.OtherFilesAfterWrite` | fs/ext2.c:330-434 | No byte and no block of any other file changes |
| `Ext2File.DataPtrDistinct` | fs/ext2.c:349-413 | Two file blocks never share a device block |
| `Ext2File.ReadFile` | fs/ext2.c:271-328 | Delivers, for every offset and count, the bytes the read path leads to, cut at the end of the file |
| `Ext2File.ReadPath` | fs/ext2.c:293-313 | Where every pointer block on the way exists the read path reaches the file's own block; where one is missing the file has a hole |
| `Ext2File.ReadPathExact` | fs/ext2.c:293-313 | The read path reaches the file's own block, or says hole where there is one, for every tree and every file block if and only if block 0 holds only zeros |
| `Ext2File.ReadBytesExact` | fs/ext2.c:293-320 | Every byte of every file reads as it is, zeros in holes, if and only if each block that block 0 names, taken as pointers, holds zeros |
| `Ext2File.HolesRead` | fs/ext2.c:295-300 | What a file without blocks reads as at each position behind a nonzero entry of block 0 |
| `Ext2Cases.HoleReadsThroughBlockZero` | fs/ext2.c:295-300 | A sound volume and an inode of 13 blocks on which a hole does not read as zero: with no single-indirect block the entry is taken from block 0 |
| `Ext2File.ReadsMapped` | fs/ext2.c:315-320 | Where the file is mapped, reading delivers the file's bytes |
| `Ext2File.WriteThenRead` | fs/ext2.c:271-434 | Reading back the n bytes a write reported gives exactly those bytes, across direct, single- and double-indirect blocks |
| `Ext2File.WrittenIsRead` | fs/ext2.c:271-434 | Every byte position of a finished write reads back as written |
| `Ext2Truncate.FreeDirects` | fs/ext2.c:1050-1056 | Releases exactly the mapped direct blocks past the new end, each once, and clears them |
| `Ext2Truncate.FreeIndirect` | fs/ext2.c:1058-1078 | Releases exactly the mapped single-indirect entries past the new end, and the pointer block if nothing of it is kept; which file blocks that is, is stated by ReleasedExactly |
| `Ext2Truncate.FreeLeaf` | fs/ext2.c:1091-1105 | Releases a leaf's entries from the cut on, then the leaf |
| `Ext2Truncate.FreeLeaves` | fs/ext2.c:1089-1108 | The loop over the leaves releases exactly the mapped leaves it walks over and their entries from the cut on |
| `Ext2Truncate.FreeDouble` | fs/ext2.c:1080-1116 | Releases exactly the mapped leaves and entries the cut walks over, and the root block if nothing is kept |
| `Ext2Truncate.FreeEntries` | fs/ext2.c:1066-1068 | Releases exactly the nonzero entries of a range, each once |
| `Ext2Truncate.Truncate` | fs/ext2.c:1038-1122 | The blocks handed back are exactly the mapped slots the cut walks over, without repetition; clean or not, every data block below the new end stays marked and every one past it up to the old end, and to the end of its leaf, does not; the inode's roots and size are the cut ones; growing frees nothing |
| `Ext2Truncate.ReleasedExactly` | fs/ext2.c:1050-1108 | For every file block, direct, single- or double-indirect: the cut walks over its slot if and only if the block is not below the new end and its leaf, or the block itself, starts before the old end |
| `Ext2Truncate.LeavesExactly` | fs/ext2.c:1080-1108 | A leaf pointer block is walked over if and only if it covers a file block not below the new end and one before the old end |
| `Ext2Truncate.CutMarks` | fs/ext2.c:1045-1116 | For every cut of an owned file, clean or not: of its data blocks exactly those the cut walks over lose their mark, so each one below the cut keeps it |
| `Ext2Truncate.TruncateExact` | fs/ext2.c:1045-1116 | The truncated file still owns every block it points at if and only if nothing was mapped where entries are released but their holder is kept |
| `Ext2Truncate.TruncateConserves` | fs/ext2.c:1045-1116 | Cutting a file without stray pointers to at most 12 blocks frees each data and pointer block it loses exactly once and nothing it keeps; exactly those marks change |
| `Ext2Truncate.TruncateAbove12Dangles` | fs/ext2.c:1066-1075 | A formatted volume and a file that owns all its blocks, which after every completed cut from 14 to 13 blocks points at a block that is free |
| `Ext2Truncate.TreeAfter` | fs/ext2.c:1045-1118 | After the cut a slot is empty if its root was cleared and as before otherwise |
| `Ext2Fs.TruncateOther` | fs/ext2.c:1034-1122 | No pointer of another file moves and none of its blocks is released |
| `Ext2Fs.TruncateSound` | fs/ext2.c:1034-1122 | Truncating one file leaves the whole volume sound if and only if the cut was clean |
| `Ext2Fs.TruncateKeepsBytes` | fs/ext2.c:1034-1122 | For every cut, each byte below it and each byte of every other file is where it was and what it was |
| `Ext2Fs.Ext2.WriteData` | fs/ext2.c:439-452 | Through the inode table: -1 for an unknown inode, otherwise the count as a signed 32-bit value; below 2 to the 31st bytes the write has its whole effect, from there on the inode is not written back and the table keeps the old one; the volume stays sound either way |
| `Ext2Fs.UnsavedBytes` | fs/ext2.c:446-447 | After a write whose inode is not written back, every byte that was mapped before holds the data written to it, or what it held |
| `Ext2Fs.UnsavedSound` | fs/ext2.c:446-447 | A volume with the old inode of a file that only grew is sound |
| `Ext2Fs.Ext2.ReadData` | fs/ext2.c:1239-1248 | Through the inode table: the bytes of the file from the offset on |
| `Ext2Fs.Ext2.TruncateFile` | fs/ext2.c:1034-1122 | Through the inode table: -1 for an unknown inode; the volume is sound afterwards exactly when the file grew or the cut was clean; clean or not, exactly the data blocks the cut walks over lose their mark |
| `Ext2Grow.WriteKeepsEnd` | fs/ext2.c:330-434 | A write leaves no block past the end of the file if there was none |
| `Ext2Grow.CutKeepsEnd` | fs/ext2.c:1045-1118 | A clean cut leaves no block past the new end if there was none past the old one |
| `Ext2Grow.GrowExact` | fs/ext2.c:1038-1043 | For a file with no block past its end, where holes read as zeros: the bytes that growing uncovers read as zeros if and only if the rest of the last block is blank |
| `Ext2Grow.CutAndGrow` | fs/ext2.c:1034-1122 | The same through the driver: after a clean cut and a growth the bytes in between read as zeros if and only if the rest of the last block kept was blank before the cut |
| `Ext2Cases.CutByteReturns` | fs/ext2.c:1034-1122 | Two bytes are written, the file is cut to one byte and grown to two, and the second byte reads as it was written |
| `Ext2Run.AfterWrite` | fs/ext2.c:330-434 | At every byte of every file a write acts as an assignment to a range of an array of its own |
| `Ext2Run.AfterUnsaved` | fs/ext2.c:439-452 | The same for a write of 2 to the 31st bytes or more: what was mapped before holds the data, what was not is not in the file |
| `Ext2Run.AfterResize` | fs/ext2.c:1034-1122 | At every byte of every file a truncation acts as cutting that array, a growth as nothing |
| `Ext2Run.Run` | fs/ext2.c:271-452 | Over every sequence of writes, resizes and reads on any number of files, each byte that was mapped in the beginning or written since, and not cut off, is the one last written, and every read delivered exactly those; a run ends early only at a cut that is not clean at that moment |
| `Ext2Run.Perform` | fs/ext2.c:271-452 | Each operation, other than a cut that is not clean, keeps the volume sound and refines one step of the array model at every byte of every file |
| `Cache.Cache.constructor` | fs/cache.c:22-33 | Empty lists; a reader sees the device |
| `Cache.Cache.Lookup` | fs/cache.c:35-47 | The chain walk finds the one entry of the block exactly if it is cached |
| `Cache.LruUnlink` | fs/cache.c:49-64 | The doubly linked list without that entry, ends included; the entry links to nothing |
| `Cache.LruLink` | fs/cache.c:66-78 | The doubly linked list with that entry in front |
| `Cache.ChainAdd` | fs/cache.c:99-104 | The bucket's doubly linked chain with that entry in front |
| `Cache.ChainRemove` | fs/cache.c:239-248 | The bucket's doubly linked chain without that entry |
| `Cache.Cache.Insert` | fs/cache.c:80-109 | A block not cached gets one entry in its bucket and at the front, or, exactly when memory is refused, nothing changes; what readers see is unchanged |
| `Cache.Cache.Read` | fs/cache.c:111-155 | Fails exactly when memory is refused, and then no entry changed. Otherwise delivers what readers are entitled to see, hit or miss; the block is cached, at the front of the LRU list and used now, its entry has one reference more, and no other entry came, went, or changed its references or its last use; hits and misses count; no block's visible content changes |
| `Cache.Cache.Write` | fs/cache.c:157-183 | Fails exactly when memory is refused, and then no entry and nothing visible changed. Otherwise the block's visible content is the new page and every other block's is unchanged; its entry is dirty, in front and used now; no references change |
| `Cache.Cache.Flush` | fs/cache.c:185-204 | The device holds the block's visible content and its entry is clean; no other block on the device and no other dirty flag changes, nor anything visible |
| `Cache.Cache.FlushAll` | fs/cache.c:206-224 | The device equals the visible contents for every block, and no entry is dirty |
| `Cache.Cache.Evict` | fs/cache.c:226-260 | Gives up the entry nearest the tail that nobody references, or nothing if there is none; in every reachable state that is the least recently used of the unreferenced entries; a dirty page reaches the device first; nothing visible changes |
| `Cache.Cache.EvictsOldest` | fs/cache.c:229-257 | In every reachable state, the clock wrapped or not, the entry nearest the tail that nobody references was last used before every other unreferenced entry |
| `Cache.Cache.StampsExact` | fs/cache.c:97-178 | The 32-bit access times fall strictly along the list if all last uses lie between two wraps of the clock, and, when they all lie within 2 to the 32nd ticks, only then |
| `Cache.Cache.Prefetch` | fs/cache.c:298-348 | Fails exactly when the block is not cached and either the cache is at its limit or memory is refused; otherwise the block is cached, in front and used now, and the limit is respected; nothing visible and no reference changes |
| `Cache.Cache.Invalidate` | fs/cache.c:351-386 | The block is no longer cached, its dirty page was written, nothing visible changes |
| `Cache.Cache.Count` | fs/cache.c:265-295 | The chains together hold exactly as many entries as the LRU list |
| `Cache.LbaExact` | fs/cache.c:136-137 | The 32-bit sector address identifies a block exactly below 2 to the 29th |
| `Cache.Perform` | fs/cache.c:80-386 | Every operation keeps the whole structural invariant and refines one step of a plain disk; a read or a write succeeds exactly if memory was not refused during it |
| `Cache.Run` | fs/cache.c:80-386 | Over every sequence of operations, failed allocations included, the visible contents are those of a plain disk after the successful writes, and every successful read delivered them; if memory is never refused, every read and every write succeeds |
| `Ext4Tree.FindInLeaf` | fs/ext4.c:211-224 | The leaf scan, with the end of an extent in 32 bits; it equals lookup in the leaf's extent list if and only if the block is in a hole or its extent ends below 2 to the 32nd |
| `Ext4Tree.Traverse` | fs/ext4.c:226-259 | For every well-formed tree of any depth the recursive search terminates and returns what the leaf scan makes of the concatenated leaf extents; that equals lookup in them, failing exactly on holes, if and only if the block is in a hole or its extent ends below 2 to the 32nd; what bytes make such a tree is stated by IndexFlat and LeafDecodes |
| `Ext4Layout.HeaderReads` | fs/ext4.h:27-33 | A header written field by field is read back: magic, entries, limit, depth |
| `Ext4Layout.LeafDecodes` | fs/ext4.h:20-25 | A leaf written byte by byte as the structure lays it out holds exactly the extents written, 48-bit starts included |
| `Ext4Layout.IndexDecodes` | fs/ext4.h:13-18 | An index node written byte by byte as the structure lays it out has exactly the keys and child blocks written |
| `Ext4Layout.IndexFlat` | fs/ext4.c:226-259 | For any keys and any well-formed children: an index node written over them is well-formed and holds exactly the extents of the blocks its entries name, one child after the other |
| `Ext4Layout.OneChild` | fs/ext4.c:247-258 | A node with one entry holds what the block it names holds |
| `Ext4Cases.TwoLevels` | fs/ext4.c:226-259 | On a tree of two levels given byte by byte the search finds the block through the index entry, and a hole |
| `Ext4Tree.ScanExact` | fs/ext4.c:215-221 | For every list of extents and every block: the scan equals lookup if and only if the block is in a hole or its extent ends below 2 to the 32nd |
| `Ext4Files.SearchExact` | fs/ext4.c:211-259 | The search of a tree equals lookup in its extents at every block number if and only if no extent ends at or past 2 to the 32nd |
| `Ext4Cases.LastBlockMissed` | fs/ext4.c:216-216 | A tree with one extent for block 0xFFFFFFFF, which the search does not find |
| `Ext4Tree.DescendFrom` | fs/ext4.c:234-245 | Only the last index entry whose key is at most the block can hold it: searching that child is searching the node |
| `Ext4Tree.FindNone` | fs/ext4.c:215-223 | Lookup fails exactly when no extent covers the block |
| `Ext4Tree.FlatInRange` | fs/ext4.c:226-259 | Every leaf extent lies in the key range its ancestors give it |
| `Ext4Files.AppendDecodes` | fs/ext4.c:276-285 | The 12 bytes stored at the end of the inline leaf decode to the new extent, and the others decode as before |
| `Ext4Files.AppendMaps` | fs/ext4.c:263-291 | Appending an extent for an unmapped file block maps that block and changes no other mapping; extents stay disjoint |
| `Ext4Files.FindRun` | fs/ext4.c:217-218 | The returned length is right: the rest of the extent maps the following file blocks in order |
| `Ext4Files.TreeFrame` | fs/ext4.c:245-255 | A tree depends on the device only through its node blocks |
| `Ext4Files.MappedInv` | fs/ext4.c:263-291 | Mapping a free block keeps every node and data block of every file marked, the data blocks pairwise distinct, and no data block a node |
| `Ext4IO.TakeBlock` | fs/ext4.c:408-424 | The lowest free block for an unmapped file block, recorded as an extent; none exactly when the volume or the leaf was full, and then every mark and tree is as before |
| `Ext4IO.FindExtent` | fs/ext4.c:403-424 | The extent of a file block, found or made, with everything the write has done so far kept; none only at a hole |
| `Ext4IO.GaveBack` | fs/ext4.c:410-417 | A block allocated and returned leaves all bitmaps' marks and all trees as they were |
| `Ext4IO.WriteRun` | fs/ext4.c:429-455 | Writing through an extent stores exactly the bytes that fit it |
| `Ext4IO.WriteStep` | fs/ext4.c:403-460 | One turn of the outer loop extends what the write has done, or stops at a hole on a full volume or a full leaf |
| `Ext4IO.WriteExtent` | fs/ext4.c:374-471 | For every offset and buffer: the volume stays sound, the stored prefix is in place, the size is updated, it stops short only at a hole when the volume or the inline leaf is full, and if only one block of the range is a hole it is complete exactly when there was a block and an extent for it, the lowest free block |
| `Ext4IO.FileAfterWrite` | fs/ext4.c:374-471 | The range holds the data, mapped bytes outside it are kept, untouched holes still read as zero, and bytes of a fresh block outside the range are what the device held |
| `Ext4IO.BlankFreeKeeps` | fs/ext4.c:435-448 | If the free blocks of the volume hold zeros before a write, no byte outside the range written changes |
| `Ext4IO.ExposesExactly` | fs/ext4.c:435-448 | A write into part of one hole changes no other byte of the file if and only if the lowest free block before the write holds zeros around that part |
| `Ext4Cases.ShortWriteExposes` | fs/ext4.c:435-448 | A sound volume on which a byte reads 0, one byte elsewhere in its block is written, and the byte then reads 9 |
| `Ext4IO.OtherFilesAfterWrite` | fs/ext4.c:374-471 | No byte of any other file changes |
| `Ext4IO.ReadExtent` | fs/ext4.c:295-372 | Delivers exactly the file's bytes, zeros in holes, cut at the end of the file; fails only without the extent magic |
| `Ext4IO.ReadRun` | fs/ext4.c:348-363 | The inner read loop delivers the bytes of an extent's blocks in order |
| `Ext4IO.WriteThenRead` | fs/ext4.c:295-471 | Reading back the n bytes a write reported gives exactly those bytes |
| `Ext4Fs.Ext4.WriteData` | fs/ext4.c:374-471 | Through the inode table: -1 for an unknown inode, otherwise the write's whole effect, the new size, every other inode unchanged, and the count as a signed 32-bit value |
| `Ext4Fs.Ext4.ReadData` | fs/ext4.c:295-372 | Through the inode table: the bytes of the file from the offset on, cut at its end, and their count as a signed 32-bit value; fails exactly for an unknown inode or, before the end, one without the extent magic |
| `Ext4Fs.AfterWrite` | fs/ext4.c:374-471 | At every byte of every file a write acts as an assignment to a range of an array of its own |
| `Ext4Fs.Perform` | fs/ext4.c:295-471 | Each operation keeps the volume sound and refines one step of the array model at every byte of every file |
| `Ext4Fs.Run` | fs/ext4.c:295-471 | Over every sequence of writes and reads on any number of files, each byte that was mapped in the beginning or written since is the one last written, and every read delivered exactly those |
| `Directory.Concat` | fs/ext4.c:496-507 | Record chains compose: whole records followed by a chain are a chain, and their entries follow each other |
| `Directory.Lookup` | fs/ext4.c:495-511 | Finds exactly the names in the table and returns the table's inode; -1 for every other name |
| `Directory.AddEntry` | fs/ext4.c:530-575 | The new entry, its inode and file type with it, appears in the chain exactly when some record had room or the records cover the buffer; the chain still tiles if it did; a block is appended exactly when no record had room |
| `Directory.SplitFirst` | fs/ext2.c:533-545 | Splitting a record's slack keeps its entry, adds one right behind it, and keeps the tiling |
| `Directory.AppendBlock` | fs/ext4.c:563-572 | An appended block's record is reached exactly when the old records cover the old buffer |
| `Directory.Unlink` | fs/ext4.c:593-620 | -1 exactly for absent names; otherwise the first record of the name is zeroed and its length added to its predecessor's: while the sum fits 16 bits exactly that entry is dropped and chain and tiling are kept; past that, both when exactly that entry goes and when the records still tile are given exactly, by the bytes before |
| `Directory.MergeFirst` | fs/ext2.c:633-639 | A record that swallows its successor keeps its own entry and the tiling |
| `Directory.MergedBound` | fs/ext4.c:604-607 | Merged lengths never exceed the directory: under 64 KiB they always fit |
| `Directory.OverflowNames` | fs/ext2.c:633-639 | When the two lengths add up to 64 KiB or more, exactly the unlinked entry goes if and only if the stored length is 0, the record before is unused and nothing follows, or the record before still holds its name and the old bytes from its new end on chain exactly the entries that follow |
| `Directory.OverflowExact` | fs/ext2.c:633-639 | When the two lengths add up to 64 KiB or more, the records cover the directory afterwards if and only if the shortened record still holds its name and whole records start at its new end |
| `Directory.UnlinkLosesTheOther` | fs/ext2.c:616-652 | For any two names in records of 32 KiB: the first is found, unlinking the second reports success, and then the first is not found |
| `Directory.AddedTable` | fs/ext4.c:514-579 | Adding an absent name changes the name table in that name only and keeps names unique |
| `Directory.DroppedTable` | fs/ext2.c:616-652 | Unlinking removes exactly that name from the table if and only if no later record carries it too; always so with unique names |
| `Directory.AddThenUnlink` | fs/ext4.c:514-621 | Adding an absent name and unlinking it gives back the same table |
| `Ext2Dir.LookupOp` | fs/ext2.c:471-503 | Through the file layer: finds exactly the names on disk; -1 for a missing directory or name |
| `Ext2Dir.UnlinkOp` | fs/ext2.c:616-652 | Through the file layer, whenever the merged length fits 16 bits: the name is gone from the directory on disk, every other name and every byte of every other file is unchanged, the records cover the directory if they did, the volume stays sound; -1 exactly for absent names, writing nothing |
| `Ext2Dir.CreateOp` | fs/ext2.c:505-566 | Through the file layer, for an absent name: always 0, and the name is in the directory afterwards if and only if some record had room; every other name and every byte of every other file is unchanged, the records cover the directory if they did, the volume stays sound |
| `Ext2Dir.WriteLonger` | fs/ext2.c:551-565 | The append path: a longer directory written through a copy of the inode that is then dropped leaves the directory with the bytes it had |
| `Ext2Cases.CreateLosesName` | fs/ext2.c:505-566 | A sound volume with a crowded directory on which creating a file reports success and the name is not found afterwards |
| `Ext2Dir.WriteBack` | fs/ext2.c:543-543 | Rewriting a fully mapped directory stores all of it, allocates nothing and leaves the inode in the table right although it is not written back |
| `Ext4Dir.LookupOp` | fs/ext4.c:475-512 | Finds exactly the names on disk |
| `Ext4Dir.AddOp` | fs/ext4.c:514-579 | For an absent name: always 0, and the name is in the directory afterwards if and only if some record had room, or the block behind the end was mapped already, or the volume had a free block and the leaf room for an extent; otherwise the names are as before; other files are unchanged |
| `Ext4Dir.GrowsExactly` | fs/ext4.c:408-417 | A rewrite that needs one block more completes if and only if that block was mapped already or could be had |
| `Ext4Cases.AddFailsSilently` | fs/ext4.c:514-579 | A full volume with a crowded directory on which adding a name reports success and the name is not found afterwards |
| `Ext4Dir.UnlinkOp` | fs/ext4.c:581-621 | Whenever the merged length fits 16 bits: the name, and only it, is gone from the directory on disk; other files are unchanged; -1 exactly for absent names, writing nothing |
| `Ext4Dir.StopsAtEnd` | fs/ext4.c:408-417 | A rewrite that needs one block more than the directory has either completes or stops exactly at the old end |
| `Calc.RunsToValue` | apps/calc.c:126-184 | Shunting-yard preserves meaning: running the tokens of a tree and reducing leaves the tree's value on the number stack and the operators that were there before |
| `Calc.ReduceTwice` | apps/calc.c:170-172 | Reducing down to one precedence and then a lower one is reducing to the lower one |
| `Calc.StepKeeps` | apps/calc.c:136-175 | Every accepted token keeps the stack discipline: precedence rises strictly between parentheses and the numbers are exactly those the operators will need |
| `Calc.RunDisciplined` | apps/calc.c:133-180 | The discipline holds after every prefix of every accepted token sequence |
| `Calc.StackBound` | apps/calc.c:19-54 | At nesting depth d a disciplined operator stack holds at most 4 d + 3 and the number stack at most 3 d + 4 entries |
| `Calc.EvaluationBound` | apps/calc.c:126-184 | At every point of evaluating any expression of depth d the stacks stay within those bounds, whatever its length |
| `Calc.SixtyFourIsEnough` | apps/calc.c:19-23 | The 64-entry operator stack suffices for every expression of depth d if and only if d is at most 15 |
| `CalcScan.ParseNumber` | apps/calc.c:91-113 | Reads the longest numeral and returns its decimal value |
| `CalcScan.Compute` | apps/calc.c:63-87 | The switch computes the operator, with its two power loops and its division by zero |
| `CalcScan.Calculator.ApplyOp` | apps/calc.c:64-89 | Applies the top operator to the top two numbers |
| `CalcScan.Calculator.ReduceTo` | apps/calc.c:170-172 | The reduction loop never lacks a number and ends with exactly the reduced stacks |
| `CalcScan.Calculator.Take` | apps/calc.c:136-175 | One turn of the scan takes exactly one token |
| `CalcScan.Calculator.ParseExpression` | apps/calc.c:126-184 | For every sum of products of powers of depth at most 15, spelt with blanks anywhere between tokens, returns its value, each level worked out from left to right, and leaves one number and no operator; no stack index is out of range |
| `CalcGrammar.WfExactly` | apps/calc.c:56-62 | The trees the evaluator is proved for are exactly those of the grammar with its three levels and their operators written out, each level to the left |
| `CalcGrammar.SumTrees` | apps/calc.c:56-89 | The grammar's trees have the grammar's tokens and evaluate to the values its arithmetic gives |
| `CalcGrammar.SumIsTotal` | apps/calc.c:71-72 | A sum comes to the total of its terms, each with its sign |
| `CalcGrammar.ApplyLaws` | apps/calc.c:64-89 | Subtraction undoes addition, division undoes multiplication by anything but zero, each the other way round too; dividing by zero gives zero |
| `CalcGrammar.PowerExact` | apps/calc.c:75-86 | The two power loops give the power for every integer exponent, negative ones included; a negative power of zero is zero |
| `CalcGrammar.PowersAdd` | apps/calc.c:75-86 | Powers of one base add their exponents |
| `CalcGrammar.TruncateExact` | apps/calc.c:77-77 | The exponent is the integer next to the number on the side of zero |
| `CalcGrammar.NumeralLaws` | apps/calc.c:91-113 | Numerals are decimal: a further digit makes ten times as much and adds itself, a point one place further right makes ten times as much, a point at the end nothing |
| `CalcGrammar.TenDigits` | apps/calc.c:97-107 | The digits are the ten, each worth its place |
| `CalcScan.KnownAnswers` | apps/calc.c:126-184 | 8-2*3 is 2 and 2^3^2 is 64 |
| `CalcScan.BlanksSkipped` | apps/calc.c:134-134 | A space or a tab between tokens changes nothing |
| `CountedAlloc.Allocator.FindFirstClear` | fs/ext2_write.c:147-152 | The first clear bit, or -1 exactly when all are set |
| `CountedAlloc.Allocator.Alloc` | fs/ext2_write.c:193-215 | Takes the lowest free number and keeps every count exact, or changes nothing exactly when the superblock count is 0, and then everything is taken; the result is negative exactly then or when the number, which is taken all the same, is 2 to the 31st or more |
| `CountedAlloc.Allocator.Free` | fs/ext2_write.c:217-234 | -1 outside the groups; otherwise the item is free, and the counts stay exact if and only if it was taken |
| `CountedAlloc.FlipExact` | fs/ext2_write.c:252-290 | Marking an item keeps every group count and the total exact if and only if its mark changes |
| `CountedAlloc.FirstIsLowest` | fs/ext2_write.c:195-213 | The first clear bit of the first group with a nonzero count is the lowest free number |
| `CountedAlloc.NoneFree` | fs/ext2_write.c:197-197 | If every group count is 0 nothing is free |
| `CountedAlloc.SameBits` | fs/ext2_write.c:136-145 | Bitmaps with the same bits are the same bytes |
| `CountedAlloc.SameState` | fs/ext2_write.c:136-234 | Two exact states that agree on what is taken are equal, counts and bitmaps |
| `CountedAlloc.AllocMany` | fs/ext2_write.c:236-246 | Succeeds exactly when that many items below 2 to the 31st are free; the items are distinct and were free; a failure restores every bitmap and count, unless an item from 2 to the 31st on was free, and then exactly one such item stays taken |
| `CountedAlloc.FreeMany` | fs/ext2_write.c:248-250 | Giving back what was taken restores every bitmap and count; giving back some of it leaves exactly the rest taken |
| `Dcache.Unlink` | fs/dcache.c:25-32 | The circular list without that entry, whose own links become null |
| `Dcache.LinkFront` | fs/dcache.c:35-40 | The circular list with that entry first |
| `Dcache.Dcache.constructor` | fs/dcache.c:57-68 | The empty list |
| `Dcache.Dcache.LinkedExactly` | fs/dcache.c:49-51 | The link test tells exactly the entries of the list |
| `Dcache.Dcache.Touch` | fs/dcache.c:43-46 | The entry is first, the others keep their order, and the list stays in order of last use |
| `Dcache.Dcache.Get` | fs/dcache.c:147-166 | As used, with one more reference |
| `Dcache.Dcache.Put` | fs/dcache.c:168-179 | One reference fewer, never below zero; the list is left alone |
| `Dcache.Dcache.Remove` | fs/dcache.c:132-145 | The list without that entry; counted as an invalidation exactly if it was linked |
| `Dcache.Dcache.Reclaim` | fs/dcache.c:181-208 | Unlinks min(k, unreferenced) entries: everything unreferenced behind some point of the list goes, all else stays in order, and the count is the list's length |
| `Dcache.OldestGo` | fs/dcache.c:191-202 | Every entry that goes is unreferenced and was last used before every unreferenced entry that stays |
| `Dcache.Dcache.Add` | fs/dcache.c:105-130 | Used now; afterwards at most 1024 entries remain or every remaining one is referenced |
| `Keyboard.PushKeeps` | drivers/keyboard.c:140-145 | A push at any moment keeps the ring invariant, the reader's half-copied event included |
| `Keyboard.AdvanceKeeps` | drivers/keyboard.c:253-254 | Advancing delivers the oldest pending event, whole |
| `Keyboard.RunKeeps` | drivers/keyboard.c:214-256 | The invariant holds after every interleaving |
| `Keyboard.InOrder` | drivers/keyboard.c:214-256 | In every interleaving accepted events are delivered once, whole and in order, and at most 255 wait |
| `Keyboard.DropsOnlyWhenFull` | drivers/keyboard.c:140-145 | In every reachable state an event is dropped exactly when 255 are waiting, and a push never touches the slot being copied |
| `Keyboard.ReadIsAtomic` | drivers/keyboard.c:249-256 | Whatever is pushed meanwhile, a read under way returns the oldest event waiting when it tested |
| `Keyboard.Ring.Store` | drivers/keyboard.c:214-220 | Appends the event exactly when fewer than 255 wait, and says so |
| `Keyboard.Ring.GetEvent` | drivers/keyboard.c:249-256 | Takes the oldest event, or reports none, as the uninterrupted run of the reader's steps |
| `Calendar.NextCounts` | drivers/rtc.c:80-96 | The day count rises by one from each calendar day to the next |
| `Calendar.NthCounts` | drivers/rtc.c:80-96 | The n-th day after the epoch has count n |
| `Calendar.CountIsPosition` | drivers/rtc.c:80-96 | Every valid date from 1970 on is the day its count says |
| `Calendar.CountRises` | drivers/rtc.c:80-96 | Later dates have larger counts |
| `Calendar.SecondsRise` | drivers/rtc.c:98-98 | Later moments have larger timestamps |
| `Calendar.FitsExactly` | drivers/rtc.c:98-98 | The timestamp fits 32 bits exactly up to 2106-02-07 06:28:15 |
| `Calendar.YearDays` | drivers/rtc.c:82-87 | The year loop sums the days of the years since 1970 |
| `Calendar.MonthDays` | drivers/rtc.c:89-94 | The month loop with its table sums the days of the months before |
| `Calendar.Timestamp` | drivers/rtc.c:75-99 | The two loops compute the seconds since the epoch modulo 2 to the 32nd, exactly up to that moment |
| `Calendar.YearClosed` | drivers/rtc.c:82-87 | The year loop in closed form |
| `Calendar.WeekdayAgrees` | apps/date_app.c:18-23 | The weekday formula equals (days + 4) mod 7 for every valid date from 1970 on |
| `Calendar.WeekdayAdvances` | apps/date_app.c:18-23 | The weekday advances by one, modulo seven, from each day to the next |
| `LineScan.Grep` | apps/grep_app.c:21-50 | However the reads are split, prints exactly the lines it sees that contain the pattern, in order; status 0 exactly if there are any |
| `LineScan.ContainsExactly` | apps/grep_app.c:32-32 | A line contains the pattern if and only if it is something, the pattern, and something |
| `LineScan.GrepLines` | apps/grep_app.c:27-37 | The inner loop completes exactly the lines that end in the buffer |
| `LineScan.Head` | apps/head_app.c:34-59 | However the reads are split, prints exactly the first n lines it sees |
| `LineScan.HeadLines` | apps/head_app.c:40-48 | The inner loop prints completed lines until n are printed |
| `LineScan.SeenExactly` | apps/grep_app.c:25-47 | The lines seen are the file's lines if and only if every line has at most 254 characters, the last at most 255 |
| `LineScan.FirstExactly` | apps/head_app.c:38-57 | The first n lines seen are the first n lines of the file if and only if each of those has at most 254 characters, or 255 when it is the n-th or the last |
| `LineScan.LinesWhole` | apps/head_app.c:38-53 | Splitting into lines loses nothing: no line holds a newline, and the lines with their newlines are the file |
| `LineScan.File.Read` | apps/grep_app.c:25-25 | Some of what is left, at least one byte if there is one and room for it |
| `LineScan.ShiftDown` | apps/grep_app.c:38-40 | The unfinished line moves to the front unchanged |
| `Sound.StoreLoad` | audio/sound.c:1273-1300 | A value that fits n bytes is read back from its low n bytes |
| `Sound.SameFormat` | audio/sound.c:1216-1303 | Reading a sample and storing it in its own format gives the same bytes |
| `Sound.Widened` | audio/sound.c:1216-1303 | A sample's value survives every format at least as wide |
| `Sound.SurvivesExactly` | audio/sound.c:1216-1303 | Every sample of a format survives a trip through another if and only if the other is at least as wide |
| `Sound.FramesSize` | audio/sound.c:1154-1157 | The returned size is whole frames times the size of a frame |
| `Sound.FrameBack` | audio/sound.c:1212-1303 | One frame through a format at least as wide, and mono through stereo, comes back |
| `Sound.FoldsBetween` | audio/sound.c:1163-1187 | Folding stereo into mono, in a format at least as wide and where the converter writes at all, gives the average of the two channels up to rounding |
| `Sound.FoldExact` | audio/sound.c:1254-1257 | Folding 32-bit stereo into 16- or 24-bit mono gives the average if and only if the sum of the two samples fits 32 bits or is even |
| `Sound.RoundTrip` | audio/sound.c:1129-1306 | Any whole number of frames converted to a format at least as wide, optionally mono to stereo, and back is the original bytes |
| `Sound.Convert` | audio/sound.c:1129-1306 | Fills the destination with exactly the converted frames and nothing beyond; without folding, each sample of each frame is the source's sample of that frame and channel, the only one for both if the source is mono, in the other format; between channel counts of S24 or S32 it reports a size but writes nothing |
| `Sound.FrameSample` | audio/sound.c:1212-1303 | Left comes from left and right from right, both from the only one of a mono frame |
| `Sound.ChannelsKept` | audio/sound.c:1212-1303 | Every conversion that does not fold keeps every sample in its frame and its channel |
| `Sound.SamplesKept` | audio/sound.c:1212-1303 | In a format at least as wide each sample of the result has the value of the source's sample behind it |
| `Sound.LeftRight` | audio/sound.c:1218-1274 | The bytes 0 and 255, left and right, become 00 80 and 00 7F in 16 bits |
| `Sound.ConvertFrames` | audio/sound.c:1212-1303 | The frame loop stores exactly the converted frames, in order |

## Left out

- Journalling (`fs/ext4_journal.c`, and jbd2 in `fs/ext2_write.c`): the writer and the replayer disagree about where the descriptor and the commit block are, so crash atomicity is not a property of this code.
- Directory operations of `fs/ext2_write.c`: their entry sizes do not tile the block.
- `ext2_mkdir_op`: two directory writes in the way of `ext2_create`. The new inode of `ext2_create` itself is a parameter.
- `ext4_vfs_mkdir`: its data block is overwritten by the extent header.
- rename, link, symlink, rmdir, chmod and the other wrappers of the two file systems: compositions of the operations modelled here.
- `cache_set_max_entries`: its loop counts evictions that may not happen.
- `cache_insert` on a block that is already cached: no caller does this, and it would give the block two entries.
- `dcache_lookup`: walks sibling links of the directory tree, then does what `Touch` does.
- Scancode translation, modifier keys, semaphores and port I/O of the keyboard driver; register reads and BCD decoding of the clock.
- `double_to_str`, decimal rounding, unary minus before a parenthesis and malformed input of the calculator.
- Resampling, voice mixing and device handling of the sound layer.
- Hardware drivers, memory management, scheduling, shells and user interface.
- Ext4Fs.Run: writes and reads; ext4 has no truncation.
- Ext2Dir.CreateOp: for a name not in the directory, since the code does not look for it.
- Ext2Dir.UnlinkOp: for a name whose record and the one before it stay under 64 KiB together, as `Directory.Unlink` says what happens otherwise.
- Ext4Dir.UnlinkOp: the same.
- Ext2Dir.LookupOp: does not model the test of the inode's type bits.
- Ext4Dir.AddOp: for a volume whose directory can still grow by a block below 4 GiB; the target inode is a parameter.
- Sound.FoldExact: for 16- and 24-bit destinations; in 8 bits the difference of one may not show.
- Cache.Cache.StampsExact: that access times fall in order only between two wraps is claimed for uses within 2^32 ticks of each other; further apart they can fall in order by chance.
- LineScan.Grep: files without NUL characters, since the C string functions stop at one; reads do not fail.
- LineScan.Head: the same; n is positive, as the argument parsing makes it.
- Sound.Convert: one or two channels.
- Dcache.Dcache.Get: the 32-bit reference count does not wrap.
- CountedAlloc.Allocator.Free: the 32-bit total does not wrap.
- Keyboard.InOrder: one reader; a push is one step, as both pushers run with interrupts off.
