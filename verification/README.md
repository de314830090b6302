# PodumatOS storage, memory and USB rings: a verified model

This project models the parts of the PodumatOS kernel in which state is hardest to keep straight, and proves what
they keep. Code that changes state in place is modelled in place: classes with the kernel's own fields, arrays for
disk blocks and rings, loops where the kernel has loops. Beside each stands a pure view (a tree of names, a list of
regions, a queue, a translation), and every operation is proved to do to the view what it should and nothing else.

- **ext2** (`Ext2*.dfy`). `Ext2Tree` is the block map as a tree of paths, `Ext2Meta` the bookkeeping (superblock,
  descriptors, bitmaps, and the role of every block in use), `Ext2Steps`, `Ext2Frames` and `Ext2Grow` the effect of
  one step on it, `Ext2Space` how many blocks a file takes. `Ext2Volume` holds the allocators, `Ext2Files` the block
  map, `Ext2Data` file contents, `Ext2Records`, `Ext2Names`, `Ext2DirFacts` and `Ext2Dirs` directories, `Ext2Paths`
  paths, `Ext2Trees` what a call does to the tree of names, `Ext2State` what inodes store, `Ext2Api` the calls, and
  `Ext2Layout`, `Ext2Fresh` and `Ext2Format` formatting. The invariant is `Ext2Api.FileSystem.Good`; what a volume
  means is the tree `Contents()`.
- **FAT32** (`Fat32*.dfy`). `Fat32Table` is the FAT and its chains, `Fat32Dir` sectors of chains and directory entries,
  `Fat32Names` the 8.3 names, `Fat32State` and `Fat32Steps` what a volume holds and what a step does to it,
  `Fat32Volume` the operations on the FAT, `Fat32Files` the file operations, `Fat32Layout` and `Fat32Format` sizing
  and formatting. The invariant is `Fat32Files.FatFiles.Sound`.
- **Kernel heap** over the **page allocator** (`Heap*.dfy`, `Phys.dfy`). The headers in memory spell out a layout of
  regions and blocks; the invariant is `Heap.Heap.Valid`.
- **xHCI rings** (`Xhci*.dfy`). The driver and the controller are two parties of a state machine, each store and each
  read a step of its own; `XhciDriver` and `XhciEvents.EventRing` are the driver's code, proved to take those steps.
- **Page-table mapping** of the xHCI registers (`PageTables.dfy`, `PageMapper.dfy`), against an independent walk.
- **Fixed-point numbers** of the shell (`FixedPoint.dfy`).

Where the code and its purpose disagree, the code is modelled and the model says exactly where they part:

- A FAT32 name that begins with byte 0xE5 is written but cannot be found again, since 0xE5 marks a deleted entry;
  `write_file` reports success all the same. It is read back exactly when the name does not begin so.
- FAT32 `write_file` loses the old file even when there is no room for the new one.
- After one slash was skipped, FAT32 `write_file` of a name that still begins with a slash calls `delete_file`, which
  skips another: where the two short names differ it marks a different entry, and the one whose chain was freed stays.
  With "//X" it is "X" that goes. FAT32 `delete_file` frees no cluster.
- ext2 `create_dir` does not test that the parent is a directory: "a/x" with a file "a" goes on. ext2 `format` writes
  an inode table past the end of a partition whose last group is too short, 16388 sectors for example.
- ext2 `write_file` skips a leading slash and starts in the current directory; `read_file` starts in the root. What is
  written under a path is what the path leads to afterwards exactly if the walk that `read_file` takes looks, at its
  end, for the same name in the same directory (`Ext2Trees.ReadsBack`). With a front of at most 255 bytes and a last
  name of at most 64 that is so without a leading slash, and with one exactly when the front leads from the root to
  where it leads from the current directory: from a directory directly below the root "/../x" does,
  and "/x" does not. Any other
  path leads where it led before.
- ext2 `free_block` and `free_inode` do not look whether the bit was set. The counts and roles agree afterwards exactly
  if the block was taken and had no role, or the inode was taken and not reserved; `free_inode` ignores the first ten.
- The sizing loop of FAT32 `format` need not settle in eight rounds, at 2111 sectors for example; the FAT is large
  enough nevertheless. From 0x803F_FFD8 sectors on (a little over one tebibyte), and only from there, the number of
  the last cluster is one that the code takes for the end of a chain.
- `ring_enqueue` does not look whether the controller has read the slot it writes. The rings are queues exactly as
  long as calls are made when `XhciRing.Safe` holds; a call at another time leaves the controller waiting, or makes
  it read a TRB half old and half new.

`dafny verify dfyconfig.toml` checks the whole project.

## Model

| member | source | states |
|---|---|---|
| Ext2Api.FileSystem.WriteFile | kernel/src/fs/ext2.cpp:665-729 | over the whole tree: done means one new file under the name, or new bytes in the old one, and nothing else differs; refused means nothing differs; it is done when the parent is a directory and there is room: for a new name an inode and blocks for data, index and directory, for an old file only blocks, counting those it gives back; and it takes no more than that |
| Ext2Api.FileSystem.ReadFile | kernel/src/fs/ext2.cpp:637-663 | succeeds exactly when the path leads to a file, and then delivers its bytes and size; goes on with a file as a directory exactly when the path asks ".." of one; the tree is unchanged |
| Ext2Api.WriteThenRead | kernel/src/fs/ext2.cpp:637-729 | for every path: afterwards it leads to the file written exactly if it reads back, and then every byte is read back, for any length; otherwise it leads where it led before; every other file, and every path that led somewhere, is as before |
| Ext2Api.FileSystem.CreateDir | kernel/src/fs/ext2.cpp:731-795 | the tree gains an empty directory with its two dots, or is unchanged; it goes on in another way exactly when the parent is a file or asks ".." of one; with a free inode and five free blocks it is done, and it takes no more |
| Ext2Api.FileSystem.DeleteFile | kernel/src/fs/ext2.cpp:797-815 | exactly the name and its file leave the tree, the free counts grow by its blocks and its inode, or the name was not there; the other cases are exactly those of a directory, of a file with index blocks, and of ".." of a file |
| Ext2Api.FileSystem.ResolveRelative | kernel/src/fs/ext2.cpp:554-601 | the loop over components finds the inode that walking the tree of names finds, unless, exactly, the path asks ".." of a file |
| Ext2Api.FileSystem.SplitPath | kernel/src/fs/ext2.cpp:536-552 | the scan splits at the last separator and cuts both parts to their buffers |
| Ext2Api.FileSystem.Up | kernel/src/fs/ext2.cpp:570-593 | ".." read from a directory's first block is the parent its names hold; it is not known exactly for what is no directory |
| Ext2Trees.WrittenIsRead | kernel/src/fs/ext2.cpp:536-729 | in every tree and for every path: after writing, the path leads to the file written if and only if it reads back, and to what it led to before otherwise; other paths lead where they led |
| Ext2Trees.WalkToWritten | kernel/src/fs/ext2.cpp:554-601 | after writing, a walk ends at the file exactly when its last real step looks for the name in the directory written to; any other ends where it did |
| Ext2Trees.ShortPaths | kernel/src/fs/ext2.cpp:536-601 | when such a path reads back: always without a leading slash, and with one exactly when its front leads from the root to where it leads from the current directory |
| Ext2Trees.SlashIsLost | kernel/src/fs/ext2.cpp:536-601 | in a directory directly below the root, "/x" is written and not found again |
| Ext2Trees.SlashIsKept | kernel/src/fs/ext2.cpp:536-601 | in the same directory "/../x" is written and found |
| Ext2Paths.ArrivedCleanly | kernel/src/fs/ext2.cpp:554-601 | a path that leads somewhere asks ".." of directories alone |
| Ext2Trees.ParentIsFile | kernel/src/fs/ext2.cpp:731-743 | with a file "a" in the root, "a/x" names it as the parent of a new directory |
| Ext2Trees.DeleteKeepsWf | kernel/src/fs/ext2.cpp:797-815 | deleting keeps the tree in order, no name leading nowhere, since each file has one name |
| Ext2Paths.ResolveSplit | kernel/src/fs/ext2.cpp:536-601 | resolving a whole path is walking its front and looking up its last name, of which a 64th byte is dropped |
| Ext2Files.Files.GetInodeBlock | kernel/src/fs/ext2.cpp:115-155 | the descent through up to three index blocks finds the block of the map |
| Ext2Files.Files.SetInodeBlock | kernel/src/fs/ext2.cpp:159-247 | the map changes at one index, new index blocks are fresh and zeroed, the nodes stay a tree; it takes at most the index blocks missing on the way and fails only without them |
| Ext2Data.BlockMapUpdated | kernel/src/fs/ext2.cpp:115-247 | after a set, a get returns the new block at that index and the old one at every other, through all four ranges |
| Ext2Tree.PathOfInjective | kernel/src/fs/ext2.cpp:115-155 | two block numbers never share a place in the tree |
| Ext2Tree.TreeAfterStore | kernel/src/fs/ext2.cpp:159-247 | a store at one place keeps every block of the tree with its own place: no sharing |
| Ext2Space.MissingAtMost | kernel/src/fs/ext2.cpp:159-247 | when the block before is there, writing the next one takes at most its first-time index blocks |
| Ext2Space.SmallFiles | kernel/src/fs/ext2.cpp:159-199 | twelve blocks need no index block, the next block-full of pointers one |
| Ext2Volume.Volume.AllocBlock | kernel/src/fs/ext2.cpp:250-275 | returns a block that was free, is inside the volume and is nobody's; bitmap, group and superblock counts stay equal; 0 exactly when the count is 0 |
| Ext2Volume.Volume.FreeBlock | kernel/src/fs/ext2.cpp:277-294 | the bookkeeping agrees afterwards if and only if the block was taken and had no role, or the number stands for none; then that block alone is free and the counts are equal |
| Ext2Volume.Volume.AllocInode | kernel/src/fs/ext2.cpp:296-324 | returns a free inode inside its group's table, above the reserved ones, although the scan covers the whole bitmap block; 0 exactly when the count is 0 |
| Ext2Volume.Volume.FreeInode | kernel/src/fs/ext2.cpp:326-342 | the bookkeeping agrees afterwards if and only if the inode was taken and not reserved, or the number is ignored, as the first ten are; then that inode alone is free and the counts are equal |
| Ext2Volume.Volume.ReadInode | kernel/src/fs/ext2.cpp:82-97 | the inode at its place in its group's table, or a refusal for a number past the end |
| Ext2Volume.Volume.WriteInode | kernel/src/fs/ext2.cpp:99-112 | that inode's slot and no other byte of the disk |
| Ext2Frames.MetaSame | kernel/src/fs/ext2.cpp:40-80 | the bookkeeping depends on the counter blocks alone: writing any other block keeps it |
| Ext2Data.FileData.WriteData | kernel/src/fs/ext2.cpp:698-717 | the blocks of the inode hold the bytes, other inodes are untouched, and with enough free blocks it does not fail |
| Ext2Data.FileData.ReadData | kernel/src/fs/ext2.cpp:646-660 | the buffer takes the bytes of the file, zeros where no block is |
| Ext2Data.FileData.FreeDirect | kernel/src/fs/ext2.cpp:344-349 | the free count grows by exactly the blocks in the direct slots, the slots are cleared, and no other inode is touched |
| Ext2Dirs.Directories.FindDirEntry | kernel/src/fs/ext2.cpp:401-434 | what the directory's map says of the name, 0 for none |
| Ext2Dirs.Directories.AddDirEntry | kernel/src/fs/ext2.cpp:432-495 | the map gains exactly the name, also when the directory grows by a block; every block stays a partition into records; it fails only when fewer than four blocks are free |
| Ext2Dirs.Directories.RemoveDirEntry | kernel/src/fs/ext2.cpp:497-533 | the map loses exactly the name and the blocks stay partitions into records |
| Ext2DirFacts.NameAdded | kernel/src/fs/ext2.cpp:432-477 | a record split or reused for a new name adds one binding to the whole directory's map |
| Ext2DirFacts.NameRemoved | kernel/src/fs/ext2.cpp:497-533 | a record merged into the one before, or blanked, removes one binding |
| Ext2DirFacts.NameAppended | kernel/src/fs/ext2.cpp:480-495 | a new last block with one record adds one binding |
| Ext2Records.SpellsRecs | kernel/src/fs/ext2.cpp:408-428 | walking a block by record lengths reads back exactly the records written into it |
| Ext2Records.Splice | kernel/src/fs/ext2.cpp:432-533 | rewriting the bytes of some records replaces those and keeps all others |
| Ext2Format.Format | kernel/src/fs/ext2.cpp:1042-1274 | refused below 4 MiB; otherwise the disk holds a fresh volume whose superblock, descriptors and bitmaps say what is in use |
| Ext2Format.FormatAndMount | kernel/src/fs/ext2.cpp:604-631 | a formatted and mounted volume satisfies the invariant, holds an empty root directory, and uses exactly the formatted blocks |
| Ext2Format.MountFresh | kernel/src/fs/ext2.cpp:604-631 | `mount` recovers from the superblock the geometry `format` used |
| Ext2Format.FormatStaysInside | kernel/src/fs/ext2.cpp:1042-1274 | every inode table ends inside the partition exactly when the last group holds its own overhead |
| Ext2Format.FormatOverruns | kernel/src/fs/ext2.cpp:1042-1090 | at 16388 sectors the second group's table ends 257 blocks past the partition |
| Ext2Layout.FreshLayoutOk | kernel/src/fs/ext2.cpp:1119-1160 | superblock, descriptors, bitmaps, tables and root block have blocks of their own inside the volume |
| Ext2Fresh.FreshUsed | kernel/src/fs/ext2.cpp:1164-1205 | the bitmaps mark exactly those blocks and the tail past the end |
| Fat32Files.FatFiles.WriteFile | kernel/src/fs/fat32.cpp:295-342 | when it succeeds: exactly when the clusters suffice, counting those of the file replaced; then the name holds the bytes unless it begins with 0xE5; every other name and chain is kept; when it fails for room the old file is gone |
| Fat32Files.FatFiles.ReadFile | kernel/src/fs/fat32.cpp:267-293 | succeeds exactly for a file of the directory, and delivers its bytes and size |
| Fat32Files.FatFiles.WriteThenRead | kernel/src/fs/fat32.cpp:267-342 | what was written is read back, exactly if the path is not the root and the name does not begin with 0xE5 |
| Fat32Files.FatFiles.DeleteFile | kernel/src/fs/fat32.cpp:374-387 | the directory loses exactly that name, every chain is kept, and not one cluster is freed |
| Fat32Files.SecondSlash | kernel/src/fs/fat32.cpp:295-304 | a second slash before a name whose short form it changes: the entry that was found stays, and another of the shorter name goes |
| Fat32Files.SlashX | kernel/src/fs/fat32.cpp:295-304 | so with the path "//X" in a directory that holds "/X" and "X" |
| Fat32Files.FatFiles.FindEntry | kernel/src/fs/fat32.cpp:172-213 | the walk over chain, sectors and entries finds the first entry with the name, and where it is |
| Fat32Files.FatFiles.CreateFileEntry | kernel/src/fs/fat32.cpp:215-252 | the first free slot takes the entry and no other entry changes |
| Fat32Files.FatFiles.WriteChain | kernel/src/fs/fat32.cpp:305-327 | a new chain with the bytes, outside every other chain; fails exactly when the free clusters are fewer than the bytes need |
| Fat32Files.FatFiles.ReadChain | kernel/src/fs/fat32.cpp:279-289 | the buffer takes the first bytes of the chain |
| Fat32Volume.FatVolume.SetCluster | kernel/src/fs/fat32.cpp:77-90 | one entry changes, in both copies, and nothing beyond the FAT |
| Fat32Volume.FatVolume.AllocCluster | kernel/src/fs/fat32.cpp:108-116 | the first free cluster becomes a chain of its own; 0 exactly when none is free |
| Fat32Volume.FatVolume.FreeChain | kernel/src/fs/fat32.cpp:118-124 | ends on every FAT whose links stay in range, cyclic ones included, and frees exactly the clusters met |
| Fat32Table.FollowedChain | kernel/src/fs/fat32.cpp:118-124 | on a well-formed chain the clusters met are that chain |
| Fat32Table.FatAfterSet | kernel/src/fs/fat32.cpp:66-90 | setting an entry changes that entry alone, although 128 share a sector |
| Fat32Dir.FindIs | kernel/src/fs/fat32.cpp:172-213 | in a directory with unique names an entry is found exactly when it is visible and has the name |
| Fat32Dir.Created | kernel/src/fs/fat32.cpp:215-252 | a new entry in the first free slot adds one binding to the directory's map |
| Fat32Dir.Deleted | kernel/src/fs/fat32.cpp:374-387 | marking an entry removes one binding |
| Fat32Dir.ChainsApart | kernel/src/fs/fat32.cpp:62-64 | disjoint chains lie on disjoint sectors |
| Fat32Names.NameTo83 | kernel/src/fs/fat32.cpp:126-154 | the loops make the capital 8.3 form: stem of eight, extension of three, dots apart |
| Fat32Names.NameStart | kernel/src/fs/fat32.cpp:126-154 | only a name that itself begins with 0xE5 is stored as a deleted entry |
| Fat32Names.CaseIgnored | kernel/src/fs/fat32.cpp:126-154 | two names that differ in case are one |
| Fat32Steps.Released | kernel/src/fs/fat32.cpp:299-304 | freeing one chain keeps all others and frees as many clusters as it had |
| Fat32Steps.Grown | kernel/src/fs/fat32.cpp:313-318 | linking a free cluster keeps the chain acyclic, terminated and apart from the others |
| Fat32Layout.Size | kernel/src/fs/fat32.cpp:566-583 | after at most eight rounds the FAT has room for every cluster and all fit the partition, even where the loop does not settle; and the last cluster's number looks like an end exactly from 0x803F_FFD8 sectors on |
| Fat32Layout.Nearer | kernel/src/fs/fat32.cpp:571-581 | one round brings the count 512 times nearer to the right one, but for rounding |
| Fat32Layout.Swings | kernel/src/fs/fat32.cpp:571-581 | at 2111 sectors the loop goes back and forth between two counts |
| Fat32Layout.MountSays | kernel/src/fs/fat32.cpp:24-56 | `mount` computes from the boot sector the geometry and cluster count of `format` |
| Fat32Layout.WhereEndsBegin | kernel/src/fs/fat32.cpp:566-583 | with a FAT sized for a count that near the right one, the last cluster's number looks like an end of chain if and only if the partition has 0x803F_FFD8 sectors or more |
| Fat32Format.FormatAndMount | kernel/src/fs/fat32.cpp:554-673 | on every partition where no cluster number looks like an end, a formatted and mounted volume satisfies the invariant and has an empty root directory |
| Heap.Heap.Kmalloc | kernel/src/mm/heap.cpp:304-338 | a new aligned block disjoint from every live one, no live payload changed, counters right, pages conserved; 0 if and only if the size is 0 or too large, or no gap of any region fits and the page allocator has no run for a new region |
| Heap.Heap.Krealloc | kernel/src/mm/heap.cpp:354-375 | keeps the first min(old, new) bytes and every other payload; growing fails exactly when `kmalloc` would, and then the old block stays; the peak counts old and new block together |
| Heap.Heap.Kfree | kernel/src/mm/heap.cpp:377-406 | exactly that block dies, an emptied region returns its pages, and freeing it again changes nothing while its header is there |
| Heap.Heap.Kcalloc | kernel/src/mm/heap.cpp:340-352 | like `kmalloc`, zeroed; 0 exactly when the product overflows or `kmalloc` of it gives 0 |
| Heap.Heap.Run | kernel/src/mm/heap.cpp:304-406 | over every run of calls on what the client holds: the invariant, what is held is what is live, free pages plus heap pages constant, and back at the start when nothing is held |
| Heap.Heap.NothingLive | kernel/src/mm/heap.cpp:377-406 | without live blocks there are no regions, no bytes and no pages |
| Heap.Heap.PlaceBlock | kernel/src/mm/heap.cpp:162-286 | takes the first gap that fits (front, between, tail), fails exactly when there is none, and keeps the lists linked |
| Heap.Heap.PlaceInNew | kernel/src/mm/heap.cpp:318-336 | placing into a region just made cannot fail: the destroy branch is dead code |
| Heap.Heap.RefreshBestHint | kernel/src/mm/heap.cpp:90-103 | the hint is the region with the most free bytes, the first of several |
| Heap.Heap.UsageHolds | kernel/src/mm/heap.cpp:162-286 | the 32-bit usage of a region never overflows |
| HeapBlocks.LiveBlocksApart | kernel/src/mm/heap.cpp:105-286 | different live blocks never overlap, headers and payloads; every payload is aligned and inside one region, behind the region's header |
| HeapLayout.UsageBelowSize | kernel/src/mm/heap.cpp:105-160 | 48 plus headers and payloads never exceed the region |
| Phys.PhysAllocator.Init | kernel/src/mm/phys.cpp:90-161 | succeeds exactly when there is usable memory and an entry that holds the bitmap above 1 MiB; counts the pages up to the highest usable end; a page is used exactly when it is outside whole usable pages above 1 MiB or holds the bitmap |
| Phys.PhysAllocator.FindFreeRun | kernel/src/mm/phys.cpp:38-66 | a run found is free and inside; failure exactly when no run lies wholly on one side of the hint |
| Phys.PhysAllocator.AllocPages | kernel/src/mm/phys.cpp:172-186 | marks exactly a free run, never page 0, and keeps the counters; 0 exactly when none is asked for, too few are free, or no run lies on one side of the hint |
| Phys.PhysAllocator.FreePages | kernel/src/mm/phys.cpp:192-206 | unmarks exactly the pages of an aligned run, and counts them back when all were marked; other addresses change nothing |
| XhciRing.RunIsFifo | kernel/src/drivers/usb/xhci.cpp:439-467 | over every run of single stores and reads, any number of wraps: what the controller has read is the beginning of what was handed over, in order, once, whole |
| XhciRing.StepRefinesFifo | kernel/src/drivers/usb/xhci.cpp:446-467 | each step leaves the queue, appends the item just published, or takes the first |
| XhciRing.Progress | kernel/src/drivers/usb/xhci.cpp:446-467 | nothing published is ever out of reach of the controller |
| XhciRing.SafeExactly | kernel/src/drivers/usb/xhci.cpp:446-467 | with the controller between TRBs, a call leaves it able to go on exactly when it was safe |
| XhciRing.TornExactly | kernel/src/drivers/usb/xhci.cpp:446-467 | with the controller inside a TRB, it reads its item whole if a slot was free and words of two items if none was |
| XhciRing.LinkReadWhole | kernel/src/drivers/usb/xhci.cpp:446-467 | with the controller inside the Link, no call disturbs it |
| XhciRing.TornHappens | kernel/src/drivers/usb/xhci.cpp:446-467 | 255 safe calls, one read and one call more lead there |
| XhciRing.ParkedHappens | kernel/src/drivers/usb/xhci.cpp:446-467 | 255 calls, 255 TRBs read and 254 safe calls more lead to a state where a call is unsafe with one slot free: the controller stands on the Link |
| XhciRing.FewIsSafe | kernel/src/drivers/usb/xhci.cpp:446-467 | fewer than 255 outstanding is always safe |
| XhciRing.EnqueueKeeps | kernel/src/drivers/usb/xhci.cpp:446-467 | a whole safe call publishes its item and keeps the invariant |
| XhciDriver.TrbRing.Enqueue | kernel/src/drivers/usb/xhci.cpp:446-467 | the code's stores, index and cycle are those of the machine |
| XhciEvents.RunIsFifo | kernel/src/drivers/usb/xhci.cpp:475-494 | over every run in which the controller respects the dequeue pointer, events are neither lost, repeated nor reordered |
| XhciEvents.EventRing.PollEvent | kernel/src/drivers/usb/xhci.cpp:475-494 | succeeds exactly when an event is there, and delivers the next one |
| PageMapper.Mapper.MapMmio | kernel/src/drivers/usb/xhci.cpp:117-128 | success: every page of the window is mapped, those not mapped before to their own physical pages; always: what was mapped is mapped as before, and nothing outside the window changes; failure: no frame is left and one was needed |
| PageMapper.Mapper.MapOnePage | kernel/src/drivers/usb/xhci.cpp:106-116 | succeeds exactly when no entry on the way is large and the frames suffice; then that page, and no other, translates to the address given |
| PageMapper.Mapper.NextTable | kernel/src/drivers/usb/xhci.cpp:80-92 | the table below an entry, made fresh and zeroed where there was none; fails exactly at a large entry or without a frame |
| PageTables.MappedExactly | kernel/src/drivers/usb/xhci.cpp:93-105 | the test for a mapped page agrees with an independent walk, but for a top entry with the large bit |
| PageTables.LinkedWalk | kernel/src/drivers/usb/xhci.cpp:80-92 | linking an empty table changes no translation |
| PageTables.StoredWalk | kernel/src/drivers/usb/xhci.cpp:106-116 | storing a leaf changes the translation of its page alone |
| PageTables.StoredTree | kernel/src/drivers/usb/xhci.cpp:106-116 | and keeps the tables a tree |
| PageTables.PathIsPage | kernel/src/drivers/usb/xhci.cpp:106-110 | the four indices of an address determine its page |
| FixedPoint.SimpleAtof | kernel/src/shell/commands.cpp:83-112 | the loops compute the value of sign, capped digit run and four fraction digits, every 64-bit step in range |
| FixedPoint.PrintFixed | kernel/src/shell/commands.cpp:129-155 | the loops write sign, decimal integer part and fraction without trailing zeros, for every value whose negation is defined |
| FixedPoint.RoundTrip | kernel/src/shell/commands.cpp:83-155 | parsing the printed text gives the value back exactly when its integer part is at most 10^11 in magnitude |
| FixedPoint.ReparseIsStable | kernel/src/shell/commands.cpp:83-155 | for every string, printing the parsed value and parsing that text gives the same value |

## Left out

- Ext2Api.FileSystem.WriteFile: a file with index blocks is not overwritten, and a new file with index blocks is not
  given up after the disk filled, because `free_inode_blocks` loops over a buffer that `free_block` overwrites
  (kernel/src/fs/ext2.cpp:350-354, 66); these end as `Beyond`. When an overwrite runs out of blocks the old bytes are
  already gone (ext2.cpp:683-688): `Beyond` as well.
- Ext2Api.FileSystem.DeleteFile: files with index blocks, names that lead to directories, and the dots end as
  `Beyond`; the condition is stated.
- Ext2Api.FileSystem.CreateDir: with a file as parent it ends as `Beyond`; the condition is stated.
- Ext2Api.FileSystem.ReadFile: a path that asks ".." of a file ends as `Beyond`, where the kernel reads the file's
  bytes as a directory; the condition is stated, here and in every call that resolves a path.
- Ext2Api.FileSystem.ResolveRelative: the same paths.
- Ext2Dirs.Directories.RemoveDirEntry: not for "." and "..", which the kernel would remove, leaving a directory
  without a parent.
- Ext2Format.Format: partitions of 4 GiB and more are not modelled, where the 32-bit byte count of the kernel wraps,
  nor those whose last group does not hold its overhead, where it writes past the end.
- Ext2Format.FormatAndMount: the same partitions.
- Fat32Files.FatFiles.WriteFile: growing a directory is not modelled (`Beyond`, condition stated), since the new
  cluster is not cleared (kernel/src/fs/fat32.cpp:253-259); nor is replacing one of the dot entries, or an entry
  behind a second slash.
- Fat32Files.FatFiles.CreateFileEntry: a full directory is refused for the same reason.
- Fat32Format.FormatAndMount: not for partitions of 0x803F_FFD8 sectors and more, where chains through the last
  clusters are cut short.
- Fat32Layout.MountSays: boot sectors with other than two FATs, a zero cluster size, or fewer sectors than the FATs
  take are not mounted; the kernel does not test them.
- Heap.Heap.Kfree: only null, live pointers and headers still in place; memory is typed, so a header overwritten by a
  payload is not read back as bytes.
- Phys.PhysAllocator.FreePages: reserved pages are not freed while the invariant is asked for.
- PageMapper.Mapper.MapMmio: addresses stay within 52 physical and 48 virtual bits, and tables are reached through a
  page-aligned direct map.
- XhciRing.RunIsFifo: the controller is one that follows the specification; doorbells, transfers and timeouts are not
  part of this model.
- FAT32 `cd`, `create_dir`, `list_dir` and ext2 `cd`, `list_dir`: they add only easy members.
- Disk reads and writes succeed, and time, console output and device registers do not exist.
- EHCI, AHCI, ATA, PS/2, partition tables, the driver registry, interrupts and the boot code.
