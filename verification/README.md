# Boot32: a verified model

Boot32 is a two-stage bootloader and a small test kernel. This project models six of its
components and proves what they keep over whole runs:

- **Petit FatFs** (stage2/pff3a): mounting, directories, opening, reading and seeking on
  FAT16/FAT32, behind a one-sector cache. `Disk`, `FatSpec`, `FatFile`, `FatMount`,
  `FatNames`, `FatDir`, `FatSession`. The other side of the format, how a volume and a file on
  it are written, and that the code reads them back: `FatFormat`, `FatStored`.
- **Paging**: the two-level walk of 32-bit paging with a TLB, and the table edits that both
  stages make through the recursive window at 0xFFC00000. `PhysMem`, `Paging`, `Mmus`.
- **The boot stage's frame source and mapper** (stage2/pt.c): `MemoryMap`, `Stage2`; what it
  hands to the kernel, and both in a row: `Handover`.
- **The kernel's page allocator** (stage3/mem/pmm.cpp), whose free list lies inside the free
  pages and is seen through one remapped page: `Pmms`, and its runs, `PmmRuns`.
- **The slab page** (stage3/mem/slab.cpp): `Slabs`, `SlabRuns`. Both allocators are proved
  to refine the stack of `Stacks`.
- **Shell sort** (stage3/include/crt/sort.h): `ShellSort`.
- **The serial transmit ring** (stage3/x86/serial.c, stage3/mem/ringbuf.cpp): `Serials`.

`Bits` gives the C operators `&`, `|`, `~` and `>>` on natural numbers and what the masks in use
mean; `Seqs` holds two notions about sequences. Code that changes state is a class or a
method with loops, proved against functions on values; what the code is for is then proved
about those functions. `dafny verify dfyconfig.toml` checks everything.

## How to read the main results

- A file is `FatSpec.Content`: the clusters of its chain one after the other, cut at the size.
  `FatFile.FatFs.Read` and `Lseek` are stated for arbitrary contents of the FAT: they succeed
  exactly when the chain reaches the byte asked for, and otherwise close the file.
  `FatSession.Run` turns this into whole runs, and `FatSession.FromDisk` starts at the raw disk:
  its success is conditional on the disk image alone (`FatSession.Intact`).  For many files on
  one mounted volume, `FatSession.Serve` gives every answer, failures included, as a function
  of the image and the commands.
- What the fields, table entries, clusters and directory entries mean is fixed from outside the
  reader: `FatFormat` lays them out field after field as the FAT specification does (sections 3,
  4 and 6), with round trips for each, and `FatStored.Load` goes from a formatted disk through
  mounting, opening by name and reading to the bytes that were stored.
- The cursor `Lseek` leaves is given as a function of the clipped offset alone, so it cannot
  depend on the path; `FatSession.SeekTwoWays` says it outright.
- The MMU answers from its TLB first. `Mmus.Mmu.Valid` says that the directory refers to
  itself, no two slots share a table, and no cached translation is stale.
- `Pmms.Managed` is the allocator's invariant: the free list read from physical memory, whose
  own tables are no page tables, and the partition of all pages into free ones and those
  handed out.  Other free pages may be page tables; `PmmRuns.Run` covers any run from there.
- `Serials.Serial.Valid` is the ring's invariant: sent bytes followed by buffered bytes are
  the accepted bytes, and while bytes wait a transmit interrupt is still to come.

## Where the code does not do what one would expect

Each of these is proved; the code is modelled as it is.

- `disk_readp` takes sector 0xFFFFFFFF to be cached before anything was read, and delivers
  zeros (`Disk.Drive.ReadP`).
- `pf_read` with a null buffer answers FR_DISK_ERR and closes the file as soon as a byte is
  due; the documentation promises streaming (stage2/pff3a/documents/pf/read.html:57). Part of
  `FatFile.FatFs.Read`.
- `pf_mount` refuses the volume with exactly 4085 clusters, which the FAT specification
  (section 3.5) makes FAT16 (`FatMount.TypeByCount`, `FatMount.SmallestFat16Refused`), and
  divides by zero on a boot record with 0 sectors per cluster (`FatMount.Mount`).
- A FAT32 root cluster outside the volume makes the first 32 bytes of the disk the root
  directory (`FatDir.BadRootIsBootSector`).
- `create_name` uses up the character that ends a segment, whatever it is: a ninth character
  of the body, a fourth of the extension or a second dot is lost, and the rest is looked up as
  a name of its own.  A path is cut at its slashes exactly when every component has at most 8
  characters before its first dot and after it at most 3 and no dot
  (`FatNames.WholeComponent`, `FatNames.NamesOfPath`, `FatNames.LongBodyLosesCharacter`).
- `pd_map` invalidates the page of the directory, not the pages it remapped: it leaves no
  stale translation exactly when the slot was empty or keeps its table
  (`Mmus.PdMapStaysCoherent`).  The same edit made by `pt_map` through the window invalidates
  yet another page and has its own condition (`Mmus.WindowMapStaysCoherent`).
- `get_paddr` takes the first frame of a 4 MiB page for a page table (`Mmus.PhysicalIsWalk`).
- On an ordinary machine the kernel's free list contains the page directory. Stage 2 is linked
  below 0x6C00 (stage2/stage2.ld:6-8) and its directory is a page-aligned static
  (stage2/pt.c:4), so it is frame 1 to 5; the map that says [0, 0x9FC00) is usable goes from
  stage 2 to `pmm_init` with its top taken off and nothing else (stage2/stage2.c:22-30,
  stage3/kmain.cpp:70). `Handover.Boot` goes through all of it: the directory, frame n, is
  number n of the free pages, so it is granted among the first six (`Stacks.TakesGrantTop`).
  A page that is granted and holds a table may be written without moving a translation exactly
  as `Paging.WriteKeepsWalks` says. Giving it back is harmless except where it becomes a table
  of the free list: then its word 1023 is overwritten, which in the directory is the self
  reference (`Pmms.SwitchOnTable`). The list itself is built and kept in order all the same.
- A region that does not end on a page boundary, as that one, has a last page that reaches past
  its end, and both stages hand it out (`MemoryMap.PagesInside`).
- `vmap` maps a page elsewhere and back by the word that `pt_map` returned: if the page was not
  mapped before, it is afterwards (`Mmus.RemapRestores`).
- `vmark` ors the flags in unmasked: bits above the low 12 that are not in the frame number
  move the page (`Mmus.RemarkKeepsMapping`).
- `palloc` steps below region 0 exactly when it takes the last page
  (`Stage2.UnderflowsAtLastPage`).
- `pmm_alloc_ppage` with one page counted free returns a word that the list leaves arbitrary,
  unless the table in the window is used up (`Pmms.LastPage`).
- The last block of a slab page ends past the page unless the block size divides 1022
  (`Slabs.BlocksFit`); `free` counts one block too few (`Slabs.SlabPage.Init`).
- `ser_write` offers one byte more than `buf_write` takes; the position it then copies to is
  wrong, and for an empty ring 63 bytes before the buffer (`Serials.WritePosition`,
  `Serials.WriteBeforeBuffer`).
- The write that brings the bytes accepted to 0x8000 or more leaves a ring that shows a
  negative number of waiting bytes: nothing is sent any more and no interrupt is left to come
  (`Serials.CommittedTotal`, `Serials.Serial.Write`, `Serials.Serial.Strand`).
- `sort` of an empty range searches its gap past the end of the table (`ShellSort.GapExists`).

## Model

| member | source | states |
|---|---|---|
| Disk.Drive.ReadP | stage2/pff3a/source/diskio.c:38-68 | through the cache every request gets the bytes of the raw disk, whatever was requested before (one exception, sector 0xFFFFFFFF on a cold cache); the rest of the buffer is untouched; it fails exactly for a null buffer or a range outside the sector |
| Disk.RangeCheck | stage2/pff3a/source/diskio.c:48 | the 32-bit check keeps a request inside the sector exactly when the sum does not wrap |
| FatSpec.ClusterMask | stage2/pff3a/source/pff.c:951 | `& (csize - 1)` is the remainder, for a power of two |
| FatSpec.ClusterStart | stage2/pff3a/source/pff.c:1074 | `& ~(bcs - 1)` is the start of the cluster |
| FatSpec.ClusterInVolume | stage2/pff3a/source/pff.c:479-489 | every sector of a cluster in [2, n_fatent) is a data sector, not 0, without wrap |
| FatSpec.ClustersApart | stage2/pff3a/source/pff.c:479-489 | different (cluster, sector in cluster) pairs are different sectors |
| FatSpec.EntryInFat | stage2/pff3a/source/pff.c:457-465 | the entry of a cluster lies inside the FAT and inside one sector |
| FatSpec.EntryInBytes | stage2/pff3a/source/pff.c:430-471 | a FAT16 entry is bytes 2c and 2c + 1 of the FAT, a FAT32 entry the low 28 bits of bytes 4c to 4c + 3, low byte first |
| FatSpec.ContentAt | stage2/pff3a/source/pff.c:949-971 | byte p of the concatenated clusters is byte p % 512 of sector p / 512 % csize of cluster p / 512 / csize of the chain |
| FatSpec.ContentRun | stage2/pff3a/source/pff.c:965-969 | the same for a run of bytes within a sector |
| FatFile.AtBoundary | stage2/pff3a/source/pff.c:950-964 | the cluster of the next byte follows from the lazy cursor: current, first, or next of the chain; and the chain reaches the byte exactly when it is a cluster |
| FatFile.CursorAdvances | stage2/pff3a/source/pff.c:965-971 | reading on inside a sector keeps the cursor invariant |
| FatFile.FatFs.GetFat | stage2/pff3a/source/pff.c:430-471 | returns the FAT entry, also in the raw bytes of the FAT counted from sector fatbase; 1 outside the table; at most one request, inside the FAT |
| FatFile.FatFs.Clust2Sect | stage2/pff3a/source/pff.c:479-489 | the first sector of a cluster; 0 exactly for what is no cluster, including 0 and 1, where the subtraction wraps |
| FatFile.FatFs.ClustersInOrder | stage2/pff3a/source/pff.c:479-489 | cluster 2 is at the start of the data area and each further one csize sectors behind the one before |
| FatFile.FatFs.Locate | stage2/pff3a/source/pff.c:950-964 | finds the sector of the next byte exactly when the chain reaches it, for any FAT contents |
| FatFile.FatFs.ReadChunk | stage2/pff3a/source/pff.c:949-972 | one round delivers the file's bytes up to the end of the sector or of the request, exactly when there is a buffer and the chain reaches the next byte |
| FatFile.FatFs.Read | stage2/pff3a/source/pff.c:928-975 | delivers file[fptr..fptr+br); FR_OK exactly when all of min(btr, fsize-fptr) was delivered, which is exactly when nothing is due or there is a buffer and the chain reaches the last byte due; on failure the bytes before the break are delivered and the file is closed; every request is within a sector of the FAT or the data area; the rest of the buffer is untouched |
| FatFile.StartHere | stage2/pff3a/source/pff.c:1072-1076 | starting from the current cluster is a correct start for the same or a later cluster |
| FatFile.SeekNext | stage2/pff3a/source/pff.c:1081-1087 | one link more keeps the position; a link that is no cluster means the offset is out of the chain's reach |
| FatFile.SeekInvariant | stage2/pff3a/source/pff.c:1088-1091 | the cursor a seek leaves satisfies the invariant |
| FatFile.FatFs.SeekStart | stage2/pff3a/source/pff.c:1068-1080 | both starts stand at a cluster of the chain at or before the offset |
| FatFile.FatFs.Arrive | stage2/pff3a/source/pff.c:1088-1091 | fptr is the offset and dsect the sector by the definition, exactly when the cluster reached is one |
| FatFile.FatFs.FollowChain | stage2/pff3a/source/pff.c:1081-1087 | following stops in the cluster of the offset, or only if the chain does not reach it; terminates on cyclic chains |
| FatFile.FatFs.Lseek | stage2/pff3a/source/pff.c:1055-1095 | succeeds exactly when the chain reaches the byte before the clipped offset; then fptr, curr_clust and dsect are functions of the offset alone; otherwise the file is closed; every request is within a sector of the FAT or the data area |
| FatSession.Run | stage2/pff3a/source/pff.c:928-1095 | any sequence of seeks and reads delivers what a byte string with a position delivers; none fails when the chain reaches the end |
| FatSession.CompleteFromLast | stage2/pff3a/source/pff.c:1081-1087 | a chain that reaches the last byte reaches every byte |
| FatSession.SeekTwoWays | stage2/pff3a/source/pff.c:1067-1091 | from any two cursors a seek above 0 ends in the same cursor |
| FatSession.FromDisk | stage2/pff3a/source/pff.c:819-1095 | mount, open and any reads and seeks: the disk image alone determines which file the path names or why none, every operation succeeds when the chain of its entry reaches the end, and what is delivered is that chain cut at the size |
| FatSession.Serve | stage2/pff3a/source/pff.c:894-1095 | any sequence of opens, reads and seeks on one mounted volume, for arbitrary contents of the disk: every result code, and the data of every read that succeeds, is a function of the image and the commands before it |
| FatSession.OpenForgets | stage2/pff3a/source/pff.c:894-918 | opening a file makes what happened before irrelevant to the answers that follow |
| FatSession.IntactIsIdeal | stage2/pff3a/source/pff.c:928-1095 | on a file whose chain is intact those answers are FR_OK with the data of the ideal file |
| FatMount.TypeByCount | stage2/pff3a/source/pff.c:862-872 | a consistent volume is accepted exactly when it has more than 4085 clusters, with n_fatent = clusters + 2 and the type the specification gives the count |
| FatMount.SmallestFat16Refused | stage2/pff3a/source/pff.c:867-871 | a consistent volume with 4085 clusters that is refused, and one with 4086 that is accepted |
| FatMount.KindInBytes | stage2/pff3a/source/pff.c:783-803 | what kind of record a sector is, by bytes 510, 511, 54, 55, 82 and 83 |
| FatMount.NoWrap | stage2/pff3a/source/pff.c:853-865 | on a consistent boot record none of the 32-bit operations wraps |
| FatMount.Layout | stage2/pff3a/source/pff.c:853-879 | cluster size, root entries and FAT32 root cluster are those of the record; reserved sectors, FAT copies, root directory and clusters follow one another and end inside the volume; the first FAT copy holds every entry; the geometry is the one the reading is proved for |
| FatMount.SectorsApart | stage2/pff3a/source/pff.c:853-879 | a FAT entry's sector, the root directory and a cluster's sectors are apart and inside the volume |
| FatMount.CheckFs | stage2/pff3a/source/pff.c:783-803 | tells a FAT boot record, another boot record and other sectors apart by the signature and the two type fields, in bytes |
| FatMount.LoadBpb | stage2/pff3a/source/pff.c:851-875 | the fields are those at the offsets of the boot record |
| FatMount.Mount | stage2/pff3a/source/pff.c:819-887 | which of FR_OK, FR_NOT_READY, FR_NO_FILESYSTEM or a divide error, for every disk; the volume is looked for at sector 0 and the first partition; on a consistent volume the file system is ready afterwards |
| FatNames.Run | stage2/pff3a/source/pff.c:667-686 | the longest run of name characters up to a limit |
| FatNames.FirstSegment | stage2/pff3a/source/pff.c:651-692 | a segment uses up at least one character and ends the path or leaves some of it |
| FatNames.NamesOfPath | stage2/pff3a/source/pff.c:651-692 | for any components, as many names are looked up as there are components exactly when each is an 8.3 name, and otherwise more; then the names are the components, body padded to 8 and extension to 3 |
| FatNames.WholeComponent | stage2/pff3a/source/pff.c:667-687 | a component and its separator are one segment exactly when the component is an 8.3 name |
| FatNames.LongBodyLosesCharacter | stage2/pff3a/source/pff.c:668-674 | what becomes of a longer body: its ninth character is lost |
| FatNames.KernelElf | stage2/stage2.c:28 | the characters of KERNEL.ELF become the 11 bytes of the name that is looked up |
| FatNames.StoreExt | stage2/pff3a/source/pff.c:682-684 | storing an extension character keeps the padded name |
| FatNames.ExtStops | stage2/pff3a/source/pff.c:667-689 | where the scan stops in an extension, name, position and last flag are the segment's |
| FatDir.SearchIsFirst | stage2/pff3a/source/pff.c:584-607 | the search answers by the first entry that is missing, the end marker, or a match; one of the first 65537 is, whatever the disk holds |
| FatDir.FirstMatch | stage2/pff3a/source/pff.c:596-604 | a matching entry with none such before it is the answer |
| FatDir.BadRootIsBootSector | stage2/pff3a/source/pff.c:527-531 | what a search finds when the FAT32 root cluster is outside the volume |
| FatDir.EntryIsContent | stage2/pff3a/source/pff.c:596-604 | the entries of a chain directory are the bytes of its chain, 32 at a time |
| FatDir.SearchInBytes | stage2/pff3a/source/pff.c:584-607 | the search answers by the first entry before the end marker whose first 11 bytes are the name and whose byte 11 has bit 3 clear, or that there is none, or that the chain breaks |
| FatDir.DirectoryBit | stage2/pff3a/source/pff.c:910 | an entry is a directory exactly when bit 4 of byte 11 is set |
| FatDir.SizeInBytes | stage2/pff3a/source/pff.c:913 | the size is in bytes 28 to 31, low byte first |
| FatDir.GetClust | stage2/pff3a/source/pff.c:492-507 | 16 or 32 bits of the start cluster, by the type |
| FatDir.NextInChain | stage2/pff3a/source/pff.c:555-570 | the next entry's place across sectors and clusters, and how the chain ends it |
| FatDir.Dir.Rewind | stage2/pff3a/source/pff.c:514-534 | stands at entry 0; cluster 0 is the root |
| FatDir.Dir.Next | stage2/pff3a/source/pff.c:543-575 | stands at the next entry, or says whether the directory ends or its chain breaks there |
| FatDir.Dir.Find | stage2/pff3a/source/pff.c:584-607 | the entry, FR_NO_FILE or FR_DISK_ERR by the definition of the search and by the bytes of the directory, within two requests an entry and 65536 entries |
| FatDir.Dir.CreateName | stage2/pff3a/source/pff.c:651-692 | name, last flag and new position are those of the first segment; the path is not read past its terminator |
| FatDir.WalkStep | stage2/pff3a/source/pff.c:760-770 | one segment of the walk: not found, last, not a directory, or on with the entry's cluster |
| FatDir.SkipTo | stage2/pff3a/source/pff.c:751-752 | leading blanks and one slash are skipped |
| FatDir.Dir.FollowPath | stage2/pff3a/source/pff.c:742-774 | the recursive lookup of the path's names from the root |
| FatDir.Open | stage2/pff3a/source/pff.c:894-918 | opens the file the path names, at byte 0, with the cluster and the size of its entry, in bytes; which error otherwise, and then no file is open |
| FatFormat.BootRecordBack | stage2/pff3a/source/pff.c:851-875 | a boot record laid out field after field gives its fields back |
| FatFormat.BootKindBack | stage2/pff3a/source/pff.c:783-803 | and is recognised by its signature and type field |
| FatFormat.PartitionBack | stage2/pff3a/source/pff.c:835-845 | a partition table laid out field after field leads to the start of its first partition |
| FatFormat.TableBack | stage2/pff3a/source/pff.c:430-471 | a FAT written entry after entry gives its entries back, 28 bits of them on FAT32 |
| FatFormat.EntryBack | stage2/pff3a/source/pff.c:492-507 | a directory entry laid out field after field gives its name, kind, cluster and size back |
| FatStored.VolumeOfRecord | stage2/pff3a/source/pff.c:851-879 | type, cluster size, cluster count and the start of every area of the mounted volume, by the fields the record was written with |
| FatStored.ContentBack | stage2/pff3a/source/pff.c:928-975 | data stored cluster after cluster along a chain written into the FAT is the contents of that chain, and the chain reaches all of it |
| FatStored.NameBack | stage2/pff3a/source/pff.c:742-774 | an 8.3 name finds the first entry of the root directory that was written with it, on FAT16 and FAT32 |
| FatStored.DataBack | stage2/pff3a/source/pff.c:492-507 | the cluster and size written into an entry lead to the data |
| FatStored.Load | stage2/pff3a/source/pff.c:819-975 | mount, open by name and read on such a disk: FR_OK, and the bytes stored |
| Paging.WindowReachesTable | stage3/mem/vaddr.cpp:5-10 | 0xFFC00000 + 0x1000*pdi + 4*pti walks to word pti of the table in slot pdi, and the last page of the window to the directory |
| Paging.Entry | stage3/mem/vaddr.cpp:32 | for a page address the stored word is the address plus the 12 low flags with the present bit set; in general it is present, names the frame and keeps the flags in its low bits |
| Paging.EntryChangesOnePage | stage3/mem/vaddr.cpp:19-36 | rewriting one entry changes one translation and keeps the tree well formed |
| Paging.DataWriteKeepsTables | stage3/mem/vaddr.cpp:7-62 | a write to a frame that holds no table changes no translation |
| Paging.NewTable | stage2/pt.c:64-67 | a fresh frame in an empty slot changes only the slot's pages and its window page |
| Paging.WriteKeepsWalks | stage3/mem/pmm.cpp:48-57 | a write to any frame keeps every translation exactly when the frame is no table, or the entry maps like before, or in the directory when the 4 MiB and the window page behind the slot map like before |
| Mmus.Mmu.GetPaddr | stage3/mem/vaddr.cpp:7-17 | the address read off the window |
| Mmus.Mmu.PtMap | stage3/mem/vaddr.cpp:19-36 | the old entry is returned, one word of one table changes, no translation is stale; also for the window address of a directory slot that gets a table of its own which maps what the former one mapped |
| Mmus.Mmu.MapTable | stage3/mem/kmalloc.cpp:74-77 | a new table put in through the window: one directory word changes, tables and cached translations stay in order |
| Mmus.Mmu.PdMap | stage3/mem/vaddr.cpp:38-47 | one word of the directory changes; which cached translations are dropped |
| Mmus.Mmu.PtUnmap | stage3/mem/vaddr.cpp:49-62 | the frame is returned and the present bit cleared, and no translation is stale; also for the window address of a slot whose table maps nothing |
| Mmus.Mmu.GetFlags | stage3/mem/vaddr.cpp:64-74 | bits 9 to 11 of the entry behind the window, or the invalid value |
| Mmus.Mmu.Vmark | stage3/mem/vaddr.cpp:76-91 | the old entry is returned and the flags replaced, and the page is not cached any more |
| Mmus.PhysicalIsWalk | stage3/mem/vaddr.cpp:7-17 | get_paddr is the page walk on every address; behind a 4 MiB entry exactly when the word it takes for a table entry happens to agree |
| Mmus.MapThenUnmap | stage3/mem/vaddr.cpp:19-62 | mapping and asking gives the frame, unmapping gives it back, other pages never change |
| Mmus.MapAndAsk | stage3/mem/vaddr.cpp:7-74 | after mapping a page with flags, get_flags gives the bits of those flags, get_paddr the address, and the next pt_map returns the word stored |
| Mmus.RemapRestores | stage3/mem/kmalloc.cpp:155-165 | mapping a page elsewhere and back by the word that pt_map returned restores memory exactly when the page was mapped before |
| Mmus.RemarkKeepsMapping | stage3/mem/vaddr.cpp:76-91 | for all 32-bit flags, vmark keeps a page mapped where it was exactly when the flags contain the present bit and no bit above the low 12 that the frame number lacks |
| Mmus.WindowMapIsDirectoryMap | stage3/mem/vaddr.cpp:19-47 | pt_map on a window address edits the word pd_map edits and returns the word it returns, but invalidates another page |
| Mmus.WindowMapStaysCoherent | stage3/mem/vaddr.cpp:19-36 | that pt_map leaves no stale translation, whatever is cached, exactly when the slot was empty or the new table maps every page the old one mapped to the same frame |
| Mmus.EmptySlotCleared | stage3/mem/kmalloc.cpp:127-129 | taking an empty table out of its slot through the window leaves the tree well formed and nothing stale, and the frame is no table any more |
| Mmus.PdMapStaysCoherent | stage3/mem/vaddr.cpp:38-47 | pd_map leaves no stale translation, whatever is cached, exactly when the slot was empty or keeps its table |
| Mmus.OnePageStaysCoherent | stage3/mem/vaddr.cpp:32-33 | invalidating the page whose entry changed is enough |
| Stage2.ShrinkDropsLast | stage2/pt.c:16-30 | taking 4 KiB off the top region takes exactly the last page off the map, also a partial one |
| MemoryMap.PagesInside | stage3/mem/pmm.cpp:17-25 | every page counted for a region lies inside it exactly when its length is a multiple of 4096 |
| Stage2.ShrunkIsEnumerable | stage3/mem/pmm.cpp:17-18 | the leading usable regions that are left start on a page and end below 4 GiB; nothing is asked of the others |
| Stage2.DisjointPages | stage3/mem/pmm.cpp:17-25 | regions whose rounded extents do not overlap have distinct pages |
| Stage2.UnderflowsAtLastPage | stage2/pt.c:26-29 | the region index underflows exactly at the last page |
| Stage2.FreshDirectory | stage2/pt.c:38-44 | the first directory is well formed, maps 4 MiB to itself and nothing else below the window |
| Stage2.InitTop | stage2/pt.c:46-48 | the last of the leading usable regions |
| Stage2.Loader.constructor | stage2/pt.c:34-54 | from a valid map, which may list the frame of the directory, the invariant holds with nothing handed out or mapped; every word of the directory |
| Stage2.Loader.Palloc | stage2/pt.c:16-32 | takes the topmost page; it was never handed out and is not in the map any more; taking the last one leaves the region index at 0xFFFF |
| Stage2.Loader.InstallTable | stage2/pt.c:64-71 | a new table, cleared through the window, maps nothing and moves nothing |
| Stage2.Loader.PtMap | stage2/pt.c:56-75 | as long as the frames it takes do not come down to the directory: the page gets a frame nobody has; tables stay well formed; every mapping made so far stays; a new table has no other entry; the words stored; also for the last page |
| Handover.FramesStayOut | stage2/pt.c:16-32 | frames handed out plus pages left is constant, none of those frames is in the map the kernel gets, and no page of that map holds a table except perhaps the directory |
| Handover.SwitchesApartMeans | stage3/mem/pmm.cpp:18-24 | where only the directory holds a table, none of the pages that become tables of the list is a page table exactly when the directory is not page 1023, 2047, ... of the map |
| Handover.StartAllocator | stage3/mem/pmm.cpp:11-30 | pmm_init on what stage 2 leaves, with curr_pages on a page that stage 2 mapped and the directory not at a switch of tables: the allocator manages the pages left and, of the frames handed out, the window frame alone; it lists the directory exactly when the map does; the other mappings stay |
| Handover.DirectoryIsListed | stage2/pt.c:4-32 | with conventional memory as first region the directory stays in the map exactly while more pages are left than its frame number, at that position, and the next n frames taken spare it exactly while as many are left after them |
| Handover.Boot | stage2/stage2.c:22-30 | stage 2 and pmm_init in a row on an ordinary machine with enough memory: every page asked for gets a frame of its own, the first 4 MiB stay mapped to themselves, and the allocator starts in order with the directory among its free pages, at the position of its frame number |
| Pmms.Pop | stage3/mem/pmm.cpp:32-46 | the page granted is the top of the list, also when the window moves to the next table |
| Pmms.Push | stage3/mem/pmm.cpp:48-57 | the page given back becomes the top of the list, as a word or as a new table |
| Pmms.FreeListIgnoresOthers | stage3/mem/pmm.cpp:32-57 | the list depends on the contents of its own tables alone |
| Pmms.BuiltIsFreeList | stage3/mem/pmm.cpp:17-29 | the list built holds every page of the map and the first window page, each once |
| Pmms.ManagedPop | stage3/mem/pmm.cpp:32-46 | granting keeps free and outstanding pages a partition of all pages |
| Pmms.ManagedPush | stage3/mem/pmm.cpp:48-57 | giving back keeps it, and writes to no other outstanding page, also for a page table unless it becomes a table of the list |
| Pmms.FreeThenAlloc | stage3/mem/pmm.cpp:32-57 | free then alloc returns the page and restores the list, also across a window switch |
| Pmms.ClientWriteKeepsList | stage3/mem/pmm.cpp:32-46 | writes to any page that is not free change no later allocation |
| Pmms.LastPage | stage3/mem/pmm.cpp:28-39 | with one page counted free, a free page is sure to be returned exactly when the table is used up |
| Pmms.SwitchOnTable | stage3/mem/pmm.cpp:50-53 | where a page given back becomes a table of the list, every translation stays exactly when it is no page table or its last entry maps nothing; in the directory the self reference is lost |
| Pmms.Pmm.Init | stage3/mem/pmm.cpp:11-30 | pcount pages under management, all free: those of the map, in order except where the list switches tables, and the window page; the directory is free exactly when the map lists it; only every 1024th page must not be a page table |
| Pmms.Pmm.StoreRegion | stage3/mem/pmm.cpp:18-24 | the pages of one region, which may be empty, are added to the list being built, across window moves |
| Pmms.Pmm.Alloc | stage3/mem/pmm.cpp:32-46 | from two pages on the top of the list; one page, in order or not: the word the list leaves there; none: 0xFFFFFFFF; the memory afterwards, where only page tables are written |
| Pmms.Pmm.FreePage | stage3/mem/pmm.cpp:48-57 | the page becomes the next one granted, also after the count has reached 0; other outstanding pages keep their contents; the exact memory afterwards, also for a page table that becomes a table of the list |
| Pmms.Pmm.FreePages | stage3/mem/pmm.cpp:59-61 | pfree is the length of the list |
| PmmRuns.Run | stage3/mem/pmm.cpp:32-57 | over any allowed run, client writes and pages mapped and unmapped in between included, the pages granted are those of a plain stack, and a page held throughout that is no page table holds what its client wrote last |
| PmmRuns.Do | stage3/mem/pmm.cpp:32-57 | one operation is one step of the stack; pages that stay with their client keep their contents |
| PmmRuns.MapOther | stage3/mem/kmalloc.cpp:106 | mapping a page other than the window changes nothing for the allocator |
| PmmRuns.UnmapOther | stage3/mem/kmalloc.cpp:125 | nor does unmapping one |
| PmmRuns.MakeTable | stage3/mem/kmalloc.cpp:74-77 | a client may turn a page it holds into a page table; the allocator keeps its invariant and its stack |
| PmmRuns.UndoTable | stage3/mem/kmalloc.cpp:127-129 | undoing a table that maps nothing and giving its page back: the page is the next one granted, also if it becomes a table of the list |
| PmmRuns.ValidIsApart | stage3/mem/pmm.cpp:32-57 | in every valid state the free pages are pairwise distinct and none is handed out |
| Stacks.RunKeepsApart | stage3/mem/pmm.cpp:32-57 | over any run of the stack nothing is granted that somebody holds, and the items stay the same |
| Stacks.TakesGrantTop | stage3/mem/pmm.cpp:32-46 | n allocations in a row grant the first n free pages |
| Slabs.AllBlocks | stage3/mem/slab.cpp:8-21 | the blocks are the multiples of the size below 1022 |
| Slabs.LinkedIsChained | stage3/mem/slab.cpp:14-20 | the links stored by the initial loop chain all blocks |
| Slabs.ChainIgnoresOthers | stage3/mem/slab.cpp:23-37 | the list depends on the first words of free blocks alone |
| Slabs.ChainUnique | stage3/mem/slab.cpp:23-27 | the links determine the list, so it has no cycle |
| Slabs.BlocksFit | stage3/mem/slab.cpp:14-19 | every block ends inside the page exactly when the size divides 1022 |
| Slabs.BlocksApart | stage3/mem/slab.cpp:14-19 | no block contains the first word of another |
| Slabs.BlocksDisjoint | stage3/mem/slab.cpp:14-19 | no word belongs to two blocks |
| Slabs.SlabPage.Init | stage3/mem/slab.cpp:8-21 | a fresh page holds ceil(1022 / size) free blocks; `free` is one less |
| Slabs.SlabPage.Full | stage3/mem/slab.cpp:4-6 | full exactly when the list is empty |
| Slabs.SlabPage.Alloc | stage3/mem/slab.cpp:23-27 | grants the top of the list |
| Slabs.SlabPage.Free | stage3/mem/slab.cpp:29-37 | the block becomes the top; one word changes |
| Slabs.SlabPage.ClientWrite | test/slabtest.cpp:23-25 | a write inside an outstanding block keeps the list and changes one word |
| Slabs.SlabPage.Drain | test/slabtest.cpp:42-51 | allocating until full gives every free block once |
| SlabRuns.Run | stage3/mem/slab.cpp:23-37 | over any allowed run the blocks granted are those of a plain stack, and a block held throughout holds what its client wrote last |
| SlabRuns.Do | stage3/mem/slab.cpp:23-37 | one operation is one step of the stack; blocks that stay with their client keep their contents |
| SlabRuns.ValidIsApart | stage3/mem/slab.cpp:23-37 | in every valid state the free blocks are pairwise distinct and none is handed out |
| ShellSort.PassOrders | stage3/include/crt/sort.h:10-17 | a pass with gap k orders with gap k |
| ShellSort.PassPermutes | stage3/include/crt/sort.h:10-17 | a pass permutes |
| ShellSort.KeepsEarlierGap | stage3/include/crt/sort.h:8-19 | gap-k sorting keeps a gap-h order (Theorem K) |
| ShellSort.OrderedForEveryGap | stage3/include/crt/sort.h:32-36 | after any passes the array is ordered for every gap used |
| ShellSort.LaterOffsetsIdle | stage3/include/crt/sort.h:9-18 | the passes from offsets above 0 change nothing |
| ShellSort.GapExists | stage3/include/crt/sort.h:30 | the gap search ends inside the table exactly for a nonempty range |
| ShellSort.Insert | stage3/include/crt/sort.h:10-17 | in place, one insertion of the pass |
| ShellSort.GapSort | stage3/include/crt/sort.h:8-19 | in place, the pass from offset 0 |
| ShellSort.Sort | stage3/include/crt/sort.h:23-37 | an ordered permutation, for every strict weak order; which gaps are used |
| Serials.HeadOf | stage3/mem/ringbuf.cpp:7-11 | the head is the low 15 bits |
| Serials.SlotsOf | stage3/mem/ringbuf.cpp:22-41 | what buf_write and buf_read return, by the totals of committed and consumed bytes |
| Serials.WritePosition | stage3/x86/serial.c:127-143 | ser_write copies to the head's position exactly when a byte left between its reading of the occupancy and buf_write, or one slot stays free, or the last slot is wanted and it is slot 0 |
| Serials.WriteBeforeBuffer | stage3/x86/serial.c:133-139 | an empty ring and a long request: 63 bytes before the buffer |
| Serials.ElementsAt | stage3/mem/ringbuf.cpp:17-20 | the number of waiting bytes is right exactly while both totals are on the same side of 0x8000, and negative otherwise |
| Serials.CommittedTotal | stage3/mem/ringbuf.cpp:43-45 | after a commit the bytes can be found again exactly when the total is below 0x8000 |
| Serials.RingAppend | stage3/x86/serial.c:137-143 | the copy at the head appends to the contents, across the wrap |
| Serials.RingPieces | stage3/x86/serial.c:161-167 | a slice of the ring is one or two runs of the buffer |
| Serials.Serial.constructor | stage3/x86/serial.c:92-98 | an empty ring with its first transmit interrupt due |
| Serials.Serial.Ready | stage3/x86/serial.c:122-124 | the number of bytes waiting |
| Serials.Serial.Append | stage3/x86/serial.c:135-145 | the bytes join the end of the ring while the total stays below 0x8000 |
| Serials.Serial.SendRun | stage3/x86/serial.c:161-167 | the bytes from the tail on go to the UART, across the wrap |
| Serials.Serial.Write | stage3/x86/serial.c:126-151 | bytes that leave one slot free are accepted in order, with any hardware events between reading the occupancy and the critical section; the ring is in order afterwards exactly while the total stays below 0x8000, and stuck otherwise |
| Serials.Serial.Flush | stage3/x86/serial.c:153-172 | the first bytes of the ring, at most 16, go to the UART in order and the rest stays; the flag is set exactly when there were none; a stuck ring sends nothing and sets the flag |
| Serials.Serial.Com1Isr | stage3/x86/isrs.cc:16-19 | the interrupt flushes |
| Serials.Serial.Run | stage3/x86/serial.c:126-172 | over any interleaving within the bounds the bytes accepted are the bytes written, in order |
| Serials.Serial.Quiesce | stage3/x86/serial.c:146-171 | hardware events alone send everything, in ceil(n/16) + 1 flushes |
| Serials.Serial.Strand | stage3/x86/serial.c:153-172 | once the ring is stuck no interrupt sends a byte, and then none is due any more |

## Left out

- Disk.Drive.ReadP: with an offset below 512, offset + count is below 2^32, as for every call in pff.c; beyond that the source passes its own check and copies from outside the sector (`Disk.RangeCheck`).
- readSector retries until it succeeds in the source; here a read delivers the sector, so a disk that fails for ever is not modelled.
- FatFile.FatFs.Read: geometry whose sector arithmetic wraps (`FatSpec.Sound` excludes it); `FatMount.Layout` shows that no consistent volume has it.
- FatFs keeps the seven geometry fields as one value `vol`, assigned when mounting succeeds; their values after a failed mount are not modelled.
- FatMount.Mount: the answer of disk_initialize is a parameter.
- FatDir.Dir.Find: needs the FAT16 root directory to end where the clusters begin, which every consistent volume has.
- FatStored.Load: the file is in the root directory; deeper paths are `FatDir.Dir.FollowPath`. The boot record must be consistent, as `FatMount.Layout` needs.
- FAT12, pf_write, pf_opendir, pf_readdir and the code pages are compiled out of the source.
- Accessed and dirty bits, PSE-36 address bits, and TLB fills that no access asked for.
- Mmus.Mmu.PtMap: with pdi 1023 the translations stay consistent as far as `Mmus.WindowMapStaysCoherent` says (`Mmus.FitsSlot`); with a 4 MiB page in the slot only the word that changes is stated.
- Stage2.Loader.PtMap: needs the pages it takes to be in the map, since the source does not notice exhaustion and what it finds outside the map is not modelled; the frames it takes are not the directory, which the source does not check either (`Handover.DirectoryIsListed` says when that holds); slot 1023 and 4 MiB slots are excluded.
- The memory map is a value beside memory, not bytes in it; its sorting and merging (stage2/e820.c) is left out, and a page-aligned map with disjoint regions is assumed.
- PmmRuns.Run: a page in use as a page table is not written through the allocator's clients, nor given back where it would become a table of the list; `Paging.WriteKeepsWalks` and `Pmms.SwitchOnTable` say what that does. Tables are made and undone between runs (`PmmRuns.MakeTable`, `PmmRuns.UndoTable`).
- After the page count has reached 0, `Pmms.Pmm.Alloc` and `Pmms.Pmm.FreePage` state the next grant; the partition of all pages is not tracked any further, since the page granted last need not be one.
- Pmms.Pmm.FreePage: only pages that are handed out are given back, as the source expects of its callers; after the directory has become a table of the list only the memory is stated, since the window is gone.
- Slabs.SlabPage.Free: only outstanding blocks are given back; the source checks only that the offset is inside the page.
- Slabs.SlabPage.ClientWrite: writes past the end of the page, which `Slabs.BlocksFit` shows to be possible, are excluded.
- ShellSort.Sort: needs a nonempty range, see `ShellSort.GapExists`.
- Serials.Serial.Write: at most 63 minus the occupancy at a time; `Serials.WritePosition` says when more is copied to the right position. Writes to a ring that is already stuck are not modelled; the first of them adds where the source means to clear a bit (stage3/include/crt/atomic.h:36).
- FatSession.Serve: the bytes that a failing read delivers before the break are stated by `FatFile.FatFs.Read`, not by the answers of a run.
- Pmms.Pmm.Init: page 1023, 2047, ... of the map must not be a page table, since it is overwritten from its first word on; on an ordinary machine none is (`Handover.DirectoryIsListed`).
- Serials.Serial.Append: the same bound of 63 minus the occupancy.
- The UART is taken to raise its transmit interrupt when its FIFO runs empty and when the interrupt is enabled; negative lengths are not passed to ser_write.
- Kernel virtual memory (stage3/mem/kmalloc.cpp), the ELF loader (stage2/elf.c), printing, ports, interrupt controllers, timers and ACPI.
