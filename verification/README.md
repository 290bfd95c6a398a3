# GEMIBOOT, modelled in Dafny

GEMIBOOT is an x86 boot loader with three entry paths (BIOS, 32-bit UEFI,
64-bit UEFI) and a host tool, `mkdisk`, that builds the FAT32 disk image it
boots from. This project models the parts of it that compute something over
bytes and states, and proves what they promise. Code that changes state step
by step is a class or a method over arrays; every such method is tied to a
function of its inputs, and the promises are lemmas about these functions.

| module | what it models |
|---|---|
| `Arithmetic`, `Bytes`, `StringOps` | products and quotients; little-endian fields and patches of buffers; `memcpy`, `memset`, `memmove`, `memcmp` |
| `Names83` | the two independent 8.3 name encoders |
| `Layout`, `BootSectors` | the regions of the image and the image seen as a volume; the reserved sectors |
| `MkDisk`, `Volumes` | the image builder over a byte array; runs of its calls and the volume they leave |
| `FatReader`, `RoundTrip`, `DirLinks`, `Pipeline` | the FAT reader; reader undoes builder; `..` links; `main` of `mkdisk` followed by the BIOS loader |
| `OnDisk`, `FatVolumes` | what the builder leaves, byte by byte at numbered offsets of the image; the reader on any FAT16 or FAT32 volume laid out in bytes |
| `Handoff` | the VBR's search for IO.SYS and the load of the rest of IO.SYS |
| `TextGrid`, `Console`, `Decimals` | the framebuffer text console, an abstract text grid and an endless roll of paper; decimal output |
| `Pci`, `PciWindows` | configuration space and the walk that moves 64-bit BARs below 4 GB; what it guarantees |
| `ElfLoader`, `DiskChunks`, `MemoryMap` | the ELF loader; chunked BIOS reads; the Multiboot memory map and the map-key protocol |

## Main results

* **Round trip.** For every disk size that gives a FAT32 volume and every
  run of `write_file_data` and `create_directory` calls that fits it, every
  file is read back byte for byte by the separately written reader
  (`RoundTrip.FileReadsBack`), and a root object is found by a name if and
  only if it got one of the 64 root slots, the name encodes to the name it
  was stored under, no earlier root object has that name, and its first byte
  is not the 0xE5 of a deleted entry (`RoundTrip.FoundIff`).
  `Pipeline.BuildThenLoad` runs both programs, array to array: the kernel
  arrives unchanged. `FatVolumes.ReadsItsClusters`, `HoldsIff` and
  `FoundInNarrowRoot` are about the reader alone, on FAT16 and FAT32 volumes
  whoever wrote them.
* **The image in bytes.** After every run `OnDisk.EntryOnDisk`,
  `DirectoryOnDisk`, `ChainOnDisk`, `FileOnDisk` and `ReservedOnDisk` say at
  which offset of the image which bytes are, attribute bytes, end marks, time
  and date included; `MainRootOnDisk`, `MainEfiOnDisk` and `MainBootOnDisk`
  do so for the three directories that `main` makes.
* **Volume invariant.** `Volumes.ChainsOfARun` and `Volumes.NonInterference`
  hold after every run and every step.
* **Console.** `Console.PrintOnFreshScreen`: for every string, every mode of
  at least one character cell and every pitch of at least four bytes a pixel,
  heights that are no multiple of 16 included, each byte of the framebuffer
  is what the last lines of a never-scrolling roll of paper look like, and
  each pixel the bit of the font it should be.
* **PCI.** For every population of devices `PciWindows.EndState` says which
  BARs are moved (exactly those above 4 GB of the functions the walk reaches,
  which are told apart by dwords of the configuration space at the start)
  and what has become of all other dwords of configuration space, command
  registers included. `WindowsAreSound` and `SpaceSuffices` are about the
  windows; `FramebufferFollows` needs no more than that no two BARs above
  4 GB claimed the same address.
* **ELF.** For a file given as a record of its headers `ElfLoader.LoadsWholeIff`
  says when it is loaded whole, `ProgramInMemory` and `ElsewhereInMemory` what
  memory holds then.
* **Boot hand-off.** The scan always ends at IO.SYS (`Handoff.BootScan`),
  whether the raw copy fitted or not. The load that follows does not do what
  its comment says, see below.

## Where the code and its comments differ

* `src/bios/io16.S:42` announces up to 384 KB in 12 chunks of 64 sectors. The
  loop of lines 54-89 goes back to `try_read`, behind the instruction that
  copies `iosys_sector` into the LBA packet (line 51), so all chunks read the
  same 64 sectors. `Handoff.FirstStage.SelfLoad` models the code as it is;
  `Handoff.LoadedRightIff` gives the exact condition on the file under which
  the load is right (it repeats itself every 32 KB behind its first sector),
  and `Handoff.SizesThatLoad` the exact sizes: 512 bytes plus at most 32 KB.
* `tools/mkdisk.c:410` speaks of a copy of IO.SYS from LBA 2049 on; the copy
  goes to LBA 2050 (line 414). A copy of more than four sectors overwrites
  the backup boot sector that line 407 has just written and that the BPB
  names (line 390). `BootSectors.BackupIntactIff` gives the exact condition
  and `BootSectors.SizesThatKeepBackup` the exact sizes.
* `add_dir_entry` returns -1 for a full directory and its callers ignore it;
  the entry is lost (`Volumes.AddToRendered`). A name that starts with 0xE5
  loses its entry to the next one added (`Volumes.DeletedNameIsOverwritten`)
  and is never found (`RoundTrip.FoundIff`); its file is still stored and its
  chain intact.

## Model

| member | source | states |
|---|---|---|
| Names83.Format83 | tools/mkdisk.c:136-172 | the loop leaves the upper-cased, cut and padded parts around the first dot, with the special cases of the two links |
| Names83.Format83Name | src/common/fat.c:18-42 | the reader's loop leaves the same of the first 64 characters, without special cases |
| Names83.SplitAtFirstDot | src/common/fat.c:26-41 | the name part is what precedes the first dot, the extension what follows it without further dots |
| Names83.PartsGrow | src/common/fat.c:26-41 | more characters only extend the two parts, and nothing after the first dot reaches the name part |
| Names83.EncodersAgree | tools/mkdisk.c:136-172 | up to 64 characters builder and reader encode a name alike if and only if it is neither "." nor ".." |
| Names83.NameInBytes | tools/mkdisk.c:153-171 | a name with at most one dot, character by character: upper-cased in the first eight and last three of eleven bytes, blanks elsewhere, for builder and reader |
| Names83.LinksInBytes | tools/mkdisk.c:143-151 | the links are one and two dots in the image, and eleven blanks to the reader |
| Names83.EncodersAgreeOnLongNames | tools/mkdisk.c:153-171 | beyond 64 characters they agree if and only if the extension characters the reader does not see are blanks or beyond the third |
| Names83.CaseIsIgnored | src/common/fat.c:11-42 | names equal up to letter case are one name |
| Layout.FatCoversClusters | tools/mkdisk.c:363-368 | although sized before its own sectors are subtracted, a FAT of at least four sectors has an entry for every cluster in use |
| Layout.RegionsInOrder | tools/mkdisk.c:363-368 | FAT 1, FAT 2 and the data area follow one another inside the image, and cluster numbers stay below the end marks |
| Layout.GeometryInNumbers | tools/mkdisk.c:363-368 | the FAT is the least number of sectors with 128 entries each for the clusters it is sized for; byte offsets of both FATs and the data area |
| Layout.DefaultDisk | tools/mkdisk.c:22-32 | the 256 MB disk of the source: 1020 sectors a FAT, data from sector 4120, 130042 clusters |
| Layout.FatWord | tools/mkdisk.c:122-130 | where entry c of FAT 1 lies in the image |
| Layout.Fat2Word | tools/mkdisk.c:122-130 | where entry c of FAT 2 lies in the image |
| Layout.ClusterSlice | tools/mkdisk.c:132-134 | where cluster c lies in the image |
| Layout.ViewOfReservedPatch | tools/mkdisk.c:371-416 | a store in front of the FATs changes neither FAT nor any cluster |
| Layout.ViewOfFat1Patch | tools/mkdisk.c:128 | a store of entry c of FAT 1 changes that entry and nothing else of the volume |
| Layout.ViewOfFat2Patch | tools/mkdisk.c:129 | a store of entry c of FAT 2 changes that entry and nothing else of the volume |
| Layout.ViewOfClusterPatch | tools/mkdisk.c:174-179 | a store into cluster c changes that cluster and nothing else of the volume |
| Layout.ViewIsInjective | tools/mkdisk.c:118-134 | equal volumes are equal images, so a contract on the volume leaves no byte open |
| BootSectors.AssignedField | tools/mkdisk.c:373-404 | after a list of struct assignments each field holds its value: none overwrites another |
| BootSectors.BootSectorFields | tools/mkdisk.c:373-396 | the fields the reader derives its geometry from, read back from the finished sector, whatever VBR code lies under them |
| BootSectors.BootSectorInBytes | tools/mkdisk.c:370-396 | every byte of the finished boot sector, fields the reader never looks at and the VBR code in between included |
| BootSectors.FsInfoInBytes | tools/mkdisk.c:398-404 | every byte of the finished FSInfo sector |
| BootSectors.ReservedInBytes | tools/mkdisk.c:370-416 | every byte of the 32 reserved sectors, backups and raw copy included |
| BootSectors.BackupIntactIff | tools/mkdisk.c:406-416 | sector 6 is still the backup of the boot sector if and only if the raw copy is not made, ends in front of it, or holds the same bytes there |
| BootSectors.SizesThatKeepBackup | tools/mkdisk.c:410-416 | it is for every IO.SYS of a size if and only if that is at most 2048 bytes or too much to be copied, with a file that breaks it for every other size |
| MkDisk.FreeSlot | tools/mkdisk.c:187-190 | the first slot whose name starts with 0x00 or 0xE5, 64 if there is none |
| MkDisk.ImageBuilder.constructor | tools/mkdisk.c:362-368 | a zeroed image with the geometry of its size |
| MkDisk.ImageBuilder.SetFatEntry | tools/mkdisk.c:122-130 | one masked entry changes, in both FATs, and nothing else |
| MkDisk.ImageBuilder.AllocateCluster | tools/mkdisk.c:174-179 | the next cluster is handed out as the end of a chain, and zeroed |
| MkDisk.ImageBuilder.WriteFields | tools/mkdisk.c:191-200 | the eight stores make one directory entry, in any slot, and keep bytes 12 to 19 |
| MkDisk.EntryInBytes | tools/mkdisk.c:191-200 | name, attribute, cluster halves, size, time 0x6000 and date 0x5821 at their offsets of the entry |
| MkDisk.ImageBuilder.AddDirEntry | tools/mkdisk.c:181-208 | the first free slot of the directory gets the entry; -1 and no change if and only if the 64 slots are taken |
| MkDisk.ImageBuilder.CreateDirectory | tools/mkdisk.c:210-218 | one cluster, its entry in the parent, and in bytes the links "." and ".." with attribute 0x10, its own cluster and its parent's, the root written as 0, zeros behind them |
| MkDisk.ImageBuilder.WriteBlock | tools/mkdisk.c:230-247 | one turn extends the chain by one linked cluster holding the next 2048 bytes |
| MkDisk.ImageBuilder.WriteFileData | tools/mkdisk.c:220-252 | the file's blocks, zero-padded, in consecutive clusters that form one ended chain, and its entry in the parent; a NULL source gives a file of zeros |
| MkDisk.ImageBuilder.Format | tools/mkdisk.c:370-421 | boot sector, FSInfo, their backups, the raw copy of IO.SYS where it fits, and the first three FAT entries |
| Volumes.AddToRendered | tools/mkdisk.c:181-208 | used slots stay a prefix, with at most one entry behind them that looks deleted and is overwritten: adding an entry appends it while there is room and changes nothing after that |
| Volumes.DeletedNameIsOverwritten | tools/mkdisk.c:190 | an entry whose name starts with 0xE5 is replaced by the next one added |
| Volumes.NameStart | tools/mkdisk.c:136-172 | no encoded name starts with the end-of-directory mark |
| Volumes.ApplyEffect | tools/mkdisk.c:210-252 | frame and effect of either call on the whole volume |
| Volumes.DirBelow | tools/mkdisk.c:174-218 | every directory of a run is a cluster below the next free one |
| Volumes.NextGrows | tools/mkdisk.c:174-179 | clusters are handed out upwards, so the objects of a run never share one |
| Volumes.FileIsNoDir | tools/mkdisk.c:210-252 | the clusters of a file are never those of a directory |
| Volumes.RunInvariant | tools/mkdisk.c:174-252 | after every run, whatever the names, all objects are chained, all files stored, all directories list exactly what was put there, and the reserved sectors are untouched |
| Volumes.ChainsOfARun | tools/mkdisk.c:122-252 | after every run each object has an acyclic ended chain within [3, next free), disjoint from all others and the root's, the FATs are equal, and entries from the next free cluster on are zero |
| Volumes.NonInterference | tools/mkdisk.c:174-252 | one more call keeps every earlier FAT entry in both copies, every earlier file and every directory but the parent |
| StringOps.MemCmp | src/common/string.c:45-54 | zero if and only if the blocks are equal, otherwise the difference at the first unequal byte |
| StringOps.MemCpy | src/common/string.c:8-16 | the destination holds the source, and nothing else changes |
| StringOps.MemSet | src/common/string.c:18-26 | the block holds the value, and nothing else changes |
| StringOps.MemMove | src/common/string.c:28-43 | with any overlap the destination holds the old source, and nothing else changes |
| FatReader.ReadCluster | src/common/fat.c:229-245 | the sector loop delivers bytes of one cluster and stops short exactly at an unreadable sector |
| FatReader.ReadFile | src/common/fat.c:219-251 | on any FAT, cycles included, 0 if and only if the chain holds that many readable bytes; then they are at dest, and nothing past them is written |
| FatReader.LookupIsFirstHit | src/common/fat.c:163-179 | the lookup gives the first matching live entry in front of the end mark, and fails if and only if there is none |
| FatReader.ScanSector | src/common/fat.c:163-179 | sixteen slots of one sector are sixteen steps of the lookup |
| FatReader.ScanRun | src/common/fat.c:187-213 | a run of sectors is scanned as one list of slots |
| FatReader.SettlesIff | src/common/fat.c:158-179 | a search settles within a list of sectors if and only if one of their slots is a hit, an end mark or unreadable |
| FatReader.FindInChain | src/common/fat.c:149-182 | wherever the chain ends or the search settles, cyclic chains included, the walk is the flat lookup over the sectors of the chain |
| FatReader.FindFile | src/common/fat.c:143-217 | for FAT32 and FAT16 roots the search is the flat lookup of the encoded name |
| RoundTrip.GeometryAgreement | src/common/fat.c:64-98 | for every disk size the reader derives the builder's geometry, and FAT32 if and only if there are at least 65525 clusters |
| RoundTrip.MountBuilt | src/common/fat.c:44-99 | every image with the builder's reserved sectors is mounted with that geometry |
| RoundTrip.NextIsFatEntry | src/common/fat.c:105-119 | the reader's next cluster is the builder's FAT entry |
| RoundTrip.SectorOfCluster | src/common/fat.c:101-103 | the reader's sector s of a cluster is that quarter of the builder's cluster |
| RoundTrip.StoredBytes | src/common/fat.c:219-251 | following the chain from any cluster of a stored file gives the file from there on |
| RoundTrip.EntryFields | src/common/fat.c:170-176 | the reader recombines name, attribute, first cluster and size of an entry as they were given |
| RoundTrip.RootIsCluster2 | src/common/fat.c:150-181 | the reader's root directory is the builder's cluster 2 and nothing more |
| RoundTrip.RootFirstsGrow | tools/mkdisk.c:174-252 | no two root entries have the same first cluster |
| RoundTrip.LookupInBuilt | src/common/fat.c:143-217 | on every built image the lookup of any name is a search in the abstract list of root entries |
| RoundTrip.LostIsNotFound | src/common/fat.c:167-169 | an object whose name starts with 0xE5 is not found, whatever is looked up |
| RoundTrip.FoundIff | src/common/fat.c:143-217 | a root object is found by a name if and only if it has a slot, the name encodes to its own, which does not look deleted, and no earlier root object is so named |
| RoundTrip.FileReadsBack | src/common/fat.c:219-251 | every file of every run, in any directory, is read back in full and unchanged |
| FatVolumes.MountsAsLaidOut | src/common/fat.c:44-99 | a boot sector given byte by byte mounts with the volume's geometry, as FAT16 or FAT32 by its number of clusters |
| FatVolumes.NextInBytes | src/common/fat.c:105-132 | the next cluster is two bytes of a FAT16 at 2c, or 28 bits of four bytes of a FAT32 at 4c |
| FatVolumes.ReadsItsClusters | src/common/fat.c:219-251 | along any chain of any FAT16 or FAT32 volume a file is the bytes of its clusters in the order of the chain |
| FatVolumes.EndsAtMark | src/common/fat.c:134-141 | nothing is read past an end mark, 0xFFF8 and up or 0x0FFFFFF8 and up |
| FatVolumes.HoldsIff | src/common/fat.c:219-251 | so a read succeeds if and only if the clusters of the chain hold that many bytes |
| FatVolumes.FoundInNarrowRoot | src/common/fat.c:183-214 | a FAT16 lookup gives the first entry of that name in the root sectors behind the FATs, in front of the end mark, and fails if and only if there is none |
| FatVolumes.MountsIff | src/common/fat.c:59-72 | fat_init fails if and only if the boot sector cannot be read or does not give 512 bytes a sector, and divides by zero if and only if its byte 13 is zero |
| FatVolumes.UnreadableData | src/common/fat.c:229-241 | a file that reaches into an unreadable sector is not read |
| FatVolumes.UnreadableFat | src/common/fat.c:115-131 | nor one that goes on behind an unreadable sector of the FAT, nor one of two clusters on FAT12 |
| DirLinks.LinksComeFirst | tools/mkdisk.c:214-216 | a directory starts with its links, and its parent was made before it |
| DirLinks.DotDotIsParent | tools/mkdisk.c:216 | ".." names the parent, as 0 for the root |
| DirLinks.DotDotReachesRoot | tools/mkdisk.c:210-218 | following ".." from any created directory reaches the root |
| OnDisk.SizesInNumbers | tools/mkdisk.c:363-368 | the disk sizes covered: at least 65525 clusters and at most 4 GB |
| OnDisk.PositionCounts | tools/mkdisk.c:181-208 | an entry's slot is the number of live entries put there before, behind two links unless in the root |
| OnDisk.EntryOnDisk | tools/mkdisk.c:191-200 | after any run, where in the image the entry of an object is, byte by byte: 0x10 for a directory and 0x20 for a file at byte 11, name, first cluster, size, time and date |
| OnDisk.DirectoryOnDisk | tools/mkdisk.c:210-218 | after any run, the two links of every created directory in the image: 0x10 at bytes 11 and 43, own cluster and parent |
| OnDisk.ChainOnDisk | tools/mkdisk.c:122-130 | after any run, the FAT entries of every object in both copies, at their offsets, the last one 0x0FFFFFFF |
| OnDisk.RestOfFatOnDisk | tools/mkdisk.c:418-421 | after any run, the root is one cluster and all entries from the next free cluster on are zero, in both copies |
| OnDisk.FileOnDisk | tools/mkdisk.c:228-245 | after any run, every byte of every file at its offset, zeros up to the end of the last cluster |
| OnDisk.ReservedOnDisk | tools/mkdisk.c:370-416 | after any run, every byte of the reserved sectors |
| OnDisk.FitsInNumbers | tools/mkdisk.c:423-436 | what main needs: the clusters of the four files and three more |
| OnDisk.MainMarksOnDisk | tools/mkdisk.c:418-421 | the first three entries of both FATs in the image of main, byte by byte |
| OnDisk.MainRootOnDisk | tools/mkdisk.c:423-431 | the root directory of the image of main: IO.SYS, GEMIOS.ELF and EFI with attributes, first clusters and sizes, then the end mark |
| OnDisk.MainEfiOnDisk | tools/mkdisk.c:431-432 | its directory EFI: two links and BOOT |
| OnDisk.MainBootOnDisk | tools/mkdisk.c:432-436 | its directory EFI/BOOT: two links and the two UEFI loaders |
| Pipeline.MainIsLegal | tools/mkdisk.c:423-436 | the calls of main are a legal run whenever the files fit |
| Pipeline.BuildImage | tools/mkdisk.c:362-436 | the partition main builds is the run of its calls on a formatted volume |
| Pipeline.LookupsAgree | src/bios/bios_loader.c:120-121 | the two spellings of the kernel's name are one name, the one the builder stored |
| Pipeline.LoadKernel | src/bios/bios_loader.c:112-131 | on any disk the loader gets past its three checks if and only if the volume mounts, the kernel is listed and its chain is long enough; then the file is in memory |
| Pipeline.KernelIsFound | src/bios/bios_loader.c:112-131 | on the image of main it mounts, finds and reads the kernel, whatever the six input files |
| Pipeline.BuildThenLoad | src/bios/bios_loader.c:112-131 | both programs in sequence, from byte array to byte array: size and contents of the kernel |
| Handoff.ScanForIoSys | src/bios/vbr.S:98-154 | the scan stops at the first sector from partition + 2 on with "gemi" at byte 3 and 55 AA at byte 510 |
| Handoff.ComparesBytes | src/bios/vbr.S:139-146 | the two comparisons accept exactly the sectors with these six bytes |
| Handoff.EntriesStaySmall | tools/mkdisk.c:128-129 | over any run every FAT entry has its top four bits clear |
| Handoff.FatSectorsDiffer | src/bios/vbr.S:139-150 | no sector of a FAT is taken for IO.SYS |
| Handoff.ReservedSectorsDiffer | tools/mkdisk.c:398-416 | without the raw copy no reserved sector behind the boot sector is taken for IO.SYS, the backups included |
| Handoff.RootSectorsDiffer | tools/mkdisk.c:425 | no sector of the root directory is taken for IO.SYS |
| Handoff.NothingInFront | src/bios/vbr.S:98-150 | no sector between the boot sector and IO.SYS is taken for it |
| Handoff.RawCopyPlaced | tools/mkdisk.c:410-416 | where it fits, the raw copy is whole and consecutive at partition + 2 |
| Handoff.FileIsContiguous | tools/mkdisk.c:220-252 | the sectors of a file are consecutive on the disk |
| Handoff.IoSysPlaced | tools/mkdisk.c:410-425 | in either case consecutive sectors hold IO.SYS |
| Handoff.BootScan | src/bios/vbr.S:98-158 | for every IO.SYS with these six bytes the scan of the built image ends there: at sector 2050 up to 14848 bytes, behind the root directory otherwise, with the whole file in consecutive sectors |
| Handoff.FirstStage.SelfLoad | src/bios/io16.S:37-94 | every byte of memory from 0x10000 on: twelve copies of the first 32 KB behind the first sector, everything else as before; on a failed read nothing changes |
| Handoff.LoadedRightIff | src/bios/io16.S:44-94 | the load is right if and only if the file repeats itself every 32 KB behind its first sector |
| Handoff.SizesThatLoad | src/bios/io16.S:42 | all bootable files of a size end up right in memory, from any image, if and only if the size is at most 512 bytes plus 32 KB, with a failing file, image and memory for every larger size |
| Handoff.HandOff | src/bios/io16.S:30-94 | scan and load on every built image, with that condition |
| TextGrid.WindowOfWrite | src/efi64/efi64.c:53-102 | one character keeps the screen the last lines of the paper |
| TextGrid.ScreenIsWindow | src/efi64/efi64.c:43-102 | after any string the wrapping and scrolling screen shows the end of everything printed |
| TextGrid.PlainText | src/efi64/efi64.c:74-101 | text without control characters fills the paper in reading order, character k in line k / cols and column k % cols, with nothing behind it |
| Console.ShownPixel | src/efi64/efi64.c:83-99 | pixel by pixel, in the bytes of the font: white where bit 7 - x % 8 of row y % 16 of the glyph of the cell is set, black elsewhere and outside the text area |
| Console.DrawInLine | src/efi64/efi64.c:90-99 | drawing over a cell shows the row with that character exchanged |
| Console.StoreInLine | src/efi64/efi64.c:95-98 | a store into one scan line changes no other |
| Console.ScrollLines | src/efi64/efi64.c:43-51 | moving the lines up by 16 and blackening the last 16 scrolls the grid for every height; the band below the last row is black and stays so |
| Console.Terminal.constructor | src/efi64/efi64.c:313-314 | whatever the buffer held, the screen shows the empty grid |
| Console.Terminal.Headless | src/efi64/efi64.c:58 | without a framebuffer the terminal is valid and nothing is drawn |
| Console.Terminal.ClearScreen | src/efi64/efi64.c:36-41 | the screen shows the empty grid |
| Console.Terminal.Scroll | src/efi64/efi64.c:43-51 | the first row goes, a blank one comes |
| Console.Terminal.AdvanceLine | src/efi64/efi64.c:65-70 | the cursor moves to the next row, scrolling at the last |
| Console.Terminal.DrawGlyph | src/efi64/efi64.c:83-99 | the two pixel loops exchange one cell of what the screen shows, and its 128 pixels are the bits of the glyph, top row first and left bit first |
| Console.Terminal.DrawChar | src/efi64/efi64.c:53-102 | one character on the screen is one on the grid: CR, LF, pending wrap and scrolling; all stores inside the framebuffer |
| Console.Terminal.PutsToFirmware | src/efi64/efi64.c:108-122 | the firmware gets the CR-expanded prefix taken so far, never past slot 255 of its buffer, and each of its characters is drawn once |
| Console.Terminal.Puts | src/efi64/efi64.c:104-131 | over its two loops each character is drawn exactly once and in order |
| Console.TakenWholeIff | src/efi64/efi64.c:110 | the firmware gets the whole string if and only if all but its last character expand to fewer than 254 units |
| Console.Terminal.PutDec | src/efi64/efi64.c:133-154 | the decimal form of the value on both consoles |
| Console.PrintOnFreshScreen | src/efi64/efi64.c:36-131 | every byte of the framebuffer after any string on a cleared screen, every pixel as a bit of the font, and what the firmware console got, with one or without |
| Decimals.DecimalDenotes | src/common/string.c:132-146 | digits only, no leading zero, and they denote the number |
| Decimals.TenDigits | src/efi64/efi64.c:134 | a uint32_t fits the buffers of both printers |
| Decimals.StoreDigits | src/common/string.c:139-142 | the division loop stores the digits in reverse |
| Decimals.ReverseInPlace | src/efi64/efi64.c:145-152 | the swap loop reverses the digits in place |
| Decimals.SerialPutDec | src/common/string.c:132-146 | the serial line gets the same decimal form |
| Pci.AddressIsInjective | src/efi64/efi64.c:179-189 | two accesses meet the same dword if and only if bus, slot, function and dword offset agree |
| Pci.ProbeLength | src/efi64/efi64.c:224-230 | writing all ones and reading back yields the size of the BAR, or the default |
| Pci.PciBus.ProgramBar | src/efi64/efi64.c:217-244 | the register writes in order, a BAR only while memory decoding is off, with the length probed and the window taken below the last one |
| Pci.PciBus.MoveBar | src/efi64/efi64.c:213-249 | the whole innermost branch, with the translation of the framebuffer address |
| Pci.PciBus.WalkBars | src/efi64/efi64.c:206-254 | the walk over six BARs that skips high halves |
| Pci.PciBus.WriteBar | src/efi64/efi64.c:223-240 | a BAR is written only while the command register has memory decoding off, and leaves it off |
| Pci.PciBus.WalkFunctions | src/efi64/efi64.c:199-262 | the walk over the functions, with its two early exits in dwords: nothing at function 0, or bit 7 of its header type clear |
| Pci.SlotInNumbers | src/efi64/efi64.c:200-204 | function 0 of a slot decides by its identification and header type whether none, one or all functions are visited |
| Pci.FunctionInNumbers | src/efi64/efi64.c:200-204 | of functions 1 to 7 exactly those that answer are visited |
| Pci.PciBus.RemapAbove4G | src/efi64/efi64.c:191-268 | configuration space and returned address after the four nested loops |
| PciWindows.RewriteEffect | src/efi64/efi64.c:217-244 | the five writes change the two halves of the BAR and the command dword only; the flag bits stay and the command is enabled |
| PciWindows.CommandBits | src/efi64/efi64.c:243-244 | an enabled command has memory decoding and bus mastering on and its other bits as before; enabling it again changes nothing |
| PciWindows.CommandInNumbers | src/efi64/efi64.c:243 | the enabled command keeps bit 0 and bits 3 up and has 11 in between |
| PciWindows.NextWindow | src/efi64/efi64.c:232-234 | the next window is aligned, below the last, and less than twice its size down |
| PciWindows.MoveKeeps | src/efi64/efi64.c:213-249 | one move keeps the invariant of the walk and brings no high half back |
| PciWindows.HeaderStays | src/efi64/efi64.c:200-262 | identification and header type are never written, so the walk visits what it found at the start |
| PciWindows.BarsScanned | src/efi64/efi64.c:206-254 | the walk over one function keeps the invariant and clears every high half |
| PciWindows.SlotsScanned | src/efi64/efi64.c:197-265 | so does any number of slots |
| PciWindows.MovedIff | src/efi64/efi64.c:197-265 | a BAR is moved if and only if its high half was not zero and its function answers and is function 0 or belongs to a multifunction device, in dwords at the start; its high half is zero then, and both halves are unchanged otherwise |
| PciWindows.EndState | src/efi64/efi64.c:191-268 | at the end no 64-bit BAR of a visited function has a high half, exactly those above 4 GB were moved, low BARs, flag bits and all unrelated dwords are as before, and a command dword is changed only where a BAR was moved, to bits 1 and 2 on |
| PciWindows.WindowsAreSound | src/efi64/efi64.c:232-239 | if the windows fit twice below 0xE0000000 they are aligned, pairwise disjoint, below it and no lower than twice their sum, and each device of at most 512 MB decodes exactly its own |
| PciWindows.LowBarsKeepTheirPlace | src/efi64/efi64.c:232-239 | a BAR that was below 4 GB and ends below that stretch keeps its address, and no window overlaps it |
| PciWindows.SpaceSuffices | src/efi64/efi64.c:232-234 | that condition follows from the sizes of the BARs above 4 GB, before the walk |
| PciWindows.SumsInNumbers | src/efi64/efi64.c:230-235 | the sums of that condition, window by window and BAR by BAR |
| PciWindows.FramebufferFollows | src/efi64/efi64.c:246-249 | a framebuffer inside a BAR above 4 GB of a visited function: the BAR gets a window, and the framebuffer keeps its offset in it |
| PciWindows.FramebufferStays | src/efi64/efi64.c:196-268 | a framebuffer outside all BARs above 4 GB stays |
| ElfLoader.FirstBad | src/common/elf.c:53-75 | the first header that fails a bounds check, all earlier ones passing |
| ElfLoader.Elf32Validate | src/common/elf.c:9-39 | accepts if and only if the image is a little-endian 32-bit i386 executable with program headers |
| ElfLoader.CopyAndClear | src/common/elf.c:72-86 | memcpy and memset leave file bytes then zeros, and miss the image |
| ElfLoader.LoadSegment | src/common/elf.c:57-88 | one header: checked, and loaded if it is PT_LOAD |
| ElfLoader.Elf32Load | src/common/elf.c:41-91 | memory is the in-order load of all headers in front of the first bad one; the entry point, bytes 24 to 27 of the image, if there is none, otherwise 0 |
| ElfLoader.LastWriterWins | src/common/elf.c:53-88 | a byte that several segments cover belongs to the last of them |
| ElfLoader.UncoveredStays | src/common/elf.c:53-88 | a byte that none covers is unchanged |
| ElfLoader.SegmentsInPlace | src/common/elf.c:65-88 | with disjoint destinations every PT_LOAD has its file bytes at p_paddr and zeros up to p_memsz |
| ElfLoader.ImageSurvives | src/common/elf.c:41-91 | the image is intact after the load |
| ElfLoader.HeaderReadsBack | src/common/elf.c:9-60 | validation, entry point and program header offsets are those of the header record the file was laid down from |
| ElfLoader.SegmentReadsBack | src/common/elf.c:63-70 | so are the fields of a program header |
| ElfLoader.LoadsWholeIff | src/common/elf.c:53-75 | a file laid down from records is loaded whole if and only if every PT_LOAD file part ends inside it, in 32-bit arithmetic |
| ElfLoader.ProgramInMemory | src/common/elf.c:65-88 | then every header of type 1 has its file bytes at p_paddr and zeros up to p_memsz |
| ElfLoader.ElsewhereInMemory | src/common/elf.c:65-88 | and memory outside them is unchanged |
| DiskChunks.ChunksAreOneRead | src/bios/bios_disk.c:32-57 | the raw calls ask for 1 to 64 sectors each and together give exactly the bulk read |
| DiskChunks.ChunkAt | src/bios/bios_disk.c:36-40 | call i starts 64 i sectors on and asks for 64, or for what is left |
| DiskChunks.DeliveredSplit | src/bios/bios_disk.c:53-57 | a chunk copied behind what has arrived makes one longer delivery |
| DiskChunks.Bios.ReadChunk | src/bios/bios_disk.c:32-53 | one turn: at most 64 sectors through the bounce buffer; a failed call leaves the destination alone |
| DiskChunks.Bios.ReadLoop | src/bios/bios_disk.c:32-59 | success delivers all sectors by the listed calls; failure comes with a failing call, leaves a prefix of whole chunks and the rest untouched |
| DiskChunks.Bios.ReadSectors | src/bios/bios_disk.c:24-60 | the same with the early return for no sectors or no buffer, and the buffer byte by byte |
| MemoryMap.AvailableIffFree | src/efi64/efi64.c:501-526 | when descriptors do not overlap, a kernel never takes memory for usable that is not free after the exit, cut-off descriptors included, and it may use all free memory of the first 120 |
| MemoryMap.TotalIsSum | src/efi64/efi64.c:499-510 | the 64-bit total is the sum of the available lengths modulo 2^64 |
| MemoryMap.DescriptorReadsBack | src/efi64/efi64.c:502-510 | type, start and pages of a descriptor are read as the firmware laid them down |
| MemoryMap.EntryReadsBack | src/efi64/efi64.c:519-524 | start, length and type of an entry recombine from its dwords |
| MemoryMap.WalkEncoded | src/efi64/efi64.c:519-530 | a walk by size + 4 visits exactly the entries and stops at their end |
| MemoryMap.ConvertLoop | src/efi64/efi64.c:501-526 | the first 120 descriptors at most, at any stride, as entries, with the sum of the available ones |
| MemoryMap.ConvertMemoryMap | src/efi64/efi64.c:494-536 | a kernel that walks the result finds those ranges at 0x8004, their count at 0x8000, and mem_upper from their sum, 130048 up to one megabyte |
| MemoryMap.EntryInMemory | src/efi64/efi64.c:501-526 | every entry of the finished map in bytes, from the bytes of its descriptor: 20, start, 4096 times the pages, and for each EFI type its Multiboot type |
| MemoryMap.ExitLoop32 | src/efi32/efi32.c:535-545 | converting first: once ExitBootServices has succeeded no boot service is called, and the Multiboot map describes the firmware map as it then is; otherwise every turn met a failing call |
| MemoryMap.ExitLoop64 | src/efi64/efi64.c:648-665 | converting afterwards: the same, for ten turns |

## Left out

- MemoryMap.ExitLoop32: the source's loop has no bound; the contract holds for every number of turns, and does not say that one of them succeeds.
- MemoryMap.ExitLoop64: the path after ten failed attempts converts whatever is left in the buffer, possibly with a zero descriptor size; the model ends there.
- FatReader.ReadFile: a volume with zero sectors per cluster is excluded, since fat_init divides by that number; cluster numbers wrap as uint32_t, file sizes do not. A sector that can be read once can be read again: failures that come and go are modelled in DiskChunks only.
- FatReader.FindFile: a FAT32 root chain that never ends and holds neither a hit nor an end mark is excluded; the source does not come back from it.
- RoundTrip.NextIsFatEntry: FAT12 chains are modelled as the code has them (always at their end), and only FatVolumes.UnreadableFat is about them.
- RoundTrip.FoundIff: the reader searches the root only, so objects in subdirectories are read back by FileReadsBack but not looked up.
- PciWindows.WindowsAreSound: BARs of more than 512 MB get the source's 256 MB window; that such a device decodes it is not claimed.
- PciWindows.RewriteEffect: the status half of the command dword is stored like any register; its write-one-to-clear bits are not modelled.
- PciWindows.EndState: bridges are scanned as six BARs, as the code does; a function whose dwords hold something else than BARs there is part of the population only as far as it looks like one.
- Pci.PciBus.MoveBar: the end of a BAR at the very top of the 64-bit space does not wrap around.
- ElfLoader.Elf32Load: destinations inside memory and outside the image, and header and file offsets whose sums stay below 2^32, are preconditions; in 32-bit builds the source would wrap there.
- Handoff.FirstStage.SelfLoad: INT 13h either reads 64 sectors or fails for good; resets and retries of transient failures are one outcome.
- MkDisk.ImageBuilder.WriteFileData: objects past the end of the data area are excluded; allocate_cluster does not check.
- MkDisk.ImageBuilder.constructor: disk sizes are between 65525 clusters and 4 GiB; the source fixes 256 MB.
- Console.Terminal.constructor: a framebuffer of less than 2^32 bytes and a mode of at least one character cell; the font is an arbitrary glyph table.
- Pci.AlignDown: masks with powers of two and shifts are written as rounding, quotients and remainders.
- The master boot record (sector 0 of the image, tools/mkdisk.c:337-360), reading and writing host files, and argument handling of mkdisk.
- INT 10h, 13h and 15h as hardware, A20, mode switches, descriptor tables, trampolines and port timing.
- UEFI protocol lookup, mode selection, file opening and the search for the ACPI tables.
- The search for the active partition, the constant fallback memory map of the BIOS path, VBE fields, CMOS delays, serial set-up and hexadecimal output.
