# flareOS: a verified model of its stateful core

flareOS is a small x86_64 kernel written in C. This project states in Dafny what seven of its
components do, step by step and with the same branches, limits and constants, and proves what they
keep, promise or fail to promise. `dafny verify dfyconfig.toml` checks everything.

Each component has a model on values (functions from state to state, with the theorems about every
input and every run) and, where the C code updates memory in place, a class whose methods are
proved to perform exactly the modelled steps.

| files | component |
|---|---|
| `FlareLayout`, `FlareFsModel`, `FlareFsInvariant`, `FlareFsCrash`, `FlareFsRuns`, `FlareFsRecovery`, `FlareFsInstall`, `FlareFsNames`, `FlareFsBytes`, `FlareFs` | FlareFS, the writable file system: disk format byte by byte, names, what a mount rebuilds, crash atomicity, refinement of a map over whole runs with crashes in them, installation, and the driver over an ATA drive whose transfers may fail |
| `ExtentReader`, `ExtentImage` | the ext4 extent reader against a per-byte lookup, and on images that hold trees in ext4's byte layout |
| `PageTables`, `PageMapping`, `PageRanges`, `PageRoots`, `Paging` | 4-level page tables in a pool against the processor's walk (Intel SDM volume 3A, section 4.5) |
| `Checksum`, `Dns`, `DnsQuestion`, `Tcp`, `Http`, `HttpRequest`, `HttpEnds`, `HttpDelivers`, `HttpClient` | checksums, DNS queries and responses, TCP receive, URLs and requests, and the non-blocking HTTP fetch |
| `Editor`, `EditorKeys`, `EditorRows`, `EditorCursor`, `EditorBuffer`, `EditorLoad`, `EditorFiles` | the text editor: edits as splices of one string, keys as edits and the clamp of the cursor, the rows behind both, opening files, and saving to FlareFS |
| `Snake`, `SnakePlay`, `SnakeGame` | the snake game over every run of keys and ticks |
| `KeyRing` | the key queue between interrupt and main loop |
| `Machine` | integer widths, little-endian memory, C strings, shifting in arrays |

How the machine is seen: a disk is a sequence of sectors and a call a trace of sector writes, each
atomic; bytes that `kmalloc` hands out, `g_ticks`, received packets and memory behind a packet are
parameters; sends are instantaneous and `g_ticks` is sampled once per poll; file contents are owned
byte sequences. `char` is signed, as on this target, so file names and editor text are 7-bit.

Where the code does less than one might expect, the exact condition is proved:

- A crash between the changed directory sector and the superblock leaves a stale
  `next_free_sector`; the files mount as promised, but the next write lands on the new file's
  extent and overlays its bytes (`FlareFsCrash.RecoveryIff`, `StaleSuperReusesExtent`,
  `FlareFsRecovery.StaleWriteOverlays`).
- The framebuffer's base is rounded down before its size is added, so its last page can stay
  unmapped (`Paging.FramebufferMappedIff`, `HalfFramebufferLost`).
- `paging_map_page` takes a large page in its way for a table, so a 4 KiB mapping below the end of
  the identity map has no effect (`PageMapping.Map4KTakesEffectIff`, `Paging.IdentityPageLost`).
- `net_poll` takes a payload's length from the Ethernet frame, so padding of short segments, a bare
  FIN among them, becomes response data (`Tcp.IntactIffUnpadded`, `IntactOnEthernetIff`,
  `BareFinBecomesData`).
- `tcp_handle` acknowledges data it has no room for (`Tcp.StreamAcknowledged`, `IntactIffFits`).
- A fetch gives up at a deadline only when its poll finds nothing
  (`HttpDelivers.FetchDeliversIff`).
- A connection refused with RST is not noticed before the deadline, and a reset while receiving
  delivers what has arrived (`HttpDelivers.RefusalUnnoticed`, `ResetDelivers`).
- A DNS question that is a compression pointer is not skipped correctly, nor is an answer name of
  labels that ends in one (`Dns.PointerQuestionIff`, `MixedNameMisread`).
- A root copy and the kernel's root part ways once a range needs a new level 4 slot
  (`PageRoots.CoherenceIff`).
- Enter and then Backspace restore the text only up to lines of 254 characters, and a save keeps
  16384 bytes (`Editor.BackspaceUndoesNewlineIff`, `SaveRoundTripIff`).
- Every key ends in a clamp that moves the cursor to column 2 or further, so keys typed at the start
  of a line do not stay together, and on a shorter line characters are lost and stale bytes appear
  (`EditorKeys.KeyIsEditIff`, `RunFollows`, `EditorRows.TypedShowsIff`, `BreakBehindIff`).

## Model

| member | source | states |
|---|---|---|
| FlareLayout.SuperRoundTrip | kernel/fs/ext4.c:362-368 | The superblock sector read back as words gives the eight fields that were written, whatever pads the sector |
| FlareLayout.EntryRoundTrip | kernel/fs/ext4.c:61-67 | A packed 64-byte directory entry read back gives the same name, start, count, size and used mark |
| FlareLayout.DirEntryRoundTrip | kernel/fs/ext4.c:370-379 | An entry never straddles two sectors: entry k comes back whole from directory sector k / 8 |
| FlareLayout.OneDirSectorChanges | kernel/fs/ext4.c:370-379 | Changing entry k alters the bytes of directory sector k / 8 and of no other |
| FlareLayout.PadNameRoundTrip | kernel/fs/ext4.c:594-600 | A name stored by strcpy into a zeroed field is the C string read back from it |
| FlareFsBytes.FormattedWords | kernel/fs/ext4.c:491-525 | A formatted superblock's words: magic 0x31534646, version 1, LBA 321, 256 sectors, 32 entries, 4 directory sectors, next free sector 5, and zeros behind them |
| FlareFsBytes.FormatLayout | kernel/fs/ext4.c:491-525 | A finished format leaves that superblock and zeros in the other 255 sectors of the region |
| FlareFsBytes.EntryBytesAt | kernel/fs/ext4.c:61-67 | The used mark, start, count, size and name of entry k lie at offsets 0, 4, 8, 12 and 16 of its 64 bytes, little-endian |
| FlareFsBytes.RemovedBytes | kernel/fs/ext4.c:656-680 | A remove clears all 64 bytes of the file's entry |
| FlareFsBytes.MountIff | kernel/fs/ext4.c:420-489 | Any disk mounts exactly when six superblock words are right and every sector the read loop visits for a shown entry exists |
| FlareFsBytes.MountLists | kernel/fs/ext4.c:444-484 | On any disk that mounts the table lists, in order and once each, exactly the used entries whose name does not start with NUL, with name, size and bytes read at their places; bytes behind the extent are what memory held |
| FlareFsInvariant.MountLinked | kernel/fs/ext4.c:420-489 | A disk with sound metadata mounts whatever the heap held, to a file table that lists exactly the used directory entries, each once, with the bytes of its extent |
| FlareFsInvariant.RemountSame | kernel/fs/ext4.c:420-489 | A remount of a disk that agrees with memory shows the same name-to-bytes map and agrees again |
| FlareFsInvariant.LinkedContentsUnique | kernel/fs/ext4.c:448-484 | Two file tables that both list the used entries of one directory show the same files, in whatever order |
| FlareFsCrash.PlanFits | kernel/fs/ext4.c:574-582 | The u32 space check of an accepted write does not wrap: the new extent really lies between next_free_sector and the end of the region |
| FlareFsCrash.CrashedSectors | kernel/fs/ext4.c:584-612 | Every sector of the region after any prefix of a write's sector writes: metadata before and after their turn, the data written so far, the rest as before |
| FlareFsCrash.WriteCrashAtomic | kernel/fs/ext4.c:584-612 | Crash atomicity: after any prefix of the sector writes of a create, replace or append the disk mounts, as exactly the old map up to the one directory sector that changes and as exactly the new map from there on |
| FlareFsCrash.WriteCompletes | kernel/fs/ext4.c:584-631 | A completed write keeps memory and disk in agreement and updates the map at its name and nowhere else |
| FlareFsCrash.WriteFootprint | kernel/fs/ext4.c:584-612 | At every point of a write, no sector below next_free_sector differs but metadata, only one directory sector differs, and nothing outside the region does |
| FlareFsCrash.RecoveryIff | kernel/fs/ext4.c:609-612 | The remounted state meets the allocation invariant exactly when the crash did not fall between the changed directory sector and the superblock |
| FlareFsCrash.StaleSuper | kernel/fs/ext4.c:609-612 | In that window the mounted directory lists an extent that starts at next_free_sector itself |
| FlareFsCrash.StaleSuperReusesExtent | kernel/fs/ext4.c:574-612 | After a crash in that window the next accepted write of any file is placed on the extent of the file whose write was cut short |
| FlareFsCrash.ContentsUpdate | kernel/fs/ext4.c:614-629 | Setting one slot of g_files changes the name-to-bytes map at that name only |
| FlareFsCrash.RemoveCrashAtomic | kernel/fs/ext4.c:656-680 | After any prefix of a remove's sector writes the disk agrees with the old tables or with the new ones, and the new map lacks exactly the removed name |
| FlareFsRuns.AcceptsIff | kernel/fs/ext4.c:527-582 | A write is accepted exactly when the name is valid, the file exists or fewer than 32 do, and the sectors of all writes since the format leave room; an append stores old bytes then new |
| FlareFsNames.NoNameRefused | kernel/fs/ext4.c:380-396 | In every state a write changes nothing when the name is empty, longer than 47 bytes, or has a slash, a backslash, a byte up to the blank or one from 0x80 |
| FlareFsNames.WriteTakesEffectIff | kernel/fs/ext4.c:527-631 | With every other name a write stores its data, or appends it to the old bytes, exactly when the file exists or fewer than 32 do and 512 bytes times the sectors left of 251 hold the result |
| FlareFsNames.FirstWrite | kernel/fs/ext4.c:527-631 | On a freshly formatted disk, for data of at most 251 sectors, exactly the names not refused lead to a map of that one file |
| FlareFsNames.TwoNames | kernel/core/shell.c:1202 | keyboard.cfg is written, a/b is refused |
| FlareFsRuns.PutRefines | kernel/fs/ext4.c:527-631 | One write or append, accepted or refused, is one put on the abstract map |
| FlareFsRuns.RemoveRefines | kernel/fs/ext4.c:656-680 | One remove is one deletion from the abstract map |
| FlareFsRuns.FormatRefines | kernel/fs/ext4.c:491-525 | A format from any state and any disk contents leads to the empty map and an empty log |
| FlareFsRuns.RunRefines | kernel/fs/ext4.c:420-680 | Every run of put, append, remove, remount and format, from any agreeing state, ends in the map of the abstract run, with memory and disk in agreement |
| FlareFsRuns.RunFromFormat | kernel/fs/ext4.c:420-680 | The same for every run that starts with a format, from any earlier state |
| FlareFsRuns.ExtentsConserved | kernel/fs/ext4.c:574-607 | On every such run live extents are pairwise disjoint in [5, next_free_sector), next_free_sector is 5 plus the sectors of every successful write since the format and at most 256, and g_files and used entries are in bijection by distinct names |
| FlareFsRuns.CrashInRun | kernel/fs/ext4.c:420-680 | A crash anywhere inside the call that follows any run leaves a disk that mounts as the abstract map before or after that call |
| FlareFsRecovery.CutRefines | kernel/fs/ext4.c:420-680 | A call cut short outside the stale window, then a remount: allocation invariant included, the state is the one of the abstract map with the call done or not done |
| FlareFsRecovery.CrashingRunRefines | kernel/fs/ext4.c:420-680 | Runs with any number of such crashes anywhere in them refine the abstract run of the calls that took effect |
| FlareFsRecovery.StaleWriteOverlays | kernel/fs/ext4.c:574-612 | After a crash inside the window and any completed write of another name, a mount shows the surviving file as its data overlaid by the sectors of the other's, so unchanged exactly when the overlay agrees |
| FlareFsRecovery.FirstByteLost | kernel/fs/ext4.c:584-591 | That overlay damages the file whenever the two first bytes differ |
| FlareFsRecovery.OneByteFileStale | kernel/fs/ext4.c:609-612 | On an empty file system the write of a one-byte file cut before its sixth sector mounts without the allocation invariant |
| FlareFsInstall.InstallRefines | kernel/fs/ext4.c:682-705 | After n files an install stands for the abstract run of putting those files on an empty disk |
| FlareFsInstall.InstallSucceedsIff | kernel/fs/ext4.c:682-705 | fs_install succeeds exactly when every name is valid and the files' sectors, at least one each, sum to at most 251 |
| FlareFsNames.InstallTakesIff | kernel/fs/ext4.c:682-705 | The same with the refused names spelled out |
| FlareFsInstall.InstallCompacts | kernel/fs/ext4.c:682-705 | A successful install keeps the file map, and the live extents then tile [5, next_free_sector) without a gap |
| FlareFsInstall.FormatCrash | kernel/fs/ext4.c:491-525 | A format cut short leaves a disk that does not mount until the superblock is written and the empty file system from then on |
| FlareFsInstall.InstallCrash | kernel/fs/ext4.c:491-525 | An install cut short leaves the old disk, a disk that does not mount, or exactly the first j files for some j, never a mixture |
| FlareFs.AtaDisk.Read | kernel/fs/ext4.c:354-356 | A sector read returns the stored bytes when it succeeds, and always succeeds on a reliable drive |
| FlareFs.AtaDisk.Write | kernel/fs/ext4.c:358-360 | A sector write happens whole or not at all, a failed one possibly still; only success reports success |
| FlareFs.FlareFs.WriteSuper | kernel/fs/ext4.c:362-368 | The superblock's one sector write, or its failure |
| FlareFs.FlareFs.WriteDirectory | kernel/fs/ext4.c:370-379 | The four directory sector writes in order, or a prefix of them on failure |
| FlareFs.FlareFs.LookUp | kernel/fs/ext4.c:398-405 | The first slot whose name matches, or -1 when none does |
| FlareFs.FlareFs.Decide | kernel/fs/ext4.c:527-582 | All checks of a write before its first disk access, with the slot, directory entry and extent it will use |
| FlareFs.FlareFs.WriteFile | kernel/fs/ext4.c:527-631 | fs_write_file: a refused call changes nothing, one whose data writes fail changes no table, one whose metadata writes fail leaves directory and superblock ahead of the file table, success is the planned state, and the disk always holds a prefix of the planned writes |
| FlareFs.FlareFs.WriteMetadata | kernel/fs/ext4.c:609-612 | Directory, then superblock: the five sector writes in order, or a prefix of them on failure |
| FlareFs.WrittenMounts | kernel/fs/ext4.c:527-612 | Whatever one fs_write_file call left on the disk, a transfer failed or not, mounts as the old files or as the new ones |
| FlareFs.FlareFs.RemoveFile | kernel/fs/ext4.c:656-680 | fs_remove_file in the tables and on the disk, with the gap in g_files closed in place |
| FlareFs.FlareFs.ReadFile | kernel/fs/ext4.c:458-477 | The per-file read loop rebuilds exactly the bytes a mount promises, or fails |
| FlareFs.FlareFs.Mount | kernel/fs/ext4.c:420-489 | flarefs_mount leaves exactly the rebuilt tables when it succeeds, always succeeds on a reliable drive with a mountable disk, and never claims a disk that does not mount |
| FlareFs.FlareFs.Init | kernel/fs/ext4.c:633-642 | fs_init: the mounted tables, or the install media's files read-only |
| FlareFs.FlareFs.Format | kernel/fs/ext4.c:491-525 | flarefs_format writes zeros, superblock and directory in that order and leaves the empty tables when all succeed |
| FlareFs.FlareFs.InstallFiles | kernel/fs/ext4.c:682-705 | fs_install performs a prefix of the specified trace, and on a reliable drive its result, tables and disk are exactly the specified ones |
| ExtentReader.PaintIsLookup | kernel/fs/ext4.c:166-210 | Copying the extents of a tree in order leaves each byte equal to the byte found by looking up its logical block, the later extent winning |
| ExtentReader.LookupUnique | kernel/fs/ext4.c:166-210 | With disjoint ranges byte o is byte o modulo the block size of the one physical block mapped at o divided by the block size |
| ExtentReader.LookupHole | kernel/fs/ext4.c:178-196 | Holes and unwritten extents read as zeros |
| ExtentReader.DirectAgrees | kernel/fs/ext4.c:212-232 | A file of at most 12 blocks described by pointers and by extents: when the extents can be read so can the pointers, and both read the same |
| ExtentReader.CopyExtent | kernel/fs/ext4.c:178-196 | One round of the leaf loop paints one extent over the buffer, or fails exactly when needed bytes lie outside the image |
| ExtentReader.CopyExtentTree | kernel/fs/ext4.c:166-210 | The recursive copy of a finite tree, whatever its depth fields, succeeds exactly when every node and every needed block can be read, and then has painted all leaves in order |
| ExtentReader.LeavesAlike | kernel/fs/ext4.c:166-210 | The extents visited do not depend on the bound that ends the recursion |
| ExtentReader.CopyDirectBlocks | kernel/fs/ext4.c:212-232 | The 12-pointer copy succeeds exactly when every needed block can be read, and then every byte is its pointer's byte or 0 |
| ExtentReader.LoadInodeData | kernel/fs/ext4.c:234-243 | A successful load of a well-formed inode leaves each byte equal to the byte its logical block maps to, through extents or pointers, and 0 in holes |
| ExtentImage.HeaderRead | kernel/fs/ext4.c:28-34 | The magic, entry count and depth of a header written in its little-endian layout are read back |
| ExtentImage.ExtentRead | kernel/fs/ext4.c:36-41 | So are block, length and 48-bit start of a leaf's entry, high half included |
| ExtentImage.IndexRead | kernel/fs/ext4.c:43-48 | And the 48-bit block that an index entry names |
| ExtentImage.TreeRead | kernel/fs/ext4.c:166-210 | In every image that holds a tree, of any height, the reader visits exactly its extents from left to right |
| ExtentImage.NodeReadableIff | kernel/fs/ext4.c:199-206 | A node can be read exactly when it has the magic and every entry's block lies in the image and starts a readable node |
| ExtentImage.ReadableIff | kernel/fs/ext4.c:178-192 | An extent's blocks can be read exactly when the image has every byte they supply below the file's size |
| ExtentImage.FlagRead | kernel/fs/ext4.c:238-240 | Bit 0x80000 of the flags at offset 32 chooses between extents and pointers |
| ExtentImage.StoredFileLoads | kernel/fs/ext4.c:166-243 | End to end: of a file whose inode holds an extent tree, byte o is byte o modulo the block size of block start + (o / bs - block) for the extent that maps it, and 0 where none does |
| ExtentImage.OneBlockFile | kernel/fs/ext4.c:166-197 | The 24 bytes of a leaf with one extent of one block at block 5 load block 5 |
| ExtentImage.PointerReadableIff | kernel/fs/ext4.c:216-228 | A pointer's block can be read exactly when the image has every byte it supplies |
| ExtentImage.PointersLoad | kernel/fs/ext4.c:212-232 | Of a file described by twelve pointers at offset 40, byte o comes from the block of pointer o / bs, and is 0 where that is 0 |
| PageTables.CreateInv | kernel/arch/x86_64/paging.c:38-44 | paging_walk_create keeps the forest a tree of linked pool tables and returns the table the indices name |
| PageTables.CreateWalks | kernel/arch/x86_64/paging.c:26-44 | Linking a fresh zeroed table changes no translation, from any root |
| PageTables.ViaPd | kernel/arch/x86_64/paging.c:34-44 | Every hardware walk goes through the one directory its two upper indices name, or faults |
| PageTables.SetBigWalks | kernel/arch/x86_64/paging.c:56-66 | Storing a large page changes exactly the walks that use its slot |
| PageTables.SetSmallWalks | kernel/arch/x86_64/paging.c:46-54 | Storing a small page changes exactly the walks that use its slot |
| PageMapping.BigEntryBits | kernel/arch/x86_64/paging.c:56-66 | The stored entry is present, large, and points to the rounded-down address, whatever the caller's flags |
| PageMapping.EntryFlags | kernel/arch/x86_64/paging.c:51-64 | Large and small entries keep the caller's other flag bits |
| PageMapping.Map2MInv | kernel/arch/x86_64/paging.c:56-66 | Mapping a 2 MiB page keeps the forest's invariant and fails only when the pool is empty |
| PageMapping.Map2MWalks | kernel/arch/x86_64/paging.c:56-66 | After mapping a 2 MiB page every address in it walks to the page plus the offset, and every other address as before |
| PageMapping.Map4KWalks | kernel/arch/x86_64/paging.c:46-54 | The same for a 4 KiB page where no large page covers the address |
| PageMapping.Map4KLost | kernel/arch/x86_64/paging.c:34-54 | Where a large page outside the pool covers the address, its memory is taken for a table and no page table changes |
| PageMapping.Map4KTakesEffectIff | kernel/arch/x86_64/paging.c:34-54 | So a 4 KiB mapping takes effect exactly when no large page is in the way, or that page maps the address to the same place already; otherwise every walk from every root stays as it was |
| PageRanges.MapRangeWalks | kernel/arch/x86_64/paging.c:68-83 | A range maps every address of its pages linearly and leaves every other address alone |
| PageRanges.Map2MCost | kernel/arch/x86_64/paging.c:38-66 | A 2 MiB page costs one table per missing directory on its path, and fails exactly when the pool cannot pay |
| PageRanges.MapRangeCost | kernel/arch/x86_64/paging.c:68-83 | A range costs one table per new level 4 slot and one per new level 3 slot, and fails exactly when the pool cannot pay |
| PageRoots.RootCoherent | kernel/arch/x86_64/paging.c:89-97 | A copied root translates like g_pml4 wherever its slot is present and faults elsewhere |
| PageRoots.CopyTranslatesAlike | kernel/arch/x86_64/paging.c:89-97 | Right after the copy both roots translate every address alike, and as g_pml4 did before |
| PageRoots.CoherenceIff | kernel/arch/x86_64/paging.c:76-97 | After any later run of paging_map_range both roots still translate every address alike exactly when every mapped page had its level 4 slot present at the copy |
| Paging.InitWalks | kernel/arch/x86_64/paging.c:103-124 | After paging_init exactly the identity range and the mapped framebuffer pages translate, each address to itself; all else faults |
| Paging.BootWalks | kernel/arch/x86_64/paging.c:103-124 | From the boot info alone: after paging_init an address walks to itself exactly when its 2 MiB page begins in memory below 16 GiB (below 64 MiB when the size is 0), or is one of the framebuffer's pages and the first of those begins in no such memory; all else faults |
| Paging.IdentityMapped | kernel/arch/x86_64/paging.c:103-112 | Every address below the memory's size, or below 16 GiB of it, walks to itself, and below 64 MiB when the size is 0 |
| Paging.HalfGigabyte | kernel/arch/x86_64/paging.c:103-124 | With 512 MiB and no framebuffer three tables are used, the last byte of memory is mapped and the byte behind it is not |
| Paging.FramebufferMappedIff | kernel/arch/x86_64/paging.c:113-121 | A framebuffer above the identity map is mapped to its last byte exactly when its size rounded up to pages covers the part cut off by rounding its base down |
| Paging.HalfFramebufferLost | kernel/arch/x86_64/paging.c:113-121 | A framebuffer of 2 MiB that starts in the middle of a 2 MiB page has its first byte mapped and its last byte not |
| Paging.IdentityPageLost | kernel/arch/x86_64/paging.c:46-54 | After paging_init every identity address lies in a large page, so a 4 KiB mapping there changes no page table unless that page's memory is a pool table |
| Paging.InitCost | kernel/arch/x86_64/paging.c:26-32 | page_pool_used after paging_init is 1 plus the distinct level 4 slots touched plus the distinct level 3 slots touched |
| Paging.IdentitySlots | kernel/arch/x86_64/paging.c:68-74 | An identity map below 512 GiB touches one level 4 slot and one level 3 slot per GiB begun |
| Paging.SixteenGiB | kernel/arch/x86_64/paging.c:103-124 | A 16 GiB identity map costs exactly 18 tables |
| Paging.PagingUnit.AllocTable | kernel/arch/x86_64/paging.c:26-32 | The next pool table, zeroed, or a panic when all 256 are used |
| Paging.PagingUnit.WalkCreateAt | kernel/arch/x86_64/paging.c:38-44 | The table behind a slot, linked first when the slot is empty |
| Paging.PagingUnit.MapPage2M | kernel/arch/x86_64/paging.c:56-66 | The forest after the specified 2 MiB mapping |
| Paging.PagingUnit.MapPage4K | kernel/arch/x86_64/paging.c:46-54 | The forest after the specified 4 KiB mapping; with a large page in the way the entry is stored in that page's memory |
| Paging.PagingUnit.MapRangeOf | kernel/arch/x86_64/paging.c:76-83 | The forest after the specified range of 2 MiB mappings, none when the rounded end wraps in u64 |
| Paging.RangeCovered | kernel/arch/x86_64/paging.c:76-83 | When the end does not wrap, the mapped pages reach the last byte of the range and not a whole page beyond |
| Paging.RangeWraps | kernel/arch/x86_64/paging.c:76-83 | A range whose rounded end wraps maps nothing, unless its size alone wraps |
| Paging.PagingUnit.AllocPml4Copy | kernel/arch/x86_64/paging.c:89-97 | A new root table with the same 512 entries as g_pml4 |
| Paging.PagingUnit.Init | kernel/arch/x86_64/paging.c:103-124 | paging_init ends in the specified forest, in which exactly the addresses of memory and framebuffer pages walk, each to itself |
| Checksum.FoldSum | kernel/core/net.c:71-72 | The fold loop ends, with the residue modulo 65535 that is 0 only for a zero sum |
| Checksum.SumWords | kernel/core/net.c:66-73 | The u32 word sum never wraps for lengths a u16 holds |
| Checksum.IpChecksum | kernel/core/net.c:66-73 | The complement of the folded word sum, odd lengths included |
| Checksum.TransportChecksum | kernel/core/net.c:75-86 | The checksum of the pseudo header of RFC 768 and RFC 9293 followed by the data |
| Checksum.PseudoHeaderSum | kernel/core/net.c:75-80 | The five additions before the loop are the word sum of the 12 pseudo-header bytes |
| Checksum.VerifiesIff | kernel/core/net.c:66-86 | A packet with a stored field verifies exactly when that field is its checksum modulo 65535 |
| Checksum.ChecksumVerifies | kernel/core/net.c:195-205 | Recomputing over a packet with its stored checksum gives 0, in IP's form and with UDP's 0xffff for 0 |
| Checksum.ByteOrderIndependent | kernel/core/net.c:66-86 | The little-endian computation stores exactly the two bytes of the big-endian definition in RFC 1071 |
| Checksum.SealUdp | kernel/core/net.c:195-205 | The datagram net_send_udp hands to IP verifies under its pseudo header |
| Dns.EncodeQuestion | kernel/core/net.c:281-296 | The encoding loop writes the labels, the zero byte, type A and class IN behind the header and leaves the header alone, inside 512 bytes |
| Dns.EncodeQuery | kernel/core/net.c:276-296 | The whole packet: header, then question |
| DnsQuestion.HeaderRead | kernel/core/net.c:278-280 | The header says identifier 0x1234, a query, recursion desired, one question and no records |
| DnsQuestion.LabelsOfHostname | kernel/core/net.c:283-293 | The labels joined by dots are the hostname, but for one dot at its end |
| DnsQuestion.NoDotInLabel | kernel/core/net.c:285-286 | No label has a dot in it |
| DnsQuestion.QuestionReadIff | kernel/core/net.c:281-296 | A reader of sections 3.1 and 4.1.2 of RFC 1035 finds exactly those labels, type 1 and class 1 in the packet if and only if every label has 1 to 63 bytes |
| DnsQuestion.AsksForHostname | kernel/core/net.c:281-296 | So the name read from the packet, with dots, is the hostname, up to a dot at its end |
| DnsQuestion.ExampleQuestion | kernel/core/net.c:281-296 | The bytes of the question for www.example.com |
| Dns.SkipsOwnQuestionIff | kernel/core/net.c:317-324 | For every hostname the question loop of dns_handle lands exactly behind the question the encoder wrote if and only if every label's length, as the byte it is cut to, is from 1 to 191, so for all names of RFC 1035 and not for empty labels |
| Dns.PointerQuestionIff | kernel/core/net.c:318-324 | A question whose name is a compression pointer is skipped correctly exactly when the byte behind it is not zero |
| Dns.PointerQuestionMisread | kernel/core/net.c:318-324 | A question of type A with a pointer as its name is skipped one byte too far |
| Dns.MixedNameMisread | kernel/core/net.c:327-331 | An answer name of labels that ends in a pointer is never skipped correctly |
| Dns.RecordScanned | kernel/core/net.c:326-338 | A record is taken when it is an A record with four bytes of data and otherwise stepped over exactly |
| Dns.AnswersScanned | kernel/core/net.c:326-339 | The answer loop finds the first such record, whatever follows the answers, and None when there is none |
| Dns.ResponseRead | kernel/core/net.c:309-341 | For every response to a question of ours whose answer names are spelled out or pointers, the address stored is that of the first A record with four bytes of data, or none |
| Dns.HandledIff | kernel/core/net.c:309-313 | Every packet of 12 bytes or more ends the wait, and one that announces no answers names no address |
| Dns.Resolver.DnsHandle | kernel/core/net.c:309-341 | dns_handle in place: done and result change exactly as specified for every packet, malformed ones included |
| Tcp.ParseWritten | kernel/core/net.c:389-401 | A segment with any options is parsed back field by field, and whatever follows it in the frame is read as payload |
| Tcp.LengthFits | kernel/core/net.c:398-399 | A data offset beyond the segment wraps payload_len to more than the buffer holds, so no copy leaves the packet |
| Tcp.NeverOverruns | kernel/core/net.c:411-416 | Whatever arrives, received bytes are only ever appended and never exceed 8192 |
| Tcp.HandshakeIff | kernel/core/net.c:403-410 | While connecting, a segment opens the connection exactly when it is for the port and has SYN and ACK, with the numbers read at their places; any other changes nothing |
| Tcp.OpenEndsIff | kernel/core/net.c:411-430 | An open connection ends exactly with a segment for its port that has FIN or RST |
| Tcp.ResetReceived | kernel/core/net.c:411-430 | A reset keeps the data that came with it when it fits, and ends the connection |
| Tcp.DeafUnlessOpen | kernel/core/net.c:389-432 | Segments for other ports, and every segment to a closed or finished connection, change nothing |
| Tcp.StreamKept | kernel/core/net.c:411-420 | What any stream in order, fitting or not, leaves in the buffer: each segment's data with the link's padding, whole or not at all |
| Tcp.KeptWhole | kernel/core/net.c:411-420 | A stream that fits with its padding is kept whole |
| Tcp.PaddingReceived | kernel/core/net.c:831-858 | Such a stream leaves its bytes and the link's padding in the buffer, segment by segment |
| Tcp.IntactIffUnpadded | kernel/core/net.c:831-858 | Such a stream arrives unaltered exactly when the link padded none of its segments, as the length is taken from the frame and not from the IP header |
| Tcp.IntactOnEthernetIff | kernel/core/net.c:831-858 | On Ethernet that means exactly when every segment carries at least six bytes of options and data; a bare FIN does not |
| Tcp.BareFinBecomesData | kernel/core/net.c:831-858 | A single bare FIN padded on Ethernet leaves six zero bytes of data |
| Tcp.StreamAcknowledged | kernel/core/net.c:417-425 | Every stream in order is acknowledged to its FIN, whether its bytes were kept or dropped, and the padding behind the FIN is acknowledged with it |
| Tcp.IntactIffFits | kernel/core/net.c:411-420 | An unpadded stream arrives whole exactly when it has at most 8192 bytes |
| Tcp.TcpConn.InitConnect | kernel/core/net.c:434-445 | The connection in SYN_SENT with an empty buffer and the fixed port and sequence number |
| Tcp.TcpConn.Handle | kernel/core/net.c:389-432 | tcp_handle in place: the connection after any bytes, short headers and wrong ports included, is the specified one |
| Tcp.TcpConn.Close | kernel/core/net.c:482-487 | Only the state becomes CLOSED |
| Http.BodyAfterHeaders | kernel/core/net.c:764-772 | The body is what follows the first empty line |
| Http.NoHeaders | kernel/core/net.c:764-772 | Without an empty line all received bytes are body |
| HttpRequest.UrlAcceptedIff | kernel/core/net.c:494-514 | A URL is accepted exactly when it is http://, a host of 1 to 63 bytes without slash, and nothing or a path of at most 127 bytes; an absent path is / |
| HttpRequest.Parse | kernel/core/net.c:494-514 | parse_url returns the specified host and path, or refuses |
| HttpRequest.RequestFits | kernel/core/net.c:686-698 | The request of every accepted URL fits its 512 bytes, so it is sent whole |
| HttpRequest.RequestLines | kernel/core/net.c:686-698 | The request's lines, for a URL without CR: GET path HTTP/1.0, Host: host, Connection: close, and the empty line |
| HttpClient.BuildRequest | kernel/core/net.c:686-698 | The loop over the five parts builds the specified request, or none when it does not fit |
| HttpEnds.PollSpends | kernel/core/net.c:723-792 | Every poll at a later tick either ends the fetch or lowers its tick budget, whatever packets it finds |
| HttpEnds.FetchEnds | kernel/core/net.c:656-792 | Every fetch sends at most three DNS queries and has a result within 1350 polls at advancing ticks; polled every tick it ends within 3 * 150 + 300 + 600 ticks |
| HttpDelivers.ReceivingSettles | kernel/core/net.c:763-778 | While receiving, the fetch delivers with the poll that finds the last segment, deadline passed or not, and fails with the first poll at or past the deadline that does not find it |
| HttpDelivers.FetchDeliversIff | kernel/core/net.c:389-792 | End to end, for every cutting of every response into in-order segments ending in FIN, padded or not, and every interleaving of packets and polls: if no poll at or past the last deadline of its phase comes up empty, the first result is 1, the buffer holds the body of what the receive buffer kept, up to its capacity, all is acknowledged, and the peer was the address named by the replies that ended name resolution; otherwise the first result is -1 |
| HttpDelivers.PeerNamed | kernel/core/net.c:732-746 | Over every run of polls, whatever they find, the fetch connects to, and talks to, exactly the address that the replies of the poll that ended name resolution named, never to 0 |
| HttpDelivers.TalksToAnswer | kernel/core/net.c:309-746 | When those replies are one response to the question for the URL's host, that is the first address among the response's records |
| HttpDelivers.ResetDelivers | kernel/core/net.c:427-430 | A reset while receiving makes the fetch deliver the body of what has arrived |
| HttpDelivers.RefusalUnnoticed | kernel/core/net.c:403-410 | A reset in answer to SYN changes nothing: the fetch waits for its deadline |
| HttpDelivers.StoppedForGood | kernel/core/net.c:700-721 | A refused start queries nothing, and after it or an abort no packet changes the connection the fetch used |
| HttpDelivers.BodyDelivered | kernel/core/net.c:763-778 | For a response of headers, an empty line and a body, at most 8192 bytes with the padding: the body arrives with the padding, and unpadded it arrives unaltered with g_tcp.ack at the peer's ISN + 2 + its bytes modulo 2^32 |
| HttpDelivers.AnyTicksDeliver | kernel/core/net.c:723-792 | Three polls at any ticks whatever, one for each of reply, SYN-ACK and a response of up to 16 segments, are such an interleaving without an empty late poll |
| HttpClient.Client.Start | kernel/core/net.c:700-713 | net_async_http_start aborts a running fetch, refuses when offline or without a URL, and else queries once and waits; the caller's length keeps its value |
| HttpClient.Client.Abort | kernel/core/net.c:715-721 | net_async_http_abort closes a connection in use and goes idle |
| HttpClient.Client.NetPoll | kernel/core/net.c:831-865 | net_poll hands over the first 16 queued packets at most, in order, and leaves the rest queued |
| HttpClient.Client.Poll | kernel/core/net.c:723-792 | net_async_http_poll in place: state, buffers and result are those of the specified transition for the packets found |
| HttpClient.FindBody | kernel/core/net.c:764-772 | The search loop finds the specified start of the body |
| Editor.InsertSplices | kernel/core/editor.c:71-80 | Typing inserts exactly one character at the cursor's offset of the joined text, or changes nothing on a full line |
| Editor.NewlineSplices | kernel/core/editor.c:82-95 | Enter inserts exactly one newline there, or changes nothing when all 500 lines are used |
| Editor.BackspaceSplices | kernel/core/editor.c:97-115 | Backspace removes exactly the character before the cursor, or changes nothing at the start of the text or when the joined line would be too long |
| Editor.DeleteSplices | kernel/core/editor.c:117-133 | Delete removes exactly the character at the cursor, under the same guard |
| Editor.BackspaceUndoesInsert | kernel/core/editor.c:71-115 | Backspace after an accepted insertion restores lines and cursor |
| Editor.BackspaceUndoesNewlineIff | kernel/core/editor.c:82-115 | Backspace after a newline restores them exactly when the line was at most 254 characters long |
| Editor.EditKeepsValid | kernel/core/editor.c:71-133 | Every edit keeps 1 to 500 printable lines of at most 255 characters and the cursor on its line |
| Editor.EditIsIdeal | kernel/core/editor.c:71-133 | One edit is one edit of a string with an offset, or is refused by its guard and changes nothing |
| EditorKeys.ClampIff | kernel/core/editor.c:178-182 | The key handler's last lines leave the cursor on its line exactly when the line has two characters or more |
| EditorKeys.KeyIsEditIff | kernel/core/editor.c:151-183 | An editing key is the edit alone exactly when the edit leaves the column between 2 and the smaller of the line's length and the last column of the screen |
| EditorKeys.TypedAroundClamp | kernel/core/editor.c:178-182 | Two letters x and y typed at the start of the line ab give xayb |
| EditorKeys.KeyFollows | kernel/core/editor.c:151-183 | A key that leaves a line of two characters or more keeps the text valid and is its edits that no guard refuses, followed by the exact move of the clamp |
| EditorKeys.RunFollows | kernel/core/editor.c:151-183 | Over every run of such keys the text is that of the ideal edits on one string, interleaved with the moves of cursor keys and clamp |
| EditorRows.InsertShown | kernel/core/editor.c:71-80 | On the rows: typing behind the end of a line stores a character that is not shown and moves the cursor; elsewhere it is the insertion |
| EditorRows.BackspaceShown | kernel/core/editor.c:97-115 | Backspace behind the end of a line moves the cursor and removes nothing shown; elsewhere it is the backspace |
| EditorRows.DeleteShown | kernel/core/editor.c:117-133 | Delete behind the end of a line removes a hidden character where one is stored, and only else joins the next line |
| EditorRows.BreakShown | kernel/core/editor.c:82-95 | Enter behind the end of a line opens a line of stale bytes: the character under the cursor, then the row that was below |
| EditorRows.BreakBehindIff | kernel/core/editor.c:82-95 | That is a newline at the end of the line exactly when no character is stored under the cursor |
| EditorRows.TypedShowsIff | kernel/core/editor.c:71-80 | A typed character shows exactly when the cursor is on its line and the line has room |
| EditorRows.RunStaysSane | kernel/core/editor.c:151-183 | Over every run of keys the rows show 1 to 500 printable lines, with the cursor on its line or at column 1 or 2 behind it |
| EditorRows.SecondLetterLost | kernel/core/editor.c:71-80 | On a new file the first letter typed shows and the second is lost |
| EditorCursor.CursorKeyMoves | kernel/core/editor.c:157-182 | A cursor key changes no row; it goes its lines up or down as far as there are lines, and to the column it heads for as far as line and screen reach, but not left of column 2 |
| EditorCursor.LinesAfter | kernel/core/editor.c:157-170 | Repeated n times it goes n times as many lines, up to the first or last line |
| EditorCursor.PageIsLines | kernel/core/editor.c:165-170 | A page down is as many lines down as the page has, a page up as many lines up |
| Editor.LoadedAfterSaved | kernel/core/editor.c:35-65 | Loading a saved file gives the leading lines that fitted the save buffer |
| Editor.SaveRoundTripIff | kernel/core/editor.c:135-148 | Save and start restore every line exactly when lines and newlines take at most 16384 bytes |
| Editor.LongTextCutOff | kernel/core/editor.c:135-148 | 65 lines of 255 letters come back as fewer than 65 lines |
| Editor.LoadedEditable | kernel/core/editor.c:35-65 | Whatever bytes a file holds, the editor starts on a valid text |
| EditorLoad.LoadedKeepsCharacters | kernel/core/editor.c:50-62 | Opening any file loses none of its characters before line 500, adds none and keeps their order; it drops control characters and bytes from 0x80 |
| EditorLoad.FileOpensByLines | kernel/core/editor.c:50-62 | A file of 1 to 500 lines of at most 254 characters opens line by line |
| EditorFiles.StartLines | kernel/core/editor.c:44-64 | editor_start shows the file of that name in g_files, or an empty text |
| EditorFiles.SaveThenOpenIff | kernel/core/editor.c:135-148 | After an accepted save to FlareFS and a remount the editor opens on the same lines exactly when they fit the save buffer |
| EditorFiles.SaveCrash | kernel/core/editor.c:135-148 | After a crash anywhere in a save and a remount, the editor opens on the text of before or on the lines that fitted the save buffer, which are all of them when the text fits |
| EditorBuffer.Buffer.InsertCharAt | kernel/core/editor.c:71-80 | The in-place shift in the cursor's row is the specified insertion, also behind the end of the line |
| EditorBuffer.Buffer.NewlineKey | kernel/core/editor.c:82-95 | Shifting rows up and splitting the current one is the specified newline |
| EditorBuffer.Buffer.BackspaceKey | kernel/core/editor.c:97-115 | Closing the gap or joining rows is the specified backspace |
| EditorBuffer.Buffer.DeleteKey | kernel/core/editor.c:117-133 | Closing the gap or joining rows is the specified deletion |
| EditorBuffer.Buffer.KeyEvent | kernel/core/editor.c:151-183 | editor_keyboard_event in place: rows, count and cursor are those of the specified key and clamp, for every key and every cursor position a run can reach, and a save hands over the bytes of the shown lines |
| EditorBuffer.Buffer.CopyString | kernel/core/editor.c:87-132 | strcpy between rows replaces the destination's tail and leaves every other row as it was |
| EditorBuffer.Buffer.Save | kernel/core/editor.c:135-148 | The bytes handed to fs_write_file are the specified ones, and nothing is written on a read-only file system |
| EditorBuffer.Buffer.Start | kernel/core/editor.c:35-65 | The rows read from a file's bytes are the specified lines, cursor at the start |
| Snake.Grid | kernel/core/snake.c:121-138 | The grid has 10 to 96 columns and 10 to 64 rows for every screen size |
| SnakePlay.GridFits | kernel/core/snake.c:121-142 | From 80 by 96 pixels on, the grid fits the screen below the header, no column or row that would fit is missing, and the cells are the largest of which 40 by 23 fit, within 8 to 32 pixels |
| Snake.FoodFree | kernel/core/snake.c:62-71 | Food lies on the grid, and off the snake unless it is the fallback cell (0, 0) |
| Snake.ResetInv | kernel/core/snake.c:144-153 | A new round satisfies the invariant on every grid |
| Snake.MoveInv | kernel/core/snake.c:280-317 | A step of the snake keeps the invariant, whether it crashes, moves, eats or fills the board |
| Snake.EventKeepsInv | kernel/core/snake.c:241-317 | Every start, key and tick keeps the invariant |
| Snake.RunFacts | kernel/core/snake.c:144-317 | Over every run: distinct, adjacent cells on the grid, length score + 4 and at most columns times rows, speed max(2, 6 - score / 5), no pending turn back, and a self-collision only at an odd body index from 3 on |
| Snake.SelfCollisionOdd | kernel/core/snake.c:292-294 | The next head can meet only body cells 3, 5, 7 and so on |
| Snake.FullBoard | kernel/core/snake.c:309-312 | A game that ends for want of room has a body that fills every cell of the grid |
| Snake.RepaintMatches | kernel/core/snake.c:302-305 | Clearing the tail, recolouring the old head and drawing the new one gives the picture of a full redraw of the snake, also when the head enters the tail's cell |
| SnakePlay.KeySteers | kernel/core/snake.c:270-317 | An arrow key points the head at the next cell in its direction and the step that is due takes it there or crashes; only a key that points at the neck is ignored |
| SnakePlay.MovesOnTime | kernel/core/snake.c:277-280 | The snake moves with every g_tick_div-th tick and not before |
| SnakePlay.StepOutcome | kernel/core/snake.c:287-317 | A step crashes exactly when the next cell is off the grid or on the body, a tail that moves on excepted; else the head is in front, and body and score grow by one exactly at the food |
| SnakePlay.NewRound | kernel/core/snake.c:144-153 | A round starts with four cells in the middle, heading right, score 0 and six ticks a step |
| SnakePlay.PauseHolds | kernel/core/snake.c:268-269 | While paused no tick and no key but pause and quit does anything, and the second pause resumes the game as it was |
| SnakePlay.StartShowsSplash | kernel/core/snake.c:241-248 | A start shows the splash on the screen's grid with score 0 |
| SnakePlay.QuitEnds | kernel/core/snake.c:155-157 | Quitting ends the session in every mode: no key and no tick changes it until the next start |
| SnakePlay.GeneratorReversible | kernel/core/snake.c:47-50 | The generator loses no state: the one before can be computed back |
| SnakeGame.SnakeApp.Occupied | kernel/core/snake.c:56-60 | The search loop answers whether the cell is among the first body cells |
| SnakeGame.SnakeApp.Place | kernel/core/snake.c:62-71 | place_food ends with the specified generator state and food |
| SnakeGame.SnakeApp.ResetRound | kernel/core/snake.c:144-153 | reset_round in place is the specified new round |
| SnakeGame.SnakeApp.KeyEvent | kernel/core/snake.c:252-275 | snake_keyboard_event in place is the specified transition |
| SnakeGame.SnakeApp.ShiftBody | kernel/core/snake.c:299-300 | The shifting loop puts the new head in front and cuts the body to its new length |
| SnakeGame.SnakeApp.TimerTick | kernel/core/snake.c:277-317 | snake_timer_tick in place is the specified transition |
| KeyRing.KeysInOrder | kernel/drivers/keyboard.c:108-120 | With interrupts anywhere between the poller's steps, delivered keys are a prefix of accepted ones, at most 31 wait, and an interrupt drops its key exactly when 31 wait |
| KeyRing.PollDeliversOldest | kernel/drivers/keyboard.c:114-120 | A poll begun with keys waiting delivers the oldest one, wherever interrupts strike |
| KeyRing.HandleKeeps | kernel/drivers/keyboard.c:108-112 | An interrupt appends its key behind those waiting, or changes nothing when 31 wait |
| KeyRing.KeyQueue.Push | kernel/drivers/keyboard.c:108-112 | The end of keyboard_handle_irq in place is the specified step |
| KeyRing.KeyQueue.PollEvent | kernel/drivers/keyboard.c:114-120 | An uninterrupted poll takes the oldest waiting key, or none, and leaves the rest in order |

## Left out

- Port I/O, the ATA and network card handshakes, PCI, interrupt controllers, boot code, descriptor tables and fault recovery: the model starts at "sector transferred", "packet arrived", "key decoded".
- Sector atomicity: a sector write is taken to happen whole or not at all.
- Heap lifetimes: `kmalloc` is taken to succeed, and `heap_reset` reclaiming file contents is not modelled.
- Buffers longer than 16 GiB (`MAX_MEMORY`): the most memory the kernel maps; beyond it the u32 sector count of a write would wrap.
- Disks whose directory holds names without a terminating NUL: the model reads such a name as its 48 bytes, the code copies on past them.
- Files of the install media found by the ext4 superblock and directory walk: the reader is handed an inode and an image.
- ExtentReader.CopyExtentTree: requires that the index nodes form a finite tree, without which the code's recursion has no end, and that the entries a node announces lie in the image, beyond which the code reads foreign memory.
- ExtentReader.LoadInodeData: requires block sizes below 64 KiB, so that the code's u64 offsets do not wrap.
- ExtentReader.LookupHole: an extent of exactly 0x8000 blocks counts as unwritten, as in the code; ext4 itself calls it a full initialised extent.
- FlareFs.FlareFs.WriteBlocks: one loop stands for the sector loops of directory, data and format writes.
- PageMapping.Map4KTakesEffectIff: where a large page is in the way, its memory is taken to lie outside the page pool; a store through it into a pool table is not modelled.
- Paging.PagingUnit.MapRangeOf: physical ranges beyond 2^52 are not modelled, nor framebuffers beyond the 48-bit address space.
- Loading CR3, TLB invalidation and access rights of the walk.
- ARP, DHCP, and the blocking `net_http_get` and `net_http_post` loops.
- Tcp.StreamAcknowledged: speaks of segments in order and without duplicates, because `tcp_handle` does not compare sequence numbers; retransmission, reordering and windows are not implemented by the kernel.
- HttpDelivers.FetchDeliversIff: assumes that segments of the conversation are found in order and not before what they answer; other traffic may be found at any time.
- Sends inside `net_poll` (ARP replies, acknowledgements) have no effect on the model's state; failed sends are not modelled, nor is wrap-around of `g_ticks`.
- Dns.ResponseRead: covers answer names that are all labels or one pointer; `MixedNameMisread` says what happens to the others.
- EditorKeys.RunFollows: speaks of runs whose lines keep two characters or more; for the other runs `EditorRows` says key by key what the rows show.
- Scrolling and rendering of the editor, and the keys that close it.
- Snake rendering beyond the snake's own cells, and what a session reports when it ends.
- Scancode decoding and layouts: the ring is handed decoded keys.
- The shell, the browser, the console and their text.
