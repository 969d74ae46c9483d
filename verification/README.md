# FatFs in Dafny

This project models the FAT12/16/32 core of FatFs R0.15a (`filesystem_code/ff.c`) in the
configuration of the fuzz build: `FF_FS_TINY` 1, 512-byte sectors, code page 437, formatter on,
no long names in directories, no exFAT, and a compiler whose plain `char` is signed. It stacks the code the way the sources do and proves that
every layer refines a simple mathematical object:

| module | what it models | what it refines |
|---|---|---|
| `DiskIo` | the in-memory disk of `diskio_fuzz.c` | an array of bytes |
| `Window`, `DataWindow` | the one-sector write-back window, FAT mirroring, direct transfers that go around the window | the *logical disk*: the disk with the dirty window laid over it (`Volume.view`) |
| `FatBits`, `FatCodec` | packed FAT entries, read and written through the window | a sequence of cluster values (`Volume.fat`) |
| `Chains`, `Allocator` | `create_chain`, `remove_chain`, `f_getfree` | disjoint acyclic chains and a free set |
| `FileData`, `Files` | `f_read`, `f_write`, `f_lseek`, `f_truncate`, append | a byte sequence with a cursor |
| `Runs`, `VolumeRuns` | any number of open files, any sequence of operations; opening and closing, directory operations and `f_getfree` between them | an abstract machine of byte sequences, cursors and a free count |
| `DirWalk` | directory cursor and scans on arbitrary disk content | the path of a cursor along whatever links there are |
| `DirTable`, `Directory` | search, reading, registration and removal of entries | a finite map from 11-byte names to entries |
| `Listing` | `f_readdir` from the start to the end of a directory | the bindings of that map, each once |
| `Mount`, `MkfsPlan`, `Partition`, `Mkfs`, `FormatMount` | finding and mounting a volume, formatting a drive | the layout record `Geometry`; mount is the inverse of format |
| `Sync`, `Remount`, `Durable` | `sync_fs`, `f_sync`, and mounting the disk again | what was written is there again, under its name |
| `BootRules`, `MkfsSizes`, `Requests` | the same decisions stated without the code | the bytes on the disk, and the request, decide what is mounted and what is formatted |
| `LinkMap`, `Lfn`, `Glob`, `Share`, `ShortName`, `CodePage`, `CaseLaw` | fast-seek table, long-name entries, wildcard matcher, open-file lock table, 8.3 names, case folding | the chain, the name, declarative glob semantics, a multiset of handles, an inverse pair, spellings of one letter |

The layers are one system, not separate islands: `FormatMount.FormatAndMount` formats a drive and
mounts it in a state that satisfies `Runs.System`, which is the precondition of `Runs.Run`, which
keeps it over every sequence of writes, reads, seeks and truncations, and of the steps in `VolumeRuns`, which keep it too.
`Durable.RunAndReopen` closes the circle: after any such run, `f_sync` of a file that was written to leaves a disk that mounts with
the same layout and on which the file's name leads to the bytes that the abstract machine says the file holds.

Conventions:

* Machine words are subset types of `int` (`Byte`, `Word`, `Dword`); wrap-around is written out with
  `Wrap32` and `Sub32`. Masks with `n - 1` are `BitAnd`, which `Bytes.MaskIsMod` relates to remainders.
* Objects the sources update in place are classes (`Disk`, `Volume`, `File`, `Dir`, `ShareTable`) or
  arrays. `Volume.view` and `Volume.fat` are ghost fields tied to the real ones by `Volume.Valid`.
  `Unfold...` predicates are always true; mentioning one lets the prover open the definition guarded by it.
* `Volume.Valid` states the standing conditions: the layout was accepted by `mount_volume`, does not wrap
  in 32 bits and lies on the disk (`Mount.AcceptedIsValid` gives the exact condition). `Sound` adds that no
  entry of the FAT is the reserved value 1, that a known free count is right, and that the FSInfo record holds it too or is
  marked as outdated. `Volume.ledger` is a ghost object for what that record holds; only `sync_fs` changes it.
* A disk request inside the disk succeeds, as in `diskio_fuzz.c`. The clock (volume serial number) and the
  drive's block size are parameters.

Where the code departs from what one would expect, the code was followed, the failing input is a lemma or a method
that reaches it through the code, and the exact condition under which the code does the right thing is proved:

* `mount_volume` accepts a boot sector whose FAT area wraps in 32 bits: any disk that starts with it is mounted
  (`Mount.WrappingBpb`). An accepted block describes a valid volume exactly if its unwrapped areas end on the disk
  (`Mount.AcceptedIsValid`).
* `f_mkfs` checks the volume size against the unaligned start of the data area and can report success for a volume without
  clusters, which `mount_volume` then refuses (`FormatMount.AlignedAway`). Mount succeeds exactly if there is a cluster
  (`FormatMount.FormattedMounts`), which is so exactly if one fits behind the system area and the gap, and always with
  erase blocks of at most 16 sectors (`FormatMount.MountableExactly`).
* `FSI_TrailSig` is 498 in the code and 508 in Microsoft's FAT specification 1.03 (section "FSInfo Sector Structure"),
  so mounting a fresh FAT32 volume never picks up the FSInfo record written by `f_mkfs` (`FormatMount.NoHints`).
  The cluster limits 0xFF5, 0xFFF5 and 0x0FFFFFF5 also differ from that specification.
* `sync_fs` writes the FSInfo record into the sector behind the boot sector without asking whether that is a reserved one. If
  the FATs start there, cluster 2 is free afterwards, whatever it was (`Sync.SyncFs`, `Sync.RecordAndFat`); the FATs survive exactly if
  they start later.
* A partition table may list, before the volume in use, a partition that starts inside it. Then a file's data can become the boot
  sector that the next mount finds. The volume is found again however it is used if and only if there is none
  (`Remount.FoundAgainExactly`).
* Building a link map fails with `FR_INT_ERR` exactly if the chain's end mark is its last cluster number plus one
  (`LinkMap.CreateLinkMap`). Such chains exist (`LinkMap.EndsLikeCluster`), but FatFs never writes one
  (`LinkMap.EocEndsPlainly`).
* A wildcard term of 256 `?` reads as `*`, so that the empty name is accepted (`Glob.TooManyQs`). The matcher and the
  meaning of a pattern agree on all names if and only if no term has more than 255 `?` (`Glob.MeantExactly`).
* With 256 readers of an object `chk_share` sees a writer, and the first close blanks the entry under the other 255
  (`Share.TooManyReaders`). The lock table counts any number of readers below 2^32 correctly if and only if it is not 256
  (`Share.OnlyBadCount`).
* `create_name` accepts `.`; its all-blank name prints as the empty string and is the only accepted name that does not
  read back (`ShortName.RoundTrip`). Its test for the last path segment compares a plain character, which is taken to be
  signed here; so the path
  `A/` followed by an extended character ends at `A` (`ShortName.ExtendedEndsPath`); the flag is right if and only if no extended
  character follows the separator (`ShortName.LastExactly`).
* After `dir_next` has failed on a broken link, the cursor's sector lies behind its cluster, and a further `dir_read` goes on
  there, up to the end of the disk. The directory operations are stated for such cursors too (`DirWalk.Aligned`), and exactly
  as long as the window does not claim to show a sector that is not on the disk (`DirWalk.Loads`).

## Model

| member | source | states |
|---|---|---|
| `Bytes.IntervalTest` | filesystem_code/ff.c:1068-1068 | the test `x - base < n` on unsigned words holds exactly for `base <= x < base + n` |
| `DiskIo.Disk.Read` | filesystem_code/diskio_fuzz.c:31-35 | a read succeeds exactly if the whole request is on the disk, and then copies exactly those sectors; otherwise it changes nothing |
| `DiskIo.Disk.Write` | filesystem_code/diskio_fuzz.c:37-41 | a write succeeds exactly if the whole request is on the disk, and then replaces exactly those sectors; otherwise the disk is unchanged |
| `Window.SyncWindow` | filesystem_code/ff.c:1058-1076 | the logical disk and the FAT do not change, and afterwards the physical disk equals the logical one, mirror copy included |
| `Window.MoveWindow` | filesystem_code/ff.c:1080-1101 | never changes the logical disk; afterwards the window shows the requested sector, or is invalid if the sector is off the disk |
| `Window.StoreWindow` | filesystem_code/ff.c:1062-1074 | storing into the window and marking it dirty stores into the logical disk, and into the mirror if the sector is in the first FAT |
| `DataWindow.WriteThrough` | filesystem_code/ff.c:4085-4109 | a direct multi-sector write changes exactly those sectors of the logical disk although the dirty window may hold one of them |
| `DataWindow.ReadThrough` | filesystem_code/ff.c:3971-3992 | a direct multi-sector read returns the logical disk although the dirty window may hold one of the sectors |
| `Layout.ClusterInside` | filesystem_code/ff.c:1160-1168 | `clst2sect` is non-zero exactly for clusters 2 to n_fatent-1, and then gives a sector range in the data area and on the disk |
| `Layout.ClustersDisjoint` | filesystem_code/ff.c:1160-1168 | different clusters have disjoint sector ranges |
| `FatBits.Put12` | filesystem_code/ff.c:1269-1283 | the two nibble-merging byte stores of a FAT12 entry update that entry to its 12-bit value and no other, although neighbours share the byte |
| `FatBits.Put32` | filesystem_code/ff.c:1291-1301 | the FAT32 store updates one entry to its 28-bit value, keeps all others, and keeps the top four bits of every entry |
| `FatBits.PackedExactly` | filesystem_code/ff.c:1188-1222 | FAT12 packs two entries in three bytes, FAT16 one in two, FAT32 28 bits in four, low byte first, as arithmetic on the bytes |
| `FatCodec.GetFat` | filesystem_code/ff.c:1177-1245 | on every cluster number: 1 outside 2..n_fatent-1, else the value of that FAT entry, for entries that straddle sectors too; the logical disk is unchanged |
| `FatCodec.PutFat` | filesystem_code/ff.c:1255-1304 | the FAT as a sequence is updated at that entry with the masked value and nowhere else, bytes outside the FAT area are unchanged, agreeing copies stay in agreement, FAT32's top bits survive; out of range it is refused without effect |
| `Chains.ChainDistinct` | filesystem_code/ff.c:1177-1245 | a chain that ends in an end mark visits no cluster twice |
| `Chains.ChainUnique` | filesystem_code/ff.c:1177-1245 | a chain is determined by its first cluster |
| `Chains.ChainLength` | filesystem_code/ff.c:1177-1245 | a chain has at most as many clusters as the volume |
| `Chains.StretchChain` | filesystem_code/ff.c:1617-1631 | linking a free cluster behind the last one and ending it makes the chain exactly one cluster longer, by a cluster it did not have |
| `Chains.CutChain` | filesystem_code/ff.c:1452-1502 | freeing a suffix and ending what is left leaves exactly the prefix as a proper chain |
| `Allocator.EocIsEnd` | filesystem_code/ff.c:1617-1619 | the end mark as stored reads back at or above n_fatent, never as an error code, and cluster numbers survive masking |
| `Allocator.CreateChain` | filesystem_code/ff.c:1540-1633 | returns the existing successor, or a cluster that was free and is not `clst`, now linked behind it and ended: the one right behind `clst` if that is free, else the first free one of the circle behind the cluster taken last, and 1 if an error mark comes first; 0 exactly if no cluster is free; the search terminates, a known free count stays right, and the FSInfo record is marked as outdated exactly if the count changes |
| `Allocator.ReleaseAll` | filesystem_code/ff.c:1461-1502 | terminates on every FAT content, cyclic or cross-linked, since each round turns a non-zero entry into zero |
| `Allocator.RemoveChain` | filesystem_code/ff.c:1445-1531 | on a proper chain frees exactly the suffix, ends the prefix with the end mark, changes no other entry and keeps the free count right; the FSInfo record is marked as outdated exactly if the count changes |
| `Allocator.GetFree` | filesystem_code/ff.c:4831-4919 | the scan of all three types counts exactly the free clusters and makes the count known, given non-zero reserved entries; a known count is answered unchanged |
| `FileData.WriteEffect` | filesystem_code/ff.c:4085-4136 | bytes stored at the address of the cursor's cluster splice the file's byte sequence there and nowhere else |
| `FileData.ContiguousIs` | filesystem_code/ff.c:1160-1168 | the bytes of a file whose clusters follow each other are one piece of the disk, which starts at the data area plus the clusters before its first |
| `FileData.OthersUnchanged` | filesystem_code/ff.c:4029-4141 | a chain disjoint from the one written keeps its links and all its bytes |
| `Files.EnterCluster` | filesystem_code/ff.c:4056-4083 | at a cluster boundary the next cluster of the chain becomes current, a new one if the file ends there; fails only when no cluster is free; no byte of any file changes |
| `Files.FWrite` | filesystem_code/ff.c:4029-4141 | writes k bytes: the file's bytes become the old ones with data[..k] spliced in at the cursor, the cursor advances by k, the FIL invariant is kept, only this file's clusters and formerly free ones change; k is short only if the cursor then stands at the end of the file's last cluster with no cluster free, or the 2^32-1 limit clips it; a refused call changes nothing; the file is marked as modified exactly if the write goes through |
| `Files.FRead` | filesystem_code/ff.c:3929-4018 | returns exactly the file's bytes from the cursor, clipped at the end of the file, in the front of the buffer, leaves the rest of the buffer and the volume alone and keeps the FIL invariant; the error and access cases are exact |
| `Files.Walk` | filesystem_code/ff.c:4540-4571 | the cluster-following loop ends in the cluster that holds the target, or behind the last one if the volume is full |
| `Files.FLseek` | filesystem_code/ff.c:4520-4602 | from any cursor, continuing in the current cluster or from the start, the cursor lands on the clipped target with the cluster and sector of that position; a writable file grows with its old bytes kept; it stops short only at a full volume; a refused call changes nothing |
| `Files.SeekToEnd` | filesystem_code/ff.c:3886-3906 | opening for append puts the cursor at the end of the file with the invariant established |
| `Files.FTruncate` | filesystem_code/ff.c:4927-4968 | the file becomes its first fptr bytes, the chain keeps exactly ceil(fptr / bytes per cluster) clusters, the others are freed, nothing outside the chain changes; at the end of the file and on refusal neither the volume nor the chain changes |
| `Files.OpenObject` | filesystem_code/ff.c:3866-3906 | the file object that `f_open` fills in satisfies the FIL invariant, with the cursor at the start or, in append mode, at the end |
| `Files.OthersAfterTrim` | filesystem_code/ff.c:4940-4954 | a chain disjoint from the truncated one keeps its links and bytes |
| `Runs.UnnamedFileKept` | filesystem_code/ff.c:3929-4968 | in every run of the abstract machine, a file no operation names keeps its bytes and cursor |
| `Runs.SystemClusters` | filesystem_code/ff.c:1445-1633 | in every reachable state no chain visits a cluster twice, no cluster is in two chains, and no free cluster is in a chain |
| `Runs.ClustersConserved` | filesystem_code/ff.c:1445-1633 | the clusters of all chains and the free clusters together never exceed the clusters of the volume, each being counted once |
| `Runs.Close` | filesystem_code/ff.c:3929-4968 | a step on one file that leaves disjoint chains alone keeps the invariant of all files and the bytes and cursor of every other file |
| `Runs.Run` | filesystem_code/ff.c:3929-4968 | every sequence of writes, reads, seeks and truncations on any number of open files keeps the system invariant (chains, free count, agreeing FAT copies, FIL invariants) and the reserved FAT entries, refines a run of the abstract machine, where a write is cut short only at the end of the file on a full volume or at 4 GiB, returns for every read the bytes that run returns, and changes no byte of files that are not open; nothing outside the FATs and the clusters changes, a write marks its file as modified, and a file not so marked has kept its start and its size |
| `VolumeRuns.OpenFile` | filesystem_code/ff.c:3866-3906 | with any files open, opening an object moves its chain from the rest of the volume to the open files and keeps the system invariant; the new file shows the bytes of the object, and no other file changes |
| `VolumeRuns.FileClosed` | filesystem_code/ff.c:4231-4257 | closing a file moves its chain back and keeps the system invariant and all other files (the `f_sync` in front of it is `Durable.SyncFile`) |
| `VolumeRuns.ObjectCreated` | filesystem_code/ff.c:3866-3906 | a new, empty object needs no cluster and keeps the invariant |
| `VolumeRuns.Register` | filesystem_code/ff.c:2487-2582 | with any files open, `dir_register` keeps the system invariant and the reserved FAT entries, no byte or cursor of any open file and no byte of any other chain changes, and the table gains exactly the binding of the name to an entry that is zero behind it |
| `VolumeRuns.Remove` | filesystem_code/ff.c:2593-2628 | the same for `dir_remove`, which loses exactly the binding under the cursor |
| `VolumeRuns.CountFree` | filesystem_code/ff.c:4831-4919 | with any files open, `f_getfree` changes no file and answers the number of free clusters, which with the chains fits the volume |
| `Sync.SyncFs` | filesystem_code/ff.c:1111-1150 | afterwards the disk is the logical disk; exactly if the free count has changed and FSInfo is in use, the record behind the boot sector holds count and last cluster, and every other byte is unchanged; the FAT survives if there is a reserved sector for the record, and else cluster 2 is free |
| `Sync.RecordAndFat` | filesystem_code/ff.c:1122-1134 | the record leaves both FATs alone if they start behind it, and otherwise frees cluster 2 |
| `Remount.FoundAgainExactly` | filesystem_code/ff.c:3347-3392 | after any use of a volume `find_volume` finds it again, if and only if no partition listed before it starts inside it |
| `Remount.StandsKept` | filesystem_code/ff.c:3455-3619 | file and directory operations change neither the layout that a mount finds nor the free count it reads |
| `Remount.StandsRecorded` | filesystem_code/ff.c:3579-3600 | after `sync_fs` a mount reads back the free count and last cluster that were written |
| `Durable.FSync` | filesystem_code/ff.c:4150-4220 | a file that is marked as modified gets archive bit, start cluster, size, time and cleared access date into its directory entry, no other entry changes, and the disk becomes the logical disk; otherwise nothing happens |
| `Durable.BoundAgain` | filesystem_code/ff.c:4203-4211 | the name is then bound to that entry, from which `ld_clust` and the size field read back start and size, and all other bindings are kept |
| `Durable.SyncFile` | filesystem_code/ff.c:4150-4220 | with any files open, `f_sync` keeps the system invariant, all bytes and cursors of open files, and the bytes of all other chains |
| `Durable.MountAgain` | filesystem_code/ff.c:3455-3619 | mounting the disk of a synced volume gives the same layout, bytes and FAT, and a free count that is right or unknown |
| `Durable.Reopen` | filesystem_code/ff.c:3866-3906 | with nothing but that disk, looking up the name and opening what its entry says gives a file with the bytes of the old one, in a system that has all chains |
| `Durable.SyncAndReopen` | filesystem_code/ff.c:4150-4220 | `f_sync` of a modified file, then mount, lookup and open: the same bytes under the same name, and every other chain as it was |
| `Durable.RunAndReopen` | filesystem_code/ff.c:3929-4220 | the same after every run of operations on any number of files: what is read back after the mount is what the abstract machine holds at the end of the run; it comes to that for every file that was open for writing and written to |
| `DirTable.AddEntry` | filesystem_code/ff.c:2563-2579 | filling the first free entry of a well-formed table with a new name adds that binding to the map and keeps all others |
| `DirTable.RemoveEntry` | filesystem_code/ff.c:2620-2624 | marking an entry deleted removes exactly its binding |
| `DirTable.UpdateEntry` | filesystem_code/ff.c:4203-4211 | changing an object behind its name rebinds the name and keeps all other bindings |
| `DirTable.StretchTable` | filesystem_code/ff.c:1789-1801 | appending zeroed entries does not change the map |
| `DirTable.FoundIsBinding` | filesystem_code/ff.c:2469-2476 | the scan's first match is the binding of the name; reaching the end mark proves there is none; a deleted entry never matches |
| `DirWalk.DirClear` | filesystem_code/ff.c:1676-1707 | fills exactly the cluster with zeros on the logical disk and leaves the window on its first sector |
| `DirWalk.SetIndex` | filesystem_code/ff.c:1715-1756 | on any FAT content the cursor is set to the cluster that the links lead to for the offset, and INT_ERR exactly if they do not lead there |
| `DirWalk.NextEntry` | filesystem_code/ff.c:1763-1814 | on any FAT content and from any cursor: the exact successor, end of table, INT_ERR at a broken link, or the table grows by a free cluster, linked and zeroed; otherwise nothing changes |
| `DirWalk.SdiIsSteps` | filesystem_code/ff.c:1715-1814 | on any FAT content, offset 32n is where n steps of `dir_next` from offset 0 lead, and is refused exactly if they lead nowhere |
| `DirWalk.Scan` | filesystem_code/ff.c:2442-2476 | on any FAT and table content, cyclic or cross-linked, and from any cursor, the scan ends after less than MAX_DIR bytes of entries and changes nothing; it stops at the first hit on its path, at an end mark, where the links end, or behind the end of the disk, with the exact code |
| `Directory.DirSdi` | filesystem_code/ff.c:1715-1756 | on a sound table accepts exactly the offsets inside it and sets cluster, sector and entry of that offset, static and chained; on any other content as `DirWalk.SetIndex` |
| `Directory.DirNext` | filesystem_code/ff.c:1763-1814 | on any content and from any cursor touches only clusters that were free and keeps the links there were; on a sound table it moves to the next entry, or NO_FILE at its end, or grows it by a zeroed cluster, or DENIED if no cluster is free |
| `Directory.StepTo` | filesystem_code/ff.c:1715-1814 | on any FAT content `dir_sdi(0)` and n times `dir_next` reach the cursor that `dir_sdi(32n)` sets, and fail exactly where it is refused |
| `Directory.DirFind` | filesystem_code/ff.c:2405-2479 | on any disk content ends within MAX_DIR at the first match on its path, an end mark, or the end of the links, changing nothing; on a well-formed sound table, for a proper name, it finds the entry the map binds to the name, or NO_FILE exactly if the name is not bound |
| `Directory.DirRead` | filesystem_code/ff.c:2327-2393 | on any disk content and from any cursor ends within MAX_DIR, changing nothing, and disables the cursor unless it succeeds; it delivers the first object or label on the path of the cursor, or the exact code; on a sound table all entries passed over are neither |
| `Listing.ReadDir` | filesystem_code/ff.c:4708-4735 | from any entry of a sound table: delivers the next file or directory (or label) in it and moves behind it, or reports the end exactly if none is left |
| `Listing.ListDir` | filesystem_code/ff.c:4708-4735 | on a sound table whose attributes are those of files, directories, labels and long-name entries, reading from the start to the end delivers exactly the files and directories that are not dot entries, or exactly the labels, each once and in the order of the table, and changes nothing |
| `Listing.ListingIsMap` | filesystem_code/ff.c:2327-2393 | on a well-formed table those are exactly the bindings of the map whose name does not start with a dot, and no name is delivered twice |
| `Directory.DirAlloc` | filesystem_code/ff.c:1824-1855 | for any number of entries: on any disk content ends, touches only clusters that were free, and stops at a free entry if it succeeds; on a sound table that is the last entry of the first block of so many free ones, the table is stretched if there is none, and the entries so far are unchanged; it is refused only if there is no such block and no way to grow |
| `Directory.DirRegister` | filesystem_code/ff.c:2487-2582 | adds exactly one binding, from the name to an entry whose bytes behind the name are all zero, keeps all others even when the table is stretched; fails only if no entry and no cluster can be had |
| `Directory.DirRemove` | filesystem_code/ff.c:2593-2628 | deletes exactly the binding of the entry under the cursor |
| `Directory.DirLeavesOthers` | filesystem_code/ff.c:1676-1855 | a directory operation changes neither the links nor the bytes of any chain disjoint from the table |
| `Mount.MountVolume` | filesystem_code/ff.c:3455-3619 | on any disk content: partition scan, boot sector tests, layout in 32-bit arithmetic, FSInfo hints, and the error code, as `BootRules.MountedExactly` says; the window shows the sector read last |
| `Mount.FindVolume` | filesystem_code/ff.c:3347-3392 | finds a volume in sector 0 or in the first of four partitions that holds one, as `BootRules.FoundExactly` says |
| `BootRules.KindExactly` | filesystem_code/ff.c:3307-3340 | which sectors `check_fs` takes for a FAT boot sector, for another one and for none, byte by byte |
| `BootRules.FoundExactly` | filesystem_code/ff.c:3347-3392 | a volume is found if and only if sector 0 is a FAT boot sector, or has the signature and one of its four partitions starts with one; then it is sector 0, or the first such partition; the disk error is exact |
| `BootRules.AcceptedExactly` | filesystem_code/ff.c:3529-3578 | a boot sector is accepted if and only if its bytes describe 512-byte sectors, one or two FATs, clusters of a power of two, a root directory that suits the type and FATs with room for all clusters; the type and all numbers of the layout follow from the bytes |
| `BootRules.MountedExactly` | filesystem_code/ff.c:3455-3619 | a disk is mounted if and only if a volume is found on it whose block is acceptable; layout and error code are exact; free count and last cluster are those at 488 and 492 of the next sector if the volume is FAT32, says so and the three signatures are there, else unknown |
| `Mount.AcceptedIsValid` | filesystem_code/ff.c:3529-3578 | an accepted block describes FATs, root table and data area that are in order, disjoint, large enough for all entries and on the disk, if and only if the unwrapped areas end on the disk |
| `Mount.InsideIsValid` | filesystem_code/ff.c:3529-3578 | that is so whenever the sums do not wrap and the volume ends on the disk |
| `Mount.WrappingBpb` | filesystem_code/ff.c:3455-3619 | every disk that starts with a certain boot sector, of two FATs of 2^31 sectors, is mounted, with a layout that no disk can hold |
| `MkfsPlan.ChoosePlan` | filesystem_code/ff.c:6205-6276 | the cluster-size and type retry loop terminates for all parameters and computes the recursive choice `Choose`, which the three `MkfsSizes` members that follow give in closed form |
| `MkfsSizes.FixedExactly` | filesystem_code/ff.c:6205-6276 | with a cluster size given, the volume becomes FAT12, FAT16 or FAT32 exactly if the cluster count of that type fits in front of and behind its system area, in this order and as far as allowed; all numbers of the layout are given, and otherwise it is refused |
| `MkfsSizes.Auto32Exactly` | filesystem_code/ff.c:6205-6276 | FAT32 with automatic cluster size: which sizes are tried, the layout, and when it is refused |
| `MkfsSizes.AutoFatExactly` | filesystem_code/ff.c:6205-6276 | FAT12/16 with automatic cluster size: the size by volume, the retry with the double, the switch to FAT32 from 2^21 sectors on if it is allowed, the layout, and when it is refused |
| `MkfsSizes.AutoFatBySize` | filesystem_code/ff.c:6205-6276 | whatever the other options, up to 4085 sectors there is FAT12 or nothing, from 2^18 to 65526 * 64 always FAT16, from 0x410000 on FAT32 if it is allowed, and nothing from 0x820000 on without it |
| `MkfsSizes.Auto32BySize` | filesystem_code/ff.c:6205-6276 | FAT32 alone: always from 2^17 sectors on, never below 65558 |
| `MkfsPlan.ChosenIsGood` | filesystem_code/ff.c:6205-6276 | whatever it chooses fits the volume without any 32-bit or 16-bit truncation, has a FAT large enough for its clusters, a cluster count in the range of its type, an allowed type, and the cluster size that was asked for |
| `MkfsPlan.DataIsAligned` | filesystem_code/ff.c:6237-6247 | the data area starts on an erase block boundary |
| `MkfsPlan.SelectAu` | filesystem_code/ff.c:6209-6225 | the loop gives 2 to the number of table boundaries that the volume size has reached |
| `MkfsPlan.ChosenHasRoom` | filesystem_code/ff.c:6237-6251 | whatever the retry loop settles on has a cluster exactly if the volume holds the unaligned system area, the gap and one cluster, and always with erase blocks of at most 16 sectors |
| `Partition.CreatePartition` | filesystem_code/ff.c:5852-5894 | the boot record lists exactly the requested partitions one after the other, by sectors or percentage, clipped at the drive, and is zero elsewhere; first and last sectors are also given as cylinder, head and sector for the least number of heads that will do |
| `Partition.PartsDisjoint` | filesystem_code/ff.c:5859-5867 | the partitions lie behind the first track, inside the drive, and do not overlap |
| `Partition.SizeExactly` | filesystem_code/ff.c:5861-5863 | the size of a partition: sectors above 100, so many whole hundredths below, the drive at 100, and no more than is left |
| `Partition.ChsExactly` | filesystem_code/ff.c:5870-5882 | the three bytes give back the sector number, of whose cylinder they hold ten bits |
| `Mkfs.PutVbr` | filesystem_code/ff.c:6283-6316 | the boot sector built holds exactly the planned parameters where `mount_volume` reads them, and every other byte, from jump and name to serial number and label, is fixed too |
| `Mkfs.FillArea` | filesystem_code/ff.c:6333-6359 | writing an area a buffer at a time gives the head of the buffer followed by zeros, for every buffer size |
| `Mkfs.FMkfs` | filesystem_code/ff.c:5900-6394 | a rejected request leaves the disk unchanged with the exact error; otherwise boot sector and FSInfo with their backups, FATs, root directory and partition table are as planned, system type included, and nothing behind the root directory changes; `Requests.DecideExactly` says which requests are rejected |
| `Requests.DecideExactly` | filesystem_code/ff.c:5900-6276 | for every request, options taken apart bit by bit and number by number, and every drive: the exact error, or the exact layout that is written |
| `Requests.DrivesBySize` | filesystem_code/ff.c:5900-6276 | without a cluster size asked for, which drives must become FAT12, FAT16 and FAT32, and which must be refused, by drive size alone |
| `FormatMount.VolumeFound` | filesystem_code/ff.c:3347-3392 | the new volume is found, as the whole drive or behind the partition table |
| `FormatMount.BpbAccepted` | filesystem_code/ff.c:3529-3578 | `mount_volume` accepts what `f_mkfs` wrote exactly if there is a cluster, with the same type, cluster size, FAT size and number of entries |
| `FormatMount.FormattedMounts` | filesystem_code/ff.c:3455-3619 | mounting a formatted disk succeeds exactly if the plan has a cluster, with the planned layout and unknown free count |
| `FormatMount.NewFat` | filesystem_code/ff.c:6329-6349 | in the new FAT every cluster is free except the root directory of FAT32, the reserved entries are non-zero, and both copies agree |
| `FormatMount.FormatAndMount` | filesystem_code/ff.c:5900-6394 | formatting and mounting any drive with any options ends in the recorded error or in a volume that satisfies the invariant of every run and will be mounted again however it is used |
| `FormatMount.MountableExactly` | filesystem_code/ff.c:6237-6251 | for every request that `f_mkfs` accepts, the new volume has a cluster, and so can be mounted, exactly if one of the chosen size fits behind the unaligned system area of the chosen type and the gap; always with erase blocks of at most 16 sectors; a volume without clusters is always FAT12 |
| `FormatMount.AlignedAway` | filesystem_code/ff.c:6237-6251 | a drive of 128 sectors with erase blocks of 128 sectors is formatted to a volume without clusters |
| `LinkMap.LookupIsWalk` | filesystem_code/ff.c:1645-1664 | looking a cluster index up in the fragments gives the cluster a walk along the chain reaches, 0 behind its end |
| `LinkMap.ClmtClust` | filesystem_code/ff.c:1645-1664 | for every offset the table gives chain[ofs / bytes per cluster], or 0 past the chain |
| `LinkMap.CreateLinkMap` | filesystem_code/ff.c:4475-4500 | builds the table of the chain's fragments and reports 2 + 2 * fragments even if it does not fit; fails exactly if the end mark is the last cluster plus one |
| `LinkMap.EocEndsPlainly` | filesystem_code/ff.c:4475-4500 | a chain that FatFs has ended is never taken to go on, whatever the type and size of the volume |
| `LinkMap.EndsLikeCluster` | filesystem_code/ff.c:4475-4500 | a one-cluster chain whose end mark is the next number, which the code rejects |
| `Lfn.PutLfn` | filesystem_code/ff.c:1977-2002 | fixes all 32 bytes of the entry: the 13 units, terminator, fillers, order and last-entry flag, for every terminated name |
| `Lfn.PartBytes` | filesystem_code/ff.c:1977-2002 | where each of the 13 units of a part lies in the entry, by literal offset, and what fills the rest |
| `Lfn.PutSet` | filesystem_code/ff.c:2547-2559 | writes the ceil(len / 13) parts in descending order on top of the short entry, all with its checksum |
| `Lfn.PickLfn` | filesystem_code/ff.c:1939-1968 | on any entry: accepted exactly if well formed and fitting the buffer, and the exact buffer afterwards, also on rejection |
| `Lfn.DirRead` | filesystem_code/ff.c:2327-2393 | for files and for labels, on any disk content and from any cursor, the scan over the volume ends within MAX_DIR and changes nothing there; order and checksum tracking over the entries on its path delivers what the state machine `Scan` says, with the exact buffer, and the scan goes on up to the object, an end mark, or the end of the links or of the disk |
| `Lfn.RoundTrip` | filesystem_code/ff.c:1939-2002 | every name of 1 to 255 units without 0 and 0xFFFF is reassembled by the scan exactly, with the offset of its own set, whatever was scanned before |
| `Lfn.FlagOnFirst` | filesystem_code/ff.c:2000-2001 | the last-entry flag is on exactly the first entry written |
| `Lfn.SumStep` | filesystem_code/ff.c:2071-2083 | each byte of the name rotates the checksum right by one bit and is added to it |
| `Lfn.OneByteTells` | filesystem_code/ff.c:2071-2083 | names that differ in one byte have different checksums |
| `Glob.TermMatches` | filesystem_code/ff.c:2829-2842 | a wildcard term matches exactly if the rest matches behind its number of `?`, or anywhere from there on if it has a `*` |
| `Glob.PatternMatch` | filesystem_code/ff.c:2815-2859 | on all strings: accepts if and only if the pattern has at most `recur` wildcard terms and the name matches with each term read as the code reads it, by the low byte and the rest of its summary |
| `Glob.NameMatches` | filesystem_code/ff.c:4744-4768 | the call of `f_findnext`: accepts exactly the names that match, if no term has more than 255 `?`, and refuses every pattern of more than four wildcard terms; `CaseLaw.CaseBlind` says what matching means for case |
| `Glob.MeantExactly` | filesystem_code/ff.c:2815-2859 | the code's reading of a pattern and its declarative, case-folding meaning agree on all names if and only if no term has more than 255 `?` |
| `Glob.TooManyQs` | filesystem_code/ff.c:2815-2859 | the matcher accepts the empty name for 256 `?`, which the pattern does not mean |
| `Share.ShareTable.ChkShare` | filesystem_code/ff.c:948-972 | the answer is that of sharing (many readers or one writer, one entry per object) if and only if the object's reader count does not look like a writer's |
| `Share.ShareTable.IncShare` | filesystem_code/ff.c:984-1012 | guarded or not, for any number of readers: fails exactly if there is no entry or a writer finds the counter non-zero, else registers one handle; the table then describes the handles exactly if the open was compatible |
| `Share.ShareTable.DecShare` | filesystem_code/ff.c:1015-1036 | gives back exactly one handle; the table then describes the others exactly if the handle was a writer or the number of readers can be counted down |
| `Share.WriterIsAlone` | filesystem_code/ff.c:948-1036 | a writer and any other handle of the same object never coexist, and each object has one entry |
| `Share.RunShare` | filesystem_code/ff.c:948-1036 | every sequence of opens, each behind `chk_share`, and closes leaves open exactly the uses that the abstract machine of sharing leaves open, and the table describes them, up to the first time an object has 256 readers |
| `Share.OnlyBadCount` | filesystem_code/ff.c:948-1036 | of all reader counts from 1 to 2^32-1 exactly 256 is taken for a writer, and exactly 256 cannot be counted down |
| `Share.TooManyReaders` | filesystem_code/ff.c:948-1034 | after 256 opens for reading, all of which `chk_share` lets through, it answers LOCKED although nobody writes, and the first close blanks the entry while 255 handles are open |
| `ShortName.CreateName` | filesystem_code/ff.c:3001-3062 | accepts exactly the 8.3 segments and stores their upper-cased, blank-padded form, which `CaseLaw.AcceptedExactly` and `CaseLaw.FieldBytes` spell out; gives the next segment's position and the last-segment flag |
| `ShortName.GetName` | filesystem_code/ff.c:2754-2763 | prints any 11-byte name: blanks dropped, 0x05 restored, a dot before a non-blank ninth byte |
| `ShortName.PrintedField` | filesystem_code/ff.c:2754-2763 | an accepted segment prints as its upper-cased body and extension |
| `ShortName.RoundTrip` | filesystem_code/ff.c:2754-3062 | printing and parsing again gives the same 11 bytes for every accepted segment but `.`, the only one with an all-blank name |
| `ShortName.FieldIsProper` | filesystem_code/ff.c:3058-3059 | a stored name never starts with the end mark or the deleted mark |
| `ShortName.LastExactly` | filesystem_code/ff.c:3060-3060 | the last-segment flag is right if and only if no extended character follows the separator |
| `ShortName.ExtendedEndsPath` | filesystem_code/ff.c:3060-3060 | on a path whose second segment starts with an extended character `create_name` flags the first one as the last |
| `CodePage.UpperTwice` | filesystem_code/ff.c:3032-3049 | upper-casing in code page 437 is idempotent; `CaseLaw.FoldExactly` says what it is |
| `CaseLaw.FoldExactly` | filesystem_code/ff.c:2797-2802 | two characters fold to one exactly if they are spellings of one letter: the ASCII letter and its capital, and the accented letters of code page 437 by name |
| `CaseLaw.AsciiExactly` | filesystem_code/ff.c:49-49 | below 0x80 those are exactly the pairs of a letter and its capital |
| `CaseLaw.AcceptedExactly` | filesystem_code/ff.c:3018-3059 | `create_name` accepts exactly 1 to 8 characters, or up to 8 and up to 3 around a dot, none of them a dot or one of the 14 forbidden ones, and takes them apart there |
| `CaseLaw.FieldBytes` | filesystem_code/ff.c:3018-3059 | each byte stored: small ASCII letters as capitals, everything else below 0x80 as it is, blanks behind, 0x05 for a first 0xE5, and never a small letter |
| `CaseLaw.SameField` | filesystem_code/ff.c:3018-3059 | segments that differ only in the spelling of letters are accepted alike and stored alike |
| `CaseLaw.FieldTells` | filesystem_code/ff.c:3018-3059 | segments of the same shape that are stored alike differ only in the spelling of letters |
| `CaseLaw.LiteralExactly` | filesystem_code/ff.c:2845-2850 | a pattern of one literal matches exactly the spellings of its letter |
| `CaseLaw.CaseBlind` | filesystem_code/ff.c:2815-2859 | the meaning of a pattern is the same for every spelling of pattern and name |
| `CaseLaw.CodeBlind` | filesystem_code/ff.c:2815-2859 | so is the answer of the matcher, for patterns of any number of wildcards |

## Left out

- exFAT (allocation bitmap, directory entry sets), `f_expand`, GPT and 64-bit LBA: switched off in this configuration.
- The caching of file data in FIL's own buffer (`FF_FS_TINY` 0): a second window of the same kind as the one modelled.
- Long names in `dir_find`, `dir_alloc` and `dir_register`: `Lfn` models the entry set and `dir_read` over the volume, `Directory`
  the short-name configuration; comparison of long names needs the Unicode tables, which are not part of this model.
- Disk failures and the abort flag they set: in-range requests succeed, as in `diskio_fuzz.c`; the failing branches are
  in the code of the model but unreachable.
- Path following and the creation of entries by `f_open`: object lookup around the operations modelled here; the end of `f_open`,
  `f_sync` and the effect of `f_close` on the set of open files are modelled.
- Volume labels, `f_utime`, `f_chmod`, `f_rename`, `f_mkdir`, `f_unlink`: compositions of the directory and chain operations with
  field stores.
- Durable.FSync: where the FSInfo record has no sector of its own, `Sync.SyncFs` states what is lost; `f_sync` is stated for the others.
- Durable.SyncAndReopen: power failing in the middle of an operation; the disk is looked at after `f_sync` has returned.
- Re-entrancy locks, the object validity check (`validate`), TRIM and drive status: thin or foreign code.
- Fast seek in `f_read`/`f_write` through the link map: `LinkMap` proves that the table answers as the walk does.
- Files.FWrite: data is a sequence shorter than 2^32 bytes, as the 32-bit count of the original implies.
- DirWalk.Scan: if the window claims to show the very sector of the cursor although it is not on the disk, `move_window` takes
  its stale content for that sector; then the codes, the bound and the unchanged volume are stated, not the entry delivered.
- Directory.DirRead: the same, for the operation on top of it.
- Lfn.DirRead: the same, for the scan with long names.
- Share.RunShare: the refinement ends where an object gets its 256th reader, because the table no longer describes the handles
  after a close from there (`Share.TooManyReaders`); each single call is stated for any number of readers.
