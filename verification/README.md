# Verified models of the firmware extensions and examples

A model in Dafny 4.11 of the code in this repository that holds state and invariants, with proofs
of what that code promises. `dafny verify dfyconfig.toml` checks all of it.

Each layer is a packed or fast form of something simple, and the proofs stack the refinements.

- **FatFs** (`Fat*.dfy`). Bytes and the one-sector window (`FatLayout`, `FatVolume`, `FatFreeCount`),
  the FAT as a map and a set of disjoint chains (`FatChains`), the open file as a byte sequence
  (`FatFileSpec`, `FatBuffer`, `FatFile`, and any sequence of calls on it in `FatFileRun`), several open
  files on one volume (`FatReshape`, `FatOpenFiles`, `FatStranded`), f_sync and what a later mount finds
  (`FatSync`, `FatDurable`), the link map of fast seek and files that use it (`FatLinkMap`,
  `FatMappedFile`), directory tables (`FatDirectory`), mounting (`FatMount`, `FatMountSpec`), formatting
  (`FatFormat`, `FatFormatSpec`, `FatNewVolume`), all of it from an unformatted medium on
  (`FatEndToEnd`), and the table of open objects (`FatLocks`). The format is that of Microsoft's FAT32
  File System Specification, version 1.03; the thresholds of the sub-types are the code's own.
- **DSP filters** (`Dsp*.dfy`). Streams and the theorem that direct form II computes direct form I
  (`DspStreams`), and the filter objects over their shifted buffers (`DspFilters`). `float` is
  modelled by `real`.
- **Line editor** (`Rdline*.dfy`). An ideal one-row terminal, and the editor whose bytes keep it in
  step with the line.
- **USB mass storage** (`UsbTransfer.dfy`). The double-buffered transfer as a state machine over the
  steps of the thread and the interrupts.
- **WiFi receive path** (`RingBuffer.dfy`, `WifiIpd.dfy`). The ring buffer as a queue, and the `+IPD`
  demultiplexer in front of it.
- **MQTT** (`Mqtt*.dfy`). The length field of section 2.2.3 of MQTT Version 3.1.1, packet framing, the
  serialization of PUBLISH and SUBSCRIBE, and what a receiver reads from their bytes.

## Reading the model

The medium never fails: `disk_read` and `disk_write` succeed. Sectors have 512 bytes, as the
configuration fixes them (`ChibiOS/ext/fatfs/src/ffconf_template.h`). Bit operations are written as
the equal arithmetic, and 32-bit wrap-around is written out where it can happen. `Logical()` of a
volume is the disk as the program sees it, overlaid by the window; `Data()` of a file adds its dirty
buffer. `Contents(n)` are the first `n` bytes of a file.

`char` is unsigned, as on the target.

Some promises turn out to hold only under a condition, which is proved to be the exact one, with an
input on which they fail.

- remove_chain keeps the table a set of chains exactly when it is given a free cluster or the first
  cluster of a chain (`FatChains.RemoveKeepsForestIff`, and `FatChains.TailRemoveFails` where it does not).
- Open files on one volume are independent: no call on one changes what another is. A file is a plain byte
  sequence exactly up to an f_lseek past its end that takes in the sector of its clean buffer when the
  buffer does not show the bytes there (`FatFile.File.Exposes`, decided by the state before the call:
  `FatFile.File.Lseek`, `FatFileRun.Call`, `FatOpenFiles.CallOn`). f_truncate can leave a buffer with a
  sector it frees, and another file can write there. After every such f_lseek a byte of the file can be
  read wrongly (`FatStranded.SeekMisleads`, `FatStranded.ReadsHidden`); `FatStranded.TwoAnswers` and
  `FatEndToEnd.TwoAnswersOnNewVolume` are an input.
- Building a link map fails exactly on a chain whose end mark is the number after its last cluster,
  which then is the last of the volume (`FatLinkMap.CreateLinkMap`, `FatLinkMap.LinkMapFails`).
- A fast seek fails exactly when the file got its first cluster after the map was made and the target is
  behind its start (`FatMappedFile.FastSeek`, and `FatMappedFile.MapTooEarly` on the medium of
  `FatEndToEnd.MapTooEarlyOnNewVolume`).
- A link map ends where the chain ends exactly when f_truncate has not cut the chain since it was made;
  otherwise f_write goes on into the clusters cut off (`FatMappedFile.MappedNext`,
  `FatMappedFile.WritesFreeCluster`).
- sync_fs writes a FAT sector instead of an FSINFO sector exactly when a FAT32 volume with FSINFO has
  one reserved sector, which a mount does not rule out (`FatMount.FsInfoSectorIsFat`,
  `FatMount.MountWithOneReservedSector`); what is left of the table is `FatVolume.FsInfoOverTable`.
- The free count of f_getfree is exact after an error only if no free cluster is behind the reserved
  entry, and on FAT16 and FAT32 only if entries 0 and 1 are not zero (`FatVolume.Volume.GetFree`,
  `FatFreeCount.MiscountsTail`, `FatFreeCount.MiscountsHead`).
- A formatted volume is mounted again exactly when the alignment to erase blocks leaves a cluster
  (`FatFormat.MkfsThenMount`, `FatFormatSpec.NewVolumeIs`, `FatFormat.MkfsLeavesNoRoom`).
- The table of open objects counts one more reader exactly below 255 (`FatLocks.TooManyReaders`,
  `FatLocks.TableAtTheLimit`).
- A `+IPD` frame is delivered exactly when its payload is not empty and has no byte 0xFF
  (`WifiIpd.FrameDelivered`, `WifiIpd.FrameFails`), and the text before it has not left a header begun with
  the letters IPD (`WifiIpd.TextWithoutIpd`, `WifiIpd.FrameLost`).
- A PUBLISH is read as it was meant exactly when the quality of service fits two bits, and topic length and
  identifier two bytes (`MqttParse.PublishParses`, `MqttParse.PublishParsesFails`).
- The MQTT length field is decoded as it was encoded exactly below 128 to the fourth
  (`MqttLength.DecodeInverts`), and MQTTPacket_len is large enough exactly there, one byte too large
  for the remaining lengths 127, 16383, 2097150 and 2097151 (`MqttLength.PacketLenIsEnough`,
  `MqttLength.DecodeFails`).
- The announced and the written length of an MQTT string agree exactly when one representation is
  used (`MqttSerialize.StrSize`, `MqttSerialize.StrSizeFails`), and those of a SUBSCRIBE exactly when the
  differences of its topics add up to nothing (`MqttSerialize.Subscribe`, `MqttSerialize.GapsCancel`).

## Model

| member | source | states |
|---|---|---|
| `FatLayout.UpdateIsMapUpdate` | ChibiOS/ext/fatfs/src/ff.c:926-955 | for FAT12, FAT16 and FAT32, rewriting the bytes of one entry changes that entry to the value cut to 12, 16 or 28 bits and no other entry, in spite of shared bytes and the reserved nibble |
| `FatLayout.EndMark` | ChibiOS/ext/fatfs/src/ff.c:1062 | the end mark 0x0FFFFFFF, as each sub-type keeps it, is no cluster number of a valid volume |
| `FatLayout.EntriesAre` | ChibiOS/ext/fatfs/src/ff.c:865-901 | where the entries are in the bytes of the FAT: two on FAT16, four less the upper four bits on FAT32, three for two entries on FAT12, low byte first |
| `FatLayout.NibbleKept` | ChibiOS/ext/fatfs/src/ff.c:948-954 | put_fat on FAT32 sets a reserved bit of its entry exactly if it was set or is set in the value and changes none of another entry; with a value of 28 bits all stay as they are |
| `FatVolume.Volume.SyncWindow` | ChibiOS/ext/fatfs/src/ff.c:755-776 | writing the window back leaves the logical disk (disk overlaid by the window) as it is, clean, with the FAT copies identical |
| `FatVolume.OverlayIs` | ChibiOS/ext/fatfs/src/ff.c:755-776 | a sector that is written back goes to its place and, when it is one of the FAT and there are two copies, to the same place in the second; no other sector changes |
| `FatVolume.Volume.MoveWindow` | ChibiOS/ext/fatfs/src/ff.c:781-797 | the window shows the asked sector of the logical disk, which is unchanged; a dirty window is written back first, and only when the sector changes |
| `FatVolume.Volume.GetFat12` | ChibiOS/ext/fatfs/src/ff.c:878-884 | the 12-bit entry, whose two bytes may lie in two sectors with a window flush in between |
| `FatVolume.Volume.GetFat16` | ChibiOS/ext/fatfs/src/ff.c:886-889 | the 16-bit entry |
| `FatVolume.Volume.GetFat32` | ChibiOS/ext/fatfs/src/ff.c:891-894 | the 28-bit entry |
| `FatVolume.Volume.GetFat` | ChibiOS/ext/fatfs/src/ff.c:865-901 | the entry of the table, 1 out of range; the table and the logical disk are unchanged, also when an entry straddles two sectors |
| `FatVolume.Volume.PutFat12` | ChibiOS/ext/fatfs/src/ff.c:927-939 | the two bytes of the entry are rewritten, the half byte of the neighbour kept, over a window move if need be; nothing outside the FAT changes |
| `FatVolume.Volume.PutFat16` | ChibiOS/ext/fatfs/src/ff.c:941-946 | the two bytes of the entry are rewritten and nothing outside the FAT |
| `FatVolume.Volume.PutFat32` | ChibiOS/ext/fatfs/src/ff.c:948-954 | the four bytes of the entry are rewritten, the reserved bits as FatLayout.NibbleKept says, and nothing outside the FAT |
| `FatVolume.Volume.PutFat` | ChibiOS/ext/fatfs/src/ff.c:911-963 | a map update of the table through the window, the FAT copies kept identical, nothing outside the FAT touched; the upper four bits of every FAT32 entry are as before for values of 28 bits; an error and no change out of range |
| `FatVolume.Volume.FreeCluster` | ChibiOS/ext/fatfs/src/ff.c:995-1000 | one cluster in use is freed and counted, and FSINFO is then due; nothing else changes |
| `FatVolume.Volume.RemoveChain` | ChibiOS/ext/fatfs/src/ff.c:974-1016 | ends on every table, cyclic ones included; frees exactly the clusters reached from its argument; fails exactly when it meets a reserved entry or its argument is out of range; an exact free count stays exact and known, with FSINFO due when it changes, and reserved bits stay |
| `FatVolume.Volume.FindFree` | ChibiOS/ext/fatfs/src/ff.c:1048-1060 | the circular scan answers by the first entry behind the hint that is free or reserved: the free cluster, 1 for a reserved entry, 0 exactly when there is neither; it ends |
| `FatVolume.Volume.Allocate` | ChibiOS/ext/fatfs/src/ff.c:1048-1076 | the search, the link and the count: the first free cluster behind the hint joins the chain, unless a reserved entry comes before it or none is free |
| `FatVolume.Volume.CreateChain` | ChibiOS/ext/fatfs/src/ff.c:1027-1077 | an unused argument gives 1, a followed one its successor; else the answer is that of the circular scan from the argument or the hint, the cluster found is marked as end, linked and the next hint, nothing else changes, reserved bits included, and an exact free count stays exact and known, with FSINFO due; where no cluster is linked, nothing waits to be written that did not before |
| `FatVolume.Volume.SyncFs` | ChibiOS/ext/fatfs/src/ff.c:807-836 | the disk becomes the logical disk; only the sector behind the boot sector is rewritten, only when FSINFO is due, with the free count and last cluster; the table is kept when that is a reserved sector, and when it is the first FAT sector the volume stays valid exactly if there is one FAT copy or the second already reads so |
| `FatVolume.FsInfoOverTable` | ChibiOS/ext/fatfs/src/ff.c:814-828 | FSINFO data written over the first FAT sector make clusters 2 to 120 and 124 to 126 free and entries 122 and 123 the count and the last cluster; the table survives exactly if it read so before |
| `FatVolume.Volume.CountEntries` | ChibiOS/ext/fatfs/src/ff.c:3341-3348 | the per-entry count equals the number of free clusters; an error exactly when there is a reserved entry, with the number of free clusters before the first one |
| `FatVolume.Volume.CountRaw` | ChibiOS/ext/fatfs/src/ff.c:3349-3368 | the raw sector scan equals the number of free clusters plus one for each of entries 0 and 1 that is zero |
| `FatVolume.Volume.GetFree` | ChibiOS/ext/fatfs/src/ff.c:3335-3372 | a known count is returned; a scan gives the exact count, but for zero entries 0 and 1 on FAT16 and FAT32; after an error the count before the first reserved entry is kept, and is exact only if no free cluster is behind it |
| `FatFreeCount.MiscountsHead` | ChibiOS/ext/fatfs/src/ff.c:3349-3368 | a FAT16 volume with two free clusters whose table is zero: four are counted |
| `FatFreeCount.MiscountsTail` | ChibiOS/ext/fatfs/src/ff.c:3341-3348 | a FAT12 volume with a free cluster behind a reserved entry: none is counted, and that count is kept |
| `FatVolume.Volume.Mount` | ChibiOS/ext/fatfs/src/ff.c:2271-2315 | the file system object for a valid geometry, FSINFO or not, however many sectors are reserved: a clean window and the table on the medium; it is valid exactly when the FAT copies are alike, which the mount does not look at |
| `FatVolume.Volume.DiskWrite` | ChibiOS/ext/fatfs/src/ff.c:2715-2716 | sectors of the data area that are not in the window are replaced on the logical disk; the table is kept |
| `FatChains.ChainDistinct` | ChibiOS/ext/fatfs/src/ff.c:990-1012 | a chain that ends has no cycle: no cluster twice |
| `FatChains.FoundUnique` | ChibiOS/ext/fatfs/src/ff.c:1048-1060 | the answer of the circular scan is a function of the table and its starting point |
| `FatChains.GrowStep` | ChibiOS/ext/fatfs/src/ff.c:1027-1077 | one create_chain at the end of a chain leaves the rest of its growth as it was to be: how far a chain will get, and through which clusters, is known before |
| `FatChains.ForestAfterNew` | ChibiOS/ext/fatfs/src/ff.c:1036-1071 | create_chain on 0 adds a chain of one cluster to the set of disjoint chains |
| `FatChains.ForestAfterStretch` | ChibiOS/ext/fatfs/src/ff.c:1040-1071 | create_chain on the end of a chain makes that chain longer by a free cluster and keeps all others |
| `FatChains.ForestAfterRemove` | ChibiOS/ext/fatfs/src/ff.c:990-1012 | freeing a whole chain takes exactly it out of the set of chains |
| `FatChains.RemovedChain` | ChibiOS/ext/fatfs/src/ff.c:990-1012 | on a chain, the clusters remove_chain reaches from element k are exactly the elements from k on |
| `FatChains.RemovedStep` | ChibiOS/ext/fatfs/src/ff.c:990-1012 | one turn of remove_chain leaves the same clusters and the same error to its rest, on any table |
| `FatChains.RemoveKeepsForestIff` | ChibiOS/ext/fatfs/src/ff.c:974-1016 | for every cluster of a set of disjoint chains: remove_chain keeps it such a set exactly when it is given a free cluster or the first one of a chain; otherwise a link to a free cluster is left |
| `FatChains.TailRemoveFails` | ChibiOS/ext/fatfs/src/ff.c:974-1016 | a table and a chain on which freeing the tail alone leaves no set of chains |
| `FatChains.RunKeepsForest` | ChibiOS/ext/fatfs/src/ff.c:974-1077 | over every sequence of create_chain and remove_chain steps the table stays a set of disjoint chains that all end |
| `FatChains.FreeSetUpdate` | ChibiOS/ext/fatfs/src/ff.c:997-1000 | the number of free clusters moves by one exactly when an entry changes between zero and non-zero |
| `FatChains.ZeroCountIsFree` | ChibiOS/ext/fatfs/src/ff.c:3349-3368 | counting zero entries from entry 0 on counts the free clusters and the zero ones of entries 0 and 1 |
| `FatChains.PartialCount` | ChibiOS/ext/fatfs/src/ff.c:3341-3348 | the count up to the first reserved entry is that of all free clusters exactly when none is behind it |
| `FatChains.CutTail` | ChibiOS/ext/fatfs/src/ff.c:3405-3414 | the end mark and remove_chain behind it free exactly the tail of a chain and leave its head a chain |
| `FatChains.ForestAfterCut` | ChibiOS/ext/fatfs/src/ff.c:3402-3417 | f_truncate shortens one chain of the set, or takes it out, and keeps all others |
| `FatReshape.ReshapedByGrowth` | ChibiOS/ext/fatfs/src/ff.c:2675-2757 | what f_write and f_lseek do to the table gives one chain another shape: clusters gained were free and no other entry changes |
| `FatReshape.ReshapedByCut` | ChibiOS/ext/fatfs/src/ff.c:3402-3417 | so does what f_truncate does: clusters lost are free |
| `FatReshape.ReshapedForest` | ChibiOS/ext/fatfs/src/ff.c:974-1077 | a set of disjoint chains stays one when a chain of it is given another shape, goes or comes |
| `FatReshape.ReshapedReserved` | ChibiOS/ext/fatfs/src/ff.c:974-1077 | no call makes or takes away a reserved entry |
| `FatReshape.HousedStep` | ChibiOS/ext/fatfs/src/ff.c:974-1077 | the chains of several files and of the rest of the volume stay the whole table, disjoint, when one file's chain is given another shape |
| `FatReshape.OtherSectors` | ChibiOS/ext/fatfs/src/ff.c:847-855 | chains that share no cluster share no sector |
| `FatFileSpec.ClustersApart` | ChibiOS/ext/fatfs/src/ff.c:847-855 | clust2sect maps different clusters to disjoint runs of sectors |
| `FatFileSpec.ClusterOnVolume` | ChibiOS/ext/fatfs/src/ff.c:847-855 | those runs lie in the data area, outside the FAT copies and on the medium |
| `FatFileSpec.Clust2SectIs` | ChibiOS/ext/fatfs/src/ff.c:847-855 | clust2sect does not fail on a cluster of the volume |
| `FatFileSpec.ClustersInOrder` | ChibiOS/ext/fatfs/src/ff.c:847-855 | cluster 2 starts the data area, every cluster follows the one before it, and any other number is no cluster |
| `FatFileSpec.RunsAreTheArea` | ChibiOS/ext/fatfs/src/ff.c:847-855 | the sectors of all clusters laid end to end are those of the data area in ascending order |
| `FatFileSpec.ByteIsAt` | ChibiOS/ext/fatfs/src/ff.c:2577-2634 | where byte k of a file is, in numbers: sector (c - 2) times the cluster size behind the start of the data area, c being so far along the chain, and there as far in |
| `FatFileSpec.SecInjective` | ChibiOS/ext/fatfs/src/ff.c:847-855 | no two sectors of a file are the same sector of the volume |
| `FatFileSpec.RunSpliced` | ChibiOS/ext/fatfs/src/ff.c:2711-2731 | writing whole sectors of a cluster replaces exactly those bytes of the file, growing it if need be |
| `FatFileSpec.PartSpliced` | ChibiOS/ext/fatfs/src/ff.c:2747-2756 | replacing part of a sector replaces exactly those bytes of the file, whatever the sector holds beyond the end of the file |
| `FatFileSpec.ReadRunPatched` | ChibiOS/ext/fatfs/src/ff.c:2607-2608 | sectors read directly with the dirty buffer copied over them are the sectors of the logical file |
| `FatFileSpec.ClustersForExact` | ChibiOS/ext/fatfs/src/ff.c:3402-3417 | the clusters kept by f_truncate hold the bytes before the file pointer, and one less would not |
| `FatFile.File.Open` | ChibiOS/ext/fatfs/src/ff.c:2525-2533 | an opened file is valid: pointer 0, empty buffer, size and chain from the directory entry |
| `FatFile.File.LoadSector` | ChibiOS/ext/fatfs/src/ff.c:2615-2627 | the buffer shows the sector, unless it was on that sector before: then it is left alone; a dirty one is written back first; file and table are unchanged |
| `FatFile.File.FollowForRead` | ChibiOS/ext/fatfs/src/ff.c:2577-2595 | the sector of the byte at the file pointer and the current cluster of that byte |
| `FatFile.File.ReadDirect` | ChibiOS/ext/fatfs/src/ff.c:2596-2611 | sectors of one cluster with a dirty buffer in its place are the bytes of the logical file |
| `FatFile.File.ReadHere` | ChibiOS/ext/fatfs/src/ff.c:2596-2634 | from the sector of the pointer on, the next bytes of the file, directly or through the buffer, and the pointer behind them |
| `FatFile.File.Read` | ChibiOS/ext/fatfs/src/ff.c:2550-2641 | returns the bytes at the file pointer, as many as asked for or left, moves the pointer by as many, and changes neither file nor table; denied without read access, and after an internal error; a byte in the sector of the buffer comes from the buffer, right or not |
| `FatFile.File.FollowForWrite` | ChibiOS/ext/fatfs/src/ff.c:2678-2710 | the sector of the byte at the file pointer in a followed or newly linked cluster, or nothing when the volume is full; the file is unchanged |
| `FatFile.File.WriteDirect` | ChibiOS/ext/fatfs/src/ff.c:2711-2730 | the sectors are on the medium, the buffer in step with them |
| `FatFile.File.WriteHere` | ChibiOS/ext/fatfs/src/ff.c:2711-2757 | from the sector of the pointer on, the next bytes go into the file, directly or through the buffer, and no other sector changes |
| `FatFile.File.StageSector` | ChibiOS/ext/fatfs/src/ff.c:2739-2745 | the buffer agrees with the sector on the bytes that belong to the file, read or not |
| `FatFile.File.Fit` | ChibiOS/ext/fatfs/src/ff.c:2755-2756 | the bytes are in the dirty buffer and thereby in the file |
| `FatFile.File.Write` | ChibiOS/ext/fatfs/src/ff.c:2651-2764 | the file with the bytes put at the pointer; fewer only when no cluster is free, and then up to the end of the last cluster, none when 4 GB would be reached; only free clusters join the chain, no other file's sectors or entries change, and an exact free count stays exact; a reserved entry met in the search for a cluster ends the use of the file, its size as before and the bytes written so far in it; a call that succeeds marks the file for f_sync |
| `FatFile.File.Lseek` | ChibiOS/ext/fatfs/src/ff.c:3064-3139 | in range the pointer is the target; beyond the end it is clipped in read mode, and in write mode the chain is stretched as far as the volume has room; the file's bytes and an exact free count are kept; fails only beyond the end, on a reserved entry; the buffer is reloaded only when the pointer comes to lie inside another sector, so it is right about the file again exactly unless, before the call, the chain as it would grow takes in the sector of a clean buffer with bytes the buffer does not show; unless the file is marked for f_sync then, nothing has changed and nothing more waits to be written, and a mark stays |
| `FatFile.File.ExposedIff` | ChibiOS/ext/fatfs/src/ff.c:3112-3133 | after the loop of f_lseek the buffer is right about the longer file exactly unless the condition held before the call |
| `FatFile.File.WholeIsSafe` | ChibiOS/ext/fatfs/src/ff.c:3120-3131 | with a buffer that shows all of its sector the condition never holds, whatever the target |
| `FatFile.File.Shortcut` | ChibiOS/ext/fatfs/src/ff.c:3078-3082 | starting from the current cluster lands at its start, in the cluster a walk from the first cluster would be in |
| `FatFile.File.SeekLoop` | ChibiOS/ext/fatfs/src/ff.c:3096-3111 | the cluster following loop reaches the cluster of the target, or the last one of a full volume |
| `FatFile.File.Truncate` | ChibiOS/ext/fatfs/src/ff.c:3384-3430 | the file ends at the pointer; exactly the clusters needed for the bytes before it are kept and the others freed; nothing outside the FAT changes but the flushed buffer, and an exact free count stays exact; the buffer is left with a sector of the file exactly if it had one among the clusters kept; the file is marked for f_sync unless nothing at all has changed, and a mark stays |
| `FatFileRun.Call` | ChibiOS/ext/fatfs/src/ff.c:2550-2764 | each call on an open file is the call on a plain byte sequence with a position; a write or seek falls short only on a full volume or at 4 GB and fails only where an entry is reserved; on the volume only the chain of the file is given another shape and only its sectors are written; the file stays usable exactly unless the call is a misleading f_lseek |
| `FatFileRun.Calls` | ChibiOS/ext/fatfs/src/ff.c:2550-3430 | every sequence of f_read, f_write, f_lseek and f_truncate calls behaves as on a plain byte sequence, up to an internal error, after which every call fails and nothing changes; a set of disjoint chains stays one with the chain of the file replaced, reserved entries stay, and an exact free count stays exact; a file that is not marked for f_sync in the end has not been changed by any of them |
| `FatFileRun.LatestWrite` | ChibiOS/ext/fatfs/src/ff.c:2651-2764 | after any calls a byte of the file is what the latest write that reached it put there |
| `FatFileRun.ReadsLatest` | ChibiOS/ext/fatfs/src/ff.c:2550-2641 | a read returns, byte by byte, what the latest writes put there |
| `FatOpenFiles.CallOn` | ChibiOS/ext/fatfs/src/ff.c:2550-3430 | a call on one of several open files leaves all others usable with their bytes, pointers and chains, whatever their buffers hold; the file called stays usable exactly unless the call is an f_lseek that misleads, which is decided by the state before it |
| `FatOpenFiles.CallsInRow` | ChibiOS/ext/fatfs/src/ff.c:2550-3430 | calls on any number of open files in any order act on a row of plain byte sequences of which each call moves one; chains, reserved entries and free count are kept as for one file; the run ends early only before an f_lseek past the end of a file that an earlier call has truncated at a sector boundary, so never when seeks stay within the files |
| `FatOpenFiles.RowRunSplits` | ChibiOS/ext/fatfs/src/ff.c:2550-3430 | such a run is, for every file, a run of its own with the calls on it |
| `FatStranded.SeekMisleads` | ChibiOS/ext/fatfs/src/ff.c:3096-3133 | every f_lseek that misleads a valid file leaves a byte of the file hidden: its clean buffer has another one |
| `FatStranded.ReadsHidden` | ChibiOS/ext/fatfs/src/ff.c:2577-2634 | f_lseek to a hidden byte and f_read give the byte of the buffer and not that of the file |
| `FatStranded.TwoAnswers` | ChibiOS/ext/fatfs/src/ff.c:2550-3430 | on any volume with one free cluster of two sectors or more: two files take turns with the cluster, and the same byte of the first is then read as 1 and, after seeks only, as 0 |
| `FatStranded.PlainAnswersAgree` | ChibiOS/ext/fatfs/src/ff.c:2550-3139 | a plain byte sequence gives the same answer to both reads |
| `FatSync.EnteredReadsBack` | ChibiOS/ext/fatfs/src/ff.c:1270-1294 | the updated directory entry gives back the size, and the start cluster exactly if it is below 65536 or the volume is FAT32; name, creation time and the other entries of the sector stay |
| `FatSync.EntryFields` | ChibiOS/ext/fatfs/src/ff.c:2797-2802 | the updated entry has size, start cluster in two halves, time, access date 0 and archive bit at their offsets, and no other attribute changes |
| `FatSync.EntryReadAt` | ChibiOS/ext/fatfs/src/ff.c:1270-1281 | start cluster and size are read at those offsets, the upper half of the cluster on FAT32 only |
| `FatSync.Sync` | ChibiOS/ext/fatfs/src/ff.c:2773-2807 | nothing on a file not written to; else its entry, its table and its bytes are on the medium itself, every other sector is as the program saw it, but for the one of FSINFO where that is due, and the file is as before; the sector of the entry has that entry brought up to date, and the FSINFO sector, where due, the counts |
| `FatSync.Reopen` | ChibiOS/ext/fatfs/src/ff.c:2525-2533 | a mount of a medium that holds a file and f_open of its entry give exactly its bytes and its chain |
| `FatSync.SyncThenReopen` | ChibiOS/ext/fatfs/src/ff.c:2525-2807 | f_sync, a new mount and f_open give back the bytes of the file |
| `FatDurable.CallsThenSync` | ChibiOS/ext/fatfs/src/ff.c:2550-3430 | for a file that is on the medium: after any calls on it that no internal error has ended, and f_sync, its entry, its table and its bytes are on the medium, whichever calls mark it for f_sync; a free count that has changed is in the FSINFO sector |
| `FatDurable.CallsThenReopen` | ChibiOS/ext/fatfs/src/ff.c:2525-3430 | and a new mount and f_open give the bytes the calls have left |
| `FatLinkMap.FragmentationUnique` | ChibiOS/ext/fatfs/src/ff.c:3017-3029 | a chain has one division into maximal contiguous fragments |
| `FatLinkMap.NextFragment` | ChibiOS/ext/fatfs/src/ff.c:3019-3025 | the inner loop finds a maximal fragment and the cluster behind it |
| `FatLinkMap.CreateLinkMap` | ChibiOS/ext/fatfs/src/ff.c:3011-3035 | the table holds the maximal fragments; the reported size is 2 + 2 times their number even when the table is too small; it fails exactly when the end mark of the chain is the number after its last cluster |
| `FatLinkMap.EndLooksContiguousWhere` | ChibiOS/ext/fatfs/src/ff.c:3025 | that can only be so in the last cluster of the volume |
| `FatLinkMap.LinkMapFails` | ChibiOS/ext/fatfs/src/ff.c:3025 | a chain on which building the map fails |
| `FatLinkMap.ClmtClust` | ChibiOS/ext/fatfs/src/ff.c:1089-1106 | on a link map of a file, the cluster that holds a byte, and 0 beyond the last cluster |
| `FatLinkMap.MapFile` | ChibiOS/ext/fatfs/src/ff.c:3011-3035 | building the map changes neither the file nor the table |
| `FatMappedFile.FastSeek` | ChibiOS/ext/fatfs/src/ff.c:3037-3058 | a seek through the link map leaves the file as the walk along the chain would, also when f_truncate has made the map outdated; it fails exactly when the file got its first cluster after the map was made and the target is behind its start |
| `FatMappedFile.MapTooEarly` | ChibiOS/ext/fatfs/src/ff.c:3011-3058 | a map made of an empty file, one byte written and a seek behind it: an internal error |
| `FatMappedFile.MappedRead` | ChibiOS/ext/fatfs/src/ff.c:2577-2634 | f_read with a link map, current or outdated by f_truncate, returns the same bytes as without, and does not look at the table |
| `FatMappedFile.MappedNext` | ChibiOS/ext/fatfs/src/ff.c:2684-2692 | the map gives the next cluster of the chain; at its end it gives none exactly if it is current, and otherwise the first cluster that f_truncate has cut off, whether or not a cluster is free |
| `FatMappedFile.MappedWrite` | ChibiOS/ext/fatfs/src/ff.c:2675-2762 | f_write with a link map: a file with clusters gets no more, the table stays as it is and exactly the bytes that fit the clusters are written; a file without clusters gets one at most |
| `FatMappedFile.WriteAstray` | ChibiOS/ext/fatfs/src/ff.c:2684-2762 | f_write of a sector at the end of a file with an outdated map puts it in the first cluster cut off, and the file is larger than its chain |
| `FatMappedFile.WritesFreeCluster` | ChibiOS/ext/fatfs/src/ff.c:2684-3430 | the run to it: a mapped file of more than one cluster, a seek to the end of the first one, f_truncate and f_write of a sector, which lies in a free cluster then |
| `FatDirectory.Directory.Sdi` | ChibiOS/ext/fatfs/src/ff.c:1117-1155 | succeeds exactly when the table has the entry, on any links, and then stands on its cluster, sector and offset |
| `FatDirectory.Directory.Next` | ChibiOS/ext/fatfs/src/ff.c:1165-1223 | from entry i the answer and the place are those of dir_sdi(i + 1); when asked to, the table is stretched by one free cluster of zeros and nothing else changes; full volume, reserved entry and index limit are told apart |
| `FatDirectory.Directory.Steps` | ChibiOS/ext/fatfs/src/ff.c:1117-1223 | i steps from entry 0 succeed exactly when entry i exists and then give the place dir_sdi(i) gives |
| `FatDirectory.Directory.ClearCluster` | ChibiOS/ext/fatfs/src/ff.c:1199-1207 | the zero fill with the retargeted window makes every byte of the new cluster zero and changes nothing else, the table included |
| `FatDirectory.PlacesApart` | ChibiOS/ext/fatfs/src/ff.c:1117-1155 | different entries of a table, the static root table or one on a chain, are at different places |
| `FatDirectory.StaticPlace` | ChibiOS/ext/fatfs/src/ff.c:1133-1137 | the entries of the static root table lie one after the other, 32 bytes each, from the start of the root area on and within it |
| `FatDirectory.ChainedPlace` | ChibiOS/ext/fatfs/src/ff.c:1138-1154 | a table on a chain is a file of entries of 32 bytes: it has an entry exactly if the chain has room for its bytes, and the entry is where those bytes are |
| `FatDirectory.NthLinked` | ChibiOS/ext/fatfs/src/ff.c:1194 | linking a cluster behind the end of a walk does not change the way to it |
| `FatMount.OneBitIsClusterSize` | ChibiOS/ext/fatfs/src/ff.c:2248-2250 | for a byte, the test for a power of two admits exactly the cluster sizes of the format |
| `FatMount.MountIsValid` | ChibiOS/ext/fatfs/src/ff.c:2236-2287 | a volume that passes the tests of a mount, fits the medium and does not overflow has a valid geometry: every entry inside one FAT copy, every cluster on the medium, the root table between FAT and data area; which volumes pass is FatMountSpec.MountIff |
| `FatMountSpec.MountIff` | ChibiOS/ext/fatfs/src/ff.c:2236-2287 | a mount finds a volume exactly if the boot sector has, at the offsets of the format, 512 bytes per sector, one or two FAT copies, a cluster size of the format, whole sectors of root entries, a reserved sector, room for a cluster, no root entries exactly from 65526 clusters on, and a FAT that holds all entries; sub-type, sizes and places of the volume follow from the same numbers, the root directory of FAT32 from offset 44 |
| `FatMount.MountWithTwoCopies` | ChibiOS/ext/fatfs/src/ff.c:2245-2287 | a FAT16 volume of 64 MB with two FAT copies, as it is mounted |
| `FatMount.FsInfoSectorIsFat` | ChibiOS/ext/fatfs/src/ff.c:826-828 | the sector sync_fs writes is a FAT sector exactly when the boot sector is the only reserved one; what that does to the table is FatVolume.FsInfoOverTable |
| `FatMount.MountWithOneReservedSector` | ChibiOS/ext/fatfs/src/ff.c:2259-2260 | a mount accepts such a FAT32 volume |
| `FatFormat.MaskRoundsUp` | ChibiOS/ext/fatfs/src/ff.c:4061-4069 | masking with a power of two moves the data area up to the next erase block |
| `FatFormat.MkfsThenMount` | ChibiOS/ext/fatfs/src/ff.c:4038-4075 | a formatted volume is accepted by a mount exactly when one cluster is left behind the alignment, with the same sub-type, cluster count, FAT start, root directory and data start, and the data area starts on an erase block; when there is a layout is FatFormatSpec.LayoutIff |
| `FatFormatSpec.LayoutIff` | ChibiOS/ext/fatfs/src/ff.c:4038-4075 | f_mkfs lays out a volume exactly if reserved sectors, the least FAT for the clusters it would have without them, root directory and one cluster fit, and behind the data start on the next erase block 4086 clusters are left for FAT16 and 65526 for FAT32, unless that start is beyond the volume, which wraps around; all sizes of the layout in numbers |
| `FatFormatSpec.NewVolumeIs` | ChibiOS/ext/fatfs/src/ff.c:2236-4157 | a mount of it finds exactly the volume of those numbers, and none exactly when no cluster is left |
| `FatFormatSpec.OrdinaryFat16` | ChibiOS/ext/fatfs/src/ff.c:4038-4075 | 64 MB with four sectors per cluster: FAT16 with 32727 clusters |
| `FatFormatSpec.OrdinaryFat32` | ChibiOS/ext/fatfs/src/ff.c:4038-4075 | 1 GB in a partition, erase blocks of 4 MB, eight sectors per cluster: FAT32 with 261127 clusters |
| `FatFormat.MkfsLeavesNoRoom` | ChibiOS/ext/fatfs/src/ff.c:4058-4075 | 128 sectors with erase blocks of 32768: laid out by f_mkfs and refused by the mount |
| `FatNewVolume.UnitIsClusterSize` | ChibiOS/ext/fatfs/src/ff.c:4029-4036 | whatever allocation unit is asked for, the cluster size is one of the format |
| `FatNewVolume.AutoUnitIs` | ChibiOS/ext/fatfs/src/ff.c:4029-4036 | the cluster size of a volume by its number of sectors when none is asked for |
| `FatNewVolume.AskedUnitIs` | ChibiOS/ext/fatfs/src/ff.c:3998-4036 | one asked for is refused exactly if it is no power of two, and else kept within one and 128 sectors |
| `FatNewVolume.BootSectorReadsBack` | ChibiOS/ext/fatfs/src/ff.c:4118-4157 | the boot sector is recognised and its fields are analysed as they were laid out |
| `FatNewVolume.BootFields` | ChibiOS/ext/fatfs/src/ff.c:4118-4157 | every number of the boot sector at its offset in the format |
| `FatNewVolume.CheckFsIs` | ChibiOS/ext/fatfs/src/ff.c:2136-2154 | a FAT boot sector is one that ends in 0x55 0xAA and has the letters FAT at offset 54 or 82 |
| `FatNewVolume.FindBoot` | ChibiOS/ext/fatfs/src/ff.c:2214-2232 | the boot sector in sector 0, else that of the first partition that has one |
| `FatNewVolume.MbrReadsBack` | ChibiOS/ext/fatfs/src/ff.c:4099-4112 | the partition table is no FAT boot sector and gives the volume as its first partition, with its size and the type of its size |
| `FatNewVolume.Format` | ChibiOS/ext/fatfs/src/ff.c:4096-4209 | for every layout, every sector of the medium after f_mkfs; a write beyond the medium ends it with an error and the boot sector in place |
| `FatNewVolume.FormattedIsFound` | ChibiOS/ext/fatfs/src/ff.c:2214-2232 | the mount finds the formatted volume, with and without a partition table |
| `FatNewVolume.FormattedTable` | ChibiOS/ext/fatfs/src/ff.c:4161-4182 | the table of a new volume has the media byte and an end mark in its first two entries, on FAT32 the root directory in the third, and zeros |
| `FatNewVolume.NewForest` | ChibiOS/ext/fatfs/src/ff.c:4161-4182 | its chains are none, or on FAT32 that of the root directory, and all other clusters are free |
| `FatNewVolume.FsInfoReadsBack` | ChibiOS/ext/fatfs/src/ff.c:2296-2312 | a mount reads back the free count and last cluster that an FSINFO sector was written with |
| `FatNewVolume.FormatAndMount` | ChibiOS/ext/fatfs/src/ff.c:3976-4212 | a medium of fewer than 128 sectors is refused; aborted exactly when the volume cannot be laid out, in numbers; f_mkfs goes on whether or not a cluster is left, and the tests of the mount refuse the volume exactly when none is; else a new valid file system object with the geometry of FatFormatSpec.NewVolumeIs, an empty table and root directory and an exact free count |
| `FatEndToEnd.UseNewVolume` | ChibiOS/ext/fatfs/src/ff.c:2550-4212 | f_mkfs on any medium, the mount, a new file and any calls on it: there is a file exactly if the medium has 128 sectors and a cluster is left; every call succeeds as on a plain byte sequence, and the volume ends with the chains of the root directory and the file and an exact free count |
| `FatEndToEnd.KeptOnNewVolume` | ChibiOS/ext/fatfs/src/ff.c:2525-4212 | f_mkfs on any medium, the mount, a new file in the root directory, any calls on it, f_sync, a second mount and f_open: the file has the bytes the calls have left |
| `FatEndToEnd.UseNewFiles` | ChibiOS/ext/fatfs/src/ff.c:2550-4212 | the same with any number of new files and calls on them in any order, up to the first f_lseek past the end of a file truncated at a sector boundary before |
| `FatEndToEnd.TwoAnswersOnNewVolume` | ChibiOS/ext/fatfs/src/ff.c:2550-4212 | any medium of 128 sectors, formatted with one cluster, as a concrete input for FatStranded.TwoAnswers |
| `FatEndToEnd.MapTooEarlyOnNewVolume` | ChibiOS/ext/fatfs/src/ff.c:3011-4212 | the same medium as a concrete input for FatMappedFile.MapTooEarly |
| `FatLocks.LockTable.constructor` | ChibiOS/ext/fatfs/src/ff.c:507 | an empty table |
| `FatLocks.LockTable.ChkLock` | ChibiOS/ext/fatfs/src/ff.c:644-667 | reading or writing is allowed exactly on an object without a writer, or without any holder for writing, with room for its entry; removing exactly on one that is not open |
| `FatLocks.LockTable.IncLock` | ChibiOS/ext/fatfs/src/ff.c:680-709 | 0 exactly for an object that is open and not to be read, or one not open that finds no blank entry; else the object is open once more, and the table is right exactly if a reader joins no writer and fewer than 255 readers; after a check that passed it never fails |
| `FatLocks.LockTable.DecLock` | ChibiOS/ext/fatfs/src/ff.c:712-731 | the object of the entry is open once less, no other entry changes, and the table stays right for any index; an error exactly for an index out of range |
| `FatLocks.ConsistentIsExclusive` | ChibiOS/ext/fatfs/src/ff.c:644-731 | an object has one writer and no reader, or readers only |
| `FatLocks.TooManyReaders` | ChibiOS/ext/fatfs/src/ff.c:706 | one more reader is counted exactly while there are fewer than 255 |
| `FatLocks.TableAtTheLimit` | ChibiOS/ext/fatfs/src/ff.c:706 | a right table with 255 readers of one object, which one more makes wrong |
| `DspStreams.TwiceSwap` | examples/DSP-Library/FuntionsMath.cpp:12-27 | the order of two nested filter sums does not matter |
| `DspStreams.AuxRecurs` | examples/DSP-Library/IIR.cpp:86-91 | the auxiliary stream of direct form II satisfies its recursion at every sample |
| `DspStreams.FormsAgree` | examples/DSP-Library/IIR.cpp:11-99 | for every order, coefficients and input stream, form II gives at every sample the output of form I from rest |
| `DspFilters.Sum` | examples/DSP-Library/FuntionsMath.cpp:12-27 | the sum of the coefficients times the samples, newest first |
| `DspStreams.ImpulseResponse` | examples/DSP-Library/FuntionsMath.cpp:12-27 | the answer to a single sample of one is the coefficients, one after the other |
| `DspFilters.DataFilter.Copy` | examples/DSP-Library/DataFilter.cpp:98-136 | the setters copy the given values, the coefficients of the poles without the first one |
| `DspFilters.DataFilter.Fir` | examples/DSP-Library/DataFilter.cpp:3-16 | the coefficients and the given history of a FIR filter |
| `DspFilters.DataFilter.FormI` | examples/DSP-Library/DataFilter.cpp:18-38 | coefficients without a0 and the given histories |
| `DspFilters.DataFilter.FormII` | examples/DSP-Library/DataFilter.cpp:40-59 | the state of form II is the auxiliary stream of the given inputs |
| `DspFilters.DataFilter.CreateArrayAux` | examples/DSP-Library/DataFilter.cpp:69-86 | the auxiliary stream of the inputs, from rest, for every order |
| `DspFilters.DataFilter.MoveArray` | examples/DSP-Library/DataFilter.cpp:88-92 | the latest samples come to the front, also when source and target overlap |
| `DspFilters.Fir.constructor` | examples/DSP-Library/Filter.cpp:15-20 | the stream so far is the given history |
| `DspFilters.Iir.constructor` | examples/DSP-Library/Filter.cpp:15-20 | the streams so far are the given histories |
| `DspFilters.Fir.DirectFormI` | examples/DSP-Library/FIR.cpp:10-40 | the output is the coefficients applied to the unbounded input stream, whatever the buffer size |
| `DspFilters.Iir.DirectFormI` | examples/DSP-Library/IIR.cpp:11-57 | the output is b applied to the inputs minus a applied to the outputs before, over unbounded streams |
| `DspFilters.Iir.DirectFormII` | examples/DSP-Library/IIR.cpp:59-99 | the auxiliary stream goes on by its recursion, and the output is b applied to it |
| `DspFilters.RunBoth` | examples/DSP-Library/IIR.cpp:11-99 | form I and form II, with buffers of any two sizes, give equal outputs for every input stream |
| `RdlineEditor.Rev` | ChibiOS/ext/iot/rdline.c:31-36 | the part of the array between two places is reversed in place |
| `RdlineEditor.ConvAscii` | ChibiOS/ext/iot/rdline.c:40-49 | the number in decimal |
| `RdlineTerminal.RunMove` | ChibiOS/ext/iot/rdline.c:76-91 | the terminal moves the cursor by the number a move sequence was built from |
| `RdlineTerminal.RunRewrite` | ChibiOS/ext/iot/rdline.c:97-130 | clearing, printing the rest of the line and moving back shows the new line with the cursor in place |
| `RdlineEditor.LineEditor.DoMove` | ChibiOS/ext/iot/rdline.c:76-81 | the bytes of a cursor move, within the local buffer |
| `RdlineEditor.LineEditor.Write` | ChibiOS/ext/iot/rdline.c:62-67 | the bytes are sent in order |
| `RdlineEditor.LineEditor.MoveLeft` | ChibiOS/ext/iot/rdline.c:83-86 | a move to the left, nothing for no columns |
| `RdlineEditor.LineEditor.MoveRight` | ChibiOS/ext/iot/rdline.c:88-91 | a move to the right, nothing for no columns |
| `RdlineEditor.LineEditor.ClearLine` | ChibiOS/ext/iot/rdline.c:97-99 | the sequence that erases to the end of the row |
| `RdlineEditor.LineEditor.Clear` | ChibiOS/ext/iot/rdline.c:192-196 | an empty line in a buffer of zeros |
| `RdlineEditor.LineEditor.constructor` | ChibiOS/ext/iot/rdline.c:277-285 | an editor with an empty line that the terminal shows behind the prompt |
| `RdlineEditor.LineEditor.InsertChar` | ChibiOS/ext/iot/rdline.c:103-111 | the line with a character inserted at the cursor, terminator included |
| `RdlineEditor.LineEditor.RemoveChar` | ChibiOS/ext/iot/rdline.c:113-121 | the line without the character at the cursor, terminator included |
| `RdlineEditor.LineEditor.PrintLine` | ChibiOS/ext/iot/rdline.c:123-130 | the rest of the line and the move back to the cursor are sent |
| `RdlineEditor.LineEditor.DoBackspace` | ChibiOS/ext/iot/rdline.c:175-185 | the character before the cursor is gone from line and terminal |
| `RdlineEditor.LineEditor.DoDelete` | ChibiOS/ext/iot/rdline.c:249-256 | the character under the cursor is gone from line and terminal |
| `RdlineEditor.LineEditor.DoType` | ChibiOS/ext/iot/rdline.c:264-271 | a printable character is inserted in line and terminal while there is room; else nothing changes |
| `RdlineEditor.LineEditor.DoRight` | ChibiOS/ext/iot/rdline.c:230-235 | the cursor goes right in line and terminal, not beyond the end |
| `RdlineEditor.LineEditor.DoLeft` | ChibiOS/ext/iot/rdline.c:236-241 | the cursor goes left in line and terminal, not beyond the start |
| `RdlineEditor.LineEditor.MoveEnd` | ChibiOS/ext/iot/rdline.c:245-248 | the cursor goes to the end in line and terminal |
| `RdlineEditor.LineEditor.DoArrow` | ChibiOS/ext/iot/rdline.c:225-260 | the key of an escape sequence, or the reason to stop |
| `RdlineEditor.LineEditor.MoveHome` | ChibiOS/ext/iot/rdline.c:187-190 | the cursor goes to the start in line and terminal |
| `RdlineEditor.LineEditor.Input` | ChibiOS/ext/iot/rdline.c:207-275 | for every input the line is edited by its keys, in bounds and terminated, and the terminal shows prompt and line with the cursor at its place |
| `RdlineEditor.TypedAndBack` | ChibiOS/ext/iot/rdline.c:175-271 | backspace takes back what was typed |
| `RdlineEditor.KeysGoTogether` | ChibiOS/ext/iot/rdline.c:187-256 | delete is a step right and backspace, left and right undo each other, home and end are as many steps as it takes |
| `RdlineEditor.TypedText` | ChibiOS/ext/iot/rdline.c:264-271 | a text typed into an empty line is the line, as far as it fits the buffer |
| `RdlineEditor.SessionOfKeys` | ChibiOS/ext/iot/rdline.c:209-262 | every sequence of keys ended by enter is read as that sequence of keys |
| `UsbTransfer.WThreadKeeps` | ChibiOS/ext/mass_storage/usb_msd.c:475-509 | every step of the transfer thread keeps the invariant of a write command |
| `UsbTransfer.WUsbKeeps` | ChibiOS/ext/mass_storage/usb_msd.c:229-236 | every USB completion and partial arrival keeps it |
| `UsbTransfer.WRunIsSafe` | ChibiOS/ext/mass_storage/usb_msd.c:475-509 | in every interleaving block k goes to address base + k in order, no half of the buffer is filled and drained at once, and at most one transfer or one unconsumed signal exists |
| `UsbTransfer.WNeverStuck` | ChibiOS/ext/mass_storage/usb_msd.c:222-236 | a write command that is not finished can always go on, without a failure of the device |
| `UsbTransfer.WCanFinish` | ChibiOS/ext/mass_storage/usb_msd.c:475-509 | from every state that is not halted it can be brought to its end, with all blocks written |
| `UsbTransfer.WRunLength` | ChibiOS/ext/mass_storage/usb_msd.c:475-509 | every run from the start has at most ten steps of thread and interrupt for each block and six more, whatever partial arrivals come between |
| `UsbTransfer.RThreadKeeps` | ChibiOS/ext/mass_storage/usb_msd.c:511-543 | every step of the transfer thread keeps the invariant of a read command |
| `UsbTransfer.RUsbKeeps` | ChibiOS/ext/mass_storage/usb_msd.c:229-236 | every USB completion and partial read keeps it |
| `UsbTransfer.RRunIsSafe` | ChibiOS/ext/mass_storage/usb_msd.c:511-543 | in every interleaving the host receives block base + k as its k-th, no half is filled and drained at once, and at most one transfer or one unconsumed signal exists |
| `UsbTransfer.RNeverStuck` | ChibiOS/ext/mass_storage/usb_msd.c:222-236 | a read command that is not finished can always go on, without a failure of the device |
| `UsbTransfer.RCanFinish` | ChibiOS/ext/mass_storage/usb_msd.c:511-543 | from every state that is not halted it can be brought to its end, with all blocks at the host |
| `UsbTransfer.RRunLength` | ChibiOS/ext/mass_storage/usb_msd.c:511-543 | every run from the start has a number of steps of thread and interrupt bounded by the number of blocks, whatever partial reads come between |
| `RingBuffer.ERingBuffer.constructor` | ChibiOS/ext/iot/e_ringbuffer.c:63-68 | an empty queue |
| `RingBuffer.ERingBuffer.Read` | ChibiOS/ext/iot/e_ringbuffer.c:75-152 | the oldest bytes, as many as asked for or there; they leave the queue unless peeked |
| `RingBuffer.ERingBuffer.Write` | ChibiOS/ext/iot/e_ringbuffer.c:178-208 | as many bytes as there is room for join the queue behind the others |
| `WifiIpd.Wifi.constructor` | ChibiOS/ext/iot/wifi.c:231-239 | waiting for a frame |
| `WifiIpd.TextPassed` | ChibiOS/ext/iot/wifi.c:86-90 | text without a plus sign is passed over |
| `WifiIpd.NothingBeforeHeader` | ChibiOS/ext/iot/wifi.c:86-122 | whatever text arrives, no byte is delivered before the letters IPD, a comma, digits and a colon have followed each other |
| `WifiIpd.TextWithoutIpd` | ChibiOS/ext/iot/wifi.c:86-114 | text without the letters IPD in a row is passed over, plus signs included, and the next frame is heeded |
| `WifiIpd.HeaderRead` | ChibiOS/ext/iot/wifi.c:91-122 | a frame header leads to the payload state with its length |
| `WifiIpd.FrameDelivered` | ChibiOS/ext/iot/wifi.c:86-131 | a frame that arrives when the demultiplexer is ready is delivered whole, and the next one can be, exactly when its payload is not empty and has no byte 0xFF |
| `WifiIpd.FrameFails` | ChibiOS/ext/iot/wifi.c:86-131 | an empty payload and one with a byte 0xFF, which are not |
| `WifiIpd.FrameLost` | ChibiOS/ext/iot/wifi.c:110-122 | a frame that arrives behind the letters IPD, or in a length, is lost |
| `WifiIpd.StreamDelivered` | ChibiOS/ext/iot/wifi.c:73-133 | any stream of such frames, and texts without a plus sign or without the letters IPD between them, yields the payloads in a row |
| `WifiIpd.Wifi.Feed` | ChibiOS/ext/iot/wifi.c:73-133 | one character: the next state, and a payload byte to the ring buffer if there is room |
| `WifiIpd.Serve` | ChibiOS/ext/iot/wifi.c:73-133 | characters and reads in any order: bytes read followed by bytes buffered are the payload bytes, while the buffer is never full |
| `WifiIpd.Receive` | ChibiOS/ext/iot/wifi.c:405-418 | a program that reads while frames and text arrive gets the concatenated payloads |
| `MqttLength.Encode` | ChibiOS/ext/iot/mqtt/MQTTPacket.c:28-44 | the length field is written and no byte behind it |
| `MqttLength.EncodedIs` | ChibiOS/ext/iot/mqtt/MQTTPacket.c:28-44 | the length field has the digits of the length to the base 128, lowest first, all but the last with the upper bit |
| `MqttLength.Decode` | ChibiOS/ext/iot/mqtt/MQTTPacket.c:53-80 | the value of the field of at most four bytes, exactly its bytes consumed, and their number, one more when the stream or the fourth byte does not end the field |
| `MqttLength.DecodeInverts` | ChibiOS/ext/iot/mqtt/MQTTPacket.c:28-80 | decoding inverts encoding exactly on lengths below 128 to the fourth, and only those end within four bytes |
| `MqttLength.PacketLenIsEnough` | ChibiOS/ext/iot/mqtt/MQTTPacket.c:83-97 | the estimate suffices exactly for lengths below 128 to the fourth; it is exact there but for four lengths, where it is one too large |
| `MqttLength.DecodeFails` | ChibiOS/ext/iot/mqtt/MQTTPacket.c:28-97 | at 128 to the fourth the field is decoded as another length and the estimate is too small |
| `MqttPacket.FindPacket` | ChibiOS/ext/iot/mqtt/MQTTPacket.c:286-312 | a packet anywhere in a stream is found with its header, length and body |
| `MqttPacket.ReadPacket` | ChibiOS/ext/iot/mqtt/MQTTPacket.c:286-312 | header, length field and body in memory from the buffer on and the packet type, or -1 when the stream ends first, with what has arrived stored all the same; the memory behind that is kept, whatever size of buffer is passed |
| `MqttPacket.ReadAll` | ChibiOS/ext/iot/mqtt/MQTTPacket.c:286-312 | a stream of packets sent back to back is split exactly at their boundaries |
| `MqttSerialize.StrSize` | ChibiOS/ext/iot/mqtt/MQTTPacket.c:191-248 | the announced and the written length of a string agree exactly when one representation is used |
| `MqttSerialize.StrSizeFails` | ChibiOS/ext/iot/mqtt/MQTTPacket.c:191-248 | a string in two representations: three bytes announced and one written |
| `MqttSerialize.IntBytesBack` | ChibiOS/ext/iot/mqtt/MQTTPacket.c:122-167 | a two-byte length reads back exactly up to 65535 |
| `MqttSerialize.WriteChar` | ChibiOS/ext/iot/mqtt/MQTTPacket.c:149-153 | one byte, and no byte behind it |
| `MqttSerialize.WriteInt` | ChibiOS/ext/iot/mqtt/MQTTPacket.c:161-167 | two bytes, high byte first, and no byte behind them |
| `MqttSerialize.WriteString` | ChibiOS/ext/iot/mqtt/MQTTPacket.c:191-203 | the string with its length, and no byte behind it |
| `MqttSerialize.Publish` | ChibiOS/ext/iot/mqtt/MQTTSerializePublish.c:30-90 | refused exactly when the estimate exceeds the buffer length; else exactly header, announced length and body are written; the body has the announced length exactly if the topic has one representation, and below 128 to the fourth that is the PUBLISH packet, within the buffer length |
| `MqttSerialize.PublishFits` | ChibiOS/ext/iot/mqtt/MQTTSerializePublish.c:54-90 | for a topic in one representation the memory written is within the length the estimate was compared with |
| `MqttSerialize.PublishIsSendable` | ChibiOS/ext/iot/mqtt/MQTTSerializePublish.c:54-90 | a serialized PUBLISH is a packet that a stream is split at, with its type and quality of service in the header |
| `MqttParse.HeaderParses` | ChibiOS/ext/iot/mqtt/MQTTPacket.c:149-153 | type, duplicate flag, quality of service and retain flag are in their bits of the header |
| `MqttParse.PublishParses` | ChibiOS/ext/iot/mqtt/MQTTSerializePublish.c:54-90 | a serialized PUBLISH is parsed into what it was made of, flags, quality of service, topic, identifier and payload, exactly if the quality fits two bits and topic length and identifier two bytes |
| `MqttParse.PublishParsesFails` | ChibiOS/ext/iot/mqtt/MQTTSerializePublish.c:54-90 | a quality of service of 4 is written with an identifier that is read as payload |
| `MqttSerialize.SubscribeLength` | ChibiOS/ext/iot/mqtt/MQTTSubscribeClient.c:28-36 | the remaining length of a SUBSCRIBE |
| `MqttSerialize.TopicsSize` | ChibiOS/ext/iot/mqtt/MQTTSubscribeClient.c:28-86 | the announced length of topics exceeds the written one by the sum of their gaps, and topics in one representation have none |
| `MqttSerialize.GapsCancel` | ChibiOS/ext/iot/mqtt/MQTTSubscribeClient.c:28-86 | two topics in two representations each whose lengths make up for each other |
| `MqttSerialize.Subscribe` | ChibiOS/ext/iot/mqtt/MQTTSubscribeClient.c:50-86 | refused exactly when the estimate exceeds the buffer length; else exactly header, announced length and body are written; the body has the announced length exactly if the gaps of the topics add up to nothing, and below 128 to the fourth that is the SUBSCRIBE packet, within the buffer length |
| `MqttParse.SubscribeParses` | ChibiOS/ext/iot/mqtt/MQTTSubscribeClient.c:50-86 | a serialized SUBSCRIBE has the prescribed header and is parsed into its identifier and its topics with their qualities of service |

## Left out

- Disk errors other than f_mkfs writing beyond the medium and the paths taken after them, the `validate`
  check, and the abort paths of f_read, f_write and f_lseek on broken chains: a valid file has a chain, on
  which they cannot be reached.
- FatFile.File.Lseek: does not state what the bytes between the old end and a new end are, because
  f_lseek leaves them as the clusters held them.
- FatFile.File.Open: takes the chain that the start cluster of the directory entry begins as given, as
  every consistent volume has one; the path to the entry is not modelled.
- FatOpenFiles.CallsInRow: stops before an f_lseek past the end of a file that was truncated at a sector
  boundary, which the caller can see; FatOpenFiles.CallOn says exactly when that call misleads the file.
- FatEndToEnd.UseNewFiles: stops where FatOpenFiles.CallsInRow does.
- FatSync.Sync: an FSINFO sector that is a FAT sector is excluded, see FatVolume.Volume.SyncFs, and the
  directory entry lies outside the clusters of the file, as in every consistent volume.
- FatDurable.CallsThenSync: says nothing of a file whose use an internal error has ended, because f_lseek then
  leaves clusters on the chain that its entry does not know of; f_sync of several files is not modelled.
- FatMappedFile.MappedWrite: with a map outdated by f_truncate the write ends within the chain;
  FatMappedFile.WriteAstray is a write behind it. Maps made of another chain are not modelled.
- FatVolume.Volume.Mount: takes the geometry as given by the analysis of the boot sector in FatMount;
  what later calls do on a volume whose FAT copies differ is not modelled.
- FatFormat.MkfsThenMount: covers cluster counts below 2 to the 28th less two and erase blocks that
  are powers of two, as the numbers of 32 bits and the mask demand; the layout function itself wraps
  as the code does.
- FatNewVolume.Format: the erase command and the multi-partition configuration are not modelled.
- UsbTransfer.WRunIsSafe: blocks are abstract; that a block fits its half of the buffer is assumed, as
  are the checks for write protection and the first address that precede the transfer, and an idle
  endpoint and a taken semaphore at its start.
- DspFilters.DataFilter.FormI: history buffers have the capacity order plus buffer size, as intended;
  the code reads the order for the allocation before it is set
  (`examples/DSP-Library/DataFilter.cpp:10-12`). Rounding of `float` is not modelled.
- The tiny and read-only configurations and sector sizes other than 512 bytes.
- f_mkdir, long file names, code pages, path parsing and directory entries as records.
- FIR::directFormII, which repeats directFormI, and the destructors.
- The line editor's history, and the reading of keys other than those of one line.
- MQTT decoding from a buffer with bufchar, CONNECT and acknowledgement packets, and printing.
- The AT command flow of the WiFi module and the shells, which pass commands on; the regular expression
  matcher and the subset of sscanf, for which the repository states no behaviour to compare with; the
  drivers, descriptors and configuration headers, which set registers and constants.
