# Verified model of the alarm panel's storage stack, kernel objects and protocols

The firmware of an alarm panel brings its FAT file system, its real-time kernel and its own services in
one tree. This project models the parts of it whose correctness is decided by code rather than by
hardware, in imperative form where the source is imperative, and proves what each part is for:

* **FAT volume** (`FatEntries`, `FatChains`, `FatVolume`, `FatAllocation`): 12-, 16- and 32-bit entries behind a
  one-sector write-back window refine a flat map from clusters to values; the allocator keeps a table of
  disjoint, properly ended chains and a right free count.
* **Open files** (`Sectors`, `FileLayout`, `FileBuffer`, `FatFile`, `FileRun`, `OpenFiles`): any session of `f_read`,
  `f_write` and `f_lseek` behaves as a byte array with a position, across the private sector buffer, direct
  multi-sector transfers, cluster crossings, growth and a full disk; nothing else on the volume changes, and a
  well-formed volume stays well formed. So do any number of open files whose calls alternate.
* **Formatting and mounting** (`MkfsLayout`, `BootRecord`, `Mkfs`, `MountVolume`, `FormatMount`): what `f_mkfs`
  lays out is accepted by `mount_volume` with the same parameters, as an empty and well-formed volume.
* **Link map and long names** (`LinkMap`, `LongNames`): the fast-seek table agrees with walking the chain;
  long-name entries round-trip and are matched exactly for equal names.
* **Kernel** (`TimerLists`, `Timers`, `RtosQueue`, `QueueRun`, `MessageBuffer`, `RtosList`, `EventGroup`): software timers under
  tick wrap-around, the ring queue and its lock counts, message buffers, the intrusive list, event groups.
* **Log ring** (`LogRing`, `LogBuffer`, `LogRun`): a reserve/commit ring with several writers and one reader is a FIFO of
  whole messages.
* **Application** (`GsmCalls`, `AlarmStates`, `SettingsStore`, `SupplyPins`): GSM callbacks, alarm states,
  crash-safe settings and supply pins under every interleaving of their steps.

Configuration: `fatfs/inc/ffconf.h` as it stands (512-byte sectors, 32-bit LBA, no exFAT, not tiny, long names of
64 units, writable), little-endian fields, 32-bit ticks and 32-bit message lengths. The link map is the one part that this
configuration leaves out of the build (`FF_USE_FASTSEEK` is 0); it is modelled as `ff.c` has it. Drives and files of one
configuration are mounted without disk errors. Where a protocol is spread over tasks and interrupts, each atomic
section is one method of a class; a schedule is any sequence of such calls, and every method keeps the class's
`Valid()`.

Some invariants are guarded by an always-true predicate of `Guards`: operations that only pass an
invariant on never look inside it, and those that need its parts mention the predicate.

## Where the code does less than it is for

* `f_getfree` counts entries 0 and 1 of a FAT16 or FAT32 table as well, so an unknown free count comes out right
  if and only if neither of them is zero (`FatAllocation.FreeClusters`). With entry 0 zero and entry 1 not, it is one too many
  (`FatAllocation.CountOneTooMany`; `FatAllocation.OvercountExample` is such a table, of an empty FAT16 volume).
* `mount_volume` computes the size of the area before the data in 32 bits; an accepted record describes a sound
  volume if and only if that size fits (`MountVolume.AcceptedIsSound`; `MountVolume.WrappedExample` is a record with which
  the data area starts inside the FAT).
* The link map cannot be built if and only if the end mark of a chain is the number after its last cluster, which must
  then be the last of the volume (`LinkMap.CreateLinkMap`, `LinkMap.EndMarkAtEnd`, `LinkMap.EndMarkExample`); f_mkfs and
  create_chain never write such a mark (`LinkMap.WrittenMarkIsNoLink`).
* `cmp_lfn` reads the word behind its buffer if and only if a fifth and last entry without a terminator matches the end
  of the buffer (`LongNames.CmpLfn`, `LongNames.BeyondExample`). No entry of a name of at most 64 units does, and no entry
  does while the wanted name has 52 units or more.
* A writer of the log ring whose slot was published by another writer and read before it came to look at
  `done_write_slot` publishes again if and only if that index has by then come around by whole turns. It can, without
  any slot being reserved where that writer's was (`LogBuffer.Buffer.IsMine`, `LogBuffer.LateWriter`), and the count of
  readable bytes is wrong from then on (`LogBuffer.CountedTwice`), unless a slot of the same length was committed there
  and waits to be published: then it does what that slot's writer would have done (`LogBuffer.Buffer.PublishLate`).
* After a load that found no current settings file, the first save succeeds and leaves the flag that the file is
  absent set, so that the next save fails; and a save that fails after it renamed the current file removes the only
  copy if it is repeated without a load (`SettingsStore.SecondSaveFails`, `SettingsStore.RetryLosesAll`). With working
  file operations a save succeeds if and only if the flag is right, and a save that fails loses the configuration if and
  only if the current file is missing, the flag does not say so, and the previous one was removed
  (`SettingsStore.Settings.Save`).

## Model

| member | source | states |
|---|---|---|
| FatVolume.FatFs.SyncWindow | fatfs/ff.c:1055-1073 | the window is written out, to both FATs if it belongs there; the medium then equals the logical disk |
| FatVolume.FatFs.MoveWindow | fatfs/ff.c:1077-1098 | the window shows the sector asked for; the logical disk (medium overlaid with the dirty window) does not change |
| FatVolume.FatFs.MirrorOutsideWindow | fatfs/ff.c:1064-1067 | on the medium the FAT copies agree outside the dirty window |
| FatVolume.FatFs.GetFat | fatfs/ff.c:1161-1228 | the value of an entry of the flat table, 1 for a wrong cluster number |
| FatVolume.FatFs.PutFat | fatfs/ff.c:1239-1289 | exactly one entry of the flat table changes, to the stored value; copies that agreed still do; nothing outside the FATs changes |
| FatEntries.EntryMeans | fatfs/ff.c:1174-1194 | which bytes of the FAT, and which half of a shared one, are an entry |
| FatEntries.SetEntry12 | fatfs/ff.c:1250-1264 | a 12-bit entry shares bytes with a neighbour; storing it changes no other entry |
| FatEntries.Bytes12Hold | fatfs/ff.c:1255-1261 | the two computed bytes hold the value and keep the neighbour's nibble |
| FatEntries.SetEntry32 | fatfs/ff.c:1273-1283 | storing a 28-bit value with any reserved bits above it changes that entry only |
| FatVolume.FatFs.CreateChain | fatfs/ff.c:1524-1615 | the successor, or one formerly free cluster linked in with the end mark; 0 only if none is free or counted; a right free count stays right |
| FatVolume.OutcomeMeans | fatfs/ff.c:1559-1586 | the neighbour if it is free, cluster 2 standing behind the last one; else the first free one behind the cluster allocated last, or behind the given one, or from the start |
| FatVolume.GrownMeans | fatfs/ff.c:1588-1602 | the new cluster has the end mark of its sub-type, the old end leads to it, and no other entry changes |
| FatVolume.FatFs.FindFree | fatfs/ff.c:1571-1586 | the search goes once around: the first free cluster, or a corrupt one that comes before it, or proof that there is neither |
| FatVolume.FatFs.RemoveChain | fatfs/ff.c:1429-1515 | ends on any table; on a chain frees exactly its clusters and ends the part before it; of a damaged one all but the last; an invalid number changes nothing |
| FatVolume.FatFs.FreeChain | fatfs/ff.c:1459-1511 | the loop terminates since every pass frees an entry in use |
| FatVolume.FatFs.GetFree | fatfs/ff.c:4816-4899 | the full scans count the zero entries, from entry 2 for FAT12 and from entry 0 otherwise |
| FatAllocation.Stretch | fatfs/ff.c:1524-1615 | a well-formed table stays well formed: one chain grows by one free cluster, all others stay; failure means nothing is free |
| FatAllocation.Release | fatfs/ff.c:1429-1515 | a well-formed table stays well formed without the rest of one chain, whose clusters become free |
| FatAllocation.CountOneTooMany | fatfs/ff.c:4835-4899 | with an unknown count, FAT16 or FAT32, and only entry 0 zero, one cluster too many is reported |
| FatAllocation.OvercountExample | fatfs/ff.c:4878-4893 | such a table: of the smallest FAT16 volume, empty, counted one too many |
| FatAllocation.FreeClusters | fatfs/ff.c:4835-4899 | the reported count is right if and only if it was known, the volume is FAT12 or no reserved entry is zero |
| FatAllocation.NotCorrupt | fatfs/ff.c:1199-1203 | a well-formed table has no entry that get_fat reports as an internal error |
| FatChains.ChainIsAcyclic | fatfs/ff.c:1459-1511 | a chain that reaches an end mark visits no cluster twice |
| FatChains.ChainIsUnique | fatfs/ff.c:1548-1557 | a chain is determined by its first cluster |
| FatChains.LongerChain | fatfs/ff.c:1588-1602 | linking a free cluster behind a chain leaves all other chains alone |
| FatChains.ShorterChain | fatfs/ff.c:1450-1511 | cutting a chain keeps its first part and all other chains, and owns no freed cluster |
| FatChains.AddedIsWellFormed | fatfs/ff.c:1588-1602 | a chain of formerly free clusters joins the others |
| FatChains.FreeFromReserved | fatfs/ff.c:4878-4893 | counting from entry 0 is right if and only if both reserved entries are nonzero |
| FatChains.FreeCountIsNumber | fatfs/ff.c:4835-4899 | what is counted is the number of clusters whose entries are zero |
| FileLayout.Clst2Sect | fatfs/ff.c:1144-1152 | first sector of a cluster, 0 for an invalid number |
| FileLayout.BaseIs | fatfs/ff.c:1144-1152 | cluster 2 is at the start of the data area and the others follow |
| FileLayout.ByteOfFile | fatfs/ff.c:3956-3961 | where on the disk each byte of a file is |
| FileLayout.DataPatch | fatfs/ff.c:1144-1152 | overwriting sectors of one cluster overwrites the file there and nowhere else |
| FileLayout.ImagePatch | fatfs/ff.c:4083-4087 | the same for the bytes of the file |
| FileLayout.Locate | fatfs/ff.c:3941-3948 | the cluster and sector of a position that is a sector boundary |
| FileBuffer.RunRead | fatfs/ff.c:3968-3985 | a direct transfer with the dirty buffer put in place reads the bytes of the file |
| FileBuffer.WrittenThrough | fatfs/ff.c:4083-4101 | a direct transfer past the buffer, which is refilled if it held one of the sectors, writes the bytes of the file |
| FileBuffer.Patched | fatfs/ff.c:4115-4118 | changing bytes of the buffer changes those bytes of the file |
| FileBuffer.Replaced | fatfs/ff.c:4109-4114 | at the growing edge an unread buffer may stand for the sector: only bytes behind the end of the file change |
| FileBuffer.Extended | fatfs/ff.c:4038-4063 | appending a cluster appends its bytes and keeps those before |
| FileBuffer.OthersKeepChains | fatfs/ff.c:4014-4126 | after file operations the table is well formed with all other chains as they were |
| FileBuffer.OthersKeepBytes | fatfs/ff.c:4014-4126 | after file operations every other file has its bytes |
| FatFile.Fil.Read | fatfs/ff.c:3914-4004 | returns the bytes at the position, as many as asked for or as there are, and moves on by them; errors change nothing |
| FatFile.Fil.Write | fatfs/ff.c:4014-4126 | the bytes at the position become the reported prefix of the data; the prefix is shorter only if the disk is full or the position has reached 2^32 - 1; a failure means a corrupt table; only own and free clusters and their entries change, copies of the FAT that agreed still do, and a right free count stays right |
| FatFile.Fil.BytesToWrite | fatfs/ff.c:4034-4037 | all of the data, unless the position would go past 2^32 - 1, and then as much as it allows |
| FatFile.Fil.WriteAll | fatfs/ff.c:4036-4119 | the loop stores exactly what it counts, also when it stops early |
| FatFile.Fil.WriteDirect | fatfs/ff.c:4078-4101 | the direct transfer patches the file by whole sectors |
| FatFile.Fil.ReadDirect | fatfs/ff.c:3962-3987 | the direct transfer delivers the file's bytes even where the buffer is newer |
| FatFile.Fil.Seek | fatfs/ff.c:4433-4585 | the position becomes the offset; beyond the end the file grows in write mode, as far as the disk allows, and is clipped otherwise; existing bytes stay, and so does all else on the volume |
| FatFile.Fil.Walk | fatfs/ff.c:4547-4567 | the cluster following loop ends at the cluster of the offset or at the end of what can be allocated |
| FatFile.Fil.Stretch | fatfs/ff.c:4046-4063 | create_chain on this file: the next cluster of its chain, appended if need be |
| FatFile.Fil.Underneath | fatfs/ff.c:1524-1615 | the volume under an open file is valid, and its free count right if it was when the last call began |
| FatFile.FullIsFull | fatfs/ff.c:1545 | on a volume with a right count, what is reported as full has no free cluster |
| FatFile.WrittenTwice | fatfs/ff.c:4014-4126 | two writes one behind the other are one write of both |
| FileRun.Session | fatfs/ff.c:3914-4585 | any sequence of the three operations is explained by a history of a flat file; less than asked for is written, or reached, only on a full disk or, when writing, at position 2^32 - 1; nothing outside the file and free clusters changes; on a well-formed volume no operation fails and the volume stays well formed |
| OpenFiles.Interleave | fatfs/ff.c:3914-4585 | any calls for any number of open files, in any order: each is a step of its own flat file, the other files keep their bytes, positions and chains, buffers that are dirty included; on a well-formed volume none fails and the volume stays well formed |
| OpenFiles.OtherStaysOpen | fatfs/ff.c:4014-4126 | what is done to one file leaves another's chain, buffer and bytes as they are, and takes no cluster of it |
| OpenFiles.OtherStays | fatfs/ff.c:4014-4126 | another open file stays valid over a call, as it was to its user, wherever the shared window went |
| OpenFiles.TidyForOne | fatfs/ff.c:4014-4126 | to one open file, the others are files like any on the volume |
| OpenFiles.OpenOneMore | fatfs/ff.c:3855-3866 | a file with clusters of its own may join those that are open |
| FileRun.StaysTidy | fatfs/ff.c:4014-4126 | whatever is done to a file, also to one that had no cluster, the table is that of its chain and of the others as they were |
| LinkMap.CreateLinkMap | fatfs/ff.c:4459-4484 | the needed size is two per fragment and two more; the table lists the fragments if it fits |
| LinkMap.EndMarkAtEnd | fatfs/ff.c:4468-4476 | an end mark that looks like a link is the last cluster's, and the least number that is none |
| LinkMap.EndMarkExample | fatfs/ff.c:4468-4476 | a FAT12 table with a chain whose end mark looks like a link |
| LinkMap.WrittenMarkIsNoLink | fatfs/ff.c:1600 | an end mark that create_chain or f_mkfs writes does not look like a link |
| LinkMap.ClmtClust | fatfs/ff.c:1627-1646 | the cluster of an offset, or 0 behind the end |
| LinkMap.LookupIsWalk | fatfs/ff.c:1627-1646 | going through the fragments is walking the chain |
| LinkMap.RunIsMaximal | fatfs/ff.c:4468-4476 | fragments are as long as they can be |
| LongNames.PutLfn | fatfs/ff.c:1959-1984 | an entry holds its 13 units of the name, terminator and fillers, and the last-entry mark if and only if it is the last |
| LongNames.EntryBytes | fatfs/ff.c:1965-1983 | order, attribute, type, checksum and cluster of an entry, byte by byte |
| LongNames.EntryUnitAt | fatfs/ff.c:1968-1982 | the two bytes at which each unit of an entry is |
| LongNames.PickLfn | fatfs/ff.c:1921-1950 | an entry of a name puts its units into the buffer, and the last one the terminator |
| LongNames.CmpLfn | fatfs/ff.c:1885-1913 | an entry of a name matches if and only if its part of the buffer equals it but for case; for any entry, when the word behind the buffer is read |
| LongNames.CompareUnits | fatfs/ff.c:1899-1908 | the loop accepts if and only if all units up to the terminator match inside the buffer and fillers follow |
| LongNames.BeyondIsRemnant | fatfs/ff.c:1910 | with a wanted name of 52 units or more the read stays inside |
| LongNames.BeyondExample | fatfs/ff.c:1910 | an entry and a buffer for which it does not |
| LongNames.Register | fatfs/ff.c:2475-2538 | the entries written for a name are its entry set, last part first |
| LongNames.ReadName | fatfs/ff.c:2341-2358 | reading an entry set back gives the name; whatever entries are accepted count down to 1 with one checksum |
| LongNames.FindName | fatfs/ff.c:2414-2445 | an entry set is found if and only if the names are equal but for case; whatever entries are found count down to 1 with one checksum and match part by part |
| LongNames.AllMatchIsSame | fatfs/ff.c:1885-1913 | all entries match if and only if the names are equal, whatever lies behind a shorter name in the buffer |
| MkfsLayout.Choose | fatfs/ff.c:6186-6258 | the sizing loop ends, and what it settles for is a sound layout with the smallest FAT for the estimated clusters, whose clusters are as asked for, or the default size or a retry of it; it succeeds if and only if the cluster sizes it tries, the fixed or the automatic one and its retries, reach a sub-type that is allowed and confirmed |
| MkfsLayout.SoundMeans | fatfs/ff.c:6186-6256 | a sound layout in numbers: the sub-type is that of the cluster count, and the FAT holds an entry for each |
| MkfsLayout.FatIsLeast | fatfs/ff.c:6190-6213 | the FAT has no sector more than the estimated number of clusters needs |
| MkfsLayout.DefaultIsAuto | fatfs/ff.c:5888-5889 | the default cluster sizes, in numbers |
| MkfsLayout.FarFromFat12 | fatfs/ff.c:6231-6254 | where FAT32 is feasible, the attempt with FAT16 does not end for want of clusters |
| MkfsLayout.Pass | fatfs/ff.c:6187-6232 | one pass has a sound layout if and only if its sub-type is confirmed by the final number of clusters |
| MkfsLayout.AutoSize | fatfs/ff.c:6190-6205 | the cluster size doubles with every boundary of the table that the volume reaches |
| Mkfs.Plan | fatfs/ff.c:5918-6258 | number of FATs, root entries, cluster size and place of the volume are those asked for, or the defaults; there is a plan if and only if the parameters, the buffer and the drive admit one |
| Mkfs.ObeysMeans | fatfs/ff.c:5935-5962 | the parameters in numbers: start, size, number of FATs, root entries and cluster size |
| MkfsLayout.FatIsLarge | fatfs/ff.c:6190-6213 | a FAT sized for the estimated number of clusters is large enough for the final one |
| MkfsLayout.Fat16Fits | fatfs/ff.c:6206-6213 | an accepted FAT16 estimate does not wrap around and its FAT size fits 16 bits |
| MkfsLayout.Checked | fatfs/ff.c:6230-6256 | a layout that passes the final check of its sub-type is sound |
| BootRecord.FillBootRecord | fatfs/ff.c:6264-6297 | every byte of the boot record, from layout and serial number |
| BootRecord.RecordDescribes | fatfs/ff.c:6264-6297 | such a record has the fields of the layout for whoever reads it |
| Mkfs.Drive.Format | fatfs/ff.c:5882-6375 | a formatted drive has, byte by byte, boot record, FSInfo and their copies, FATs, an empty root directory and the partition entry of a sound layout that obeys the parameters; otherwise nothing was written; it formats if and only if parameters, buffer and drive admit it |
| Mkfs.Drive.FillArea | fatfs/ff.c:6323-6330 | an area is filled with a first sector and zeros, for any buffer size |
| Mkfs.FillFsInfo | fatfs/ff.c:6300-6311 | signatures at 0, 484 and 510, the free count at 488 and the cluster allocated last at 492 |
| MountVolume.FindVolume | fatfs/ff.c:3331-3376 | sector 0, or the volume of the least of the four entries that leads to a FAT record, if one does |
| MountVolume.FoundMeans | fatfs/ff.c:3331-3376 | the same from the bytes of the sectors, with the four starts at 454, 470, 486 and 502 |
| MountVolume.StatusAt | fatfs/ff.c:3290-3322 | what a boot sector is taken for, from its bytes |
| MountVolume.Analyze | fatfs/ff.c:3511-3561 | accepts exactly the acceptable records and records their parameters |
| MountVolume.AcceptableMeans | fatfs/ff.c:3511-3561 | what is accepted, in numbers |
| MountVolume.RecordedMeans | fatfs/ff.c:3541-3561 | what is recorded, in numbers, with sums cut to 32 bits |
| MountVolume.LayoutIsAccepted | fatfs/ff.c:3511-3561 | every layout is accepted with the same sub-type, cluster size, cluster count, FAT and data base |
| MountVolume.AcceptedIsSound | fatfs/ff.c:3534-3549 | an accepted volume is sound, with its FAT where the record puts it, if and only if the system area fits in 32 bits |
| MountVolume.WrappedExample | fatfs/ff.c:3534-3549 | an accepted record whose data area starts inside the first FAT |
| MountVolume.Mount | fatfs/ff.c:3438-3587 | mounts the volume that is found if and only if its record is acceptable, so every one that was laid out; a disk error is reported if and only if the search ends outside the medium; on FAT32 with the free count at 488 of a signed FSInfo sector and the cluster allocated last at 492 |
| MountVolume.LoadInfo | fatfs/ff.c:3565-3584 | the two counts are read if and only if the boot record names the sector and it is signed, and are unknown otherwise |
| FormatMount.NewVolume | fatfs/ff.c:6314-6331 | a new volume is sound, mirrored and empty but for the FAT32 root directory, with the reserved entries of its sub-type |
| FormatMount.NewRoot | fatfs/ff.c:6332-6343 | the root directory is zero: on FAT32 it is cluster 2, else between FATs and data |
| FormatMount.InfoKnown | fatfs/ff.c:6306-6307 | the FSInfo that formatting writes gives mounting one cluster in use, cluster 2 |
| FormatMount.FormatAndMount | fatfs/ff.c:5882-6375 | a drive that can be formatted is, and mounts as laid out; free count and last cluster of FSInfo are right |
| Timers.Daemon.InsertTimer | freeRTOS/timers.c:894-936 | due, this epoch or the next, exactly as time without wrap-around decides, for ages and periods below 2^32 |
| Timers.Run | freeRTOS/timers.c:749-1083 | over any run with any number of wraps a timer without commands is called back in order and never early, and is called for nothing else; a periodic one stays active, a one-shot one is called once and is then inactive; when the daemon blocks, every active timer was called once for every period since its start; idle times of any length are included; each turn obeys its command and the clock |
| Timers.CallsOfTimer | freeRTOS/timers.c:718-746 | the calls made for a timer are exactly those recorded for it |
| Timers.OnTime | freeRTOS/timers.c:699-716 | up to date means one call for every period since the start |
| Timers.Daemon.CatchUp | freeRTOS/timers.c:704-715 | the loop ends; missed periods are made up for until the next expiry lies ahead |
| Timers.Daemon.Reload | freeRTOS/timers.c:699-716 | one call for each missed period, in order, and the timer in the list of its next expiry |
| Timers.Daemon.ProcessExpired | freeRTOS/timers.c:718-746 | the first timer is called back and caught up with the present, or called once and inactive; no other changes |
| Timers.Daemon.SwitchLists | freeRTOS/timers.c:1086-1108 | ends, calls back what was left before the wrap, and keeps the lists right; no timer is lost |
| Timers.Daemon.SampleTimeNow | freeRTOS/timers.c:871-891 | a wrap is noticed, for samples less than one wrap apart or after any idle time |
| Timers.Daemon.ProcessOrBlock | freeRTOS/timers.c:782-841 | the daemon blocks only when nothing is due, until the next expiry or the wrap, and forever only if both lists are empty |
| Timers.Daemon.Execute | freeRTOS/timers.c:938-1083 | a start counts from the time of the command, a changed period from now; a stopped timer is in no list; other timers go on as without it |
| Timers.RegularTimes | freeRTOS/timers.c:699-716 | the j-th call of a timer is for start + (j+1) * period |
| Timers.NothingDue | freeRTOS/timers.c:805-826 | if the first timer is in the future, all are |
| TimerLists.InsertKeeps | freeRTOS/list.c:171-203 | insertion keeps the list ordered, and adds one item |
| TimerLists.InsertPlace | freeRTOS/list.c:171-203 | the item goes behind all that do not expire later, also at the same tick |
| RtosQueue.Queue.CopyToQueue | freeRTOS/queue.c:2378-2458 | the item is put behind, in front or in place of the contents |
| RtosQueue.Shifted | freeRTOS/queue.c:2461-2479 | the item behind the read position is the first, and without it the rest |
| RtosQueue.Queue.Send | freeRTOS/queue.c:939-1064 | succeeds if and only if there is room or it overwrites; wakes one receiver |
| RtosQueue.Queue.Receive | freeRTOS/queue.c:1516-1560 | delivers the first item if there is one; taking it wakes a sender, peeking leaves it and wakes a receiver |
| RtosQueue.Queue.SendFromIsr | freeRTOS/queue.c:1195-1316 | wakes a receiver, or counts up to the number of tasks while the queue is locked |
| RtosQueue.Queue.ReceiveFromIsr | freeRTOS/queue.c:2056-2100 | the same for senders |
| RtosQueue.Queue.UnlockTx | freeRTOS/queue.c:2482-2569 | wakes exactly min(count of the lock, waiting receivers) |
| RtosQueue.Queue.UnlockRx | freeRTOS/queue.c:2571-2599 | wakes exactly min(count of the lock, waiting senders) |
| RtosQueue.Queue.Lock | freeRTOS/queue.c:258-270 | counts from 0, or goes on counting if it was locked |
| RtosQueue.Queue.PlaceReceiver | freeRTOS/queue.c:1596-1606 | a receiver that found the locked queue empty may wait, whatever interrupts did since |
| RtosQueue.Queue.NoLostWakeup | freeRTOS/queue.c:2482-2600 | with nobody woken and still to run, tasks wait only on an empty or a full queue |
| QueueRun.Run | freeRTOS/queue.c:939-2600 | no wakeup is lost in any run of sends, receives, blocking, interrupts and time-outs: unlocked and with nobody woken still to run, receivers wait only on an empty queue and senders only on a full one; each step is that of its move |
| QueueRun.Wait | freeRTOS/queue.c:1566-1640 | from locking to unlocking, exactly min(items posted in between, waiting receivers) receivers are woken and min(items taken, waiting senders) senders, the task that has gone to wait among them; it waits if and only if the queue was empty, or full |
| RtosQueue.FewTasks | freeRTOS/queue.c:277-300 | no more tasks wait than there are, so that a capped lock count wakes all |
| MessageBuffer.Buffer.SpacesAvailable | freeRTOS/stream_buffer.c:676-711 | bytes in use and free space add up to the length less one |
| MessageBuffer.Run | freeRTOS/stream_buffer.c:919-1236 | under any schedule of the writer's and the reader's steps, what is received is what was sent, message by message and in order |
| MessageBuffer.Buffer.LookForSpace | freeRTOS/stream_buffer.c:828-831 | the space that was seen stays there until it is used |
| MessageBuffer.Buffer.WriteLength | freeRTOS/stream_buffer.c:919-949 | a message is begun only if all of it fits into the space that was seen; an empty one is not sent |
| MessageBuffer.Buffer.WriteData | freeRTOS/stream_buffer.c:959-966 | the message goes behind its length, into free space only |
| MessageBuffer.Buffer.PublishHead | freeRTOS/stream_buffer.c:959-966 | the reader sees the whole message at once |
| MessageBuffer.Buffer.LookForBytes | freeRTOS/stream_buffer.c:1043-1046 | the bytes that were seen are whole messages until they are read |
| MessageBuffer.Buffer.ReadLength | freeRTOS/stream_buffer.c:1184-1230 | the length of the first whole message; one too long for the reader stays |
| MessageBuffer.Buffer.PublishTail | freeRTOS/stream_buffer.c:1226-1233 | the first message, and no more, is consumed |
| MessageBuffer.Buffer.Send | freeRTOS/stream_buffer.c:730-866 | appends the whole message or nothing |
| MessageBuffer.Buffer.Receive | freeRTOS/stream_buffer.c:972-1097 | returns the first message if it fits the reader |
| MessageBuffer.FirstView | freeRTOS/stream_buffer.c:1424-1465 | length, data and rest of the ring as the reader finds them |
| RtosList.List.Insert | freeRTOS/list.c:139-211 | behind all items not greater, the search ending at the marker; circle, count and containers stay right, and an ascending list ascending |
| RtosList.List.InsertEnd | freeRTOS/list.c:105-136 | before the index node |
| RtosList.List.Remove | freeRTOS/list.c:215-245 | exactly that item is gone; the index moves to the node before it if it was there |
| RtosList.Relinked | freeRTOS/list.c:195-203 | a node linked in between two neighbours makes a longer circle in both directions |
| RtosList.Unlinked | freeRTOS/list.c:221-237 | a node linked out leaves a shorter circle |
| RtosList.InsertSorts | freeRTOS/list.c:152-193 | an ascending list stays ascending |
| EventGroup.Group.SetBits | freeRTOS/event_groups.c:544-641 | releases exactly the satisfied waiters, those for any bit by one of their bits and those for all by all, with the same value, and then clears what they asked for; nobody left is satisfied |
| EventGroup.SettingMeans | freeRTOS/event_groups.c:571-632 | the same task by task and bit by bit, in terms of bits 24, 25 and 26 of the list items |
| EventGroup.Group.WaitBits | freeRTOS/event_groups.c:312-404 | returns at once if one of the bits, or each of them, is set, or it may not wait; blocks if and only if it may and the condition is not met |
| EventGroup.Group.Sync | freeRTOS/event_groups.c:185-248 | the rendezvous counts the bits before any were cleared |
| EventGroup.Group.ClearBits | freeRTOS/event_groups.c:472-501 | clearing satisfies nobody |
| EventGroup.Group.Resume | freeRTOS/event_groups.c:405-465 | a released caller returns the bits that released it, one that timed out the present ones |
| EventGroup.SetAndResume | freeRTOS/event_groups.c:405-465 | a task whose condition the new bits meet returns the bits that met it, with those that are cleared by then |
| EventGroup.ReleasedMembers | freeRTOS/event_groups.c:571-625 | released if and only if satisfied |
| EventGroup.Step | freeRTOS/event_groups.c:571-632 | one step of the traversal, with items leaving the list under it |
| LogBuffer.Buffer.StartWrite | Logging/Buffer.h:137-153 | a slot is reserved behind the others if and only if it leaves a byte free |
| LogBuffer.Buffer.SlotBytes | Logging/Buffer.h:21-37 | where length, flag and characters of a live slot are |
| LogBuffer.Buffer.SetChar | Logging/Buffer.h:35-37 | a writer changes its own message only |
| LogBuffer.Buffer.ClearFlag | Logging/Buffer.h:156-159 | a message is committed with its length and text as they were |
| LogBuffer.Buffer.IsMine | Logging/Buffer.h:160 | the writer of the first unpublished slot is to publish, and no other one whose slot is live; one whose slot is gone if and only if the index has come around by whole turns |
| LogBuffer.LateWriter | Logging/Buffer.h:156-166 | that can happen with nothing reserved where its slot was |
| LogBuffer.CountedTwice | Logging/Buffer.h:119-130 | a second publication leaves a count that fits no state of the ring, unless a committed slot waits where it starts |
| LogBuffer.Buffer.PublishLate | Logging/Buffer.h:119-130 | in that case, with a slot as long, it publishes what that slot's writer would have published |
| LogRun.Run | Logging/Buffer.h:132-199 | under any interleaving, until a late writer is to publish again, messages are read in the order of their reservation, each once, and as committed; each step does what its move says |
| LogRun.GrowsAt | Logging/Buffer.h:35-37 | a step on one slot leaves all others and what is committed as they are |
| LogBuffer.Buffer.Publish | Logging/Buffer.h:119-130 | everything committed in a row becomes visible, up to the first slot still being written; event bits match the size |
| LogBuffer.Buffer.TryRead | Logging/Buffer.h:183-187 | the oldest visible slot |
| LogBuffer.Buffer.CopyTo | Logging/Buffer.h:67-77 | the text comes back as it was set |
| LogBuffer.Buffer.EndRead | Logging/Buffer.h:189-199 | exactly the oldest slot is given back; event bits match the size |
| LogBuffer.Buffer.EventsMean | Logging/Buffer.h:119-130 | the reader is told of a message if and only if there is one, and of bulk if and only if there are 512 bytes |
| LogBuffer.Buffer.LongestPrefix | Logging/Buffer.h:119-166 | the reader sees exactly the longest committed prefix, unless a writer is inside end_write |
| LogRing.SpanElsewhere | Logging/Buffer.h:104-117 | a byte written to one slot is in no other |
| LogRing.IsFirstUnpublished | Logging/Buffer.h:160 | done_write_slot equals the start of a live slot only for the first unpublished one |
| LogRing.TiledApart | Logging/Buffer.h:99-102 | live slots tile the ring without overlap |
| GsmCalls.Run | GSMService/callback_handling.cpp:43-80 | under any schedule callbacks are in order and an ended call is notified of or being handled; with nothing pending the last of "dialed" and "ended" says whether somebody speaks; each step is that of its thread |
| GsmCalls.Respond | GSMService/callback_handling.cpp:43-80 | what an event changes in the end, and which callbacks it makes |
| GsmCalls.WholeCall | GSMService/callback_handling.cpp:43-80 | a call that comes in, is answered and ends makes exactly the three callbacks |
| GsmCalls.Quiet | GSMService/callback_handling.cpp:43-80 | no change of the phase is missed: once the handler waits with nothing pending, the handled phase is the actual one |
| GsmCalls.EndIsComing | GSMService/call.cpp:19-23 | an ended phase is notified of, or about to be, or being handled |
| GsmCalls.Gsm.Notice | GSMService/call.cpp:138-182 | the phase that each event leads to from each phase, and none where it does not fit; a checked change stays allowed until it is written |
| GsmCalls.Gsm.Handle | GSMService/callback_handling.cpp:43-80 | each step of the handler keeps what it knows consistent with what was delivered and with what is still to be looked at |
| GsmCalls.EndedBetween | GSMService/inc/GSMService.h:47-53 | an "ended" lies between any two "dialed" |
| GsmCalls.DialedBefore | GSMService/inc/GSMService.h:47-53 | before any "ended" or key comes a "dialed" that is not ended yet |
| AlarmStates.Run | Alarm/alarm.cpp:81-243 | alerting only after triggered, triggered only after armed; with no change pending siren and timers fit the state; each step is that of its event |
| AlarmStates.Alarm.Process | Alarm/alarm.cpp:184-204 | a pass brings siren and timers to the state, also when changes coalesced |
| AlarmStates.Alarm.SetStateIfCurrent | Alarm/alarm.cpp:105-115 | the state is replaced if and only if it is the expected one |
| AlarmStates.Alarm.StartAlerting | Alarm/alarm.cpp:129-134 | alerting only from triggered |
| SettingsStore.Run | Settings/settings.cpp:37-105 | any updates, each cut or failing at any file operation and then followed by a load, leave the whole old or new configuration; what is kept after each is given by the operations that worked |
| SettingsStore.Settings.Save | Settings/settings.cpp:60-88 | over a save that fails, what was kept is lost if and only if the current file was missing, not known to be, and the previous one was removed, and a load then finds the defaults; with working operations it succeeds if and only if the flag is right |
| SettingsStore.Settings.SetAside | Settings/settings.cpp:61-72 | which operations of the first half are done, and what is kept then |
| SettingsStore.Settings.WriteNew | Settings/settings.cpp:73-88 | the same for the new file |
| SettingsStore.Settings.Update | Settings/settings.cpp:90-105 | the copy in memory flips exactly when the file was replaced; otherwise the same condition says whether what was kept is lost |
| SettingsStore.Settings.Load | Settings/settings.cpp:37-58 | a whole configuration if one is kept, else the defaults |
| SettingsStore.SecondSaveFails | Settings/settings.cpp:60-88 | the flag is not cleared by a successful save |
| SettingsStore.RetryLosesAll | Settings/settings.cpp:60-88 | repeating a failed save without a load loses the configuration |
| SupplyPins.Run | SupplySystem/source.cpp:50-62 | battery and charger are never on together, at any step; when calm the charger fits its request and the source, and once the source was switched the battery is connected if and only if it is the source; each step is that of its event |
| SupplyPins.RunSiren | SupplySystem/outputs.cpp:17-52 | at rest the siren is on if and only if it is wanted and not protected; each step is that of its event |
| SupplyPins.GuardedPin.UserStep | SupplySystem/charger.cpp:30-39 | an exclusive store enables the pin only while it is allowed |
| SupplyPins.GuardedPin.TurnOnAlone | SupplySystem/charger.cpp:30-39 | left alone, the task switches a wanted pin within two steps, unless it is forbidden |
| SupplyPins.GuardedPin.IrqStep | SupplySystem/charger.cpp:16-28 | forbidding ends with the pin low |
| SupplyPins.Supply.BatteryMeasured | SupplySystem/charger.cpp:41-53 | hysteresis of the wish to charge |
| SupplyPins.Supply.SwitchStep | SupplySystem/source.cpp:50-62 | the order of pin writes keeps the supply safe at every step, and when the switch is over the battery is connected if and only if it is the source |
| SupplyPins.SocketFails | SupplySystem/source.cpp:42-62 | after the interrupt the battery is connected within five steps, and does not charge |
| SupplyPins.SocketReturns | SupplySystem/source.cpp:57-93 | after the timeout it is disconnected within five steps, and charges if that is wanted |

## Left out

* Disk errors, write protection and time stamps: reads and writes of sectors succeed; the error returns behind them
  and those that a valid state excludes are not modelled.
* exFAT, GPT, trimming, file locking, re-entrancy and code pages: other configurations of `ff.c`.
* Directories, opening by path, `f_sync`, `f_close`, `f_truncate`: an open file starts from its directory entry's
  start cluster and size.
* Pointers to user buffers: `f_read` returns and `f_write` takes a sequence of bytes.
* `csize - 1` masks are written as remainders; mounting accepts only powers of two.
* FatFile.Fil.Seek: what lies between the old end of a file and a position past it is unspecified, as it is in the source.
* FatFile.Fil.Write: a shorter count may also be due to a free count of zero that is not known to be right, or to a corrupt
  table, as in create_chain.
* LongNames.CmpLfn: the word behind the buffer is a parameter; so is upper-casing, which maps only 0 to 0.
* Mkfs.Drive.Format: data areas are aligned to single sectors, as this firmware formats; existing partitions are not used,
  and the cylinder, head and sector bytes of the partition entry are given.
* MountVolume.Mount: the drive is ready, and no partition is forced.
* Task scheduling, priorities and time-outs beyond what the event lists need: a wait ends by an event or by the tick.
* Queue sets, mutexes, semaphores and zero-size items in `queue.c`; plain stream buffers in `stream_buffer.c`.
* Timers.Daemon.Execute: commands are less than one wrap old, and samples less than one wrap apart while a timer is active,
  as the daemon never blocks that long then; deletion only ends the timer's activity; pended function calls are left out.
* EventGroup: a word of bits is the set of its bit numbers; reading the value to return after SetBits is not a step of its own.
* LogBuffer.Buffer.Publish: a late writer, for whose slot done_write_slot has come around by whole turns, is not followed
  further, except to a committed slot of the same length; with one of another length it takes the bytes behind its own
  length for the next slot's header. Characters are unsigned.
* OpenFiles: a file is opened once at a time; files share no cluster.
* GsmCalls: modem events and command results come from one thread; a dialled call is answered while the phase is "none";
  the modem's own dialogue is nondeterministic events.
* AlarmStates: timer callbacks run to their end before the tasks go on, as the priorities demand; a pass of the service over
  a state change is one step; calls, messages and menus are left out.
* SettingsStore: the file system's operations are atomic, and a load reads without errors; what a configuration contains is
  a parameter.
* SupplyPins: interrupts of the supply do not preempt each other and are not preempted by what they preempt; debounce and fuse
  timing are left out.
* Log text formatting, sound, display, keyboard, zone scanning, calendar and flash driver: hardware or simple members.
