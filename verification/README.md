# Verified model of the AOA board libraries

This project models the code of two libraries of the AOA board software and proves what they are for.

- `fatfs/` models the FatFs R0.07e volume engine (`Lib_FatFs_SD/src/ff.c`) in the configuration of
  `Lib_FatFs_SD/inc/ffconf.h`: one shared 512-byte window, writable, 8.3 names in code page 858, no relative paths.
- `board/` models four small state machines of `Lib_Board/src`: the node and subscription tables (`rfpt.c`), the radio
  frames (`xbee.c`), the ring between CAN interrupt and main loop (`canpt.c`), and the page writer (`eeprom.c`).

## How the volume engine is built up

| file | what it holds |
|---|---|
| `Bytes`, `Layout` | bytes, little-endian words, 32-bit wrap-around, bit masks; the areas of a volume |
| `LogicalDisk` | the disk as it reads through the window, the window's coherence, mirrored table copies |
| `Table` | table entries of 12, 16 and 28 bits in the bytes of the table |
| `Chains` | cluster chains over the table: freeing, cyclic first fit, growing |
| `Mount` | the geometry a boot sector describes, against the FAT specification |
| `FileSystem` | class `FATFS`: window, table access, allocation, direct transfers |
| `FileView`, `FilePosition` | the bytes of a file; where the file object's position fields must point |
| `File` | class `FIL`: read, write, seek, flush |
| `DirEntry`, `DirTable`, `DirView`, `Directory` | entries, stepping, lookups, class `DIR` |
| `Names`, `Path`, `OpenFile` | 8.3 names, paths, opening and creating |
| `Session`, `Isolation`, `Sharing`, `Company` | runs of operations on one file, and interleaved on several files that were opened side by side |
| `Creation`, `Persistence`, `Reopening` | statements over several calls by path, and across a remount |

`FATFS` carries three ghost fields. `img` is the *logical disk*: the physical sectors with a dirty window stored over
them, in every table copy if it is a table sector. `fat` is the table as a sequence of entry values. `chains` is the set
of cluster chains. `FATFS.Valid` ties the first two to the real fields; `FATFS.Sound` adds that the table is a set of
disjoint acyclic chains which hold every cluster in use; `FATFS.Counted` says that the free count is unknown or equal to
the number of zero entries, and `FATFS.Noted` that the FSInfo sector holds it unless an update is due. `FIL.Valid` adds
that the file is one of the chains and that `fptr`, `csect`, `curr_clust` and `dsect` agree with it, `FIL.Entered` that
its directory entry lies in a directory of the volume. Every operation keeps these, so they hold over every run.

`Geometry.Sane` states what the code needs of a volume: `csize` a power of two up to 128, `n_rootdir` a multiple of 16,
a table long enough for `max_clust` entries, and `max_clust` below the end mark. `Mount.MountIsSound` derives it from the
boot sector. The allocation hint `last_clust` may hold any value.

## Model

| member | source | states |
|---|---|---|
| `FileSystem.FATFS.Mount` | Lib_FatFs_SD/src/ff.c:1537-1580 | a mounted volume is sound; its geometry is that of the bytes of the boot sector read; free count and hint are those of the bytes of a signed FSInfo sector, otherwise the count is unknown and the hint is what memory held |
| `Mount.BootSectorReads` | Lib_FatFs_SD/src/ff.c:1537-1560 | a boot sector built field by field with byte stores at the offsets of the FAT specification, with its sizes in the 16-bit or in the 32-bit fields, reads back as the same parameter block |
| `Mount.MountedLaidOut` | Lib_FatFs_SD/src/ff.c:1537-1566 | type, cluster size, table, root directory, data area and FSInfo sector of a sane boot sector, each as a number over its bytes |
| `LogicalDisk.FsInfoMarked` | Lib_FatFs_SD/src/ff.c:1569-1577 | the FSInfo sector is recognised by its two signatures and the end mark, byte by byte, and yields the numbers at offsets 488 and 492 |
| `LogicalDisk.InfoBytes` | Lib_FatFs_SD/src/ff.c:296-303 | the FSInfo sector that is written, byte by byte |
| `Mount.MountIsSound` | Lib_FatFs_SD/src/ff.c:1537-1560 | for any sane parameter block the table, root and data areas follow each other inside the volume, no 32-bit step wraps, and the type is that of "FAT Type Determination" |
| `Mount.ClustersAreDisjointRuns` | Lib_FatFs_SD/src/ff.c:527-535 | cluster 2 begins the data area and every further cluster follows the one before it, so distinct clusters are disjoint runs of `csize` sectors inside the volume; a number maps to 0 exactly when it is no cluster, 0 and 1 by wrap-around included |
| `Mount.CountAgreesExactly` | Lib_FatFs_SD/src/ff.c:1546-1550 | the cluster count equals the specification's if and only if the root entries fill whole sectors or the sector rounded away does not complete a cluster |
| `Mount.TypeAgreesExactly` | Lib_FatFs_SD/src/ff.c:1546-1554 | the FAT type equals the specification's if and only if the count, one higher where a cluster is gained, stays below 2^32 - 2, and no cluster is gained at a count of 4084 or 65524 |
| `Mount.RoundingMatters` | Lib_FatFs_SD/src/ff.c:1546-1554 | a volume on which the two types differ |
| `FileSystem.FATFS.MoveWindow` | Lib_FatFs_SD/src/ff.c:243-275 | the logical disk never changes; the window shows the requested sector; after a move the disk alone is the logical disk |
| `FileSystem.FATFS.WriteBack` | Lib_FatFs_SD/src/ff.c:254-265 | a dirty window, table sector or not, leaves physical and logical disk equal with all table copies alike |
| `FileSystem.FATFS.ReflectCopies` | Lib_FatFs_SD/src/ff.c:258-264 | the copy loop stores a table sector into every table copy and touches nothing else |
| `LogicalDisk.NextCopy` | Lib_FatFs_SD/src/ff.c:258-264 | sectors `sects_fat` apart are the copies of one table sector, none lies between them, and none behind the last |
| `LogicalDisk.StoreKeepsCopies` | Lib_FatFs_SD/src/ff.c:258-264 | table copies that agree still agree after a store through the window |
| `LogicalDisk.CoherentStored` | Lib_FatFs_SD/src/ff.c:251-272 | changing the window and marking it dirty is a store into the logical disk |
| `LogicalDisk.CoherentClaimed` | Lib_FatFs_SD/src/ff.c:1933-1953 | setting the window address without reading is a store too, once the window is dirty |
| `LogicalDisk.PatchedRun` | Lib_FatFs_SD/src/ff.c:1809-1810 | a direct read patched with the dirty window, found by the unsigned test `winsect - sect < cc`, gives the logical sectors |
| `LogicalDisk.CoherentRun` | Lib_FatFs_SD/src/ff.c:1915-1921 | a direct write with the window refilled when it lies in the run keeps the window coherent |
| `FileSystem.FATFS.DirectRead` | Lib_FatFs_SD/src/ff.c:1801-1819 | whole sectors read past the window are the logical disk's bytes |
| `FileSystem.FATFS.DirectWrite` | Lib_FatFs_SD/src/ff.c:1911-1931 | whole sectors written past the window replace exactly those sectors of the logical disk |
| `FileSystem.FATFS.PutFresh` | Lib_FatFs_SD/src/ff.c:1933-1953 | at the growing edge the sector holds the new bytes first and unspecified ones behind, and nothing else changes |
| `FileSystem.FATFS.Sync` | Lib_FatFs_SD/src/ff.c:285-312 | afterwards the window is clean, the disk is the logical disk, and a pending FSInfo sector holds free count and hint |
| `LogicalDisk.FsInfoReadsBack` | Lib_FatFs_SD/src/ff.c:296-303 | the FSInfo sector that is written is recognised at mount and yields the two numbers |
| `FileSystem.FATFS.GetFat` | Lib_FatFs_SD/src/ff.c:323-355 | reads the entry of a valid cluster, for entries inside one sector or across two, and 1 for any other number |
| `Table.EntryLies` | Lib_FatFs_SD/src/ff.c:331-351 | where the bytes of an entry lie in the table and what they are worth, as numbers, for entries of 12, 16 and 28 bits |
| `FileSystem.FATFS.PutFat` | Lib_FatFs_SD/src/ff.c:365-416 | the entry reads back masked to 12, 16 or 28 bits and, on FAT32, takes the upper four bits of the value; every other entry keeps all its bits, and no sector outside the table area changes |
| `Table.Put12` | Lib_FatFs_SD/src/ff.c:383-395 | the two byte stores of a 12-bit entry set that entry and no other, although each shares a byte with a neighbour |
| `Table.StoreWide` | Lib_FatFs_SD/src/ff.c:397-407 | the word or double-word store of a wider entry, at the driver's sector and byte index, sets that entry and no other |
| `Table.TopBitsSurviveExactly` | Lib_FatFs_SD/src/ff.c:403-407 | a store keeps the upper four bits of a FAT32 entry if and only if the value brings the same ones; the values the driver stores keep them exactly where they are zero |
| `Table.LoadWide` | Lib_FatFs_SD/src/ff.c:345-351 | the driver's index arithmetic loads the entry that lies at `c * width` in the table |
| `Table.NeighbourNibble` | Lib_FatFs_SD/src/ff.c:387-394 | a byte shared by two 12-bit entries keeps the neighbour's nibble |
| `DirEntry.UpdatedHolds` | Lib_FatFs_SD/inc/ff.h:589-592 | words stored byte by byte at their offsets read back, also after the stores that follow |
| `DirEntry.EntryFields` | Lib_FatFs_SD/inc/ff.h:562-571 | attribute bits, start cluster and size of an entry as numbers over its bytes |
| `FileSystem.FATFS.RemoveChain` | Lib_FatFs_SD/src/ff.c:427-457 | equals `Remove` on every table; the free count rises by the number freed, saturating, and an FSInfo update is due if it did |
| `Chains.RemoveConserves` | Lib_FatFs_SD/src/ff.c:439-455 | on every table, cyclic ones included, freeing ends, only turns entries to zero, and conserves the sum of freed and free clusters |
| `Chains.RemoveFreesChain` | Lib_FatFs_SD/src/ff.c:439-455 | on a well-formed chain exactly its clusters become free and no error is reported |
| `Chains.RemoveExactly` | Lib_FatFs_SD/src/ff.c:439-455 | on any table exactly the clusters are freed that link on from the first, up to where the run leaves the table, meets itself or meets an entry of value 0 or 1; an error is reported if and only if that value is 1 |
| `Chains.RemoveKeepsVolume` | Lib_FatFs_SD/src/ff.c:439-455 | freeing one chain leaves the others as disjoint acyclic chains |
| `FileSystem.FATFS.FindStop` | Lib_FatFs_SD/src/ff.c:488-500 | the search loop ends, and stops at the first entry of value 0 or 1 behind the start in cyclic order, or finds none |
| `FileSystem.FATFS.CreateChain` | Lib_FatFs_SD/src/ff.c:468-516 | follows an existing link, fails, or takes a free cluster, marks it as the last and links it from the tail, for every table and hint; the cluster taken is the first free one behind the tail, or behind the hint for a new chain, in cyclic order, so no free one lies between |
| `Chains.TakesNext` | Lib_FatFs_SD/src/ff.c:477-500 | said without the search: whatever the tail or the hint, no free entry lies between it and the cluster taken, going round the table once |
| `Chains.FirstFit` | Lib_FatFs_SD/src/ff.c:477-500 | unless the search runs into an entry of value 1, it returns 0 if and only if nothing is free, and otherwise the free cluster nearest behind the start |
| `Chains.GrowthConserves` | Lib_FatFs_SD/src/ff.c:468-516 | however a chain grew, its clusters and the free ones together stay as many |
| `FileSystem.FATFS.Grow` | Lib_FatFs_SD/src/ff.c:468-516 | on a sound volume it hands out the next cluster of the chain or makes the chain one longer; other chains and the exact free count are kept |
| `FileSystem.FATFS.Release` | Lib_FatFs_SD/src/ff.c:427-457 | on a sound volume exactly one chain disappears and the free count grows by its length |
| `FileSystem.FATFS.EmptyFile` | Lib_FatFs_SD/src/ff.c:1707-1721 | truncation on opening frees the file's chain, clears the entry's cluster and size, leaves other sectors and chains, and moves the hint to the hole |
| `File.FIL.Open` | Lib_FatFs_SD/src/ff.c:1742-1751 | a file object opened on an entry satisfies the position invariant at offset 0 with the entry's size and chain |
| `File.FIL.Read` | Lib_FatFs_SD/src/ff.c:1763-1848 | returns exactly the file's bytes from the pointer on, as many as asked for and there are, each the byte of the disk at a place given as a number; moves the pointer over them |
| `FileView.ByteLies` | Lib_FatFs_SD/src/ff.c:527-535 | byte `j` of a file lies in sector `database + (c - 2) * csize + j / 512 % csize`, where `c` is the chain's cluster `j / 512 / csize`, at offset `j % 512` |
| `File.FIL.Write` | Lib_FatFs_SD/src/ff.c:1858-1964 | overlays the bytes taken at the pointer: none exactly when the size would reach 4 GB, otherwise all, or as many as fit when no cluster is left and the chain is filled to its end; the chain grows by no more clusters than needed, other sectors stay |
| `FileView.WrittenIsSplice` | Lib_FatFs_SD/src/ff.c:1858-1964 | what a write leaves is the old bytes before the pointer, the new ones, and the old ones behind them |
| `File.FIL.Seek` | Lib_FatFs_SD/src/ff.c:2102-2191 | lands on the target, clipped to the size when reading, or at the end of the last cluster when the volume is full; the size becomes the larger of the two, the chain grows by no more clusters than needed, and no old byte changes |
| `File.FIL.SeekStart` | Lib_FatFs_SD/src/ff.c:2121-2141 | resuming from the current cluster and starting over both stand at a cluster of the chain from which the rest of the distance leads to the target |
| `FilePosition.CurrentCluster` | Lib_FatFs_SD/src/ff.c:2124-2129 | the mask arithmetic finds the start of the cluster that the current-cluster field names |
| `FilePosition.AtBoundary` | Lib_FatFs_SD/src/ff.c:1789-1797 | at a sector boundary either the next sector is in the current cluster or the next cluster follows it in the chain |
| `FilePosition.AfterRun` | Lib_FatFs_SD/src/ff.c:1801-1819 | after a run of whole sectors the position fields are right again |
| `FilePosition.AfterPart` | Lib_FatFs_SD/src/ff.c:1833-1845 | after part of a sector they are right again |
| `FilePosition.IntoCluster` | Lib_FatFs_SD/src/ff.c:2159-2166 | the last step of a seek leaves the position fields right, at sector boundaries and inside sectors |
| `OpenFile.EntryIsEntered` | Lib_FatFs_SD/src/ff.c:1742-1743 | a file object opened on an entry of a directory has its entry on a sector of that directory, behind the table and outside the file |
| `File.FIL.StillEntered` | Lib_FatFs_SD/src/ff.c:1858-2191 | the entry stays so when the file's chain, or another file's, grows by a write or a seek |
| `File.FIL.Sync` | Lib_FatFs_SD/src/ff.c:1973-2010 | a file flagged as written leaves on the disk alone its size and start cluster in the entry, agreeing table copies and a due FSInfo update; the disk is the logical disk afterwards if and only if the file was so flagged or it was before; the file's bytes are unchanged |
| `DirEntry.UpdatedKeeps` | Lib_FatFs_SD/src/ff.c:1995-2001 | flushing changes only archive bit, time, cluster and size fields of the entry |
| `DirEntry.FlushedBytes` | Lib_FatFs_SD/src/ff.c:1995-2001 | a flushed entry byte by byte: archive bit set and the other attribute bits kept, size, start cluster and time low byte first, everything else as it was |
| `DirEntry.EmptiedBytes` | Lib_FatFs_SD/src/ff.c:1707-1711 | an emptied entry byte by byte: start cluster and size are zero, everything else is as it was |
| `DirEntry.CreatedBytes` | Lib_FatFs_SD/src/ff.c:1723-1727 | a created entry byte by byte: attribute byte 0, time of creation, everything else as it was |
| `Session.Run` | Lib_FatFs_SD/src/ff.c:1763-2191 | any run of reads, writes, seeks and flushes on an open file, whatever it was opened for, is step by step the run of a plain byte array with a position that may have a fixed number of clusters, the file's own and the free ones, the same before and after; a write takes exactly what fits and a seek lands exactly as far as it fits; refused operations change neither bytes nor position, the free count stays exact, the FSInfo sector holds it unless an update is due, and outside the file only its own entry changes |
| `Session.DoesOnly` | Lib_FatFs_SD/src/ff.c:1763-2191 | the plain byte array leaves an operation one outcome: reply, position, size, clusters and bytes, but for the bytes a seek behind the end uncovers |
| `Session.RoomLeft` | Lib_FatFs_SD/src/ff.c:1858-2191 | if a run leaves a cluster free, no write below 4 GB and no seek of it fell short |
| `Session.WriteSeekRead` | Lib_FatFs_SD/src/ff.c:1858-1964 | what was written is read back after seeking to where it was written |
| `Session.WriteKeeps` | Lib_FatFs_SD/src/ff.c:1858-1964 | a write changes no byte of the file outside the range it took |
| `Sharing.StepAmong` | Lib_FatFs_SD/src/ff.c:1763-2191 | a read, write, seek or flush of one file leaves every other open file valid, with the same bytes, size and position |
| `Sharing.Interleave` | Lib_FatFs_SD/src/ff.c:1763-2191 | in any interleaving of operations on any number of open files, each step does to its file exactly what it does to a plain byte array that may take the clusters free at that moment, nothing to the others, and what it takes is free no more |
| `Sharing.EachByItself` | Lib_FatFs_SD/src/ff.c:1763-2191 | so each file runs by its own operations alone; of the others it sees only the clusters they took |
| `Sharing.SharingConserves` | Lib_FatFs_SD/src/ff.c:468-516 | over any interleaving the clusters of all files and the free ones together stay as many |
| `Isolation.WriteBeside` | Lib_FatFs_SD/src/ff.c:1858-1964 | writing a file leaves another open file valid with the same bytes, wherever their entries lie |
| `Isolation.SeekBeside` | Lib_FatFs_SD/src/ff.c:2102-2191 | so does seeking, also when it allocates clusters |
| `Isolation.OpenBeside` | Lib_FatFs_SD/src/ff.c:1665-1754 | so does opening, creating or emptying a file; the other file's entry stays in its directory, also where that is stretched |
| `Company.OpenAmong` | Lib_FatFs_SD/src/ff.c:1665-1754 | a file opened, created or emptied beside any number of open files joins them: entries in their directories, chains apart, the others' bytes, sizes and positions as they were |
| `Company.OpenEach` | Lib_FatFs_SD/src/ff.c:1665-1754 | different files opened as they are, one after the other: all of them if and only if attributes and modes agree, each with its bytes on the volume |
| `Company.WorkTogether` | Lib_FatFs_SD/src/ff.c:1665-2191 | opened by path and worked on in any interleaving, each file begins with its bytes on the volume and runs as a plain byte array, with the free clusters shared |
| `Persistence.Remount` | Lib_FatFs_SD/src/ff.c:1973-2010 | after a flush, mounting the disk afresh gives the same table and chains, with the file's bytes and an entry that has its size and start cluster |
| `Persistence.FlushAndReopen` | Lib_FatFs_SD/src/ff.c:1973-2010 | opening that entry gives the same size, chain and bytes; on FAT32 a known free count survives, unless it was due and nothing was flushed, and so does the hint with a count that was flushed |
| `Reopening.WalkAlike` | Lib_FatFs_SD/src/ff.c:1381-1428 | a volume whose directories keep names, kinds and subdirectories leads every path to the same place |
| `Reopening.MovedAlike` | Lib_FatFs_SD/src/ff.c:1858-2010 | writing, seeking and flushing a file keeps every directory so |
| `Reopening.EmptiedAlike` | Lib_FatFs_SD/src/ff.c:1707-1729 | so does emptying a file on opening |
| `Reopening.OpenedLeads` | Lib_FatFs_SD/src/ff.c:1665-1754 | after opening, creating or emptying a file its path leads to the entry of the file object |
| `Reopening.OpenedReach` | Lib_FatFs_SD/src/ff.c:1665-1754 | the clusters a file may have after opening: the free ones, its own if it was there, less what its directory took |
| `Reopening.RoundTrip` | Lib_FatFs_SD/src/ff.c:1665-2191 | open a path, run any operations, flush, mount the disk afresh, open the path again: if the flush leaves nothing pending the file has exactly the bytes and clusters the run ended with, and it leaves nothing if the file was created or emptied, the window was clean before, or the run wrote or made the file longer |
| `Directory.DIR.Seek` | Lib_FatFs_SD/src/ff.c:545-583 | on any table the object addresses the entry that random access defines, or reports an internal error exactly when there is none |
| `Directory.DIR.Next` | Lib_FatFs_SD/src/ff.c:593-650 | one step leads to the next entry, the end, or a broken link as defined; with stretching a chained directory grows by one cluster of zeros |
| `DirTable.StepsAreLocate` | Lib_FatFs_SD/src/ff.c:545-650 | `n` steps from entry 0 lead to the same cluster and sector as seeking entry `n`, or to the same failure, for static and chained tables |
| `DirTable.StepsExactly` | Lib_FatFs_SD/src/ff.c:600-650 | where a step leads on any table, case by case: same sector, next sector, linked cluster, end of a static or chained table, or a broken link |
| `DirTable.LocateInDir` | Lib_FatFs_SD/src/ff.c:545-583 | on a sound volume random access finds exactly the directory's own sectors and ends where they end |
| `FileSystem.FATFS.ZeroCluster` | Lib_FatFs_SD/src/ff.c:627-635 | the loop that walks the window address over the new cluster clears exactly its sectors and leaves the window coherent |
| `Directory.DIR.Find` | Lib_FatFs_SD/src/ff.c:830-881 | on any table it ends and reports the first match before the directory ends, or why there is none |
| `Creation.ScanIsLookup` | Lib_FatFs_SD/src/ff.c:830-881 | on a sound volume the scan is the lookup in the directory seen as a sequence of entries |
| `DirView.LookupExactly` | Lib_FatFs_SD/src/ff.c:830-881 | a lookup gives entry `k` if and only if that has the name and is no volume label (bit 3 of byte 11), no entry up to it begins with a zero byte, and none before it is such a match |
| `DirView.EntriesLie` | Lib_FatFs_SD/src/ff.c:544-582 | where byte `b` of entry `i` of a directory lies on the disk, in the static root and along a chain |
| `Directory.DIR.Register` | Lib_FatFs_SD/src/ff.c:1016-1040 | the first blank entry gets the name; it fails only for a full static root, a directory at the index limit, a volume without free clusters, or a root without entries, and then changes nothing |
| `DirView.NewEntryFields` | Lib_FatFs_SD/src/ff.c:1016-1040 | the entry of a new name byte by byte: the name, the case flags at bits 3 and 4 of byte 12, and zeros |
| `DirView.RegisterLookups` | Lib_FatFs_SD/src/ff.c:1016-1040 | in a directory of any shape registering an absent name makes it found at its entry and keeps every hit; a miss becomes a hit exactly when the entry taken was the end mark and a stale entry behind it matches |
| `DirView.RegisterKeepsLookups` | Lib_FatFs_SD/src/ff.c:1016-1040 | in a directory of zero-tail shape it keeps that shape and changes no other lookup, also after stretching |
| `DirView.ViewGrown` | Lib_FatFs_SD/src/ff.c:618-642 | a stretched directory shows its old entries, and entries that end it behind them |
| `Names.CreateName` | Lib_FatFs_SD/src/ff.c:1228-1299 | a segment is a name if and only if it is not empty, its parts are at most 8 and 3 long with one dot, and its characters are legal; the result is the padded folded name with its status byte |
| `Names.StoredPlaces` | Lib_FatFs_SD/src/ff.c:1240-1287 | the characters before the first dot are stored in bytes 0 to 7, those behind it in bytes 8 to 10, with blanks behind both, and 0x05 for a first byte of 0xE5 |
| `Names.StatusBits` | Lib_FatFs_SD/src/ff.c:1285-1296 | the status byte has bit 2 for the end of the path, bits 3 and 4 for a body and an extension in small letters only |
| `Names.LegalExactly` | Lib_FatFs_SD/src/ff.c:1272-1273 | a character inside a segment is refused if and only if it is one of nine |
| `Names.FoldPlain` | Lib_FatFs_SD/src/ff.c:1275-1282 | small letters are stored as capitals, 0x20 lower, and every other character below 0x80 as it is |
| `Names.FoldPairs` | Lib_FatFs_SD/inc/ff.h:121-126 | the letters of code page 858 in pairs: the small one is stored as the capital one |
| `Names.FoldOthers` | Lib_FatFs_SD/inc/ff.h:121-126 | every other extended character is stored as it is |
| `Names.StoredCapital` | Lib_FatFs_SD/src/ff.c:1275-1282 | no stored byte is a small letter |
| `Names.CaseBlind` | Lib_FatFs_SD/src/ff.c:1228-1299 | segments that differ in the case of letters are both names or both none, and have the same eleven bytes |
| `Names.PrintName` | Lib_FatFs_SD/src/ff.c:1321-1346 | prints body and extension up to their first blank, with a dot between them and the 0x05 guard undone; with its terminator the text fits 13 bytes |
| `Names.TextOfName` | Lib_FatFs_SD/src/ff.c:1321-1346 | the text of a stored name is body and extension in capitals, with a dot between them when there is an extension |
| `Names.PrintThenParse` | Lib_FatFs_SD/src/ff.c:1228-1346 | parsing the text of any stored name but the blank one gives the same eleven bytes, with extended characters and the 0xE5 guard |
| `Names.RoundTripExactly` | Lib_FatFs_SD/src/ff.c:1228-1346 | for a name segment of the caller, printing and parsing give the same name if and only if the segment is not the lone dot, which prints as the empty text |
| `Names.BlankName` | Lib_FatFs_SD/src/ff.c:1250-1290 | the blank name comes from a lone dot and nothing else |
| `Names.FoldOnce` | Lib_FatFs_SD/inc/ff.h:121-126 | a stored character is legal, folds to itself, and is neither blank, dot nor 0x05 |
| `Names.NameIsProper` | Lib_FatFs_SD/src/ff.c:1287-1291 | no stored name begins like a free or deleted entry |
| `Path.FollowPath` | Lib_FatFs_SD/src/ff.c:1381-1428 | on any table and directory contents it arrives where the walk over the path's segments leads, with the same error |
| `Path.PathStartExactly` | Lib_FatFs_SD/src/ff.c:1391-1400 | the walk starts behind all blanks in front and one slash or backslash that follows them |
| `Path.WalkComposes` | Lib_FatFs_SD/src/ff.c:1409-1424 | a path of several segments fails unless the first names a directory (bit 4 of its attribute byte), and then is the walk of the rest from that directory; a single segment leads to the object of its name |
| `Path.PathsAlike` | Lib_FatFs_SD/src/ff.c:1381-1428 | paths that differ in the case of letters and in the choice of separators lead to the same entry, the same missing name or the same error |
| `Path.FindIsScan` | Lib_FatFs_SD/src/ff.c:830-881 | the result of the lookup loop is determined by the directory and the name alone |
| `OpenFile.Open` | Lib_FatFs_SD/src/ff.c:1665-1754 | every combination of object, attributes and mode gives the result and the change of volume and file object that the source promises, for an existing object with the attribute bits and error codes spelled out; a failure changes nothing, and the free count stays exact |
| `OpenFile.AnswersExactly` | Lib_FatFs_SD/src/ff.c:1701-1741 | an existing object is opened if and only if it is no directory, the mode is not create-new, and it is not read-only or the mode neither writes nor creates; otherwise the error is the one of the first test that fails |
| `OpenFile.Recreate` | Lib_FatFs_SD/src/ff.c:1707-1729 | an existing file is emptied: its chain is free, its entry keeps only the name, other entries and sectors stay |
| `OpenFile.Create` | Lib_FatFs_SD/src/ff.c:1694-1729 | a new entry without attributes, clusters and bytes stands in the first blank place or behind the old end |
| `Creation.MissingIsAbsent` | Lib_FatFs_SD/src/ff.c:1381-1428 | a path that ends at a missing name ends at a directory, of whatever shape, whose lookup of that name fails |
| `Creation.LookupAfter` | Lib_FatFs_SD/src/ff.c:1694-1700 | after a creation every name that was found in any directory of the volume is found in the same, unchanged entry; a name that was not stays so outside the directory written, and inside if that has the zero-tail shape |
| `Creation.CreatedIsFound` | Lib_FatFs_SD/src/ff.c:1381-1428 | after a creation the whole path, through all its directories, leads to the new entry |
| `Creation.CreateThenOpen` | Lib_FatFs_SD/src/ff.c:1665-1754 | a file created under a new path is opened again by that path as the same, empty, entry |
| `NodeTable.Table.HandlePublish` | Lib_Board/src/rfpt.c:317-364 | an unknown sender takes the first free slot and is reported; the table stays sound if and only if the sender was known, the table was full, or both halves of the address are nonzero |
| `NodeTable.NewNodeHolds` | Lib_Board/src/rfpt.c:341-358 | the slot of a new node holds its address, the time, and its first twelve capabilities at most |
| `NodeTable.Table.CheckIfNodesAlive` | Lib_Board/src/rfpt.c:655-686 | exactly the overdue nodes are cleared and reported, exactly the others that are due are polled, in 32-bit time |
| `NodeTable.WatchedExactly` | Lib_Board/src/rfpt.c:655-686 | in terms of time passed, away from the wrap of the clock: a node silent for more than 3000 ms is detached and its slot cleared, one polled more than 1000 ms ago is polled and its poll time renewed, and any other slot stays as it is |
| `NodeTable.KeptWhileFresh` | Lib_Board/src/rfpt.c:655-686 | away from the wrap of the clock, no series of looks detaches a node within 3000 ms of its last sign of life |
| `NodeTable.ReportsExactly` | Lib_Board/src/rfpt.c:655-686 | what is reported in a round is what each slot gives rise to |
| `NodeTable.PollsApart` | Lib_Board/src/rfpt.c:679-681 | two polls of a node are more than 1000 ms apart, over any series of looks |
| `NodeTable.ExpiredExactly` | Lib_Board/src/rfpt.c:665-667 | a node is taken for dead exactly when its last answer is more than 3000 ms old, if and only if the clock wrapped round since the answer exactly when the deadline does (and, for an answer at time 0, if it is not that old) |
| `NodeTable.PollDueExactly` | Lib_Board/src/rfpt.c:679 | a poll is due exactly after 1000 ms under the same condition |
| `NodeTable.WrapMatters` | Lib_Board/src/rfpt.c:665-667 | a node that answers just before the wrap is detached at the next look, and one that fell silent before it is kept after it |
| `NodeTable.Table.HandlePollResponse` | Lib_Board/src/rfpt.c:376-390 | the answering node's time is renewed and nothing else changes |
| `NodeTable.Table.GetNodes` | Lib_Board/src/rfpt.c:1072-1090 | with enough room the ids returned are exactly the attached ones |
| `NodeTable.IdsAreListed` | Lib_Board/src/rfpt.c:1081-1085 | the ids are those of the listed slots, in strictly rising order |
| `NodeTable.SensibleAlternates` | Lib_Board/src/rfpt.c:360-362 | over every run the callbacks of each node id alternate, beginning with an attach |
| `SubTable.Table.HandleSubscribe` | Lib_Board/src/rfpt.c:439-504 | a request is answered with the id of the same subscription or of a new one in the first free slot; the counter stays exact and no subscription occurs twice if and only if the request asks for nothing, is known, finds no room, or comes from an address without a zero half |
| `SubTable.TemperatureAsked` | Lib_Board/src/rfpt.c:454-460 | the value of a temperature request is a signed number in two bytes, high byte first, widened to 32 bits |
| `SubTable.RequestsTaken` | Lib_Board/src/rfpt.c:449-477 | a request is taken if and only if it is two bytes or longer and asks for the temperature, or for button value 0 or 1 |
| `SubTable.Table.HandleUnsubscribe` | Lib_Board/src/rfpt.c:518-535 | only the sender's own slot is cleared and counted off; the table stays sound if and only if this is not a request from the zero address for a free slot |
| `SubTable.Table.SubscriptionExists` | Lib_Board/src/rfpt.c:144-163 | returns the id of the first slot with all five fields equal, or 0 |
| `SubTable.Table.Task` | Lib_Board/src/rfpt.c:1163-1241 | every live subscription is looked at and what has fired is sent; skipping the loop at counter 0 makes no difference |
| `SubTable.TurnSends` | Lib_Board/src/rfpt.c:1163-1241 | over a series of turns a threshold subscription sends exactly when the readings of its own peripheral, 0x10 the temperature and 0x30 the button, cross the threshold |
| `SubTable.SentExactly` | Lib_Board/src/rfpt.c:1163-1241 | what is sent in a turn is what each slot gives rise to |
| `SubTable.ThresholdCrossed` | Lib_Board/src/rfpt.c:1192-1207 | over a series of readings a threshold subscription sends exactly at the crossings |
| `SubTable.SilentDrift` | Lib_Board/src/rfpt.c:1210-1217 | over a series of readings a difference subscription measures from the last value it sent |
| `Xbee.Sender.ApiTx64` | Lib_Board/src/xbee.c:263-309 | refuses more than 20 bytes, otherwise sends the frame of address, options and data with a fresh nonzero id |
| `Xbee.Sender.ApiAtCmd` | Lib_Board/src/xbee.c:205-240 | sends the frame of the command with or without its parameter |
| `Xbee.FrameOnWire` | Lib_Board/src/xbee.c:205-240 | a frame byte by byte: 0x7E, the length high byte first, the payload, and a check byte that brings the sum to 0xFF |
| `Xbee.TxOnWire` | Lib_Board/src/xbee.c:281-304 | the payload of a data frame byte by byte, the address most significant byte first |
| `Xbee.AtOnWire` | Lib_Board/src/xbee.c:205-240 | the payload of a command frame byte by byte |
| `Xbee.Checksum` | Lib_Board/src/xbee.c:179-189 | the loop computes what brings the byte sum to 0xFF modulo 256 |
| `Xbee.CheckedIsZero` | Lib_Board/src/xbee.c:511-515 | bytes followed by their check byte have checksum 0 |
| `Xbee.DamageDetected` | Lib_Board/src/xbee.c:511-515 | a frame with any one byte damaged does not pass |
| `Xbee.WordRoundTrip` | Lib_Board/src/xbee.c:115-145 | an address word survives the conversion to bytes and back |
| `Xbee.Receiver.ProcessByte` | Lib_Board/src/xbee.c:574-617 | one byte takes the receiver to the next state, and a complete frame to the frame handler |
| `Xbee.StreamReceived` | Lib_Board/src/xbee.c:574-617 | any stream of frames, with other bytes between them, hands on exactly their payloads in order, each with checksum 0 |
| `Xbee.Receiver.Receive` | Lib_Board/src/xbee.c:574-617 | the byte-fed receiver does so |
| `Xbee.RoomExactly` | Lib_Board/src/xbee.c:589-614 | a frame finds room for all its bytes if and only if its announced length is below 200 |
| `Xbee.DataDecoded` | Lib_Board/src/xbee.c:535-544 | a data frame is decoded to its sender's address and its data |
| `Xbee.RxOnWire` | Lib_Board/src/xbee.c:535-544 | the payload of a received data frame byte by byte |
| `Xbee.OthersDecoded` | Lib_Board/src/xbee.c:495-562 | what the frame handler makes of the other frame types, by number, and which frames it ignores |
| `Xbee.Receiver.ProcessFrame` | Lib_Board/src/xbee.c:495-562 | a frame is sorted by its first byte, and short ones and ones with a wrong checksum are dropped |
| `Xbee.Receiver.ReceiveData` | Lib_Board/src/xbee.c:535-617 | a stream of data frames gives the handler exactly the senders' addresses and data, in order |
| `Xbee.Receiver.ReceiveAfterTimeout` | Lib_Board/src/xbee.c:915-934 | a frame that broke off costs nothing that comes after its time-out |
| `CanRing.Ring.Put` | Lib_Board/src/canpt.c:109-127 | queues the message or drops it exactly when four wait, and does not write the slot handed out last |
| `CanRing.Ring.Get` | Lib_Board/src/canpt.c:134-147 | hands out the slot of the oldest message |
| `CanRing.Ring.Task` | Lib_Board/src/canpt.c:774-792 | whatever arrives between taking a message and sending it, what is sent is what was taken |
| `CanRing.Ring.Run` | Lib_Board/src/canpt.c:774-863 | any interleaving of interrupts and main loop behaves as the queue defined on sequences |
| `CanRing.SentInOrder` | Lib_Board/src/canpt.c:774-863 | what is sent is, in order, a part of what arrived |
| `CanRing.NothingElseLost` | Lib_Board/src/canpt.c:109-127 | as multisets, the messages sent, queued and dropped are those that were queued before and arrived |
| `CanRing.BurstSize` | Lib_Board/src/canpt.c:113-115 | of a burst the first messages are queued until four wait, and exactly those behind them are lost |
| `CanRing.SteadyLoad` | Lib_Board/src/canpt.c:774-792 | with at most one arrival a turn nothing is ever dropped |
| `Eeprom.Write` | Lib_Board/src/eeprom.c:203-247 | on a device whose page writes wrap, the page-splitting loop is one splice of the data at the offset; out of range it returns -1 and writes nothing |
| `Eeprom.Read` | Lib_Board/src/eeprom.c:163-187 | returns the bytes at the offset, or -1 out of range |
| `Eeprom.WriteThenRead` | Lib_Board/src/eeprom.c:163-247 | what was written reads back, and nothing around it changed |
| `Eeprom.Device.AddressOf` | Lib_Board/src/eeprom.c:163-247 | the address in front of a transfer, one byte or two with the high byte first, is taken by the device as the offset |
| `Eeprom.InsidePage` | Lib_Board/src/eeprom.c:205-243 | a transfer that stays in its page goes where it belongs |
| `Eeprom.CrossingPage` | Lib_Board/src/eeprom.c:205-243 | one that crosses the end of its page is not the write the driver promises if the byte behind the page should change |
| `Eeprom.OnePageExactly` | Lib_Board/src/eeprom.c:205-243 | a single transfer does for all data what the driver promises if and only if it stays in its page, which is why the driver splits |

## Where code and documents differ

- The cluster count is computed from `n_rootdir / 16` rounded down (ff.c:1548-1550), where the FAT specification rounds
  up. `CountAgreesExactly` gives the exact condition under which the counts agree, `TypeAgreesExactly` the one for the FAT
  types, and `RoundingMatters` a volume on which these differ. `SaneBpb` asks for whole root sectors.
- `put_fat` stores all 32 bits of a FAT32 entry (ff.c:403-407), where the specification wants the upper four kept. The values
  stored have these bits zero, so exactly the entries where they are not zero are damaged (`TopBitsSurviveExactly`).
- A lone dot is accepted as a name and gives eleven blanks, which print as the empty text (ff.c:1250-1290): the
  one name that does not survive printing and parsing (`RoundTripExactly`).
- The receiver cuts announced lengths to 200, the size of its buffer, which leaves no room for the check byte
  (xbee.c:591-607); `RoomExactly` gives the exact condition.
- An entry registered in place of a directory's end mark moves the end behind it. In a directory whose tail is not zero,
  stale entries come back (ff.c:1022); `RegisterLookups` says which.
- f_sync does nothing for a file that is not flagged as written, and still reports success (ff.c:1985): a window that an
  earlier file left dirty stays unwritten. A file created and dropped without a flush, then opened as it is and flushed,
  is not on the disk. `FIL.Sync` says exactly when the disk is up to date, `RoundTrip` what a caller can rely on.
- The 32-bit comparisons with a deadline (rfpt.c:665-679) fail around the wrap of the millisecond clock: `ExpiredExactly`
  and `PollDueExactly` give the condition, `WrapMatters` two nodes.
- The tables of `rfpt.c` treat an address as present when both halves are nonzero and as absent when both are zero; the
  contracts of the handlers say exactly when that keeps the tables sound.

## Left out

- Disk errors: every disk operation succeeds. The branches that report them are absent; where the code gives up on a
  condition that cannot arise on a sound volume, an assertion says so.
- `check_fs`, partition tables, drive status, mount ids and `validate` (ff.c:1438-1533, 1597-1611): mounting starts from
  a given boot sector.
- f_close, f_opendir, f_readdir, f_stat and the attribute, time and rename functions; long file names and the functions
  that `ffconf.h` compiles out.
- The clock (`get_fattime`, `time_get`), peripheral readings and the unset initial hint are parameters.
- Bit masks are written as remainders and quotients; `Bytes.MaskIsRemainder` and `Bytes.HighMaskRounds` justify the two
  that are not constants.
- The multi-sector transfers of the device are whole-sequence operations (`ReadSectors`, `WriteRun`).
- The file and directory objects do not own their volume: several may share one, and the statements about one say what
  they leave of the others (`Isolation`, `Sharing`).
- Open: its effect is stated for a path whose last directory, and file if there is one, are chains of the volume; the
  walk along the path itself is stated for all tables and directory contents.
- ProcessByte: does not take the byte that would be stored behind the end of the receive buffer; `RoomExactly` says which
  frames lead there.
- Directory times other than those the driver writes, and attributes other than volume, directory, read-only and archive.
- rfpt.c: the dispatcher, and the messages that only read a peripheral or set a light.
- xbee.c: the AT set-up dialogue, and the callbacks behind the frame handler.
- canpt.c: the message handlers and node table, which the main loop does not call.
- eeprom.c: the bus itself, its delays, and the reading of the unique id.
