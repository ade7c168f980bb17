# AltoniumOS storage: a verified model

This project models four parts of AltoniumOS and proves properties of the model: the FAT12 file system driver, the
text editor that runs on it, the ATA transfers below it, and the script that builds the first disk image.

* `Bytes`, `Disk` - byte strings, and the ATA driver over a device of which every command may fail.
* `ShortNames`, `FatTable`, `Chains`, `Walks`, `Contents`, `Space`, `Directories`, `Geometry` - the pieces of the on-disk
  format: 8.3 names, the packed table of 12-bit entries, cluster chains and walks through a damaged table, the number of
  free clusters, directory slots, the layout that a boot sector describes.
* `Volumes`, `EntrySteps`, `Costs`, `Outcomes`, `Listings` - a volume as a value, the invariant `WellFormed`, what each
  elementary step does to it, how many disk commands it takes, and what the operations make of it, failures included.
* `Fat12` - the driver's state as a class: the cached table and root directory, the cluster buffer and the dirty flags,
  changed in place. `View` is the volume that this state and the disk stand for.
* `Paths`, `Driver`, `Runs`, `Remounts` - path walking, the calls of the kernel on paths, sequences of calls, and mounting
  again.
* `NanoText`, `Nano`, `NanoEditor` - the editor: its text as a value, the fixed 1000 by 200 array edited in place, and the
  key handler over a mounted volume.
* `SeedVolume`, `ImageBuilder`, `SeedMount` - the builder's script, and mounting its image with the driver.

`WellFormed(image, tree, clusterSize, loose)` is the invariant of the file system. The used clusters are partitioned into
chains, each in range, acyclic and ended; every chain is owned by exactly one directory entry, but for the chains in
`loose`, which exist only inside an operation; every file chain has exactly the clusters that its size needs; directories
have unique names and nothing live behind the first never-used slot; directories form a tree below the root. `FileAt` and
`FolderAt` say what such a volume holds, and `AttrAt` with which attributes. `SameFiles`, `FileChanged` and `FolderChanged`
compare two volumes for all names of all directories; a written file has the archive attribute, and a new directory `.` and
`..` entries that lead to itself and to its parent.

A disk is a sequence of faults, one for each command. `FineSince(k)` says that no command from the k-th on has failed so far,
and an I/O error is always tied to a command that failed during the call. Contracts that do not mention faults hold for every
disk. As long as no command fails the result of a call is a function of the volume and the path: `WriteOutcome`,
`MakeOutcome`, `DeleteOutcome`, and `Expected` for a command of a run.

The result `kept` is false when a failed write to a directory cluster, or a directory made over an entry, may have left the
volume outside the invariant. It is computed from what the driver sees. If the slots of the directory are what they were all
the same (`Unharmed`), every file is as it was. When it can be false is stated exactly: for each operation by a condition on
the directory, the name and the free clusters, with a disk that makes it happen whenever the condition holds
(`GarblesOn`, `OverwritesOn`, `DanglesOn`, `LosesOn`). `ElsewhereSame` says that even then the files and folders of all other
directories are as they were. A driver that goes on after that is `Steady`: it is mounted, and no walk through the table goes
in circles, which every operation keeps, whatever it finds in the directories. So the caches and the disk agree after any
number of failed commands: `Synced`, and with `mirrored` in every FAT copy.

## What the code does differently from what one might expect

* `create_directory` takes every failure of its first lookup for a missing name (fat12.c:1111-1114). Some disk lets it
  overwrite a name that is taken if and only if it works in a subdirectory and a cluster is free: `CreateDirectoryAt`, with
  `MakeEffect` for one half and `OverwritesOn` for the other. `Overwritten` says what is left.
* `delete_file` frees the chain before it marks the entry (fat12.c:1174-1181). It is atomic on every disk if and only if the
  directory is the root: `DeleteFileAt`, with the outages `DanglesOn` and `LosesOn` for every file of a subdirectory. The
  second one also hits empty files, since a failed cluster write can lose the entry. `Undeleted` says what is left.
* A failed write of a directory cluster can damage the directory, and the driver goes on. For `write_file` some disk makes
  this happen if and only if the directory is not the root and the write would succeed on a disk that works: `WriteFileAt`,
  with `WriteEffect` for one half and `GarblesOn` for the other. For a new name in `create_directory` it is the same.
* `read_file` reports OK and the full size also on a chain that is too short (fat12.c:962-979): `CopyChain`. On a
  well-formed volume no chain is too short.
* A boot sector with no FAT copy or no reserved sector is accepted (fat12.c:607-649): `OddLayoutsAreAccepted`. Mounting such
  a volume again after a flush gives the same volume exactly when it is `Remountable`: `Remount`, with `MountAllocateFlush`
  and `TableLost` for volumes that are not.
* `set_fat_entry` does not look at the size of the FAT (fat12.c:277-288). The allocator never hands out a cluster without
  an entry, since `get_fat_entry` reports an end of chain for it.
* `write_file`, `create_directory` and `delete_file` ignore the result of the flush (fat12.c:1093-1095). The dirty flags
  stay set, so the caches still agree with the disk as far as they claim to; on a working disk they are clear afterwards.
* Chain walks treat 0xFF7 as a link (fat12.c:307); no cluster of an accepted volume has that number.
* Past 16 levels `..` leads elsewhere (fat12.c:825-829): `DotDotComesBack`. `CwdRoundTrip` has the exact condition under which
  the displayed directory is the current one.
* A file of carriage returns only loads as zero lines (shell/nano.c:46-69): `ParsesToNothing`. What is typed there is lost
  without a key that gives it up, and for no other file: `LosesTyping`, `Session`.
* In such a buffer the arrow keys index the arrays with -1 (shell/nano.c:421-435), and with 999 lines and the cursor behind
  the last of them, which takes Enter in such a buffer, Enter writes behind the arrays (shell/nano.c:393-419). These keys
  have no meaning in C and none in the model: `Defined`.
* A file that is missing, empty, too large or unreadable opens as one empty clean line (shell/nano.c:70-74).
* A text of more than 16383 bytes is cut when it is saved, and then counts as clean (shell/nano.c:458-469).
* Moving lines with `strcpy` loses what lies behind a NUL character (shell/nano.c:382, 402, 536): `CopyIsExact`.

## Model

| member | source | states |
|---|---|---|
| Disk.SplitAddress | disk.c:125-129 | the four address registers that the driver writes, low byte first, select exactly the requested sector below 2^28, and the address modulo 2^28 for any 32-bit number |
| Disk.ReadSector | disk.c:111-149 | success means the 512 bytes of that sector are in the buffer; the rest of the buffer is untouched either way |
| Disk.WriteSector | disk.c:152-200 | success means that sector holds the bytes; no other sector changes, even on failure |
| Disk.ReadSectorsMulti | disk.c:203-239 | the multi-sector command for 1 to 256 sectors, 256 being sent as 0 in the count register, reads the same bytes as single reads; any other count is refused |
| Disk.ReadSectors | disk.c:242-262 | whatever the failed fast path left in the buffer, success means the buffer holds exactly the n sectors, and bytes behind them are untouched |
| Disk.ReadSectorsSingly | disk.c:254-262 | the fallback loop |
| Disk.WriteSectorsMulti | disk.c:265-309 | the multi-sector write; a failure may leave debris only inside the requested window |
| Disk.WriteSectors | disk.c:312-332 | success equals n one-sector writes (`OneByOne`), also after a fast path that failed half way; nothing outside the window ever changes |
| Disk.WriteSectorsSingly | disk.c:324-332 | the fallback loop |
| Disk.OneByOneIsSplice | disk.c:324-332 | writing sector by sector is replacing the whole window at once |
| Disk.SpliceForgets | disk.c:317-329 | debris of a failed attempt does not survive the rerun |
| Disk.OutageIs | disk.c:111-200 | devices that work, fail for a while and then work again exist: the failures that later results speak of can happen |
| ShortNames.MakeShortName | fat12.c:187-242 | the imperative codec computes `Encode`, on every input |
| ShortNames.DirNameToString | fat12.c:152-178 | the imperative decoder computes `Display`; its bounds never cut a name |
| ShortNames.DecodeEncode | fat12.c:152-242 | decoding an accepted name gives the upper-cased input without a trailing dot |
| ShortNames.EncodeDecode | fat12.c:152-242 | re-encoding what is displayed gives the same 11 bytes |
| ShortNames.EncodeCut | fat12.c:583-603 | cutting a path component to 31 characters changes neither acceptance nor the encoding |
| ShortNames.EncodedFirstByte | fat12.c:220-229 | an encoded name never looks like a free slot or a dot entry |
| ShortNames.DisplayOfEncoded | fat12.c:152-178 | a displayed name can be used as a path component |
| ShortNames.EncodeParts | fat12.c:187-242 | a base of 1 to 8 and an extension of up to 3 capitals, digits, underscores and hyphens lie byte by byte in the two parts of the eleven bytes, blanks behind them |
| ShortNames.EncodableHasParts | fat12.c:187-242 | and no other name is accepted, in whatever case it is typed |
| ShortNames.CaseIsIgnored | fat12.c:187-242 | names that differ in the case of letters only are the same name |
| ShortNames.BlankName | fat12.c:152-178 | a blank name is shown as a question mark |
| FatTable.Table.GetEntry | fat12.c:263-275 | reads the 12-bit value, which lies in the bytes as `Packed` says; outside the FAT it is an end of chain |
| FatTable.Table.SetEntry | fat12.c:277-288 | updates one entry of the array of 12-bit values, keeps every other entry and all bits that no entry uses; the bytes that it leaves hold the new values as `Packed` says |
| FatTable.EntriesArePacked | fat12.c:263-275 | in every table each three bytes are a little-endian 24-bit number, the even entry in its lower and the odd one in its upper 12 bits |
| FatTable.PackedDetermines | fat12.c:263-275 | so the bytes determine the entries |
| FatTable.GetAfterPut | fat12.c:263-288 | get after set gives the value mod 4096, and every other entry is unchanged although neighbours share a byte |
| FatTable.PutRefinesUpdate | fat12.c:277-288 | the packed table refines an array of values; a write past the last covered entry changes none |
| FatTable.EntriesDetermineBytes | fat12.c:1047-1087 | equal entries and equal spare bits mean equal bytes, so restored entries are a restored table |
| FatTable.Table.FreeChain | fat12.c:305-312 | ends on every FAT, cyclic or out of range included, and computes `Freed` |
| FatTable.FreeStepDecreases | fat12.c:307-311 | every step leaves fewer entries in use: the measure that makes it end |
| FatTable.FreedOnChain | fat12.c:305-312 | on a chain exactly its clusters become free and no other bit changes |
| Space.FreeCountUpdate | fat12.c:277-288 | setting one entry changes the number of free clusters by exactly what it takes or frees |
| Space.FreeCountIsSize | fat12.c:290-303 | that number is the size of the set of free clusters |
| Space.NeededIsCeiling | fat12.c:1047-1076 | the allocation loop takes ceil(size / cluster size) clusters |
| Walks.StopKeepsEnds | fat12.c:290-312 | marking a cluster free or end-of-chain keeps every walk through the table finite, on damaged tables too |
| Walks.AppendKeepsEnds | fat12.c:1059-1061 | so does linking a cluster that is then marked as the end |
| Walks.FreeKeepsEnds | fat12.c:305-312 | and so does freeing from any cluster on |
| Walks.PartitionEnds | fat12.c:305-312 | in a file system every walk ends, if the table entries behind its last cluster lead nowhere |
| Walks.EndsUnlessTrapped | fat12.c:448-501 | a walk goes on for ever if and only if its first cluster lies in a set of links that only lead into the set |
| Walks.WhereWalksStop | fat12.c:305-312 | walks end at 0xFF8 and above and at 0 and 1; 0xFF7 is followed |
| Chains.ChainsAreDisjoint | fat12.c:290-312 | no cluster lies twice on a chain or on two chains |
| Chains.ChainIsUnique | fat12.c:305-312 | a first cluster determines its chain |
| Chains.AllocateKeepsPartition | fat12.c:290-303 | a free cluster marked end-of-chain is a new chain of its own; the partition into chains is kept |
| Chains.LinkKeepsPartition | fat12.c:1056-1061 | linking a one-cluster chain to the end of a chain keeps the partition |
| Chains.FreeKeepsPartition | fat12.c:305-312 | freeing the clusters of one chain keeps the partition of the others |
| EntrySteps.FileChainIsCeiling | fat12.c:1047-1076 | in every well-formed volume the chain of every file has exactly ceil(size / cluster size) clusters, none for an empty file |
| Contents.ChainBytesPatch | fat12.c:503-525 | patching one cluster of a chain patches the bytes of the chain at the matching place |
| Geometry.ParsePacked | fat12.c:27-42 | a boot sector laid out field by field like the packed structure is read as these parameters, whatever else it holds |
| Geometry.AcceptedExactly | fat12.c:607-649 | exactly which boot sectors are accepted, and where their regions start, in exact arithmetic; the 32-bit computation agrees |
| Geometry.AcceptedIsSound | fat12.c:607-649 | every accepted boot sector has a sound layout in exact arithmetic; the bound of 4084 also refuses a wrapped 32-bit subtraction |
| Geometry.DataSectorsDoNotWrap | fat12.c:640-647 | the count of data sectors is the true difference whenever the cluster count is accepted |
| Geometry.RegionsAreDisjoint | fat12.c:245-251 | reserved area, FAT copies, root and clusters of every accepted volume follow each other without overlap inside the volume, and all table and root indices are in bounds |
| Geometry.OddLayoutsAreAccepted | fat12.c:607-649 | boot sectors without a FAT copy and boot sectors without a reserved sector are among the accepted ones |
| Geometry.ClustersFollow | fat12.c:245-251 | the clusters follow each other without gaps from the start of the data on, and these are their bytes on the disk |
| Geometry.RegionBytes | fat12.c:651-672 | the bytes on the disk of every FAT copy and of the root directory |
| Geometry.ClusterInsideVolume | fat12.c:245-251 | the sectors of a cluster lie behind the root and inside the volume |
| Geometry.ClustersDisjoint | fat12.c:245-251 | different clusters have disjoint sectors |
| Geometry.OtherClustersFrame | fat12.c:258-261 | writing a cluster leaves all others as they are |
| Geometry.SystemAreaFrame | fat12.c:258-261 | and the boot sector, FAT copies and root directory as well |
| Directories.MakeEntry | fat12.c:366-379 | the four fields read back as filled in |
| Directories.EntryBytes | fat12.c:13-25 | where the fields of an entry lie, byte by byte, low bytes first |
| Directories.SlotIsRead | fat12.c:13-25 | every slot is read in these places; bit 4 of the attributes marks a directory, a first byte of 0 or 0xE5 a free slot |
| Directories.StoreIsMapUpdate | fat12.c:982-998 | insert-or-replace keeps the directory well formed and is map update at that name |
| Directories.EraseIsMapRemoval | fat12.c:1000-1012 | marking an entry deleted is map removal |
| Directories.GrowKeepsDirectory | fat12.c:565-580 | never-used slots appended to a directory change no lookup |
| Directories.ScanIsComplete | fat12.c:445-501 | a scan that stopped at the first never-used slot has seen every entry |
| Directories.DirMap | fat12.c:445-501 | the slots as a finite map from 11-byte names to entries |
| Directories.ListingIsMap | fat12.c:388-443 | a listing shows exactly the map without volume labels and dot entries |
| Directories.ListingIsUnique | fat12.c:388-443 | no name is listed twice |
| Volumes.WellFormedFrame | fat12.c:290-312 | the file system only depends on what its directories and file chains show |
| Volumes.AllocateStep | fat12.c:290-303 | allocation keeps the volume well formed, with one more loose chain, and no file changes |
| Volumes.LinkStep | fat12.c:1056-1061 | so does linking |
| Volumes.FreeStep | fat12.c:305-312 | so does freeing a loose chain |
| Volumes.ScratchStep | fat12.c:1062-1073 | bytes of clusters that no entry leads to can change freely |
| EntrySteps.StoredChangesSlot | fat12.c:503-525 | writing an entry changes that slot of that directory and nothing else, also inside a long chain |
| EntrySteps.StoreChangesEntry | fat12.c:503-525 | so exactly one name of one directory has a new entry |
| EntrySteps.FileEntryStep | fat12.c:1078-1091 | replacing, adding or removing a file entry keeps the volume well formed; the chain it led to becomes loose |
| EntrySteps.FileEntryEffect | fat12.c:1078-1091 | that name has the new content, every other file and every directory is as it was |
| EntrySteps.FolderEntryStep | fat12.c:1139-1146 | a new directory joins the tree below its parent |
| EntrySteps.FolderEntryEffect | fat12.c:1139-1146 | no file changes and exactly one directory is added |
| EntrySteps.FolderBytesFresh | fat12.c:1123-1137 | a new directory holds nothing but `.`, which leads to itself, and `..`, which leads to its parent |
| EntrySteps.GrowStep | fat12.c:565-580 | a directory that grows by a zeroed cluster stays well formed and shows the same entries |
| EntrySteps.ProgressContinues | fat12.c:1047-1076 | each round of the allocation loop extends the written prefix of the file by one chunk |
| EntrySteps.GivingBack | fat12.c:1050-1086 | freeing what was taken gives the table as it was before |
| EntrySteps.DeletionEffect | fat12.c:1174-1181 | freeing the chain and then marking the entry removes the file and changes nothing else |
| EntrySteps.ScarSpares | fat12.c:503-525 | a failed write to a directory cluster leaves every file and folder of all other directories as it was |
| EntrySteps.EntryChangeSpares | fat12.c:982-998 | so does a changed entry |
| Costs.SpoiledDirectory | fat12.c:503-525 | zeros over the start of the cluster that holds an entry lose it, or leave live slots behind never-used ones |
| Costs.GarbledDirectory | fat12.c:503-525 | and some bytes over it leave live slots behind a never-used one, whatever the cluster held |
| EntrySteps.DanglingForEveryTree | fat12.c:1174-1181 | a directory with a live file entry that leads to a free cluster belongs to no well-formed volume, whatever tree one tries |
| Outcomes.OutcomesTell | fat12.c:1014-1185 | the determined results of writing, making a directory and deleting, in terms of the files and folders there, the free clusters and whether every slot of the directory is taken |
| Outcomes.UndeletedHere | fat12.c:1174-1181 | after a failed mark the clusters of the file are free; if the mark never reached the disk the old entry is still there and the volume is no file system for any tree; other directories are unaffected either way |
| Outcomes.FolderOverwrites | fat12.c:1111-1146 | what is left when a taken name was overwritten: the new entry alone differs, the clusters of the old file stay taken without an owner, other directories are unaffected |
| Outcomes.GarbledForEveryTree | fat12.c:503-525 | a volume whose directory at cluster d has live slots behind a never-used one is no file system, whatever tree one tries |
| Outcomes.UnharmedIsSame | fat12.c:503-525 | a failed write to a directory that left its slots as they were has changed nothing on the volume |
| Fat12.ScanFor | fat12.c:465-495 | the slot scan finds the entry, or tells truly that it ended before it |
| Fat12.FileSystem.ReadCluster | fat12.c:253-256 | reads the cluster that the volume view shows |
| Fat12.FileSystem.WriteCluster | fat12.c:258-261 | writes that cluster only; caches stay in step with the disk |
| Fat12.FileSystem.SetEntry | fat12.c:277-288 | the volume view changes at one table entry |
| Fat12.FileSystem.ClaimCluster | fat12.c:293-300 | a failing zeroing write takes the mark back: the table is byte for byte as before |
| Fat12.FileSystem.AllocateCluster | fat12.c:290-303 | a free, zeroed cluster joins as a loose chain, or the table is untouched; on a working disk it fails exactly when no cluster is free |
| Fat12.FileSystem.LinkCluster | fat12.c:1059-1061 | the new cluster ends the chain it is appended to; on any table every walk still ends |
| Fat12.FileSystem.FreeLoose | fat12.c:1083-1086 | a loose chain is given back and no file changes |
| Fat12.FileSystem.FindEntry | fat12.c:445-501 | finds the entry of that name and its place, or there is none; a search of the root does no I/O, and one of a subdirectory reads exactly the clusters up to the entry |
| Fat12.FileSystem.WriteEntry | fat12.c:503-525 | stores the entry at its place; in the root only the cache is dirty, a failed cluster write is reported, and a failed read leaves the volume alone |
| Fat12.FileSystem.GrowDirectory | fat12.c:565-580 | a full directory gets one zeroed cluster and shows the same entries; on a working disk it fails exactly when no cluster is free |
| Fat12.FileSystem.FindFreeEntry | fat12.c:527-581 | the first free slot, growing the directory by a zeroed cluster when it is full; "directory full" means the root with every slot live, "no free cluster" a full subdirectory and, on a working disk, no free cluster |
| Fat12.FileSystem.WriteDirectoryEntry | fat12.c:982-998 | insert or replace under that name, with the exact causes of a full directory or disk; a failed write touches clusters of this directory only |
| Fat12.FileSystem.MarkEntryDeleted | fat12.c:1000-1012 | removes that name; in the root it cannot fail; a failure before the write leaves the volume alone, one during it touches clusters of this directory only |
| Fat12.FileSystem.StoreData | fat12.c:1043-1076 | the data ends up in a new chain of the right length, or table and files are as before; on a working disk it runs out of clusters exactly when fewer are free than the file takes |
| Fat12.FileSystem.Abandon | fat12.c:1083-1086 | gives the new chain back; the table is byte for byte what it was |
| Fat12.FileSystem.StoreChunk | fat12.c:1047-1076 | one round of the loop: a cluster with the next chunk joins the chain, or the chain is still as it was |
| Fat12.FileSystem.WriteFileAt | fat12.c:1014-1096 | OK: this name has exactly the data and every other file and directory is unchanged, directory growth included; name of a folder, disk full or directory full: table and root bytes and all files are what they were. As long as no command of the call fails the result is exactly `WriteOutcome`, which depends on the name, the free clusters, the size and whether the directory is full. Some disk makes the call damage the volume if and only if the directory is not the root and `WriteOutcome` is OK; copies of the table that agreed still do |
| Fat12.FileSystem.StoreAndPublish | fat12.c:1043-1096 | the same for the part behind the lookup |
| Fat12.FileSystem.PublishFile | fat12.c:1078-1096 | entry first, then the old chain; a failed entry gives the new chain back byte for byte; a failed write that left the slots of the directory as they were leaves every file as it was |
| Fat12.FileSystem.ReadFileAt | fat12.c:930-980 | OK gives exactly the content of the file; each error code has its exact cause; bytes behind the file are untouched. On a damaged volume it still ends and changes nothing |
| Fat12.FileSystem.CopyChain | fat12.c:958-979 | copies the bytes of the chain up to the size; it also succeeds on a chain that is too short, leaving the rest of the buffer alone. It ends on every table, also where links go in circles |
| Fat12.FileSystem.DeleteFileAt | fat12.c:1153-1185 | OK removes this file and nothing else, and every result but an I/O error has its exact cause. It is atomic on every disk if and only if the directory is the root: there it never fails half way; elsewhere one outage after the lookup leaves a live entry that leads to free clusters, and another, for any file, loses the entry. What is left then is `Undeleted`; copies of the table that agreed still do |
| Fat12.FileSystem.FreeAndMark | fat12.c:1174-1184 | the part behind the lookup: what a disk failure before and during the mark leaves |
| Fat12.FileSystem.CreateDirectoryAt | fat12.c:1098-1151 | OK adds an empty directory and changes no file; as long as no command of the call fails the result is exactly `MakeOutcome`. In the root it never damages anything; in a subdirectory some disk makes it overwrite a taken name if and only if a cluster is free (what is left then is `Overwritten`), and some disk makes it damage the volume under a new name if and only if `MakeOutcome` is OK |
| Fat12.FileSystem.MakeFolder | fat12.c:1116-1151 | the part behind the lookup, whatever that has reported |
| Fat12.FileSystem.IterateDirectory | fat12.c:388-443 | shows exactly the listing of the directory, up to the entry after which the callback ends it. On a whole volume every item tells the truth: its name, and the size and chain of that file, or the first cluster of that subdirectory; different items stand for different names; and if the callback did not end it, the names are those of all subdirectories and of all files but volume labels. On a damaged volume it still ends and changes nothing |
| Listings.ShownTells | fat12.c:381-386 | the same about the items that a listing shows |
| Listings.ShownNameEncodes | fat12.c:152-242 | and the name that an item shows leads to it again |
| Listings.ListSlots | fat12.c:388-443 | the scan of one buffer: free slots, labels and dot entries are passed over, a never-used slot or the callback ends it |
| Listings.ListingEnds | fat12.c:388-443 | a scan that was ended early has shown a prefix, and one that met a never-used slot has shown everything |
| Fat12.FileSystem.FlushRoot | fat12.c:314-326 | success makes the on-disk root equal to the cache; agreement holds also after a failure half way |
| Fat12.FileSystem.FlushFats | fat12.c:328-343 | success with a dirty table makes every FAT copy equal to it, also copies that did not agree before; agreement holds also after a failure half way |
| Fat12.FileSystem.FlushQuietly | fat12.c:1093-1095 | the flush whose result is ignored: whatever it returned, a clean flag means agreement, and copies that agreed with each other still do |
| Fat12.FileSystem.Flush | fat12.c:1187-1196 | after success both caches are clean and in step with the disk, a table that was dirty in every copy, and the volume is the same |
| Fat12.FileSystem.Init | fat12.c:607-683 | result and layout are what the bytes of the boot sector say (`ParsePacked`, `AcceptedExactly`); after OK the caches are clean and show what is on the disk, and `mirrored` says whether all FAT copies are equal |
| Fat12.TopIs | fat12.c:290-303 | the clusters that the driver gives away: those inside the volume whose entry lies in the FAT |
| Fat12.FileSystem.CleanView | fat12.c:657-683 | clean caches show the volume that is on the disk |
| Fat12.FileSystem.WholeIsSturdy | fat12.c:263-275 | such a file system, mounted where every 12-bit cluster number can be addressed, is fit for runs that go on after damage |
| Paths.ComponentsJoin | fat12.c:583-603 | joining two paths with a separator joins their components |
| Paths.WalkJoin | fat12.c:774-840 | a walk over a concatenation is a walk after a walk, failures included |
| Paths.ChangeDirectoryComposes | fat12.c:774-840 | changing to p and then to a relative q reaches what p/q reaches: cluster, stack and names, and the same error |
| Paths.ResolveReachesParent | fat12.c:846-928 | p/name resolves to that name in the directory that changing to p reaches; it does not resolve exactly if changing to p fails, with the same code, or the name is a dot name or no 8.3 name |
| Paths.StepKeepsPosition | fat12.c:790-830 | every step keeps each stack entry the directory that its name names in its predecessor, up to 16 levels |
| Paths.WalkKeepsPosition | fat12.c:774-840 | so does every walk |
| Paths.PositionSurvives | fat12.c:1014-1185 | file operations never leave the stack dangling |
| Paths.ResolveSurvives | fat12.c:846-928 | and a path goes on naming the same file |
| Paths.CwdRoundTrip | fat12.c:126-150 | changing to the displayed directory is the identity if and only if no name was dropped and the position is the top of the stack |
| Paths.NameLeadsTo | fat12.c:790-830 | a single name leads into the folder of that name, or is refused with a code that tells an unusable name, a missing one and a file apart |
| Paths.DotDotComesBack | fat12.c:790-830 | `name/..` comes back to where it started if and only if there are fewer than 16 levels; with 16 it ends in the parent of the last directory that the stack holds |
| Paths.DotDotAndBack | fat12.c:790-830 | `..` and then the name that was left comes back as well |
| Paths.DotStays | fat12.c:774-840 | `.` and the empty path stay, `..` in the root and `/` are the root |
| Paths.SeparatorsAgree | fat12.c:583-603 | a backslash separates like a slash |
| Paths.ExtendComponents | fat12.c:134-148 | the text splits into the names that were kept, all of them exactly when they fit |
| Paths.CwdIsPath | fat12.c:126-150 | names that fit are shown with a slash in front of each |
| Driver.PathNext | fat12.c:583-603 | yields the first component and leaves the others |
| Driver.Fat12Driver.WalkStep | fat12.c:790-830 | one component, with the error code of the specification; what `..`, `.` and names do is stated by the lemmas of `Paths` |
| Driver.Fat12Driver.ChangeDirectoryTo | fat12.c:774-840 | moves where `ChangeDirectory` says, or stays and reports why |
| Driver.Fat12Driver.LocateDirectory | fat12.c:692-756 | reaches the same cluster as change_directory; on a damaged volume it still ends and changes nothing |
| Driver.Fat12Driver.ResolveParentAndName | fat12.c:846-928 | the parent cluster and name that `Resolve` gives, or its error |
| Driver.Fat12Driver.RebuildCwd | fat12.c:126-150 | the text of the current directory; the 128-byte buffer is never overrun |
| Driver.Fat12Driver.IteratePath | fat12.c:758-772 | shows the listing of the directory that the path leads to, up to where the callback ends it; on a whole volume its items tell the truth and nothing is missing; on a damaged one it still ends and changes nothing |
| Driver.Fat12Driver.ReadFile | fat12.c:930-980 | returns exactly the content of the file that the path names; the current directory stays valid; on a damaged volume it still ends and changes nothing |
| Driver.Fat12Driver.WriteFile | fat12.c:1014-1096 | the write contract for exactly the file that the path names; its result is the one of the path, or the one of the write with its cause, and it is determined as long as no command of the call fails; the current directory stays valid; FAT copies that agreed still do |
| Driver.Fat12Driver.CreateDirectory | fat12.c:1098-1151 | the same for a new directory |
| Driver.Fat12Driver.DeleteFile | fat12.c:1153-1185 | the same for a deletion; unless the disk fails the result is determined |
| Runs.Execute | fat12.c:1014-1196 | one command does what its result says to exactly the file, folder or current directory that its path names in the state before it; or it is one that can damage a subdirectory, and then that directory alone is affected and `Breaks` says how. As long as no disk command fails during it its result is determined. On a damaged volume it still keeps caches and disk in agreement, in every FAT copy if they agreed before |
| Runs.Run | fat12.c:1014-1196 | over any run, with failing commands in between: each command did to the state before it what its result says, and gave the determined result if the disk did not fail during it; no cluster leaks or is shared as long as no command has damaged the volume; what the first such command leaves is `after`, with every other directory as it was. Whatever happened, caches and disk agree at the end, and with FAT copies that were equal at the start a clear dirty flag means that every copy equals the table |
| Runs.HistoryTells | fat12.c:1014-1196 | after any run every file is what the last successful command whose path named it made of it, and the folders are those there were and those that were made |
| Runs.RootRunsStayWhole | fat12.c:1014-1196 | commands that only name entries of the root can damage nothing, whatever the disk does |
| Remounts.Remount | fat12.c:607-683 | mounting again after a flush gives the same volume if and only if the boot sector still describes it and, without FAT copies, the sectors read in their place hold the table |
| Remounts.RegularIsRemountable | fat12.c:607-649 | with a FAT copy and a reserved sector that is always so |
| Remounts.FlushAndRemount | fat12.c:607-683 | a successful flush and a fresh mount rebuild the same volume, with FAT copies that agree if they agreed before |
| Remounts.FlushLosesBootSector | fat12.c:328-343 | without reserved sectors a successful flush of a table whose cluster 7 is taken makes the volume unmountable |
| Remounts.MountAllocateFlush | fat12.c:607-683 | such volumes are reached: with a name of seven characters in the boot sector, a mount, one allocation and a flush on a working disk end there |
| Remounts.SevenLettersExist | fat12.c:607-649 | and there are such boot sectors |
| Remounts.SeventhEntryAtMount | fat12.c:607-649 | at the time of such a mount cluster 7 is not taken, since the boot sector holds its 512 there |
| Remounts.TableLost | fat12.c:657-683 | without FAT copies the root directory is read as the table: a fourth character in the first name makes a free cluster 2 look taken |
| NanoText.InsertIsInsertion | shell/nano.c:328-353 | a typed character is an insertion at the cursor offset of the flat text; in a full line the last character of the line is dropped; at the end of a full line nothing happens |
| NanoText.BackspaceIsRemoval | shell/nano.c:355-391 | removal of the character before the cursor, unless at the start or where the joined line would be too long |
| NanoText.DeleteIsRemoval | shell/nano.c:512-542 | removal of the character at the cursor, unless at the end or where the joined line would be too long |
| NanoText.EnterIsInsertion | shell/nano.c:393-419 | insertion of a newline, unless there are 1000 lines |
| NanoText.BackspaceUndoesInsert | shell/nano.c:328-391 | backspace undoes a typed character if and only if the line had room |
| NanoText.BackspaceUndoesEnter | shell/nano.c:355-419 | backspace undoes enter, with the exact condition |
| NanoText.FlatDetermines | shell/nano.c:42-74 | flat text and offset determine lines and cursor |
| NanoText.LoadMeaning | shell/nano.c:42-74 | what any file loads as: its first 1000 lines without carriage returns, cut to 199 characters, a rest only if something is left of it |
| NanoText.LoadedAreLines | shell/nano.c:50-67 | whatever the file holds, the buffer holds at most 1000 lines of at most 199 characters |
| NanoText.ParsesToNothing | shell/nano.c:46-69 | a file loads as zero lines if and only if it holds only carriage returns |
| NanoText.Serialise | shell/nano.c:456-465 | never more than 16383 bytes, so that the size limit never refuses it on reopening |
| NanoText.SaveThenLoad | shell/nano.c:42-74 | save then load is the identity on the lines if and only if they fit into 16383 bytes |
| NanoText.TypedNulFree | shell/nano.c:311-321 | no key brings a NUL into the text |
| NanoText.EditingKeys | shell/nano.c:265-280 | by their scan codes: Backspace, Enter and Delete remove or insert at the cursor of the flat text, with the exact cases in which they do nothing |
| NanoText.TypingKeys | shell/nano.c:311-321 | a printable character is inserted, the tabulator as four blanks, and no other key changes anything |
| NanoText.CursorKeys | shell/nano.c:281-310 | the keys that move the cursor, by their scan codes, and where it goes |
| NanoText.SavedBytes | shell/nano.c:456-465 | the bytes that are saved: every line with a newline, cut to 16382 bytes and a newline |
| Nano.CopyIsExact | lib/string.c:22-27 | strcpy moves a line intact if and only if what lies behind its first NUL was there already |
| Nano.LineBuffer.CopyLine | shell/nano.c:381-382 | length and characters of a row move to another row; all other rows stay |
| Nano.LineBuffer.ShiftUp | shell/nano.c:380-383 | the lines behind a removed one move up |
| Nano.LineBuffer.ShiftDown | shell/nano.c:400-403 | the lines behind a new one move down |
| Nano.LineBuffer.MoveTail | shell/nano.c:405-410 | the characters from a column on move to another row |
| Nano.LineBuffer.InsertInRow | shell/nano.c:338-349 | the shifting loop inserts the character and drops the last one of a full row |
| Nano.LineBuffer.RemoveFromRow | shell/nano.c:361-367 | the shifting loop removes one character |
| Nano.LineBuffer.InsertChar | shell/nano.c:328-353 | the row array refines `InsertChar` of the text; behind the last line it marks the text as edited and changes no line |
| Nano.LineBuffer.Backspace | shell/nano.c:355-391 | the row array refines `Backspace`, as long as the lines that move hold no NUL |
| Nano.LineBuffer.Delete | shell/nano.c:512-542 | the row array refines `Delete`; `dirty` stays clear only if nothing changed |
| Nano.LineBuffer.Enter | shell/nano.c:393-419 | the row array refines `Enter` |
| Nano.LineBuffer.MoveCursor | shell/nano.c:421-435 | clamps line first and column second; the cursor stays inside the text |
| Nano.LineBuffer.PageScroll | shell/nano.c:554-576 | moves by 22 lines inside the text |
| Nano.LineBuffer.Type | shell/nano.c:265-323 | every editing key has its effect on the text and no other; without lines a character only marks the text as edited |
| Nano.LineBuffer.Load | shell/nano.c:42-69 | the loading loop computes `Parse` of the bytes read |
| Nano.LineBuffer.Serialise | shell/nano.c:456-465 | the saving loops compute `Serialise` of the lines |
| NanoEditor.Editor.Open | shell/nano.c:25-78 | shows the file if it can be read and is neither empty nor too large, else one empty clean line; there is no line at all exactly for a file of carriage returns only |
| NanoEditor.Editor.WriteOut | shell/nano.c:466-472 | the file has the written bytes or, while the volume is whole, is as it was; no other file changes, and on a working disk the result is determined |
| NanoEditor.Editor.Save | shell/nano.c:451-473 | success writes the text into the file; a failure keeps the edits marked as unsaved and the file as it was; no other file changes; on a working disk the outcome is determined |
| NanoEditor.Editor.Exit | shell/nano.c:475-510 | closing with the wish to save only succeeds with the text saved; giving up the edits leaves the volume alone |
| NanoEditor.Editor.HandleKey | shell/nano.c:198-326 | edits are given up only by Esc or by n at the question, which leaves the volume alone; y at the question closes the editor exactly if the text could be saved; edits that count as saved are in the file; help, question and text change exactly as the key says; no other file changes |
| NanoEditor.Editor.Answer | shell/nano.c:208-231 | the three answers to the question whether to save: y saves and closes exactly if the file could be written, which is determined unless the disk fails; n and Esc close without saving; other keys do nothing |
| NanoEditor.Editor.Obey | shell/nano.c:237-263 | the Ctrl commands; Ctrl+X with unsaved edits asks and stays open |
| NanoEditor.Editor.Session | shell/nano.c:198-326 | over every key sequence, failed saves included: while open, a clean text is in step with the volume; when closed, everything is saved, or the last key was Esc or was n to the question; no other file ever changes; and the text is that of typing exactly the keys which the help page and the question let through, provided that it had a line and no NUL at the start |
| NanoEditor.QuestionWasAsked | shell/nano.c:208-263 | the question is up only after a Ctrl+X on a text with unsaved edits |
| NanoEditor.Editor.SaveAndClose | shell/nano.c:218-250 | Ctrl+X and y: the text is in the file and the editor is closed |
| NanoEditor.KeyCodes | shell/nano.c:206-262 | which key codes reach the text, give the edits up and ask for saving |
| NanoEditor.Editor.LosesTyping | shell/nano.c:42-69 | how typing is lost without such a key: in a file of carriage returns only a typed character is in no line, Ctrl+S writes an empty file and Ctrl+X closes |
| NanoEditor.Editor.CleanMeansSaved | shell/nano.c:451-473 | a clean text that was read or saved is what reopening the file shows, except when it was too long to be written in full |
| NanoEditor.Editor.Reopen | shell/nano.c:25-78 | opening the file again through the file system shows the same lines |
| SeedVolume.SeedBytesParse | boot.asm:11-22 | the bytes of boot.asm are read as the parameters of the builder |
| SeedVolume.SeedIsAccepted | boot.asm:11-22 | the boot sector with these parameters is accepted by the kernel with exactly the layout constants of the builder |
| SeedVolume.RunKeepsPartition | scripts/build_fat12_image.py:76-94 | consecutive free clusters linked by the allocator are one chain; the partition is kept |
| SeedVolume.RunStep | scripts/build_fat12_image.py:76-94 | and the volume stays well formed, with one more loose chain |
| SeedVolume.RunHoldsFile | scripts/build_fat12_image.py:65-73 | the chunks, cluster by cluster, are the file with zeros behind it |
| SeedVolume.RootFileStep | scripts/build_fat12_image.py:135-153 | a file joins the root directory |
| SeedVolume.DocsStep | scripts/build_fat12_image.py:155-166 | the finished directory cluster and one root entry add a directory with one file |
| ImageBuilder.ToShortNameAgrees | scripts/build_fat12_image.py:24-30 | the builder writes the same eleven bytes as the kernel on every name that the kernel accepts |
| ImageBuilder.BuildDirEntry | scripts/build_fat12_image.py:44-51 | lays out the same 32 bytes as the kernel |
| ImageBuilder.Builder.SetFatEntry | scripts/build_fat12_image.py:33-41 | writes the same bytes as the kernel: one entry of the table is set, and the bytes hold the entries as `Packed` says |
| ImageBuilder.Builder.Allocate | scripts/build_fat12_image.py:76-94 | the next clusters as one chain; fails exactly if they run past the last cluster |
| ImageBuilder.Builder.WriteCluster | scripts/build_fat12_image.py:54-62 | that cluster holds the data and zeros; nothing else changes |
| ImageBuilder.Builder.WriteFile | scripts/build_fat12_image.py:65-73 | a new chain holds the file; fails exactly if it does not fit; no other file changes |
| ImageBuilder.Builder.AddRootEntry | scripts/build_fat12_image.py:135-142 | the next root slot holds the entry, for any name whose first byte does not mark a free slot; fails exactly if the root is full |
| ImageBuilder.Builder.AddFile | scripts/build_fat12_image.py:148-153 | the file is in the root directory and nothing else has changed |
| ImageBuilder.Builder.AddFiles | scripts/build_fat12_image.py:144-153 | the same for any list of files with different names |
| ImageBuilder.Builder.AddDocs | scripts/build_fat12_image.py:155-166 | the root has DOCS with INFO.TXT in it, and nothing else has changed |
| ImageBuilder.Builder.PlaceBoot | scripts/build_fat12_image.py:101-123 | boot sector, stage 2 and kernel are at their places in the reserved area and no cluster changes; refused exactly under the stated size limits |
| ImageBuilder.Builder.Assemble | scripts/build_fat12_image.py:168-177 | both FAT copies and the root directory are in the image; every cluster is as it was |
| ImageBuilder.Builder.AssembledIsFinished | scripts/build_fat12_image.py:168-177 | the image is a disk that the kernel accepts, with equal FAT copies and a well-formed volume |
| ImageBuilder.Builder.Build | scripts/build_fat12_image.py:97-177 | for any boot sector and any files: it succeeds exactly if everything fits, and then boot sector and kernel are in place and the volume is well formed and holds these files and no others; with the bytes of boot.asm the kernel accepts it |
| ImageBuilder.ScriptFilesAreOk | scripts/build_fat12_image.py:144-153 | the two files of the script satisfy the condition on names |
| SeedMount.MountSeed | fat12.c:607-683 | the kernel mounts the finished image as the volume that the builder made |
| SeedMount.ReadBack | fat12.c:930-980 | reading a file by name on the mounted image gives the bytes that the builder was given |

## Left out

- HandleKey: gives no meaning to the keys for which the C code reads or writes outside its arrays (`Defined`); the session ends before them.
- Run: goes on after damage only where every 12-bit cluster number can be addressed with 28 bits and no walk through the table goes in circles; beyond that the C code wraps around (`SplitAddress`) or never leaves its loop (`EndsUnlessTrapped`).
- Session: ends when a save has damaged the volume, and does not tell the text that was made of lines with NUL characters, since moving such lines loses bytes (`CopyIsExact`).
- MoveCursor: requires a line, since without one the C code indexes its arrays with -1.
- AddFile: takes names that the kernel can look up and that are not there yet; the script checks neither.
- AddFiles: the same for a list of names.
- Init: says nothing of the geometry after a failed mount; over an earlier one the C code then mixes the fields of both boot sectors.
- FlushAndRemount: requires a FAT copy and a reserved sector; `Remount` covers the other layouts.
- Build: names are ones that the kernel can look up and differ from each other, as those in the script do; the script itself checks neither.
- ReadFile: the buffer is not one of the driver's own.
- IterateDirectory: the callback is a function of the entries it has been shown; what else it does is not modelled.
- ReadFileAt: on a damaged volume it does not say what is read.
- Enter: requires that the new line lies inside the arrays, which the C code does not check behind 999 lines.
- Type: gives no meaning to the keys for which the C code leaves its arrays.
- AddRootEntry: takes names whose first byte does not mark a free slot; the script does not check it.
- Port I/O, status polling, time-outs and statistics of the ATA driver: a command succeeds or fails as a whole, after any number of sectors.
- The 16-entry path stack, its names and the text of the current directory are sequences in fields, not fixed arrays; their bounds are proved.
- Null pointers passed as buffers or paths.
- Time stamps, long file names, attributes beyond directory, archive and volume label, and the second FAT buffer, which is read at mount and never used.
- Crash consistency: directory clusters reach the disk before the table is flushed, so the code does not provide it.
- Rendering, status messages, themes, the help text and the viewport of the editor.
- The keyboard driver: scan codes, the Ctrl key and the translated character are parameters.
- Reading the builder's input files, its command line and the output file.
- The bit masks of the two FAT encoders are written as division and remainder.
- The shell, PCI, AHCI and NVMe code, the boot loaders and the kernel's start-up.
