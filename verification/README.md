# Wayback and CopyFS

Two versioning file systems, modelled with the files their undo and version data are kept in.

**Wayback** appends an undo record to a log beside each file before it writes, truncates or removes it, and an
entry to a catalogue beside each directory when a name in it changes. A separate program reads these logs and
replays them backwards. The model has the log and catalogue as bytes, the loops that write them, the loops that
read them, and the replay; the theorems say what comes back, for every run.

**CopyFS** keeps a list of versions per virtual file, each with a real file of its own, in small text files. A file
shows its newest version or the one it is pinned to. Blocks that have been read are kept in a hash table of linked
lists, and path translation starts from the longest path found there. The model has the list and its text, one file
as a state machine over the callbacks, the heap of the table, and the translation; the theorems say which version is
found, that real files are never shared by accident, that the cached translation is the uncached one, and that a
restored tag shows what was tagged.

## Modules

| file | what it holds |
|---|---|
| `Bytes`, `Text`, `Helper` | words, files as byte sequences, digits, splitting and joining, lines |
| `VersionLog`, `UndoLog`, `Wayback` | the per-file log, what undoing it gives, the callbacks and the replay |
| `DeletedNames`, `Catalogue`, `DirectoryUndo`, `WaybackDirectory` | the same for directories |
| `Versions`, `MetadataFile`, `VersionStore`, `VirtualFile` | the version list, its text, one file as a state machine, the code that takes its steps |
| `TagRestore`, `TagFile`, `TagTree` | tagging and restoring one file, the tag file, and a tree of files |
| `CacheHeap`, `PathWalk`, `FileSteps`, `Saving`, `Translation` | the linked lists, what a path means, what a change to one file leaves alone, what is on disk, the cached walk |

Steps the C and Perl code takes in place are methods on classes, proved against the functions of the same concept
(`Step`, `Undo`, `Walk`, `Parse`); the theorems are about those functions and carry over through the methods'
contracts. System calls that can fail or do part of their work appear as choices: the length of a read, the part of a
write that is stored, the result of a copy.

## Where the code does something else than it says

- `revertdirentry` tests `mode & 0120000 == 0120000`. `==` binds tighter, so the test is the lowest mode bit: removed
  files that anyone may execute are taken for links and not restored (`DirectoryUndo.ExecutableIsLost`).
- The undo of a record that reached the end of the file truncates at the low offset word plus the size
  (`UndoLog.RecoverableExactly`; ten bytes grown to 2^32 + 5 come back as five, `UndoLog.GrownPastFourGigabytes`), and
  a write past the end leaves zeros behind (`UndoLog.UndoRunExactly`).
- A cache hit sets the old head's back link to NULL instead of to the new head, so a node can stop moving to the front
  although it is not first (`CacheHeap.Bucket.Get`).
- Changing the mode while pinned to an older subversion of the newest version breaks the order the lookup relies on
  (`VersionStore.LookupInPlainTerms` says when a version is missed, `VersionStore.ChmodWhilePinned` is an instance).
- The restoring script's pattern has an unescaped dot and digits that backtrack: a pin to any subversion and a path
  with a bar are misread. `TagRestore.TagReads` and `TagFile.BarCutsPath` say as what, `TagFile.TagFileReadBack` when
  a tag file is read back.
- An edit within the time limit of the last one, or after a copy that failed otherwise than at its first call, goes
  into the tagged version itself (`TagRestore.OneEditExactly`).
- A list that cannot be written has been emptied by then: memory is rolled back, but the old list is gone
  (`Saving.StepOnDisk`; `Saving.EmptiedListExample` is an instance, `Saving.CommitHeals` says what brings it back).
- The line reader looks for the newline in memory it never wrote: a line cut short may count as a version, with a name
  that is cut or lies there by chance (`MetadataFile.LastPartOf`, `Saving.CutListLoads`).
- A write that stops short while a version is copied is taken for success (`VersionStore.CopyExactly`).
- Creating a deleted file within the time limit of its last change reports success, leaves it deleted, and blocks every
  later creation (`VersionStore.RecreatedTooSoon`).
- Purging all versions leaves the pin file behind (`Saving.OldPinComesBack`).
- Purging a version unlinks its real file even if a kept subversion uses the same one
  (`VersionStore.PurgeKeepsFiles`).

## Model

| member | source | states |
|---|---|---|
| `VersionLog.ScanOldBytes` | fs/waybackfs/box/source/src/waybackfsvops.c:74-95 | for any short reads that make progress, the loop ends; it records min(request, bytes left) for a write and all bytes left (modulo 2^32) for a truncate, and flags every truncate and exactly the writes that pass the end |
| `VersionLog.CopyOldBytes` | fs/waybackfs/box/source/src/waybackfsvops.c:107-122 | the payload appended is exactly the old bytes of the recorded range, whatever the sizes of the reads |
| `VersionLog.UpdateVersion` | fs/waybackfs/box/source/src/waybackfsvops.c:72-122 | one call appends exactly one record to the log: 17 header bytes in the layout the reader expects, then the old bytes |
| `VersionLog.ReadFile` | fs/waybackfs/box/source/vutils.pl:396-409 | the reading loop returns what the recursive definition of the format says, a short header and a short last record included |
| `VersionLog.LogRoundTrip` | fs/waybackfs/box/source/vutils.pl:386-412 | reading the concatenated bytes of any complete records yields exactly those records |
| `VersionLog.RecordLayout` | fs/waybackfs/box/source/src/waybackfsvops.c:97-101 | the places of time, offset words, size, flag and data in the bytes of a record |
| `VersionLog.TornLog` | fs/waybackfs/box/source/vutils.pl:386-412 | of a log whose last record was written in part, at any byte, all records before it are read and at most one more, whose fields are stated, a byte read in place of a word that is cut included |
| `VersionLog.UndoRecord` | fs/waybackfs/box/source/src/waybackfsvops.c:74-122 | the record an operation must leave: its offset words give the offset back, its data are the bytes about to be destroyed |
| `UndoLog.UndoOne` | fs/waybackfs/box/source/src/wayback.c:508-517 | write-ahead safety: after any part of the operation, or none of it, undoing its record gives back the old content followed by zeros only, and the number of zeros is given |
| `UndoLog.RecoverableExactly` | fs/waybackfs/box/source/vutils.pl:322-324 | for every file, operation and number of zeros left behind the new content, the old content comes back (followed by zeros only) if and only if the stated condition on offset and length holds; it names the 32-bit size and the truncate at the low offset word |
| `UndoLog.GrownPastFourGigabytes` | fs/waybackfs/box/source/vutils.pl:322-324 | a failing input: ten bytes, grown to 2^32 + 5; the undo leaves five of them |
| `UndoLog.RunRecoverableExactly` | fs/waybackfs/box/source/vutils.pl:196-199 | every moment of a run comes back, followed by zeros only, if and only if every operation of the run is recoverable |
| `UndoLog.UndoTwice` | fs/waybackfs/box/source/vutils.pl:301-325 | applying a record again changes nothing |
| `UndoLog.UndoRunExactly` | fs/waybackfs/box/source/vutils.pl:196-199 | undoing a whole run is exact if and only if the oldest operation of the run that reached the end of the file did not start past it |
| `UndoLog.RevertRestoresAt` | fs/waybackfs/box/source/vutils.pl:196-199 | for every run and every moment of it, undoing the newest records, as many as were logged since, gives what the file held then, followed by the stated number of zeros, if the operations since then are recoverable, whatever came before; no zeros if and only if the condition of `UndoRunExactly` holds since then |
| `UndoLog.RevertRestores` | fs/waybackfs/box/source/vutils.pl:196-199 | for every run of writes, truncates, unlinks and creations and every k there is a moment since which exactly the newest k records were logged; undoing them gives its content, followed by the stated number of zeros, if the operations since that moment are recoverable |
| `UndoLog.OldLossIsNoObstacle` | fs/waybackfs/box/source/vutils.pl:196-199 | an operation that cannot be undone, and is older than those undone, does not stand in their way |
| `UndoLog.SinceDateExactly` | fs/waybackfs/box/source/vutils.pl:183-191 | the entries chosen for a date are exactly those not older than it, if and only if no older entry follows such an entry |
| `UndoLog.RevertToDateRestores` | fs/waybackfs/box/source/vutils.pl:183-199 | when the clock never went back, a date picks exactly the operations not older than it, and the content before the first of them comes back if they are recoverable |
| `UndoLog.UndoRun` | fs/waybackfs/box/source/vutils.pl:196-199 | undoing all records of any recoverable run gives the first content followed by the stated number of zeros |
| `Bytes.Le64IsTwoWords` | fs/waybackfs/box/source/vutils.pl:397-398 | the 8-byte offset as written is, byte for byte, the low and the high 32-bit word the reader unpacks |
| `Wayback.RevertFileEntry` | fs/waybackfs/box/source/vutils.pl:301-325 | seeking by words and writing in any number of pieces takes the same step as `Undo`; the file is created when it is absent |
| `Wayback.CountSince` | fs/waybackfs/box/source/vutils.pl:186-191 | the date loop computes the number of entries from the first one not older than the date |
| `Wayback.VersionedFile.VerWrite` | fs/waybackfs/box/source/src/wayback.c:495-524 | the log record precedes the write; then the file holds the part of the data that was stored at its offset, or is as it was if the call failed; file and log stay those of the history of operations |
| `Wayback.VersionedFile.VerTruncate` | fs/waybackfs/box/source/src/wayback.c:386-407 | the log record precedes the truncate; then the file is cut or extended with zeros, or as it was if the call failed; file and log stay those of the history |
| `Wayback.VersionedFile.VerUnlink` | fs/waybackfs/box/source/src/wayback.c:190-223 | the log record precedes the removal of a regular file; then there is no file, or it is as it was if the call failed; file and log stay those of the history |
| `Wayback.VersionedFile.VRevert` | fs/waybackfs/box/source/vutils.pl:180-200 | reads the log bytes back and undoes the newest entries, newest first: as many as the number asked for or as there are, all for 0, none for a negative number, and with a date, whatever the number, those from the first one not older than it; they are those logged since some moment, and what the file held then is left whenever the operations since then are recoverable |
| `Wayback.WriteData` | fs/waybackfs/box/source/vutils.pl:314-321 | writing the data in any number of pieces stores all of it at its offset |
| `Wayback.RevertCanBeReverted` | fs/waybackfs/box/source/vutils.pl:301-325 | reverting through the mount has the same effect, whatever writes each record's data is passed on in, and the log those writes leave undoes the revert |
| `Wayback.Replay` | fs/waybackfs/box/source/vutils.pl:196-199 | the loop by decreasing index undoes the newest entries, all of them when more are asked for |
| `Wayback.VersionedFile.VerMknod` | fs/waybackfs/box/source/src/wayback.c:130-151 | a file that is not there is made empty, an existing one is left alone, nothing is logged |
| `DeletedNames.DeletedPath` | fs/waybackfs/box/source/src/waybackfsvops.c:265-298 | with finitely many names taken the loop ends, with the bare name or the one with the least free number, in a buffer that always has room |
| `DeletedNames.MatchesDeleted` | fs/waybackfs/box/source/src/wayback.c:69-84 | looking at the last occurrence only decides whether some occurrence is followed by digits only |
| `DeletedNames.CandidateIsHidden` | fs/waybackfs/box/source/src/wayback.c:110-114 | every name the allocation can produce is hidden from listings |
| `DeletedNames.HiddenExactly` | fs/waybackfs/box/source/src/wayback.c:110-114 | a name is left out of listings if and only if it ends in the version modifier, or in the deleted modifier followed by digits or nothing without being that modifier alone |
| `DeletedNames.OrdinaryIsListed` | fs/waybackfs/box/source/src/wayback.c:110-114 | a name that neither contains the one modifier nor ends in the other is listed |
| `DeletedNames.OmitsName` | fs/waybackfs/box/source/src/wayback.c:110-114 | the test of the listing loop for one name |
| `DeletedNames.GetDir` | fs/waybackfs/box/source/src/wayback.c:106-124 | the listing hands on exactly the names that are not hidden, in order, until the receiver refuses one |
| `Catalogue.MakeRelative` | fs/waybackfs/box/source/src/waybackfsvops.c:164-174 | the walk from slash to slash ends at what follows the last slash |
| `Catalogue.GetDirectoryCatalog` | fs/waybackfs/box/source/src/waybackfsvops.c:129-146 | the catalogue lies beside the last component; a path without a slash before it has none |
| `Catalogue.UpdateDirectory` | fs/waybackfs/box/source/src/waybackfsvops.c:203-262 | the appends of one call are one entry: time, action, a length that is the length of what follows, then stat block and names |
| `Catalogue.PayloadRoundTrip` | fs/waybackfs/box/source/vutils.pl:341-372 | an entry is read back if and only if it is not a removed link with a target whose mode has its lowest bit clear, which is read back without its target |
| `Catalogue.CatalogueRoundTrip` | fs/waybackfs/box/source/vutils.pl:327-384 | the reader recovers any sequence of readable entries, using the stored lengths |
| `Catalogue.EntryLayout` | fs/waybackfs/box/source/src/waybackfsvops.c:203-262 | the places of time, action, length and stat block in the bytes of an entry |
| `Catalogue.TornCatalogue` | fs/waybackfs/box/source/vutils.pl:336-381 | of a catalogue whose last entry was written in part, at any byte, all entries before it are read, and what can be made of the data that is there |
| `Catalogue.ReadDirectory` | fs/waybackfs/box/source/vutils.pl:336-381 | the reading loop returns what the recursive definition of the format says, an entry cut short included |
| `DirectoryUndo.UndoOneExactly` | fs/waybackfs/box/source/vutils.pl:267-299 | undoing an entry restores every name with kind, mode, owner and times if and only if the operation is of the kinds listed: files whose mode has its lowest bit clear, renames to a free name, no hard links |
| `DirectoryUndo.UndoOneOtherwise` | fs/waybackfs/box/source/vutils.pl:267-299 | what the replay leaves where the operation is not reversible: which names are gone, which come back as what |
| `DirectoryUndo.ExecutableIsLost` | fs/waybackfs/box/source/vutils.pl:278 | a removed executable that others may run is not brought back: its entry reads as a link |
| `DirectoryUndo.UndoRun` | fs/waybackfs/box/source/vutils.pl:175-178 | for every run of reversible operations, replaying what they logged newest first restores the directory |
| `DirectoryUndo.RunReversibleExactly` | fs/waybackfs/box/source/vutils.pl:175-178 | every moment of a run comes back if and only if every operation of the run is reversible |
| `DirectoryUndo.RevertRestoresAt` | fs/waybackfs/box/source/vutils.pl:162-178 | for every run and every moment of it, replaying the newest entries, as many as were logged since, restores the directory as it was then if the operations since then are reversible, whatever came before |
| `DirectoryUndo.RevertRestores` | fs/waybackfs/box/source/vutils.pl:162-178 | for every run and every k there is a moment since which exactly the newest k entries were logged; replaying them restores the directory of that moment if the operations since then are reversible |
| `DirectoryUndo.OldLossIsNoObstacle` | fs/waybackfs/box/source/vutils.pl:162-178 | an operation that cannot be undone, and is older than those replayed, does not stand in their way |
| `DirectoryUndo.ReadBack` | fs/waybackfs/box/source/vutils.pl:327-384 | the catalogue bytes of any run are read back as what the run logged |
| `WaybackDirectory.WatchedDirectory.VerUnlink` | fs/waybackfs/box/source/src/wayback.c:177-224 | the name goes and nothing else changes; the entry holds the attributes from before the removal; nothing happens when the call fails; names and catalogue stay those of the history |
| `WaybackDirectory.WatchedDirectory.VerRmdir` | fs/waybackfs/box/source/src/wayback.c:226-251 | the directory is kept with its attributes under a hidden name that was free, whatever names are taken, and nothing else changes; both names are logged |
| `WaybackDirectory.WatchedDirectory.VerRename` | fs/waybackfs/box/source/src/wayback.c:280-305 | what one name stood for the other stands for afterwards, taken or not, and nothing else changes; the entry holds both names; nothing is changed or logged when the call fails |
| `WaybackDirectory.WatchedDirectory.VerChmod` | fs/waybackfs/box/source/src/wayback.c:334-358 | the name has the permission bits asked for, unless it is a link, and nothing else changes; the entry holds the mode from before the change |
| `WaybackDirectory.WatchedDirectory.VRevert` | fs/waybackfs/box/source/vutils.pl:156-178 | reading the catalogue back and replaying its newest entries restores the directory they were logged on, for every history in which the operations since then are reversible |
| `WaybackDirectory.Replay` | fs/waybackfs/box/source/vutils.pl:175-178 | the loop by decreasing index replays the newest entries |
| `WaybackDirectory.WatchedDirectory.VerMknod` | fs/waybackfs/box/source/src/wayback.c:130-151 | a name that was free stands for what was asked for, nothing else changes, and the creation is logged; nothing happens if it fails |
| `WaybackDirectory.WatchedDirectory.VerMkdir` | fs/waybackfs/box/source/src/wayback.c:153-175 | the same for a directory |
| `WaybackDirectory.WatchedDirectory.VerLink` | fs/waybackfs/box/source/src/wayback.c:307-332 | the new name stands for what the old one does, nothing else changes; what is logged is the creation of the name that was there before |
| `WaybackDirectory.WatchedDirectory.VerChown` | fs/waybackfs/box/source/src/wayback.c:360-384 | the name, a link included, has the owner asked for and nothing else changes; the entry holds the owner from before the change |
| `WaybackDirectory.WatchedDirectory.VerUtime` | fs/waybackfs/box/source/src/wayback.c:409-433 | the name has the times asked for, unless it is a link, and nothing else changes; the entry holds the times from before the change |
| `Text.Hex8Injective` | fs/copyfs/box/source/create.c:41 | eight hexadecimal digits tell any two 32-bit serials apart |
| `Helper.CountItems` | fs/copyfs/box/source/helper.c:83-98 | the counting pass equals the number of items of the split, for every string |
| `Helper.SplitToArray` | fs/copyfs/box/source/helper.c:107-128 | the storing pass stores exactly those items |
| `Helper.SplitJoin` | fs/copyfs/box/source/helper.c:77-129 | splitting a joined list of non-empty, separator-free items returns the list, with or without a leading separator |
| `Helper.SplitConcat` | fs/copyfs/box/source/helper.c:77-129 | splitting what stands before and behind any separator separately gives the items of the whole |
| `Helper.CompositeLength` | fs/copyfs/box/source/helper.c:169-200 | the counting pass of the composite equals the number of characters of the result |
| `Helper.BuildComposite` | fs/copyfs/box/source/helper.c:202-234 | the writing pass writes the composite, in exactly the space counted |
| `Helper.CompositeJoins` | fs/copyfs/box/source/helper.c:202-234 | strings are glued as an array of them is joined, and to what follows by exactly one separator, whether an explicit one is asked for or not |
| `Helper.FileNameOf` | fs/copyfs/box/source/helper.c:304-329 | a directory and a slash-free name put together come apart again |
| `Helper.ReadLine` | fs/copyfs/box/source/helper.c:252-287 | the growing buffer returns exactly the text up to the next newline, however long the line; an unterminated last part is returned if and only if a newline is found in the memory behind it, for which there must be room |
| `Versions.FindVersion` | fs/copyfs/box/source/lookup.c:30-98 | the two walks compute the visible version, delete flag, pin and fallback included |
| `Versions.PinCheck` | fs/copyfs/box/source/ea.c:217-228 | the linear scan accepts a pin exactly when some version answers to it |
| `Versions.SearchableFinds` | fs/copyfs/box/source/lookup.c:60-95 | what order the early exit needs: version numbers that do not increase, and subversion numbers of one version that do not, up to the number that reads as the latest one |
| `Versions.EarlyExitIsExhaustive` | fs/copyfs/box/source/lookup.c:60-95 | in a strictly descending list the early exit finds what an exhaustive search finds |
| `Versions.PrependedNeverMisses` | fs/copyfs/box/source/lookup.c:60-95 | with one more version in front of an ordered list no lookup misses, if and only if that version is newer than the head or has the head's numbers, or is one of the two cases of the largest subversion number |
| `Versions.EarlyExitOfLatestSub` | fs/copyfs/box/source/lookup.c:60-78 | descending version numbers are enough when any subversion will do: the first version of that number is found, if there is one |
| `Versions.PinnedLookup` | fs/copyfs/box/source/lookup.c:52-97 | a pinned file shows the pinned version, and the head exactly when that version is gone |
| `Versions.LookupByNumber` | fs/copyfs/box/source/lookup.c:52-97 | a version asked for by number is the first that answers to it; if there is none a pinned file gives its head, another nothing |
| `Versions.EarlyExitNeedsOrder` | fs/copyfs/box/source/lookup.c:79-95 | without the order a version that is in the list is missed |
| `Versions.Search` | fs/copyfs/box/source/lookup.c:60-95 | the two cursor walks compute the early-exit search |
| `MetadataFile.WriteMetadata` | fs/copyfs/box/source/write.c:22-77 | the recursive writer leaves the lines oldest first, then the killer line of a deleted file |
| `MetadataFile.ParseMetadata` | fs/copyfs/box/source/parse.c:95-145 | the reading loop builds the list newest first and keeps the last word on deletion; an unterminated last line counts if the line reader returns it |
| `MetadataFile.ScanSigned` | fs/copyfs/box/source/parse.c:34-35 | a number printed with `%i` and read with `%u` comes back, for all 2^32 values |
| `MetadataFile.LineRoundTrip` | fs/copyfs/box/source/write.c:39-40 | a printed line scans as the version it was printed from, without its directory |
| `MetadataFile.CutLineReads` | fs/copyfs/box/source/parse.c:34-35 | what scans from any first part of a line: nothing until the last number has begun, then the version with part of that number and a name from stale memory, then with part of its name |
| `MetadataFile.LastPartOf` | fs/copyfs/box/source/parse.c:95-145 | a cut line counts if and only if a newline is found behind it and it has a digit of its last number; it reads as the version it was if and only if only its newline is missing, or its name and stale memory holds that |
| `MetadataFile.SaveLoad` | fs/copyfs/box/source/lookup.c:103-115 | parsing the written file and putting the directory back gives the same versions, order and delete flag, whatever stale memory holds, if and only if every version number is at least 1 and every base name is free of newlines |
| `MetadataFile.PinRoundTrip` | fs/copyfs/box/source/write.c:83-112 | a pin is read back as it was set for all 32-bit numbers, although `%i` also reads octal and hexadecimal; a released pin reads as the latest version |
| `MetadataFile.PinExample` | fs/copyfs/box/source/write.c:83-112 | an instance: the pin to 3.1 as text |
| `MetadataFile.WriteWorker` | fs/copyfs/box/source/write.c:22-43 | the recursion prints the oldest version first |
| `MetadataFile.LineExample` | fs/copyfs/box/source/write.c:39-40 | an instance: version 3.1 with mode 0644, user 5 and group 6 as a line of text |
| `VersionStore.FreshName` | fs/copyfs/box/source/create.c:29-51 | the real name built for the next version differs from every name in the list |
| `VersionStore.StepKeepsSound` | fs/copyfs/box/source/create.c:156-193 | after any step version numbers never increase along the list and no real file carries a serial above its version |
| `VersionStore.PrependOnly` | fs/copyfs/box/source/create.c:87-89 | every step but a purge leaves the list alone or puts one version in front of it |
| `VersionStore.OrderExactly` | fs/copyfs/box/source/create.c:157-170 | a step keeps the list strictly descending if and only if it is not a mode or owner change made while an older subversion of the newest version is current, and no counter wraps |
| `VersionStore.LookupExactly` | fs/copyfs/box/source/create.c:157-170 | after any step on an ordered list every lookup finds what an exhaustive search finds, if and only if the step keeps the order or the version it asks for hides none |
| `VersionStore.LookupInPlainTerms` | fs/copyfs/box/source/create.c:166-170 | while subversion numbers last, lookups miss after a step if and only if it does not keep the order and is not a mode or owner change made while the version just below the head, of the same number, is current |
| `VersionStore.ChmodWhilePinned` | fs/copyfs/box/source/create.c:166-170 | an instance: on the list 3.2, 3.1, 3.0 a mode change while pinned to 3.0 makes the lookup miss 3.2 |
| `VersionStore.RunOrderExactly` | fs/copyfs/box/source/create.c:157-170 | over runs: the list is ordered at every moment if and only if every step keeps the order |
| `VersionStore.RunKeepsLookup` | fs/copyfs/box/source/lookup.c:30-98 | over every such run the visible version is the pinned one while it exists and the head otherwise |
| `VersionStore.OpenMakesVersion` | fs/copyfs/box/source/create.c:148-193 | opening for writing makes a version if and only if the time limit has passed, the current file exists, and copy and commit succeed |
| `VersionStore.CopyExactly` | fs/copyfs/box/source/create.c:392-405 | a copy made by any reads and any writes, short ones included, is the file if and only if no write stopped short; if only the first did, what it left over is missing |
| `VersionStore.CopyKeepsShown` | fs/copyfs/box/source/create.c:176-193 | that version has a fresh file with what the copying loop makes of the current one, so it shows the bytes shown before if and only if no write stopped short; the pin is cleared and no other file is touched |
| `VersionStore.WriteShows` | fs/copyfs/box/source/interface.c:415-435 | a write stores the part of its data that arrives at its offset in the bytes shown, and changes no other file |
| `VersionStore.TruncateShows` | fs/copyfs/box/source/interface.c:337-354 | a truncate that is not refused shows the old bytes, or their copy if a version was made, cut or extended to the length asked for; a refused one changes nothing that is shown |
| `VersionStore.PinShows` | fs/copyfs/box/source/ea.c:216-253 | an accepted pin is the file's pin and shows its version, a release shows the newest one, a refused pin changes nothing |
| `VersionStore.PurgeKeepsFiles` | fs/copyfs/box/source/ea.c:136-173 | after a purge every kept version still has its real file if and only if it shares it with no removed version |
| `VersionStore.PurgeComposes` | fs/copyfs/box/source/ea.c:112-173 | purging twice leaves the same list, order, pin and files as purging once by the sum of the counts |
| `VersionStore.FilesExactly` | fs/copyfs/box/source/create.c:187-193 | after any step every version still has its real file, if and only if the step is no purge of a version whose file is shared with a kept one |
| `VersionStore.RunFilesExactly` | fs/copyfs/box/source/ea.c:136-173 | every version has its file at every moment of a run if and only if no purge of the run is of that kind |
| `VersionStore.RolledBack` | fs/copyfs/box/source/create.c:101-114 | memory goes back when the list cannot be written, except for a file that is new |
| `VersionStore.PurgeLookup` | fs/copyfs/box/source/ea.c:112-173 | afterwards the pinned version shows if it survived, otherwise the head |
| `VersionStore.RecreateExactly` | fs/copyfs/box/source/create.c:270-297 | creating a deleted file anew brings it back if and only if the name of the next version is free, the time limit has passed and the commit succeeds |
| `VersionStore.RecreatedTooSoon` | fs/copyfs/box/source/create.c:284-292 | made anew within the time limit, a deleted file stays deleted, and no later creation succeeds |
| `VersionStore.LinkedShape` | fs/copyfs/box/source/create.c:158-184 | the numbers and the real file of a linked version: a fresh one for content, the current one for a subversion |
| `VersionStore.LinkedAttributes` | fs/copyfs/box/source/create.c:171-183 | mode and owner of every linked version: a mode change takes the mode asked for and keeps the owner, an owner change the reverse, an open or a truncate keeps both, a new file takes both, one made anew takes the owner and keeps its old mode |
| `VersionStore.RunKeepsSound` | fs/copyfs/box/source/create.c:156-193 | over every run that does not exhaust the numbers, version numbers descend and serials stay within them |
| `VirtualFile.CopyLoop` | fs/copyfs/box/source/create.c:392-405 | the kilobyte loop takes a short write for success and makes what `CopyOf` says |
| `VirtualFile.MetadataBlock.CreateCopyFile` | fs/copyfs/box/source/create.c:367-414 | copies as the loop does, or fails as the system does |
| `VirtualFile.MetadataBlock.CreateLinkVersion` | fs/copyfs/box/source/create.c:78-119 | the version is put in front and pin and delete flag are cleared, or everything is put back when the metafiles cannot be written |
| `VirtualFile.MetadataBlock.CreateNewVersionGeneric` | fs/copyfs/box/source/create.c:128-201 | takes the step `Create`, result included: a version in front with the mode and owner asked for or those of the current one, or memory as it was |
| `VirtualFile.MetadataBlock.CallbackOpen` | fs/copyfs/box/source/interface.c:376-393 | takes the step of an open for writing; a version made carries the mode and owner of the current one; the open is refused exactly if the copy fails at its first call, the version cannot be committed, or nothing is there |
| `VirtualFile.MetadataBlock.CallbackWrite` | fs/copyfs/box/source/interface.c:415-435 | takes the step of a write: the visible version's real file holds the part that was stored at its offset, or nothing changes |
| `VirtualFile.MetadataBlock.CallbackTruncate` | fs/copyfs/box/source/interface.c:337-354 | takes the step of a truncate, which goes on after most failures to copy; when it succeeds the file shown has the length asked for |
| `VirtualFile.MetadataBlock.CallbackChmod` | fs/copyfs/box/source/interface.c:303-318 | takes the step of a mode change: a subversion in front with the mode asked for, the old owner and the old real file, or nothing changes |
| `VirtualFile.MetadataBlock.CallbackUnlink` | fs/copyfs/box/source/interface.c:170-193 | takes the step of an unlink: afterwards nothing is visible; the flag stays in memory when the list cannot be written |
| `VirtualFile.MetadataBlock.CallbackMknod` | fs/copyfs/box/source/create.c:260-300 | takes the step of a creation, on a name that is new or was deleted: when it succeeds, other than too soon, the file is empty and carries the owner asked for, and the mode asked for or, made anew, its old one; reports what the code reports, the success it claims when it came too soon included |
| `VirtualFile.MetadataBlock.SetPin` | fs/copyfs/box/source/ea.c:216-253 | takes the step of setting the pin: accepted if and only if the scan finds a version and the owner check allows it, and then the pin is the one given, a release shows the newest version; a refused one changes nothing |
| `VirtualFile.MetadataBlock.SetPurge` | fs/copyfs/box/source/ea.c:112-192 | takes the step of a purge: the loop over all versions unlinks every real file and forgets the block, the culling walk keeps the newest versions and the pin |
| `VirtualFile.MetadataBlock.CallbackChown` | fs/copyfs/box/source/interface.c:320-335 | takes the step of an owner change: a subversion in front with the owner asked for, the old mode and the old real file, or nothing changes |
| `VirtualFile.MetadataBlock.Cull` | fs/copyfs/box/source/ea.c:150-172 | the culling walk cuts the list behind the versions to keep and unlinks the real file of every version after them |
| `Saving.ListSaved` | fs/copyfs/box/source/write.c:51-77 | rewriting one list changes what is loaded for that name and for no other, and leaves the pin |
| `Saving.CutListLoads` | fs/copyfs/box/source/write.c:56-77 | of a list cut after any number of characters the versions whose lines are whole are loaded, and one more, as `CutLineReads` says, if its cut line counts; the delete flag if its line is whole or counts |
| `Saving.CutAgrees` | fs/copyfs/box/source/create.c:101-114 | a cut list is loaded as the list it was, or as the list without its newest version, if and only if the cut is at the place stated and the cut line counts for what it was, or not at all |
| `Saving.StepOnDisk` | fs/copyfs/box/source/create.c:101-114 | after any step, whether the list is written, not opened or cut short at any character, and whatever the reader's memory holds, the block in memory is what its two files give when read again if and only if the step does not make them diverge: no new file meets the pin of a purged one, and no failed write leaves a list that reads otherwise than the one in memory |
| `Saving.EmptiedListIsLost` | fs/copyfs/box/source/create.c:101-114 | a list emptied by a failed write: memory keeps all versions, a restart finds none |
| `Saving.EmptiedListExample` | fs/copyfs/box/source/create.c:101-114 | a failing input: one version, one byte, a mode change whose list is cut at 0 characters; after a restart the file is gone |
| `Saving.CommitHeals` | fs/copyfs/box/source/create.c:101-103 | a committed version brings memory and disk together again, however they had come apart |
| `Saving.RunOnDisk` | fs/copyfs/box/source/create.c:78-119 | memory and disk agree at every moment of a run if and only if no step of it makes them diverge |
| `Saving.RestartShowsSame` | fs/copyfs/box/source/parse.c:180-210 | after any run in which memory and disk do not diverge, a restart finds the same versions and shows the same bytes |
| `Saving.RestartAfterCommit` | fs/copyfs/box/source/create.c:101-103 | the same restart after any run, whatever was lost in it, in which some version is committed and no step after that makes memory and disk diverge |
| `Saving.OldPinComesBack` | fs/copyfs/box/source/ea.c:175-180 | a file created over a left pin is unpinned in memory and pinned after a restart |
| `Saving.PinSaved` | fs/copyfs/box/source/write.c:83-112 | rewriting one pin changes what is loaded for that name and for no other, and leaves the list |
| `Saving.SoundIsSaveable` | fs/copyfs/box/source/create.c:29-51 | the names made for versions can always be stored |
| `TagRestore.TagReads` | fs/copyfs/box/source/copyfs-fversion:308 | what is read for every tag: (x, y) for a tag x.y, nothing for a pin to any subversion of a version below 100, and (x / 100, x % 10) above |
| `TagRestore.AnySubMisread` | fs/copyfs/box/source/copyfs-fversion:308 | an instance of `TagReads`: a pin to any subversion of version 123 is read as version 1.3 |
| `TagRestore.TagReadBack` | fs/copyfs/box/source/copyfs-fversion:308 | a tag is read back if and only if it has the form x.y |
| `TagRestore.CarefulStep` | fs/copyfs/box/source/create.c:148-193 | every edit made after a version of its own leaves the tagged versions at the end of the list and their bytes alone |
| `TagRestore.TagRestored` | fs/copyfs/box/source/copyfs-fversion:319-347 | after any such edits, deletion and re-creation included, restoring the tag shows the bytes shown when it was taken; a deleted file is made and opened first, as the script does |
| `TagRestore.OneEditExactly` | fs/copyfs/box/source/interface.c:376-393 | one edit is undone by restoring the tag if and only if the open was refused, which is said in terms of the copy's failures, or it made a version, or the bytes written were there already |
| `TagRestore.QuickEditIsNotUndone` | fs/copyfs/box/source/create.c:148-150 | a consequence: an edit within the time limit that changes anything writes into the tagged version itself |
| `TagRestore.CarefulRun` | fs/copyfs/box/source/create.c:148-193 | every run of such edits keeps the tagged versions and their bytes |
| `TagFile.BarMisread` | fs/copyfs/box/source/copyfs-fversion:308 | an instance of `BarCutsPath`: version 1.0 of a path of one letter, a bar and 12 is read as version 12.1 of that letter |
| `TagFile.EntryReadBack` | fs/copyfs/box/source/copyfs-fversion:308 | a line is read back if and only if its path is not empty and has no bar and its version has the form x.y |
| `TagFile.BarCutsPath` | fs/copyfs/box/source/copyfs-fversion:308 | of every path with a bar only what comes before the first one is taken for the path, and what follows for the version |
| `TagFile.TagFileReadBack` | fs/copyfs/box/source/copyfs-fversion:266-308 | a tag file is read back, entry for entry, if and only if the format can hold every entry |
| `TagTree.OwnNamesApart` | fs/copyfs/box/source/create.c:29-51 | two files have no real file in common |
| `TagTree.StepOnlyOwn` | fs/copyfs/box/source/create.c:128-201 | a step touches no real file but the file's own |
| `TagTree.RunHolds` | fs/copyfs/box/source/create.c:148-193 | edits to any files of a tree in any order leave what was tagged of each where it was |
| `TagTree.TreeRestored` | fs/copyfs/box/source/copyfs-fversion:306-351 | tag a tree of files on one disk, edit them in any order, restore: every tagged file shows the bytes it showed |
| `CacheHeap.Bucket.Get` | fs/copyfs/box/source/cache.c:74-102 | a hit without a back link leaves the chain as it is, one with a back link moves to the front and clears the back links of itself and the old head; a miss changes nothing |
| `CacheHeap.Bucket.Disconnect` | fs/copyfs/box/source/cache.c:90-92 | the node leaves the chain; its successor points back to its predecessor, all other back links stay |
| `CacheHeap.Bucket.Reconnect` | fs/copyfs/box/source/cache.c:94-98 | the node is put on top; the old head's back link is cleared instead of pointing to the new head |
| `CacheHeap.Bucket.Add` | fs/copyfs/box/source/cache.c:129-139 | the node is put on top and the old head points back to it |
| `CacheHeap.Cache.Get` | fs/copyfs/box/source/cache.c:74-102 | finds the block of a name if and only if it is there; all chains stay acyclic with unique names, the same nodes and back links that are NULL or right |
| `CacheHeap.Cache.Add` | fs/copyfs/box/source/cache.c:121-140 | adds one name and keeps the rest |
| `CacheHeap.Cache.Drop` | fs/copyfs/box/source/cache.c:147-156 | only removes: exactly the names that share the bucket |
| `CacheHeap.HashOfParts` | fs/copyfs/box/source/helper.c:239-246 | the hash of two strings together is the exclusive or of theirs, so the order of characters does not matter to the bucket |
| `CacheHeap.NewTable` | fs/copyfs/box/source/cache.c:26-42 | the table starts with empty buckets of its own |
| `CacheHeap.Bucket.Bump` | fs/copyfs/box/source/cache.c:88-99 | the node moves to the front; the back links of all other nodes are given |
| `CacheHeap.Cache.SetBlock` | fs/copyfs/box/source/interface.c:185 | a block changed in place changes what its name finds, and nothing else |
| `PathWalk.EntryAnswers` | fs/copyfs/box/source/lookup.c:197-207 | a cached block answers for its path as the walk without a cache does |
| `PathWalk.WalkIgnoring` | fs/copyfs/box/source/lookup.c:45-46 | a walk that respects delete flags, where it arrives, arrives where one that ignores them does |
| `FileSteps.WalkInjective` | fs/copyfs/box/source/create.c:42-44 | different virtual paths have different real paths |
| `FileSteps.CacheFollows` | fs/copyfs/box/source/lookup.c:193-243 | a change to one file leaves every other cached block right |
| `FileSteps.LiveFollows` | fs/copyfs/box/source/lookup.c:193-243 | live files keep live ancestors |
| `FileSteps.WalkUnaffected` | fs/copyfs/box/source/lookup.c:214-239 | paths that do not lead through a changed file mean what they meant |
| `FileSteps.NothingBelow` | fs/copyfs/box/source/lookup.c:218-223 | nothing is found below a file |
| `Translation.Repository.FindMaximalMatch` | fs/copyfs/box/source/cache.c:163-186 | the longest cached prefix, or -1 when no prefix is cached |
| `Translation.Repository.CacheLevel` | fs/copyfs/box/source/lookup.c:232-235 | one more level is cached, under a name that was not there, with its real paths put back |
| `Translation.Repository.TranslateElements` | fs/copyfs/box/source/lookup.c:193-243 | finds exactly what a level-by-level walk with no cache finds, keeps the cache right and never caches a path twice |
| `Translation.Repository.TranslatePath` | fs/copyfs/box/source/lookup.c:142-244 | for every string, the root included, the result is that of the walk with no cache, and the cache only grows |
| `Translation.Repository.TranslateToMetadata` | fs/copyfs/box/source/lookup.c:249-263 | a block is returned if and only if the walk reaches the path and it is spelled without stray slashes; the block is the right one |
| `Translation.Repository.CommitStep` | fs/copyfs/box/source/create.c:78-119 | every version, pin, unlink and purge step on a cached file, whatever becomes of the writing and whatever stale memory holds, keeps the cache right if and only if memory and disk do not diverge |
| `Translation.Repository.CommitFirst` | fs/copyfs/box/source/create.c:206-234 | the creation of a file keeps the cache right if and only if it meets no old pin and its list can be written, or is cut where it still reads as it was |
| `Translation.FixupPaths` | fs/copyfs/box/source/lookup.c:103-115 | the loop puts the directory in front of every real name |
| `Translation.Repository.Start` | fs/copyfs/box/source/lookup.c:196-212 | the level-by-level part starts at a prefix whose translation is already that of the walk |
| `Translation.Repository.TranslateRoot` | fs/copyfs/box/source/lookup.c:151-191 | the root translates to the version store, from the cache or from disk, and is cached once |

## Left out

- Reads and writes of the logs that fail with an error; appending to a log whose last record was written in part.
- Catalogue.ReadDirectory: an entry of a mode, owner or time change that was cut within its stat block ends the
  catalogue here; the script takes the rest of the block for a number written in digits, and an empty name.
- Log and catalogue layouts of machines where `time_t` and `size_t` are not 4 bytes or `off_t` is not 8.
- `vrevert` over several files in one call, whose count carries over from one to the next; reverting into another file
  (`copyfile`); the listing commands of `vutils.pl`; the recursive `vrevert` into the contents of directories, which
  are opaque here; choosing directory entries by date, which is the same loop as for files.
- DirectoryUndo.UndoOneExactly: does not model that `chmod`, `utime` and the replay's `chown` on a symbolic link change
  what it points to, which may be a name in the same directory; nor that the `rmdir` of an undone `mkdir` fails on a
  directory that holds anything, its own catalogue included. Links and directories are opaque here.
- Undo of symbolic link removal, hard links, renames between directories and onto an existing name: not inverses, as
  `DirectoryUndo.UndoOneExactly` states for those within one directory. Change times, and owner changes that clear
  set-user-id bits.
- `ver_unlink` and `ver_getattr` on names that end in the version modifier, and the logging of `ver_open` and
  `ver_symlink`.
- A directory whose hidden name cannot be found because `lstat` fails otherwise than with a missing file, and
  `addedint` past the range of `int`.
- Saving.RunOnDisk: the memory behind what the line reader has read is any, but the same at every read of a run, and so
  is the name a line without its last colon gets. A pin file whose only line has no newline counts as no pin.
- A pin that cannot be written when `rcs.locked_version` is set, writes that are lost after the list was closed, and a
  list or real file that cannot be unlinked in a purge.
- `create_new_version` on a name that was never created: the code stops at an assertion, the model leaves the state
  alone. A path whose parent directory cannot be reached stops there too; `Translation.Repository.FileAt` asks for a
  live parent.
- New versions, pins, removal and renaming of directories while blocks below them are cached.
- Eviction from the cache (the code has none), the bucket counter after a drop, and `cache_finalize`.
- `rcs.metadata_dump`, extended attributes passed through, symbolic links in CopyFS, `utime`, `statfs`, permission
  checks (a pin's owner check is a choice), FUSE registration and argument parsing.
- Version numbers in a tag file that do not fit an `int` (such lines are skipped), and the script's retry loop when a
  file is touched.
- VirtualFile.MetadataBlock.CallbackMknod: does not model device numbers or the mode of the empty real file.
- TagTree.TreeRestored: does not model the lines of directories, because their pins change what paths below them mean.
- Wayback.RevertCanBeReverted: does not model a replay through a mount that stops half way.
