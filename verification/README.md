# A verified model of BookmarkFS

BookmarkFS serves the bookmarks of a browser as a file system. This project models the parts
of it that keep state in step with other state, and proves what they are relied on for:

- **Hash map** (`Words`, `Hopscotch`, `HashMaps`). Bucket words with hop bits and a hash
  fragment, displacement, rebuilding and packed ids. Over every run the map answers from
  exactly the entries inserted and not yet removed.
- **Firefox store** (`PlaceTables`, `PlacesStore`, `Siblings`). The tables as finite maps and
  each backend call as one transaction. Reference counts, the purge cascade and the positions
  of siblings are kept by every transaction.
- **Watcher** (`Watcher`). The worker, the polls, the kernel and whoever changes the file, as a
  step relation. No change after a rearm is lost in any interleaving.
- **Chromium store** (`TreeWalk`, `BuildMaps`, `BookmarkIndex`, `BookmarkReplace`, `NameIndexes`,
  `StaleIds`, `Checksums`, `BookmarkStore`, `BookmarkLoad`). Loading, the operations, the indexes, the dirty level and
  the checksum, in title mode. Tree and indexes agree from loading on, and what is saved has a
  matching checksum.
- **Checker** (`FileNames`, `FsckRepair`, `FsckWalk`). The repair loop ends with good names,
  and the resumable walk reports every bad entry once.
- **Buffers and codecs** (`BlockStream`, `Md5`, `Md5Vector`, `FileBuffer`, `JsonDump`, `Codecs`). In-place
  buffered forms against plain sequences.

`Basics` holds the shared types and memory operations. A character of a string is one byte.
64-bit hash words are sequences of 64 bits. Where the code wraps or overflows this is written
out: the 64-bit length of MD5, the 32-bit repair counter, `safeincr`, the largest id.

Callbacks and foreign code are parameters: the comparison and hash functions of the hash map,
URL parsing and URL hashing, the UTF-8 check, the UTF-16 conversion, the bytes of freshly
allocated memory and of variables that the code has not set, the answers of `writev`, and the
GUIDs that are drawn.

Some results say that the code does less than one might expect, and exactly when.

- A replacing rename in the Chromium backend looks both entries up in the name index, removes the
  replaced one and then the moved one by the id it had, without a look at the slot. It keeps tree
  and index in agreement if and only if it changes the folder and the id stays good
  (`NameIndexes.ReplaceIndexed`). In the same folder the replaced node stays in the children array;
  `BookmarkLoad.ReplaceInSameFolderFails` gives the input. The id stays good unless the first
  removal leaves the table less than one eighth full and shrinks it. After that it is good exactly
  when its slot of the smaller table holds the moved entry, and the bit that goes with it is a hop
  bit, or not a fragment bit of an entry, or a second shrink makes up for it
  (`HashMaps.HashMap.ReplaceByIds`): the insertion then puts the entry back where it was. An id that
  leads out of the smaller table makes the removal write there. `StaleIds.RenameToLast` gives
  indexes of up to 65 entries and renames on them, with those that go wrong and those that do not.
- A move keeps everything under the root if and only if it does not go below the moved folder
  (`BookmarkIndex.MoveIsRankedIff`, `BookmarkLoad.MoveBelowItselfFails`). The backend does not
  check this; the kernel does.
- Creating a node keeps the index of GUIDs if and only if the GUID drawn is unused
  (`BookmarkIndex.CreatedGuidsIff`): the retry of the code leaves its loop at once.
- Deleting a keyword keeps the reference counts if and only if the keyword exists or the
  variable that the code has not set is not the id of a place
  (`PlacesStore.Store.KeywordDelete`).
- What is saved has a matching checksum if and only if data was changed or the checksum matched
  at load, since loading does not look at it (`BookmarkStore.Store.Save`).
- What is written to a file is read back as it was if and only if newlines are not added, or it
  ends with one (`FileBuffer.LoadOfStore`).
- A live worker of the watcher has a change on record if and only if the file changed after the
  latest rearm (`Watcher.RecordedIff`). So a change before the first rearm is missed
  (`Watcher.StartUpRace`).

The fallback mode of the watcher compares inode and time stamp; the model takes every change to
give another inode or time stamp.

`find_entry` asserts `exp < EXP_MAX` where `hashmap_search` asserts `exp <= EXP_MAX`
(src/hashmap.c:155-184, 410-444). The model follows the second: tables of exponent `EXP_MAX`
exist.

## Model

| member | source | states |
|---|---|---|
| Words.CountTrailingZeros | src/hashmap.c:115-150 | the index of the lowest set bit, or the word size when there is none |
| Hopscotch.FragmentAndHomeDetermineHash | src/hashmap.c:41-67 | home index and stored fragment together determine the whole hashcode |
| Hopscotch.DisplaceKeepsInv | src/hashmap.c:215-228 | one displacement keeps the hopscotch invariant and the entries, and empties the slot it moves from |
| Hopscotch.StoreKeepsInv | src/hashmap.c:380-408 | storing an entry in an empty slot within reach of its home keeps the invariant |
| Hopscotch.RemoveKeepsInv | src/hashmap.c:344-378 | clearing a hop bit and the slot it names keeps the invariant |
| Hopscotch.NamedOnce | src/hashmap.c:58-94 | no slot is named by two hop bits |
| Hopscotch.HopsFindHash | src/hashmap.c:410-444 | a live entry with a hashcode is exactly what a set hop bit with that fragment leads to |
| Hopscotch.BlindRemovalIff | src/hashmap.c:355-366 | clearing a hop and its slot by an id takes the entry out and leaves the table in order if and only if the id names the entry |
| Hopscotch.StaleIndexNamesNothing | src/hashmap.c:349-355 | the id of an entry under an exponent does not name it under the exponent before, when any bit of its home index is set |
| Hopscotch.StoredAgain | src/backend_chromium.c:2427-2430 | a slot cleared from another bucket than the home of its entry: storing the entry there again restores the table but for the bit that was cleared |
| Hopscotch.BlurredInvIff | src/hashmap.c:359-359 | clearing a bit past the hop bits leaves the table in order if and only if it was not a set fragment bit of an entry |
| Hopscotch.StandsAtHome | src/hashmap.c:239-284 | in a table without gaps whose entries have homes of their own, every entry stands at its home |
| HashMaps.Displace | src/hashmap.c:215-228 | the four writes of a displacement move one entry within reach of its home; all entries are kept, and order if there was |
| HashMaps.SwapForward | src/hashmap.c:213-234 | one displacement moves the free slot strictly forward by less than `exp`, or no bucket in front of it can give a slot away and no stale copy is left |
| HashMaps.MakeRoom | src/hashmap.c:194-237 | success: a slot within reach that nothing names, all slots from the home to it taken, all entries kept; the first free slot, untouched, when that is within reach; failure: entries as before, with no second copy, and all slots from the home taken to the end or to a free one out of reach that cannot be brought closer; order is kept, and no gaps appear; terminates |
| HashMaps.Place | src/hashmap.c:380-408 | one more copy of the entry, or everything within reach of its home was taken and nothing could be moved away; keeps order, and no gaps appear |
| HashMaps.Rebuild | src/hashmap.c:239-284 | a new table under another exponent holds the same entries in order and without gaps, or copying them one by one comes to an entry for which the copy, with exactly the entries before it, has no room |
| HashMaps.OwnHomesAreCopied | src/hashmap.c:239-284 | entries with homes of their own can always be copied |
| HashMaps.PackIdRoundTrip | src/hashmap.c:41-64 | a packed id decodes to home and hop, and is non-negative as a long for every exponent |
| HashMaps.ScanHops | src/hashmap.c:410-438 | the bit loop finds the lowest set hop whose slot matches, and skips none |
| HashMaps.HashMap.constructor | src/hashmap.c:286-316 | a new map is empty |
| HashMaps.HashMap.Rehash | src/hashmap.c:239-284 | either nothing changes, and the copying came to a stop, or the entries are the same under the new exponent, without gaps |
| HashMaps.HashMap.Insert | src/hashmap.c:380-408 | adds one entry, in its first free slot when that is within reach, growing and retrying otherwise with `EXP_MAX - exp` decreasing; aborts only when no slot can be freed within reach of its home and copying comes to a stop under both next exponents, and loses nothing; all of this in a table that is not in order too |
| HashMaps.HashMap.Search | src/hashmap.c:410-444 | a result is a live entry with that hashcode and key, no result means there is none, and the id names its slot |
| HashMaps.HashMap.FindEntry | src/hashmap.c:155-184 | finds the slot of any entry of the map |
| HashMaps.HashMap.Remove | src/hashmap.c:344-378 | removes one copy of the entry, by id or by search; shrinking loses nothing; unless the table is sparse and shrinks, the ids of all other entries stay good |
| HashMaps.HashMap.ReplaceByIds | src/backend_chromium.c:2413-2430 | an entry changes its key in place, another is removed, then the first by the id it had, with both shrinks, and it is inserted again: the map is right with the right entries if and only if it did not shrink the first time or the id leads back to the entry; when it writes out of the table or aborts |
| HashMaps.PutBackIff | src/hashmap.c:355-408 | removal from the wrong bucket and insertion cancel out if and only if the slot held the entry and the bit cleared does not matter |
| HashMaps.Run | src/hashmap.c:344-444 | over every run from an empty map each lookup is answered from exactly the entries inserted and not yet removed, by search or by id; a run ends, or stops at an insertion for which a table of just those entries has no slot that can be freed within reach, and copying to a larger one comes to a stop |
| HashMaps.NoTableIsFull | src/hashmap.c:380-408 | no insertion aborts before there are as many entries as a neighbourhood has slots |
| HashMaps.AnswerIsTheEntry | src/hashmap.c:410-444 | with unique keys the answer is the entry of the key if and only if there is one |
| PlaceTables.ReferencesConserved | src/backend_firefox.c:1279-1517 | every `foreign_count` is bookmark rows plus keyword rows plus external references, and nothing names a missing place |
| PlaceTables.AnswersDrop | src/backend_firefox.c:1395-1425 | dropping references keeps the place table right, with the row gone exactly when none is left |
| PlaceTables.CountsPurge | src/backend_firefox.c:1458-1483 | the rows and keywords that a purge removes are as many as the references it drops |
| PlacesStore.NextPosition | src/backend_firefox.c:750-783 | one past the last sibling, or 0 without any; none if and only if the largest is INT64_MAX |
| PlacesStore.Lookup | src/backend_firefox.c:785-822 | the sibling of that title with the least position, or none has the title |
| PlacesStore.Store.PlaceAddref | src/backend_firefox.c:1279-1337 | one more reference to the only place of the URL, which is created if need be, with the origin of that prefix and host, found or created; no other place or origin changes |
| PlacesStore.Store.PlaceAddrefId | src/backend_firefox.c:1353-1372 | one more reference to an existing place |
| PlacesStore.Store.PlaceDelete | src/backend_firefox.c:1374-1393 | a place goes, and its origin if and only if no other place has it |
| PlacesStore.Store.PlaceDelref | src/backend_firefox.c:1395-1425 | references are dropped and the place goes with the last, and its origin with the last place that has it; with no titled row left its tag rows and keywords go too; the recursion ends |
| PlacesStore.Store.PlacePurge | src/backend_firefox.c:1458-1483 | removes all rows and keywords of a place without titled rows, and leaves exactly the external references; the origin follows |
| PlacesStore.Store.PlaceUpdate | src/backend_firefox.c:1485-1517 | one reference moves from the old place to the place of the URL; the old place goes with its last reference and its origin with its last place, and no other place or origin changes |
| PlacesStore.Store.RowInsert | src/backend_firefox.c:750-783 | a new last child, positions stay distinct; succeeds if and only if a position and an id are left |
| PlacesStore.Store.RowDelete | src/backend_firefox.c:658-704 | a row goes, with the cascade of the last titled bookmark down to place and origin; a folder only when empty |
| PlacesStore.Store.BookmarkCreate | src/backend_firefox.c:373-434 | a new last child under an unused name, all invariants kept; when exactly it succeeds; an error changes nothing |
| PlacesStore.Store.BookmarkDelete | src/backend_firefox.c:436-466 | the first row of that name goes with what hangs on it; if another titled bookmark of the place remains, only that row goes; when exactly it succeeds, and with which error it fails otherwise |
| PlacesStore.Store.TagAdd | src/backend_firefox.c:1905-1957 | one untitled row for the place under the tag, counted, at most one per tag; when exactly it succeeds |
| PlacesStore.Store.TagDelete | src/backend_firefox.c:1959-1999 | a tag row of a place with a bookmark of that name goes and gives up its reference, without a purge, if and only if the tag has the name; the place goes with its last reference |
| PlacesStore.Store.KeywordCreate | src/backend_firefox.c:583-620 | a new keyword for the place of a bookmark, counted, if and only if the bookmark exists and the keyword does not |
| PlacesStore.Store.KeywordDelete | src/backend_firefox.c:1087-1109 | a keyword goes and gives up its reference, and the place goes with its last one, the origin with its last place; for a missing keyword the counts stay right if and only if the unset variable names no place |
| PlacesStore.Store.RowMove | src/backend_firefox.c:855-885 | a row gets a new folder, title and free position, if and only if one is given or left |
| PlacesStore.Store.BookmarkRename | src/backend_firefox.c:3491-3613 | the row moves to the end of its folder or into the position of the row it replaces, which is deleted with its cascade; when exactly it succeeds, and with which error it fails otherwise, changing nothing |
| PlacesStore.Store.ReplaceTarget | src/backend_firefox.c:3548-3588 | the row being moved survives the deletion of the row it replaces; when exactly that is deleted |
| PlacesStore.Store.SetUrl | src/backend_firefox.c:3615-3738 | a bookmark moves to the place of its new URL with its reference; the old place goes with its last reference and its origin with its last place, and no other place or origin changes |
| PlacesStore.Store.PosShift | src/backend_firefox.c:918-975 | the range that is shifted, and the position that becomes free |
| PlacesStore.Store.BookmarkPermute | src/backend_firefox.c:3415-3489 | the rows of the folder are renumbered, and nothing else changes; when exactly it succeeds |
| PlacesStore.RenumberingShift | src/backend_firefox.c:918-995 | shifting the rows between and moving the row renumber the folder |
| PlacesStore.RenumberingSwap | src/backend_firefox.c:977-995 | so does exchanging two positions |
| PlacesStore.RenumberedStayPositioned | src/backend_firefox.c:918-995 | renumbering keeps positions non-negative and distinct, even with holes |
| PlacesStore.PermuteIsListEdit | src/backend_firefox.c:3466-3475 | the rows in order of their new positions are the list edit of the rows in order of the old ones |
| Siblings.PermutedIsNextTo | src/backend_chromium.c:2266-2293 | the list edit takes the element out and puts it back next to the other, on the side asked for |
| Siblings.PermutedIsSwapped | src/backend_chromium.c:2266-2293 | a swap exchanges two elements and leaves the others |
| Siblings.PermuteArray | src/backend_chromium.c:2266-2293 | the array edit is the same list edit |
| Siblings.RenumberedInjective | src/backend_firefox.c:918-995 | different positions stay different |
| Watcher.StepKeepsInv | src/watcher.c:145-339 | every step of worker, polls, kernel and file keeps the protocol invariant |
| Watcher.RunKeepsInv | src/watcher.c:145-448 | so does every interleaving |
| Watcher.NoChangeIsLost | src/watcher.c:202-339 | a change after the latest rearm is pending, noticed, or leads to a rearm by the next poll, while the worker lives |
| Watcher.StepKeepsExact | src/watcher.c:145-339 | without stray events every step keeps the invariant that nothing is pending or noticed but changes after the latest rearm |
| Watcher.RecordedIff | src/watcher.c:202-339 | in every interleaving a live worker has a change on record if and only if the file changed after the latest rearm |
| Watcher.RearmNeverOverlapsWatch | src/watcher.c:419-448 | a poll rearms and signals only while the worker waits |
| Watcher.PollDecides | src/watcher.c:419-448 | the outcome of a poll that gets the mutex: try again, rearmed, or dead |
| Watcher.RecordedLeadsToIdle | src/watcher.c:306-339 | a recorded change can always reach IDLE in a bounded number of worker steps |
| Watcher.DeadIsFinal | src/watcher.c:306-448 | once DEAD is set it stays, and no later poll returns 0 |
| Watcher.DeadIffFailed | src/watcher.c:306-339 | in every interleaving the worker is dead if and only if the sandbox, a watch, or the first rearm has failed; a file that is missing at the start is no failure |
| Watcher.SomeoneMoves | src/watcher.c:306-448 | a poll inside the mutex can always go on, and so can a live worker unless it waits for a signal or watches an unchanged file |
| Watcher.MissingAtStart | src/watcher.c:325-332 | a worker whose file is missing waits, and once the file is there the next poll rearms and returns 0 |
| Watcher.StartUpRace | src/watcher.c:306-339 | a change before the first rearm is not recorded after it |
| TreeWalk.IterNode | src/backend_chromium.c:977-1023 | the explicit stack gives the callbacks of the recursive preorder with the same parent data, and fails exactly when one of them does or folders are nested too deep |
| TreeWalk.IterRoots | src/backend_chromium.c:1025-1048 | the same for all roots; fails without any root and at a chain of more than 127 folders |
| TreeWalk.WalkToIsWalk | src/backend_chromium.c:1012-1016 | a walk with a depth limit is the walk when the depth is within it, and fails otherwise |
| TreeWalk.WalkSucceeds | src/backend_chromium.c:977-1023 | callback failures aside, nothing but the depth makes a walk fail |
| FileNames.ValidateFilename | src/backend_util.c:87-122 | valid exactly for 1 to 255 bytes other than "." and ".." without a slash; each other verdict when it applies |
| BuildMaps.WalkAllShows | src/backend_chromium.c:1151-1252 | the lookup by name gains exactly the nodes with a valid name, a shown folder and no earlier sibling of that name |
| BuildMaps.WalkAllIndexes | src/backend_chromium.c:1151-1252 | the walk succeeds if and only if nodes are complete and no id or GUID repeats, and then indexes all of them |
| BuildMaps.PreorderAt | src/backend_chromium.c:984-1048 | in the order of the walk a node comes after all nodes of its earlier siblings and right before everything below it |
| BuildMaps.Build | src/backend_chromium.c:703-766 | when building the indexes succeeds, and exactly what they then hold; the id counter starts at the largest id |
| BookmarkIndex.LookupIsScan | src/backend_chromium.c:1099-1149 | a lookup by name finds a node if and only if a scan of the children array does |
| BookmarkIndex.CreatedOk | src/backend_chromium.c:2054-2146 | creating a node keeps id, name and GUID indexes equal to the tree, under an id that is new |
| BookmarkIndex.CreatedIsSeen | src/backend_chromium.c:2100-2146 | the new node is empty, listed last in its folder, found there by its name, and nothing else that can be seen changes |
| BookmarkIndex.CreatedGuidsIff | src/backend_chromium.c:316-342 | the index of GUIDs stays right if and only if the GUID drawn is unused |
| BookmarkIndex.DeletedOk | src/backend_chromium.c:2148-2214 | so does deleting a bookmark or an empty folder |
| BookmarkIndex.DeletedIsSeen | src/backend_chromium.c:2148-2214 | putting the node back where it was gives the old children array; its name and GUID are gone, and nothing else that can be seen changes |
| BookmarkIndex.RenamedOk | src/backend_chromium.c:2304-2442 | so does a rename that replaces nothing |
| BookmarkIndex.RenamedIsSeen | src/backend_chromium.c:2379-2411 | the same node under its new name, last in its new folder or where it was in the old one, and nothing else that can be seen changes |
| BookmarkIndex.PermutedOk | src/backend_chromium.c:2216-2302 | so does any reordering of a children array |
| BookmarkIndex.MoveIsRankedIff | src/backend_chromium.c:2400-2411 | a move keeps every node under the root if and only if its target is not the node or below it |
| BookmarkIndex.EveryNodeIsUnderRoot | src/backend_chromium.c:703-766 | every indexed node hangs under the root |
| BookmarkReplace.StepsAreReplacement | src/backend_chromium.c:2391-2430 | overwriting the replaced node in another folder equals deleting it, renaming, and taking its position, as far as lookups by name are not stale |
| BookmarkReplace.ReplacedOkIff | src/backend_chromium.c:2354-2430 | a replacing rename keeps tree and indexes in agreement if and only if the folders differ and lookups by name have not gone stale; `NameIndexes.ReplaceIndexed` decides when they do |
| BookmarkReplace.ReplacedInFolder | src/backend_chromium.c:2379-2430 | in the same folder both nodes are left under the same name, and no index knows the second |
| BookmarkReplace.ReplacedRanked | src/backend_chromium.c:2354-2430 | in another folder it keeps every node under the root |
| BookmarkReplace.LookupsAreDetermined | src/backend_chromium.c:1050-1071 | the entries of the nodes leave no choice to the lookup by name |
| NameIndexes.ReplacedEntries | src/backend_chromium.c:2413-2430 | which entries the name index has to hold after a replacing rename |
| NameIndexes.LookUpKey | src/backend_chromium.c:1099-1149 | while tree and hash map agree, a lookup in the map answers as the tree does |
| NameIndexes.UpdateIndex | src/backend_chromium.c:2328-2430 | the two lookups, two removals and the insertion on the hash map; it is intact if and only if it did not shrink the first time or the id leads back to the moved entry; when exactly it shrinks, writes outside or aborts |
| NameIndexes.ReplaceIndexed | src/backend_chromium.c:2304-2442 | tree and hash map agree after a replacing rename if and only if the folder changes and the id of the moved entry stays good: the first removal did not leave a sparse table that shrinks, or the id leads back to the entry in the smaller one |
| NameIndexes.LeadsBackNearHome | src/backend_chromium.c:2413-2430 | after a shrink the id is good only if it leads within reach of the home of the new key |
| StaleIds.RenameToLast | src/backend_chromium.c:2413-2430 | indexes of exponent 9 with `n` entries that shrink: the rename of entry `k` onto the last one leaves the map right if and only if `2 * k == n - 1` |
| Checksums.WalkAllSerial | src/backend_chromium.c:387-422 | the walk digests the flat preorder serialization, and fails exactly when a name cannot be converted |
| Checksums.NodeText | src/backend_chromium.c:387-422 | what a node adds to the digest: its id, its name in UTF-16, the word for its kind, and the URL of a bookmark, in that order |
| Checksums.ChecksumRoots | src/backend_chromium.c:424-452 | the hexadecimal MD5 of that serialization, or failure at depth or conversion |
| BookmarkStore.DeeperIsSame | src/backend_chromium.c:1012-1016 | the part of the tree that a walk can reach does not depend on where deeper folders are cut off |
| BookmarkStore.ReorderedIsSeen | src/backend_chromium.c:2252-2302 | after a reordering the one node stands next to the other on the side asked for, or the two are exchanged, and nothing else changes |
| BookmarkStore.ListedIsLookup | src/backend_chromium.c:1874-1955 | a folder lists exactly the nodes that can be looked up in it |
| BookmarkStore.ListFrom | src/backend_chromium.c:1919-1934 | a listing interrupted anywhere and resumed at the offset of its last entry misses and repeats nothing |
| BookmarkStore.Store.Lookup | src/backend_chromium.c:1957-1997 | finds the child of that name that a scan finds, with the error for each other case |
| BookmarkStore.Store.List | src/backend_chromium.c:1874-1955 | the same for the listing of a visible folder |
| BookmarkStore.Store.Create | src/backend_chromium.c:2054-2146 | succeeds exactly under its conditions, with a fresh id; all invariants hold afterwards if and only if it fails or the GUID was unused; a failure changes nothing but the id counter, and that only for a name that is no text |
| BookmarkStore.Store.Delete | src/backend_chromium.c:2148-2214 | removes the named bookmark or empty folder from tree and indexes; which error each other case gives, changing nothing |
| BookmarkStore.Store.Permute | src/backend_chromium.c:2216-2302 | the children array gets the list edit, all invariants kept; the store stays as clean as it was exactly when the names are the same or the node is right after the other already; which error each other case gives |
| BookmarkStore.Store.Rename | src/backend_chromium.c:2304-2442 | the outcome of plain, replacing and empty renames and when exactly they succeed; all invariants hold afterwards if and only if no node was replaced, or one of another folder without lookups going stale; `NameIndexes.ReplaceIndexed` decides when they do |
| BookmarkStore.Store.Set | src/backend_chromium.c:2444-2559 | the URL or GUID given is that of the node afterwards, and no other field or node changes; raises the dirty level accordingly; a GUID in use is refused; when exactly it succeeds |
| BookmarkStore.Store.Save | src/backend_chromium.c:633-659 | a successful save leaves the current tree in the file, with its checksum if and only if data was changed or the checksum matched at load; a failed one leaves the dirty level, and the file too unless only the directory could not be synchronized after the new file was put in place |
| BookmarkLoad.AddedGood | src/backend_chromium.c:1151-1252 | every node that is loaded keeps tree and indexes in agreement |
| BookmarkLoad.WalkAllSame | src/backend_chromium.c:1151-1252 | the walk that accounts for the tree is the walk that fills the indexes |
| BookmarkLoad.LoadedIsSaved | src/backend_chromium.c:703-766 | saving a tree just loaded gives the file back |
| BookmarkLoad.Load | src/backend_chromium.c:1473-1554 | a file is loaded if and only if it can be indexed, whatever its checksum, and then every invariant holds |
| BookmarkLoad.ReplaceInSameFolderFails | src/backend_chromium.c:2391-2430 | a folder with two bookmarks, for which a replacing rename leaves a node that no index knows |
| BookmarkLoad.MoveBelowItselfFails | src/backend_chromium.c:2400-2411 | three nested folders, of which a move of the middle one into itself or the innermost cuts both off from the root |
| FsckRepair.Handler.FixNameDup | src/fsck_handler_simple.c:221-236 | the counter goes to the end of the name, cutting the name to 255 bytes where needed, and moves on modulo 2^32 |
| FsckRepair.Handler.FixEntry | src/fsck_handler_simple.c:238-270 | the new name for each reported defect; a reported position past the name changes one byte of the buffer, at most its last |
| FsckRepair.Handler.HandleEntry | src/fsck_handler_simple.c:272-302 | the same, with the counter starting anew in each directory |
| FsckRepair.EndsOnce | src/fsck_handler_simple.c:221-236 | names with different counters are different |
| FsckRepair.DecimalIsNumber | src/fsck_handler_simple.c:226-229 | the digits of a number read back in base 10 are that number, without leading zeros |
| FsckRepair.NumberedKeepsName | src/fsck_handler_simple.c:221-236 | a duplicate keeps its name, cut only as far as the number needs room, and the number can be read off its end |
| FsckRepair.FixedIsSeen | src/fsck_handler_simple.c:238-270 | what each fix does to the name: one character, a number at the end, a cut, or `fsck-` and the id |
| FsckRepair.FewerNames | src/fsck_handler_simple.c:221-236 | each numbered name that is taken leaves fewer taken names for the next 2^32 numbers |
| FsckRepair.Check | src/backend_chromium.c:498-523 | a name is taken exactly when it is well-formed, unused and proper text; a reported position holds a slash |
| FsckRepair.FixMovesOn | src/fsck_handler_simple.c:238-270 | every fix of a refused name strictly lowers the measure |
| FsckRepair.FirstFix | src/fsck_handler_simple.c:238-270 | the first fix of any reported name starts within the bound |
| FsckRepair.Repair | src/fsck.c:137-167 | repair of any entry ends within `2 * used + 259` fixes with a valid, unused name of at most 255 bytes, from any value of the counter and across its wrap |
| FsckRepair.RepairAll | src/fsck.c:137-167 | all bad entries of a directory get valid names, distinct from each other and from those in use |
| FsckWalk.DoList | src/fsck_offline.c:124-157 | the first subdirectory from the offset on, or none is left |
| FsckWalk.Walker.Grow | src/fsck_offline.c:428-434 | the stack grows by half and keeps all frames |
| FsckWalk.Walker.Next | src/fsck_offline.c:389-441 | the next report of the recursive preorder walk, each directory entered once; at the end the whole walk is done |
| FsckWalk.RunAll | src/fsck_offline.c:389-441 | repeated calls give every bad entry of the tree exactly once, in preorder, and end |
| BlockStream.Ctx.constructor | src/md5.c:129-139 | an empty message |
| BlockStream.Ctx.Update | src/md5.c:141-170 | the message grows by the bytes given: whole blocks digested, the rest buffered |
| BlockStream.Ctx.Finish | src/md5.c:104-127 | the registers after the message and its padding by sections 3.1 and 3.2 of RFC 1321 |
| BlockStream.LengthInBits | src/md5.c:120-120 | the wrapped 64-bit counter gives the length field of the whole message |
| BlockStream.BitsValue | src/md5.c:120-120 | the length field, read in base 256 from its least significant byte, is the number of bits modulo 2^64 |
| BlockStream.PaddedLong | src/md5.c:104-121 | when the length goes into a block of its own, the two blocks are the message, its padding and the length |
| BlockStream.ZerosAre | src/md5.c:104-121 | the zeros written are as many as section 3.1 of RFC 1321 asks for |
| Md5.TurnsRotate | src/md5.c:79-97 | moving the registers round and naming them in turn are the same |
| Md5.WordIndexIsWordOf | src/md5.c:85-96 | the index expressions are the words listed in section 3.4 of RFC 1321 |
| Md5.LoadWordOctets | src/md5.c:68-72 | the first byte of a word is its least significant one |
| Md5.LoadOfStore | src/md5.c:123-126 | words are stored least significant byte first, and loading gives them back |
| Md5.RotlBits | src/md5.c:79-79 | rotation moves every bit up and brings those that leave in again below |
| Md5.FBits | src/md5.c:85-87 | in every set of bits the first auxiliary function chooses between its second and third argument |
| Md5.GBits | src/md5.c:88-90 | the second chooses between its first and second argument |
| Md5.HBits | src/md5.c:91-93 | the third is parity |
| Md5.IBits | src/md5.c:94-96 | the fourth complements its second argument except where the third is set and the first is not |
| Md5.UpdateOne | src/md5.c:39-102 | the four loops compute the 64 named operations of section 3.4 |
| Md5.DigestOfChunks | src/md5.c:104-170 | for any split of a message the digest is that of the whole message |
| Md5Vector.LettersDigest | src/md5.c:39-139 | the digest of the 26 letters is the one in section A.5 of RFC 1321, which tables, constants, shifts and byte order have to give |
| FileBuffer.Reserved | src/fs_ops.c:67-68 | at least one byte, up to the next whole block |
| FileBuffer.Resized | src/fs_ops.c:1076-1096 | every byte of a string cut or filled up to a size |
| FileBuffer.Sliced | src/fs_ops.c:902-914 | at most the bytes asked for, each from its place, and fewer only at the end |
| FileBuffer.ReadAfterWrite | src/fs_ops.c:1174-1216 | what every byte of a written string is: the data, the old byte, or zero |
| FileBuffer.ShrinkThenGrow | src/fs_ops.c:1076-1096 | what was cut off comes back as zeros |
| FileBuffer.Handle.Write | src/fs_ops.c:1174-1216 | a write or append on the buffer is that on a string with zero holes, refused past the limit |
| FileBuffer.Handle.Truncate | src/fs_ops.c:1076-1096 | a new size on the buffer is that on a string, refused past the limit |
| FileBuffer.Handle.Read | src/fs_ops.c:902-914 | the part of the content that was asked for |
| FileBuffer.Handle.Load | src/fs_ops.c:916-943 | the content is the stored value, with a newline when asked for, and it fits the buffer |
| FileBuffer.Handle.OpenTruncated | src/fs_ops.c:797-813 | the content is empty and to be stored |
| FileBuffer.Handle.Flush | src/fs_ops.c:435-467 | stores the content without its last newline when newlines are added, and only if changed; without content the byte before the buffer decides whether the length wraps |
| FileBuffer.StoreOfLoad | src/fs_ops.c:435-467 | what is loaded is stored again as it was |
| FileBuffer.LoadOfStore | src/fs_ops.c:435-467 | what is stored is loaded as it was if and only if newlines are not added or it ends with one |
| FileBuffer.RunStaysWithin | src/fs_ops.c:1174-1216 | no run takes a file past the limit |
| FileBuffer.Run | src/fs_ops.c:874-1216 | any run of writes, truncations and reads has the outcome and the answers, refusals among them, of the same run on a plain string |
| JsonDump.Advance | src/xstd.c:256-263 | drops exactly the bytes that were written |
| JsonDump.File.WriteAll | src/xstd.c:231-265 | for any pattern of partial writes and interruptions all bytes arrive in order; on failure a prefix of them |
| JsonDump.LeftOver | src/json.c:65-72 | the length subtraction does not underflow, and what is written is whole blocks |
| JsonDump.Dump.Put | src/json.c:57-84 | file and buffered tail are the text so far, and the file is a whole number of blocks |
| JsonDump.Dump.constructor | src/json.c:170-180 | the block size in use divides the size of the buffer |
| JsonDump.DumpAll | src/json.c:159-197 | for any chunks and any answers of the kernel the file is the text, or a prefix of it on failure |
| Codecs.HexCodec | src/base16.c:33-87 | digits and decoding table are inverse on every pair |
| Codecs.Base64Codec | src/base64.c:33-96 | bit packing and unpacking are inverse on every block of three bytes |
| Codecs.HexDigitIs | src/base16.c:66-87 | the digits of section 8 of RFC 4648 in lower case |
| Codecs.Base64DigitIs | src/base64.c:76-96 | the alphabet of section 5 of RFC 4648 |
| Codecs.CodecInverse | src/base64.c:33-96 | for any inverse pair of blocks, whole texts are inverse, and exactly the image is accepted |
| Codecs.Base16Inverse | src/base16.c:33-87 | base16 decoding accepts exactly what encoding produces, and gives it back |
| Codecs.Base64Inverse | src/base64.c:33-96 | base64url decoding accepts exactly what encoding whole blocks produces, and gives it back |
| Codecs.Base16Number | src/base16.c:66-87 | the text of any bytes is the same number in base 16 as the bytes are in base 256 |
| Codecs.Base64Number | src/base64.c:76-96 | and in base 64 for whole triples |
| Codecs.Base64Image | src/base64.c:33-74 | whatever is accepted is the encoding of what it gives |
| Codecs.EncodeBlocks | src/base64.c:83-95 | the loop of the encoders |
| Codecs.DecodeBlocks | src/base64.c:58-73 | the loop of the decoders, which gives up at the first bad block |
| Codecs.UuidBin2Hex | src/uuid.c:37-51 | the 8-4-4-4-12 form of section 3 of RFC 4122 |
| Codecs.UuidHex2Bin | src/uuid.c:53-71 | gives the bytes of a UUID text, and refuses exactly the texts that no UUID has |
| Codecs.UuidTextInjective | src/uuid.c:37-71 | different UUIDs have different texts |

## Left out

- `hashmap_update` with a replacement entry, which no caller uses, and the De Bruijn fallback of `count_tz`.
- HashMaps.HashMap.Remove: an id must come from a search after the last change to the map, because the code uses it unchecked.
- The hash function of src/hash.c: any function from entries to words.
- Chromium: the id and GUID indexes are maps in the model, and so is the name index outside `NameIndexes`; that the hash map behaves as one is the subject of `HashMaps`.
- BookmarkStore.Store.Rename: what lookups by name give once the index is damaged is a parameter.
- NameIndexes.ReplaceIndexed: what happens after a write out of the table is not modelled, and an aborted process has no outcome.
- Firefox: GUID file names, keyword rename, retries on a GUID that is in use, time stamps, `moz_bookmarks_deleted`, and failures of SQLite itself. A failed transaction is one that restores the tables.
- PlacesStore.Store.TagDelete: the tagged bookmark is any that has the name, because the order in which the query returns rows is not fixed.
- Firefox URL parsing, and Firefox duplicate detection while checking names.
- Watcher: destruction, the kqueue variant, and wake-ups without a signal. StartUpRace shows why the promise starts with the first rearm.
- Chromium: GUID file names, where entries keep no name; the name fix of the checker, which hashes with another key than it searches with; other fields of a JSON node and time stamps; listing cookies; reloading a changed file.
- Chromium ids in the checksum: the text of an id is a parameter, since a file may write a number in more than one way.
- FsckRepair.Repair: fewer than 2^32 names are in use, since the numbers repeat after that; the backend is the documented one, which checks form, then use, then encoding.
- Interactive repair, read-only reports, and the control commands that rewind, skip and reset a walk.
- FsckWalk.Walker.Next: the recursive walk only; without recursion it stops after the first directory. The tree does not change and the backend does not fail.
- BlockStream.Ctx.Update: what a block does to the registers is a function; `Md5.UpdateOne` proves that the loops of the code compute that function.
- FileBuffer: modification times, handle sharing and files written before they are loaded.
- JsonDump.File.WriteAll: a device error, which aborts the process, counts as a failure.
- Codecs: an output buffer is the sequence of what is written to it, one block after the other.
- FUSE, kernel caches, sandboxing, option parsing and logging.
