# Verified model of Memcache-fs

Memcache-fs is a FUSE file system that keeps everything in a memcached server: one string for the table of paths, one
for the next inode id, one record string for each inode and one string for each block. This project models that code in
Dafny and proves what it does.

The model has three layers.

* **The hash table** (`UtHash`, `HashSort`, with `MergeSort` and `Bits` underneath). `uthash.h` as a class over heap
  nodes: each node is linked into the application-order list and into a bucket chain. `Valid()` is the invariant that
  `HASH_FSCK` checks, and more. The list sort relinks nodes in place and is proved to be a stable merge sort.
* **The text encodings** (`CStrings`, `Lines`, `DataParser`, `InodeTable`, `Directory`, `Records`, `Xattrs`,
  `XattrLaws`, `XattrList`, `Paths`, `StoreKeys`, `Protocol`). The code finds things in its strings by the first match
  of a substring. For each operation the exact condition is proved under which that is the map operation it is meant
  to be.
* **The file system** (`FsModel` to `FlatSystem` for the state machine, `FileSystem` for the callbacks). `FsModel` says
  what each callback does to a state of table, counter, inodes and blocks; `FsInvariants` proves that every step keeps
  the invariant `Inv`; `FsRuns` carries it over all runs; `FlatSystem` proves that every run is a run of a file system
  that maps names to byte sequences and knows nothing of blocks or records. `FileSystem` has the callbacks of `main.c`
  as methods on the store and the hash table. Each is proved to take the encoded state through exactly one step, so
  the theorems about runs hold of them. A write that loses a block to the client's sentinel (below) is a step of the
  block-wise system too; it is a step of the flat one if and only if nothing is lost. An inode's record is its seven
  attributes followed by any text, so that the theorems hold whatever the extended attribute calls have made of it.
  `StepLaws` spells out everything a step changes, and follows an inode over its life. `StaleBlocks` says what deletion
  leaves behind. `Session` shows runs whose guards are met.

The in-memory index and the store are tied to one ghost state by `FileSystem.MemcachedFs.Valid`: the index holds the
table's entries in order, the store encodes the state (`FsStore.Encodes`), and the invariant holds.

## Where the code departs from its intent

The code is modelled as it is. Each line names the exact condition under which it does what it is meant to do, and
an input on which it does not.

* **Block descriptions.** `random_access.c:25` tests the remainder of the size instead of the remainder of what is left
  after the first block. The description is right exactly under `RandomAccess.Coverable` (`RandomAccess.CoversExactly`;
  `Departures.BlockOverrun`).
  It names as many blocks as the range touches exactly when it is right and the range does not start inside a block and
  end at the end of a later one; such a range gets an empty block more, which a write stores and counts in `st_blocks`
  (`RandomAccess.BlockCount`, `StepLaws.InodeStep`; `Departures.EmptyBlock`).
* **Removing a path or a name.** `remove_inode_from_table` and `remove_link_from_parent_dir` cut at the first substring
  match. They take the right entry exactly under `InodeTable.RemovesEntry` and `Directory.RemovesName`
  (`InodeTable.RemoveExactly`, `Directory.RemoveLinkExactly`; `Departures.WrongEntry`, `Departures.WrongName`).
* **The stored table.** `delete_inode` stores the new table with the length of the old one (`main.c:268`). The value is
  the new text, a NUL and whatever lies behind it; every reader stops at the NUL, so the table it stands for is always
  right.
* **A value that is a command.** `send_command` takes the value `NOVALUE` for a command without a value
  (`memcached_client.c:101`). A block whose C string is that word is never stored. A write is the intended splice
  exactly when no block it touches becomes such a block (`FlatFile.WriteExactly`, `FlatSystem.Simulates`;
  `Departures.LostWord`).
* **Extended attributes.** All four calls search the whole record for the name. They are lookup, update, removal and
  list of a map exactly under the conditions of `XattrLaws.GetExactly`, `Xattrs.SetXattrExactly`,
  `Xattrs.RemoveXattrExactly` and `XattrList.ListXattrExactly` (`Departures.WrongAttribute`, `Departures.WrongSet`,
  `Departures.WrongRemoval`, `Departures.WrongList`).
* **Scans past the record.** The scan of get and set finds no newline exactly when the first line with the name is the
  last one and ends with it; that of remove misses its second newline exactly when the first line with the name is the
  last one (`XattrLaws.TerminatedExactly`, `XattrLaws.TwoLinesExactly`; `Departures.RunsOff`).
* **Newlines in values.** A value or a link's target with a newline is stored whole, but only its first line is read
  back; all of it comes back exactly when it has no newline (`XattrLaws.SetThenGetXattr`, `Records.ContentLaw`;
  `Departures.ShortValue`, `Departures.ShortTarget`).
* **`readlink`** copies the first line of the target without looking at the size of the buffer, and writes no NUL.
* **`st_blocks`** of a file is the block count of its last write (`main.c:621`). Deletion leaves no block exactly when
  all of them lie below it (`StaleBlocks.DeleteLeavesNothing`); after a write that is so exactly when the write starts
  in block 0 and reaches every older block (`StaleBlocks.LosslessWriteCounts`, and `StaleBlocks.WriteCounts` when blocks
  are lost; `Departures.StaleBlock`). Directories and links never leave one (`StaleBlocks.OnlyFilesLeaveBlocks`). Inode
  ids are never used again, so no later file sees a block left behind (`FsRuns.NewInodeClean`).
* **`inode_value`.** The design document calls it the smallest unused id. The counter only grows; it is the smallest
  unused id exactly while no inode has lost its last path (`FsRuns.SmallestId`; `Session.SkippedId`).
* The design document shows the table without a newline after an id. In the code every path and every id ends in one.

## What the callbacks ask of their callers

These are the `requires` clauses of `FileSystem.MemcachedFs`. From the kernel:

* paths are absolute and normal, and their components hold no newline; targets of create, mkdir, symlink and link are
  new and have a directory as parent; read and write get a regular file, readdir and rmdir a directory (rmdir not the
  root), readlink a link, unlink a path that is there and no directory, the attribute calls a path that is there;
* link starts from a regular file; create brings the mode of a regular file, mkdir permission bits only, and chmod
  keeps the file type; ids for chown are -1 or more; a link's target is a C string;
* a buffer is at least as long as its size says, and is no part of the file system.

From the list above, where the C code would leave its memory or the structure of its strings:

* `Read`, `Write`: the block description covers the range (`Coverable`);
* `Unlink`, `Rmdir`: the first matches of the path and of its name are their own (`Removable`);
* `Setxattr`, `Getxattr`: the scan for the name ends inside the text (`Terminated`); `Removexattr`: two newlines follow
  the match (`TwoLinesFollow`);
* `Readlink`: the scan ends, and the first line of the target fits the buffer (`LinkFits`);
* `Setxattr`, `Removexattr`: the name is not empty, holds no newline or NUL, and occurs in none of the file system's own
  lines (`Foreign`); every name with a dot, and so every name with a namespace, qualifies
  (`XattrLaws.DottedIsForeign`).

Nothing is asked about the extended attributes already there: the calls may be wrong about them in the ways above, and
the invariant holds all the same.

## Model

| member | source | states |
|---|---|---|
| UtHash.HashTable.Valid | uthash.h:526-573 | the representation invariant: list linked both ways from head to tail, keys distinct, each node in the chain of its slot, bucket counts, item count, and no chain at its threshold while the table may grow and its ideal length is below 10 |
| UtHash.HashTable.Add | uthash.h:407-426 | a fresh key goes to the end of the entries; the invariant holds again, through expansion too; the first key brings a table of 32 buckets |
| UtHash.HashTable.AddToTable | uthash.h:860-879 | the node joins its masked bucket; the table doubles exactly when that bucket reaches its threshold and may still grow, with what an expansion leaves; otherwise the node is first in its chain and no multiplier or counter of the table changes |
| UtHash.HashTable.AppendList | uthash.h:289-295 | appending repairs prev, next and tail |
| UtHash.HashTable.AddInorder | uthash.h:361-392 | the entries become the ordered insertion of the new one; front, middle and append cases |
| UtHash.HashTable.InsertionPoint | uthash.h:297-304 | the loop stops at the first node that compares after the new one |
| UtHash.HashTable.InsertList | uthash.h:366-386 | the node lands at that place with all links and head or tail repaired |
| UtHash.HashTable.Find | uthash.h:838-857 | a node with the key if one is in the table, null only if none is |
| UtHash.HashTable.Delete | uthash.h:461-488 | the entry of the node goes, every other stays in order, and the invariant holds in the single, head, tail and middle cases |
| UtHash.HashTable.DelInBucket | uthash.h:882-895 | the node leaves its chain and the counts; the multipliers stay |
| UtHash.HashTable.ExpandBuckets | uthash.h:926-976 | twice the buckets hold the same nodes; ideal length is the ceiling; non-ideal items are the excess over it; every bucket has exactly the multiplier its length has earned (Tuned); noexpand after two ineffective expansions |
| UtHash.HashTable.SetIdeal | uthash.h:939-942 | shift and mask compute the ceiling of items over new buckets |
| UtHash.HashTable.MoveNode | uthash.h:946-961 | one node goes to the front of its new chain and is counted |
| UtHash.HashTable.Fsck | uthash.h:526-573 | over intact forward links, the check returns true if and only if every hh_prev, prev, bucket count and item count is right |
| UtHash.HashTable.SoundIsValid | uthash.h:526-573 | over intact forward links with every node in its bucket, what the check looks for is equivalent to the invariant |
| UtHash.HashTable.Free | hashtable.c:159-168 | deleting from the head empties the table |
| UtHash.GrowTuned | uthash.h:949-954 | counting one more item keeps the multiplier what the length has earned: (multiplier - 1) ideal lengths are fewer than the items, (multiplier + 1) are enough, and none up to the ideal length |
| UtHash.TunedOnce | uthash.h:949-954 | chain length and ideal length determine the multiplier |
| UtHash.ShortAgain | uthash.h:870-871 | after an expansion every chain is below its threshold again, if the ideal length is below 10 |
| Bits.MaskIsSlot | uthash.h:441-444 | masking with the table size less one is the remainder |
| Bits.CeilByMask | uthash.h:939-941 | shift plus one for a non-zero mask is the least number of groups |
| HashSort.Srt | uthash.h:983-1065 | the list is relinked into the bottom-up merge sort of its entries; it terminates, the invariant holds, nodes and chains stay |
| HashSort.PassOnce | uthash.h:993-1055 | one pass merges neighbouring runs, and makes at most one merge exactly when two runs cover the list |
| HashSort.MergeRuns | uthash.h:1010-1049 | two runs are merged into the sorted part, left first on ties |
| HashSort.SortList | uthash.h:983-1065 | the list ends up sorted and a stable permutation of what it was; the map and the bucket chains are untouched |
| MergeSort.SortCorrect | uthash.h:983-1065 | doubling runs from one element on sorts stably under any total preorder |
| MergeSort.InsertedSorted | uthash.h:361-392 | ordered insertion keeps a sorted list sorted |
| MergeSort.InsertedAfterEquals | uthash.h:361-392 | the new element comes after its equals |
| Items.MapWithout | hashtable.c:37-48 | removing an entry removes its key from the map and nothing else |
| Items.SameMap | uthash.h:983-1065 | reordering distinct entries leaves the map alone |
| Hashtable.GetEntry | hashtable.c:22-35 | the inode id of a path, or -1 |
| Hashtable.AddEntry | hashtable.c:12-20 | one more entry at the end |
| Hashtable.RemoveEntry | hashtable.c:37-48 | the entry of the path goes, and its id is returned |
| Hashtable.StringToTable | hashtable.c:50-98 | the parser puts exactly the pairs of the text into the index, in order, up to the NUL |
| CStrings.AtoiDec | data_parser.c:18-26 | reading back a printed number gives the number, whatever follows it |
| Lines.StrStrEnc | data_parser.c:101-127 | the first match in newline-terminated text lies in the first line that contains the name |
| Lines.EncInjective | data_parser.c:205-232 | the text determines its lines |
| DataParser.GetAttrValueStr | data_parser.c:101-127 | the scan returns the text after the first match up to the end of its line |
| DataParser.ModifyAttrStr | data_parser.c:145-182 | everything from the match to the end of the value's line is replaced by the new pair |
| DataParser.SetThenGet | data_parser.c:145-182 | on any text and for any value, get after modify returns the value up to its first newline |
| Records.FieldLaws | data_parser.c:92-182 | on the record of an inode, reading any st_ attribute gives the field, and modifying gives the record with only that field changed |
| Xattrs.RecordText | main.c:194-222 | the record text, attribute by attribute, and what follows them |
| Records.ContentLaw | main.c:878-897 | on the record of a link, st_content is read as the first line of the target, which is the target if and only if it holds no newline |
| InodeTable.AddAppends | data_parser.c:205-232 | add appends exactly one pair |
| InodeTable.TableText | data_parser.c:205-232 | the table is path, newline, id, newline for every entry in order |
| InodeTable.RemoveInodeFromTable | data_parser.c:234-266 | the scan cuts from the first match to the end of the line after the one it ends in |
| InodeTable.RemoveExactly | data_parser.c:234-266 | that is removal of exactly one pair if and only if no earlier entry contains the path (or just the one before, at its end, with the same id) |
| InodeTable.ParseEnc | hashtable.c:50-98 | parsing inverts printing |
| Directory.AddLinkAppends | main.c:108-131 | the new block lists one name more |
| Directory.RemoveLinkExactly | main.c:168-181 | cutting the first match removes exactly one name if and only if no earlier name contains it (or just the one before, at its end) |
| Directory.ListLinks | main.c:436-459 | the loop yields the names between newlines, in order |
| Paths.JoinSplit | data_parser.c:268-300 | joining parent and base name gives the path back |
| Paths.SplitJoin | data_parser.c:386-411 | splitting a joined path gives directory and name back |
| RandomAccess.CoversExactly | random_access.c:6-38 | the description covers the range exactly if and only if the offset is aligned, or the size is no multiple of the block size, or it is zero |
| RandomAccess.BlockCount | random_access.c:15-35 | for every range of at least one byte: as many blocks as touched if and only if the range is covered and no spare block arises; one more with an empty last block if and only if it starts inside a block and ends at the end of a later one; one fewer if and only if it is not covered |
| RandomAccess.TouchedBlocks | random_access.c:10-15 | the blocks from that of the first byte to that of the last are those that hold a byte of the range |
| StoreKeys.BlockKeyInjective | data_parser.c:61-90 | a block key determines inode and block |
| StoreKeys.KeysApart | data_parser.c:61-90 | block keys, inode keys, inode_table and inode_value are pairwise different |
| Protocol.ServerReadsStorage | memcached_client.c:20-54 | the server parses the storage command back to key, length and payload, whatever bytes the payload has |
| Protocol.ServerReadsRetrieve | memcached_client.c:56-80 | the server parses the retrieval command back to its words |
| Protocol.ReplyParses | memcached_client.c:187-221 | the reply parser returns the payload for every payload, with CRLF or END inside too |
| Protocol.Memcached.Set | memcached_client.c:148-162 | stores exactly the value, except that a value whose C string is NOVALUE is not stored |
| Protocol.Memcached.Get | memcached_client.c:187-221 | the stored bytes, or nothing when the key is absent |
| Protocol.Memcached.Delete | memcached_client.c:223-244 | the key is gone, and no other |
| Protocol.Memcached.FlushAll | memcached_client.c:246-263 | the store is empty |
| Xattrs.PutLookup | main.c:674-706 | the value put is found and every other attribute is unchanged |
| Xattrs.DropLookup | main.c:777-796 | the attribute dropped is gone and every other is unchanged |
| Xattrs.GetIsLookup | main.c:708-744 | under an unambiguous name the text search is the map lookup |
| XattrLaws.GetExactly | main.c:708-744 | the text search is the map lookup if and only if the name is unambiguous or the text after its first match happens to be the value |
| XattrLaws.SetThenGetXattr | main.c:674-744 | getxattr after setxattr, of a new name or an old one, gives the value up to its first newline, and the value if and only if it has none |
| XattrLaws.PutUnambiguous | main.c:674-706 | an unambiguous name stays so when it is set |
| XattrLaws.RemoveThenGet | main.c:708-796 | after an exact removal getxattr finds nothing if and only if no other line holds the name |
| XattrLaws.TerminatedExactly | data_parser.c:101-127 | the scan of get and set ends in the record unless the first line with the name is the last one and ends with it |
| XattrLaws.TwoLinesExactly | data_parser.c:361-378 | the scan of remove ends in the record unless the first line with the name is the last one |
| XattrLaws.OnTail | data_parser.c:101-182 | under a name that none of the own lines holds, every call works on the text behind them alone |
| XattrLaws.DottedIsForeign | main.c:674-744 | a name with a dot occurs in none of the own lines of any record |
| XattrLaws.SetKeepsRecord | main.c:674-706 | on a well-formed record setxattr is the update, and the record stays well formed, if and only if the name is unambiguous or nothing changes |
| XattrLaws.RemoveKeepsRecord | main.c:777-796 | on a well-formed record removexattr is the removal, and the record stays well formed, if and only if RemovesAttr holds |
| Xattrs.SetXattrExactly | main.c:674-706 | setting in the text is setting in the map if and only if the name is unambiguous (or nothing changes) |
| Xattrs.RemoveXattrExactly | data_parser.c:349-384 | removing from the text is removing from the map if and only if RemovesAttr holds |
| XattrList.GetExtendedAttrsList | data_parser.c:302-347 | the strtok loop collects every other token after st_blocks, each with a NUL |
| XattrList.ListXattrExactly | data_parser.c:302-347 | on an inode's record those are the names after st_blocks in order if and only if ListsRight holds |
| FsModel.Inv | main.c:88-312 | the invariant: tree, link counts, directory blocks, unused ids, full and zero-padded blocks, well-formed records |
| FsInvariants.CreateKeeps | main.c:188-262 | create, mkdir and symlink keep the invariant |
| FsInvariants.LinkKeeps | main.c:848-867 | link keeps the invariant |
| FsInvariants.DeleteKeeps | main.c:264-312 | unlink and rmdir keep the invariant |
| FsInvariants.WriteKeeps | main.c:571-641 | a write keeps the invariant, for every range |
| FsInvariants.SetKeeps | main.c:798-846 | chmod, chown and the extended attributes keep the invariant |
| FsInvariants.InitOk | main.c:314-333 | the first mount establishes the invariant |
| FsInvariants.InitShape | main.c:322-331 | after it there is just the root: id 0, mode 040755, the mounting user and group, two links, no size, no blocks |
| FsRuns.RunSafe | main.c:314-338 | the invariant holds in every state of every run from the first mount, writes that lose blocks included |
| FsRuns.LinkCount | main.c:277-312 | st_nlink of a regular file is the number of its paths, and an inode exists exactly while it has one |
| FsRuns.ChildrenListed | main.c:423-463 | a directory's block lists each child's base name once and nothing else |
| FsRuns.RootReached | data_parser.c:268-283 | following parents from any path stays in the table and ends at the root |
| FsRuns.NewInodeClean | main.c:190-192 | the next id has no record, no path and no block |
| FsRuns.SmallestId | main.c:190-192 | in any run the counter is the smallest unused id if and only if no step so far has taken the last path of an inode |
| StaleBlocks.DeleteLeavesNothing | main.c:293-306 | deletion of an inode leaves no block of it if and only if st_blocks counts them all |
| StaleBlocks.WriteCounts | main.c:578-624 | after any write st_blocks counts all blocks if and only if no older one lies at or beyond the block count and none is stored there |
| StaleBlocks.LosslessWriteCounts | main.c:578-624 | after a write that loses nothing st_blocks counts all blocks if and only if the write starts in block 0 and reaches every older block |
| StaleBlocks.OnlyFilesLeaveBlocks | main.c:121-131 | st_blocks of a directory or a link always counts its blocks |
| FlatFile.WriteExactly | main.c:571-641 | a block-wise write is the splice of the buffer into the flat file if and only if every block it touches can be stored |
| FlatFile.ZeroTail | main.c:587-613 | all bytes of stored blocks at or beyond st_size are zero |
| FlatFile.ReadBack | main.c:505-641 | reading after a write: the bytes written, the old bytes around them, zeros in a gap |
| FlatFile.ReadConcat | main.c:514-529 | two reads in a row are one, and the whole file can be read |
| FlatSystem.Simulates | main.c:188-312 | a step of the block-wise system is the same step of the flat one if and only if it loses no block |
| FlatSystem.RunSimulates | main.c:505-641 | every run from the first mount whose writes lose no block is a run of the flat system |
| FlatSystem.WriteElsewhere | main.c:580-633 | a write to one inode leaves every block of every other inode alone |
| StepLaws.InodeStep | main.c:188-312 | for every step and inode that stays: mode, owner, group and text change in a set step on it only; nlink in link and delete steps on it; size by a write beyond it; st_blocks by a name entered or a write, with the number of blocks written out |
| StepLaws.RecordStep | main.c:188-262 | the one inode a create step makes, and the one record a set step replaces |
| StepLaws.TableStep | main.c:264-275 | every step appends one entry, takes one out, or leaves the table alone |
| StepLaws.NamesStep | main.c:88-185 | a new name goes to the end of its directory, a deleted one leaves the others in order |
| StepLaws.BlockStep | main.c:571-641 | which blocks a step may touch; every other stays, and is deleted only below st_blocks of an inode that loses its last path |
| StepLaws.TouchedStored | main.c:578-613 | a write stores each block it touches unless that became the sentinel, and what it then holds |
| StepLaws.Lifetime | main.c:190-192 | over any run an inode never comes back, keeps its file type, and never shrinks |
| StepLaws.OwnerStays | main.c:798-846 | over any run mode, owner, group and text of an inode stay unless a set step is taken on it |
| Session.SampleRun | main.c:188-312 | the guards can be met: a run with a create, a link, a write and an unlink, and what the flat system says it leaves |
| Session.SkippedId | main.c:190-192 | a run after which a smaller id than the counter is unused |
| FsStore.StoreInode | main.c:227-229 | storing a record under its key changes that inode only |
| FsStore.StoreBlockKey | main.c:580-613 | storing a block under its key changes that block only |
| FsStore.StoreDecides | main.c:314-338 | the store determines the state: two states with the invariant and the same store are equal |
| FsStore.RecordWhilePath | main.c:283-307 | the store has a record for an inode exactly while some path leads to it |
| FsGuards.StoredTable | main.c:321-337 | what a remount parses from the store is the table of the live index |
| FsText.TableBehind | main.c:266-268 | the value stored with the old length reads as the new table |
| FsText.EntryRemoved | main.c:266-268 | the removal gives the table without the path if and only if its first match is its own |
| FsText.LinkRemoved | main.c:168-181 | the removal gives the names without the name if and only if its first match is its own |
| FsText.AttrLaws | data_parser.c:92-143 | reading and modifying numeric attributes, through print and parse |
| BlockIO.PieceFits | main.c:549-567 | the pieces of a covered range follow one another, fit their blocks and end with the range |
| BlockIO.PieceWritten | main.c:593-613 | copying a piece over what the block held gives the new block |
| FileSystem.MemcachedFs.Init | main.c:314-338 | an empty store gets the root directory, written out; any other store gives back the state it encodes, with the index rebuilt |
| FileSystem.MemcachedFs.CreateInode | main.c:188-262 | record, counter, index, table and parent's links change as Create says |
| FileSystem.MemcachedFs.DeleteInode | main.c:264-312 | table, index, record, blocks and parent's links change as Delete says |
| FileSystem.MemcachedFs.AddLinkToParentDir | main.c:88-146 | the parent's block gains the name and its st_blocks one |
| FileSystem.MemcachedFs.RemoveLinkFromParentDir | main.c:148-185 | the parent's block loses the name |
| FileSystem.MemcachedFs.Create | main.c:482-490 | one create step with a new regular file |
| FileSystem.MemcachedFs.Mkdir | main.c:375-382 | one create step with a new directory |
| FileSystem.MemcachedFs.Symlink | main.c:869-876 | one create step with a new symbolic link that holds the target, whatever C string that is |
| FileSystem.MemcachedFs.Link | main.c:848-867 | one link step |
| FileSystem.MemcachedFs.Unlink | main.c:475-480 | one delete step |
| FileSystem.MemcachedFs.Rmdir | main.c:384-408 | -ENOTEMPTY and no change while the directory has links, otherwise one delete step |
| FileSystem.MemcachedFs.Getattr | main.c:342-373 | the seven attributes of the inode, or -ENOENT |
| FileSystem.MemcachedFs.Readdir | main.c:423-463 | the two dots and the names of the directory's block |
| FileSystem.MemcachedFs.Readlink | main.c:878-897 | the buffer gets the whole first line of the target, without regard to the size and without a NUL; that is the target if and only if it has no newline; the rest of the buffer stays |
| FileSystem.MemcachedFs.Read | main.c:505-569 | the buffer gets exactly the bytes of the flat file from the offset to the end of request or file, as many as that is, and the rest of the buffer stays |
| FileSystem.MemcachedFs.ReadBlocks | main.c:531-564 | the loop over blocks fills the buffer piece by piece |
| FileSystem.MemcachedFs.Write | main.c:571-641 | one write step for every covered range, lost blocks included; of the records only st_blocks and st_size of the file change |
| FileSystem.MemcachedFs.WriteLoop | main.c:578-617 | the loop over blocks stores each new block |
| FileSystem.MemcachedFs.Chmod | main.c:798-815 | one set step with the new mode |
| FileSystem.MemcachedFs.Chown | main.c:817-846 | one set step after which owner and group are the new ones, -1 keeping the old, and all else is as before |
| FileSystem.MemcachedFs.Setxattr | main.c:674-706 | one set step that appends the pair or replaces what the scan finds, for every C string as value |
| FileSystem.MemcachedFs.Getxattr | main.c:708-744 | the length of what the search finds, or as much of it as fits in the buffer; on a record of attributes that is the attribute's value if and only if the name is unambiguous or the search is lucky |
| FileSystem.MemcachedFs.Listxattr | main.c:746-775 | the length of the listed keys, or as many characters as fit in the buffer; on a record of attributes they are the names if and only if ListsRight holds |
| FileSystem.MemcachedFs.Removexattr | main.c:777-796 | one set step that cuts from the match to the end of the line after |
| FileSystem.MemcachedFs.Destroy | main.c:668-672 | the index is empty; the store still encodes the state |
| FileSystem.Restart | main.c:314-338 | a new process on the same server has the state and the index of the old one |
| Departures.BlockOverrun | random_access.c:25-29 | a range that the description lets run over its block |
| Departures.EmptyBlock | random_access.c:30-34 | a write that stores an empty block behind its range and counts it |
| Departures.WrongEntry | data_parser.c:236-250 | a table with its root entry from which removal takes the wrong text |
| Departures.WrongName | main.c:171-178 | a directory from which removal takes the wrong text |
| Departures.WrongAttribute | data_parser.c:101-127 | on the record of any inode with two given attributes, one that nobody set is found |
| Departures.WrongSet | data_parser.c:145-182 | on that record, setting a new attribute renames another |
| Departures.WrongRemoval | data_parser.c:349-384 | on the record of any inode with two given attributes, removing one removes the other |
| Departures.WrongList | data_parser.c:322-344 | on the record of any inode with an empty value, a value is listed as a name |
| Departures.RunsOff | data_parser.c:369-377 | on the record of any inode whose last value is the name, the scans leave the record |
| Departures.ShortValue | main.c:674-706 | a value of two lines of which the first is read back |
| Departures.ShortTarget | main.c:878-897 | a target of two lines of which the first is read back |
| Departures.LostWord | memcached_client.c:98-108 | a write that is lost in every state where the file has no block 0 |
| Departures.StaleBlock | main.c:293-306 | a block that deletion leaves behind, in every state |

## Left out

- Sockets, connecting, partial reads and writes, the 2000-byte reply buffer and server failures: the server is a map behind the text protocol.
- The FUSE callback table, `main`, logging, `exit`, and the callbacks that do nothing or only look a path up (open, opendir, release, flush, fsync, utimens, statfs).
- The hash functions, Bloom filters, `HASH_SELECT`, the replace macros and the out-of-memory paths of `uthash.h`: the hash is any function from keys to numbers, and the table each node refers to is the table object.
- Reading and writing ranges the block description does not cover: the C code runs over a buffer there, and the model stops at the condition.
- malloc, free and leaks; strings are sequences, and only the caller's buffers, the block under change and the memory behind the new table are arrays.
- 32-bit and 64-bit wrap-around of ids, sizes and hash values: all numbers are naturals, and masking is arithmetic.
- `memcached_add`, `hashtable_construct_attributes`, `hashtable_get_attribute` and `hashtable_count`: the file system does not use them.
- Concurrency: each callback is one step.
- Extended attributes whose names hold a newline or occur in the file system's own lines (st_ names, their numerals, st_content): setting or removing them damages those lines. Hard links to symbolic links and to directories.
