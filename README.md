# Simulated inode file system, modelled in Dafny

This project models the core of a small shell that simulates an inode-based
file system (`project4.cpp`). It has four parts.

- **Block addressing** (`block_address.dfy`): the inode constructor turns a file size in bytes into a block breakdown.
  - There are 12 direct blocks.
  - One single-indirect pointer block addresses 256 more data blocks.
  - Beyond that, one double-indirect block points to one second-level pointer block per 256 data blocks.
  - The real block count is the data blocks plus the pointer blocks.
  - The constants are `MAX_INODE_NUM = 128`, `BLOCKSIZE = 1024` and `MAXBLOCK = 973`.
- **Inode registry** (`registry.dfy`): the class `Registry` holds the process-wide arrays `iUsed` and `table` and the counters `totBlock` and `totFile`. Its invariant `Consistent` says:
  - `totFile` is the number of IDs in use and at most 128;
  - `totBlock` is the sum of `realBlock` over the IDs in use and lies between 0 and 973;
  - every entry in use is the record the constructor builds for that ID.

  Allocation takes the lowest free ID. Release clears the flag and leaves the record stale.
- **Directory tree** (`namespace.dfy`, `dentry_ops.dfy`): a directory entry is a value.
  - It holds a name, an absolute path, a parent flag (`par != NULL`), its children in creation order and its set of inode IDs.
  - Each member function of `Dentry` is a method that takes the registry and the entry, and returns the entry's new value.
  - A `std::set<int>` is walked in ascending order. The model scans the IDs `0 .. 127` for that.
  - The tree invariant `Wf` requires unique sibling names, unique file names within a directory, and each child's path and parent link as `createDir` sets them.
  - `FidsDisjoint` says no ID is referenced by two directories. `FileSystem.Valid` adds that the referenced IDs are exactly the live ones.
- **Commands** (`tokenize.dfy`, `navigate.dfy`, `batch.dfy`, `shell.dfy`):
  - `split` is a loop, specified by the function `SplitSpec`.
  - The `cd` walk uses a scratch cursor with rollback, specified by the function `Walk`.
  - `mkdir`, `rmdir` and `rmfile` each validate the whole batch before applying it.
  - The class `FileSystem` holds the registry, the root and the cursor `cur`. Its invariant `Valid` adds that the live IDs are exactly those the tree references.

`cur`, `prev` and `par` are pointers in the source. The model represents each as an address: the sequence of child indices followed from the root. Going to the parent drops the last index.

`mkdir` takes any word as a name, including one that holds `/` or is `.` or `..`. The relative form of `cd` re-splits the current directory's path. It therefore finds the current directory again only when the names on the way there are plain. `Navigate.RelativeCd` proves this under exactly that condition. The model keeps the source's behaviour for other names.

## Model

| member | source | states |
|---|---|---|
| BlockAddress.BlockLayout | project4.cpp:28-47 | `fileBlock` is ceil(size / 1024). Up to 12 blocks are direct only. Up to 268 blocks add one single-indirect pointer block. Beyond that, `y` is 257 and `z` holds the double-indirect block, ceil(left / 256) second-level blocks and the left-over data. `realBlock = x + y + z >= fileBlock`. |
| BlockAddress.NewInode | project4.cpp:28-47 | The record keeps the ID, name and size it was built from and costs at least one block. |
| BlockAddress.RealBlockMonotone | project4.cpp:32-46 | `realBlock` never decreases as the size grows. |
| BlockAddress.BoundaryLayouts | project4.cpp:32-46 | The exact breakdowns for 12, 13, 268 and 269 data blocks: totals 12, 14, 269 and 272. |
| BlockAddress.FitsOnEmptyDisk | project4.cpp:73-75 | A file fits on an empty disk of 973 blocks exactly when its size is at most 968 * 1024 bytes. |
| InodeRegistry.LowestFree | project4.cpp:79-80 | The ID the scan stops at: every lower flag is set and its own flag is clear. |
| InodeRegistry.UsedIdsBound | project4.cpp:50 | At most 128 IDs are in use, and 128 only when every flag is set. |
| InodeRegistry.AllocateKeepsConsistent | project4.cpp:82-88 | Marking a free ID used, storing its record and raising both counters keeps the registry invariant, provided the blocks fit. |
| InodeRegistry.FreeKeepsConsistent | project4.cpp:102-108 | Clearing a used ID and lowering the counters by its record's blocks and by one keeps the invariant. |
| InodeRegistry.AllocateFreeRoundTrip | project4.cpp:78-108 | Allocating and then freeing restores the flags and both counters. The same ID is handed out next. |
| InodeRegistry.Registry.AllocateThenFree | project4.cpp:78-108 | Calling `allocInode` and then `freeInode` on the ID it returns gives back the flags, the used set and both counters. Only the freed record stays behind in the table, and the same ID is handed out next. |
| InodeRegistry.Registry.constructor | project4.cpp:50-51 | Every ID is free and both counters are zero. |
| InodeRegistry.Registry.Allocate | project4.cpp:79-88 | Takes the lowest free ID, stores the record built for the name and size, and adds its blocks and one file to the counters. |
| InodeRegistry.Registry.Free | project4.cpp:102-108 | Clears the flag, gives back the record's blocks and one file, and leaves the table unchanged. |
| DentryOps.CanCreateFile | project4.cpp:64-76 | Returns false exactly when the directory has a file of that name, or the inode table is full, or the new file's blocks would exceed 973. |
| DentryOps.CreateFile | project4.cpp:78-89 | Allocates the lowest free ID for the file and adds the ID to the directory. The block counter rises by `realBlock` and the file counter by one. |
| DentryOps.CanRemoveFile | project4.cpp:92-100 | Returns true exactly when the directory holds a file of that name. |
| DentryOps.RemoveFileById | project4.cpp:102-108 | Frees the ID, lowers both counters and drops the ID from the directory. |
| DentryOps.RemoveFileByName | project4.cpp:110-115 | Removes the lowest ID in the directory whose file has that name, with the effects of removal by ID. |
| DentryOps.GetInode | project4.cpp:172-180 | Returns the table record of the lowest such ID, which is the record built for that name and size. |
| DentryOps.CanCreateDir | project4.cpp:118-125 | Returns true exactly when no child has that name. |
| DentryOps.CreateDir | project4.cpp:127-133 | Appends one empty child at the end, with the parent link and `path + ("" if root else "/") + name`. The other children and the files are unchanged. The new child is the one found by that name. |
| DentryOps.CanRemoveDir | project4.cpp:137-144 | Returns true exactly when a child has that name. |
| DentryOps.RemoveAllFiles | project4.cpp:148-149 | Removes the directory's files, lowest ID first, until its ID set is empty. Exactly those IDs are freed. |
| DentryOps.RemoveAllChildren | project4.cpp:151-156 | Pops the children from the back and empties each one. Exactly the IDs of their subtrees are freed. |
| DentryOps.MakeEmptyDir | project4.cpp:146-157 | Ends with no files and no children. It frees exactly the subtree's IDs, lowering `totFile` by their number and `totBlock` by their summed blocks. |
| DentryOps.RemoveDir | project4.cpp:159-167 | Erases exactly the first child of that name and keeps the others in order. It frees that child's subtree and lowers both counters. |
| Namespace.AppendChildWf | project4.cpp:118-133 | Creating a child under a name no sibling has keeps the tree well formed. |
| Namespace.RemoveChildWf | project4.cpp:159-167 | Erasing a child keeps the tree well formed. |
| Namespace.RemoveChildFids | project4.cpp:159-167 | Erasing a child drops exactly its subtree's IDs and keeps the IDs disjoint. |
| Tokenize.Split | project4.cpp:185-198 | The loop returns `SplitSpec(line, ch)`. |
| Tokenize.SplitWords | project4.cpp:185-198 | Every piece is non-empty and free of `ch`. |
| Tokenize.SplitKeepsCharacters | project4.cpp:185-198 | The pieces concatenate to the line with every `ch` removed, in order. |
| Tokenize.SplitEmpty | project4.cpp:185-198 | The result is empty exactly when the line holds only separators, the empty line included. |
| Tokenize.SplitJoin | project4.cpp:185-198 | Splitting gives back non-empty, separator-free words joined by single separators, so the pieces are the maximal runs. |
| Navigate.Segments | project4.cpp:228-237 | An absolute argument gives its own pieces. A relative one gives the current path's pieces followed by its own. |
| Navigate.ChildIndex | project4.cpp:255-261 | Finds the index of the first child with the name. |
| Navigate.ChangeDir | project4.cpp:238-267 | `ok` is true exactly when the walk from the root succeeds. Then the cursor is where the walk ends; otherwise it is restored to its prior value. |
| Navigate.PathOfAddr | project4.cpp:127-133 | Every path is "/" followed by the names on the way from the root, joined with "/". |
| Navigate.RelativeCd | project4.cpp:233-237 | With plain names on the way to the current directory, walking its re-split path and then the argument equals walking the argument from the current directory. |
| Navigate.DotsIgnored | project4.cpp:244 | The walk is the same with every "." segment removed. |
| Navigate.UpsAtRoot | project4.cpp:245-247 | Any number of leading ".." segments from the root stay at the root. |
| Navigate.ChildThenParent | project4.cpp:245-261 | Going into an existing child and then ".." returns to the same place. |
| Batch.ValidateMkdir | project4.cpp:270-277 | The check phase passes exactly when no name is a child's and no name repeats. |
| Batch.CreateDirs | project4.cpp:278-283 | The apply phase creates one child per name in order. |
| Batch.CreateAllChildren | project4.cpp:278-283 | A batch appends one new empty child per name, in order, and changes nothing else. |
| Batch.MkdirUnique | project4.cpp:269-283 | From unique sibling names, the names stay unique exactly when the corrected check passes. |
| Batch.MkdirKeepsWf | project4.cpp:269-283 | A batch that passes the corrected check keeps the tree well formed. |
| Batch.MkdirDuplicateAccepted | project4.cpp:271-283 | `mkdir a a` passes the source's check and leaves two children named "a". |
| Batch.ValidateRmdir | project4.cpp:287-294 | The check phase passes exactly when every name is a child's and no name repeats. |
| Batch.RemoveDirsIn | project4.cpp:295-300 | Applies `removeDir` to each name in order. It frees exactly the removed subtrees' IDs and keeps the registry invariant and the tree well formed. |
| Batch.RemoveDirsResult | project4.cpp:286-300 | With unique sibling names, the removals all find their child exactly when the corrected check passes. They then remove exactly the named children and keep the rest in order. |
| Batch.RmdirDuplicateAccepted | project4.cpp:286-300 | `rmdir a a` passes the source's check, but the second removal finds no child. |
| Batch.ValidateRmfile | project4.cpp:319-326 | The check phase passes exactly when every name is a file's and no name repeats. |
| Batch.RemoveFilesIn | project4.cpp:327-332 | Applies `removeFile(name)` to each name in order. It frees exactly those IDs and keeps the registry invariant and the tree well formed. |
| Batch.RemoveFilesResult | project4.cpp:318-332 | With unique file names, the removals all find their file exactly when the corrected check passes. They then remove exactly the named files. |
| Batch.RmfileDuplicateAccepted | project4.cpp:318-332 | `rmfile f f` passes the source's check, but the second removal finds no file. |
| Batch.CreateThenRemoveFile | project4.cpp:78-115 | Creating a file under a fresh ID and removing it by name gives back the directory as it was. |
| Shell.FileSystem.constructor | project4.cpp:203-205 | Start-up: the empty root with path "/", the cursor on it, and no inode in use. |
| Shell.FileSystem.Cd | project4.cpp:226-268 | The cursor moves to the end of the walk, or stays where it was when a segment cannot be followed. The tree is untouched. |
| Shell.FileSystem.Mkdir | project4.cpp:269-285 | When the corrected check passes, the current directory gets the new children. Otherwise nothing changes. All invariants are kept. |
| Shell.FileSystem.Rmdir | project4.cpp:286-305 | When the corrected check passes, exactly the named children go and their IDs are freed. Otherwise nothing changes. The counters stay equal to the number and summed blocks of the IDs in use. |
| Shell.FileSystem.Mkfile | project4.cpp:306-317 | Succeeds exactly when `canCreateFile` holds. It then takes the lowest free ID, writes that ID's record and leaves every other record of the table as it was, and adds the file's blocks and one file. Otherwise the tree, the table, the used set and both counters are unchanged. |
| Shell.FileSystem.Rmfile | project4.cpp:318-337 | When the corrected check passes, exactly the named files' IDs are freed and dropped from the directory. Otherwise nothing changes. |
| Shell.FileSystem.InspectInode | project4.cpp:338-345 | Finds the file exactly when the directory holds one of that name. It returns that file's record. |
| Shell.FileSystem.Exit | project4.cpp:357-358 | Empties the root: no inode is in use and both counters are zero. |

## Left out

- The command loop, `getline`, the prompt with `USERID`, and every `printf`/`cout` are I/O. That includes `ls`, the block report after each command, and the inode report. Each command is a method; the values they would print are its results or state.
- `stoi` parsing of the size: `Mkfile` takes an integer and requires it to be positive.
- Missing operands, such as `cd` without an argument: the methods take their operands as parameters. A `cd` argument is a word of the split line and therefore non-empty.
- `new` and `delete`: a directory owns its children as values inside its own value, and a pointer is an address. A method that changes the current directory returns its new value, which is written back into the tree at the cursor's address. The tree has no sharing, so no aliasing is lost.
- `getInode` with no matching name falls off the end of the function. Both `GetInode` and `RemoveFileByName` require a file of that name, as checked by `canRemoveFile` beforehand.
- Shutdown sets `root` and `cur` to NULL. `Exit` instead leaves the emptied root with the cursor on it.

## Findings

| source | as written | input that shows it | evidently intended | confidence | as-written member | corrected member |
|---|---|---|---|---|---|---|
| project4.cpp:269-283 | The `mkdir` check tests each name only against the existing children, not against earlier names of the batch. | `mkdir a a` in an empty directory creates two children named "a". | The batch fails on a name repeated within it, so sibling names stay unique. | high, not executed | Batch.MkdirDuplicateAccepted | Batch.ValidateMkdir, proved by Batch.MkdirUnique |
| project4.cpp:286-300 | The `rmdir` check tests each name only against the existing children. | `rmdir a a` with one child "a": the second `removeDir("a")` scans past the end of `children`. | The batch fails on a repeated name. | high, not executed | Batch.RmdirDuplicateAccepted | Batch.ValidateRmdir, proved by Batch.RemoveDirsResult |
| project4.cpp:318-332 | The `rmfile` check tests each name only against the existing files. | `rmfile f f` with one file "f": the second `removeFile("f")` runs past the end of `fid`. | The batch fails on a repeated name. | high, not executed | Batch.RmfileDuplicateAccepted | Batch.ValidateRmfile, proved by Batch.RemoveFilesResult |

The shell commands use the corrected checks. Each command runs its check loop before touching anything so that the whole batch can then be applied (the comments at project4.cpp:270, 287 and 319 ask whether all names can be created or removed). A repeated name defeats that: the check passes, and the apply phase then creates a duplicate sibling or looks for an entry that is already gone.
