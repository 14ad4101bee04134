# libultrahand file, list and pixel core in Dafny

This project is a model of three parts of libultrahand, the helper library
of the Ultrahand overlay for the Nintendo Switch:

- **Path functions** (`libultra/source/path_funcs.cpp`). These are the stat
  predicates, recursive directory creation and the log writer, plus the
  stack-driven delete, move and copy walks. Also modelled are the
  total-size walk, the pattern variants over an expanded file list, the
  mirror operation and flag-file creation. The SD card is a `Volume`
  object: a map from path components to entries (regular file with its
  bytes, directory, or any other kind). It also holds fixed device faults:
  - entries that cannot be removed or renamed;
  - directories and files that cannot be opened;
  - files whose opening keeps failing for a number of attempts;
  - the read call and the write call that fail.

  Every operation is an imperative method over that object. Each is proved
  against a function of the old tree or a safety predicate.
- **List functions** (`libultra/source/list_funcs.cpp`). These are prefix
  filtering of string lists (on an array, in place, keeping order), the
  bracketed comma-list parser, line lookup in a list file and the
  duplicate-line comparisons. A file is given by its text, or `None` when
  it cannot be opened.
- **Renderer pixel core** (`libtesla/source/tesla.cpp`). This is the
  scissor stack, the 4-bit colour blend, the block-linear
  framebuffer offset, and the three pixel writers on the framebuffer array.

Paths are compared by their non-empty '/'-separated components (`Comps`), as
the file system resolves them, so "a//b" and "a/b/" name the same entry. The
modelled build is the one without C++ streams (`NO_FSTREAM_DIRECTIVE`), which
uses `FILE*`; the stream build does the same things.

Modules:
- `Wrappers`, `Paths`: shared value types and path helpers.
- `FileSystem`: the volume and its system calls.
- `DirFuncs`: stat predicates, directory creation and the log writer.
- One module per concern after that: `Delete`, `Sizes`, `Move`, `CopyFile`,
  `Copy`, `CopyBatch`, `FlagFiles`, `ListFuncs`, `Tesla`.

## Model

| member | source | states |
|---|---|---|
| DirFuncs.IsDirectory | libultra/source/path_funcs.cpp:52-55 | true exactly when the path names a directory |
| DirFuncs.IsFile | libultra/source/path_funcs.cpp:65-68 | true exactly when the path names a regular file |
| DirFuncs.IsFileOrDirectory | libultra/source/path_funcs.cpp:78-81 | true exactly when `stat` finds any entry at the path (links and devices included) |
| DirFuncs.StatKinds | libultra/source/path_funcs.cpp:52-81 | a path is never both a file and a directory; it exists exactly when it is a file, a directory or another kind |
| DirFuncs.CreateSingleDirectory | libultra/source/path_funcs.cpp:90-100 | one `mkdir`: the directory is added when it is missing and its parent is a directory; otherwise nothing changes and the failure is ignored |
| DirFuncs.StripRoot | libultra/source/path_funcs.cpp:111-116 | removes a leading `sdmc:/` and nothing else; the stripped text appended to `sdmc:/` gives back the path |
| DirFuncs.CreateDirectory | libultra/source/path_funcs.cpp:110-136 | the tree afterwards is the `mkdir` of each non-empty segment prefix under `sdmc:/`, in order, with empty segments skipped |
| DirFuncs.MkdirChainGrows | libultra/source/path_funcs.cpp:110-136 | creating directories loses and changes nothing; every new entry is a directory at one of the prefixes |
| DirFuncs.MkdirChainWellFormed | libultra/source/path_funcs.cpp:110-136 | directory creation keeps every entry's parent a directory |
| DirFuncs.CreateDirectoryIdempotent | libultra/source/path_funcs.cpp:110-136 | a second `createDirectory` of the same path changes nothing |
| DirFuncs.CreateDirectoryCreates | libultra/source/path_funcs.cpp:110-136 | when the root is a directory and no prefix is taken by a non-directory, every prefix is a directory afterwards |
| DirFuncs.WriteLog | libultra/source/path_funcs.cpp:139-149 | an open log gains exactly the line; a log that is not open is untouched |
| Delete.DeleteFileOrDirectory | libultra/source/path_funcs.cpp:205-330 | the tree loses exactly `DeletedBy`: one unlocked regular file for a path without '/', else the tree walk's removals; the log gains one line per removed regular file, each named once |
| Delete.DeleteFile | libultra/source/path_funcs.cpp:239-258 | the file branch: removes the path when it is an unlocked regular file and logs it |
| Delete.DeleteTree | libultra/source/path_funcs.cpp:261-329 | the walk branch: removes what `TreeDeleteSet` names (all that the walk reaches and can remove) and logs each removed file once |
| Delete.PushChildren | libultra/source/path_funcs.cpp:303-310 | the stack gains each listed child's path with a '/' appended, in listing order |
| Delete.WalkPass | libultra/source/path_funcs.cpp:266-329 | one pass of the stack loop (pop a vanished entry, remove a file, list a directory, or `rmdir` an empty one) matches the pass relation and logs what it removed |
| Delete.PassStep | libultra/source/path_funcs.cpp:266-329 | each pass keeps the depth-first walk invariant and ends the walk or makes progress, so the loop terminates |
| Delete.FileBranchRemovesOneFile | libultra/source/path_funcs.cpp:239-258 | a path without '/' removes at most that path; it removes it exactly when it is an unlocked regular file |
| Delete.TreeBranchStaysBelow | libultra/source/path_funcs.cpp:261-329 | the walk removes only entries at or below the path, never a locked one |
| Delete.TreeBranchRemovesAll | libultra/source/path_funcs.cpp:261-329 | with nothing below locked, special or unreadable, the walk removes the whole subtree, the directory included |
| Delete.DeleteIdempotent | libultra/source/path_funcs.cpp:205-330 | deleting the same path again removes nothing |
| Delete.LogsCompose | libultra/source/path_funcs.cpp:340-348 | the log lines of two deletions that remove disjoint files name the union of those files |
| Delete.DeleteFileOrDirectoryByPattern | libultra/source/path_funcs.cpp:340-348 | the tree is each listed path deleted in order; entries are only removed; the log names each removed regular file once |
| Sizes.ScanEntries | libultra/source/path_funcs.cpp:892-907 | one listing adds the sizes of the regular-file children and queues exactly the directory children, each once |
| Sizes.WalkPass | libultra/source/path_funcs.cpp:882-909 | one pass of the queue loop keeps the walk invariant and takes one more directory off the remaining ones |
| Sizes.WalkEnd | libultra/source/path_funcs.cpp:909-911 | when the queue is empty the running total is `TotalSize` |
| Sizes.GetTotalSize | libultra/source/path_funcs.cpp:866-915 | returns `TotalSize`: a file's length, 0 for a missing or special entry, and for a directory the sum of the regular files inside every directory the walk could open |
| Sizes.AllReadableSize | libultra/source/path_funcs.cpp:866-915 | with no directory below refused, a directory's size is the sum of all regular files below it |
| Sizes.RefusedSize | libultra/source/path_funcs.cpp:886-889 | a directory that cannot be opened counts 0 |
| Sizes.VisibleBelow | libultra/source/path_funcs.cpp:876-912 | only regular files below the directory are ever counted |
| Move.Prepare | libultra/source/path_funcs.cpp:556-578 | the steps before the rename. Into a directory: create the directory if it is missing, then remove the target. Onto a path: remove it, then create its parent |
| Move.MoveFile | libultra/source/path_funcs.cpp:495-594 | missing source: nothing changes; else the tree and success are `MoveFileTree`; both logs gain the source and the target exactly when the rename succeeded |
| Move.MoveFileOutcome | libultra/source/path_funcs.cpp:495-594 | success: the source is gone and the target holds its entry; failure with a different target: the source is unchanged |
| Move.MoveFileNoNew | libultra/source/path_funcs.cpp:495-594 | a file move creates no file content that was not already on the volume |
| Move.MoveFileUntouched | libultra/source/path_funcs.cpp:495-594 | every non-directory outside the source and destination is unchanged |
| Move.MoveEntry | libultra/source/path_funcs.cpp:451-475 | a directory entry gets a `mkdir` at the destination and is queued when that works or it exists; any other entry has its destination removed, is renamed there, and is logged on success |
| Move.RenameStep | libultra/source/path_funcs.cpp:461-475 | removing the destination and renaming one entry keeps the move guarantee, adding the entry to the moved set on success |
| Move.RmdirStep | libultra/source/path_funcs.cpp:480-491 | an `rmdir` of an emptied source directory keeps the move guarantee |
| Move.RemoveDirs | libultra/source/path_funcs.cpp:480-491 | the `rmdir` pass over the queued directories, last queued first, then the source, keeps the move guarantee; after a fault-free walk it leaves nothing at or below the source and a directory at the destination of every source directory |
| Move.RemoveQueued | libultra/source/path_funcs.cpp:480-486 | each `rmdir` of a queued directory keeps the move guarantee; after a fault-free walk every queued directory is empty when its turn comes, so all go, and each listed directory's destination stays a directory |
| Move.RmdirKeepsMade | libultra/source/path_funcs.cpp:480-491 | an `rmdir` below the source leaves the destination of every listed directory a directory |
| Move.FileStepKeepsMade | libultra/source/path_funcs.cpp:461-462 | removing a non-directory's destination and renaming it there leaves the destination of every listed directory a directory |
| Move.WalkPass | libultra/source/path_funcs.cpp:424-478 | one pass of the stack loop keeps the walk bookkeeping and the guarantee, and takes one directory off what is left |
| Move.MoveDirectory | libultra/source/path_funcs.cpp:350-493 | nothing changes when the source is missing or the destination cannot be made. Otherwise outside source and destination nothing changes; below the source entries only disappear; each moved entry sits unchanged at its destination; unmoved files stay; logs name the moved entries and their destinations in order. When nothing can fail (the trees apart, nothing at or below the source locked or unreadable, the destination a directory or makeable, with nothing below it), every non-directory below the source is moved, every directory at or below the source (the source included) is a directory at its destination, and nothing is left at or below the source |
| Move.ListedPass | libultra/source/path_funcs.cpp:428-478 | the pass over a listed directory keeps the walk bookkeeping and the move guarantee, takes one directory off what is left, and in the fault-free walk queues every child directory and moves every other child |
| Move.PassEndClean | libultra/source/path_funcs.cpp:428-478 | after the listing of a directory in the fault-free walk, each of its children is queued or listed when a directory, moved otherwise, and the destination of every listed directory, this one included, is a directory |
| Move.WalkComplete | libultra/source/path_funcs.cpp:424-478 | when the stack of the fault-free walk is empty, every directory at or below the source has been listed and every other entry moved |
| Move.RmStart | libultra/source/path_funcs.cpp:480-491 | after the fault-free walk every queued directory is still there and emptied in the order the `rmdir` pass takes them, so the pass removes them all |
| Move.DirMovedKeeps | libultra/source/path_funcs.cpp:350-493 | a directory move creates no new file content and leaves every non-directory outside both trees unchanged |
| Move.MoveFileOrDirectory | libultra/source/path_funcs.cpp:605-612 | both paths ending in '/' gives the directory move with its guarantee, its fault-free completeness and its logs; anything else gives exactly the file move's tree and success, and its logs |
| Move.MovePatternItem | libultra/source/path_funcs.cpp:636-654 | the entry's move is `moveFileOrDirectory`'s outcome, to `destination + name + "/"` for a directory and to the destination for anything else; no new content, nothing outside those paths touched, logs only grow |
| Move.PatternStep | libultra/source/path_funcs.cpp:636-654 | the guarantees of successive entries compose over the list |
| Move.MoveFilesOrDirectoriesByPattern | libultra/source/path_funcs.cpp:624-656 | the run is a chain of trees from the old tree to the new one, each step the outcome of one entry's move in list order; over the whole list: no new file content, every non-directory outside all source and destination paths unchanged, both logs only grow and by the same count |
| Move.ChainStep | libultra/source/path_funcs.cpp:636-654 | one more entry's outcome extends the chain of trees by one step |
| Move.MoveOntoItselfDeletes | libultra/source/path_funcs.cpp:556-584 | as written: moving an unlocked file onto its own path removes it and the rename then fails |
| Move.SafeMoveKeepsSource | libultra/source/path_funcs.cpp:556-584 | corrected: the move puts the source's entry at the target, or leaves it where it was |
| Move.SelfMoveLosesFile | libultra/source/path_funcs.cpp:460-475 | as written: in `moveDirectory("a/", "a/")` each file's destination is the file itself, so the `remove` takes it away and the rename fails |
| Move.MoveDirectoryChecked | libultra/source/path_funcs.cpp:350-493 | corrected: a directory is not moved into itself or below itself (nothing changes then); otherwise the directory move's guarantee and completeness, with its logs |
| Move.CheckedKeepsFiles | libultra/source/path_funcs.cpp:350-493 | the checked move loses no file: each non-directory below the source is where it was or, unchanged, at its destination |
| CopyFile.OpenBoth | libultra/source/path_funcs.cpp:679-701 | the opening loop's tree and round are `Opening`; it succeeds exactly when a round opened both files |
| CopyFile.OpeningShape | libultra/source/path_funcs.cpp:679-701 | the opening rounds change at most the destination, leaving it an empty regular file; success means a round within the 10 retries with the source a regular file |
| CopyFile.OpeningSucceeds | libultra/source/path_funcs.cpp:679-701 | a readable source that opens within the retries and a writable destination succeed, at the first round the source opens |
| CopyFile.OpeningFails | libultra/source/path_funcs.cpp:679-701 | the converse: an unreadable source, one that opens only after the last retry, or a destination that cannot be written makes every round give up |
| CopyFile.PumpBounded | libultra/source/path_funcs.cpp:735-769 | the chunk loop never writes more bytes than the source has |
| CopyFile.PumpAll | libultra/source/path_funcs.cpp:735-769 | with no read error, write error or abort the whole file is copied |
| CopyFile.AbortWritesNothing | libultra/source/path_funcs.cpp:745-749 | an abort request stops the copy before anything is written |
| CopyFile.PumpReadError | libultra/source/path_funcs.cpp:736-743 | a failing read ends the loop as if at end of file, after the chunks already read |
| CopyFile.CopySingleFile | libultra/source/path_funcs.cpp:666-773 | the tree and outcome are `SingleCopy`; the byte counter grows by the bytes written; the percentage is -1 on abort or write failure, else updated per chunk; both logs gain the pair exactly when the copy finished |
| CopyFile.SingleCopyOthers | libultra/source/path_funcs.cpp:666-773 | only the destination changes, apart from new directories above it |
| CopyFile.SingleCopyDest | libultra/source/path_funcs.cpp:666-773 | a changed destination is a regular file holding a prefix of the source's bytes |
| CopyFile.SingleCopyComplete | libultra/source/path_funcs.cpp:735-773 | a finished copy to another path holds a prefix of the source, and the whole source when no read failed |
| CopyFile.PumpFinishes | libultra/source/path_funcs.cpp:735-769 | with no write error and no abort the chunk loop always finishes, a failing read included |
| CopyFile.SingleCopyFinishes | libultra/source/path_funcs.cpp:666-773 | a readable source file that opens within the retries and a writable, unlocked destination without write error give a finished copy |
| CopyFile.SelfCopyEmpties | libultra/source/path_funcs.cpp:679-701 | copying a file onto its own path leaves it missing or empty, since opening for writing truncates it |
| Copy.CopyStart | libultra/source/path_funcs.cpp:944-945 | creating the destination directory keeps the copy guarantee with nothing copied |
| Copy.PushEntries | libultra/source/path_funcs.cpp:993-999 | the queue gains one (source, destination) pair per listed entry, in order |
| Copy.FilePass | libultra/source/path_funcs.cpp:973-982 | a regular file is copied into the parent of its pair's destination under its own name; the queue bookkeeping and the guarantee still hold |
| Copy.CopyPass | libultra/source/path_funcs.cpp:964-1001 | one pass of the queue loop keeps the walk state and takes one more key |
| Copy.CopyWalk | libultra/source/path_funcs.cpp:958-1002 | abort: nothing changes and the percentage is -1. Otherwise outside the destination nothing changes but the directories above it; below it each change is a directory or bytes of the matching source file; each logged copy holds the source's bytes. Started on an empty destination whose directories were just made, with no fault possible (every source entry readable and opening within the retries, nothing at or below the destination locked or failing a write), every regular file below the source is copied |
| Copy.CopyQueue | libultra/source/path_funcs.cpp:958-1002 | the queue loop keeps the copy guarantee and the logs, and in the fault-free walk ends with every regular file below the source copied |
| Copy.CopyDirPass | libultra/source/path_funcs.cpp:983-1001 | a directory pass queues its listed entries (or nothing when it cannot be listed) and, in the fault-free walk, keeps every child of a taken directory queued |
| Copy.ReachCopies | libultra/source/path_funcs.cpp:973-982 | in the fault-free walk each file's copy opens both files and finishes |
| Copy.ReachList | libultra/source/path_funcs.cpp:983-1001 | listing a directory queues all its children and keeps the fault-free bookkeeping |
| Copy.ReachEnd | libultra/source/path_funcs.cpp:964-1002 | when the queue is used up, every regular file below the source has been copied |
| Copy.CleanCopyAll | libultra/source/path_funcs.cpp:964-1002 | a safe walk that copied every file leaves each one at its destination, a prefix of its data, all of it where no read fails |
| Copy.CopyTree | libultra/source/path_funcs.cpp:944-1006 | the directory branch: create the destination, walk, and report 100 for a top-level call not aborted; with no fault possible, a destination that is open to `mkdir` and nothing below it, every regular file below the source is copied |
| Copy.SourceUntouched | libultra/source/path_funcs.cpp:927-1007 | with disjoint source and destination, the copy leaves the source tree exactly as it was |
| Copy.CopyFileOrDirectory | libultra/source/path_funcs.cpp:927-1007 | a destination without '/' is the single-file copy, with its counter, percentage and logs; a destination with '/' is the walk with its guarantee and its fault-free completeness; a top-level call measures the source first |
| CopyBatch.TreeCopyStep | libultra/source/path_funcs.cpp:927-1007 | the walk's guarantee implies that outside the destination nothing is lost and that a changed entry is a directory or a copy of some file |
| CopyBatch.FileCopyStep | libultra/source/path_funcs.cpp:937-942 | likewise for the single-file branch, including a copy onto its own source |
| CopyBatch.CopyItem | libultra/source/path_funcs.cpp:1028 | one `copyFileOrDirectory` of the pattern loop: the counter only grows, nothing outside the destination is lost, every change is a directory or bytes of a file of the volume, logs grow in step; a file target gets exactly the single-file copy; a directory target with no fault possible and nothing below it gets every regular file below the source, a prefix of its data, all of it where no read fails |
| CopyBatch.SizeOfAllAppend | libultra/source/path_funcs.cpp:1021-1024 | the summed size of two lists is the sum of their sums |
| CopyBatch.SizeOfAllBounds | libultra/source/path_funcs.cpp:1021-1024 | each listed path's size is at most the summed size |
| CopyBatch.SumTotalSizes | libultra/source/path_funcs.cpp:1021-1024 | returns the sum of `getTotalSize` over the list |
| CopyBatch.CopyFileOrDirectoryByPattern | libultra/source/path_funcs.cpp:1018-1031 | outside the target directory nothing is lost or changed (only directories above it are added); every change is a directory or bytes of some file of the volume; logs grow in step |
| CopyBatch.MirrorPath | libultra/source/path_funcs.cpp:1060 | the mirrored path is the target path followed by what the path has after the source prefix |
| CopyBatch.MirrorTargets | libultra/source/path_funcs.cpp:1058-1063 | the list of mirrored paths, one per listed path, in order |
| CopyBatch.MirrorPairsShape | libultra/source/path_funcs.cpp:1058-1067 | every copy pair is a listed path and its mirror, and the two strings differ |
| CopyBatch.MirrorPairsComplete | libultra/source/path_funcs.cpp:1058-1067 | every listed path whose mirror is a different string is copied |
| CopyBatch.MirrorTotalSize | libultra/source/path_funcs.cpp:1049-1055 | the size total sums `getTotalSize` over exactly the paths that copy mode copies |
| CopyBatch.MirrorCopyPass | libultra/source/path_funcs.cpp:1060-1066 | one pass of copy mode keeps the guarantee over the pairs so far |
| CopyBatch.MirrorCopy | libultra/source/path_funcs.cpp:1058-1068 | copy mode: outside all mirrored targets nothing is lost or changed (only directories appear); every change is a directory or bytes of some file |
| CopyBatch.MirrorDelete | libultra/source/path_funcs.cpp:1058-1063 | delete mode: the tree is each mirrored path deleted in turn, without logs |
| CopyBatch.MirrorFiles | libultra/source/path_funcs.cpp:1043-1070 | `delete` deletes every mirrored path; `copy` copies with the guarantee above; any other mode changes nothing |
| CopyBatch.MirrorOntoItself | libultra/source/path_funcs.cpp:1060-1065 | with target = source + "/", a path and its mirror are different strings naming the same entry |
| CopyBatch.MirrorLosesFile | libultra/source/path_funcs.cpp:1060-1066 | as written: such a path passes the guard and its file is left missing or empty |
| CopyBatch.KeyGuardKeepsSource | libultra/source/path_funcs.cpp:1065-1066 | corrected guard (compare entries, not strings): a file copy leaves the path it copies from as it was |
| FlagFiles.OutputPrefix | libultra/source/path_funcs.cpp:1095-1097 | the prefix is empty or ends with '/' and names the output directory |
| FlagFiles.FlagKey | libultra/source/path_funcs.cpp:1104 | a flag file is the match's last component inside the output directory |
| FlagFiles.FlaggedOthers | libultra/source/path_funcs.cpp:1100-1113 | every entry that is not a flag file keeps its state |
| FlagFiles.FlaggedEmpty | libultra/source/path_funcs.cpp:1100-1113 | a flag file afterwards is what it was, or an empty regular file |
| FlagFiles.FlaggedMade | libultra/source/path_funcs.cpp:1100-1113 | inside an existing output directory, every flag file that can be opened for writing ends up an empty regular file |
| FlagFiles.CreateFlagFiles | libultra/source/path_funcs.cpp:1082-1114 | an empty match list changes nothing; otherwise the output directory is created, then one `fopen(…, "wb")` per match with a non-empty last component |
| ListFuncs.UnprefixedCount | libultra/source/list_funcs.cpp:35-39 | removal keeps every item without the prefix, as often as it occurs, and drops every item with it |
| ListFuncs.UnprefixedMembers | libultra/source/list_funcs.cpp:35-39 | an item survives exactly when it was present and does not start with the entry |
| ListFuncs.UnprefixedConcat | libultra/source/list_funcs.cpp:35-39 | removal works item by item, so it distributes over concatenation (order kept) |
| ListFuncs.UnprefixedEmptyEntry | libultra/source/list_funcs.cpp:35-39 | the empty entry is a prefix of every item and empties the list |
| ListFuncs.RemoveEntryFromList | libultra/source/list_funcs.cpp:35-39 | in place on the array: the first `n` cells are the items not starting with the entry, in order; the cells past the old length are untouched |
| ListFuncs.FilterSeqIsKept | libultra/source/list_funcs.cpp:51-55 | one removal per filter, in turn, equals one pass keeping the items that no filter prefixes |
| ListFuncs.KeptMembers | libultra/source/list_funcs.cpp:51-55 | an item survives filtering exactly when it was present and no filter is a prefix of it |
| ListFuncs.FilterItemsList | libultra/source/list_funcs.cpp:51-55 | in place on the array: the first `n` cells are the result of removing each filter entry in turn |
| ListFuncs.PiecesJoin | libultra/source/list_funcs.cpp:186-201 | splitting at commas and joining again with commas gives the text back |
| ListFuncs.PiecesCommas | libultra/source/list_funcs.cpp:186-201 | splitting gives one more piece than there are commas, and no piece holds a comma |
| ListFuncs.ListOfShape | libultra/source/list_funcs.cpp:171-211 | text not wrapped in () or [] gives the empty list. Wrapped text gives one item per comma, plus one unless the last piece is empty; item k is piece k trimmed with its quotes removed |
| ListFuncs.StringToList | libultra/source/list_funcs.cpp:171-211 | the loop's result is `ListOf`, the list described above |
| ListFuncs.ChunksConcat | libultra/source/list_funcs.cpp:122-136 | reading line by line covers the file: the lines joined give the text |
| ListFuncs.ChunksShape | libultra/source/list_funcs.cpp:122-136 | each line read is non-empty and has no newline before its end; every line but the last ends with one |
| ListFuncs.EntryHasNoNewline | libultra/source/list_funcs.cpp:124-133 | an entry returned never holds a newline |
| ListFuncs.GetEntryFromListFile | libultra/source/list_funcs.cpp:106-160 | "" when the file cannot be opened or has too few lines; otherwise the line at the index without its newline |
| ListFuncs.Intersect | libultra/source/list_funcs.cpp:305-309 | the set loop collects exactly the common lines |
| ListFuncs.CompareFilesLists | libultra/source/list_funcs.cpp:299-314 | the duplicates are exactly the lines both files have (an unopenable file has none) |
| ListFuncs.WildcardLinesMembers | libultra/source/list_funcs.cpp:371-381 | a line is gathered exactly when some match other than the compared file holds it |
| ListFuncs.CompareWildcardFilesLists | libultra/source/list_funcs.cpp:358-394 | the duplicates are exactly the compared file's lines that some other match holds |
| Tesla.RawRoundTrip | libtesla/source/tesla.cpp:134 | reading a colour back from its 16-bit cell gives the colour |
| Tesla.Renderer.EnableScissoring | libtesla/source/tesla.cpp:109-111 | pushes the rectangle on the scissor stack |
| Tesla.Renderer.DisableScissoring | libtesla/source/tesla.cpp:113-116 | pops the top rectangle; an empty stack stays empty |
| Tesla.Renderer.SetPixel | libtesla/source/tesla.cpp:118-123 | below the width and height bounds and with an offset that is not the rejection value, exactly that cell becomes the colour; otherwise nothing changes |
| Tesla.BlendColorBounds | libtesla/source/tesla.cpp:125-127 | for 4-bit inputs the blend is the alpha-weighted sum shifted right by 4: it fits in four bits, is at most the larger input, and falls less than a step below 15/16 of the smaller |
| Tesla.BlendColorEnds | libtesla/source/tesla.cpp:125-127 | alpha 15 gives 15/16 of the new colour, alpha 0 15/16 of the old |
| Tesla.BlendAlphaBounds | libtesla/source/tesla.cpp:156 | the combined alpha is at least both alphas, 15 when either is 15, and the old alpha when the new one is 0 |
| Tesla.BlendSrcDstChannels | libtesla/source/tesla.cpp:129-159 | the two writers blend the colour channels alike; one keeps the old alpha, the other combines them |
| Tesla.TileBijection | libtesla/source/tesla.cpp:970-976 | the in-tile part of the offset numbers the 32×16 pixels of a tile one-to-one with 0..511 |
| Tesla.SwizzleSplit | libtesla/source/tesla.cpp:969-976 | the offset of an on-screen point is its tile number times 512 plus its place in the tile |
| Tesla.OnScreenInBuffer | libtesla/source/tesla.cpp:961-977 | every on-screen point's offset lies inside the framebuffer |
| Tesla.OnScreenInjective | libtesla/source/tesla.cpp:961-977 | different on-screen points have different offsets |
| Tesla.PixelOffset | libtesla/source/tesla.cpp:961-977 | the rejection value outside the top scissor rectangle; otherwise the swizzled offset as a 32-bit unsigned value, inside the buffer for on-screen points |
| Tesla.NegativeOffsetEscapes | libtesla/source/tesla.cpp:961-977 | as written: with no scissor, a point 2 to 7 pixels left of the screen's top row gets an offset far outside the buffer that is not the rejection value |
| Tesla.ClippedOffset | libtesla/source/tesla.cpp:961-977 | corrected: the rejection value exactly for points off the screen or outside the top rectangle, else an offset inside the buffer equal to the original |
| Tesla.Renderer.SetPixelBlendSrc | libtesla/source/tesla.cpp:129-143 | as written, on `getPixelOffset`: a point with the rejection value or beyond the width or height bound changes nothing; otherwise only the cell at its offset changes, to the old colour blended towards the new one with the old alpha kept |
| Tesla.Renderer.SetPixelBlendDst | libtesla/source/tesla.cpp:145-159 | as above, with the alphas combined |
| Tesla.AboveScreenHitsPixel | libtesla/source/tesla.cpp:961-977 | as written: with no scissor, the point (0, -1) just above the screen gets offset 3576, the cell of the on-screen pixel (24, 111) |
| Tesla.Renderer.SetPixelBlendSrcClipped | libtesla/source/tesla.cpp:129-143 | corrected: a point off the screen or outside the top rectangle changes nothing; any other point blends into its own cell only, with the old alpha kept |
| Tesla.Renderer.SetPixelBlendDstClipped | libtesla/source/tesla.cpp:145-159 | corrected: as above, with the alphas combined |

## Left out

- Wildcard expansion and directory listing (`getFilesListByWildcards`, `getFilesListFromDirectory`) are in files that are not part of this model. Their results are parameters: `fileList`, `allMatches`, `matches`.
- `getParentDirFromPath`, `getFileName`, `getNameFromPath`, `trim` and `removeQuotes` are in files that are not part of this model. `Paths` and `ListFuncs` give them definitions that follow their documented behaviour.
- Log files: a log path that is empty or fails to open is the null `Log`. Creating the log's parent directory and the `fopen(…, "a")` itself are not modelled. The log is the sequence of lines written.
- The `"."` and `".."` entries that `readdir` returns are not in listings, so the skips at path_funcs.cpp:305, 440, 893 and 995 are implicit.
- The `logMessage` diagnostics, the mutex in list_funcs.cpp and thread-safety of the atomics: no concurrency is modelled.
- `abortFileOp` is read at every check but cannot change during a call, since there is no other thread. CopyWalk therefore checks it once before the loop; checking before every pass would give the same result.
- Integer widths: `long long` byte counters, `size_t` indices and `int` percentages are unbounded integers. Overflow is not modelled.
- `fgets` with an 8192-byte buffer splits lines longer than 8191 characters into several reads. ListFuncs treats one line as one read.
- CompareFilesLists, CompareWildcardFilesLists: return the duplicate set. Writing it with `writeSetToFile` is not modelled, and neither is the hash-set iteration order it writes in.
- `readListFromFile` has no caller in the core and is not modelled. `readSetFromFile` and `processFileLines` are `LineSet` and the line loops of the two comparisons.
- The stream (`std::ofstream`) build of every function is not modelled.
- Delete.DeleteFileOrDirectory: requires a non-empty path, since `back()` of an empty string is undefined. For a path with '/' it also requires that everything below can be removed. If anything below is locked, special or unreadable, the source's walk pushes that entry's parent again forever.
- Move.MoveDirectory, Move.MoveFileOrDirectory, Move.MovePatternItem, Move.MoveFilesOrDirectoriesByPattern: require the source and destination trees to be disjoint whenever the source is a directory. The overlapping cases are not modelled by these members:
  - a destination strictly below the source: the walk need not end. Every listing meets the directory that the previous pass made and queues one level deeper;
  - a source strictly below the destination: destinations fall back inside the source tree, which the model's termination measure does not cover;
  - equal trees: the walk ends, but every file is removed before its rename (Move.SelfMoveLosesFile, under Findings). The pattern move of `sdmc:/x/a/` into `sdmc:/x/` is such a move, because the item's target `sdmc:/x/` + `a` + `/` is the item itself. Move.MoveDirectoryChecked covers every case, since it leaves the tree alone when the trees overlap.
- Move.MoveDirectory: completeness (every file moved, every directory made at the destination, the source gone) is stated only when no step can fail. With faults, the safety guarantee says what the tree can be; which entries do move then depends on the listing order and on which rename fails.
- Move.MoveFilesOrDirectoriesByPattern: each step of the chain carries the item's own outcome, completeness included. Items can overlap, so no completeness over the whole list is stated: a later item may move onto, or out of, what an earlier one moved.
- Copy.CopyFileOrDirectory, CopyBatch.CopyFileOrDirectoryByPattern, CopyBatch.CopyItem, CopyBatch.MirrorFiles:
  - for a destination with '/', they require that it starts with `sdmc:/` and that source and destination are disjoint (the walk would otherwise never end);
  - the pattern and mirror variants require `sdmc:/` for every destination;
  - without that prefix, `createDirectory` builds an unrelated path, so the outcome is not stated.
- Copy.CopyWalk, Copy.CopyTree, Copy.CopyFileOrDirectory: completeness (every regular file copied) is stated only when no fault can occur and nothing lies below the destination at the start. With faults, the safety guarantee says what the tree can be. The percentage stored after each file during the walk is not stated, and the byte counter is only bounded below.
- CopyBatch.CopyFileOrDirectoryByPattern, CopyBatch.MirrorCopy, CopyBatch.MirrorFiles, CopyBatch.CopyItem: do not state the progress percentage or the byte counter across items. Over a whole list their contracts are the composed safety guarantee. CopyItem states completeness for a single item. After the first item the destination is no longer empty, and a later item may overwrite an earlier item's file of the same name, so completeness over the list is not stated.
- CopyBatch.MirrorFiles: requires every listed path to be at least as long as the source path, because `substr` throws otherwise. Delete mode also requires every mirrored path to be deletable, as `deleteFileOrDirectory` does.
- CopyBatch.MirrorCopy, CopyBatch.MirrorDelete: the source runs one loop whose body tests the mode. The model runs one loop per mode, with the same order and the same calls.
- CopyFile.CopySingleFile: the buffer is a fixed 16 KiB (`COPY_BUFFER_SIZE`). The `written == 0` retry loop becomes one write call that succeeds or fails whole.
- The framebuffer size: the constants Tesla.FB_WIDTH and Tesla.FB_HEIGHT fix it at 448 x 720 pixels, and Tesla.FB_CELLS at 448 x 768 cells. The C++ sets `cfg::FramebufferWidth` and `cfg::FramebufferHeight` at run time from `ult::DefaultFramebufferWidth` and `ult::DefaultFramebufferHeight` (libtesla/source/tesla.cpp:935-936), which are defined outside the modelled files. That cell count is an assumption about what `framebufferCreate` (libtesla/source/tesla.cpp:44) allocates for the swizzled layout. The (0, -1) input of the offset finding assumes that `x < cfg::FramebufferWidth` at libtesla/source/tesla.cpp:119 is a signed comparison; the declaration of `cfg::FramebufferWidth` is also outside the modelled files.
- Tesla.Renderer.SetPixel: requires an accepted offset to lie inside the framebuffer. The C++ writes wherever the offset points, which outside the buffer is undefined behaviour.
- Tesla.Renderer.SetPixelBlendSrc, Tesla.Renderer.SetPixelBlendDst: require an offset that is not the rejection value to lie inside the framebuffer. The C++ reads and writes `framebuffer[offset]` wherever it points, which outside the buffer is undefined behaviour; NegativeOffsetEscapes names such points.
- Tesla: the drawing, text, font and layer functions of tesla.cpp are outside this core. The general `s32` wrap-around of the offset arithmetic is not modelled, apart from the 32-bit conversion of the result.

## Findings

| source | as written | input that shows it | evidently intended | confidence | as-written member | corrected member |
|---|---|---|---|---|---|---|
| libtesla/source/tesla.cpp:961-977 | `getPixelOffset` rejects only points outside the top scissor rectangle; `setPixelBlendSrc`/`setPixelBlendDst` then read and write `framebuffer[offset]` | no scissor active, x = -2, y = 0: the offset is 2^32 - 2, not `UINT32_MAX`, so the cell written is far outside the framebuffer; x = 0, y = -1: the offset is 3576, the cell of the pixel (24, 111), which the blend overwrites | points off the screen are rejected like points outside the rectangle | not executed | Tesla.NegativeOffsetEscapes, Tesla.AboveScreenHitsPixel | Tesla.ClippedOffset, Tesla.Renderer.SetPixelBlendSrcClipped, Tesla.Renderer.SetPixelBlendDstClipped |
| libultra/source/path_funcs.cpp:556-584 | `moveFile` removes the target before renaming onto it | `moveFile("sdmc:/a/f", "sdmc:/a/")`: the target is the source itself, which is removed, and the rename then fails | a move onto itself leaves the file in place | not executed | Move.MoveOntoItselfDeletes | Move.SafeMoveKeepsSource |
| libultra/source/path_funcs.cpp:460-475 | `moveDirectory` sends each entry to the same relative path under the destination, removing what is there first, and does not check that source and destination differ | `moveDirectory("sdmc:/x/a/", "sdmc:/x/a/")`, or the pattern move of `sdmc:/x/a/` into `sdmc:/x/`, with a file `sdmc:/x/a/f`: its destination is `sdmc:/x/a/f` itself, which the `remove` deletes, so the rename fails and the file is gone | a directory is not moved into itself or below itself | not executed | Move.SelfMoveLosesFile | Move.MoveDirectoryChecked, Move.CheckedKeepsFiles |
| libultra/source/path_funcs.cpp:1060-1066 | `mirrorFiles` copy mode skips a path only when its mirror is the same string | `mirrorFiles("sdmc:/a", "sdmc:/a/", "copy")` with `sdmc:/a/f` listed: the mirror `sdmc:/a//f` is another string for the same file; opening it for writing truncates the source | skip any path whose mirror names the same entry | not executed | CopyBatch.MirrorLosesFile | CopyBatch.KeyGuardKeepsSource |

The model's methods follow the code as written, including these steps,
so `Move.MoveFile`, `CopyBatch.MirrorFiles`, `Tesla.PixelOffset` and the
blending writers `Tesla.Renderer.SetPixelBlendSrc` and
`Tesla.Renderer.SetPixelBlendDst` keep the behaviour shown in the first
column. `Move.MoveDirectory` is the walk as written, but it requires the two
trees apart. `Move.SelfMoveLosesFile` shows, on the walk's own remove and
rename steps, what happens when they are equal. The corrected definitions are
`Move.SafeMoveFileTree`, `Move.MoveDirectoryChecked`, `CopyBatch.MirrorCopies`
(the entry comparison), `Tesla.ClippedOffset` and the writers on it,
`Tesla.Renderer.SetPixelBlendSrcClipped` and
`Tesla.Renderer.SetPixelBlendDstClipped`.
