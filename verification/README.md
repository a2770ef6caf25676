# Verified model of the machine workbench

This project models the parts of the workbench whose correctness is not evident from reading one
function, and proves what they promise for every input and every run.

* **Time travel** (`PageDiff`, `RamLog`, `TimeMachine`). RAM and framebuffer images are kept as sparse
  keyframes and per-page deltas, with truncation after a rewind, eviction with keyframe promotion, and a
  capture interval that grows as frames are evicted. The compressed history is a plain list of snapshots
  over every run; the exact condition is that each captured image has the length of the one its delta is
  taken against.
* **Boot filesystem** (`FsLayout`, `FsImage`, `FsSteps`, `Bits`, `FsBuild`, `FsView`, `FsDecode`,
  `FsBudget`, `FsDescribe`, `FsRoundTrip`, `FsPaths`, `GuestPaths`, `GuestFiles`, `FsBoot`,
  `FsOnce`, `FsLimit`, `FsOrder`). A builder writes the image in place
  in one byte array; an inspector decodes the same bytes from simulated memory. What the inspector shows is
  the tree the entries describe, and files read back byte for byte.
* **Modules** (`ImportClosure`, `ImportExamples`, `ImportInterface`, `InterfaceExact`,
  `InterfaceOrder`, `InterfaceFiles`, `Prune`). Two depth-first searches over the import graph
  and the fixpoint that decides which objects are linked.
* **Run configurations** (`Text`, `RunConfig`, `RunConfigRoundTrip`, `RunConfigExact`, `RunConfigByHand`,
  `RunConfigText`, `PathReparse`). The hand-written line parser against the printer, with the
  exact class of stores that survive.
* **Address translation** (`Sv39`). The inspector's page-table walk against the algorithm of sections 4.3.2
  and 4.4.1 of the RISC-V Privileged Architecture, version 20211203.
* **Tab edits** (`TabEdit`). Which lines the guide's editor indents, the edited text, and where the
  selection goes.

State that the program updates in place is a class or an array with methods proved equal to functions on
values; the theorems are about those functions. A panic is `None`, an error return is `Err` or an error
value. Memory read by the inspectors is a total function from addresses, the parser and module resolver are
finite maps, and file contents and compiled programs are parameters.

## Where the code and its promises differ

* `RamLog`: a delta cannot change an image's length (`RamLog.LengthChangeIsLost`); `RamLog.LogRefinesList`
  gives the exact condition.
* Import closure: the comments say that cycles are rejected. The code rejects them only in the kernel target
  or when mangling, and otherwise silently skips the import (`ImportClosure.LenientExact`). It also takes
  two modules with one text for the same module (`ImportExamples.SameTextMisjudged`,
  `ImportExamples.ImportOrderDecides`), and a program for a module with its name
  (`ImportExamples.SameNameMisjudged`).
* Run configurations: a comment says that no written key carries a `#`, but names, paths, breakpoints and
  autorun lines can, and then do not come back (`RunConfigExact.RoundTripExact`,
  `RunConfigExact.HashLost`). A workspace path can parse to a text that does not parse (`PathReparse.DriveInside`).
* Address translation: the walk translates non-canonical addresses and ignores reserved encodings and
  superpage misalignment, on which the architecture faults (`Sv39.AgreesExactly`, with an input for each).
* Boot filesystem: the entry after a directory's 113th is written past its block and not shown
  (`FsLimit.InspectExact`, `FsLimit.LettersExact`).
* Tab edits: with the caret or selection at offset 0 before a blank first line, the search for the line
  start clamps to position 0 and finds the second line (`TabEdit.LinesExact`, `TabEdit.TabStopExact`).

## Model

| member | source | states |
|---|---|---|
| PageDiff.ChangedExactly | src/session/timeline.rs:247-265 | a page is stored exactly when it differs from the base (or, without a base, is not all zero), with its current bytes |
| PageDiff.StoredExactly | src/session/timeline.rs:247-265 | byte by byte: a page is stored exactly when one of its bytes differs from the base's or, where the base does not cover the page, is not zero |
| PageDiff.DeltaRoundTrip | src/session/timeline.rs:247-275 | applying a delta to an equally long base gives the image it was taken from |
| PageDiff.KeyframeRoundTrip | src/session/timeline.rs:247-275 | applying a keyframe to zeros gives the image |
| PageDiff.ChangedPages | src/session/timeline.rs:247-265 | the loop computes exactly the pages characterised above |
| PageDiff.ApplyPages | src/session/timeline.rs:267-275 | the in-place loop writes each page's bytes that fit and nothing else |
| RamLog.PushAppends | src/session/timeline.rs:48-62 | earlier images stay; the pushed image is appended, and the delta base stays right, exactly when it fits |
| RamLog.TruncateTakes | src/session/timeline.rs:86-97 | truncation is taking a prefix of the list of images, and rebases the delta base |
| RamLog.EvictDrops | src/session/timeline.rs:100-114 | eviction with promotion drops the first image and keeps every other one |
| RamLog.LogRefinesList | src/session/timeline.rs:48-114 | over any run of push, truncate, evict and clear the log is a plain list at every step exactly when each pushed image fits, and then reconstruct(i) is the i-th image or None |
| RamLog.KeyframesStayClose | src/session/timeline.rs:28-114 | in every reachable state the front is a keyframe, no frame is more than max(stride, 1) deltas away from its keyframe, and the counter never under-counts |
| RamLog.KeyframeSchedule | src/session/timeline.rs:48-62 | over any run of pushes, frame i is a keyframe exactly when i is a multiple of max(stride, 1) + 1 |
| RamLog.PushAfterTruncate | src/session/timeline.rs:48-97 | after a truncation the next push stores a delta exactly when the frame before it is fewer than stride deltas away from its keyframe |
| RamLog.UniformFits | src/session/timeline.rs:48-62 | images of one length always fit |
| RamLog.LengthChangeIsLost | src/session/timeline.rs:48-83 | a shorter second image does not replay to itself |
| RamLog.OrphanIsLost | src/session/timeline.rs:64-83 | deltas with no keyframe under them cannot be replayed |
| RamLog.RamLog.constructor | src/session/timeline.rs:28-35 | an empty log, stride at least 1 |
| RamLog.RamLog.Clear | src/session/timeline.rs:37-41 | the new state is the cleared log |
| RamLog.RamLog.Push | src/session/timeline.rs:48-62 | the new state is the pushed log |
| RamLog.RamLog.Replay | src/session/timeline.rs:64-83 | walking back to the keyframe and replaying forward into one buffer gives the image defined by recursion on the frames |
| RamLog.RamLog.TruncateAfter | src/session/timeline.rs:86-97 | the new state is the truncated log, counter recomputed |
| RamLog.RamLog.EvictFront | src/session/timeline.rs:100-114 | the new state is the log with its oldest frame evicted |
| TimeMachine.MachineRestoresHistory | src/session/timeline.rs:137-243 | over any run from new, every restorable snapshot is the plain history's at every step exactly when each capture fits; then snapshot_at(i) is the i-th surviving snapshot or None |
| TimeMachine.RunTracks | src/session/timeline.rs:157-236 | whatever is captured, the four logs stay equally long and within capacity, retired counts are those of the surviving frames, and the interval follows the evictions |
| TimeMachine.RunRestores | src/session/timeline.rs:164-243 | the same refinement from any tracked state |
| TimeMachine.CaptureTracks | src/session/timeline.rs:207-226 | a capture keeps frames 0..i of a pending rewind, appends one and drops what exceeds the capacity |
| TimeMachine.CaptureViews | src/session/timeline.rs:207-226 | the stored snapshots change as the plain history does exactly when both images fit |
| TimeMachine.UniformCapturesFit | src/session/timeline.rs:207-216 | images of one machine, all of one size, always fit |
| TimeMachine.IntervalAfterRun | src/session/timeline.rs:219-236 | after E evictions since the last clear the interval is base * 2^min(6, E div (max_frames/2)) |
| TimeMachine.IntervalBounded | src/session/timeline.rs:228-236 | the interval stays between the base and 64 times it |
| TimeMachine.GatedCapturesSpaced | src/session/timeline.rs:189-236 | when captures are made only when due, retained retired counts strictly increase with gaps of at least the base interval, across any rewinds |
| TimeMachine.DueExactly | src/session/timeline.rs:157-194 | after any run a capture is due at r exactly when the last toggle was on and there is no frame, or r is at least base * 2^min(6, E div (max_frames/2)) past the retired count of the newest frame or of the frame rewound to |
| TimeMachine.TimeMachine.constructor | src/session/timeline.rs:137-151 | an empty, disabled machine with clamped parameters |
| TimeMachine.TimeMachine.Clear | src/session/timeline.rs:164-173 | all logs, the throttle and the pending rewind reset |
| TimeMachine.TimeMachine.SetEnabled | src/session/timeline.rs:157-162 | disabling clears |
| TimeMachine.TimeMachine.ShouldCapture | src/session/timeline.rs:189-194 | the due test of the machine's state, whose meaning over runs is DueExactly |
| TimeMachine.TimeMachine.RewindTo | src/session/timeline.rs:198-204 | sets the reference count and the pending truncation; no frame is lost |
| TimeMachine.TimeMachine.Capture | src/session/timeline.rs:207-226 | the new state is the captured machine, over both logs in place |
| TimeMachine.TimeMachine.GrowIntervalOnEviction | src/session/timeline.rs:230-236 | one eviction's effect on the throttle |
| TimeMachine.TimeMachine.Restore | src/session/timeline.rs:239-243 | the snapshot rebuilt from both logs, or None |
| FsImage.WriteU16 | src/compilation_pipeline/fs_image.rs:109-112 | the two bytes read back as the value; no other byte changes |
| FsImage.WriteU32 | src/compilation_pipeline/fs_image.rs:113-118 | the four bytes read back as the value; no other byte changes |
| FsImage.WriteName | src/compilation_pipeline/fs_image.rs:138-143 | the field holds at most 31 bytes and a terminator; no byte outside it changes |
| FsImage.LastSlash | src/compilation_pipeline/fs_image.rs:61-69 | the last separator, which splits a path into parent and name |
| FsImage.WriteDirInode | src/compilation_pipeline/fs_image.rs:145-154 | a directory's record and its empty block; nothing else changes |
| FsImage.WriteFileInode | src/compilation_pipeline/fs_image.rs:232-262 | a file's record, block list and contents; nothing else changes |
| FsImage.AddDirent | src/compilation_pipeline/fs_image.rs:158-189 | one entry appended at the position given by the directory's size, and the size incremented |
| FsImage.AddInode | src/compilation_pipeline/fs_image.rs:211-225 | an image that holds some inodes holds one more, entered in its parent |
| FsImage.AddEntry | src/compilation_pipeline/fs_image.rs:205-267 | one turn of the loop takes the image, counters and path map from one plan to the next |
| FsSteps.PlaceInode | src/compilation_pipeline/fs_image.rs:214-262 | writing a new inode and its blocks disturbs nothing the image held |
| FsSteps.EnterInode | src/compilation_pipeline/fs_image.rs:158-189 | entering it in its parent disturbs nothing else |
| FsBuild.NeededBlocks | src/compilation_pipeline/fs_image.rs:83-92 | root, files rounded up to blocks with at least one each, directories, and 56 more |
| FsBuild.SortedCounts | src/compilation_pipeline/fs_image.rs:199-203 | sorting permutes the entries, so the block count is theirs |
| FsOrder.SortedInOrder | src/compilation_pipeline/fs_image.rs:198-203 | the entries are taken directories first, shorter paths before longer ones, paths of one length in byte order |
| FsOrder.LexExactly | src/compilation_pipeline/fs_image.rs:198-203 | of two paths in byte order the first ends where the other goes on, or has the smaller byte where they first differ |
| FsBuild.AddEntries | src/compilation_pipeline/fs_image.rs:205-267 | the whole loop: image, inode count and block count are the plan's, within the space counted up front |
| FsBuild.WriteEntries | src/compilation_pipeline/fs_image.rs:102-267 | a blank image with the root and all sorted entries written: counters and contents are the plan's |
| FsBuild.WriteSuperblock | src/compilation_pipeline/fs_image.rs:270-286 | every superblock field, nothing past byte 24 |
| FsBuild.Finish | src/compilation_pipeline/fs_image.rs:269-309 | superblock and both bitmaps written over a finished image leave it built |
| FsBuild.BuildFsImage | src/compilation_pipeline/fs_image.rs:73-312 | for entries within the format's limits it succeeds exactly when the assertions' space limits hold, and every record, block, bitmap bit and count is as planned; whenever it succeeds, every record points at its own blocks |
| Bits.MarkFree | src/compilation_pipeline/fs_image.rs:289-308 | exactly the bits from the first unused one on are set |
| Bits.CountFrom | src/compilation_pipeline/fs_image.rs:280-295 | the number of set bits of such a bitmap |
| FsView.ReadBlock | src/inspect/fs_view.rs:143-156 | one block of entries, with the budget's early return |
| FsView.ReadNode | src/inspect/fs_view.rs:109-159 | the recursive walk with its shared budget equals the decoding function on values |
| FsView.Capture | src/inspect/fs_view.rs:163-171 | None until the kernel global names an image of the right magic, else the decoded root with the open files of the file table |
| FsView.CaptureAt | src/inspect/fs_view.rs:165-170 | the same for a given base and given counts |
| FsView.OpenFdCounts | src/inspect/fs_view.rs:93-106 | the loop over the file table computes the counts, none without a table |
| FsView.OpenFdsCount | src/inspect/fs_view.rs:93-106 | an inode's count is the number of slots whose little-endian words say so |
| FsView.OpenFilesCounted | src/inspect/fs_view.rs:93-106 | where the eight little-endian bytes of the file-table global name no table nothing is open; otherwise an inode's count is the number of the sixteen slots in use for it |
| FsView.ReadFile | src/inspect/fs_view.rs:173-190 | the loop over blocks yields the bytes of the walk cut at the preview limit |
| FsView.FilePreview | src/inspect/fs_view.rs:194-200 | empty for a directory, else the first bytes of the file of the image that the kernel global names |
| FsDecode.NodeDecodes | src/inspect/fs_view.rs:109-159 | in any stored image, at any depth and budget, the walk yields the node table's tree and charges one budget unit per node |
| FsBudget.TreeSize | src/inspect/fs_view.rs:143-156 | a decoded subtree has no more nodes than inodes below it |
| FsBudget.RootWithinBudget | src/inspect/fs_view.rs:108-171 | the budget never runs out on a built image |
| FsDescribe.PlanDescribes | src/compilation_pipeline/fs_image.rs:199-229 | the builder's inode table has one inode per entry, each under the inode of its parent path |
| FsDescribe.PlanProper | src/compilation_pipeline/fs_image.rs:193-267 | well-formed entries respect the inode and directory limits |
| FsDescribe.ParentEarlier | src/compilation_pipeline/fs_image.rs:198-203 | in any list in sorted order a listed parent directory comes before its entries |
| FsDescribe.TreeDescribed | src/inspect/fs_view.rs:109-159 | the tree of the inode table is the tree described by the paths alone |
| FsRoundTrip.BuildAndInspect | src/compilation_pipeline/fs_image.rs:73-312 | build, mount anywhere, inspect: exactly the described tree, or nothing when the entries do not fit |
| FsLimit.InspectExact | src/compilation_pipeline/fs_image.rs:156-189 | build, mount and inspect entries with plain paths, listed parents and no more depth than is shown: the described tree comes back exactly when they fit and no directory has more than 113 entries |
| FsLimit.LimitNeeded | src/inspect/fs_view.rs:136-158 | with a fuller directory the walk never decodes the described tree, whatever the entries written past the block's end have overwritten |
| FsLimit.LettersExact | src/compilation_pipeline/fs_image.rs:156-189 | n empty files at the top fit for n up to 255, and are within the limit exactly when n is at most 113: an input that is lost for n = 114 |
| FsRoundTrip.TreeRoundTrip | src/inspect/fs_view.rs:109-171 | decoding from inode 0 yields exactly the described tree: every path once under its right parent, kind, name and size, and no extra nodes |
| FsOnce.EachEntryOnce | src/inspect/fs_view.rs:109-171 | the decoded tree shows the root and every entry exactly once and nothing else: its inodes are 0 to the number of entries, each once |
| FsRoundTrip.InspectMounted | src/inspect/fs_view.rs:163-171 | the described tree, with the open files counted, from memory in which the eight little-endian bytes of the kernel global name a built image |
| FsRoundTrip.FilesRoundTrip | src/compilation_pipeline/fs_image.rs:227-264 | every file reads back byte for byte, and every prefix of it, whatever else was written |
| FsRoundTrip.PreviewFile | src/inspect/fs_view.rs:173-200 | from such memory, the preview is the first min(len, 8192) bytes of the original |
| FsRoundTrip.BlocksDistinct | src/compilation_pipeline/fs_image.rs:119-135 | two block pointers stored in the image that hold the same block are the same pointer of the same inode, and every block held lies in the data region |
| FsRoundTrip.BitmapExact | src/compilation_pipeline/fs_image.rs:298-309 | a bit is set exactly when none of the 256 inode records stored in the image holds the block |
| FsRoundTrip.CountsExact | src/compilation_pipeline/fs_image.rs:280-295 | both free counts are the numbers of set bits in their bitmaps |
| FsRoundTrip.SpareBlocks | src/compilation_pipeline/fs_image.rs:81-102 | exactly 56 data blocks stay free, plus one for each listed "/" |
| FsPaths.PathResolves | src/inspect/fs_view.rs:109-171 | following a listed path's components in the shown tree leads to its own node, down to the depth limit |
| FsBoot.PathShown | src/inspect/fs_view.rs:109-190 | in a decoded image of well-formed entries with listed parents and plain paths, following a listed path leads to its entry's node, and reading that node gives the file |
| FsBoot.Boot | src/session/engine.rs:142-177 | collect, build, mount and inspect: every installed program and mounted file that is collected is found under its path |
| GuestPaths.NormalizeIdempotent | src/session/engine.rs:395-402 | normalising twice is normalising once |
| GuestPaths.AddParentDirs | src/session/engine.rs:385-393 | adds exactly the proper prefixes that end before a separator |
| GuestPaths.AncestorsClosed | src/session/engine.rs:385-393 | those prefixes contain the parent of the path and of each of them |
| GuestPaths.CollectMountEntries | src/session/engine.rs:349-372 | succeeds exactly when the whole host tree can be read, and adds each of its files under its joined path, each of its directories, and the directories on the way |
| GuestPaths.CollectChildren | src/session/engine.rs:359-363 | the loop over a directory's children, in order, stopping at the first error |
| GuestPaths.AddCatalogInstall | src/session/engine.rs:328-347 | adds an installed program's file and the directories on its way; nothing without an install path |
| GuestPaths.HostClosed | src/session/engine.rs:349-372 | what any host tree contributes contains the parent of each of its entries |
| GuestFiles.HostFiles | src/session/engine.rs:349-372 | from a mount point that starts with "/", without backslash and outer white space, and names that a path can hold: collection fails exactly when names lead to something unreadable, and otherwise collects exactly the files that names n1..nk lead to, at g/n1/.../nk, with one slash under "/" |
| GuestFiles.HostDirs | src/session/engine.rs:349-372 | and exactly the directories that names lead to, with those on the way to the mount point |
| GuestFiles.ListedFiles | src/session/engine.rs:158-177 | the files listed for the boot filesystem are exactly the installed programs and the files under each mount; collection fails exactly when an installed program does not compile or a mounted part cannot be read |
| GuestFiles.SettledStays | src/session/engine.rs:395-402 | such a path is left alone |
| GuestFiles.NormalizeIs | src/session/engine.rs:395-402 | without outer white space, each backslash becomes a slash, and a slash is put in front where there is none |
| GuestFiles.NormalizeTrims | src/session/engine.rs:395-402 | any one of the Unicode white-space characters at either end is dropped |
| GuestPaths.KernelFsEntries | src/session/engine.rs:158-177 | succeeds exactly when everything can be read; directories once each in path order, then the files by the stable sort on paths; every parent is "/" or listed, so the builder's lookup never falls back |
| GuestPaths.ByPathStable | src/session/engine.rs:174-174 | the sort keeps the order of files with one path |
| GuestPaths.NoFallback | src/compilation_pipeline/fs_image.rs:193-229 | for every list of entries whose parents are listed, whatever its duplicates and limits, the path map holds the parent's path when the builder comes to an entry, so the lookup never uses its default |
| ImportClosure.CollectImportClosure | src/compilation_pipeline.rs:656-727 | three parallel stacks, the visited names and the order behave as the depth-first search on values |
| ImportClosure.CollectEach | src/compilation_pipeline.rs:691-719 | its loop over one module's imports |
| ImportClosure.ClosureExact | src/compilation_pipeline.rs:657-727 | in the rejecting mode, when names are keys among the modules the resolver returns and modules taken for one import the same (as a program imported back under its own name or its file's path does), it succeeds exactly when no cycle and no unreadable module is reachable; then it lists exactly the reachable modules once each, dependencies strictly before importers, the root last |
| ImportClosure.ClosureSound | src/compilation_pipeline.rs:657-727 | when names are keys among the modules the resolver returns, success in the rejecting mode already means all of that, whatever the root is named and whatever the identities and texts |
| ImportClosure.ClosureLists | src/compilation_pipeline.rs:657-727 | in either mode and over any graph a finished closure lists reachable modules, each name once, the root last, and each import of a listed module is taken for a listed one |
| ImportClosure.ClosureComplete | src/compilation_pipeline.rs:657-727 | in either mode everything reachable is listed or taken for a listed module with the same imports; exactly the reachable modules are listed when none are taken for one |
| ImportClosure.VisitLists | src/compilation_pipeline.rs:668-726 | each visit extends the order by modules listed once, after their imports, ending with the visited one |
| ImportClosure.VisitErrors | src/compilation_pipeline.rs:672-684 | a cycle is reported only in the rejecting mode and only for a real walk that clashes with itself; a failure only for a reachable unreadable module |
| ImportClosure.GenuineCycle | src/compilation_pipeline.rs:671-682 | a reported clash of name, identity or text closes a real cycle, since the module met again imports what the module it is taken for imports |
| ImportClosure.LenientTolerates | src/compilation_pipeline.rs:676-684 | over any graph the other mode never reports a cycle, and fails only on a reachable unreadable module |
| ImportClosure.LenientExact | src/compilation_pipeline.rs:657-727 | the other mode succeeds exactly when nothing unreadable is reachable, and lists dependencies before importers exactly when no cycle is |
| ImportExamples.SameTextMisjudged | src/compilation_pipeline.rs:672-684 | a module and a file below it with one text, whose relative import finds the file from the one and a header from the other: the acyclic import is reported as a cycle, or its module dropped |
| ImportExamples.ImportOrderDecides | src/compilation_pipeline.rs:668-684 | with such texts the order of the root's imports alone decides between success and a reported cycle |
| ImportExamples.SameNameMisjudged | src/compilation_pipeline.rs:668-684 | a program named like a registry module it imports: the acyclic import is reported as a cycle, or its module dropped |
| ImportExamples.SameFileMet | src/compilation_pipeline.rs:671-682 | a program whose own file is imported back by path with another text: the path alone makes it a cycle |
| ImportInterface.PreludeComplete | src/compilation_pipeline/imports.rs:123-177 | on success each identity is emitted once, after all its interface imports, and without mangling export sets are pairwise disjoint and disjoint from the importer's names |
| InterfaceOrder.ResolutionOrdered | src/compilation_pipeline/imports.rs:123-352 | over any graph, resolution succeeds exactly when no walk repeats an identity, every reachable module reads with its imports found under unambiguous aliases, and the modules first met under their identities have interfaces and, without mangling, share no export with one another or the importer; those, in the order met, are what is emitted |
| InterfaceFiles.FilesOnce | src/compilation_pipeline/imports.rs:204-319 | a successful resolution emits no file twice, by path or else by key, leaves out no reachable file that was not emitted beforehand, and has met none twice on any walk |
| InterfaceFiles.CycleReturns | src/compilation_pipeline/imports.rs:204-213 | a reported cycle is a walk of real imports from a file back to that file |
| InterfaceFiles.NamesAndFiles | src/compilation_pipeline/imports.rs:414-418 | one file imported by registry name and by path is emitted once, mangled or not; two files with one registry name are both emitted |
| InterfaceExact.ResolutionExact | src/compilation_pipeline/imports.rs:123-352 | where an identity is one file, the same with no mention of order: the condition is on every reachable module |
| InterfaceExact.Resolves | src/compilation_pipeline/imports.rs:188-319 | that condition carries every resolution on the way through |
| InterfaceExact.DoneResolvable | src/compilation_pipeline/imports.rs:188-352 | and there success implies it |
| ImportInterface.SuccessCoversWalks | src/compilation_pipeline/imports.rs:159-214 | success means that no walk from the importer meets an identity twice, and everything reachable is emitted |
| ImportInterface.SuccessIsAcyclic | src/compilation_pipeline/imports.rs:205-214 | the same below any module being visited |
| ImportInterface.ReportedCycleIsReal | src/compilation_pipeline/imports.rs:205-213 | a reported cycle is a closed walk of real import edges |
| ImportInterface.ResolveKeeps | src/compilation_pipeline/imports.rs:188-319 | one resolution keeps the prelude's order and the disjointness of exports |
| ImportInterface.WalkEmitted | src/compilation_pipeline/imports.rs:188-319 | everything reachable from a resolved module is emitted |
| ImportInterface.InterfaceState.constructor | src/compilation_pipeline/imports.rs:123-158 | nothing emitted but the kernel ABI's identity, if any |
| ImportInterface.InterfaceState.EmitInterface | src/compilation_pipeline/imports.rs:275-299 | at most one emission per identity, refused on a collision |
| ImportInterface.InterfaceState.FinishInterface | src/compilation_pipeline/imports.rs:240-319 | exports read, interface emitted, declarations read, in that order |
| ImportInterface.InterfaceState.ResolveImportInterface | src/compilation_pipeline/imports.rs:188-319 | the recursion in place equals the resolver on values and restores the visiting list |
| ImportInterface.InterfaceState.ResolveEach | src/compilation_pipeline/imports.rs:216-237 | its loop over imports, with the alias check |
| Prune.RootFlags | src/build.rs:464-478 | the roots and the symbols they need |
| Prune.Pass | src/build.rs:479-499 | a pass keeps only referenced units, and either keeps one more or finds nothing left to keep |
| Prune.PruneUnreferencedStdlib | src/build.rs:459-509 | returns, at strictly increasing positions, exactly the units to which a chain leads from a unit that is not prunable or defines `_start`, `_kernel_start` or the entry, each defining a symbol the one before leaves undefined |
| Prune.SelectPicks | src/build.rs:504-508 | the units kept are those at strictly increasing positions, exactly the kept ones |
| Prune.FixpointExact | src/build.rs:479-503 | at a fixpoint exactly the referenced units are kept |
| Prune.ReferencedIsLeast | src/build.rs:458-509 | they are the least set that contains the roots and is closed under "defines a symbol a kept unit leaves undefined" |
| Prune.DefinersKept | src/build.rs:459-509 | every symbol a kept unit needs has the same defining units as before pruning |
| Text.UnescapeEscape | src/runconfig/store.rs:300-303 | the two replacements undo the escape on every string of quotes and backslashes |
| Text.FirstReplace | src/runconfig/store.rs:300-303 | the first replacement takes the backslash off each escaped quote and touches no doubled backslash |
| Text.LinesUnlines | src/runconfig/store.rs:82-82 | text written line by line is read as those lines |
| Text.ParseDecimal | src/runconfig/store.rs:230-241 | a printed 64-bit number parses to itself |
| RunConfig.ToToml | src/runconfig/store.rs:148-188 | the appended text is the store's lines in order |
| RunConfig.PrintConfig | src/runconfig/store.rs:150-185 | one configuration's lines, optional ones included or not |
| RunConfigText.TopWritten | src/runconfig/store.rs:152-168 | the name unless it comes from the manifest, the type, the build or root path and the presentation, in that order, with the words written for each |
| RunConfigText.HeaderWritten | src/runconfig/store.rs:169-176 | then the autorun line unless it is empty, the step count and the debug flag |
| RunConfigText.BreakpointsWritten | src/runconfig/store.rs:177-179 | one line per breakpoint, in order |
| RunConfigText.MountsWritten | src/runconfig/store.rs:180-185 | a blank line, the header, the host and the guest of each mount |
| RunConfigText.EscapeWritten | src/runconfig/store.rs:372-374 | character by character, backslashes and quotes get a backslash in front, although the replacements are made one after the other |
| RunConfig.Parse | src/runconfig/store.rs:77-143 | the line loop with its open section and mount, and the conversion of the sections, equal the parser on values |
| RunConfigRoundTrip.FieldParses | src/runconfig/store.rs:82-122 | a printed key line is read back as its key and value |
| RunConfigRoundTrip.SectionParses | src/runconfig/store.rs:77-133 | from any state of the parser, a section, printed or written by hand, adds exactly what it says |
| RunConfigRoundTrip.ConfigParses | src/runconfig/store.rs:92-133 | from any state of the parser, a printed configuration adds exactly its own section |
| RunConfigRoundTrip.ParsePrinted | src/runconfig/store.rs:77-143 | a printed clean store is read as its sections, with the right line numbers |
| RunConfigRoundTrip.SectionReread | src/runconfig/store.rs:200-276 | a section converts back to its configuration exactly when the configuration is faithful |
| RunConfigRoundTrip.CleanRereads | src/runconfig/store.rs:77-276 | a store without '#' and newline comes back exactly when faithful |
| RunConfigExact.ParsedClean | src/runconfig/store.rs:77-143 | no text whatever parses to a configuration that holds a '#' or a newline |
| RunConfigExact.RoundTripExact | src/runconfig/store.rs:77-188 | a store comes back exactly when it holds no '#' or newline, its paths reparse to themselves, its source targets match their kind, and its manifest-inherited names are blank |
| RunConfigExact.HashLost | src/runconfig/store.rs:84-90 | a configuration named "#", otherwise faithful, does not come back |
| RunConfigExact.SaveAndLoad | src/runconfig/store.rs:77-188 | the same of the printing and parsing loops |
| RunConfigByHand.DefaultsAssumed | src/runconfig/store.rs:200-276 | a clean, faithful configuration is read from its section with any of `type`, `present`, `max_steps_per_frame` and `debug` left out whose values are hosted, both, 200000 and off |
| RunConfigByHand.TargetsWritten | src/runconfig/store.rs:341-347 | what a source root is built for, kind by kind |
| RunConfigByHand.LastKeyWins | src/runconfig/store.rs:109-121 | of several lines for one key the last one counts |
| RunConfigByHand.TooEarly | src/runconfig/store.rs:104-121 | a key or a mount before the first configuration is an error at its line |
| RunConfigByHand.LineRefused | src/runconfig/store.rs:293-311 | a key line is accepted exactly when it has an equals sign and its trimmed value is quoted, a flag or a 64-bit number; the error is at its line |
| RunConfigByHand.RefusedExactly | src/runconfig/store.rs:200-276 | a section is refused exactly for an unknown type or presentation, missing or invalid paths, a step count that is no number, or an unusable mount; a build path counts before a root path |
| RunConfigByHand.NumbersExact | src/runconfig/store.rs:230-241 | a number may have a plus in front and is refused from 2^64 on |
| RunConfigByHand.LooseFieldParses | src/runconfig/store.rs:82-122 | white space around a key, its value and the line, and a comment after it, change nothing |
| PathReparse.ReparsesExactly | src/workspace/path.rs:83-113 | a path parses to itself exactly when it is the root, or trimmed, without drive prefix, empty, "." or ".." components or backslashes |
| PathReparse.ParsedReparses | src/workspace/path.rs:83-113 | a parsed path parses to itself exactly when its ends are not white space and it has no drive prefix |
| PathReparse.DriveInside | src/workspace/path.rs:88-113 | "./c:" parses to a path whose text is refused |
| PathReparse.PathByParts | src/workspace/path.rs:83-113 | a trimmed path without drive prefix parses to what its components leave |
| PathReparse.ComponentRules | src/workspace/path.rs:93-110 | a name and the ".." after it cancel, "." changes nothing, ".." at the root is refused, and an empty component is refused after a name |
| PathReparse.BackslashPath | src/workspace/path.rs:92-93 | a path with backslashes parses as the one with slashes |
| Sv39.TranslateSv39 | src/inspect/os_view.rs:187-213 | the loop over the three levels equals the walk on values |
| Sv39.WalkExact | src/inspect/os_view.rs:187-213 | level by level, the walk finds what the architecture finds, or goes on where it faults |
| Sv39.EntryBits | src/inspect/os_view.rs:197-199 | both walks read the same entry |
| Sv39.CombineBits | src/inspect/os_view.rs:204-208 | for an aligned leaf, or-ing in the offset is the field-wise address of the architecture |
| Sv39.AgreesExactly | src/inspect/os_view.rs:187-213 | the walk agrees with the architecture exactly when the tables hold no leaf for the address, or the address is canonical and no entry on its way is reserved or misaligned |
| Sv39.RegularAgrees | src/inspect/os_view.rs:187-213 | over a page table with aligned superpages and no reserved encodings it agrees on every canonical address |
| Sv39.LeafExact | src/inspect/os_view.rs:204-208 | a 4 KiB, 2 MiB or 1 GiB leaf maps its whole region into one frame, and keeps every offset exactly when aligned |
| Sv39.NoncanonicalTranslated | src/inspect/os_view.rs:193-208 | a non-canonical address the architecture faults on and the walk translates |
| Sv39.ReservedTranslated | src/inspect/os_view.rs:198-208 | a reserved leaf encoding the architecture faults on and the walk translates |
| Sv39.MisalignedTranslated | src/inspect/os_view.rs:204-208 | a misaligned gigabyte leaf the architecture faults on and the walk translates |
| TabEdit.LineStarts | guide/theme/guide.js:151-161 | the loop yields the first line start and the starts after each newline below the limit |
| TabEdit.LinesExact | guide/theme/guide.js:151-161 | the lines edited are exactly the lines the selection touches, the last one not when a nonempty selection ends just after a newline, unless it starts before a blank first line |
| TabEdit.TabStopExact | guide/theme/guide.js:185-188 | a tab at the caret reaches the next multiple of four of its line, with one to four spaces, exactly with the same exception |
| TabEdit.EditFor | guide/theme/guide.js:193-200 | an indent inserts four spaces; an outdent removes one tab, or the spaces past the last tab stop before the text, and nothing from other lines |
| TabEdit.EditsExact | guide/theme/guide.js:193-203 | the edits are exactly those of the touched lines that need one |
| TabEdit.EditsSpaced | guide/theme/guide.js:193-203 | the edits of the lines never touch one another |
| TabEdit.ApplyEdits | guide/theme/guide.js:206-209 | edits applied from the last to the first give the text of the edits made in order |
| TabEdit.RemapOffset | guide/theme/guide.js:163-174 | the loop computes the remapped offset defined by recursion on the edits |
| TabEdit.RemapKeeps | guide/theme/guide.js:163-174 | the character at an offset outside every removed span is found at the remapped offset of the edited text |
| TabEdit.RemapMonotone | guide/theme/guide.js:163-174 | remapping keeps the order of offsets |
| TabEdit.RemapRange | guide/theme/guide.js:163-174 | remapped offsets lie in the edited text, its end at the end |
| TabEdit.TabLines | guide/theme/guide.js:193-211 | the edited text and a valid, ordered selection in it |

## Left out

- Machine integers: page numbers, lengths, retired counts and intervals are unbounded here; the 64-bit
  interval product does not overflow for a base below 2^57, and images have fewer than 2^32 pages.
- Snapshots: a snapshot is its light part with the RAM and framebuffer images; detaching and reattaching the
  images is taken as exact.
- FsBuild.BuildFsImage: for entries over the limits of 113 per directory or 255 in all only necessary
  conditions of success are stated; which bytes an overfull directory overwrites is not described, beyond that
  the tree is lost. More than 255 entries are refused as in builds with overflow checks; without them the
  count of free inodes wraps and an image is returned.
- FsView.ReadNode: names are byte strings, so lossy UTF-8 decoding is not modelled.
- GuestPaths.KernelFsEntries: the host file system is a given tree, and programs are given bytes or an error.
- ImportClosure.ClosureExact: takes modules taken for one to import the same; otherwise the order of imports
  decides (ImportOrderDecides), success still means all it should (ClosureSound), and a reported cycle is a
  real walk that clashes with itself (VisitErrors).
- ImportClosure.CollectImportClosure: the stacks are passed by value instead of pushed and popped in place,
  and the compile loop around the closure is not modelled.
- InterfaceExact.ResolutionExact: takes modules with one identity to have the same exports and both or neither
  an interface, as one file has; InterfaceOrder.ResolutionOrdered is the theorem without that.
- ImportInterface.PreludeComplete: states which interfaces are emitted and in which order; the emitted text,
  alias contents, mangled names and the wording of collisions are not modelled.
- RunConfig.Parse: reading and writing the file and filling in manifest titles after a load are not modelled,
  and the causes of a refused path are not told apart.
- Stack, trace and scheduler views of the operating-system inspector: reads of kernel structures defined
  elsewhere; the stack view only applies the translation word by word.
- TabEdit.TabLines: the browser's text area, its events and the normalisation of line ends are not modelled.
- The compiler, assembler, linker, virtual machine, ELF writer, catalogs, settings and all user interface
  code.
