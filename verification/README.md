# Sapote: verified models of eight components

This project models, in Dafny 4.11, the parts of Sapote whose correctness is hardest to see from the code, and proves
what they promise for every input, every run and every reachable state. `dafny verify dfyconfig.toml` checks all of it.

| component | files |
|---|---|
| FAT32 inspector | `FatChain`, `FatGeometry`, `FatDirectory`, `FatSoundness`, `FatOwnership`, `FatTree`, `FatInspector`, with `FatEntries`, `FatExact` and `FatImageExact` for exactly what is accepted |
| FAT32 formatter | `FatLayout`, `FatAcceptance`, `FatImage`, `FatFormatter`, `FatPlan`, `FatCommands`, with `FatTheorems` and `FatStaging` for whole images and host paths |
| user-space allocator | `HeapSpec`, `HeapRuns` and `HeapSuccess` on values, `Heap` on linked headers |
| futex lock | `FutexLock` |
| canvas drawing | `Raster`, `Painting`, `Damage` |
| network fixture | `Packets`, `TcpSession`, `TcpAnswers` |
| SQLite lock table | `SqliteLocks` |
| application packages | `PackageFields`, `PackageManifest`, `PackageBuilder`, `PackageFile`, `PackageTool`, `PackageFormat` |
| logo crop | `LogoGrid`, `LogoCrop` |

`Bytes` and `ShortNames` are shared. Code that updates state in place is modelled by classes and methods over arrays,
linked objects and fields, each proved against a specification function or predicate; the promises are then proved of
the specification. Pure code is modelled by functions.

## What the proofs found

Each of these is a promise that does not hold as it stands. The lemma named gives the input, and the exact condition
under which the promise does hold is proved beside it.

- **Unread directory tails** (`tools/fat32_image.py:766-767`). Clusters of a directory chain behind an early end marker
  are never charged to it, so a file may share them and the image is accepted (`FatTheorems.SharedTailIsAccepted`
  writes such an image).
  Chains are disjoint, and free space is the volume less the total chain length, if and only if every directory's end
  marker stands in its last cluster (`FatTheorems.CanonicalImageIsDisjoint`).
- **Fifteen root entries** (`tools/fat32_image.py:442`, `524`). The count checks admit fifteen files or directories, but
  with the label they leave no end marker and the closing inspection refuses. The formatters succeed exactly up to
  fourteen (`FatCommands.PopulateDataFiles`, `FatCommands.PopulateDataTree`).
- **One adjacent free pair** (`sdk/src/malloc.c:113-123`). The coalescing pass steps past a merged block, so adjacent
  free blocks can remain (`HeapRuns.OnePairIsReached`). Every reachable heap has at most one such pair
  (`HeapRuns.EveryRunKeeps`); a pass leaves none if and only if no three free blocks touched (`HeapSpec.CoalesceIsCompleteIff`).
- **Arena size wrap** (`sdk/src/malloc.c:32-36`). For requests that round up to within 32 bytes of 2^64 the arena length
  wraps, the granted arena may be far too short, and the tail of the block is written over its own header
  (`HeapRuns.WrappedTailOverlaps`). `malloc` keeps its promise if and only if the sum does not wrap
  (`HeapRuns.MallocServesIff`).
- **Pixels beside the artboard** (`apps/native-canvas/main.c:588-622`). A pen at the artboard's edge paints canvas pixels
  outside it, which are not presented. A drawn pixel is presented if and only if it is on the artboard
  (`Damage.DrawnIsPresentedIff`).
- **Early FIN** (`tools/network_fixture.py:411-414`). The FIN's sequence number is not compared with the expected one, so
  a session can finish with data missing (`TcpSession.EarlyFinLosesData`); it is complete if and only if the numbers
  agree (`TcpSession.FinIsCompleteIff`).
- **PENDING over RESERVED** (`ports/sqlite/sapote_vfs.c:187-188`). A file granted PENDING directly can stand beside
  another at RESERVED (`SqliteLocks.JumpIsReached`). A run keeps one writer per path if and only if no step does this
  (`SqliteLocks.RunHasOneWriterIff`).
- **Unread manifest bytes** (`tools/sapote-package.py:180`). Argument records end at byte 464, but the reserved check
  starts at 496; 32 bytes can hold anything (`PackageBuilder.GapIsUnread`). An accepted manifest is the encoding of its
  report if and only if they are zero (`PackageBuilder.ManifestIsReencodedIff`).
- **One 8.3 name, two resources** (`tools/sapote-package.py:220`, `291`). Paths are compared as text, so builder and
  parser accept `A` beside `A.`, and the parser also `a` beside `A` (`PackageTool.FinalPeriodCollides`,
  `PackageTool.ParserKeepsBoth`). The 8.3 names are distinct if and only if the paths differ beyond case and a final
  period (`PackageTool.AcceptedNamesAreDistinctIff`).
- **Resources without a directory** (`tools/sapote-package.py:299-300`). The builder writes them, the parser refuses them;
  this is the only case in which a built package is not read back (`PackageTool.PackageRoundTrip`).

## Assumptions

- The map call behind the allocator returns fresh, 16-aligned ranges, at least as long as asked, that neither overlap nor
  abut earlier ones (`sdk/src/malloc.c:37-39` asks for guards). Callers pass `free` and `realloc` live pointers or null
  and write only inside live blocks.
- FUTEX_WAIT compares and sleeps in one step and may return for no reason; FUTEX_WAKE wakes one sleeper if there is one.
- SHA-256 is an arbitrary function to 32 bytes; `genuine` stands for the digest and ELF checks of `verify_busybox`.
- The guest's TCP segments are SYN-ACKs, slices of one stream of at most 2^32 - 2 bytes, its FIN, bare acknowledgements
  and resets. They may be lost, repeated and reordered at will.
- SQLite calls lock and unlock on open files and asks for one of the five levels.

## Model

| member | source | states |
|---|---|---|
| `FatInspector.WalkChain` | tools/fat32_image.py:677-700 | succeeds exactly when the first cluster denotes a duplicate-free in-range path to an end mark (or is 0), and returns that path; the loop has the volume-bound refusal, and the branch is proved unreachable |
| `FatChain.ChainIsUnique` | tools/fat32_image.py:677-700 | two well-formed chains from one cluster are equal, so the loop's result is the only one possible |
| `FatChain.WalkIs` | tools/fat32_image.py:677-700 | exhibiting any well-formed chain determines what the reference denotes |
| `FatChain.DistinctClustersFit` | tools/fat32_image.py:684-690 | pigeonhole: distinct in-range clusters never outnumber the volume, which makes the bound refusal dead |
| `FatGeometry.AcceptedGeometryFits` | tools/fat32_image.py:583-638 | every accepted boot sector describes a volume that fits the image: known sector size, clusters of 1 to 128 sectors, two FATs long enough for every cluster, root and information sectors in range |
| `FatGeometry.GeometryNeverOverflows` | tools/fat32_image.py:609-629 | for every image, none of the checked additions and multiplications of the boot sector's fields refuses |
| `FatGeometry.ClusterSizeIsBitTest` | tools/fat32_image.py:602-604 | the accepted cluster sizes are those of the bit test over all 8-bit values |
| `FatImageExact.ParseGeometryIsExact` | tools/fat32_image.py:583-638 | a boot sector is accepted with a geometry if and only if its fields say that geometry and the geometry holds together |
| `FatImageExact.FatsMatchIff` | tools/fat32_image.py:669-674 | the copies match if and only if they agree byte by byte |
| `FatImageExact.ParseFsInfoIff` | tools/fat32_image.py:641-653 | the information sector is accepted exactly when signed and with hints unknown or in range |
| `FatGeometry.ClusterAddresses` | tools/fat32_image.py:120-132 | every cluster translates without a refusal to a whole-cluster byte range inside the image and past both FATs, and distinct clusters get disjoint ranges |
| `FatGeometry.FatLookups` | tools/fat32_image.py:656-666 | every FAT lookup stays inside its own copy and never refuses |
| `FatInspector.ScanEndsAtMarker` | tools/fat32_image.py:734-767 | scanning a cluster terminates the directory exactly when one of its entries opens with a zero byte |
| `FatInspector.Inspector.ScanEntries` | tools/fat32_image.py:734-765 | the entry loop over a cluster computes the recursive scan, or refuses exactly when it does |
| `FatInspector.Inspector.ReadEntries` | tools/fat32_image.py:724-769 | reading one directory charges exactly the clusters up to the end marker and yields its records |
| `FatInspector.Inspector.ClaimAll` | tools/fat32_image.py:796-800 | charging a chain refuses exactly when some cluster already belongs to another path |
| `FatInspector.Inspector.ParseFile` | tools/fat32_image.py:787-800 | a file is refused exactly when its chain is malformed, does not match its size or is cross-linked |
| `FatInspector.Inspector.ParseOne` | tools/fat32_image.py:778-800 | one record: dot entries are skipped, directories are entered, files are checked and charged |
| `FatInspector.Inspector.ParseAll` | tools/fat32_image.py:771-800 | the record loop with its case-folded name set computes the recursive specification |
| `FatInspector.Inspector.Parse` | tools/fat32_image.py:713-802 | the recursion terminates on every image, cyclic ones included, computes the specification, updates the ownership map to it and restores the stack |
| `FatDirectory.DeeperStack` | tools/fat32_image.py:721-723 | entering a directory strictly shrinks the set of in-range clusters off the stack, the termination measure |
| `FatSoundness.ParseDirectorySound` | tools/fat32_image.py:713-802 | after acceptance every record's chain is well formed, fits its size and is charged to its path, and every newly charged cluster is explained by a record |
| `FatTree.TrailsNeverRepeat` | tools/fat32_image.py:721-723 | on acceptance no directory is its own ancestor: no trail of directories meets a cluster twice |
| `FatTree.ReachableIsReported` | tools/fat32_image.py:713-802 | the report lists every entry of every directory reachable from the root |
| `FatTree.ReportedIsReachable` | tools/fat32_image.py:713-802 | and nothing else: each reported record is listed by a directory at the end of some trail |
| `FatTree.CanonicalNamesGiveDistinctPaths` | tools/fat32_image.py:759-763 | names of the 8.3 alphabet give every record of an accepted volume a path of its own |
| `FatEntries.DirectoryReadsIff` | tools/fat32_image.py:727-769 | a directory is read with given records if and only if its chain is well formed, some entry is an end marker, nothing before the first one is objectionable, and the records are the named entries before it, field by field and in order |
| `FatEntries.LongNameIff` | tools/fat32_image.py:745-751 | a long-name entry passes exactly with a sequence number of 1 to 20, zero type and cluster, and 13 characters that are padding or printable ASCII |
| `FatExact.SizeFitsIff` | tools/fat32_image.py:789-795 | a chain fits a size exactly when its last cluster is needed and is enough |
| `FatExact.AcceptsIff` | tools/fat32_image.py:713-824 | the walk and the leak check accept a volume if and only if every directory reachable from the root is in order, no trail of directories meets a cluster twice, no cluster belongs to two paths, and every allocated cluster is used |
| `FatExact.ReportedIff` | tools/fat32_image.py:713-802 | the report lists exactly the entries of reached directories |
| `FatOwnership.AcceptedIsSound` | tools/fat32_image.py:805-829 | acceptance by the tree walk and the leak check gives the recursion-free soundness statement |
| `FatOwnership.AllocatedExactlyReachable` | tools/fat32_image.py:805-829 | nonzero entries are exactly the clusters on chains reachable from the root, each charged to the path of a record that holds it |
| `FatOwnership.ChargesAreDisjoint` | tools/fat32_image.py:728-731 | with distinct paths, what is charged to different records never overlaps |
| `FatOwnership.ChainsDisjointIff` | tools/fat32_image.py:727-767 | whole chains are pairwise disjoint if and only if every directory's end marker stands in its last cluster |
| `FatOwnership.UnreadTailIsShared` | tools/fat32_image.py:766-767 | a cluster behind an early end marker is always shared with another record |
| `FatOwnership.FreeCount` | tools/fat32_image.py:815-829 | the allocated count is the number of charged clusters, and the total chain length if and only if every directory ends in its last cluster |
| `FatInspector.CountAllocated` | tools/fat32_image.py:815-824 | counts exactly the nonzero entries and finds exactly whether one is unowned |
| `FatInspector.ViewRepresents` | tools/fat32_image.py:656-666 | every image of an accepted geometry is faithfully represented by its table and clusters |
| `FatInspector.Inspect` | tools/fat32_image.py:805-854 | accepts exactly the images the specification accepts and returns its report |
| `FatImageExact.InspectedIff` | tools/fat32_image.py:805-829 | an image is accepted if and only if its boot sector describes a geometry that holds together, its FAT copies agree byte for byte, its reserved entries and information sector are in order, its tree is well formed and any known free count is right |
| `FatImageExact.ReportIs` | tools/fat32_image.py:830-854 | the report carries the parsed geometry, the counts, and exactly the entries of the reached directories |
| `FatImageExact.DifferentCopiesAreRefused` | tools/fat32_image.py:669-674 | one byte that differs between the FAT copies is enough for a refusal |
| `FatTheorems.AcceptedImageIsExact` | tools/fat32_image.py:805-854 | in every accepted image: nonzero entries are exactly the reachable clusters, each with its owner; the free count is what they leave and equals any known hint |
| `FatTheorems.CanonicalImageIsDisjoint` | tools/fat32_image.py:713-854 | with canonical names: charges are disjoint; chains are disjoint, and free space is cluster count minus total chain length, if and only if every directory ends in its last cluster |
| `FatTheorems.SharedTailIsAccepted` | tools/fat32_image.py:727-767 | writes an image that the whole inspector accepts, with canonical names, in which a file shares the unread tail of a directory: chains overlap and the free count is not the volume less the total chain length |
| `ShortNames.EncodeRoundTrip` | tools/fat32_image.py:421-434 | an encoded name is canonical and reads back as the upper-cased name without a final period |
| `ShortNames.EncodeIff` | tools/fat32_image.py:421-434 | a name can be encoded exactly when its upper case is one to eight letters, digits, underscores or hyphens, then optionally a period and at most three more; its parts are padded with spaces |
| `ShortNames.UpperByteIs` | tools/fat32_image.py:423-423 | exactly the ASCII lower-case letters are moved |
| `ShortNames.CanonicalTextIsInjective` | tools/fat32_image.py:703-710 | different canonical names have different texts |
| `ShortNames.CanonicalBytes` | tools/fat32_image.py:421-434 | a canonical name is its own case fold and is never a dot, deleted or end entry |
| `FatImage.ComputeFatSectors` | tools/fat32_image.py:79-90 | the fixed point is the smallest FAT that covers its own data region, or none exists |
| `FatImage.LeastFatIs` | tools/fat32_image.py:79-90 | in closed form: a FAT exists from 35 sectors on and its length is a 130th of the sectors behind the first thirty, rounded up |
| `FatImage.StandardFat` | tools/fat32_image.py:93-97 | the constants used for the formatted volume are that fixed point |
| `FatImage.BootParses` | tools/fat32_image.py:152-182 | the written boot sector is read back as the standard geometry with its identifier and label |
| `FatImage.BootBytes` | tools/fat32_image.py:152-182 | the bytes of the boot sector that the inspector does not read |
| `FatLayout.EntryBytes` | tools/fat32_image.py:215-224 | all 32 bytes of a directory entry |
| `FatFormatter.Formatter.SetFat` | tools/fat32_image.py:202-206 | writes one entry in both copies and changes nothing else the volume shows |
| `FatFormatter.Formatter.Prepare` | tools/fat32_image.py:292-301 | boot sector, backup, reserved entries, empty root and label are in place |
| `FatFormatter.Formatter.PlaceFile` | tools/fat32_image.py:328-335 | writes a payload into the next free clusters, chained in order and padded with zeros, and leaves all earlier clusters alone |
| `FatFormatter.Formatter.AddEntry` | tools/fat32_image.py:336-338 | adds one entry behind those the directory cluster already holds |
| `FatFormatter.Formatter.AddFile` | tools/fat32_image.py:323-339 | places and lists one root file, refusing exactly when it does not fit |
| `FatFormatter.Formatter.Reserve` | tools/fat32_image.py:340-347 | reserves a one-cluster directory, refusing exactly when the volume is full |
| `FatFormatter.Formatter.ListFolder` | tools/fat32_image.py:344-346 | lists a reserved directory in the root |
| `FatFormatter.Formatter.FillFolder` | tools/fat32_image.py:348-376 | writes the dot entries and all items of a directory, refusing exactly when they do not fit |
| `FatFormatter.Formatter.Finish` | tools/fat32_image.py:378-385 | writes free count and next-free hint to both information sectors |
| `FatLayout.FileChain` | tools/fat32_image.py:328-335 | a placed file's first cluster denotes exactly its run of clusters |
| `FatLayout.ReadBack` | tools/fat32_image.py:328-335 | concatenating a placed file's chain gives its payload followed only by zeros |
| `FatAcceptance.LaidIsAccepted` | tools/fat32_image.py:713-829 | every laid-out volume with room for the root's end marker is accepted, reported exactly, and uses exactly the clusters below the allocator's position |
| `FatAcceptance.FullRootIsRefused` | tools/fat32_image.py:768-769 | with fifteen entries beside its label the root has no end marker and the volume is refused |
| `FatPlan.SortSorts` | tools/fat32_image.py:341-360 | sorting by stored name gives ascending order and keeps names distinct |
| `FatPlan.LessIff` | tools/fat32_image.py:341-360 | the order is that of byte strings: the smaller byte at the first difference, or the shorter first |
| `FatStaging.ResolveIff` | tools/fat32_image.py:266-284 | a path is resolved to exactly the place its text says: without a slash to the root, with one to the directory named before it |
| `FatStaging.TwoSlashesAreRefused` | tools/fat32_image.py:283-284 | a path with two slashes is refused |
| `FatStaging.AdmissibleIff` | tools/fat32_image.py:263-284 | a list of files is admitted exactly when each has 1 byte to 16 MiB and a place that is not reserved, and no two collide, all stated on the path text |
| `FatStaging.FilesAdmittedIff` | tools/fat32_image.py:442-461 | the data files are admitted exactly with 1 to 14 of them, without directories, and 129021 clusters at most |
| `FatStaging.TreeAdmittedIff` | tools/fat32_image.py:504-531 | the tree is admitted exactly with at most 14 directories of at most 13 files and 129021 clusters |
| `FatStaging.SystemAdmittedIff` | tools/fat32_image.py:251-290 | the system image is admitted exactly with no profiles or three genuine ones of their sizes, at most 14 root entries, 13 files a directory and 129021 clusters |
| `FatPlan.ArrangedKeeps` | tools/fat32_image.py:341-360 | sorting directories and their files keeps exactly what was grouped |
| `FatCommands.Arrange` | tools/fat32_image.py:257-284 | admits exactly the file lists that resolve, fit the size bound and collide nowhere, and groups them |
| `FatCommands.PlanFacts` | tools/fat32_image.py:257-284 | the groups are exactly the resolved files, well formed and of the same total size |
| `FatCommands.WrittenInspects` | tools/fat32_image.py:805-854 | a written image is accepted, with its layout reported, exactly when the root keeps room for its end marker |
| `FatCommands.BuildData` | tools/fat32_image.py:239-386 | the empty data image byte for byte, which the inspector accepts and reports empty |
| `FatCommands.VerifyData` | tools/fat32_image.py:890-899 | inspection, identity, emptiness and comparison accept exactly the fresh data image, and the report is that of an empty volume |
| `FatCommands.PopulateDataFiles` | tools/fat32_image.py:437-491 | after verifying the source image succeeds exactly on the fresh data image with 1 to 14 admitted files that fit, and then the image is accepted and stores the layout |
| `FatCommands.PopulateDataTree` | tools/fat32_image.py:499-580 | after verifying the source image succeeds exactly on the fresh data image with an admitted tree of at most 14 directories, and then the image is accepted and stores the layout |
| `FatCommands.CheckSystem` | tools/fat32_image.py:251-290 | the input checks pass exactly on complete genuine profiles and admitted extra files that fit the root and its directories |
| `FatCommands.BuildSystem` | tools/fat32_image.py:239-386 | succeeds exactly on admitted inputs, without inspecting, and then the image is accepted by the inspector and stores the layout |
| `FatCommands.Seal` | tools/fat32_image.py:572-577 | information sectors: the image is correct when the root keeps room for its end marker, and refused by the inspector otherwise |
| `FatCommands.Close` | tools/fat32_image.py:572-580 | information sectors, then the closing inspection: accepted exactly when the root keeps room |
| `FatTheorems.StagedFileIsStored` | tools/fat32_image.py:437-580 | every staged file of a correct image is reported at its resolved place and reads back byte for byte, then zeros |
| `FatStaging.StagedPathIsStored` | tools/fat32_image.py:437-580 | every staged file is reported under its host path in upper case without final periods, with its attributes and size, and reads back byte for byte, then zeros |
| `FatStaging.StoredUnderIsUnique` | tools/fat32_image.py:421-434 | a host path is stored under one text only |
| `FatStaging.DataFileIsStored` | tools/fat32_image.py:437-491 | after staging data files each is found under its name as an archive file |
| `FatStaging.TreeFileIsStored` | tools/fat32_image.py:499-580 | after staging a tree each file is found under its path as an archive file |
| `FatStaging.SystemFileIsStored` | tools/fat32_image.py:239-386 | in a system image extras are found under their paths and profiles under their names, as read-only archive files |
| `FatStaging.OnlyStagedIsReported` | tools/fat32_image.py:437-580 | nothing else is reported: staged files, the directories their paths name, and dot entries to the directory itself and the root |
| `FatStaging.DotsAreReported` | tools/fat32_image.py:549-554 | every directory holds both its dot entries |
| `FatCommands.SealIs` | tools/fat32_image.py:378-385 | both boot sectors and both information sectors agree, with the free count and the first free cluster, or no hint on a full volume |
| `HeapSpec.CoalesceHalves` | sdk/src/malloc.c:113-123 | one pass at least halves the touching free pairs |
| `HeapSpec.CoalesceIsCompleteIff` | sdk/src/malloc.c:113-123 | a pass leaves no touching free pair if and only if no three free blocks touched in a row |
| `HeapSpec.FreeingAddsTwo` | sdk/src/malloc.c:112-112 | marking one block free makes at most two new touching pairs |
| `HeapSpec.CarvingAddsNone` | sdk/src/malloc.c:51-64 | taking and splitting a free block makes no new touching pair |
| `HeapRuns.MallocServesIff` | sdk/src/malloc.c:28-97 | for every size, malloc keeps its promise in every valid heap and for every good answer of the system if and only if the sum in its arena request does not wrap |
| `HeapRuns.AnsweredIff` | sdk/src/malloc.c:28-49 | for every size, a granted arena always holds the block it was asked for if and only if the request does not wrap; malloc, calloc and realloc are proved under exactly this condition |
| `HeapRuns.NoBlockIsThatLong` | sdk/src/malloc.c:28-97 | no block of a valid heap is as long as a request that wraps, so no pointer could serve it |
| `HeapRuns.SplitDoesNotWrap` | sdk/src/malloc.c:51-53 | the sum in the split test never wraps in a valid heap |
| `HeapRuns.WrappedTailOverlaps` | sdk/src/malloc.c:32-62 | after a wrapped request the granted block passes the split test and its tail is written over its own header |
| `HeapRuns.CellsDisjoint` | sdk/src/malloc.c:28-64 | different blocks of a valid heap never overlap |
| `HeapRuns.MallocKeeps` | sdk/src/malloc.c:66-97 | a successful call returns a fresh 16-aligned payload at least as long as asked and leaves every live block alone; a failed one changes nothing; the heap stays valid |
| `HeapSuccess.MallocSucceedsIff` | sdk/src/malloc.c:66-97 | succeeds exactly when the rounded size does not overflow and a free block fits or an arena is granted; takes the first fit, asks for an arena only if none fits, wastes less than 64 bytes and splits off 32 bytes or more |
| `HeapSuccess.CallocSucceedsIff` | sdk/src/malloc.c:136-149 | succeeds exactly when the product does not overflow and malloc of it succeeds |
| `HeapSuccess.ReallocSucceedsIff` | sdk/src/malloc.c:151-173 | a long enough block is kept as it is; otherwise it succeeds exactly when malloc does, and the old block is freed; of null it is malloc, to zero it is free |
| `HeapSuccess.FreeAbortsIff` | sdk/src/malloc.c:99-125 | aborts exactly on a block that is already free; a granted free changes neither memory nor arenas |
| `HeapSuccess.NeededIs` | sdk/src/malloc.c:23-26 | the rounded size is the least multiple of 16 that holds the request and one byte |
| `HeapSuccess.ArenaRequestIs` | sdk/src/malloc.c:32-36 | the arena request is header and block, or 64 KiB if that is more |
| `HeapSuccess.LongEnoughIsGood` | sdk/src/malloc.c:37-41 | every aligned, separate, long enough range is an answer the model admits |
| `HeapRuns.TouchingIsNext` | sdk/src/malloc.c:28-64 | of any two blocks of a valid heap, one ends where the other begins only if they are neighbours in the list |
| `HeapRuns.FreeKeeps` | sdk/src/malloc.c:99-125 | the heap stays valid, of all its blocks at most one pair of free ones is adjacent in address, and exactly the freed block stops being live |
| `HeapRuns.CallocKeeps` | sdk/src/malloc.c:136-149 | as malloc of the product, with that many zero bytes and every other block's contents kept |
| `HeapRuns.ReallocKeeps` | sdk/src/malloc.c:151-173 | a successful call returns a live block of at least the asked size that keeps the common prefix, every other block keeps its contents, and a failed one changes nothing |
| `HeapRuns.StepKeeps` | sdk/src/malloc.c:66-173 | every call keeps the heap invariant |
| `HeapRuns.EveryRunKeeps` | sdk/src/malloc.c:66-173 | in every state of every run the blocks tile each arena exactly, are aligned, and of all blocks of the heap at most one pair of free ones is adjacent in address |
| `HeapRuns.BytesAreConserved` | sdk/src/malloc.c:28-64 | headers and payloads together account for every mapped byte |
| `HeapRuns.OnePairRemains` | sdk/src/malloc.c:113-123 | freeing the middle of three merges the first two only |
| `HeapRuns.OnePairIsReached` | sdk/src/malloc.c:99-125 | a run from the empty heap ends with an adjacent free pair, so the bound of one is attained |
| `Heap.Allocator.Search` | sdk/src/malloc.c:79-83 | the first-fit loop finds the first free block that is large enough, or none |
| `Heap.Allocator.NewArena` | sdk/src/malloc.c:28-49 | links a whole arena in as one free block at the head |
| `Heap.Allocator.Split` | sdk/src/malloc.c:51-64 | cuts the block and links its tail behind it when at least 32 payload bytes remain |
| `Heap.Allocator.Malloc` | sdk/src/malloc.c:66-97 | the linked list changes exactly as the specification of malloc says |
| `Heap.Allocator.CoalescePass` | sdk/src/malloc.c:113-123 | the in-place pass over the links computes the specified single pass and keeps every live header listed |
| `Heap.Allocator.Free` | sdk/src/malloc.c:99-125 | null is ignored, a free block aborts, otherwise the list changes exactly as specified |
| `Heap.Allocator.Calloc` | sdk/src/malloc.c:136-149 | the list and memory change exactly as specified, overflow included |
| `Heap.Allocator.Realloc` | sdk/src/malloc.c:151-173 | never aborts on a live block, and list, memory and result are as specified |
| `FutexLock.StepKeeps` | sdk/src/runtime.c:324-346 | every step of any thread keeps: the word tells whether one thread holds, and no sleeper is forgotten |
| `FutexLock.MutualExclusion` | sdk/src/runtime.c:324-346 | in every state of every run two threads never both hold the lock |
| `FutexLock.ReleasedBetween` | sdk/src/runtime.c:324-346 | between two acquisitions the first holder has released |
| `FutexLock.NoLostWakeup` | sdk/src/runtime.c:324-346 | whenever a thread sleeps, some thread holds, has yet to wake, or is still running towards the lock |
| `FutexLock.NoDeadlock` | sdk/src/runtime.c:324-346 | while any thread is inside the protocol, a step other than a new call or a spurious return can be taken |
| `FutexLock.StepWorks` | sdk/src/runtime.c:324-346 | every protocol step strictly uses up work; only new calls and spurious returns add any |
| `FutexLock.EveryCallCompletes` | sdk/src/runtime.c:324-346 | a run has at most (2n + 8) steps a call and 3 a spurious return, and stands still exactly when every thread is outside |
| `FutexLock.StepMoves` | sdk/src/runtime.c:324-346 | in every step threads move along the protocol only: a caller leaves only as holder, and takes the lock exactly on an exchange that found zero |
| `FutexLock.CallsAreServed` | sdk/src/runtime.c:324-346 | in every run each lock call of a thread has acquired once, except one it is still in, and each acquisition is released once, except one still held |
| `FutexLock.AtRestAllAreServed` | sdk/src/runtime.c:324-346 | at rest every call has acquired and released exactly once |
| `Raster.Advance` | apps/native-canvas/main.c:247-256 | the two tests on the error term take exactly the next point of the rounded line |
| `Raster.AtEndIff` | apps/native-canvas/main.c:244-246 | the second endpoint is reached after exactly max(dx, dy) steps and not before |
| `Raster.NoOvershoot` | apps/native-canvas/main.c:247-256 | neither coordinate leaves the box between the endpoints |
| `Raster.HalfPixel` | apps/native-canvas/main.c:247-256 | every visited point is within half a pixel of the ideal line on the minor axis, and each step moves at most one pixel on each axis |
| `Raster.ErrorIsBounded` | apps/native-canvas/main.c:234-256 | the doubled error never exceeds three times the longer side |
| `Painting.Canvas.PutPixel` | apps/native-canvas/main.c:191-199 | sets one pixel if it is on the canvas and changes no other |
| `Painting.Canvas.FillRect` | apps/native-canvas/main.c:180-189 | sets exactly the rectangle's pixels on the canvas, with 32-bit wrap-around of its far edges |
| `Painting.Canvas.StrokeRect` | apps/native-canvas/main.c:201-211 | sets exactly the four edges, or nothing for an empty rectangle |
| `Painting.Canvas.FillCircle` | apps/native-canvas/main.c:213-225 | sets exactly the pixels within the radius |
| `Raster.DiscIsRound` | apps/native-canvas/main.c:216-224 | the box of the loops loses no point: covered means within the radius |
| `Painting.Canvas.DrawLine` | apps/native-canvas/main.c:227-258 | terminates for all endpoints after exactly max(dx, dy) steps, having visited the rounded line in order and set exactly the pixels under the pen |
| `Painting.Canvas.DrawEllipse` | apps/native-canvas/main.c:260-305 | sets exactly the tolerance band of the ellipse, or a diagonal when the box is too thin |
| `Painting.Canvas.DrawRing` | apps/native-canvas/main.c:288-304 | the loops set exactly the tolerance band of the inscribed ellipse |
| `Damage.EdgesAreFrame` | apps/native-canvas/main.c:201-211 | a stroked rectangle no smaller than its border is the outer box less the inner one |
| `Damage.RingIsSymmetric` | apps/native-canvas/main.c:288-304 | the ellipse touches the middle of each side and is symmetric about its centre |
| `Damage.ClampX` | apps/native-canvas/main.c:566-575 | the nearest artboard column |
| `Damage.ClampY` | apps/native-canvas/main.c:577-586 | the nearest artboard row |
| `Damage.Around` | apps/native-canvas/main.c:588-622 | the damage rectangle is non-empty, inside the artboard, and holds exactly the artboard pixels within the margin of the box between the two artboard points |
| `Damage.LineReaches` | apps/native-canvas/main.c:227-258 | a line's pixels stay within the pen's radius of the box between its endpoints |
| `Damage.DrawnReaches` | apps/native-canvas/main.c:624-648 | line, rectangle and ellipse stay within two pixels of the box between their points |
| `Damage.DrawnIsPresentedIff` | apps/native-canvas/main.c:588-622 | a drawn pixel is in the damage rectangle if and only if it lies on the artboard |
| `Damage.EdgeStrokeEscapes` | apps/native-canvas/main.c:588-604 | a brush at the artboard's edge paints a canvas pixel that is not presented |
| `Damage.DrawShape` | apps/native-canvas/main.c:624-648 | sets exactly the pixels of the tool's shape |
| `Damage.DrawnIs` | apps/native-canvas/main.c:624-648 | pixel by pixel: a line with a three-pixel pen, a frame two pixels wide, the band around the inscribed ellipse, with the thin cases as lines |
| `Damage.RingIsBand` | apps/native-canvas/main.c:289-304 | the tolerance band as an inequality on coordinates |
| `Damage.Editor.Choose` | apps/native-canvas/main.c:783-807 | a click in toolbar or palette keeps the drawing state valid |
| `Damage.Editor.Press` | apps/native-canvas/main.c:808-834 | a brush press paints the disc, and every changed artboard pixel is presented |
| `Damage.Editor.Motion` | apps/native-canvas/main.c:746-766 | a brush move paints the stroke from the previous point, and every changed artboard pixel is presented |
| `Damage.Editor.Release` | apps/native-canvas/main.c:844-862 | a shape tool paints its shape from the origin, and every changed artboard pixel is presented |
| `LogoGrid.NeighboursAreAdjacent` | tools/make-logo-asset.py:111-119 | the pushed indices are exactly the pixels of the image that share a side |
| `LogoGrid.ClosedIsComponent` | tools/make-logo-asset.py:105-123 | a closed set of linked pixels around the seed is its 4-connected component |
| `LogoGrid.SameComponent` | tools/make-logo-asset.py:105-123 | pixels of one component have the same component |
| `LogoCrop.Expand` | tools/make-logo-asset.py:120-123 | clears and pushes exactly the occupied neighbours, each once |
| `LogoCrop.Visit` | tools/make-logo-asset.py:106-123 | one iteration of the fill keeps its invariant |
| `LogoCrop.Flood` | tools/make-logo-asset.py:100-124 | clears exactly the seed's component, counts it exactly and bounds it exactly |
| `LogoCrop.FindMark` | tools/make-logo-asset.py:93-126 | finds the first largest component in scan order, or none when nothing is visible; the counts add up to the number of visible pixels |
| `LogoCrop.Padded` | tools/make-logo-asset.py:131-134 | the padded box holds the box and stays inside the image |
| `LogoCrop.PaddedIff` | tools/make-logo-asset.py:131-134 | the padded box holds exactly the pixels of the image within the padding of the box |
| `LogoCrop.CopyRows` | tools/make-logo-asset.py:135-142 | the row copies fill the buffer with exactly the box's rows |
| `LogoCrop.RowsCopyPixels` | tools/make-logo-asset.py:138-142 | every channel of every cropped pixel is the one at the same place of the source |
| `LogoCrop.Crop` | tools/make-logo-asset.py:86-143 | refuses exactly when nothing is visible, otherwise returns the padded, clamped box of a first largest component, pixels unchanged |
| `Packets.Checksum` | tools/network_fixture.py:40-46 | summing and folding computes the complement of the one's-complement residue, odd lengths included |
| `Packets.ChecksIff` | tools/network_fixture.py:40-46 | a message checks out if and only if its words sum to a nonzero multiple of 0xFFFF |
| `Packets.Ipv4ChecksIff` | tools/network_fixture.py:53-62 | building fails exactly above 65515 bytes; the header re-sums to zero if and only if it was not built with a bad checksum |
| `Packets.UdpChecks` | tools/network_fixture.py:65-73 | the datagram re-sums to zero with its pseudo-header for every payload, the 0-to-0xFFFF substitution included, unless sent without a checksum |
| `Packets.TcpChecks` | tools/network_fixture.py:76-88 | the segment re-sums to zero with its pseudo-header for every payload and options that can be packed |
| `Packets.Ipv4RoundTrip` | tools/network_fixture.py:98-106 | parsing a framed packet gives back addresses, protocol and payload |
| `Packets.ParseIpv4Iff` | tools/network_fixture.py:98-106 | which frames are read as packets, and from which bytes |
| `Packets.Ipv4Fields` | tools/network_fixture.py:53-62 | the remaining header fields of a built packet |
| `Packets.UdpRoundTrip` | tools/network_fixture.py:471-475 | parsing a built datagram gives back ports and payload |
| `Packets.PseudoBytes` | tools/network_fixture.py:69-69 | the pseudo-header byte by byte |
| `Packets.ParseTcpIff` | tools/network_fixture.py:418-425 | which segments are read, and from which bytes |
| `Packets.TcpFields` | tools/network_fixture.py:76-88 | a built segment carries its options, padded with no-operations, the window and no urgent data |
| `Packets.TcpRoundTrip` | tools/network_fixture.py:385-388 | parsing a built segment gives back ports, sequence numbers, flags and payload |
| `TcpSession.ClientSession.SendClient` | tools/network_fixture.py:346-354 | sends at the current numbers and advances by payload plus SYN or FIN |
| `TcpSession.ClientSession.HandleClient` | tools/network_fixture.py:382-414 | the session changes exactly as specified for every segment in every state |
| `TcpSession.ClientSession.HandleTcp` | tools/network_fixture.py:416-430 | short, malformed and foreign segments leave the session alone |
| `TcpAnswers.FlagBits` | tools/network_fixture.py:389-411 | the flag tests are those on the bits of the flag byte |
| `TcpAnswers.StepAnswers` | tools/network_fixture.py:382-414 | every step: what is sent, in order and with which numbers, and what else changes; other segments change nothing |
| `TcpAnswers.EveryStepAnswers` | tools/network_fixture.py:382-414 | in every run whatever is sent from establishment on carries the acknowledgement due then, and each accepted slice is acknowledged at once with the number behind the last accepted byte |
| `TcpAnswers.RequestIsSentOnce` | tools/network_fixture.py:394-401 | in every run only the SYN is sent before establishment; then the acknowledgement and the request, once, and no data after it |
| `TcpAnswers.ResetsAreReported` | tools/network_fixture.py:389-393 | every reset is reported once |
| `TcpSession.AcceptedIsPrefix` | tools/network_fixture.py:382-414 | for every order, loss and repetition of the guest's segments the accepted payloads concatenate to a prefix of its stream, early FIN included |
| `TcpSession.FinIsCompleteIff` | tools/network_fixture.py:411-414 | a FIN ends the session with the whole stream if and only if it was the next segment due |
| `TcpSession.EarlyFinLosesData` | tools/network_fixture.py:411-414 | an early FIN finishes the session with the stream missing |
| `TcpSession.NothingAfterFin` | tools/network_fixture.py:402-414 | after an early FIN nothing more is accepted |
| `TcpSession.InOrderCompletes` | tools/network_fixture.py:402-414 | a stream that arrives in order, cut anyhow, is accepted whole and finishes |
| `TcpSession.BoundIsTight` | tools/network_fixture.py:402-414 | one byte more than 2^32 - 2 and a slice can be accepted twice |
| `TcpSession.SentIsContiguous` | tools/network_fixture.py:346-354 | the session's own sequence numbers never skip or repeat, whatever arrives |
| `SqliteLocks.StepKeeps` | ports/sqlite/sapote_vfs.c:176-214 | every open, close, lock and unlock keeps: one file per path at PENDING or above, and EXCLUSIVE stands alone |
| `SqliteLocks.EveryRunExcludes` | ports/sqlite/sapote_vfs.c:176-214 | this holds in every state of every run |
| `SqliteLocks.OneWriterIff` | ports/sqlite/sapote_vfs.c:176-204 | one file per path at RESERVED or above survives a step if and only if it does not jump to PENDING over another's RESERVED |
| `SqliteLocks.RunHasOneWriterIff` | ports/sqlite/sapote_vfs.c:176-214 | a run has one writer per path throughout if and only if none of its steps jumps |
| `SqliteLocks.JumpIsReached` | ports/sqlite/sapote_vfs.c:176-204 | a run of six calls reaches two writers on one path |
| `SqliteLocks.LockGrantedIff` | ports/sqlite/sapote_vfs.c:176-204 | exactly which requests are granted beside which rivals; a granted one leaves the level asked for, a refused one nothing changed |
| `SqliteLocks.UnlockGrantedIff` | ports/sqlite/sapote_vfs.c:206-214 | an unlock is granted exactly down to a level between none and the file's own and leaves that level |
| `SqliteLocks.UnlockKeepsLevel` | ports/sqlite/sapote_vfs.c:176-214 | after an unlock to SHARED no rival gets EXCLUSIVE, after one to RESERVED none gets RESERVED, after one to PENDING none gets SHARED, and the file keeps every level up to the kept one |
| `SqliteLocks.LevelIsKept` | ports/sqlite/sapote_vfs.c:176-214 | in every run a file that is neither closed nor unlocked below a level it holds still holds it |
| `SqliteLocks.StepChanges` | ports/sqlite/sapote_vfs.c:75-214 | a step is the operation it names, and closing empties the slot alone |
| `SqliteLocks.RegisteredIff` | ports/sqlite/sapote_vfs.c:75-84 | a file is opened exactly when a slot is empty, into the first such slot, unlocked |
| `SqliteLocks.Registry.RegisterFile` | ports/sqlite/sapote_vfs.c:75-84 | takes the first empty slot, or refuses when all sixteen are used |
| `SqliteLocks.Registry.UnregisterFile` | ports/sqlite/sapote_vfs.c:86-91 | empties the file's slot and no other |
| `SqliteLocks.Registry.LockConflict` | ports/sqlite/sapote_vfs.c:176-195 | true exactly when another open file of the path holds a level that blocks the request |
| `SqliteLocks.Registry.LockFile` | ports/sqlite/sapote_vfs.c:197-204 | the table and result are exactly as specified |
| `SqliteLocks.Registry.UnlockFile` | ports/sqlite/sapote_vfs.c:206-214 | lowers the level, or refuses a negative or higher one and changes nothing |
| `SqliteLocks.Registry.CheckReserved` | ports/sqlite/sapote_vfs.c:216-230 | true exactly when some open file of the path is at RESERVED or above |
| `SqliteLocks.ReservedIsTheWriter` | ports/sqlite/sapote_vfs.c:216-230 | with one writer per path, the reported lock belongs to exactly one file |
| `SqliteLocks.Registry.Open` | ports/sqlite/sapote_vfs.c:268-303 | a bad path, a taken name or a failed open leaves the table alone; otherwise the file is registered unlocked or refused |
| `SqliteLocks.Registry.Close` | ports/sqlite/sapote_vfs.c:93-102 | the slot is emptied whether or not the descriptor closed |
| `PackageFields.TextIsExact` | tools/sapote-package.py:152-162 | decoding a field gives a text if and only if the field is that text's encoding |
| `PackageFormat.DecodeTextIff` | tools/sapote-package.py:152-162 | text ends at the first zero byte, is ASCII, and only zeros follow |
| `PackageFormat.FlagIsBit` | tools/sapote-package.py:193-193 | capability flag i is bit i of the number |
| `PackageFields.BitsRoundTrip` | tools/sapote-package.py:129-131 | capability bits are read back |
| `PackageFields.CollectCapabilities` | tools/sapote-package.py:123-131 | order and repetition of names do not matter; unknown names are found exactly |
| `PackageManifest.InspectIsExact` | tools/sapote-package.py:173-210 | a manifest is accepted with a report if and only if it is that report's layout, bytes 464 to 496 left free |
| `PackageBuilder.EncodeManifest` | tools/sapote-package.py:98-149 | succeeds exactly on specifications that pass every check, and fills the buffer with their layout |
| `PackageFormat.SpecOkIff` | tools/sapote-package.py:98-131 | exactly which specifications are admitted, bound by bound |
| `PackageFormat.BuildOkIff` | tools/sapote-package.py:213-236 | exactly which executables and resources are admitted |
| `PackageFormat.ManifestOffsets` | tools/sapote-package.py:173-210 | where an accepted manifest keeps each reported field |
| `PackageFormat.PackageOffsets` | tools/sapote-package.py:252-279 | where an accepted package keeps what is returned |
| `PackageFormat.RecordOffsets` | tools/sapote-package.py:225-229 | path, length, zeros and payload of a stored record |
| `PackageBuilder.ManifestRoundTrip` | tools/sapote-package.py:98-210 | inspecting an encoded manifest reports the specification field by field |
| `PackageBuilder.ManifestIsReencodedIff` | tools/sapote-package.py:180-181 | an accepted manifest is the encoding of its report if and only if bytes 464 to 496 are zero |
| `PackageBuilder.GapIsUnread` | tools/sapote-package.py:180-181 | whatever those 32 bytes hold, the manifest is accepted with the same report |
| `PackageBuilder.EncodeResources` | tools/sapote-package.py:213-230 | succeeds exactly on at most 13 distinct, admitted resources, and appends their records sorted and upper-cased |
| `PackageFile.ReadIsExact` | tools/sapote-package.py:279-297 | the record loop accepts exactly the encodings of storable records with distinct paths, and ends where they end |
| `PackageFile.ParseIsExact` | tools/sapote-package.py:252-307 | a file is accepted if and only if it is, byte for byte, the package of what is returned |
| `PackageTool.BuildHeader` | tools/sapote-package.py:240-248 | the header buffer, with zero resource fields when there are none |
| `PackageTool.BuildPackage` | tools/sapote-package.py:233-249 | succeeds exactly on admitted inputs and returns their package |
| `PackageTool.ParsePackage` | tools/sapote-package.py:252-307 | the cursor loop computes the specification for every input |
| `PackageTool.NormalizedIsSorted` | tools/sapote-package.py:218-219 | the stored resources are the given ones upper-cased, in ascending order |
| `PackageTool.PackageRoundTrip` | tools/sapote-package.py:233-307 | parsing a built package returns manifest, executable, normalized resources and the specification's report; it is refused exactly when there are resources and no directory |
| `PackageTool.CapabilitiesReported` | tools/sapote-package.py:193-193 | the reported capability names are exactly the requested ones |
| `PackageTool.AcceptedNamesAreDistinctIff` | tools/sapote-package.py:287-293 | accepted resources have distinct paths, and distinct 8.3 names if and only if the paths differ beyond case and a final period |
| `PackageTool.FinalPeriodCollides` | tools/sapote-package.py:218-221 | the builder accepts `A` beside `A.`, one 8.3 name |
| `PackageTool.ParserKeepsBoth` | tools/sapote-package.py:287-293 | for every digest function the parser accepts a package that stores `A` beside `A.` and one that stores `a` beside `A`, each pair one 8.3 name |
| `PackageFormat.SpecIsReported` | tools/sapote-package.py:98-210 | an encoded manifest is read back field by field as the specification |
| `ShortNames.IsSpaceIff` | tools/fat32_image.py:703-710 | which characters are stripped |
| `Painting.FilledIs` | apps/native-canvas/main.c:180-189 | the far edges in 32-bit arithmetic |
| `TcpAnswers.GuestMaySend` | tools/network_fixture.py:382-414 | what the guest is free to send |
| `HeapSuccess.EveryCallSteps` | sdk/src/malloc.c:66-173 | every call with live pointers, good answers and a request that does not wrap is a step of a run and keeps the heap valid |
| `SqliteLocks.AnyCallIsAllowed` | ports/sqlite/sapote_vfs.c:75-214 | which calls a run may make |
| `FutexLock.AnyThreadMayMove` | sdk/src/runtime.c:324-346 | any thread may move from where it stands, in any interleaving |
| `LogoGrid.AdjacentIff` | tools/make-logo-asset.py:107-119 | four neighbours: one row and neighbouring columns, or one column and neighbouring rows |
| `FatStaging.NamesOfVolumes` | tools/fat32_image.py:32-44 | labels, identifiers and profile names as text |
| `PackageFormat.U64Bytes` | tools/sapote-package.py:256-257 | 64-bit fields are little-endian |
| `Bytes.LittleEndian` | tools/fat32_image.py:51-64 | the least significant byte comes first |

## Left out

- Error texts: refusals carry a kind or are only refusals, and which of several applicable checks fires first is not specified.
- Non-ASCII names: Python's `upper` of characters outside ASCII is not modelled; such names are refused here.
- JSON typing of package specifications: the specification is a record with its defaults filled in.
- `build_full_data_image`, `mutate_image`, `verify_system` and the command lines of the FAT32 tool: fixed images, fault injection and file handling.
- FAT32 directory entries with long names: validated as the source does and then refused, so no long name is ever reported.
- Block magic in `malloc.c`: a pointer is the header it stands behind, so a corrupted or foreign header cannot be expressed.
- HeapRuns.MallocKeeps: stated for requests that do not wrap; `HeapRuns.MallocServesIff` proves the promise fails exactly for the others.
- HeapRuns.CallocKeeps: stated for products that do not wrap; by `HeapRuns.AnsweredIff` a granted arena may be too short for the others.
- HeapRuns.ReallocKeeps: stated for sizes that do not wrap; by `HeapRuns.AnsweredIff` a granted arena may be too short for the others.
- Heap.Allocator.Malloc: the object is not followed into the overlapping headers of a wrapped request.
- Heap.Allocator.Realloc: assumes the old block is live, as the C standard demands of callers.
- Interleaving inside the allocator: each call runs under the runtime lock, whose mutual exclusion is the futex model's result.
- Memory ordering of the lock's atomics: steps are sequentially consistent.
- FutexLock.EveryCallCompletes: bounds steps between new calls and spurious returns; it promises no fairness to one thread against endless newcomers.
- 32-bit overflow inside `draw_line` and `fill_circle`: coordinates are unbounded integers; `Raster.ErrorIsBounded` bounds what the error term needs.
- The canvas stride is fixed to the 420 pixels that `main` insists on.
- Text, palette, toolbar and icon drawing of the canvas, and its event plumbing beyond press, motion and release.
- DHCP, DNS, HTTP and ARP replies of the network fixture, its knock handling and the server side of its TCP.
- Path mapping (`map_path`, `short_name`) and file input and output of the SQLite VFS: `Open` takes the mapped path and the system's answers as parameters.
- PNG decoding, downscaling and output of the logo tool.
- Installation of packages into a system image beyond what the formatter model covers.
