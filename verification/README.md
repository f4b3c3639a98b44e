# Host audit, launcher and storage protocols in Dafny

A model of the parts of the repository that decide something hard: the mount index and
the resource ledger of the cohort audit, its process join and allocation totals; the
usr-merge of the signed OS image; the catalogs, the loader graph and the ELF rules of the
managed launcher; and three protocols that run over any interleaving: the staged observer
slot with its three gate bytes, the parent session that starts one guest, and the bounded
native wire with its test owner.

Code that changes things step by step is a class or a method with loops, proved against
functions and relations; pure checks are predicates with lemmas. An exception is an
`Outcome`, an `Option` or a `bool`. What the host answers (the kernel, the clock, a hash, a
spawned command) is a free choice at the place where the code asks, or a field of the
event or call that asks, so every theorem holds for all answers.

`dafny verify dfyconfig.toml` checks the whole project.

| file | part |
|---|---|
| `Text.dfy`, `Chronicle.dfy` | string order, prefixes, stable sort, splitting, selection; logs of protocol acts |
| `Ledger.dfy`, `MountScan.dfy`, `MountIndex.dfy`, `MountLookup.dfy`, `MountText.dfy`, `MountTable.dfy`, `MountViews.dfy` | the audit's ledger, mount index, mount tables and views |
| `ProcJoin.dfy`, `Allocation.dfy` | process observation; allocation walk |
| `UsrMerge.dfy` | `normalizeSignedUsrLayout` |
| `Catalog.dfy`, `QueryClosure.dfy` | staged catalog and canonical paths; query tool closure |
| `Envelope.dfy`, `Census.dfy`, `Loader.dfy` | Python envelope: parser, census, loader graph |
| `ElfImage.dfy`, `ElfLayout.dfy`, `ElfRole.dfy`, `ElfValidate.dfy` | ELF role validation |
| `ReadonlyMounts.dfy`, `StagedSlot.dfy`, `ParentSession.dfy` | read-only mounts; staged slot; parent session |
| `TestOwner.dfy`, `NativeWire.dfy` | test owner and native wire |

Six results differ from what one might expect of the code:

- The mount index and the linear scan do not agree on every list. They agree exactly when
  the closest row object is listed once (`IndexAgreesExactly`, `RepeatedRowDiffers`).
- A mount point spelled with trailing slashes covers paths whose rest the join then drops;
  the rest is kept exactly if it is empty or the path starts with the point as spelled
  (`PhysicalExactly`, `PhysicalLosesRest`).
- The read-only check shields the subtree of every accepted path except the root; canonical
  mount points play no part (`AcceptedSubtree`, `RootNotShielded`).
- Canonicalisation refuses exactly the accepted alias chains of more than 32 hops
  (`EntryCanonicalIsChainEnd`), and such catalogs are accepted (`LongChainRefused`).
- When `discover_views` raises, it gives everything back exactly if no view before the last
  one fails to close (`Discover`, `UnwindLeavesView`).
- The range check on the ELF string table cannot fail once its load was found
  (`StringsInFile`).

## Model

| member | source | states |
|---|---|---|
| `MountLookups.MountLookup.Lookup` | scripts/cohort-307-audit-test-61/audit-payload.py:459-483 | A found row is the closest one: it covers the path, and every other covering row object is strictly shorter. `MountJoinUnknown` means no row is closest. The 512-byte working reservation is given back on every path. |
| `MountLookups.MountLookup.Build` | scripts/cohort-307-audit-test-61/audit-payload.py:384-443 | The two lists index exactly the given rows and every pattern is linked to its nearest prefix; a refusal leaves both lists empty and nothing booked, and success books exactly what `Close` gives back. |
| `MountLookups.MountLookup.Walk` | scripts/cohort-307-audit-test-61/audit-payload.py:463-481 | The ancestor walk ends with a best row and no second one exactly when that row is the closest. |
| `MountLookups.MountLookup.LinkParents` | scripts/cohort-307-audit-test-61/audit-payload.py:432-437 | Chasing predecessors links every sorted pattern to the nearest earlier pattern that is its prefix. |
| `MountLookups.MountLookup.PatternFor` | scripts/cohort-307-audit-test-61/audit-payload.py:402-410 | All four spellings of a mount point (empty, bare, one slash, several slashes) give the point without trailing slashes followed by one slash. |
| `MountLookups.MountLookup.Close` | scripts/cohort-307-audit-test-61/audit-payload.py:485-489 | Gives back exactly what was booked and empties the index. |
| `MountIndex.ChaseSkipsNothing` | scripts/cohort-307-audit-test-61/audit-payload.py:466-472 | No pattern between a record and its linked parent matches the path, so the walk skips no candidate. |
| `MountIndex.WalkStep` | scripts/cohort-307-audit-test-61/audit-payload.py:466-481 | One step to the parent keeps the fact that every matching pattern above it has been weighed. |
| `MountIndex.TallyDecides` | scripts/cohort-307-audit-test-61/audit-payload.py:460-482 | Once all patterns are passed, best-without-second decides the closest row, in both directions. |
| `MountIndex.RecordedIndex` | scripts/cohort-307-audit-test-61/audit-payload.py:393-413 | Adding a row in point order keeps one record per point with its first two distinct row objects. |
| `MountIndex.GroupedIndex` | scripts/cohort-307-audit-test-61/audit-payload.py:414-431 | Adding a record in pattern order keeps one record per pattern, headed by the longest spelling of the point. |
| `MountScan.ScanIsClosest` | scripts/cohort-307-audit-test-61/audit-payload.py:497-503 | The linear scan answers a row exactly when it is the closest one and that row object is listed once. |
| `MountScan.BeneathByParts` | scripts/cohort-307-audit-test-61/audit-payload.py:376-377 | A path lies beneath a root exactly if it is the root or the components of the root without its trailing slashes are a proper prefix of its own. |
| `MountScan.SamePatternSameLength` | scripts/cohort-307-audit-test-61/audit-payload.py:376-377 | Two points with the same slash pattern and the same length are the same point. |
| `MountTables.IndexAgreesOnDistinct` | scripts/cohort-307-audit-test-61/audit-payload.py:459-503 | For distinct row objects the index and the linear scan give the same row, or both refuse, for every path. |
| `MountTables.IndexAgreesExactly` | scripts/cohort-307-audit-test-61/audit-payload.py:459-503 | For any rows the index and the scan agree if and only if the closest row object is listed once. |
| `MountTables.RepeatedRowDiffers` | scripts/cohort-307-audit-test-61/audit-payload.py:459-503 | A list holding one row object twice: the index answers it, the scan refuses. |
| `MountTables.FilesystemPath` | scripts/cohort-307-audit-test-61/audit-payload.py:491-505 | Refuses exactly the badly shaped paths, answers what the linear scan answers, and returns the root without its trailing slashes followed by the rest of the path behind the mount point. |
| `MountTables.PhysicalBeneath` | scripts/cohort-307-audit-test-61/audit-payload.py:504-505 | A joined path never leaves the mounted subtree. |
| `MountTables.PhysicalKeepsRest` | scripts/cohort-307-audit-test-61/audit-payload.py:504-505 | If the path is the point, slashes and a rest, the physical path is the root without trailing slashes, a slash and that rest; the bare root, or a single slash, when the rest is empty. |
| `MountTables.PhysicalInjective` | scripts/cohort-307-audit-test-61/audit-payload.py:504-505 | Two paths with different rests behind one mount point never share a physical path. |
| `MountTables.PhysicalExactly` | scripts/cohort-307-audit-test-61/audit-payload.py:498-505 | For a point with trailing slashes the rest is kept if and only if it is empty or the path starts with the point as spelled. |
| `MountTables.PhysicalLosesRest` | scripts/cohort-307-audit-test-61/audit-payload.py:504-505 | The point /a// covers /a/x, and the join drops x. |
| `MountTables.PathShapeMeans` | scripts/cohort-307-audit-test-61/audit-payload.py:492 | A path is well shaped if and only if it starts with a slash and nothing between two slashes is a dot or a double dot. |
| `MountTables.ReadTable` | scripts/cohort-307-audit-test-61/audit-payload.py:341-364 | A table that is read holds one row per line of the whole text in order, with its index; the ledger is up by exactly what the table owns, and by nothing if the read fails. |
| `MountTables.ReadDigest` | scripts/cohort-307-audit-test-61/audit-payload.py:334-339 | Hashes the newline-terminated lines of the text however it was chunked, and leaves the heap as it was. |
| `MountTables.MountTable.Release` | scripts/cohort-307-audit-test-61/audit-payload.py:68-71 | Releasing a table gives back exactly what reading it booked. |
| `MountText.MountReader.Next` | scripts/cohort-307-audit-test-61/audit-payload.py:312-332 | The lines yielded before the end are exactly the newline split of the whole text, for every chunking; a text with a line over 8192 bytes or over the table limit never ends normally; the 72 KiB window is held only while lines are being yielded. |
| `MountText.HashedIsText` | scripts/cohort-307-audit-test-61/audit-payload.py:334-364 | The bytes that both digests hash are the text itself, closed by a newline. |
| `MountViews.OpenView` | scripts/cohort-307-audit-test-61/audit-payload.py:719-749 | Opening a view owns three new descriptors and books their cost, or restores heap, descriptor count and ownership exactly. |
| `MountViews.CloseView` | scripts/cohort-307-audit-test-61/audit-payload.py:779-786 | Closing gives back exactly the view's heap, descriptors and ownership even when host closes fail, and then raises exactly if one failed; the underflow refusal never fires. |
| `MountViews.Discover` | scripts/cohort-307-audit-test-61/audit-payload.py:788-810 | Over any number of tasks, a normal return leaves heap and descriptor counts up by the sum over the views, which own separate descriptors. On the raising exit heap, descriptor count and ownership are each as before if and only if no view before the last one fails to close. |
| `MountViews.Unwind` | scripts/cohort-307-audit-test-61/audit-payload.py:808-810 | The handler gives back exactly the views up to and including the first one whose close raises. |
| `MountViews.UnwindLeavesView` | scripts/cohort-307-audit-test-61/audit-payload.py:808-810 | Two views, the first of which cannot be closed: 3072 bytes and three descriptors of the second stay booked. |
| `MountViews.ViewLifetime` | scripts/cohort-307-audit-test-61/audit-payload.py:788-1008 | Discovery, then closing every view past any failure: heap, descriptor count and ownership are as before if and only if discovery returned or, when it raised, no view before the last one failed to close. |
| `MountViews.MountCandidates` | scripts/cohort-307-audit-test-61/audit-payload.py:812-828 | The pairs are all related (mount, item) pairs in order and are booked one by one; a refusal books nothing. |
| `MountViews.InAllPairs` | scripts/cohort-307-audit-test-61/audit-payload.py:812-828 | A pair is listed with a relation if and only if mount and item are given and the relation is the one their device numbers and the order of their paths give: dependencies first, then workspace, then ancestor. |
| `MountViews.ViewPass` | scripts/cohort-307-audit-test-61/audit-payload.py:857-989 | A pass over a view (table, candidates, releases) restores the heap on every exit. |
| `Ledger.Budget.HeapReserve` | scripts/cohort-307-audit-test-61/audit-payload.py:59-62 | Refuses exactly negative and over-limit sizes, otherwise adds the size and keeps the peak; the limit holds throughout. |
| `Ledger.Budget.HeapRelease` | scripts/cohort-307-audit-test-61/audit-payload.py:64-66 | Refuses exactly an underflow or a negative size, otherwise subtracts. |
| `Ledger.Budget.Own` | scripts/cohort-307-audit-test-61/audit-payload.py:73-77 | Custody of a descriptor costs 512 bytes, or changes neither ownership nor heap. |
| `Ledger.Budget.Close` | scripts/cohort-307-audit-test-61/audit-payload.py:82-86 | Forgetting a descriptor gives back its 512 bytes even if the host's close fails, and fails exactly then. |
| `ProcJoin.ProcObservation.Observe` | scripts/cohort-307-audit-test-61/audit-payload.py:830-1019 | At the end no reported row is pending; a row is joined if and only if the lists of tasks at both ends were equal and its whole group stayed intact from scan to close; counts match what was emitted. |
| `ProcJoin.ProcObservation.Emit` | scripts/cohort-307-audit-test-61/audit-payload.py:837-854 | Every hit is counted once as external or audit-owned and once as kept or omitted; it is kept exactly when it is no ancestor and both limits allow it. |
| `ProcJoin.ProcObservation.ScanTask` | scripts/cohort-307-audit-test-61/audit-payload.py:862-984 | A task that fails anywhere invalidates its group; its own matches stay pending only after a finished and cleanly closed scan. |
| `ProcJoin.ProcObservation.Decide` | scripts/cohort-307-audit-test-61/audit-payload.py:1009-1011 | Deciding a group touches only its rows: pending becomes joined if the group is intact, everything else unknown. |
| `Allocation.Report` | scripts/cohort-307-audit-test-61/audit-payload.py:1196-1201 | Complete if and only if the final binding holds, every tree was walked soundly and is still observed, and the crosslink rows fit. Then every tree is reported with its totals, these add up to the weight of the distinct objects reached, a key has a crosslink exactly if some entry under it is no directory and has more than one link, and its observed links sum to the number of such entries; otherwise every measurement is withheld. |
| `Allocation.TotalsAreOfDistinctObjects` | scripts/cohort-307-audit-test-61/audit-payload.py:1033-1100 | When directories and single-link files have one name, the tree totals sum to the weight of the distinct objects. |
| `Allocation.ChargedExactlyOnce` | scripts/cohort-307-audit-test-61/audit-payload.py:1036-1050 | Each object reached is charged at exactly one of its names, the first met. |
| `Allocation.LinksAreVisits` | scripts/cohort-307-audit-test-61/audit-payload.py:1079-1093 | A reported hardlink's observed links over all its member trees sum to the entries visited under its key. |
| `Allocation.NameCountIsPlaces` | scripts/cohort-307-audit-test-61/audit-payload.py:1041-1048 | The names counted for a key are the places in the run where an entry with that key is no directory and has more than one link. |
| `Allocation.CrosslinkFor` | scripts/cohort-307-audit-test-61/audit-payload.py:1079-1093 | A key has a crosslink if and only if there is such a place. |
| `Allocation.NamesListed` | scripts/cohort-307-audit-test-61/audit-payload.py:1080-1087 | The members of a crosslink are exactly the trees that met the object, in increasing order, each with its number of names there. |
| `Allocation.MembersAreNames` | scripts/cohort-307-audit-test-61/audit-payload.py:1040-1048 | The member counts the register keeps for a key are the names met under that key in each tree. |
| `Allocation.Crosslinks` | scripts/cohort-307-audit-test-61/audit-payload.py:1079-1093 | Rows are kept in register order within the byte bound and every other row is counted as omitted; nothing is omitted exactly if all rows fit. |
| `Allocation.AdmissibleMeans` | scripts/cohort-307-audit-test-61/audit-payload.py:1036-1050 | The refusals met entry by entry amount to a condition on the whole run: every entry usable, all names of a hardlink in agreement, and no more hardlinks than the limit. |
| `Allocation.RegisteredExact` | scripts/cohort-307-audit-test-61/audit-payload.py:1038-1048 | Entering one more name keeps the hardlink register equal to the names met so far. |
| `Allocation.Walk.Add` | scripts/cohort-307-audit-test-61/audit-payload.py:1036-1050 | Succeeds exactly if the entries met so far with this one stay admissible; the kind is counted even when the entry is then refused, and a refusal changes no total and no link. |
| `Allocation.Walk.Visit` | scripts/cohort-307-audit-test-61/audit-payload.py:1051-1070 | Succeeds exactly if the tree stays steady within the depth limit and its entries keep the run admissible; then exactly the entries of the tree were met, in order, and counted by kind. |
| `UsrMerge.Merger.Merge` | scripts/dependency-retention-os-test/assemble-current-full.ts:420-449 | A successful merge puts every source entry at the same relative path under target with its content, keeps every other entry, overwrites nothing, removes source, and counts exactly its leaves as moved. It succeeds if and only if every entry below source passes its checks, none collides, and visits (five for a directory, three for a leaf) and bytes stay within the limits. |
| `UsrMerge.Merger.Normalize` | scripts/dependency-retention-os-test/assemble-current-full.ts:450-461 | Afterwards the four names are guarded links into usr; every leaf of the old tree is below usr at its relative path or where it was, unchanged; there is no other leaf but those links; and the count of moves is the number of leaves whose place changed. It succeeds if and only if the roots and all four names of the original tree are in order and the visits and bytes of all merges together stay within the limits. |
| `UsrMerge.Absorb` | scripts/dependency-retention-os-test/assemble-current-full.ts:425-441 | Merging one more name extends the relocated part by exactly that name. |
| `UsrMerge.Complete` | scripts/dependency-retention-os-test/assemble-current-full.ts:420-449 | When every name is merged, removing the empty source completes the merge and the tree stays a tree. |
| `UsrMerge.MergeShifts` | scripts/dependency-retention-os-test/assemble-current-full.ts:428-431 | Creating a missing target directory and merging into it is the same as moving the subtree. |
| `UsrMerge.AliasKeepsLeaf` | scripts/dependency-retention-os-test/assemble-current-full.ts:450-461 | One alias step takes each leaf from its place after k aliases to its place after k + 1. |
| `UsrMerge.AliasAddsNoLeaf` | scripts/dependency-retention-os-test/assemble-current-full.ts:450-461 | After an alias step every leaf is an earlier leaf at its place after k + 1 aliases, or one of the links. |
| `UsrMerge.NextMovers` | scripts/dependency-retention-os-test/assemble-current-full.ts:450-461 | What stands below the next alias is what stood there in the original tree, so the moves add up. |
| `UsrMerge.Merger.Rename` | scripts/dependency-retention-os-test/assemble-current-full.ts:432-440 | A leaf is renamed exactly if it passes its checks, its place is free and the bounds allow it; it stays the same node, with one more move and its bytes counted. |
| `UsrMerge.Merger.Alias` | scripts/dependency-retention-os-test/assemble-current-full.ts:450-460 | One name is settled exactly if its tree, or the link already there, is in order and affordable in the state before; afterwards it is a guarded link and what stood below it stands below usr. |
| `UsrMerge.Merger.CheckRoots` | scripts/dependency-retention-os-test/assemble-current-full.ts:414-419 | The three protected directories pass exactly if each is a guarded directory and three more visits are allowed. |
| `Catalog.AcceptCatalog` | host-integration/managed-launcher/dependency-full-h1-staged-tools-TEST.ts:69-70 | Accepts exactly the catalogs with distinct paths, well-shaped entries, directory parents and alias chains that all end. |
| `Catalog.FollowAlias` | host-integration/managed-launcher/dependency-full-h1-staged-tools-TEST.ts:70 | Following an alias with a visited set succeeds exactly when its chain ends at a row that is no alias. |
| `Catalog.CycleNeverEnds` | host-integration/managed-launcher/dependency-full-h1-staged-tools-TEST.ts:70 | A chain that meets a path twice never ends, so refusing a revisited path refuses no chain that ends. |
| `Catalog.CanonicalPath` | host-integration/managed-launcher/dependency-full-h1-constructor-closure-TEST.ts:24-39 | Refuses duplicate rows; otherwise the answer is q if and only if at most 32 substitutions, each replacing the first alias prefix by its target and keeping the components behind it, lead from the path to the physical row q. |
| `Catalog.CanonicalIsSubstitution` | host-integration/managed-launcher/dependency-full-h1-constructor-closure-TEST.ts:27-38 | For every path and bound: canonicalisation answers q exactly if a trail of substitutions within the bound leads to the physical row q. |
| `Catalog.CanonicalBelowAlias` | host-integration/managed-launcher/dependency-full-h1-constructor-closure-TEST.ts:29-33 | For an alias of an accepted catalog whose chain has n hops, a path below the alias canonicalises as the same path below the end of the chain with n hops fewer, and to nothing if n is over 32. |
| `Catalog.WalkDown` | host-integration/managed-launcher/dependency-full-h1-constructor-closure-TEST.ts:33 | Joining plain names to a directory appends them. |
| `Catalog.WalkUp` | host-integration/managed-launcher/dependency-full-h1-constructor-closure-TEST.ts:33 | Joining n double dots drops the last n names, or leaves the root and is refused. |
| `Catalog.WalkCancels` | host-integration/managed-launcher/dependency-full-h1-constructor-closure-TEST.ts:33 | A name followed by a double dot has no effect wherever it stands. |
| `Catalog.WalkSkips` | host-integration/managed-launcher/dependency-full-h1-constructor-closure-TEST.ts:33 | An empty part or a dot has no effect wherever it stands. |
| `Catalog.EntryCanonicalIsChainEnd` | host-integration/managed-launcher/dependency-full-h1-constructor-closure-TEST.ts:24-39 | For every entry of an accepted catalog canonicalisation gives the end of its alias chain if the chain has at most 32 hops, and refuses exactly the longer ones. |
| `Catalog.LongChainRefused` | host-integration/managed-launcher/dependency-full-h1-constructor-closure-TEST.ts:24-39 | For every n a catalog of one file and n aliases, each to the one before, is accepted; its last alias has a canonical path exactly if n is at most 32. |
| `Catalog.CanonicalIsFixed` | host-integration/managed-launcher/dependency-full-h1-constructor-closure-TEST.ts:24-39 | Every canonical result is physical (its own row, only directory rows above) and canonicalises to itself. |
| `Catalog.SettledIsPhysical` | host-integration/managed-launcher/dependency-full-h1-constructor-closure-TEST.ts:30-36 | A path is not redirected exactly when it has a row of its own that is no alias, with only directories above. |
| `Envelope.ParseCatalog` | host-integration/managed-launcher/dependency-full-python-envelope-TEST.ts:75-90 | Accepts exactly the catalogs whose packages and rows are strictly ordered, well formed, inside the domain and within the entry, byte and file bounds. |
| `Envelope.ParseEntries` | host-integration/managed-launcher/dependency-full-python-envelope-TEST.ts:82-88 | The row loop accepts exactly strictly ordered, well-formed rows within the bounds. |
| `Envelope.ParsePackages` | host-integration/managed-launcher/dependency-full-python-envelope-TEST.ts:60-66 | Accepts exactly strictly ordered well-formed packages. |
| `Envelope.UnderByParts` | host-integration/managed-launcher/dependency-full-python-envelope-TEST.ts:32 | A path is under a root exactly if the components of the root are a prefix of its own. |
| `Envelope.WritableInOctal` | host-integration/managed-launcher/dependency-full-python-envelope-TEST.ts:84 | A mode is writable exactly if its group or other octal digit has the write bit. |
| `Census.Capture` | host-integration/managed-launcher/dependency-full-python-envelope-TEST.ts:123-169 | A census of any tree that succeeds is strictly ordered by path, without duplicates, holds exactly the rows of the tree, and parses under the same bounds; the paths it keeps as ELF are exactly those of its ELF rows. It succeeds if and only if limits and packages are in order, every entry of the tree passes its checks and stays as it was, all rows together fit the bounds, and the fixed rule holds. |
| `Census.Taker.Walk` | host-integration/managed-launcher/dependency-full-python-envelope-TEST.ts:128-151 | Succeeds if and only if every entry of the subtree passes its checks within the depth and the rows fit what is left of the bounds; then it adds exactly the rows of the subtree, each well formed and below its root. |
| `Census.TargetName` | host-integration/managed-launcher/dependency-full-python-envelope-TEST.ts:141 | In a safe directory a link to a plain name targets that name in the same directory. |
| `Census.TargetClimbs` | host-integration/managed-launcher/dependency-full-python-envelope-TEST.ts:141 | A link whose literal is k double dots and a name targets that name in its directory without the last k components. |
| `Census.TargetUp` | host-integration/managed-launcher/dependency-full-python-envelope-TEST.ts:141 | A double dot in front reads the rest of the literal from the directory above. |
| `Census.TargetDown` | host-integration/managed-launcher/dependency-full-python-envelope-TEST.ts:141 | A name in front reads the rest of the literal from the directory of that name. |
| `Census.TargetHere` | host-integration/managed-launcher/dependency-full-python-envelope-TEST.ts:141 | A dot in front changes nothing. |
| `Census.TargetAtRoot` | host-integration/managed-launcher/dependency-full-python-envelope-TEST.ts:141 | At the root a double dot in front changes nothing. |
| `Census.TargetInRoot` | host-integration/managed-launcher/dependency-full-python-envelope-TEST.ts:141 | A link in the root to a plain name targets that name in the root. |
| `Census.TargetAbsolute` | host-integration/managed-launcher/dependency-full-python-envelope-TEST.ts:141 | An absolute literal is its own target. |
| `Census.SafePathMeans` | host-integration/managed-launcher/dependency-full-python-envelope-TEST.ts:30 | A path is safe if and only if it has at most 4096 characters and is a non-empty list of plain names, each behind a slash. |
| `Census.CensusParses` | host-integration/managed-launcher/dependency-full-python-envelope-TEST.ts:166-167 | Rows with one path each, well-formed bodies and a bounded total satisfy the parser once sorted. |
| `Census.SiblingsApart` | host-integration/managed-launcher/dependency-full-python-envelope-TEST.ts:128-151 | Nothing lies below two different children of one directory, so a walk never meets a path twice. |
| `Text.LessMeans` | host-integration/managed-launcher/dependency-full-python-envelope-TEST.ts:166 | One string comes before another exactly if it is a proper prefix, or is smaller at the first place where they differ. |
| `Census.SortStrict` | host-integration/managed-launcher/dependency-full-python-envelope-TEST.ts:166 | Sorting rows of distinct paths gives a strictly increasing catalog. |
| `Loader.ValidateLoader` | host-integration/managed-launcher/dependency-full-python-envelope-TEST.ts:183-198 | Accepts exactly when aliases, files and providers check out; then every needed name of every file resolves, and the graph has an edge to q exactly if a loader could choose q. |
| `Loader.AliasTarget` | host-integration/managed-launcher/dependency-full-python-envelope-TEST.ts:179-181 | Following aliases with a seen set computes the resolve function; it terminates by the unseen catalog paths. |
| `Loader.ResolveIsChainEnd` | host-integration/managed-launcher/dependency-full-python-envelope-TEST.ts:179-181 | An alias resolves to a file if and only if a repetition-free trail of alias hops leads there. |
| `Loader.FileNode` | host-integration/managed-launcher/dependency-full-python-envelope-TEST.ts:187-195 | One file's targets are exactly the resolved present candidates of every needed name in every search and hwcaps directory, and each name has one. |
| `Loader.FileOkMeans` | host-integration/managed-launcher/dependency-full-python-envelope-TEST.ts:188-193 | A file passes if and only if every RPATH and RUNPATH value expands, every needed name has a present candidate, every present candidate leads to code, and the interpreter, if asked for, is there. |
| `Loader.ExpandMeans` | host-integration/managed-launcher/dependency-full-python-envelope-TEST.ts:188 | A value without a dollar sign expands to itself, and an origin token followed by a rest to the directory of the file followed by the rest, if that is a safe directory of the catalog; otherwise it is refused. |
| `Loader.OtherDollarStays` | host-integration/managed-launcher/dependency-full-python-envelope-TEST.ts:188 | A dollar sign that starts no origin token survives the replacement, so the value is refused. |
| `Loader.DirnameOf` | host-integration/managed-launcher/dependency-full-python-envelope-TEST.ts:188 | The directory of a file is what stands before its last slash, or the root. |
| `Loader.ChoiceIsTarget` | host-integration/managed-launcher/dependency-full-python-envelope-TEST.ts:187-195 | The recorded targets are exactly what a loader could choose: the interpreter if one is asked for, and the code behind a present file, directly in or in a capability directory of a fixed search directory or of the expansion of an RPATH or RUNPATH value. |
| `Loader.GraphClosed` | host-integration/managed-launcher/dependency-full-python-envelope-TEST.ts:183-198 | When the catalog's ELF rows match the ELF map every target is itself a node. |
| `Loader.CensusMatches` | host-integration/managed-launcher/dependency-full-python-envelope-TEST.ts:148-168 | Facts for exactly the paths a census kept as ELF match the ELF rows of its strictly ordered catalog. |
| `Loader.LoadRunStaysInside` | host-integration/managed-launcher/dependency-full-python-envelope-TEST.ts:183-198 | Every run of loader choices from a node stays inside the graph, edge by edge. |
| `QueryClosure.Preload` | host-integration/managed-launcher/dependency-full-provider-setup-TEST.ts:32-35 | Accepts exactly the anchored row sets in which every name met resolves, every row is reached from the program and something is left to preload; the preload list is every other path once, in increasing order. |
| `QueryClosure.Visit` | host-integration/managed-launcher/dependency-full-provider-setup-TEST.ts:34 | The recursive visit adds just rows that are reached and resolve, together with everything they lead to; it fails only if a reached row does not resolve. |
| `QueryClosure.AllVisited` | host-integration/managed-launcher/dependency-full-provider-setup-TEST.ts:34-35 | The visited set is the whole set of rows exactly when every row is reached and resolves. |
| `QueryClosure.IndexSize` | host-integration/managed-launcher/dependency-full-provider-setup-TEST.ts:32 | The map is as large as the rows exactly when no two rows share a key. |
| `ReadonlyMounts.AcceptedSubtree` | host-integration/managed-launcher/dependency-full-native-TEST.ts:1861-1882 | For an accepted path every object at or below it is held by a read-only mount if and only if the path is not the root or no mount is writable. |
| `ReadonlyMounts.ShieldedSubtree` | host-integration/managed-launcher/dependency-full-native-TEST.ts:1876-1882 | For any path but the root the whole subtree is shielded; canonical mount points are not needed. |
| `ReadonlyMounts.RootNotShielded` | host-integration/managed-launcher/dependency-full-native-TEST.ts:1861-1882 | The root is accepted although a writable mount lies below it. |
| `ReadonlyMounts.AcceptedIsShielded` | host-integration/managed-launcher/dependency-full-native-TEST.ts:1876-1882 | Acceptance makes the selected mount the only deepest one over the path, read-only, with nothing writable mounted below. |
| `ReadonlyMounts.ShieldedIsAccepted` | host-integration/managed-launcher/dependency-full-native-TEST.ts:1876-1882 | Every shielded path is accepted with its own mount's id and device. |
| `ReadonlyMounts.FlagsDecide` | host-integration/managed-launcher/dependency-full-native-TEST.ts:1871 | The flag checks hold exactly for distinct flags with one of ro and rw, so a row's mode is unambiguous. |
| `ReadonlyMounts.MountsOk` | host-integration/managed-launcher/dependency-full-native-TEST.ts:1861-1874 | An accepted table keeps every row in order, with distinct ids and absolute points. |
| `ReadonlyMounts.MountsExactly` | host-integration/managed-launcher/dependency-full-native-TEST.ts:1863-1874 | A table is accepted if and only if every row is fine by itself and no two rows have the same id. |
| `ReadonlyMounts.CoversByParts` | host-integration/managed-launcher/dependency-full-native-TEST.ts:1877 | A point covers a path exactly if its components are a prefix of the path's, or it is the root. |
| `StagedSlot.EffectGate` | host-integration/managed-launcher/dependency-full-native-TEST.ts:1321-1376 | Before the effect byte come, in this order, the bootstrap report, "1", the fixture report, "2", both observed query transitions and query_complete. |
| `StagedSlot.EffectOnce` | host-integration/managed-launcher/dependency-full-native-TEST.ts:1336-1345 | The effect byte is sent at most once and never after a revocation or the start of close. |
| `StagedSlot.RevokedForGood` | host-integration/managed-launcher/dependency-full-native-TEST.ts:1208-1345 | Whatever a run adds after a revocation, it is not the effect byte. |
| `StagedSlot.BytesBeforeClose` | host-integration/managed-launcher/dependency-full-native-TEST.ts:1208-1376 | No byte follows the start of close and no byte is sent twice. |
| `StagedSlot.Slot.Run` | host-integration/managed-launcher/dependency-full-native-TEST.ts:1208-1402 | Over any callbacks in any order with any answers of the host the log of the slot stays in the order above. |
| `StagedSlot.Slot.Handle` | host-integration/managed-launcher/dependency-full-native-TEST.ts:1208-1402 | Each byte is sent by exactly the line whose every check passes, and by no other callback. |
| `StagedSlot.Slot.StartClose` | host-integration/managed-launcher/dependency-full-native-TEST.ts:1208-1211 | The first close sets closing and revoked; a second one changes nothing. |
| `StagedSlot.Slot.Receive` | host-integration/managed-launcher/dependency-full-native-TEST.ts:1309-1314 | The first byte goes out exactly on an announcement whose every check passes; any other line but the first bootstrap report fails the constructor and starts close. |
| `StagedSlot.Slot.TakeFixture` | host-integration/managed-launcher/dependency-full-native-TEST.ts:1350 | The fixture report is taken once, joined and not closing; otherwise the protocol fails. |
| `StagedSlot.Slot.TakeQuery` | host-integration/managed-launcher/dependency-full-native-TEST.ts:1351-1361 | The second byte goes out exactly for the first query, captured, joined, in time and not closing; a failure after capture keeps the query and fails the protocol. |
| `StagedSlot.Slot.WatchQuery` | host-integration/managed-launcher/dependency-full-native-TEST.ts:1377-1402 | A poll records nsenter before systemctl and neither once closing; any failure revokes the slot and ends the poll. |
| `StagedSlot.Slot.Consume` | host-integration/managed-launcher/dependency-full-native-TEST.ts:1321-1345 | The gate opens exactly when nothing is revoked, custody is held, the slot is constructed, the query complete, a setup seen and every join admits it; otherwise it revokes. |
| `StagedSlot.Slot.TakeComplete` | host-integration/managed-launcher/dependency-full-native-TEST.ts:1362-1370 | The query result is taken once after both transitions; then the effect byte goes out or the protocol fails. |
| `StagedSlot.Qualifies` | host-integration/managed-launcher/dependency-full-native-TEST.ts:1234-1376 | A run whose every check passes does send the three bytes, with the eight marks in order. |
| `ParentSession.StartFollowsSeal` | host-integration/managed-launcher/dependency-full-native-TEST.ts:1727-1748 | A guest start follows the publication of its pair seal and carries that seal's hash. |
| `ParentSession.CaptureFollowsStart` | host-integration/managed-launcher/dependency-full-native-TEST.ts:1640-1641 | A monitor capture is attempted only after the guest was started. |
| `ParentSession.EachOnce` | host-integration/managed-launcher/dependency-full-native-TEST.ts:1640-1768 | In any run each seal is published, the guest started and the monitor captured at most once. |
| `ParentSession.Session.Run` | host-integration/managed-launcher/dependency-full-native-TEST.ts:1661-1769 | Over any sequence of calls, each free to fail anywhere, the acts stay in that order. |
| `ParentSession.Session.Register` | host-integration/managed-launcher/dependency-full-native-TEST.ts:1668-1728 | A guest is registered exactly by the call that published its pair; a failed call registers nobody and leaves an existing file alone. |
| `ParentSession.Session.Submit` | host-integration/managed-launcher/dependency-full-native-TEST.ts:1729-1749 | The submission is consumed before the command is issued, once, whatever the command returns. |
| `ParentSession.Session.Capture` | host-integration/managed-launcher/dependency-full-native-TEST.ts:1640-1654 | The capture attempt is consumed before the monitor is looked at. |
| `ParentSession.Session.Observe` | host-integration/managed-launcher/dependency-full-native-TEST.ts:1750-1768 | A sealed invocation carries the hash of the published pair and follows the one capture. |
| `ParentSession.Launches` | host-integration/managed-launcher/dependency-full-native-TEST.ts:1661-1768 | With every answer good the session reaches the sealed invocation through exactly four acts. |
| `TestOwner.ReuseFollowsExit` | host-integration/bounded-storage/native-bounded-storage-host.ts:434-462 | Between two leases of one channel the first holder's EXIT was read and the lease released, and nothing had stopped the owner. |
| `TestOwner.OwedMeansStopped` | host-integration/bounded-storage/native-bounded-storage-host.ts:449-461 | A channel whose holder was not seen to exit is either still held or the owner is stopped. |
| `TestOwner.Owner.Run` | host-integration/bounded-storage/native-bounded-storage-host.ts:406-487 | In every interleaving the leases are exactly the channels of the sessions in flight, one each, at most four. |
| `TestOwner.Owner.Enter` | host-integration/bounded-storage/native-bounded-storage-host.ts:434-439 | A session gets the first free channel, and is refused exactly when the owner is stopped or all four are leased. |
| `TestOwner.Owner.Finish` | host-integration/bounded-storage/native-bounded-storage-host.ts:446-447 | A clean finish reads EXIT and frees the channel; anything else goes to the error path. |
| `TestOwner.Owner.Fail` | host-integration/bounded-storage/native-bounded-storage-host.ts:448-461 | A failed session's holder is killed if its pid is known; otherwise the owner stops. |
| `TestOwner.Owner.Killed` | host-integration/bounded-storage/native-bounded-storage-host.ts:453-456 | After KILL the channel is freed with its EXIT read, or the owner is stopped for good. |
| `TestOwner.Owner.Admit` | host-integration/bounded-storage/native-bounded-storage-host.ts:418-420 | A preparation is admitted exactly when the owner is not stopped, no session is in flight and the master agrees. |
| `TestOwner.AwaitExit` | host-integration/bounded-storage/native-bounded-storage-host.ts:394-403 | Succeeds exactly when one of four reads is a clean EXIT line and no earlier read broke. |
| `NativeWire.Wire.Run` | host-integration/bounded-storage/native-wire.ts:10-93 | In every run an operation in flight means busy or failed, at most one is in flight until failure, received bytes are the consumed ones followed by the buffer, and no write follows a failure or the close. |
| `NativeWire.Wire.ReadLine` | host-integration/bounded-storage/native-wire.ts:40-62 | The line read is the first line of the byte stream whatever its chunks, or too long, or cut off with the wire failed. |
| `NativeWire.LineStable` | host-integration/bounded-storage/native-wire.ts:50-62 | Bytes that arrive later do not change a line that has been decided. |
| `NativeWire.Wire.AwaitReply` | host-integration/bounded-storage/native-wire.ts:50-60 | The reply is a function of the stream: refused, undecodable, lost or the text. |
| `NativeWire.Wire.Receive` | host-integration/bounded-storage/native-wire.ts:22-25 | A chunk is kept whole, or refused whole with the wire stopped exactly when the buffer would overflow. |
| `NativeWire.Wire.Start` | host-integration/bounded-storage/native-wire.ts:63-66 | A command starts exactly when none is in flight and nothing failed or closed, and then it is the only operation. |
| `NativeWire.Wire.Put` | host-integration/bounded-storage/native-wire.ts:86-88 | Bytes are handed to the child only by the operation that holds a wire that has not failed or closed. |
| `NativeWire.Wire.Finish` | host-integration/bounded-storage/native-wire.ts:94-99 | A clean finish means every received byte was consumed. |
| `ElfValidate.Validate` | host-integration/managed-launcher/dependency-full-h1-elf-role-TEST.ts:21-78 | Accepts exactly the images that meet the header, table, load, entry, dynamic and role rules, reading only inside the buffer, and returns their facts. |
| `ElfValidate.AddressesMapOnce` | host-integration/managed-launcher/dependency-full-h1-elf-role-TEST.ts:44-46 | In an accepted image every address is backed by at most one load, at a file offset inside the buffer. |
| `ElfValidate.CountsAreExistence` | host-integration/managed-launcher/dependency-full-h1-elf-role-TEST.ts:45-65 | Over disjoint loads the exactly-one checks for entry, dynamic table and string table hold if and only if some load holds that range, at the same distance in file and memory for the dynamic table and executable for the entry. |
| `ElfValidate.AcceptedNames` | host-integration/managed-launcher/dependency-full-h1-elf-role-TEST.ts:52-70 | The needed names are, in order, the texts at the values of the NEEDED entries; they are distinct, safe, NUL-terminated strings inside the string table, at most 256 and 32768 bytes in all. |
| `ElfValidate.StringsInFile` | host-integration/managed-launcher/dependency-full-h1-elf-role-TEST.ts:65-66 | The string table found through its load lies inside the file, so the range check after it never refuses. |
| `ElfValidate.StringsMapped` | host-integration/managed-launcher/dependency-full-h1-elf-role-TEST.ts:63-66 | The file place of the string table is as far into its load's bytes as its address is into the load's memory. |
| `ElfValidate.TinyAccepted` | host-integration/managed-launcher/dependency-full-h1-elf-role-TEST.ts:21-78 | Some image is accepted as an extension: a shared object of 242 bytes with one load and a dynamic table that needs the library named a. |
| `ElfImage.ReadSegments` | host-integration/managed-launcher/dependency-full-h1-elf-role-TEST.ts:36-43 | The table loop accepts exactly tables of well-formed rows with at most one interpreter, which is the fixed one. |
| `ElfImage.RawTextIsText` | host-integration/managed-launcher/dependency-full-h1-elf-role-TEST.ts:35 | The text read is the one printable NUL-terminated string at that place, and there is none if reading refuses. |
| `ElfImage.CheckDisjoint` | host-integration/managed-launcher/dependency-full-h1-elf-role-TEST.ts:45 | The pairwise loop accepts exactly disjoint loads. |
| `ElfImage.PowerOfTwoMeans` | host-integration/managed-launcher/dependency-full-h1-elf-role-TEST.ts:40 | The alignment test holds exactly for one doubled some number of times. |
| `ElfLayout.SegmentRoundTrip` | host-integration/managed-launcher/dependency-full-h1-elf-role-TEST.ts:37 | A program header written as its fields in file order, little-endian, is read back field by field, wherever it stands in the image. |
| `ElfLayout.EntryRoundTrip` | host-integration/managed-launcher/dependency-full-h1-elf-role-TEST.ts:54 | A dynamic entry written as a signed tag and a value is read back. |
| `ElfLayout.HeaderRoundTrip` | host-integration/managed-launcher/dependency-full-h1-elf-role-TEST.ts:26-33 | For a file header written field by field the header and table checks say exactly what the rules ask of those fields. |
| `ElfRole.ScanEntries` | host-integration/managed-launcher/dependency-full-h1-elf-role-TEST.ts:52-63 | The dynamic scan accepts exactly live entries with allowed tags and counts, and returns their string table, size and names. |
| `ElfRole.DecodeNames` | host-integration/managed-launcher/dependency-full-h1-elf-role-TEST.ts:67 | Decodes exactly the names whose texts exist, within the aggregate bound. |
| `ElfRole.DecodeExactly` | host-integration/managed-launcher/dependency-full-h1-elf-role-TEST.ts:67 | Decoding succeeds if and only if every name has a text and their lengths together stay within the aggregate bound. |
| `ElfRole.GatherExactly` | host-integration/managed-launcher/dependency-full-h1-elf-role-TEST.ts:69-70 | Gathering succeeds if and only if the run path is the fixed one, every other name is safe and no needed name repeats. |
| `ElfRole.GatheredNeeded` | host-integration/managed-launcher/dependency-full-h1-elf-role-TEST.ts:69-70 | The names gathered as needed are the NEEDED rows in order, without repetition. |
| `ElfRole.NeededSpelled` | host-integration/managed-launcher/dependency-full-h1-elf-role-TEST.ts:66-67 | Decoding spells the NEEDED entries in order. |

## Left out

- Field syntax of mount lines, `unescape_mount`, mount roots and the regular expressions around them: a parser parameter in the audit, decoded fields in the read-only check. Byte limits of the full mount table are not modelled there.
- `FdInventory`, `DirectoryChain`, `preflight`, `capture_cohort`, `classify_path`: custody of descriptors and identity comparisons, each a host answer.
- Records of the mount index are values: that the exact and the prefix list share one record object is not modelled; the links are kept in the prefix list, which alone is walked.
- The Python generator of `mount_lines` is a reader object resumed by `Next`; the clock and read errors are free refusals.
- Process observation: what a task scan matches, and its path classification, are given by the run; the report's texts and identities are not modelled.
- Allocation: the serialised size of a crosslink row is a parameter; mount and identity drift during the walk are answers of the tree that is walked.
- Strings compare by characters, as in Python. ECMAScript compares UTF-16 code units, which differs only where a character from U+E000 up meets one beyond the basic plane.
- UsrMerge: the manifest digest, and timestamps. The clock is an input: the number of visits that are made before the deadline. That a renamed file still reads back the same is a property of the tree.
- Catalog rows: identities, modes and digests, and the other sections of the staged subject (definitions, mounts, host release).
- Envelope and census: JSON text, digests and the clock of the census; whether an entry is opened, read and found unchanged are answers kept in the tree that is walked; the fixed-data rule is a parameter.
- Namespace views: what the identity checks of a task compare is a free answer; `discover_views` raises where closing a task's directory or root fails, and interrupts between two statements are left out.
- Loader: the ELF facts of each file are given; the backend record is reduced to the fields the check reads.
- QueryClosure.Preload: returns the preload list; joining it into the command line with fixed arguments is left out.
- ElfValidate.Validate: the digest of the host nspawn image is a Boolean answer; alignment is stated as a power of two, not by bit operations. Order and wording of refusals are not modelled.
- StagedSlot: what each capture, join and table check inspects; the chunk buffers of both callbacks (a line is the unit, an oversized or unknown line is `OtherLine`); phases and facts kept for the snapshot. The shared variables are one record, so each callback's whole effect can be stated as an equation.
- StagedSlot.Slot.Drained: whether descendants and actors are gone is one answer.
- ParentSession: pins, guest source catalogs, provider setup slots and the backing terminal; JSON text is a string and its digest an arbitrary function.
- TestOwner: the session run inside the fence and the text of the holder lines; `probeRoot` and the observer callback add no channel step of their own.
- `TestHolderWire` reads lines by the same loop as the native wire and is modelled only in `TestOwner.AwaitExit`; its terminal probe is left out.
- NativeWire: UTF-8 decoding is a parameter; `wake` and timers are the order of events; the reason carried by a refusal is left as fields.
- `retainNativeLaunch`, `Pins`, the provider slot origin chain, `dependency-full-h1-constructor-build-facts-TEST.ts` and `dependency-full-h1-publication-copy-TEST.ts`: file custody, mostly host calls.
- Review, finalisation and host-tool tables, the DATA field parsers, CI drivers and tests: constants and driver code.
