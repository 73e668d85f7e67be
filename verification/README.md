# Kival verification model

A Dafny 4.11 model of the parts of Kival that hold real protocols and algorithms, with proofs of what
they promise. `dafny verify dfyconfig.toml` checks everything.

- **Title references.** Bodies are parsed for `[[Title]]` links and Markdown links to Kival objects
  (`ReferenceParser`, `LeftmostScan`, `Text`). Rows are resolved against the titles of active objects
  (`Store`, `ReferenceIndex`), maintained by one transaction (`ReferenceMaintenance`) and proved equal
  to a rebuild of the whole index (`ReferenceAgreement`). `ReferenceMeaning` says what rows should hold
  from the fields of the tables alone, and the statements are checked against it. `ReferenceProtocol`
  interleaves any number of transactions, statement by statement; `ReferenceProtocolProofs` shows that
  the committed index agrees with plain resolution in every reachable state.
- **Locks.** `ObjectLifecycle` and `LockOrder` give the lock statements of each kernel transition;
  `LockProtocol` lets any number of transactions compete for them and proves exclusion, absence of wait
  cycles and progress. `LockExclusion` says which transitions the locks keep apart, and that they keep
  no others apart.
- **Aggregates.** `ObjectVersions` (optimistic versioning), `ObjectGrants` and `GrantProtocol` (an object
  keeps an active administrator grant).
- **Graph.** `GraphTables` says what the stored rows mean; `GraphWalk` evaluates the recursive `UNION`
  walk; `GraphQueries` gives the node and edge queries of one snapshot and relates them.
- **Search.** `SearchPaging`: deduplication, order, cursor and pages.
- **Self-contained algorithms.** `CivilDate`, `RollingLog`, `Backtrace`, `MetricKey`, `AtomicCells`,
  `GracefulShutdown`.

Conventions. SQL statements are functions of the tables they see; a transaction sees committed rows
overlaid with its own writes. Source that updates state in place is a class or a method with loops,
proved against such a function. Runs are sequences of states, and every step of every participant may
come next. Identifiers are natural numbers ordered like the UUIDs they stand for.

Two findings. The backtrace handler's comment speaks of consecutive identical cycle slices, but its
filter counts all equal neighbours: `[a, a, b, b]` is reported as `a` three times and then `b`
(`Backtrace.SeparateRunsMislead`); `Backtrace.ReadsBack` says exactly which stacks are reported
faithfully. The build timestamp wraps its year outside 32 bits, which a large `SOURCE_DATE_EPOCH` can
reach; `CivilDate.TimestampRecombines` gives the exact bound.

## Model

| member | source | states |
|---|---|---|
| LeftmostScan.ScanIsLeftmost | crates/kernel/src/object_references.rs:632-729 | A greedy left-to-right scan satisfies the declarative reading of a scanner: spans are matches, ordered, disjoint, and no match starts outside a chosen span. |
| LeftmostScan.LeftmostScanUnique | crates/kernel/src/object_references.rs:632-729 | That declarative reading has only one solution, so the scan is the specification and not one of several. |
| ReferenceParser.ParseWikilinks | crates/kernel/src/object_references.rs:632-674 | The cursor loop, early stop included, terminates and returns exactly the readings of the leftmost scan over double-bracket pairs. |
| ReferenceParser.WikilinksStop | crates/kernel/src/object_references.rs:636-642 | Stopping at the first unclosed opening loses no later link. |
| ReferenceParser.ParseKivalLinks | crates/kernel/src/object_references.rs:677-729 | The Markdown-link loop with its skips and early stops returns exactly the readings of the leftmost scan over links. |
| ReferenceParser.KivalLinksStop | crates/kernel/src/object_references.rs:692-708 | A missing `]` or `)` means that no later opening has a complete link. |
| ReferenceParser.KivalLinksPastLabel | crates/kernel/src/object_references.rs:695-703 | Jumping past a label that is not followed by `(` skips no link opening inside it. |
| ReferenceParser.PushReference | crates/kernel/src/object_references.rs:754-766 | A reference is recorded with its byte span exactly when both offsets fit 32 bits. |
| Text.Utf8WidthIsLeast | crates/kernel/src/object_references.rs:754-766 | The byte offsets of spans count each character with the least number of UTF-8 bytes that carries it. |
| ReferenceParserProofs.WikilinksSound | crates/kernel/src/object_references.rs:632-674 | Each wikilink's byte span starts and ends on its own delimiters and nests no opening; its target is the trimmed, non-empty text before the first bar between them, its display text the trimmed rest if any. |
| ReferenceParserProofs.WikilinkReported | crates/kernel/src/object_references.rs:632-674 | Conversely every selected pair whose content nests no opening and has a non-blank target, and whose offsets fit, is reported with exactly these fields. |
| ReferenceParserProofs.RawTargetsTrimmed | crates/kernel/src/object_references.rs:646-652 | Every raw target is non-empty and already trimmed, so trimming affected titles loses none. |
| ReferenceParserProofs.WikilinksDisjoint | crates/kernel/src/object_references.rs:632-674 | Spans of wikilinks are disjoint and increasing. |
| ReferenceParserProofs.WikilinksComplete | crates/kernel/src/object_references.rs:632-674 | The wikilinks are the readings of the one selection of non-overlapping pairs that leaves none out. |
| ReferenceParserProofs.KivalLinksSound | crates/kernel/src/object_references.rs:677-745 | Each Markdown link's span starts at its `[`, no image, and ends after the first `)`; its target is the trimmed text between the parentheses, one of the two URL forms written out, whose workspace and object texts are UUIDs with the recorded values in their places; its display text is the trimmed label if not blank. |
| ReferenceParserProofs.KivalLinkReported | crates/kernel/src/object_references.rs:677-729 | Conversely every selected link with such a destination, and whose offsets fit, is reported with exactly these fields. |
| ReferenceParserProofs.DestinationIsExact | crates/kernel/src/object_references.rs:732-745 | A destination is parsed to a workspace and an object if and only if it is one of the two URLs spelled with their texts, each a slash-free UUID as a whole. |
| ReferenceParserProofs.KivalLinksDisjoint | crates/kernel/src/object_references.rs:677-729 | Spans of Markdown links are disjoint and increasing. |
| ReferenceParserProofs.KivalLinksComplete | crates/kernel/src/object_references.rs:677-729 | As for wikilinks: no complete link outside the chosen spans. |
| ReferenceParserProofs.ParseObjectReferences | crates/kernel/src/object_references.rs:151-156 | The merged list is sorted by span and is a permutation of both lists. |
| ReferenceParserProofs.PrintThenParse | crates/kernel/src/object_references.rs:632-674 | Parsing a printed sequence of plain text and links gives back those links, in order, with their byte spans. |
| Store.ResolveMeaning | crates/kernel/src/object_references.rs:568-597 | Resolution with a two-row limit means: resolved to the one active holder, unresolved without any, ambiguous with several. |
| ReferenceMaintenance.Tables.CurrentObjectReferences | crates/kernel/src/object_references.rs:227-255 | Succeeds exactly for the current version of an active object in an active workspace, with the parsed stored body. |
| ReferenceMaintenance.Tables.RecomputeFromParsed | crates/kernel/src/object_references.rs:257-359 | Leaves exactly: older rows of the source stale, its own rows replaced by one row per reference, all else unchanged. A wikilink row is resolved to the one active object of that title, unresolved without any, ambiguous with several; an object-ID row targets the named object if it is one of the workspace. The counts are those of the rows. |
| ReferenceMaintenance.Tables.ReResolveLocked | crates/kernel/src/object_references.rs:463-513 | Title after title, every live wikilink of an affected title is resolved to its one active holder, unresolved without any or ambiguous with several, and no other row changes; the summary counts exactly the changed rows. |
| ReferenceMaintenance.Tables.MaintainObjectReferences | crates/kernel/src/object_references.rs:169-224 | Recomputation followed by re-resolution, or an error that leaves every row as it was. |
| ReferenceMaintenance.Tables.ReResolveCurrentWikilinksForTitles | crates/kernel/src/object_references.rs:426-460 | Re-resolves the wikilinks of the trimmed, non-blank affected titles only. |
| ReferenceAgreement.ReresolveRestoresAgreement | crates/kernel/src/object_references.rs:426-513 | After a lifecycle change whose changed titles are covered, re-resolving them makes the whole index equal to a rebuild, archived sources included. |
| ReferenceAgreement.MaintainRestoresAgreement | crates/kernel/src/object_references.rs:169-359 | After a new version of one object whose changed titles are covered, maintenance makes the whole index equal to a rebuild and leaves every older row stale. |
| ReferenceAgreement.AgreementIsExact | crates/kernel/src/object_references.rs:257-359 | Agreement with a rebuild is the same as: each current version has one row per parsed reference, wikilinks showing how many active objects hold their title and which one, and every other row is stale. |
| ReferenceAgreement.ReresolveTwice | crates/kernel/src/object_references.rs:463-513 | A repeated re-resolution changes no row and reports zero. |
| ReferenceAgreement.MaintainTwice | crates/kernel/src/object_references.rs:199-359 | A repeated maintenance leaves every row as it is and marks none stale. |
| ReferenceAgreement.EditCovers | crates/server/src/api/objects/versions.rs:60-105 | The old and new title an edit reports cover every title whose active holders it changes. |
| ReferenceAgreement.LifecycleCovers | crates/server/src/api/objects/lifecycle.rs:126-170 | The one title reported by creating, archiving or unarchiving covers the change. |
| ReferenceProtocolProofs.EveryRunAgrees | crates/kernel/src/object_references.rs:199-224 | Under every interleaving of editing, creating, archiving and unarchiving transactions, each committed state's index equals a rebuild over the committed titles, and is exact in the sense above. |
| ReferenceProtocolProofs.CommittedLinksResolve | crates/kernel/src/object_references.rs:463-597 | In each such state a live wikilink row has target o exactly if o is the only active object of its title, and its status is resolved, unresolved or ambiguous as one, none or several are. |
| ReferenceProtocolProofs.CommitAgrees | crates/kernel/src/object_references.rs:199-224 | Committing a finished transaction keeps the index in agreement, its own title change now visible. |
| ReferenceProtocolProofs.CommitKeepsTx | crates/kernel/src/object_references.rs:535-565 | A commit does not invalidate what another transaction has already written, thanks to the title locks held to commit. |
| ReferenceProtocolProofs.CallersCover | crates/server/src/api/objects/lifecycle.rs:286-350 | The titles the server's handlers report satisfy the coverage each transaction must start with. |
| ObjectLifecycle.ObjectTable.LockActiveObjectsForReference | crates/kernel/src/objects.rs:590-626 | Succeeds exactly if the workspace and all objects are active; its lock statements are a prefix of the ordered sequence, all of it on success. |
| ObjectLifecycle.ObjectTable.LockActiveObject | crates/kernel/src/objects.rs:635-664 | Requests the workspace for share and then the object for update; returns the current version of an active object. |
| ObjectLifecycle.ObjectTable.ArchiveObject | crates/kernel/src/objects.rs:802-812 | Archives exactly an active object of an active workspace and changes nothing else. |
| ObjectLifecycle.ObjectTable.UnarchiveObject | crates/kernel/src/objects.rs:820-829 | Reactivates exactly an archived object of an active workspace and changes nothing else. |
| ObjectLifecycle.StoppedEarlyIsOrdered | crates/kernel/src/objects.rs:590-626 | A transition that stops early has still requested its locks in the global order. |
| LockOrder.TransitionsOrdered | crates/kernel/src/lib.rs:9-22 | Every kernel transition requests each lock after all earlier ones in one global order or repeats one it holds strongly enough; none upgrades a share. |
| LockOrder.InIdOrderSpec | crates/kernel/src/objects.rs:599-601 | Sorting and deduplicating gives the distinct ids in ascending order. |
| LockOrder.InTitleOrderSpec | crates/kernel/src/object_references.rs:535-544 | Title locks are taken once per title in the set's order. |
| LockProtocol.EveryRunExcludes | crates/kernel/src/lib.rs:17-22 | No two transactions hold conflicting locks in any reachable state. |
| LockProtocol.NoWaitCycle | crates/kernel/src/lib.rs:17-22 | The wait-for relation of every reachable state is acyclic. |
| LockProtocol.NeverStuck | crates/kernel/src/lib.rs:17-22 | In every reachable state with unfinished transactions one of them, with nobody in its way even in the queue, can step towards its own commit; this holds whether or not the database lets requests overtake. |
| LockProtocol.AdvancingShortens | crates/kernel/src/lib.rs:17-22 | Each such step shortens what its transaction still needs, so none goes on for ever. |
| LockExclusion.LocksTaken | crates/kernel/src/objects.rs:583-740 | Each transition requests exactly the locks of its kind: update of the object it writes, its grant, thread, comment or titles; share of the workspace and of the objects it refers to. |
| LockExclusion.EveryRunSerializes | crates/kernel/src/objects.rs:628-664 | In every reachable state an object being created, edited, archived, unarchived or having a grant changed is written by one fully granted transaction, with none fully granted that refers to it; a workspace being changed has no other, and titles, grants and threads have one holder. |
| LockExclusion.HeldTogetherIffCompatible | crates/kernel/src/objects.rs:583-590 | Two transitions can hold all their locks in some reachable state if and only if neither takes for update what the other takes at all: references to one object never keep each other out. |
| ObjectVersions.Objects.CreateInitialObject | crates/kernel/src/objects.rs:484-530 | A new object appears whole, with version 1 current, or a refused statement leaves no trace of it. |
| ObjectVersions.Objects.UpdateObjectVersion | crates/kernel/src/object_versions.rs:312-377 | Each error has its exact condition and leaves the tables unchanged. Otherwise each field is the requested value if present and the current one if not; a change is reported exactly if a requested field differs, and then one row numbered one more is last and current; without a change nothing is written. |
| ObjectVersions.OutcomeIsAccepted | crates/kernel/src/object_versions.rs:312-377 | The update of the interleaved transactions is accepted exactly when it names the current version, and then leaves that same content and history. |
| ObjectVersions.UpdateKeepsLinear | crates/kernel/src/object_versions.rs:312-377 | An update keeps the history linear, only extends it, and changes it exactly when it reports a change. |
| ObjectVersions.BasesDiffer | crates/kernel/src/object_versions.rs:324-326 | No version was the base of two accepted updates: no update is lost. |
| ObjectVersions.CommittedHistoryIsLinear | crates/kernel/src/object_versions.rs:312-377 | Under any interleaving, committed versions are numbered 1 to n, the last is current, each was accepted against exactly the one before and differs from it. |
| ObjectVersions.CommittedHistoryOnlyGrows | crates/kernel/src/object_versions.rs:335-377 | Committed versions are never renumbered, replaced or dropped. |
| ObjectGrants.GrantTable.CreateObjectGrant | crates/kernel/src/object_grants.rs:189-216 | Exactly which error is returned when, nothing changing on any; otherwise one new active grant. |
| ObjectGrants.GrantTable.ReplaceObjectGrant | crates/kernel/src/object_grants.rs:405-473 | Each error has its exact condition. On success the old grant is inactive and a new one has its principal and the requested role; any failure, the late insert included, restores all grants. |
| ObjectGrants.GrantTable.RevokeObjectGrant | crates/kernel/src/object_grants.rs:481-526 | Revokes exactly when object and grant are active and, for an administrator grant, another active one of the object exists; otherwise nothing changes, and each error has its exact condition. |
| ObjectGrants.RevokeGuardIsExact | crates/kernel/src/object_grants.rs:346-361 | The guard holds if and only if an administrator grant remains after the revocation. |
| ObjectGrants.ReplaceGuardIsExact | crates/kernel/src/object_grants.rs:346-361 | The guard holds if and only if an administrator grant remains after the replacement. |
| ObjectGrants.ReplaceKeepsCount | crates/kernel/src/object_grants.rs:437-473 | Replacing keeps the principal, the number of active grants and one active grant per principal. |
| GrantProtocol.EveryRunKeepsAdmins | crates/kernel/src/object_grants.rs:346-361 | Under every interleaving of object creation and grant creation, replacement and revocation, every committed object has an active administrator grant. |
| GrantProtocol.CommitKeepsInv | crates/kernel/src/object_grants.rs:262-290 | A commit keeps that promise for every other transaction's pending view, because share and update locks on the object exclude each other. |
| GrantProtocol.StatementsTakeEffect | crates/kernel/src/object_grants.rs:219-254 | Within a transaction each grant statement leaves the table it promises: a new active grant with the role, the old one inactive and its replacement with the same principal, or the grant inactive. |
| GraphWalk.WalkIsPaths | crates/kernel/src/graph.rs:858-872 | The recursive walk terminates on every finite graph and holds a node at a distance exactly when a path of that length within the depth exists. |
| GraphWalk.DistanceIsShortestPath | crates/kernel/src/graph.rs:858-877 | The reported distance is the length of a shortest path; a node is missing exactly when no path fits the depth. |
| GraphQueries.LinksExact | crates/kernel/src/graph.rs:829-857 | The walk follows a pair exactly when an unrevoked edge joins two visible objects, or a resolved reference leads from the current version of one to a different other. |
| GraphQueries.DegreesExact | crates/kernel/src/graph.rs:878-896 | A node's degrees are the numbers of unrevoked edges between visible objects that end and start in it. |
| GraphQueries.ReachedNodesExact | crates/kernel/src/graph.rs:873-907 | A row for exactly the visible nodes with a path within the depth, the root only on request, holding the length of a shortest path and the numbers of unrevoked edges that end and start there; with distinct object ids no node has two rows. |
| GraphQueries.LimitCutsFarthest | crates/kernel/src/graph.rs:873-913 | The node query returns as many rows as the limit allows, no node twice, ordered by distance, then title, then id, and every reached node it leaves out comes later in that order. |
| GraphQueries.DistancesAscend | crates/kernel/src/graph.rs:908-913 | Rows come in order of distance, the root first. |
| GraphQueries.DegreesBalance | crates/kernel/src/graph.rs:878-896 | Over all visible nodes total in-degree and total out-degree are the number of visible relationships. |
| GraphQueries.OneEdgePerPair | crates/kernel/src/graph.rs:971-1026 | Before the limit there is a row for a pair exactly when both ends are in the list and a visible link joins them, and no two rows, by position, belong to one pair. |
| GraphQueries.ReturnedEdgesExact | crates/kernel/src/graph.rs:971-1032 | The edge query returns as many rows as the limit allows, pairs with a relationship first and then by source and target, never two of one pair and only for linked pairs of the list; within the limit it has one for every such pair. |
| GraphQueries.EdgeFlagsExact | crates/kernel/src/graph.rs:1001-1023 | The flags tell whether an unrevoked edge and whether a resolved current reference joins the pair; the row shown is the pair's newest edge, or without one its newest reference, ties going to the greatest id. |
| GraphQueries.ReturnedNodesAreLinked | crates/kernel/src/graph.rs:843-1032 | Every returned node but the root has a predecessor one hop closer, returned too whatever the node limit, and the edge query links the two unless its limit is hit. |
| SearchPaging.DeduplicatedIsBest | crates/kernel/src/search.rs:252-268 | One row per version found, of the highest rank and among those of the first category (body, metadata, title). |
| SearchPaging.CursorIsSuccession | crates/kernel/src/search.rs:299-310 | The four-way cursor predicate is exactly strict succession in the result order. |
| SearchPaging.CursorSplits | crates/kernel/src/search.rs:299-312 | The cursor left by the first k results admits exactly the remaining results, in order. |
| SearchPaging.PagingVisitsEachOnce | crates/server/src/api/pagination.rs:335-354 | Following cursors over a fixed result set ends, having shown every deduplicated row exactly once: higher rank first, then by object, newer versions first. |
| CivilDate.RangesHold | bin/kival/build.rs:157-169 | Year of era, day of year and month stay within their stated ranges, the year length following the leap rule. |
| CivilDate.CivilIsSuccessive | bin/kival/build.rs:157-169 | Every day number gives a valid date and the next one the next calendar day, negative days included. |
| CivilDate.CivilInvertsDayCount | bin/kival/build.rs:157-169 | Conversion and counting days year by year and month by month undo each other. |
| CivilDate.YearFits | bin/kival/build.rs:168 | The returned date is right exactly for the days whose year fits 32 bits; otherwise month and day are right and the year is the 32-bit one congruent to it. |
| CivilDate.TimestampRecombines | bin/kival/build.rs:144-150 | Date and time of day recombine to the input second exactly up to the last day of the greatest 32-bit year. |
| RollingLog.RollingFileAppender.constructor | crates/tracing/src/file.rs:39-53 | Opens the active file, keeping every existing file. |
| RollingLog.RollingFileAppender.RotateFiles | crates/tracing/src/file.rs:66-85 | The rename loop moves each file one index up, touches nothing above the highest kept index and loses at most the oldest file. |
| RollingLog.RollingFileAppender.Rollover | crates/tracing/src/file.rs:88-96 | Flushes first, so that the whole active file is rotated: files up to the greatest kept index hold what the one before held, and the new active file is empty. |
| RollingLog.RollingFileAppender.Write | crates/tracing/src/file.rs:115-140 | A rotation happens exactly when the active file has reached the maximum size. The whole buffer becomes one record at the end of the active file, each numbered file is the one before it or unchanged, and the tracked size stays the active file's logical length. |
| RollingLog.RollingFileAppender.RetainedIsSuffix | crates/tracing/src/file.rs:66-140 | Retained files from oldest to newest and then the buffer are a suffix of everything initial or written; only whole lost records precede it. |
| RollingLog.RotationLosesOldest | crates/tracing/src/file.rs:66-85 | A rotation keeps all retained content in order except for the whole oldest file. |
| Backtrace.OffsetExists | crates/cli/src/sigsegv.rs:132-139 | Once a period is found an offset exists, below the period, so the early return is never taken. |
| Backtrace.Detect | crates/cli/src/sigsegv.rs:132-149 | Offset, period and cycles are such that every slice the handler takes is in bounds. |
| Backtrace.DetectMeaning | crates/cli/src/sigsegv.rs:125-149 | A cycle is detected exactly when the runner meets the walker: the period is the first meeting, the offset the first frame that recurs a period later, and the count one more than the number of whole chunks that their successors repeat. |
| Backtrace.PrintStackTrace | crates/cli/src/sigsegv.rs:125-166 | The handler's control flow yields the specified report. |
| Backtrace.ExpandKeepsLength | crates/cli/src/sigsegv.rs:151-164 | Prefix, repeated cycle and rest account for every frame of any stack. |
| Backtrace.ReadsBack | crates/cli/src/sigsegv.rs:141-164 | Reading the report back gives the stack if and only if the equal neighbouring chunks form an initial run. |
| Backtrace.SeparateRunsMislead | crates/cli/src/sigsegv.rs:141-149 | A stack of two runs for which the report is wrong. |
| MetricKey.Fnv1aSeed | crates/metrics/src/key.rs:19-27 | The hash loop computes FNV-1a of the bytes. |
| MetricKey.KnownHash | crates/metrics/src/key.rs:19-27 | From the standard offset basis the byte of "a" gives the published FNV-1a value. |
| MetricKey.ComputeHash | crates/metrics/src/key.rs:113-123 | The accumulating loop mixes the name's hash with the wrapping sum of label hashes. |
| MetricKey.CanonicalIffSameLabels | crates/metrics/src/key.rs:139-145 | Sorting gives equal label lists exactly for equal multisets of labels. |
| MetricKey.FromParts | crates/metrics/src/key.rs:139-145 | The built key holds the labels as often as given, ordered by key and then value in byte order, and the hash of the labels as given. |
| MetricKey.FromName | crates/metrics/src/key.rs:127-131 | A key without labels is the key built from no labels. |
| MetricKey.KeysEqualIff | crates/metrics/src/key.rs:174-190 | Built keys are equal if and only if names agree and labels agree as multisets; the hash short cut never separates them. |
| MetricKey.LabelSumPermutes | crates/metrics/src/key.rs:113-123 | The label hash is the same for every order of the labels. |
| MetricKey.HashIgnoresOrder | crates/metrics/src/key.rs:139-145 | The stored hash equals the hash of the labels as given. |
| AtomicCells.EveryRunFolds | crates/metrics/src/handles.rs:157-203 | Under every interleaving with spurious failures each finished call took effect exactly once and the cell is the fold of all effects in order. |
| AtomicCells.CounterHoldsMaximum | crates/metrics/src/handles.rs:164-173 | With `absolute` calls only, a quiet counter is the maximum of its start and all arguments. |
| AtomicCells.CounterNeverDecreases | crates/metrics/src/handles.rs:164-173 | With `absolute` calls only, the counter never decreases. |
| AtomicCells.CounterHoldsSum | crates/metrics/src/handles.rs:157-162 | With increments only, a quiet counter is its start plus all amounts, each once, modulo two to the 64th. |
| AtomicCells.LastEffectStays | crates/metrics/src/handles.rs:176-203 | The cell holds the bits of the last store, or the last update's function of what came before. |
| GracefulShutdown.EveryRunCounts | crates/tasks/src/shutdown.rs:40-78 | Across any run of spawn, clone, poll and drop the counter is the number of live guards. |
| GracefulShutdown.EachGuardGivenOnce | crates/tasks/src/shutdown.rs:41-48 | No handle gives out its guard twice. |
| GracefulShutdown.DropNeverUnderflows | crates/tasks/src/shutdown.rs:73-77 | A guard is never dropped with the counter at zero. |
| GracefulShutdown.ReturnsTrueAfterQuiet | crates/tasks/src/runtime.rs:273-291 | The shutdown call returns true only after a moment, following its request, without live guards, and false only after one with some. |
| GracefulShutdown.ExitResolvesAll | crates/tasks/src/runtime.rs:137-151 | However the manager ends, panic and abort included, every shutdown future resolves and stays resolved. |
| GracefulShutdown.FinishedWhy | crates/tasks/src/runtime.rs:137-151 | A manager that finished well stopped at a shutdown request or with no sender left, and every shutdown future is resolved; one that failed stopped at a task's panic. |
| GracefulShutdown.QuietCheckReturns | crates/tasks/src/runtime.rs:273-291 | A waiting shutdown call that looks while no guard is alive returns true, and with one alive returns false only past its deadline. |

## Left out

- Implicit database locks: foreign keys, and rows touched by bulk updates. Two maintenance transactions can still wait for each other's rows there; the deadlock claim covers the explicit locks named in `LockOrder` only.
- Collisions of the advisory lock's hash: titles are locked by name, as if the hash were injective.
- Locks on users, groups and memberships taken while creating a grant.
- Object-ID links are resolved once per version, as in the source, so their targets are not claimed to stay current.
- The command that seeds a workspace runs several maintenance rounds in one transaction; `ReferenceProtocol` has one round per transaction.
- ReferenceProtocol: an edit that changes nothing starts no transaction, and the order of title locks is not used there; `LockOrder` covers it.
- UUID parsing is an arbitrary table from texts to identifiers; white space is the fixed list of code points `Text.WhiteSpaceIs` gives.
- Strings are sequences of code points with byte offsets computed from UTF-8 widths; a title is compared by code points and, in the graph queries, by an abstract collation key.
- Full-text ranks are abstract ordered values; matching, category weights and fallback terms are not modelled.
- Visibility and permissions are an arbitrary set of visible objects; authorization itself is not modelled.
- SQL errors other than the kernel's own and a rejected grant insert, and timestamps, actors and event rows.
- ObjectVersions: metadata is an opaque text.
- `create_object_edge` and `revoke_object_edge` appear as lock sequences only; each is one guarded statement after that.
- The creator's grant and the first version are created by the same savepoint; the two protocols model them separately.
- RollingLog.RollingFileAppender.Write: failures of opening, writing or flushing and renames that fail for another reason than a missing file are not modelled, nor is the saturation of the tracked size at 64 bits. The buffered writer is the standard library's, with any capacity.
- PrintStackTrace: the number of lines written and the closing notes are not modelled.
- AtomicCells: the loops are steps of a state machine, not methods, because they need not terminate under interference; memory orderings weaker than sequential consistency and floating-point arithmetic are not modelled.
- GracefulShutdown: wake-ups, sleeping and the deadline's clock; a check past the deadline is a free choice.
- Formatting of the timestamp and its nanoseconds.
- DaysToYmd: day numbers are unbounded; the source's 64-bit addition of 719468 overflows for days within 719468 of the greatest 64-bit integer, far outside the days whose year fits 32 bits.
- `workspace_graph_nodes` and the workspace edge query share the modelled parts and add only filters.
- HTTP handlers, sessions, attachments, notifications, events, favorites, passkeys, the command line, the web application and the SDK.
