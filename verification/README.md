# A verified model of a code-indexing platform

The platform indexes source repositories. A worker clones a repository, parses its files,
resolves their imports, stores symbols, chunks and vectors, and activates the finished
snapshot. An API serves the dependency graph, the file tree, symbol and code search, project
membership and live events. This project models the parts of both programs in which the logic is
hardest and proves what they are for.

| module | what it models |
|---|---|
| `Text` | Go's string operations: prefixes, splitting, joining, byte order |
| `DependencyGraph` | the level-by-level search behind the dependency graph endpoint |
| `ImportIndex`, `ImportResolution` | the lookup tables of import resolution and the in-place rewriting of imports |
| `LastOwner` | role changes, removals and additions of members under row locks |
| `Heartbeat` | the worker's heartbeat against the two job reapers, in real time |
| `GitPath`, `PatchLog`, `NulLog`, `DiffEntries` | the parsers of git's output, proved against printers of that output |
| `GlobRegex`, `GlobMeaning`, `LikeEscape` | globs as regular expressions, what they accept character by character, search queries as LIKE patterns |
| `FileTree` | the tree of linked nodes built from flat paths and its recursive sort |
| `ParserPool` | the channel of parsers with concurrent calls and shutdown |
| `Batching`, `Pipeline` | batching of files; write, embed, upsert, activate, with any call failing |
| `SseHub`, `MembershipEvents`, `MembershipFanout`, `HubRefinement` | one instance's hub on the heap, its event handling, delivery across instances, and the proof that the first two carry out the steps of the third |

`dafny verify dfyconfig.toml` checks the whole project.

## How to read it

Code that changes state in place is a class or an array method whose `ensures` ties the new state
to a specification function of the old one; what the source promises is then proved about that
function. Concurrent code is a state machine whose steps interleave freely; its theorems speak
about every state of every run. Pure code is a function with lemmas.

Assumptions, each part of the statements it concerns:

- Row locks follow PostgreSQL's READ COMMITTED `FOR UPDATE`: candidates are found among the committed
  rows, locked one by one, and re-checked in their latest version after a wait. A transaction may be rolled
  back at any moment, so deadlock victims are covered.
- Redis pub/sub delivers a published message once to each live instance; instance ids are distinct and
  non-empty.
- File paths known to import resolution are clean and slash-separated, with no empty, `.` or `..` element.
  No indexed file is named like an external package (`ext:…`).
- All clocks agree. Time is a real number of seconds.
- Chunk ids are generated by the database, so no stored point has an id that is yet to be generated.
- A user's connected clients share membership sets with each other at most, never with another user's. `SetsApart` states this;
  every hub operation keeps it, registration if the new client respects it, and the effects are also stated without it.
- A character stands for a byte in the git parsers and for a code point in globs and queries. In the emitted
  regular expressions `.` matches every character, as it does for PostgreSQL.
- `ParseRegex` reads back the part of the regular expression syntax in which the translator writes.

## What the proofs found

- **Heartbeats.** A heartbeat copies the active jobs under the mutex and writes the copy later, so one copied just
  before `SetBusy` can land after it. A stale threshold of the TTL is therefore not enough as soon as publishing takes
  time: a held job is safe exactly when the thresholds of both the checker and the reaper are at least the TTL plus the
  publishing latency, of which no more than another TTL counts (`ThresholdIsExact`). For every smaller threshold of
  either, `ShortThresholdReaps` builds the failing run.
- **Shutdown.** When the `Shutdown` call that wins the swap returns, every parser is closed. A call that loses the
  swap can return before a single parser is closed, in a pool of any size (`LoserMayReturnFirst`). In every reachable
  state all parsers are closed exactly when the winner has drained the pool (`AllClosedExactly`).
- **Quoted headers.** The two quoted halves of a `diff --git` line have 9+2n characters; the comment at
  backend-worker/internal/gitclient/gitclient.go:612 counts 8+2n. Integer division still finds n.
- **Activation.** Activation leaves the snapshot as the only active one of its branch exactly when its row exists
  and belongs to the branch. If the row is gone, both updates succeed and no snapshot of the branch is active.
- **Owners.** Owner rows are protected in every run; active owners are not. Deactivating a user is refused for oneself and
  for the last active platform admin (backend-api/internal/handler/admin.go:264-268 and 308-310), but never because of
  the projects the user owns. Nor would that be enough: counting locks membership rows and no rows of users, so a demotion
  can count two active owners, one of them can be deactivated while the other still is one, and the demotion commits
  (`DeactivationRacesCommit`). Active owners are kept in every run exactly when each deactivation leaves another active
  owner and hits none that an open transaction has counted or is about to (`ActiveOwnerExactly`).
- **Starting over.** Indexing a commit again resets its snapshot to inactive first. If it was the active one and the attempt
  fails, its branch is left without an active snapshot (`CreatedEffect`), unlike after a failure in the pipeline itself.
- **Done channels.** Unregistering a client that was unregistered before and registered again closes its done channel twice,
  which panics. No caller does this.
- **Last patch.** The newline that ends git's output counts as an empty line of the very last block. Its patch ends in a
  newline, a body of exactly 5 MB is dropped there and kept elsewhere, and an empty body there overwrites an earlier
  patch with an empty one (`LastBlockPatch`).
- **Globs.** The comment at backend-api/internal/handler/symbolquery.go:187 says `**/test/**` becomes `(^|/)test/`; the
  code emits `(^|/)test/.*` (`TestAnywhere`). Brackets and braces are literal, but a glob that starts with one is not anchored.
- **Unreadable heartbeats.** On a heartbeat that is there but cannot be parsed, the checker spares the job and the reaper
  fails it (`MalformedHeartbeat`).
- **Events.** A membership message without a user id is not dropped: it is broadcast to the whole project.

## Model

| member | source | states |
|---|---|---|
| `DependencyGraph.HandleDependencyGraph` | backend-api/internal/handler/project.go:1784-1905 | every listed depth is the exact shortest distance; `truncated` is set exactly when a node within the depth is missing, and then 200 nodes are listed; the graph is closed; each edge is a row in all fields and any two differ in source, target or import name; without truncation every row touching a node nearer than the depth has its edge, with truncation every row between listed nodes that touches one nearer than the farthest; it answers whenever both lookups do |
| `DependencyGraph.ClosedMeansRows` | backend-api/internal/handler/project.go:1557-1570 | distinct keys are distinct sources, targets or import names, and every edge leads where its row does: to the target file, else `ext:` and the package, else `ext:` and the import name |
| `DependencyGraph.CompleteMeansCovered` | backend-api/internal/handler/project.go:1817-1871 | without truncation every row with an end nearer than the depth has an edge with its source, end and import name |
| `DependencyGraph.NearMeansCovered` | backend-api/internal/handler/project.go:1888-1902 | with truncation the same holds for rows between listed nodes with an end nearer than the farthest |
| `DependencyGraph.Search` | backend-api/internal/handler/project.go:1784-1875 | labels are first-ball indices, the visited set is the ball of the depth unless truncated, and fetched edges stay inside it and cover what was expanded |
| `DependencyGraph.ExpandFrontier` | backend-api/internal/handler/project.go:1790-1874 | one level keeps labels exact and complete for the next level, or stops with the graph full and a node missing; all rows of the level are fetched either way |
| `DependencyGraph.ProcessForward` | backend-api/internal/handler/project.go:1817-1850 | the loop visits the targets in order under the cap, external ones without queueing them, and records every edge |
| `DependencyGraph.ProcessReverse` | backend-api/internal/handler/project.go:1853-1871 | the loop visits the importers in order under the cap and records every edge |
| `DependencyGraph.LevelExpansion` | backend-api/internal/handler/project.go:1815-1875 | whatever order the rows come in, expanding complete exact labels gives exact labels that are complete, or truncated with a node of the next ball missing |
| `DependencyGraph.EdgesExpansion` | backend-api/internal/handler/project.go:1817-1871 | the edges of a level join nodes of the next ball and include every row touching the expanded ball |
| `DependencyGraph.FrontierSuffices` | backend-api/internal/handler/project.go:1790-1875 | expanding only the newest files reaches everything that expanding the whole ball would |
| `DependencyGraph.EmptyFrontierIsFixpoint` | backend-api/internal/handler/project.go:1790 | stopping on an empty frontier misses nothing at any greater depth |
| `DependencyGraph.BallIsWithinDepth` | backend-api/internal/handler/project.go:1784-1875 | being in the k-th ball is having a walk of at most k steps |
| `DependencyGraph.FirstInIsDistance` | backend-api/internal/handler/project.go:1784-1875 | first appearing in the k-th ball is being at shortest distance k |
| `DependencyGraph.DeduplicateEdges` | backend-api/internal/handler/project.go:1557-1570 | keeps the first edge of each key |
| `DependencyGraph.FirstPerKeyMeaning` | backend-api/internal/handler/project.go:1557-1570 | the kept edges are exactly the first of their key, and no key occurs twice |
| `DependencyGraph.EveryKeyKept` | backend-api/internal/handler/project.go:1557-1570 | no key is lost |
| `DependencyGraph.BuildNodes` | backend-api/internal/handler/project.go:1877-1886 | one node per visited path with its depth, external exactly when named `ext:` |
| `DependencyGraph.FilterEdges` | backend-api/internal/handler/project.go:1892-1902 | keeps exactly the edges with both ends visited |
| `DependencyGraph.DependencyStore.ListDependenciesFromFiles` | datastore/postgres/queries/dependencies.sql:72-80 | a successful lookup gives exactly the rows with a source among the files |
| `DependencyGraph.DependencyStore.ListDependenciesToFiles` | datastore/postgres/queries/dependencies.sql:82-90 | a successful lookup gives exactly the rows with a target among the files |
| `ImportIndex.Tables.RegisterPath` | backend-worker/internal/indexing/resolve.go:197-263 | registering a path that sorts last keeps every lookup equal to its declarative answer, despite the early return |
| `ImportIndex.Tables.RegisterStem` | backend-worker/internal/indexing/resolve.go:200-222 | the stem table's update |
| `ImportIndex.Tables.RegisterGoFile` | backend-worker/internal/indexing/resolve.go:228-233 | the Go table's update |
| `ImportIndex.StemTargetAdd` | backend-worker/internal/indexing/resolve.go:200-222 | the stem table gives the least implementation file, else `stem.ts` where that is a declaration file, else `stem.d.ts` |
| `ImportIndex.DirTargetAdd` | backend-worker/internal/indexing/resolve.go:238-252 | the directory table gives the least implementation index file, else `index.d.ts` |
| `ImportIndex.GoTargetAdd` | backend-worker/internal/indexing/resolve.go:228-233 | the Go table gives the least `.go` file of every directory that has one |
| `ImportIndex.StemTargetListed` | backend-worker/internal/indexing/resolve.go:200-222 | a stem stands for its least file with a one-dot extension that is no `.d.ts`, else `stem.ts` if that is one, else `stem.d.ts` |
| `ImportIndex.DirTargetListed` | backend-worker/internal/indexing/resolve.go:235-252 | a directory stands for the least of `index.ts`, `.tsx`, `.js`, `.jsx`, `.mjs`, `.cjs`, `__init__.py` and `mod.rs` in it, else for its `index.d.ts` |
| `ImportIndex.GoTargetListed` | backend-worker/internal/indexing/resolve.go:228-233 | a package directory stands for its least `.go` file |
| `ImportIndex.IndexNamesListed` | backend-worker/internal/indexing/resolve.go:17-24 | a file other than a declaration is an index file exactly if it has one of these names |
| `ImportIndex.Ext` | backend-worker/internal/indexing/resolve.go:272-278 | the extension is a suffix without a slash, with a dot at its start and nowhere else |
| `ImportIndex.StripExt` | backend-worker/internal/indexing/resolve.go:272-278 | stem and extension make up the path |
| `ImportIndex.ExtOfAppend` | backend-worker/internal/indexing/resolve.go:272-278 | stripping undoes appending an extension |
| `ImportIndex.DTSStems` | backend-worker/internal/indexing/resolve.go:211-222 | `x.d.ts` has primary stem `x.d` and secondary stem `x` |
| `ImportIndex.DTSIsOneOf` | backend-worker/internal/indexing/resolve.go:200-222 | a declaration file is registered under exactly the stems it is `stem.ts` or `stem.d.ts` for |
| `ImportIndex.DTSIndexName` | backend-worker/internal/indexing/resolve.go:235-246 | a declaration file is an index file exactly when its name is `index.d.ts` |
| `ImportResolution.ResolveImportTargets` | backend-worker/internal/indexing/resolve.go:47-158 | every file of the array ends up resolved import by import, in its own language, against the union of the listed paths and the files, whatever their order and repetitions; nothing else changes |
| `ImportResolution.BuildTables` | backend-worker/internal/indexing/resolve.go:64-84 | after the sorted pass every lookup gives the declarative answer for the path set |
| `ImportResolution.CollectPaths` | backend-worker/internal/indexing/resolve.go:48-62 | the distinct known paths |
| `ImportResolution.SortStrings` | backend-worker/internal/indexing/resolve.go:64-65 | the same strings in strictly increasing byte order |
| `ImportResolution.ResolveInternalImports` | backend-worker/internal/indexing/resolve.go:86-111 | exact, then stem, then directory index, import by import |
| `ImportResolution.ReclassifyImports` | backend-worker/internal/indexing/resolve.go:117-157 | exact, stem, directory index, then Go package, import by import |
| `ImportResolution.IncrementalAgreesWithFull` | backend-worker/internal/indexing/pipeline.go:96-100 | resolving the changed files against the full path list gives each what resolving the whole project gives it |
| `ImportResolution.SecondRunChangesNothing` | backend-worker/internal/indexing/resolve.go:47-158 | a second run over the output leaves every file as it is |
| `ImportResolution.ResolveImportIdempotent` | backend-worker/internal/indexing/resolve.go:86-157 | resolving a resolved import changes nothing |
| `ImportResolution.ResolveImportEffect` | backend-worker/internal/indexing/resolve.go:86-157 | only target and type change; a new target is a known file; the type moves only from EXTERNAL to INTERNAL |
| `ImportResolution.InternalOutcome` | backend-worker/internal/indexing/resolve.go:86-111 | an internal target stays if it is empty or known, else becomes what its stem, or else its directory, stands for |
| `ImportResolution.ExternalOutcome` | backend-worker/internal/indexing/resolve.go:117-157 | an external import becomes internal exactly when its candidate is a known file, stem, index directory or, in Go, package directory, and its target is the first of these |
| `ImportResolution.NoCandidate` | backend-worker/internal/indexing/resolve.go:163-194 | other languages, and Go without a module path, have no candidate |
| `ImportResolution.ResolveFileEffect` | backend-worker/internal/indexing/resolve.go:86-157 | the same for whole files, with counts, order and all other fields kept |
| `ImportResolution.GoCandidate` | backend-worker/internal/indexing/resolve.go:165-174 | an import names directory c exactly when it is the module path, a slash and c |
| `ImportResolution.DottedCandidate` | backend-worker/internal/indexing/resolve.go:176-191 | a dotted name denotes the path of its parts; relative Python imports denote none |
| `ImportResolution.PhpCandidate` | backend-worker/internal/indexing/resolve.go:182-185 | a backslash name denotes the path of its parts, fully qualified or not |
| `LastOwner.NeverWithoutOwner` | backend-api/internal/membership/service.go:94-264 | in every interleaving, with deactivations and rollbacks, a project that starts with an owner row never loses its last one, and no user has two rows |
| `LastOwner.NextPreserves` | backend-api/internal/membership/service.go:94-264 | every step keeps what each open transaction knows about the rows it has locked |
| `LastOwner.CommitKeepsAnOwner` | backend-api/internal/membership/service.go:120-140 | a commit that takes an owner row away leaves another one that the same transaction holds locked |
| `LastOwner.TargetLockedPreserves` | datastore/postgres/sqlc/auth.sql.go:193-199 | locking and re-reading the target row, as a statement of its own |
| `LastOwner.CountStartedPreserves` | backend-api/internal/membership/service.go:120-125 | the counting statement takes its candidates at a later moment, after any other steps |
| `LastOwner.CandidateLockedPreserves` | datastore/postgres/sqlc/auth.sql.go:30-41 | locking and re-checking one counted owner row |
| `LastOwner.CountedPreserves` | backend-api/internal/membership/service.go:247-255 | refusing at one counted owner leaves another owner row locked otherwise |
| `LastOwner.CommitPreserves` | datastore/postgres/sqlc/auth.sql.go:688-696 | the committed write disturbs no other transaction's locked rows |
| `LastOwner.CommitEffect` | backend-api/internal/membership/service.go:131-140 | over every run, a committed removal leaves the user without a row, a committed role change gives the user's row the new role, and every other row stays as it was |
| `LastOwner.OtherStepsKeepRows` | backend-api/internal/membership/service.go:94-141 | only commits and additions change rows |
| `LastOwner.BeginDecides` | backend-api/internal/membership/service.go:77-92 | a request is taken up exactly if nobody changes their own role, only owners and admins act on others, and only owners make owners |
| `LastOwner.TargetLockedDecides` | backend-api/internal/membership/service.go:102-129 | with the target locked, the transaction ends if the row is gone, an admin would touch another owner, or nothing would change; it counts exactly when an owner is to be removed or demoted; else it writes |
| `LastOwner.CountStartedDecides` | datastore/postgres/sqlc/auth.sql.go:30-41 | the count starts from exactly the rows owned by active users at that moment |
| `LastOwner.CandidateDecides` | datastore/postgres/sqlc/auth.sql.go:30-41 | a candidate is counted, and stays locked, exactly if it is still an owner row |
| `LastOwner.CountedDecides` | backend-api/internal/membership/service.go:247-255 | the request goes through exactly if two different rows were counted |
| `LastOwner.StepsDecide` | datastore/postgres/sqlc/auth.sql.go:193-199 | a row can be locked exactly when no other transaction holds it; issued writes can commit, and open transactions roll back |
| `LastOwner.LocksOfOpenTransactions` | backend-api/internal/membership/service.go:94-141 | over every run, only open transactions hold locks |
| `LastOwner.AddPreserves` | backend-api/internal/membership/service.go:164-202 | an insert keeps one row per user and disturbs no open transaction |
| `LastOwner.AddEffect` | backend-api/internal/membership/service.go:186-205 | an addition gives a user without a row exactly one, with the role asked for, and changes no other |
| `LastOwner.AddDecides` | backend-api/internal/membership/service.go:164-202 | an addition is possible exactly for an owner, or for an admin and a role below owner, and a user without a row |
| `LastOwner.OwnerRowsFallOnlyToOwners` | backend-api/internal/membership/service.go:77-118 | over every run, an owner row disappears only by the commit of an owner's request on that user or of the user leaving, and another owner row stays |
| `LastOwner.OwnerRowsAriseOnlyFromOwners` | backend-api/internal/membership/service.go:89-92 | over every run, an owner row appears only by an owner's addition or role change |
| `LastOwner.SoleOwnerDeactivated` | backend-api/internal/handler/admin.go:249-331 | for every user, a run in which this user, the sole active owner, is deactivated: checking open transactions alone is not enough |
| `LastOwner.DeactivationRacesCommit` | datastore/postgres/sqlc/auth.sql.go:30-41 | for every user, a run in which a demotion counts two active owners, this user is deactivated while the target still is one, and the commit leaves none: checking for another owner alone is not enough |
| `LastOwner.GuardedDeactivation` | backend-api/internal/handler/admin.go:288-315 | a deactivation that leaves another active owner and hits no row an open transaction relies on keeps everything that protects active owners |
| `LastOwner.ActiveOwnerExactly` | datastore/postgres/sqlc/auth.sql.go:30-41 | over all runs under a policy for deactivations, a project with an active owner always keeps one if and only if the policy checks both that another active owner remains and that no open transaction relies on the user, or lets nobody be deactivated |
| `LastOwner.CommitKeepsActiveOwner` | backend-api/internal/membership/service.go:120-140 | while users stay active, a commit that drops an active owner leaves another active one |
| `Heartbeat.ThresholdIsExact` | backend-worker/internal/registry/registry.go:16-20 | over runs whose key is live while the job is held, the job is never failed if and only if both stale thresholds are at least TTL plus latency, of which at most another TTL counts |
| `Heartbeat.HeldJobNeverReaped` | backend-worker/internal/reaper/reaper.go:66-98 | over every run whose key is live and whose latency is bounded while the job is held, neither reaper, each with its own threshold, ever fails it |
| `Heartbeat.HeldJobNeverReapedAtTwiceTTL` | backend-worker/internal/reaper/reaper.go:66-98 | the same without a latency bound, for thresholds of at least twice the TTL |
| `Heartbeat.ShortThresholdReaps` | backend-worker/internal/registry/registry.go:200-242 | for every smaller threshold of either reaper, a run in which that reaper fails the held job |
| `Heartbeat.LiveKeyBoundsLatency` | backend-worker/internal/registry/registry.go:200-242 | a key that does not expire while the job is held bounds the latency by the TTL |
| `Heartbeat.NotReaped` | backend-api/internal/jobhealth/checker.go:76-129 | in a reachable state neither reaper decides against the held job |
| `Heartbeat.CheckDecides` | backend-api/internal/jobhealth/checker.go:76-129 | the checker gives up a job exactly if it has been running for the threshold and its worker, if it has one, is readable and has sent no heartbeat within 30 seconds or one that does not list the job |
| `Heartbeat.ReaperDecides` | backend-worker/internal/reaper/reaper.go:66-98 | the same for the reaper, whose comparison is strict and which searches all heartbeats for a job without a worker |
| `Heartbeat.MalformedHeartbeat` | backend-worker/internal/reaper/reaper.go:144-166 | on a heartbeat that cannot be parsed the checker spares the job and the reaper fails it |
| `Heartbeat.DeadWorkersJobFails` | backend-api/internal/jobhealth/checker.go:110-129 | one readable pass and the update fail a stale job of a worker without a heartbeat, for either reaper |
| `Heartbeat.NextPreserves` | backend-worker/internal/queue/consumer.go:86-92 | a heartbeat written later than latency after SetBusy lists the job; every step keeps this |
| `Heartbeat.PublishedNamesActive` | backend-api/internal/jobhealth/checker.go:30-36 | the reapers find a job in a published payload exactly when it was active |
| `Heartbeat.Registry.SetStatus` | backend-worker/internal/registry/registry.go:88-96 | drops every job, for every status; busy exactly while some job is active holds afterwards unless the status is busy itself |
| `Heartbeat.Registry.SetBusy` | backend-worker/internal/registry/registry.go:98-106 | adds the job, keeps the others; afterwards busy exactly while some job is active, whatever was before |
| `Heartbeat.Registry.ClearJob` | backend-worker/internal/registry/registry.go:108-117 | removes that job only; idle when none is left |
| `Heartbeat.Registry.CopyPayload` | backend-worker/internal/registry/registry.go:204-228 | the whole map, and any one active job as the current one |
| `GitPath.ParseOfHeader` | backend-worker/internal/gitclient/gitclient.go:594-690 | the exact path is recovered from git's header for every non-empty byte path, quoted or not |
| `GitPath.ParseOfQuoted` | backend-worker/internal/gitclient/gitclient.go:606-622 | quoted halves have 9+2n characters, and floor division finds n |
| `GitPath.ParseOfPlain` | backend-worker/internal/gitclient/gitclient.go:623-633 | halving finds every unquoted path, even one that contains ` b/` |
| `GitPath.UnescapeOfEscape` | backend-worker/internal/gitclient/gitclient.go:638-690 | unquoting inverts git's escaping on every byte string |
| `GitPath.UnquoteGitPath` | backend-worker/internal/gitclient/gitclient.go:638-690 | the loop computes the meaning of the escaped text |
| `GitPath.DecodeAt` | backend-worker/internal/gitclient/gitclient.go:641-687 | one turn of the loop: the next byte and the length of its spelling |
| `GitPath.FirstByteOfEscape` | backend-worker/internal/gitclient/gitclient.go:641-687 | an escaped byte reads back as itself, whatever follows |
| `GitPath.HeaderInjective` | backend-worker/internal/gitclient/gitclient.go:594-633 | distinct paths have distinct headers |
| `GitPath.HalvingRoundsDown` | backend-worker/internal/gitclient/gitclient.go:616-632 | one character more, or one less between quotes, does not change the path found |
| `GitPath.UnescapeOther` | backend-worker/internal/gitclient/gitclient.go:641-687 | other characters, and a backslash that starts no escape, stand for themselves |
| `GitPath.UnescapeOctal` | backend-worker/internal/gitclient/gitclient.go:676-686 | three octal digits are a byte, modulo 256; fewer are no escape |
| `GitPath.OtherLinesGiveNothing` | backend-worker/internal/gitclient/gitclient.go:625-627 | a line in neither format names no path |
| `PatchLog.DiffTable.MergePatchLog` | backend-worker/internal/gitclient/gitclient.go:495-592 | the loop performs the line-by-line scan and flushes the last block |
| `PatchLog.DiffTable.WriteBack` | backend-worker/internal/gitclient/gitclient.go:504-519 | the patch goes to the current commit and file if they exist, and nothing else changes |
| `PatchLog.MergeOfPrintedLog` | backend-worker/internal/gitclient/gitclient.go:495-592 | merging the text of a well-formed log performs exactly its merge, with the final newline as an empty line of the last block |
| `PatchLog.PatchOfPrintedFile` | backend-worker/internal/gitclient/gitclient.go:495-592 | after merging git's text, the entry of a file listed once is the old one with exactly the file's own body lines as its patch, the final newline counting for the very last block only |
| `PatchLog.UnlistedFileKept` | backend-worker/internal/gitclient/gitclient.go:504-519 | after merging git's text, a file the log does not list has its old entry, or still none |
| `PatchLog.LastBlockPatch` | backend-worker/internal/gitclient/gitclient.go:575-591 | what the final newline makes of the last block: a patch ending in a newline, none at the limit, an empty one for an empty body |
| `PatchLog.LogRead` | backend-worker/internal/gitclient/gitclient.go:521-592 | the same on line sequences, from any scan state |
| `PatchLog.BlockRead` | backend-worker/internal/gitclient/gitclient.go:521-592 | a block's own lines, and only these, become the patch of its own entry; binary and oversized blocks write nothing |
| `PatchLog.BodyLines` | backend-worker/internal/gitclient/gitclient.go:575-589 | body lines accumulate in order until the limit, after which the block stays oversized |
| `PatchLog.HeaderIsSkipped` | backend-worker/internal/gitclient/gitclient.go:560-573 | each extended header line, as git prints it, is skipped |
| `PatchLog.PatchOfBlock` | backend-worker/internal/gitclient/gitclient.go:579-589 | a block's patch is its body as one text, if it is not empty and shorter than 5 MB |
| `PatchLog.MergeLogEffect` | backend-worker/internal/gitclient/gitclient.go:495-592 | no file key appears or disappears, no status or count changes |
| `PatchLog.NamedOnceInLog` | backend-worker/internal/gitclient/gitclient.go:504-519 | in the merge of a log, a file listed once gets exactly its own body lines joined, or keeps its patch if binary, empty or oversized |
| `PatchLog.TerminatedLogLines` | backend-worker/internal/gitclient/gitclient.go:496 | a final newline is one more line of the last block and leaves the log well formed |
| `NulLog.ParseNameStatusLogZ` | backend-worker/internal/gitclient/gitclient.go:407-445 | the loop performs the field-by-field scan |
| `NulLog.CountedTable.MergeNumstatLogZ` | backend-worker/internal/gitclient/gitclient.go:447-490 | the loop performs the field-by-field merge |
| `NulLog.ParseOfPrintedNames` | backend-worker/internal/gitclient/gitclient.go:407-445 | from the printed text, with any NULs and line breaks between the fields, every file of every commit gets exactly its last printed status, and nothing else is stored |
| `NulLog.MergeOfPrintedCounts` | backend-worker/internal/gitclient/gitclient.go:447-490 | from the printed text each named file gets its last printed counts; no status changes, no entry is dropped or stored under another key |
| `NulLog.JoinOfPrintedLogs` | backend-worker/internal/gitclient/gitclient.go:407-490 | the two printed texts together give each file exactly its printed status and counts, for NUL-free non-empty paths that do not start with CR, LF or `COMMIT:` |
| `NulLog.FieldsOfPrinted` | backend-worker/internal/gitclient/gitclient.go:416-420 | both parsers see exactly the printed fields, whatever NULs and line breaks surround them, with or without a final NUL |
| `NulLog.AfterLogLast` | backend-worker/internal/gitclient/gitclient.go:432-442 | the last record naming a file decides |
| `NulLog.SplitTabsOfField` | backend-worker/internal/gitclient/gitclient.go:469-476 | counts and path are separated even when the path contains tabs |
| `NulLog.AtoiOfCount` | backend-worker/internal/gitclient/gitclient.go:473-475 | a printed count reads back, the binary mark as zero |
| `NulLog.DecimalRoundTrip` | backend-worker/internal/gitclient/gitclient.go:474-475 | decimal digits read back as the number |
| `NulLog.CommitLineRead` | backend-worker/internal/gitclient/gitclient.go:421-428 | a commit line opens its commit, which keeps what it has, and drops a status without a path |
| `NulLog.IgnoredNames` | backend-worker/internal/gitclient/gitclient.go:429-431 | what comes before the first commit is ignored |
| `NulLog.IgnoredCounts` | backend-worker/internal/gitclient/gitclient.go:466-472 | so is a count record without two tabs |
| `NulLog.AtoiOfOther` | backend-worker/internal/gitclient/gitclient.go:474-475 | a count that is no number is taken for zero |
| `NulLog.AtoiOutOfRange` | backend-worker/internal/gitclient/gitclient.go:474-475 | one beyond the 64-bit range is taken for the largest integer |
| `GlobRegex.GlobToRegex` | backend-api/internal/handler/symbolquery.go:198-265 | succeeds exactly on trimmed globs that are non-empty and free of `..`; emits the text of the three cases, which parses and matches exactly the paths the glob stands for |
| `GlobRegex.WildcardTranslates` | backend-api/internal/handler/symbolquery.go:219-257 | the wildcard case: `*` stays in a segment, `?` is one character, leading `**` starts at the path start or after a slash, inner `**` is anything, the rest literal, with the code's anchoring |
| `GlobRegex.PrefixTranslates` | backend-api/internal/handler/symbolquery.go:213-217 | a glob without wildcards accepts exactly the paths below it |
| `GlobRegex.EverythingTranslates` | backend-api/internal/handler/symbolquery.go:207-211 | `**` accepts every non-empty path |
| `GlobMeaning.TextAccepts` | backend-api/internal/handler/symbolquery.go:198-265 | the emitted text accepts exactly the paths the glob stands for |
| `GlobMeaning.ReadSpelled` | backend-api/internal/handler/symbolquery.go:225-251 | reading a written token list gives back the list: `*`, `?`, two stars with a slash, and ordinary characters |
| `GlobMeaning.ReadBareStars` | backend-api/internal/handler/symbolquery.go:227-232 | the slash after two stars changes nothing |
| `GlobMeaning.StarInside` | backend-api/internal/handler/symbolquery.go:240-242 | `pre*post` accepts exactly `pre`, anything without a slash, and `post`; more may follow if `post` ends in a slash |
| `GlobMeaning.QuestionInside` | backend-api/internal/handler/symbolquery.go:243-245 | `pre?post` accepts exactly `pre`, one character and `post`, with the same end |
| `GlobMeaning.StarsInside` | backend-api/internal/handler/symbolquery.go:227-239 | two stars between `pre` and `post` stand for anything; at the end they leave it open |
| `GlobMeaning.StarFirst` | backend-api/internal/handler/symbolquery.go:220-223 | a glob that starts with a star accepts every path that ends in the rest |
| `GlobMeaning.StarsFirst` | backend-api/internal/handler/symbolquery.go:233-236 | two stars first accept the rest at the start of the path or after a slash |
| `GlobMeaning.BracketFirst` | backend-api/internal/handler/symbolquery.go:220-223 | a glob that starts with a bracket or brace spells what a path ends in |
| `GlobMeaning.BracketInside` | backend-api/internal/handler/symbolquery.go:246-250 | with one further on it spells just one path |
| `GlobMeaning.PlainGlob` | backend-api/internal/handler/symbolquery.go:213-217 | a glob without any of these, with or without a final slash, accepts exactly the paths below it |
| `GlobRegex.DirectoryAnywhere` | backend-api/internal/handler/symbolquery.go:187 | for every word, what `**/word/**` is translated to, ending in `.*` |
| `GlobRegex.TestAnywhere` | backend-api/internal/handler/symbolquery.go:187 | the text emitted for the example of the comment |
| `GlobRegex.ParseOfEmitAll` | backend-api/internal/handler/symbolquery.go:225-251 | the emitted text reads back as one item per token |
| `GlobRegex.TokensMatch` | backend-api/internal/handler/symbolquery.go:240-249 | the items match exactly what the tokens match |
| `GlobRegex.LeadMatches` | backend-api/internal/handler/symbolquery.go:233-236 | the leading group matches at the path start or after a slash |
| `GlobRegex.FloatingMatches` | backend-api/internal/handler/symbolquery.go:220-223 | without an anchor the match may start anywhere |
| `GlobRegex.AnchoredMatches` | backend-api/internal/handler/symbolquery.go:220-223 | with an anchor it starts at the path start |
| `GlobRegex.OpenEndOfText` | backend-api/internal/handler/symbolquery.go:253-257 | the suffix test on the text is a test on the last token, whatever was escaped |
| `GlobRegex.EmitWildcards` | backend-api/internal/handler/symbolquery.go:219-251 | the loop emits the tokens of the glob in order |
| `GlobRegex.NextToken` | backend-api/internal/handler/symbolquery.go:226-250 | one turn of the switch takes exactly the first token |
| `GlobRegex.RegexEscapeLiteral` | backend-api/internal/handler/symbolquery.go:267-278 | escapes character by character |
| `GlobRegex.ParseEscaped` | backend-api/internal/handler/symbolquery.go:267-278 | an escaped character reads back as that literal character |
| `GlobRegex.SpecialIsOperator` | backend-api/internal/handler/symbolquery.go:269 | the escaped characters are exactly the operators of regular expressions |
| `GlobRegex.TrimSpaceMeaning` | backend-api/internal/handler/symbolquery.go:199 | white space is removed from both ends, all of it and nothing else |
| `GlobRegex.AsciiSpaces` | backend-api/internal/handler/symbolquery.go:199 | the white space among the ASCII characters |
| `GlobRegex.DoubleDotMeaning` | backend-api/internal/handler/symbolquery.go:203-205 | a glob is refused exactly if it contains two dots in a row |
| `LikeEscape.SearchIsSubstring` | backend-api/internal/handler/codesearchquery.go:62-68 | the pattern matches exactly the contents in which the query occurs, under any character equivalence, so for LIKE and ILIKE alike |
| `LikeEscape.SensitiveSearch` | backend-api/internal/handler/codesearchquery.go:66-68 | for LIKE this is the substring relation |
| `LikeEscape.LikeEscaped` | backend-api/internal/handler/codesearchquery.go:145-150 | an escaped query followed by `%` matches exactly the contents that start with the query |
| `LikeEscape.LikeWildcards` | backend-api/internal/handler/codesearchquery.go:145-150 | what `%`, `_` and the escape character mean in a pattern |
| `FileTree.BuildFileTree` | backend-api/internal/handler/project.go:2230-2286 | one leaf per input file without children, all directory nodes proper prefixes of some file and every such prefix there; on every level no file before a directory and names of one kind in order |
| `FileTree.ReachedFromRoot` | backend-api/internal/handler/project.go:2260-2285 | every node of the tree can be reached from the returned root through children |
| `FileTree.OnlyNodesReached` | backend-api/internal/handler/project.go:2260-2285 | nothing else can be reached |
| `FileTree.TreeBuilder.EnsureDirectory` | backend-api/internal/handler/project.go:2246-2262 | one turn of the loop: the directory exists afterwards, created only if missing |
| `FileTree.TreeBuilder.EnsureDirectories` | backend-api/internal/handler/project.go:2244-2263 | every directory prefix exists afterwards; only missing ones are created |
| `FileTree.TreeBuilder.AddFile` | backend-api/internal/handler/project.go:2241-2280 | adds the missing directories and one new leaf, and keeps everything else |
| `FileTree.TreeBuilder.Attach` | backend-api/internal/handler/project.go:2260-2262 | the new node is listed once, below its parent |
| `FileTree.TreeBuilder.SortFileNodes` | backend-api/internal/handler/project.go:2288-2306 | sorts the directory and everything below it, touches nothing else, keeps the tree |
| `FileTree.TreeBuilder.SortBelow` | backend-api/internal/handler/project.go:2301-2305 | the recursive loop sorts below every child directory |
| `FileTree.TreeBuilder.SortLevel` | backend-api/internal/handler/project.go:2294-2300 | one level sorted with the same nodes |
| `FileTree.SortChildren` | backend-api/internal/handler/project.go:2294-2300 | directories first, then files, each by name; the same nodes, each once |
| `FileTree.SortedMeaning` | backend-api/internal/handler/project.go:2294-2300 | sorted children have no file before a directory, and names of one kind never decrease |
| `FileTree.PathIsParentPlusName` | backend-api/internal/handler/project.go:2254-2279 | a node's path is its parent's path plus its name |
| `FileTree.ListedOnce` | backend-api/internal/handler/project.go:2261-2279 | each node is a child of its parent only, and there once |
| `FileTree.OneNodePerDirectory` | backend-api/internal/handler/project.go:2245-2249 | each distinct directory prefix has one node |
| `FileTree.TreeExtended` | backend-api/internal/handler/project.go:2241-2280 | adding a file extends the tree of the files so far to the tree of one more |
| `ParserPool.AlwaysOnePlace` | backend-worker/internal/parser/pool.go:24-94 | in every interleaving each parser is in exactly one place: idle, held by one caller, or closed |
| `ParserPool.ReturningNeverBlocks` | backend-worker/internal/parser/pool.go:60-73 | whenever a call is about to return a parser the channel has room |
| `ParserPool.NoUseAfterShutdown` | backend-worker/internal/parser/pool.go:60-66 | over every run, once the pool is shut down no call enters and none starts to parse |
| `ParserPool.RecheckDecides` | backend-worker/internal/parser/pool.go:60-70 | a call that got a parser uses it exactly if the pool is open and it was not cancelled |
| `ParserPool.CallsReturnTheirParser` | backend-worker/internal/parser/pool.go:50-73 | a call leaves while waiting or by putting its parser back |
| `ParserPool.StepsDecide` | backend-worker/internal/parser/pool.go:46-58 | calls enter exactly until shutdown, and get the first idle parser whenever there is one; the first Shutdown wins |
| `ParserPool.ShutdownDecides` | backend-worker/internal/parser/pool.go:143-153 | Shutdown takes an idle parser while it has had fewer than the pool has, and returns exactly when all are closed |
| `ParserPool.ClosedStaysClosed` | backend-worker/internal/parser/pool.go:42-94 | no closed parser is held, used or idle, and none is closed twice |
| `ParserPool.ShutdownClosesAll` | backend-worker/internal/parser/pool.go:143-153 | when the winning Shutdown returns, every parser is closed and none is held or idle |
| `ParserPool.ShutdownWaitsForACall` | backend-worker/internal/parser/pool.go:143-153 | Shutdown finds the channel empty only while some call holds a parser |
| `ParserPool.LoserMayReturnFirst` | backend-worker/internal/parser/pool.go:143-153 | in a pool of any size, a run in which another Shutdown returns with nothing closed |
| `ParserPool.AllClosedExactly` | backend-worker/internal/parser/pool.go:143-153 | in every reachable state all parsers are closed if and only if the winning Shutdown has closed its last one |
| `ParserPool.LosingReturn` | backend-worker/internal/parser/pool.go:144-146 | a losing Shutdown returns with all parsers closed if and only if the winner was done by then |
| `ParserPool.NextPreserves` | backend-worker/internal/parser/pool.go:42-153 | every step keeps each parser in one place and the drain count right |
| `Batching.BatchFileInputs` | backend-worker/internal/parser/batch.go:21-48 | batches concatenate to the input, each is non-empty and within the limits or a single file, and no order-preserving split has fewer |
| `Batching.GreedyIsOptimal` | backend-worker/internal/parser/batch.go:21-48 | no valid split uses fewer batches than the greedy loop |
| `Batching.OneMoreBatch` | backend-worker/internal/parser/batch.go:30-42 | files that fit one batch cost the loop at most one more batch |
| `Batching.GreedySplits` | backend-worker/internal/parser/batch.go:21-48 | what the loop returns is a valid split |
| `Batching.ValidBatchMeaning` | backend-worker/internal/parser/batch.go:33-38 | a batch is valid exactly if it is one file, or at most 50 with at most 5 MB of content |
| `Pipeline.Pipeline.Run` | backend-worker/internal/indexing/pipeline.go:113-127 | whichever call fails: success means everything is stored, each written chunk has exactly one point in the whole store with its id and embedding, and activation happened; failure leaves the active snapshots alone; either way every active snapshot stays completely stored if the run is for an inactive snapshot without chunks; with every service up it succeeds |
| `Pipeline.Pipeline.FullIndex` | backend-worker/internal/workflow/fullindex/handler.go:221-271 | over any number of attempts, failed ones included, every chunk of every active snapshot has exactly one point, its own; success leaves the snapshot as the only active one of its branch |
| `Pipeline.RunKeepsStored` | backend-worker/internal/indexing/pipeline.go:113-127 | a run, failed or not, for a vacant snapshot keeps every active snapshot completely stored |
| `Pipeline.CreatedEffect` | datastore/postgres/queries/indexing.sql:1-12 | starting over takes exactly this snapshot out of service |
| `Pipeline.SnapshotTable.CreateSnapshot` | datastore/postgres/queries/indexing.sql:1-12 | inserts an inactive snapshot or resets the one already there |
| `Pipeline.Writer.DeleteSnapshotArtifacts` | datastore/postgres/queries/indexing.sql:130-131 | removes exactly the snapshot's chunks, or nothing if it fails |
| `Pipeline.WithoutMeaning` | datastore/postgres/queries/indexing.sql:130-131 | what is left are exactly the chunks of other snapshots, with their ids distinct |
| `Pipeline.Pipeline.ProcessFiles` | backend-worker/internal/indexing/pipeline.go:143-272 | success means the new chunks are those of the files in order and exactly their points were added |
| `Pipeline.Pipeline.WriteFiles` | backend-worker/internal/indexing/pipeline.go:166-195 | collects exactly the written chunks, file by file |
| `Pipeline.Pipeline.EmbedChunks` | backend-worker/internal/indexing/pipeline.go:205-217 | the i-th vector is the embedding of the i-th chunk's truncated text |
| `Pipeline.Pipeline.UpsertAll` | backend-worker/internal/indexing/pipeline.go:246-254 | the slices cover every point once and in order; a failure leaves a prefix |
| `Pipeline.OllamaClient.Embed` | backend-worker/internal/embedding/client.go:84-132 | texts are truncated in place and each gets its own vector of the right dimension |
| `Pipeline.OllamaClient.EmbedBatch` | backend-worker/internal/embedding/client.go:134-178 | accepts only as many vectors as texts, each of the configured dimension |
| `Pipeline.SnapshotTable.ActivateSnapshotTx` | backend-worker/internal/indexing/pipeline.go:64-83 | both updates or neither |
| `Pipeline.ActivationEffect` | backend-worker/internal/indexing/pipeline.go:60-83 | the snapshot is the only active one of its branch exactly when its row exists and belongs to it; otherwise none is |
| `Pipeline.ActivationElsewhere` | backend-worker/internal/indexing/pipeline.go:72-80 | other branches keep their active snapshots |
| `Pipeline.ExactlyOnePoint` | backend-worker/internal/indexing/pipeline.go:222-244 | with fresh ids, the point added for a chunk is the only one of the whole store with its id, and carries the embedding of its truncated text |
| `Pipeline.TruncateMeaning` | backend-worker/internal/embedding/client.go:91-100 | the embedded text is the longest start of the content within the limit |
| `Pipeline.StoredOnce` | backend-worker/internal/indexing/pipeline.go:222-254 | after a stored run every written chunk has exactly one point in the whole store |
| `Pipeline.Writer.WriteFile` | backend-worker/internal/artifact/writer.go:136-185 | the chunks of the file are appended with fresh ids; a failure may leave some behind |
| `SseHub.Hub.Register` | backend-api/internal/sse/hub.go:67-76 | accepts exactly below the connection limit; membership sets stay apart, and done channels open, if the new client respects this |
| `SseHub.Hub.Unregister` | backend-api/internal/sse/hub.go:79-87 | removes the client and closes its done channel; panics exactly for a client that was unregistered before and registered again |
| `SseHub.Hub.Broadcast` | backend-api/internal/sse/hub.go:92-108 | exactly the clients with the project get the frame, unless full |
| `SseHub.Hub.AddProjectForUser` | backend-api/internal/sse/hub.go:140-154 | every client of the user gains the project, although clients share sets; another client does exactly when it shares one of these sets |
| `SseHub.Hub.RemoveProjectForUser` | backend-api/internal/sse/hub.go:159-170 | every client of the user loses the project; another client does exactly when it shares one of these sets |
| `SseHub.Hub.SendToUser` | backend-api/internal/sse/hub.go:175-193 | exactly the user's clients get the frame, unless full |
| `SseHub.Hub.ApplyMemberships` | backend-api/internal/sse/hub.go:274-281 | each reloaded user's clients share the one loaded set; sets never cross users |
| `MembershipEvents.HandleMessage` | backend-api/internal/sse/subscriber.go:166-211 | skipped messages change nothing; after `member:added` the project is in every set of that user's clients, after `member:removed` in none, and no other event changes a set; a personal message notifies that user's clients only, any other is broadcast |
| `MembershipEvents.NotifyUser` | backend-api/internal/sse/subscriber.go:221-248 | membership and frame of the user's clients, and of no others |
| `MembershipEvents.HandleChange` | backend-api/internal/handler/membership.go:198-221 | the handler's own clients gain or lose the project as the event says and are notified, and the message carries its origin |
| `MembershipEvents.MessageHasOneHandler` | backend-api/internal/sse/subscriber.go:182-192 | a handler's message is skipped exactly by its own instance |
| `MembershipEvents.WhatAMessageIs` | backend-api/internal/sse/subscriber.go:173-192 | which messages are personal, which are skipped, and which are broadcast, field by field |
| `MembershipFanout.ExactlyOnce` | backend-api/internal/sse/subscriber.go:166-248 | over every run, each client of the user that was connected when the event started is offered it exactly once, on whichever instance |
| `MembershipFanout.NeverTwice` | backend-api/internal/handler/membership.go:198-221 | no client is offered an event twice, other users' clients never; connections stay within the limit |
| `MembershipFanout.DroppedOnlyWhenFull` | backend-api/internal/sse/hub.go:175-193 | an event is dropped only by a step that finds the buffer full |
| `MembershipFanout.StepsDecide` | backend-api/internal/sse/hub.go:67-76 | clients connect exactly below the limit, changes can be handled anywhere, and waiting messages can be taken |
| `MembershipFanout.NextPreserves` | backend-api/internal/sse/subscriber.go:166-211 | offers made and still pending add up to one, in every reachable state |
| `MembershipFanout.ReceivePreserves` | backend-api/internal/sse/subscriber.go:182-211 | taking a message turns a pending delivery into an offer, or skips one's own |
| `MembershipFanout.HandlePreserves` | backend-api/internal/handler/membership.go:198-221 | a change is offered at once where it is handled and becomes pending elsewhere |
| `HubRefinement.Handle` | backend-api/internal/handler/membership.go:198-221 | the handler's update of the hub on the heap is the protocol's local send |
| `HubRefinement.Receive` | backend-api/internal/sse/subscriber.go:166-211 | the subscriber's treatment of a message on the heap is the protocol's receive step |
| `HubRefinement.SendDescribed` | backend-api/internal/sse/hub.go:175-193 | a send to the user on the hub and in the protocol leave the same clients with the same number of waiting frames |
| `HubRefinement.SentIsOffer` | backend-api/internal/sse/hub.go:181-191 | a frame is dropped by the one exactly when it is dropped by the other |
| `Text.SplitOfJoin` | backend-worker/internal/gitclient/gitclient.go:496 | splitting inverts joining when no part contains the separator |
| `Text.JoinOfSplit` | backend-api/internal/handler/project.go:2242-2246 | joining inverts splitting on every string |
| `Text.LessMeaning` | backend-worker/internal/indexing/resolve.go:64-65 | the byte order: a proper prefix first, else the first difference decides |

## Left out

- HTTP, JSON, routing, logging, configuration, and the parsing and clamping of the depth parameter: input and output around the logic. The search is proved for every depth.
- Job status queries, snapshot queries other than activation, and platform roles: a reap is one abstract step.
- Embedding and LLM provider settings, crypto, URL normalisation, file locks, git execution, tree-sitter, and `stableParseContext`: foreign calls.
- The lifecycle `SetStatus` calls of the worker's start and stop: they drop the active jobs, and the heartbeat theorems speak about runs without them.
- Heartbeat.CheckDecides: a running job without a start time, which the checker treats as stale, is not modelled; every running job has one.
- The reaper's scan of all heartbeats for jobs without a worker id: an arbitrary yes or no; the theorems concern workers with an id. Its counting and orphan cleanup are not modelled.
- Agreement of the hubs with the database at all times: a refresh loads outside the lock, so only its application under the lock is modelled.
- The platform-admin guards of user deactivation: a run may deactivate any user, so the failing runs are meant for users who are not the last platform admin and are deactivated by someone else.
- The incremental workflow, which activates after copying unchanged files forward: only its use of import resolution is modelled.
- Other writers of project_members (project creation and deletion) and concurrent changes of a user's id.
- The role-rank tables, the backoffice and the MCP server: finite domains, user interface and a thin proxy.
- ImportIndex.Tables.RegisterPath: paths that are not clean are outside the model, since `path.Dir` and `path.Base` would rewrite them.
- ImportResolution.ResolveImportTargets: imports are values, so two files sharing one backing array of imports are not captured.
- ImportResolution.SortStrings: insertion instead of the library's algorithm; only the contract is used.
- FileTree.SortChildren: insertion instead of `sort.Slice`; the order among equal names is left open, as it is there.
- FileTree.BuildFileTree: paths whose first element is empty or `.` are outside the model, since they collide with the root's own keys.
- GlobRegex.GlobToRegex: a glob is a sequence of code points, so invalid UTF-8 is not captured; the final validation is against the model's own regular expression parser.
- LikeEscape.SearchIsSubstring: the pattern language is that of section 8.5 of ISO/IEC 9075:1992; the rest of the query text is not modelled.
- NulLog.AtoiOfCount: counts above the 64-bit integer range, which git does not print, are outside it.
- Pipeline.Pipeline.Run: progress updates, import resolution inside the run and the payload fields other than project, snapshot, file and branch are not modelled; the vector store is a log of upserted points.
- MembershipFanout.ExactlyOnce: an event whose publication failed reaches only the clients of the instance that handled it; frames are event numbers.
