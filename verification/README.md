# A verified model of the review orchestrator's decision cores

The orchestrator's safety rests on a few small deciders: which mount governs a path, whether an installation was published, whether a pull request's evidence is one coherent picture, which check run may speak for a required check. This project models those deciders in Dafny and proves what their documentation promises of them, for every input, every run and every interleaving.

| module | models |
|---|---|
| `Outcomes`, `Paths` | refusals and list comprehensions; paths as strings, containment as text, lexical normalisation |
| `MountTable`, `MountChains`, `MountTrail`, `MountClosure`, `MountLocality`, `MountFrontier`, `MountAnswers`, `MountDetour`, `MountProjection`, `MountResolver` | the mount-topology resolver: the functions it computes, what they mean, and the class with its indexes, loops and cache |
| `InstallTransaction`, `InstallOutcomes` | the install authority as a step machine with signals, failures and exceptions at every step; how its runs end |
| `Pagination`, `DoubleCollect`, `SurfaceReads`, `ReviewGuard`, `GuardVerdicts`, `RequiredChecks`, `GuardedSnapshot` | bounded page readers, the collector's double read page by page and surface by surface, the summary binder and the evaluator that rechecks it, what their verdicts mean, the required-check ties, and the guard end to end |
| `SnapshotJoin`, `CiSelection`, `RouteCascade`, `GitBatch`, `LaneReceipt`, `FindingRank` | the suite join and check-run selection, routing receipts, extraction from a git commit, the validation receipt, finding ranking |

What a decider computes is modelled by functions, loops and a class; what it ought to compute is said by predicates on its input that share no function with them, only record fields, literal constants and quantifiers over the listings, and, for paths, the text primitives of `Paths`, which have laws of their own. The main results equate the two.

Mount tables are arbitrary: parents may be missing, chains may cycle, mounts may be stacked, there may be several roots. Paths are strings exactly as the code handles them; `Paths.Normalize` follows `os.path.normpath` for absolute paths, including the two leading slashes that IEEE Std 1003.1, section 4.13, lets a path keep.

Some promises turn out to hold only under a condition, and the condition is proved exact:

- A query whose path normalises to two slashes followed by a component is not local: the text test and the component walk disagree. Point queries are local on every table if and only if the path is not of that kind (`MountAnswers.LocalityExact`). A subtree query also asks about mount points that are textually below its path, and one that leads elsewhere, such as `/a/../b` below `/a`, breaks locality: allow any set of mount points below the path, and the query is local on all tables that keep to it if and only if the path is not of the double-slash kind and every allowed point normalises to a place above or below the path (`MountDetour.SubtreeLocalityIff`). The subtree of `/` is local on every table (`MountDetour.RootAlwaysLocal`).
- Projection refuses a double-slash path, and answers one with a wrong place, exactly as `MountProjection.EscapeIff` and `MountProjection.ProjectRightIff` say, for every root. Under a canonical root it refuses if and only if neither the governing mount's point nor its root is `/` (`MountProjection.EscapeWitness` has a table for every such path), and what it answers is right if and only if the mount sits at `/` with another root, or its root is `/` and its point ends in a dot. A wrong answer can be another path's right one (`MountProjection.CollisionWitness`).
- Single-slash paths are refused only strictly below a mount whose root normalisation would rewrite (`MountProjection.ProjectConfined`), such as a root the kernel marks `//deleted` (`MountProjection.DeletedRootRefuses`).
- That no surface returns to an earlier value is enough for the double read exactly when every reported listing fits on one page: fewer than 100 entries of a bare array, at most 100 of a counted envelope (`SurfaceReads.TrustworthyIff`). For longer listings no page may return (`DoubleCollect.RevalidatedIsSnapshot`).
- The batch decoder accepts git's output cut short if and only if the last header line arrived, and the files it then writes are right if and only if the whole output arrived, its last newline perhaps excepted (`GitBatch.CutAcceptedIff`, `GitBatch.ExtractionCutIff`).
- Ranking keeps the review verdict unless a P0 is reported with a P2 and without a P1 (`FindingRank.VerdictKeptIff`). The scanners report no P0.
- The executed case counts of PASSED runs are sure to add up if and only if the three compared collection reports stay as their lanes wrote them; keeping any smaller set of reports is not enough (`LaneReceipt.CountsAddUpIff`).

## Model

| member | source | states |
|---|---|---|
| `Paths.WithinTransitive` | app/agent_review/_target_pack_epoch_contract_v2.py:38-43 | the textual containment test is transitive on all strings, canonical or not |
| `Paths.WithinIsPrefix` | app/agent_review/_target_pack_epoch_contract_v2.py:38-43 | on canonical paths it is exactly the component-prefix order |
| `Paths.CanonicalIffFixed` | app/agent_review/_mount_topology_raw_v2.py:34-35 | canonical paths are exactly the single-slash fixed points of normalisation |
| `Paths.NormalizeIdempotent` | app/agent_review/_mount_topology_raw_v2.py:34-35 | normalising twice is normalising once, double slashes included |
| `Paths.NormalizeRewrites` | app/agent_review/_mount_topology_raw_v2.py:34-35 | empty and `.` components vanish, `..` takes the component before it along and nothing at the root; with clean components nothing changes, so these rules determine the result |
| `Paths.NormalizeText` | app/agent_review/_mount_topology_raw_v2.py:34-35 | a normalised path is its clean components, each behind a slash, with exactly two leading slashes kept as two; a path without a leading slash is read from `/` |
| `MountChains.ValidChainIff` | app/agent_review/_mount_topology_raw_v2.py:134-157 | chain validation, on any table, accepts a record exactly when a path of containing parents leads from it to a parentless or self-parent record at `/` |
| `MountChains.ChainAncestors` | app/agent_review/_mount_topology_raw_v2.py:134-157 | every mount on an accepted chain sits at an ancestor of the first one's point |
| `MountTrail.WalkIff` | app/agent_review/_mount_topology_raw_v2.py:159-213 | the descending walk returns a mount exactly when a trail of forced hops from the single base root settles there, and refuses exactly when there is no single base or a trail is disputed; so the climb's cycle refusal never fires |
| `MountTrail.WalkCertified` | app/agent_review/_mount_topology_raw_v2.py:196-215 | every mount the walk returns already has a valid chain, lies at a prefix of the path, and has no other child at its own point or any longer prefix |
| `MountTrail.GoverningIff` | app/agent_review/_mount_topology_raw_v2.py:196-215 | the governing mount, for every path and table, against the declarative definition, answers and refusals both |
| `MountTrail.GoverningContains` | app/agent_review/_mount_topology_raw_v2.py:196-215 | a governing mount's point is a canonical ancestor of the path it governs |
| `MountClosure.ClosureIsLeast` | app/agent_review/_mount_topology_raw_v2.py:240-265 | the worklist returns the least set holding the seeds and closed under present parent, same-point sibling and same-point child |
| `MountClosure.ClosureOrderIndependent` | app/agent_review/_mount_topology_raw_v2.py:240-265 | any seed order and any pop order end at the same set |
| `MountClosure.RunBounded` | app/agent_review/_mount_topology_raw_v2.py:244-264 | every worklist run, in any pop order, does one unit of a fixed amount of work per pop, so it stops |
| `MountClosure.StrategyFinishes` | app/agent_review/_mount_topology_raw_v2.py:244-264 | whichever record a strategy pops next, its run empties the worklist |
| `MountLocality.Locality` | app/agent_review/_mount_topology_raw_v2.py:196-284 | resolving a query against only its own frontier gives the same resolution, descendants in order included, or the same refusal |
| `MountLocality.OutsideIrrelevant` | app/agent_review/_mount_topology_raw_v2.py:196-284 | two tables that agree on a query's frontier answer it alike |
| `MountAnswers.LocalityExact` | app/agent_review/_mount_topology_raw_v2.py:196-284 | point queries are local on every table if and only if their path does not normalise to two slashes and a component |
| `MountDetour.SubtreeLocalityIff` | app/agent_review/_mount_topology_raw_v2.py:217-284 | subtree queries are local on all tables that keep to an allowed set of mount points if and only if, moreover, every allowed point below the path normalises to a place above or below it |
| `MountDetour.RootAlwaysLocal` | app/agent_review/_mount_topology_raw_v2.py:267-284 | the subtree query of `/` is local on every table, whatever its mount points |
| `MountDetour.DetourBreaksLocality` | app/agent_review/_mount_topology_raw_v2.py:217-284 | for any path and any point below it that leads elsewhere, a table that refuses the query while its own frontier answers it, with no other point below the path |
| `MountFrontier.FrontierExact` | app/agent_review/_mount_topology_raw_v2.py:227-265 | when every mount at a point above the path, or for a subtree query above or below it, has a valid chain, the frontier is exactly those mounts, in table order: the worklist adds none |
| `MountAnswers.PointAnswerIff` | app/agent_review/_mount_topology_raw_v2.py:267-289 | a point query answers exactly when every mount at a point above the path has a valid chain and some mount governs the path, and then with that mount; it refuses exactly otherwise |
| `MountAnswers.DescendantsExact` | app/agent_review/_mount_topology_raw_v2.py:275-281 | a subtree answer lists exactly the table's mounts strictly below the path that govern their own points; filtering only the frontier loses none |
| `MountAnswers.DescendantsInOrder` | app/agent_review/_mount_topology_raw_v2.py:275-281 | it lists them in table order, those also above the path first |
| `MountAnswers.SubtreeRefusedIff` | app/agent_review/_mount_topology_raw_v2.py:267-284 | a subtree query refuses exactly when a mount above or below its path has an invalid chain, or the walk to the path or to a mount point below it refuses |
| `MountAnswers.SubtreeAnswer` | app/agent_review/_mount_topology_raw_v2.py:267-284 | when it answers, it is with the mount governing its path and a frontier of exactly the mounts above and below |
| `MountAnswers.VisibleIff` | app/agent_review/_mount_topology_raw_v2.py:217-225 | a mount is visible exactly when it governs its own point |
| `MountAnswers.RootListsItself` | app/agent_review/_mount_topology_raw_v2.py:275-281 | the subtree of `/` reports the mount governing `/` |
| `MountProjection.ProjectConfined` | app/agent_review/_mount_topology_raw_v2.py:301-314 | a single-slash path projects inside its mount's root, whatever that root, on the governing device; it is refused exactly strictly below a root that normalisation would rewrite, hence never below a canonical one |
| `MountProjection.ProjectInjective` | app/agent_review/_mount_topology_raw_v2.py:301-314 | two single-slash paths under one governing mount that are answered alike are the same path, whatever the mount's root |
| `MountProjection.EscapeIff` | app/agent_review/_mount_topology_raw_v2.py:309-313 | exactly which paths are refused as escapes, for every path and every root, and what that comes to under a canonical root |
| `MountProjection.ProjectRightIff` | app/agent_review/_mount_topology_raw_v2.py:301-314 | exactly which paths are answered with the mount's root followed by their components below the mount point, for every path and every root |
| `MountProjection.EscapeWitness` | app/agent_review/_mount_topology_raw_v2.py:309-313 | for every path that keeps two slashes before a component, a table whose point query answers and whose projection refuses |
| `MountProjection.DeletedRootRefuses` | app/agent_review/_mount_topology_raw_v2.py:301-314 | below a mount whose root is marked `//deleted` every single-slash path is refused |
| `MountProjection.CollisionWitness` | app/agent_review/_mount_topology_raw_v2.py:301-314 | accepted double-slash paths that are answered with another path's place |
| `MountResolver.RawMountTopology.Load` | app/agent_review/_mount_topology_raw_v2.py:82-94 | construction refuses exactly a repeated mount id, and otherwise both indexes mirror the table |
| `MountResolver.RawMountTopology.ValidateRelevantChain` | app/agent_review/_mount_topology_raw_v2.py:134-157 | the loop terminates on every table and decides chain validity |
| `MountResolver.RawMountTopology.ClimbStack` | app/agent_review/_mount_topology_raw_v2.py:175-194 | the climbing loop computes the top of the stack or refuses |
| `MountResolver.RawMountTopology.GoverningMountRaw` | app/agent_review/_mount_topology_raw_v2.py:196-215 | the component loop computes the governing mount |
| `MountResolver.RawMountTopology.IsVisibleRaw` | app/agent_review/_mount_topology_raw_v2.py:217-225 | the cached answer is the recomputed one, the cache gains exactly that entry, and refusals are not cached |
| `MountResolver.RawMountTopology.DependencyClosure` | app/agent_review/_mount_topology_raw_v2.py:240-265 | the worklist loop computes the closure, in insertion order |
| `MountResolver.RawMountTopology.ResolveQuery` | app/agent_review/_mount_topology_raw_v2.py:267-284 | a query's answer is a function of the table alone: no earlier query changes it |
| `MountResolver.RawMountTopology.IsVisible` | app/agent_review/_mount_topology_raw_v2.py:296-299 | whenever the public question answers, the answer is the raw visibility; it refuses exactly when the walk to the record's point does or a mount above that point has an invalid chain |
| `MountResolver.RawMountTopology.ProjectPath` | app/agent_review/_mount_topology_raw_v2.py:301-314 | projection of the normalised path under the mount that governs it; refused exactly when the point query refuses or the path escapes that mount |
| `InstallTransaction.RunKeeps` | scripts/agent-review-install-authority.py:311-483 | the invariant tying signals, mask, rename, children, stage and codes, kept by every run |
| `InstallTransaction.CommitOrdering` | scripts/agent-review-install-authority.py:405-437 | at most one rename, only after three phases returned 0 and a masked recheck saw no signal; the reported publication matches the world |
| `InstallTransaction.CancelPreventsRename` | scripts/agent-review-install-authority.py:334-335 | a signal recorded before the recheck means that run never renames |
| `InstallTransaction.FirstSignalKept` | scripts/agent-review-install-authority.py:201-204 | only the first signal is ever recorded |
| `InstallTransaction.SignalsAfterCommit` | scripts/agent-review-install-authority.py:424-437 | erasing every signal after the commit leaves the same events, publication, teardown, status and world |
| `InstallTransaction.OutcomeAccounting` | scripts/agent-review-install-authority.py:447-483 | exit status 0 exactly for COMMITTED with COMPLETE teardown; COMPLETE with a known publication leaves no stage path and no unreaped child; the status fits one byte |
| `InstallTransaction.FirstFailureReported` | scripts/agent-review-install-authority.py:441-472 | nothing while closing replaces the failure that ended an unpublished installation |
| `InstallTransaction.CleanupOnlyUnpublished` | scripts/agent-review-install-authority.py:454-461 | stage removal is only ever attempted when nothing was published |
| `InstallTransaction.MovesBounded` | scripts/agent-review-install-authority.py:311-483 | no run keeps moving: signals, busy workers and idle polls aside, it takes at most 66 moves plus one per fork |
| `InstallTransaction.ReportReachable` | scripts/agent-review-install-authority.py:359-483 | from every state of a run the final report is reached by moves alone, without a signal, a fork or an idle poll |
| `InstallOutcomes.UndisturbedCommits` | scripts/agent-review-install-authority.py:375-437 | every run that ends without a signal, an exception, a failing worker or a failed rename is COMMITTED with status 0 |
| `InstallOutcomes.UndisturbedRun` | scripts/agent-review-install-authority.py:375-472 | there is such a run from the start |
| `InstallOutcomes.EndsDecided` | scripts/agent-review-install-authority.py:375-446 | a run ends only after a decisive event: a signal before the mask, an exception or a failing worker while preparing, or a result of the rename |
| `InstallOutcomes.RenamedStatus` | scripts/agent-review-install-authority.py:424-472 | after a successful rename the run is COMMITTED, with status 0, or 4 when its teardown failed |
| `InstallOutcomes.RefusedStatus` | scripts/agent-review-install-authority.py:428-434 | after a refused rename it is NOT_PUBLISHED, with status 2 when the target exists and 3 otherwise |
| `InstallOutcomes.CrashedStatus` | scripts/agent-review-install-authority.py:421-469 | a rename whose result is not established leaves UNKNOWN and status 5 |
| `InstallOutcomes.RaisedStatus` | scripts/agent-review-install-authority.py:376-446 | an exception while preparing leaves NOT_PUBLISHED and status 3, whatever signals arrive |
| `InstallOutcomes.SignalStatus` | scripts/agent-review-install-authority.py:334-444 | a signal before the mask rules the rename out, and the status is 128 plus the first one recorded unless an exception intervenes |
| `InstallOutcomes.CancelledAtStart` | scripts/agent-review-install-authority.py:370-373 | a signal recorded during qualification ends the run with 128 plus it, before anything is created |
| `InstallOutcomes.WorkerStatus` | scripts/agent-review-install-authority.py:333-356 | a failing worker ends an otherwise calm run with its own exit code, or 128 plus the signal that killed it |
| `InstallOutcomes.TeardownIff` | scripts/agent-review-install-authority.py:447-463 | FAILED exactly when the final drain or the cleanup raised, the cleanup worker failed, or an unpublished stage is left at the end |
| `InstallOutcomes.WorkerCanFail` | scripts/agent-review-install-authority.py:405-410 | each of the three phases is reached by an undisturbed run, and its worker may exit with any code there, or a signal or an exception may come |
| `InstallOutcomes.EveryRenameEnds` | scripts/agent-review-install-authority.py:422-437 | every result of the rename has a run from the start to the report |
| `InstallOutcomes.CleanedUp` | scripts/agent-review-install-authority.py:447-463 | an unpublished run whose cleanup worker removes the stage ends COMPLETE |
| `Pagination.AcquireExact` | scripts/aiops-acquire-authoritative-checks-v2.py:300-327 | against an unchanging listing of fewer than 5000 members the acquirer returns exactly its objects, with or without an id, and it refuses any longer listing |
| `Pagination.PagesExact` | scripts/github_codex_post_ready_guard.py:517-533 | the guard's list reader returns exactly the list when it is shorter than 2000 with distinct ids, and refuses otherwise |
| `Pagination.EnvelopeExact` | scripts/github_codex_post_ready_guard.py:535-560 | the guard's envelope reader also refuses a wrong count and a non-positive id, and nothing else |
| `Pagination.PagesMeanServed` | scripts/github_codex_post_ready_guard.py:517-533 | a successful read saw, page by page, what one server holding the result would have shown, even if its pages came from different instants |
| `Pagination.AcquireIff` | scripts/aiops-acquire-authoritative-checks-v2.py:300-327 | for any responses: the acquirer returns a list exactly when the pages up to the first short one, at most 50, are all listings, and then the objects on them |
| `Pagination.PagesIff` | scripts/github_codex_post_ready_guard.py:517-533 | for any responses: the guard's list reader returns `xs` exactly when the pages up to the first short one, at most 20, are listings of objects that are together `xs`, without a repeated id |
| `Pagination.EnvelopeIff` | scripts/github_codex_post_ready_guard.py:535-560 | for any responses: the envelope reader also asks that every page declares as many members as are returned and that ids are positive |
| `Pagination.AcquireAll` | scripts/aiops-acquire-authoritative-checks-v2.py:312-327 | the page loop computes the bounded reader |
| `Pagination.PagesAll` | scripts/github_codex_post_ready_guard.py:518-533 | the page loop computes the bounded reader |
| `Pagination.EnvelopeAll` | scripts/github_codex_post_ready_guard.py:536-560 | the page loop with its running count computes the bounded reader |
| `DoubleCollect.CollectIff` | scripts/github_codex_post_ready_guard.py:712-741 | one round reports exactly what it was answered, surface by surface: the run that is canonical is the only plausible one, unchanged when read on its own, with the jobs of its attempt |
| `DoubleCollect.CollectTwice` | scripts/github_codex_post_ready_guard.py:712-744 | an answer without errors is exactly evidence both rounds agree on, for the pull request asked for |
| `DoubleCollect.Revalidate` | scripts/github_codex_post_ready_guard.py:863-878 | the second round, with its short-circuits, reports no error exactly when every surface reads the same again, and otherwise notes exactly the surfaces that do not |
| `DoubleCollect.RevalidatedIsSnapshot` | scripts/github_codex_post_ready_guard.py:712-724 | when no page returns to an earlier value, at every instant between the two rounds one atomic reading of all eight surfaces would have returned the evidence, whatever the server did, between pages included |
| `SurfaceReads.OnePageIsSnapshot` | scripts/github_codex_post_ready_guard.py:712-724 | when no surface returns and every reported listing fits on one page, the server itself held all reported surfaces at every instant between the rounds |
| `SurfaceReads.LongListingBreaks` | scripts/github_codex_post_ready_guard.py:863-888 | for any evidence with a listing that does not fit on one page, a server whose surfaces never return makes both rounds agree on it and shows it at no instant |
| `SurfaceReads.TrustworthyIff` | scripts/github_codex_post_ready_guard.py:712-888 | revalidated evidence is a snapshot on every server whose surfaces never return if and only if its listings fit on one page each |
| `DoubleCollect.FlippingBreaksSnapshot` | scripts/github_codex_post_ready_guard.py:863-878 | without the no-return assumption agreeing twice proves nothing: a history where no instant shows the reported values |
| `ReviewGuard.BindSummaries` | scripts/github_codex_post_ready_guard.py:612-684 | the summary loop returns one summary per Codex comment and binds each exactly when, and to what, the surfaces say |
| `ReviewGuard.BindingIff` | scripts/github_codex_post_ready_guard.py:641-683 | when a comment must be bound, and to what: no pending review, requesters known, a completion row for the head that answers the latest request or else the latest Ready event, nobody at work since, and a round ended by one terminal review in time or by no review and one new thumbs-up |
| `GuardVerdicts.VerdictIff` | scripts/github_codex_post_ready_guard.py:338-485 | each verdict of the evaluator on any evidence, with its exact condition |
| `GuardVerdicts.BoundRechecks` | scripts/github_codex_post_ready_guard.py:440-462 | whatever was bound passes every recheck unless the summary was updated before its review |
| `GuardVerdicts.AgreementIff` | scripts/github_codex_post_ready_guard.py:415-485 | past the gates, the evaluator accepts what the binder bound exactly when one Codex comment, and no other, is bound with a completion text and is not older than its review |
| `GuardVerdicts.ReadyMeans` | scripts/github_codex_post_ready_guard.py:338-485 | a positive verdict shows an open pull request with the expected subject, no pending review, no open finding and one Codex comment completing the latest round |
| `RequiredChecks.RequiredChecksPass` | scripts/github_codex_post_ready_guard.py:216-273 | the nested loops decide whether every required name passes; the closing test on bound runs can never fail |
| `RequiredChecks.JobBindingIff` | scripts/github_codex_post_ready_guard.py:929-937 | a check is tied to a job exactly when one job has both its id and its name and no other job has either |
| `RequiredChecks.PassingIff` | scripts/github_codex_post_ready_guard.py:216-273 | collector and evaluator together pass exactly when the canonical run matches the subject and succeeded and every required name has, in the raw listings, one check run of its suite tied to one job of its attempt, both green for the head |
| `RequiredChecks.EarlyVerdictIff` | scripts/github_codex_post_ready_guard.py:226-236 | the verdicts that come before any check: nothing required or trusted, or a canonical run with an id that is none |
| `RequiredChecks.ForeignSuitesIgnored` | scripts/github_codex_post_ready_guard.py:238-247 | check runs of other suites, whatever their names and outcomes, never change the verdict |
| `RequiredChecks.DuplicateChecksFail` | scripts/github_codex_post_ready_guard.py:248-249 | a second check run of the canonical suite under a required name fails the test, however green |
| `GuardedSnapshot.ReadyIff` | scripts/github_codex_post_ready_guard.py:338-485 | the guard's verdict on reported evidence is Ready exactly when its surfaces show the open subject, the sole completed round, no open finding and every required check attested |
| `GuardedSnapshot.ReadyAtOneInstant` | scripts/github_codex_post_ready_guard.py:708-925 | a Ready verdict on revalidated evidence holds at one instant: one atomic reading of the server shows the pull request open, the completed round with its review or reaction, nothing pending and every required check attested |
| `GuardedSnapshot.ReadyHeldByServer` | scripts/github_codex_post_ready_guard.py:708-925 | the same when all that is known is that no surface returns, for evidence whose listings fit on one page |
| `SnapshotJoin.BuildObservations` | scripts/aiops-acquire-authoritative-checks-v2.py:595-670 | the join loops refuse exactly a suite claimed twice or an attributed check with a field missing, and otherwise observe the attributed checks in order |
| `SnapshotJoin.AttributionIff` | scripts/aiops-acquire-authoritative-checks-v2.py:613-670 | an observation is in the snapshot exactly when some listed check and some listed run claiming its suite make it |
| `SnapshotJoin.PayloadOrderIrrelevant` | scripts/aiops-acquire-authoritative-checks-v2.py:595-670 | however the two listings are ordered, the join refuses alike and selection picks the same record or refuses for the same reason |
| `SnapshotJoin.GreenIsGrounded` | scripts/aiops-acquire-authoritative-checks-v2.py:595-670 | a green verdict comes from a listed successful check in a run that alone claims its suite, and every rival check is of an earlier attempt of that run or of a run that started before it |
| `CiSelection.SelectIff` | app/agent_review/authoritative_ci_snapshot_v2.py:311-375 | the chosen record is the sole highest attempt of the sole run holding the latest start |
| `CiSelection.RejectedIff` | app/agent_review/authoritative_ci_snapshot_v2.py:338-373 | when evidence is missing, stale or ambiguous, exactly |
| `CiSelection.OrderIndependent` | app/agent_review/authoritative_ci_snapshot_v2.py:311-375 | reordering the evidence gives the same record or the same refusal |
| `CiSelection.VerdictBlind` | app/agent_review/authoritative_ci_snapshot_v2.py:311-375 | changing statuses and conclusions never changes which record wins or why none does |
| `CiSelection.OlderRunsIgnored` | app/agent_review/authoritative_ci_snapshot_v2.py:350-375 | records of another run that started strictly earlier never change a successful choice, whatever their attempt |
| `CiSelection.VerdictIff` | app/agent_review/authoritative_ci_snapshot_v2.py:378-397 | a check is green, or red, exactly when the winning record itself completed so |
| `RouteCascade.RouteIffTrace` | app/agent_review/_router_receipt_v2.py:259-323 | a route validates exactly when it is the trace of a cascade of at most 64 fresh targets that records a failure code per failed try and stops at its first selection |
| `RouteCascade.AttemptsDetermineRoute` | app/agent_review/_router_receipt_v2.py:305-322 | transitions are a function of the attempts |
| `RouteCascade.ExecutionUnique` | app/agent_review/_router_receipt_v2.py:291-323 | a route records exactly one execution |
| `RouteCascade.TransitionMeans` | app/agent_review/_router_receipt_v2.py:305-322 | every accepted transition leads to the next attempt for the reason the last one failed, and is a model fallback exactly when the provider stays, the model then changing |
| `RouteCascade.ReceiptUsageIff` | app/agent_review/_router_receipt_v2.py:363-384 | receipt usage, scope by scope: it adds up, and covers at most what the selecting try made or exactly what the machine spent over all tries; single-attempt usage is refused |
| `GitBatch.AdmittedIff` | scripts/verify-agent-review-standalone-closure.py:231-254 | admitted paths are exactly clean components joined by single slashes, without a backslash or white space at either end |
| `GitBatch.OverlapIff` | scripts/verify-agent-review-standalone-closure.py:231-261 | for admitted paths, component overlap is: equal, or one an ancestor directory of the other |
| `GitBatch.OverlapNamed` | scripts/verify-agent-review-standalone-closure.py:256-261 | for any two paths overlap is: both name something, and the components of one begin those of the other |
| `GitBatch.BatchRoundTrip` | scripts/verify-agent-review-standalone-closure.py:473-490 | decoding undoes printing for any blobs, newlines included, and stops where their output stops |
| `GitBatch.NoBlobStops` | scripts/verify-agent-review-standalone-closure.py:473-487 | a line that announces no blob, such as `<sha> missing`, ends the decoding incomplete at any position among printed blobs |
| `GitBatch.MissingStops` | scripts/verify-agent-review-standalone-closure.py:480-487 | in particular git's `<sha> missing` line does, whatever follows it |
| `GitBatch.CutStream` | scripts/verify-agent-review-standalone-closure.py:473-490 | wherever git's output is cut, the loop delivers the blobs whose header line arrived, the last as short as the cut left it |
| `GitBatch.CutAcceptedIff` | scripts/verify-agent-review-standalone-closure.py:473-490 | a cut output is accepted if and only if the last header line arrived, and accepted with the right contents if and only if all but the final newline did |
| `GitBatch.ExtractionCutIff` | scripts/verify-agent-review-standalone-closure.py:461-501 | the same for the whole extraction: when it reports success, and when the files it wrote are the declared ones |
| `GitBatch.Scan` | scripts/verify-agent-review-standalone-closure.py:419-458 | the scan refuses exactly when a declared record overlaps a forbidden surface or has a forbidden mode, and otherwise selects the declared records in order |
| `GitBatch.Extract` | scripts/verify-agent-review-standalone-closure.py:419-501 | a refused tree record means no file was written; otherwise exactly the files of the decoded contents are, and success is reported when all were decoded |
| `GitBatch.ExtractionFaithful` | scripts/verify-agent-review-standalone-closure.py:461-499 | with git's own output every declared record is written with its path, content and executable bit |
| `LaneReceipt.RunLanes` | scripts/local_validation.py:155-186 | the lane loop with its overwrites and breaks computes the receipt |
| `LaneReceipt.PassedIff` | scripts/local_validation.py:107-183 | PASSED exactly when the tree started clean, every command exited 0 in time with the subject unmoved, every lane left the report it needs, each test lane executed as many cases as it collected, and the ordinary collection is divided between the other two |
| `LaneReceipt.TroubleStatus` | scripts/local_validation.py:107-186 | a run with a lane out of order ends at the first such lane, with the status its cause calls for |
| `LaneReceipt.OrderlyStatus` | scripts/local_validation.py:155-186 | a run with every lane in order ends by the dirty tree, an unusable re-read collection, or the comparison of the three |
| `LaneReceipt.RecordMeans` | scripts/local_validation.py:89-118 | what the receipt records of each lane it reached |
| `LaneReceipt.PassedConserves` | scripts/local_validation.py:172-183 | then each ordinary test is in exactly one of the two lanes and the sizes add up |
| `LaneReceipt.CountsAddUpIff` | scripts/local_validation.py:164-183 | the executed case counts of every PASSED run that keeps a set of reports add up if and only if the three compared reports are in the set |
| `LaneReceipt.RewrittenReportPasses` | scripts/local_validation.py:164-183 | for each of the three reports a run that ends PASSED, rewrites only that one, and has counts that do not add up |
| `FindingRank.RankFindings` | scripts/github_agent_review.py:1077-1099 | the grouping loop, sort, filter and cap compute the ranking |
| `FindingRank.GroupLists` | scripts/github_agent_review.py:1071-1094 | each group is the first finding with its key, except that its related files also list the files of the later ones and its metadata goes when there is one; from scanners, a duplicate-free list of exactly the files reported |
| `FindingRank.GroupOrdered` | scripts/github_agent_review.py:1077-1094 | one group per rule, severity and recommendation, in the order they were first reported |
| `FindingRank.RankExact` | scripts/github_agent_review.py:1063-1099 | the ranking is the first five eligible groups by severity, file and rule, those that sort alike in the order of the groups |
| `FindingRank.VerdictKeptIff` | scripts/github_agent_review.py:1095-1117 | merging and capping leave the review status unchanged exactly unless a P0 is reported with a P2 and without a P1 |
| `FindingRank.RankIdempotent` | scripts/github_agent_review.py:1077-1099 | ranking a ranked list changes nothing, whatever the severities |
| `FindingRank.CapKeepsFirst` | scripts/github_agent_review.py:1095-1099 | a dropped group is neither P1 nor P2 while one of those was reported, or five are kept and each sorts no later |

## Left out

- MountLocality.Locality: assumes the path is not of the double-slash kind and, for subtree queries, that the mount points below the path normalise to places above or below it; `MountAnswers.LocalityExact` and `MountDetour.SubtreeLocalityIff` show that this is exactly what is needed.
- DoubleCollect.RevalidatedIsSnapshot: assumes that no page answer returns to an earlier value and no page is longer than requested, which is more than no listing returning; `SurfaceReads.TrustworthyIff` says for which evidence the weaker assumption is enough, and `DoubleCollect.FlippingBreaksSnapshot` shows that some assumption is needed.
- The guard's dispositions of findings and the contents comparison behind them enter `ReviewGuard` as a count of open findings.
- InstallTransaction is a step machine on values rather than a class with methods, because signals must be able to arrive between any two of its steps; polling delays and deadlines are not timed, so an idle poll may repeat for ever; everything else a run does is bounded by `InstallTransaction.MovesBounded`.
- The install authority's subreaper and procfs qualification, the three worker programs and its printed messages are not modelled; system calls are steps with each of their outcomes.
- Parsing of `/proc/self/mountinfo`, of GitHub payloads, JSON, JUnit and git tree records: the model starts from the parsed values. A size in a batch header is plain decimal digits, as git prints it; Python's `int` would also accept signs and underscores.
- Regular expressions, body-text tests, commit resolution and case folding of logins are opaque functions of the binder and evaluator.
- Whitespace in path admission is the ASCII whitespace of `str.strip`; the wider Unicode spaces are not modelled.
- Times and run start times are a totally ordered domain; no claim is made that the order is chronological.
- The observation fields that selection never reads, the producer attestations, the receipt's digests and metadata, and the final review bundle are straight-line field copies and checks. How a workflow ref is derived from a run is an input of the join.
- `ReviewGuard` reads well-shaped evidence; malformed shapes are refused before it.
