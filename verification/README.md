# Standards Control Plane: verified core

This project models the parts of the Standards Control Plane that keep state over
many calls, and the algorithms that must agree with a plain definition, and proves
what they promise. Each module follows one part of the system.

| file | part of the system |
|---|---|
| `Findings.dfy`, `MergeLaws.dfy`, `FindingsLaws.dfy` | reconciliation of two persisted findings stores with one audit: the code, when stores merge, what reconciling does |
| `StoreLaws.dfy`, `Refusals.dfy` | the stamp, version and order the stores carry, over runs and on disk; which refusal an input gets |
| `Waivers.dfy`, `RoundLaws.dfy` | active waivers, the assembly of an audit, runs of audits over time, and what a round does to each stored finding |
| `Publication.dfy` | writing several files as one: stage, back up, replace, roll back |
| `Persistence.dfy` | the findings stores on disk: load, reconcile, publish |
| `Portfolio.dfy` | the append-only portfolio history and its trend |
| `ControlTower.dfy`, `ControlTowerLaws.dfy` | subsystem files and the estate dashboard rebuilt from them; what runs of writes keep, and what the summary counts |
| `Proposals.dfy`, `ProposalChecks.dfy`, `ProposalNames.dfy` | the locked proposal queue: one call, its two checks against what they are for, and file names as texts |
| `ProposalAnswers.dfy`, `ProposalReplies.dfy` | every answer of a call, exactly, and over whole runs from the answers before it |
| `ProposalLaws.dfy`, `ProposalRuns.dfy` | what a call leaves, and whole runs |
| `ProposalBursts.dfy`, `ProposalCaps.dfy`, `ProposalTiming.dfy` | runs on which the caps of the checks bite, and the limit in true time |
| `AuditCache.dfy` | the LRU and expiry cache of completed audits |
| `Globs.dfy`, `GlobTexts.dfy` | the memoised `**` matcher, and what globs and paths mean as texts |
| `AuthTerms.dfy`, `AuthContract.dfy`, `AuthSignals.dfy` | the terms of SVC-003, its auth-contract evaluator, and what each signal takes |
| `AuthRule.dfy`, `FindingIds.dfy` | the rule the evaluator stands for, and the ids of its findings |
| `RepoPaths.dfy`, `Text.dfy` | the lexical path resolver |
| `Ordering.dfy` | string order, stable sort, and facts about sequences and sets |

Code that works step by step is a method with a loop, or a class whose methods
change its fields (`FileSystem`, `ProposalQueue`, `Cache`, `Matcher`). Each is proved
equal to a specification function, and the laws are proved about that function for
every input and every run. A law says in its own terms what the code computes in
another way: counts are sizes of sets, forms of texts are said by their parts, and
file names and limits stand as they are written. The outside world (failing replaces,
git, time, other callers) appears as parameters: `FileSystem` methods take where
staging stops and the index of the write whose replacing or restoring fails and of the
unlink that does, and a proposal call takes an `Env` that says which of its steps
fail.

## What the code does not promise

Some expectations turned out not to hold of the code. Each has a lemma that says
exactly when the code meets it, and an input on which it does not.

* A rollback that is itself interrupted leaves a mixture, and the backups are removed
  all the same, so the old contents are lost: `Publication.AllOrNothingExact` says the
  write is all-or-nothing exactly when no replace fails, or every write it leaves in
  place, from the failing restore up to the failing replace, was idle (its target
  already held what it writes), or every other write was. Where no write is idle that
  means: no replace fails or the restores get as far as the replaces did
  (`Publication.AllOrNothingOfNew`). For the three publications of the program that is
  spelt out file by file (`StoreLaws.InterruptedPair`, `Portfolio.InterruptedReport`,
  `ControlTowerLaws.InterruptedUpdate`).
* A fault during staging leaves every target alone but leaks the temporaries made so
  far, the unfinished one included. Nothing is leaked exactly when the fault comes
  before the first temporary exists. And an unlink that raises while cleaning up is
  reported as a failure although the files are in place:
  `Publication.FileSystem.WriteArtifactsAtomic`.
* Whether stored records merge depends on their order
  (`MergeLaws.MergeAcceptanceDependsOnOrder`); what they merge to does not
  (`MergeLaws.MergeOrderIrrelevant`). A list merges exactly when each record can be
  decided against the latest of its id before it (`MergeLaws.MergeExact`); every order
  merges exactly when any two records of one id can be decided
  (`MergeLaws.EveryOrderMergesExactly`), and some order does exactly when each id has a
  record that beats or is every other and can be decided against it
  (`MergeLaws.SomeOrderMergesExactly`).
* The proposal checks look at the 2048 highest numbers only, and the duplicate index
  at 1024 hashes. `ProposalChecks.RateExact` and `ProposalChecks.DuplicateExact` say
  exactly whom they refuse; `ProposalCaps.LimitMissed` and `ProposalCaps.RepeatMissed`
  are runs from the empty queue in which more than ten proposals of one caller, and a
  body twice, are accepted in one second.
* The proposal limit holds of recorded, whole-second stamps. In true time it holds of
  every hour less a second (`ProposalTiming.AtMostTenButASecond`), not of every hour:
  `ProposalTiming.RefusedByArrivals` gives the exact count, and
  `ProposalTiming.EleventhWithinAnHour` a run of eleven acceptances within the hour.
* The SVC-003 evaluator and its rule differ both ways, and `AuthRule.EntryExactly`,
  `AuthRule.ContractExactly` and `AuthRule.ManifestExactly` say exactly how. It passes
  what the rule does not where a declaration is not `Careful`: it compares no audience
  with the service's key, checks the form of a value only if it is a string and of a
  URL only by a pattern, reads dates without dashes, compares close dates with the date
  of the standards and not of the run, does not look up an empty waiver reference or
  any waiver when the register does not load, looks at no other field of the contract,
  passes over services without a runtime contract, and takes `Planned` for `planned`
  (`AuthRule.WrongAudiencePasses`, `CompactDatePasses`, `LapsedDatePasses`,
  `UnreadableRegisterPasses`, `NullMetadataPasses`, `UnexaminedPasses`,
  `CapitalStatusPasses`). It reports what meets the rule where a declaration is not
  `Narrow`: it allows each mode only its own fields, which the schema does not, knows
  only URLs that start in lower case, and asks that close dates lie after the date of
  the standards too (`AuthRule.ForeignFieldReported`, `CapitalSchemeReported`,
  `EarlyRunReported`).
* Findings of one manifest can share an id, because service names and mode names are
  free text joined with dashes: `FindingIds.IdsDifferExactly` says when, over every
  manifest. Modes declared twice whose names end alike clash
  (`FindingIds.UnknownModesCollide`), and so can two services
  (`FindingIds.SpillClashes`). While only approved modes are declared twice nothing
  clashes (`FindingIds.ApprovedNeverClash`). Reconciliation refuses an audit with two
  different findings under one id (`FindingsLaws.ConflictingIdsRejected`).
* A pattern matches some path exactly when each segment other than `**` takes some
  non-empty text (`Globs.MatchesSomePathExactly`); one with an empty segment, such as
  a pattern that ends in a slash, matches nothing (`Globs.EmptySegmentMatchesNothing`).

## Model

| member | source | states |
|---|---|---|
| Findings.MergeExistingStores | src/standards_control_plane/findings.py:309-324 | the two loops over history and open fold the records with the pairwise rule and stop at the first disagreement |
| Findings.DeduplicateAuditFindings | src/standards_control_plane/findings.py:327-347 | keeps the first of equal records in order; fails on another status, a reused scope or a conflicting payload, whichever comes first |
| Findings.OverlayAudit | src/standards_control_plane/findings.py:386-399 | overlays the audit on the merged records, keeping earlier birthdays, failing on an unevaluated domain or another scope |
| Findings.ResolveUnreported | src/standards_control_plane/findings.py:401-414 | rewriting the dict while iterating resolves exactly the unreported records in scope |
| Findings.ReconcileFindings | src/standards_control_plane/findings.py:350-431 | the whole reconciliation equals its specification, errors in the same order, records sorted by domain, area and id |
| MergeLaws.MergeKeepsGreatest | src/standards_control_plane/findings.py:289-324 | every id survives the merge with a record that beats all others of that id, in one scope |
| MergeLaws.MergeOrderIrrelevant | src/standards_control_plane/findings.py:309-324 | two accepted merges of the same records give the same table |
| MergeLaws.MergeAcceptanceDependsOnOrder | src/standards_control_plane/findings.py:289-306 | three records of one id merge in one order and raise in another |
| MergeLaws.MergeExact | src/standards_control_plane/findings.py:289-324 | records merge in their order, repeated ids included, exactly when each can be decided against the leading one of its id before it: same scope, and equal, differently stamped, or one of the two open |
| MergeLaws.EveryOrderMergesExactly | src/standards_control_plane/findings.py:289-324 | every order of the records is accepted exactly when any two of one id can be decided |
| MergeLaws.SomeOrderMergesExactly | src/standards_control_plane/findings.py:289-324 | some order is accepted exactly when each id has a record that beats or is every other of it and can be decided against each |
| FindingsLaws.MergePairExact | src/standards_control_plane/findings.py:289-324 | stores without repeated ids merge exactly when each shared id is decidable: equal, differently stamped, or one of them open |
| FindingsLaws.DedupExact | src/standards_control_plane/findings.py:327-347 | deduplication succeeds exactly when all findings are open or waived and same ids mean same payloads; it then indexes exactly the findings |
| FindingsLaws.OverlayExact | src/standards_control_plane/findings.py:386-399 | the overlay succeeds exactly when every domain is evaluated and no scope is reused, and says what each id then holds |
| FindingsLaws.ReconcileExact | src/standards_control_plane/findings.py:350-431 | which inputs are accepted, exactly, in terms of their records alone, and the one table the two stores then list |
| FindingsLaws.ConflictingIdsRejected | src/standards_control_plane/findings.py:339-345 | an audit with two payloads under one id is refused whatever the stores hold |
| FindingsLaws.CoherentAccepts | src/standards_control_plane/findings.py:350-431 | a coherent pair accepts exactly the valid audits that keep to evaluated domains and to the scopes on record |
| FindingsLaws.CoherentMerge | src/standards_control_plane/findings.py:309-324 | on a coherent pair the merge is the history table and never raises |
| FindingsLaws.ReconcileMovesEveryIdByOneRule | src/standards_control_plane/findings.py:383-427 | every id moves by exactly one of three rules, and the result is a coherent pair |
| FindingsLaws.ReconcileIdempotent | src/standards_control_plane/findings.py:350-431 | reconciling the result with the same audit returns the same two stores |
| FindingsLaws.ReconcileIgnoresFindingOrder | src/standards_control_plane/findings.py:350-431 | permuting or repeating the audit's findings changes neither acceptance nor the stores |
| FindingsLaws.RunKeeps | src/standards_control_plane/findings.py:350-431 | over every run of audits, refused ones included: coherence, no id lost, no domain, area or birthday changed |
| StoreLaws.StoresCarry | src/standards_control_plane/findings.py:364-427 | both stores carry the audit's stamp and the version of the stores given, "0.1.0" if none is |
| StoreLaws.RunCarries | src/standards_control_plane/findings.py:350-431 | over every run the stores keep their version and carry the stamp of the last accepted audit |
| StoreLaws.AttemptsCarry | src/standards_control_plane/findings.py:507-534 | and so do the two files on disk, with that of the last audit accepted and published |
| StoreLaws.GivenSurvive | src/standards_control_plane/findings.py:309-324 | every record of either store given survives under its id and scope, and nothing is kept that was neither given nor reported |
| StoreLaws.ListedInOrder | src/standards_control_plane/findings.py:416-427 | history lists by domain, area and id, each id once, and the open store exactly its open records in that order |
| Refusals.RefusalExact | src/standards_control_plane/findings.py:282-399 | which refusal an input gets, exactly: the first stage at fault, and in it the first record at fault, by kind and id |
| Refusals.DiskVersionsRefused | src/standards_control_plane/findings.py:248-279 | on disk the versions are refused exactly when there is an open store of another version than the history's, or than "0.1.0" without one |
| Waivers.SelectActiveWaivers | src/standards_control_plane/waivers.py:90-106 | the loop equals its specification, failing at the first second active waiver of a finding |
| Waivers.SelectExact | src/standards_control_plane/waivers.py:90-106 | fails exactly when two unexpired waivers name one finding; otherwise knows exactly the findings an unexpired waiver names |
| Waivers.SelectShrinks | src/standards_control_plane/waivers.py:90-106 | with time the active set only shrinks, and a list once unambiguous stays so |
| Waivers.SelectFaultExact | src/standards_control_plane/waivers.py:100-105 | the finding named by a failure is that of the first waiver to be the second for its finding |
| Waivers.ApplyWaivers | src/standards_control_plane/audit.py:104-119 | marks exactly the named findings waived and reports exactly the waivers used |
| AuditRuns.BuildAuditResult | src/standards_control_plane/audit.py:178-259 | the loop over the requested domains assembles status and findings as specified |
| AuditRuns.AuditReportsExactly | src/standards_control_plane/audit.py:207-235 | the audit reports exactly what the evaluators report, adjusted for waivers; sorting and grouping lose and invent nothing |
| AuditRuns.LatestAuditDecides | src/standards_control_plane/audit.py:104-119 | a finding the latest persisted audit reports is waived in history exactly when an unexpired waiver names it, else open |
| AuditRuns.ExpiredWaiverReopens | src/standards_control_plane/waivers.py:90-106 | with rising timestamps, once its waiver has expired a finding is open after every later audit that reports it |
| AuditRuns.WaiversOnlyLapse | src/standards_control_plane/waivers.py:90-106 | over such a run selection keeps succeeding, on fewer and fewer findings |
| AuditRuns.RoundsKeepCoherence | src/standards_control_plane/audit.py:178-259 | runs of audits built with waivers keep the store pair coherent and every identity |
| RoundLaws.RoundAccepted | src/standards_control_plane/audit.py:178-259 | which rounds are persisted, exactly, in terms of what is reported, the waivers and the scopes on record |
| RoundLaws.RoundMoves | src/standards_control_plane/audit.py:207-256 | a reported finding takes the round's stamp, a stored one nobody reports is resolved with it if it is of the round's area and of a requested, implemented domain, and every other stays |
| RoundLaws.RoundsDecide | src/standards_control_plane/audit.py:178-259 | over every run of rounds each finding is as the last round that moved it left it |
| RoundLaws.AuditSorted | src/standards_control_plane/audit.py:80-87 | an audit lists its findings gravest first, equally grave ones by id |
| Publication.FileSystem.WriteArtifactsAtomic | src/standards_control_plane/estate_reporting.py:85-107 | for any fault in staging, before or after a temporary exists, the targets are untouched and exactly when nothing is leaked; for any fault in replacing or restoring the exact file map and outcome; and exactly when an unlink that would raise is reached |
| Publication.FileSystem.StageAll | src/standards_control_plane/estate_reporting.py:50-91 | targets untouched; staged files hold the new contents and backups the old ones; stopped in either step, it leaves what was made so far |
| Publication.FileSystem.ReplaceAll | src/standards_control_plane/estate_reporting.py:93-95 | replaces up to the failing one, with every backup intact |
| Publication.FileSystem.RestoreTargets | src/standards_control_plane/estate_reporting.py:96-102 | puts back or removes each target in turn, up to a failing restore |
| Publication.FileSystem.CleanUp | src/standards_control_plane/estate_reporting.py:103-107 | removes every temporary of this write and nothing else, or those before the one whose unlink raises |
| Publication.FileSystem.WritePair | src/standards_control_plane/findings.py:469-504 | the two-file variant, which stages both files before it backs up either, stops, publishes, rolls back or fails to clean up as the general one |
| Publication.OutsideIsCourse | src/standards_control_plane/estate_reporting.py:85-107 | whatever happens while staging or cleaning up only adds unnamed files to the map, as the runs take it |
| Publication.RollbackIsExact | src/standards_control_plane/estate_reporting.py:93-102 | if the restores succeed, a failed write leaves the file map exactly as before, wherever it failed |
| Publication.AllOrNothingExact | src/standards_control_plane/estate_reporting.py:93-107 | for distinct targets, all-or-nothing exactly when no replace fails, or every write from the failing restore up to the failing replace was idle, or every other was |
| Publication.AllOrNothingOfNew | src/standards_control_plane/estate_reporting.py:93-107 | when no write is idle: exactly when no replace fails or the restores reach as far as the replaces |
| Publication.FailedAt | src/standards_control_plane/estate_reporting.py:93-102 | what each target holds after a failed write |
| Publication.AppliedAt | src/standards_control_plane/estate_reporting.py:93-95 | of several writes to one target the last one counts |
| Persistence.PersistAuditFindings | src/standards_control_plane/findings.py:507-534 | loads, reconciles and publishes; a refused audit stages and writes nothing and has no outcome, a stopped one leaves both files |
| Persistence.LoadRoundTrip | src/standards_control_plane/findings.py:257-279 | loading a coherent pair returns the pair that was written |
| StoreLaws.DiskReadsAs | src/standards_control_plane/findings.py:257-279 | a store is read as it is in its file, in store order; a missing one as empty, with the stamp of the audit and the version of the history or "0.1.0" |
| StoreLaws.InterruptedPair | src/standards_control_plane/findings.py:482-504 | an interrupted rollback can leave the new open store beside the old history, and never the other way round |
| Persistence.AttemptsKeep | src/standards_control_plane/findings.py:507-534 | over every run, refused, stopped and rolled-back attempts included, the files stay a coherent pair and no identity is lost |
| Persistence.PersistIdempotent | src/standards_control_plane/findings.py:507-534 | persisting the same audit again leaves the files as they are |
| Portfolio.BuildPortfolioHistory | src/standards_control_plane/estate_reporting.py:236-258 | appends the snapshot unless the last one has its signature |
| Portfolio.BuildPortfolioTrend | src/standards_control_plane/estate_reporting.py:261-288 | the delta is taken against the last snapshot before this report, the count after it |
| Portfolio.WriteMultiRepoOutputs | src/standards_control_plane/estate_reporting.py:318-343 | the three files are written together, from the history found on disk, or left alone |
| Portfolio.HistoryIsAppendOnly | src/standards_control_plane/estate_reporting.py:236-258 | over every run the history only grows, at most one a report, with no two adjacent new snapshots of equal signature |
| Portfolio.DeltasTelescope | src/standards_control_plane/estate_reporting.py:219-233 | over every run the published deltas add up to the difference of the end snapshots |
| Portfolio.FilesAgree | src/standards_control_plane/estate_reporting.py:318-343 | after any run that published, dashboard, history and trend on disk agree |
| Portfolio.ReportLeaves | src/standards_control_plane/estate_reporting.py:204-288 | a published report appends exactly when the repositories or some count differ from the last snapshot's, whatever the dates, and its trend compares every count with that snapshot |
| Portfolio.InterruptedReport | src/standards_control_plane/estate_reporting.py:336-342 | which of the three files an interrupted rollback leaves new |
| ControlTower.WorstScore | src/standards_control_plane/control_tower.py:147-220 | the least score, or 100 without scores |
| ControlTower.BuildSubsystemDashboard | src/standards_control_plane/control_tower.py:124-220 | the entry counts the area's open findings and its status follows the thresholds in both directions |
| ControlTower.LoadExisting | src/standards_control_plane/control_tower.py:298-336 | reads exactly the other subsystems' files, in whatever order |
| ControlTower.WriteControlTowerOutputs | src/standards_control_plane/control_tower.py:298-336 | writes the surface, the subsystem file and a dashboard of exactly the entries in the directory, coherent or not; fails exactly if some other file there is no entry |
| ControlTowerLaws.StatusesPartition | src/standards_control_plane/control_tower.py:231-259 | healthy, monitor and attention-required add up to the number of subsystems |
| ControlTower.DashboardUnique | src/standards_control_plane/control_tower.py:231-259 | the dashboard does not depend on the order the files are read in |
| ControlTower.StemsAndPaths | src/standards_control_plane/control_tower.py:46-47 | every subsystem file name decodes to one subsystem and back |
| ControlTowerLaws.DashboardStays | src/standards_control_plane/control_tower.py:298-336 | once a write has gone through there is a dashboard |
| ControlTowerLaws.UpdatesKeepCoherence | src/standards_control_plane/control_tower.py:231-336 | over every run, stopped and rolled-back writes included, the dashboard lists exactly the subsystem files by name, and its summary counts those files, those of each status under its name, and the open findings, grave ones and warnings they count |
| ControlTowerLaws.TotalsMove | src/standards_control_plane/control_tower.py:231-259 | when one file is added or replaced each total moves by what that file counted before and counts now; an empty directory counts nothing |
| ControlTowerLaws.RunLeaves | src/standards_control_plane/control_tower.py:298-336 | after every run each subsystem's file is the last entry written for it, and surface and dashboard carry the stamp of the last write |
| ControlTowerLaws.InterruptedUpdate | src/standards_control_plane/control_tower.py:325-335 | an interrupted rollback can leave surface and subsystem file new, never the dashboard |
| Proposals.IterExistingProposals | src/standards_control_plane/mcp_server/tools.py:904-943 | lists, sorts by number, caps, reads and sorts by stamp, latest first |
| Proposals.ScanFacts | src/standards_control_plane/mcp_server/tools.py:904-943 | however many files there are, the scan reads exactly the 2048 highest numbers, once each, latest first |
| ProposalNames.ListedByText | src/standards_control_plane/mcp_server/tools.py:909-922 | files are listed by number and, where that is the same, by name as text, highest first |
| Proposals.ProposalRateLimitExceeded | src/standards_control_plane/mcp_server/tools.py:961-978 | the loop with its early exits counts the whole scan |
| Proposals.NoneRecentAfter | src/standards_control_plane/mcp_server/tools.py:970-972 | the early break loses nothing, because the scan is descending |
| Proposals.RecentProposalHashes | src/standards_control_plane/mcp_server/tools.py:946-958 | keeps the latest stamp of each hash until the cap |
| Proposals.ProposalQueue.RemoveOrphanedDuplicates | src/standards_control_plane/mcp_server/tools.py:1111-1126 | removes branchless files of the hash up to a raising check, and nothing else |
| Proposals.HighestNumber | src/standards_control_plane/mcp_server/tools.py:870-877 | the greatest number of any file, 0 without files |
| Proposals.ProposalQueue.FindNumber | src/standards_control_plane/mcp_server/tools.py:1514-1527 | the search ends, at the first number from its start whose branch is free, unless a probe before it raises |
| Proposals.ProposalQueue.WriteAndBranch | src/standards_control_plane/mcp_server/tools.py:1542-1559 | exclusive create, branch, and the unlink that takes the file back |
| Proposals.ProposalQueue.ProposeImpl | src/standards_control_plane/mcp_server/tools.py:1443-1567 | one call's answer and the files and branches it leaves, for every combination of faults |
| ProposalChecks.RateExact | src/standards_control_plane/mcp_server/tools.py:961-978 | a caller is refused exactly when ten of its records of the last hour are within the scan; so refusals are always deserved, and admissions are when the scan covers the last hour |
| ProposalChecks.SmallQueueCovers | src/standards_control_plane/mcp_server/tools.py:904-918 | a queue of at most 2048 files is always scanned whole |
| ProposalChecks.DuplicateExact | src/standards_control_plane/mcp_server/tools.py:946-988 | a body is a duplicate exactly when a file of its hash is stamped in the last day, is scanned, and has fewer than 1024 different hashes read before it; so a hit is always right, and a miss is when the scan covers the last day and the index holds its hashes |
| ProposalChecks.ScanAhead | src/standards_control_plane/mcp_server/tools.py:939-943 | the sort by stamp is stable: equal stamps are read in descending order of numbers |
| ProposalCaps.RepeatMissed | src/standards_control_plane/mcp_server/tools.py:946-988 | a run from the empty queue that accepts a body twice in one second, with 1024 others between |
| ProposalCaps.LimitMissed | src/standards_control_plane/mcp_server/tools.py:904-978 | a run from the empty queue that accepts more than ten proposals of one caller in one second, with 2048 of others between |
| ProposalLaws.ClearedExact | src/standards_control_plane/mcp_server/tools.py:1111-1126 | only branchless files of the same hash go; without a fault, exactly those within the scan |
| ProposalLaws.CallExact | src/standards_control_plane/mcp_server/tools.py:1443-1567 | an acceptance adds one file and one branch of the same number, above every file's; the exclusive create never meets a file; a refused branch with a working unlink leaves neither |
| ProposalLaws.CallSteps | src/standards_control_plane/mcp_server/tools.py:1443-1567 | files go only as branchless orphans, and even a failing call adds only a file that passed both checks |
| ProposalAnswers.ClearedIsTidied | src/standards_control_plane/mcp_server/tools.py:1111-1126 | which files go, exactly, with a raising check too: the branchless ones of the hash that are read, and read before it raises |
| ProposalAnswers.AnswerExact | src/standards_control_plane/mcp_server/tools.py:1443-1567 | every answer of a call, exactly: each refusal when its turn comes and it applies, the limit before the repeat, each failure when its step fails; and the files and branches each one leaves |
| ProposalReplies.RunReplies | src/standards_control_plane/mcp_server/tools.py:1443-1567 | over every run from the empty queue on which nothing fails, however long: what a call is told follows from what the calls before it were told |
| ProposalReplies.RunAnswers | src/standards_control_plane/mcp_server/tools.py:1443-1567 | over every run, whatever fails, the last call is answered exactly so |
| ProposalLaws.AddKeepsRate | src/standards_control_plane/mcp_server/tools.py:961-978 | a record admitted by the limiter keeps every half-open hour of every caller at ten, whatever order the stamps come in |
| ProposalLaws.AddKeepsSpacing | src/standards_control_plane/mcp_server/tools.py:981-988 | a record admitted by the duplicate check keeps same-hash stamps a day apart |
| ProposalRuns.AcceptedStay | src/standards_control_plane/mcp_server/tools.py:1514-1559 | over every run accepted numbers strictly increase, and each accepted file and branch is still there unchanged |
| ProposalRuns.AtMostTenAnHour | src/standards_control_plane/mcp_server/tools.py:961-978 | over every run whose calls scan the last hour, whatever the stamps' order, no caller has more than ten acceptances stamped in any half-open hour |
| ProposalRuns.RepeatsADayApart | src/standards_control_plane/mcp_server/tools.py:946-988 | over every run whose calls see the last day, acceptances of one body are stamped at least 24 hours apart |
| ProposalRuns.ShortRunScans | src/standards_control_plane/mcp_server/tools.py:904-978 | a run that cannot outgrow 2048 files is scanned throughout |
| ProposalRuns.ShortRunIndexes | src/standards_control_plane/mcp_server/tools.py:946-988 | and one that cannot outgrow 1024 is indexed throughout |
| ProposalTiming.AtMostTenButASecond | src/standards_control_plane/mcp_server/tools.py:961-978 | over every run whose calls scan the last hour, at most ten of a caller's acceptances arrive in any hour less a second |
| ProposalTiming.RefusedByArrivals | src/standards_control_plane/mcp_server/tools.py:1529-1540 | the limit in true arrival times, exactly, for any queue |
| ProposalTiming.EleventhWithinAnHour | src/standards_control_plane/mcp_server/tools.py:1529-1540 | from the empty queue, a run of eleven calls of one caller within an hour, all accepted |
| AuditCache.Cache.Prune | src/standards_control_plane/mcp_server/tools.py:785-794 | drops the expired entries, then the oldest down to the limit |
| AuditCache.Cache.Lookup | src/standards_control_plane/mcp_server/tools.py:1373-1383 | serves an unexpired entry and moves it to the end |
| AuditCache.Cache.Store | src/standards_control_plane/mcp_server/tools.py:1431-1440 | stores at the end and prunes in the same locked step |
| AuditCache.CacheInOrder | src/standards_control_plane/mcp_server/tools.py:1373-1440 | under any interleaving of locked steps the dict is ordered by last use and holds what the latest audit of each key stored |
| AuditCache.HitServesLatestAudit | src/standards_control_plane/mcp_server/tools.py:1373-1383 | every hit is the response the latest completed audit of that key stored, unexpired at the sampled clock |
| AuditCache.CacheBounded | src/standards_control_plane/mcp_server/tools.py:1431-1440 | an insert or prune step ends within the limit |
| AuditCache.SurvivorsAreMostRecent | src/standards_control_plane/mcp_server/tools.py:785-794 | a prune drops every expired entry, and unexpired ones only when full, each used before every survivor |
| AuditCache.StaysExactly | src/standards_control_plane/mcp_server/tools.py:785-794 | what was last stored for a key is still there exactly when every prune since spared it: unexpired, and fewer than the limit unexpired ones used after it |
| AuditCache.HitsExactly | src/standards_control_plane/mcp_server/tools.py:1373-1440 | a lookup hits exactly when that is so and it has not expired at the sampled clock |
| AuditCache.KeyTextInjective | src/standards_control_plane/mcp_server/tools.py:687-701 | two audits share a key only if they agree on both commits, the root and the hint |
| Globs.MatchSegments | src/standards_control_plane/applies_to.py:159-191 | the memoised matcher decides the meaning of the pattern as written, runs no cell twice, and makes at most 1 + m(n+1)(n+2)/2 calls |
| Globs.Matcher.Match | src/standards_control_plane/applies_to.py:171-189 | every memo entry always equals the specification |
| Globs.CollapseMeans | src/standards_control_plane/applies_to.py:163-167 | collapsing runs of `**` does not change what a pattern means |
| Globs.MatchAtMeans | src/standards_control_plane/applies_to.py:171-189 | the recursive definition agrees with cutting the path into one piece for each pattern segment |
| Globs.WorkBound | src/standards_control_plane/applies_to.py:160-169 | the bound on the calls still to be made, however many `**` there are |
| Globs.GlobMatches | src/standards_control_plane/applies_to.py:148-156 | path and pattern texts are split as the code splits them, then matched |
| Globs.MatchesSomePathExactly | src/standards_control_plane/applies_to.py:148-191 | a pattern matches some path exactly when each segment other than `**` takes some non-empty text without a slash |
| Globs.EmptySegmentMatchesNothing | src/standards_control_plane/applies_to.py:148-156 | a pattern with an empty segment matches no path |
| GlobTexts.GlobTextExactly | src/standards_control_plane/applies_to.py:148-156 | what a pattern's text means: "**" takes any path, another text without a slash one segment, and a slash divides |
| GlobTexts.AnyBetween | src/standards_control_plane/applies_to.py:148-156 | "**" between two patterns leaves out any number of segments |
| GlobTexts.PathTextExactly | src/standards_control_plane/applies_to.py:154 | the segments of a path's text: slashes of either kind separate, empty segments are none |
| AuthContract.EntryFindings | src/standards_control_plane/evaluators/service_lifecycle.py:630-945 | one entry yields exactly the signals it earns, each once; the early continues lose nothing |
| AuthContract.ScanEntries | src/standards_control_plane/evaluators/service_lifecycle.py:627-945 | the loop's findings, declared modes and duplicates are exactly those of the whole list |
| AuthContract.ModeMarkerHits | src/standards_control_plane/evaluators/service_lifecycle.py:271-285 | a mode has hits exactly when some scanned file holds one of its markers |
| AuthContract.ContractFindings | src/standards_control_plane/evaluators/service_lifecycle.py:509-1045 | one contract yields exactly the signals it earns, each once |
| AuthContract.Svc003Findings | src/standards_control_plane/evaluators/service_lifecycle.py:489-1045 | over all services, exactly the examined ones' signals |
| AuthContract.SilentExactlyWhenConformant | src/standards_control_plane/evaluators/service_lifecycle.py:509-1045 | no signal exactly when the contract is conformant: sound, complete, distinct entries that declare what the code implements |
| AuthContract.ServiceSilentExactly | src/standards_control_plane/evaluators/service_lifecycle.py:489-1045 | no finding exactly for a planned service, one without runtime contract, or a conformant one |
| AuthContract.BareAppIdExactly | src/standards_control_plane/evaluators/service_lifecycle.py:67 | a bare app id is words of lower-case letters and digits joined with dashes, starting with a letter |
| AuthContract.HttpUrlExactly | src/standards_control_plane/evaluators/service_lifecycle.py:68 | a key URL is something without white space behind `http://` or `https://` |
| AuthContract.MarkersAreSigns | src/standards_control_plane/evaluators/service_lifecycle.py:35-53 | the markers of each mode are the signs listed for its name |
| AuthSignals.CallsExactly | src/standards_control_plane/evaluators/service_lifecycle.py:509-1045 | each signal on its own: which contract earns it, by the names and forms as they are written |
| AuthSignals.ServiceCallsExactly | src/standards_control_plane/evaluators/service_lifecycle.py:167-179 | and which service: one not planned, in whatever case, with a runtime contract |
| AuthRule.AudienceReported | src/standards_control_plane/evaluators/service_lifecycle.py:787-817 | an audience is reported exactly in an entry of a verified mode with both its fields, where it is a string and no bare app id |
| AuthRule.AllModesService | src/standards_control_plane/evaluators/service_lifecycle.py:489-1045 | a service that declares every mode with fitting values meets the rule and is not reported |
| AuthRule.OmniServicePasses | fixtures/svc-conformant-all-modes/services.yml:2-25 | so the fixture's is not |
| AuthRule.EntryExactly | standards/service-lifecycle/rules/SVC-003-auth-contract.md:46-94 | an entry the evaluator finds sound meets the rule exactly when it is careful, and one that meets the rule is found sound exactly when it is narrow |
| AuthRule.ContractExactly | schemas/auth-contract.schema.json:1-90 | the same for a whole contract, which by the schema holds nothing but its list |
| AuthRule.ServiceExactly | standards/service-lifecycle/rules/SVC-003-auth-contract.md:8-125 | a service the evaluator is silent about meets the rule exactly when it is careful, and it is silent about one that meets the rule exactly when that is narrow |
| AuthRule.ManifestExactly | standards/service-lifecycle/rules/SVC-003-auth-contract.md:8-135 | over every manifest, all services are silent and careful exactly when all meet the rule and are narrow |
| AuthRule.WrongAudiencePasses | src/standards_control_plane/evaluators/service_lifecycle.py:787-817 | an audience that is another service's is reported by nothing |
| AuthRule.CompactDatePasses | src/standards_control_plane/evaluators/service_lifecycle.py:182-191 | nor is a close date without dashes |
| AuthRule.LapsedDatePasses | src/standards_control_plane/evaluators/service_lifecycle.py:918-924 | nor is one that has come by the day of the run, if it lies after the date of the standards |
| AuthRule.UnreadableRegisterPasses | src/standards_control_plane/evaluators/service_lifecycle.py:250-268 | nor is an unregistered waiver while the register does not load |
| AuthRule.NullMetadataPasses | src/standards_control_plane/evaluators/service_lifecycle.py:787-945 | nor are null metadata |
| AuthRule.UnexaminedPasses | src/standards_control_plane/evaluators/service_lifecycle.py:504-508 | nor is a service without a runtime contract |
| AuthRule.CapitalStatusPasses | src/standards_control_plane/evaluators/service_lifecycle.py:167-171 | nor is one whose status is `Planned` |
| AuthRule.ForeignFieldReported | src/standards_control_plane/evaluators/service_lifecycle.py:722-730 | an audience on an API-key entry meets the rule and is reported |
| AuthRule.CapitalSchemeReported | src/standards_control_plane/evaluators/service_lifecycle.py:818-824 | so is a valid key URL whose scheme is in capitals |
| AuthRule.EarlyRunReported | src/standards_control_plane/evaluators/service_lifecycle.py:918-924 | so is a close date after the run but not after the date of the standards |
| FindingIds.SameIdExactly | src/standards_control_plane/evaluators/service_lifecycle.py:208-210 | two ids are the same text exactly when their parts between dashes are the same |
| FindingIds.NothingInside | src/standards_control_plane/evaluators/service_lifecycle.py:518-1018 | no signal key but a duplicate's ends in another key behind a dash |
| FindingIds.ClashExactly | src/standards_control_plane/evaluators/service_lifecycle.py:194-210 | two findings share an id exactly when one service declares two modes twice that end alike, or a duplicate's key runs on into the other service's finding |
| FindingIds.IdsDifferExactly | src/standards_control_plane/evaluators/service_lifecycle.py:489-1045 | over every manifest all ids differ exactly when neither happens |
| FindingIds.ApprovedNeverClash | src/standards_control_plane/evaluators/service_lifecycle.py:946-972 | while only approved modes are declared twice all ids differ, whatever the services are called |
| FindingIds.ApprovedSuffixesDiffer | src/standards_control_plane/evaluators/service_lifecycle.py:21-87 | approved modes end differently |
| FindingIds.UnknownModesCollide | src/standards_control_plane/evaluators/service_lifecycle.py:946-972 | two unknown modes of one service that get one id |
| FindingIds.SpillClashes | src/standards_control_plane/evaluators/service_lifecycle.py:946-972 | two services whose findings get one id |
| RepoPaths.NormaliseRepoRelativePath | src/standards_control_plane/mcp_server/resources.py:309-320 | the stack loop equals its specification |
| RepoPaths.ResolveRepoRelativePath | src/standards_control_plane/mcp_server/resources.py:323-338 | absolute input, escape from the root and escape from the container, in that order |
| RepoPaths.NormaliseWalks | src/standards_control_plane/mcp_server/resources.py:309-320 | the stack agrees with walking the segments: it fails exactly when the walk steps above the root, and otherwise holds where it ends |
| RepoPaths.NormaliseComposes | src/standards_control_plane/mcp_server/resources.py:309-320 | normalising in two stages is normalising in one |
| RepoPaths.NormaliseCancels | src/standards_control_plane/mcp_server/resources.py:309-320 | entering a directory and leaving it at once can be struck from a path |
| RepoPaths.ResolveExact | src/standards_control_plane/mcp_server/resources.py:323-338 | absolute input is always refused; else resolving succeeds exactly when the walk never steps above the root and ends in the container, each refusal has its exact condition, and the result is in the container, clean and a fixed point |
| RepoPaths.ResolveStable | src/standards_control_plane/mcp_server/resources.py:323-338 | resolving a result again from the root returns it |
| RepoPaths.TextPartsExactly | src/standards_control_plane/mcp_server/resources.py:309-338 | the segments of a path's text: empty ones and "." are none, ".." is a step up, another text is a name, a slash separates |
| RepoPaths.NamesResolve | src/standards_control_plane/mcp_server/resources.py:323-338 | a name resolves below the base, if that is in the container |
| RepoPaths.ParentsResolve | src/standards_control_plane/mcp_server/resources.py:323-338 | "../" goes on from one directory up |
| RepoPaths.NothingAboveRoot | src/standards_control_plane/mcp_server/resources.py:309-320 | and from the root it is refused |
| Text.JoinSplit | src/standards_control_plane/applies_to.py:154-155 | splitting at a separator loses nothing |
| Text.SplitJoin | src/standards_control_plane/applies_to.py:154-155 | joining parts without the separator loses nothing either |
| Ordering.StrLessExactly | src/standards_control_plane/findings.py:196-197 | texts compare at their first difference, a proper prefix first |

## Left out

* JSON, YAML and schema parsing and validation: records arrive typed and valid, and a store or a proposal record reads back as it was written.
* The check, on loading a findings store, that evidence paths exist in the repository.
* git and OPA subprocesses, file locks, sockets, the server and its registration: branches are a set of names, and a locked section is one step.
* Crashes between two replaces of a publication.
* AuthRule.ManifestExactly: which texts are valid http(s) URLs is a parameter; what code the rule means is taken to be what shows one of the evaluator's markers, and is compared only when code is scanned; the runtime signals of the rule are outside any static check.
* Hashing, Unicode folding of proposal bodies and ISO date parsing: hashes and cache keys are taken to be injective, `fnmatch`, white space and date parsing are parameters, and lower-casing covers ASCII.
* Proposal files that cannot be read at all, file names with digits other than 0 to 9, metadata comments hidden in a body, and times within a day of the earliest representable instant.
* Proposals.ProposalQueue.ProposeImpl: the answer carries the number of an accepted proposal, not the texts built from it, and branches are changed by proposal calls only.
* The parts of an audit no later stage reads: scores by domain, summary counts, the sorted list of applied waivers, recommended actions and drift.
* Of a subsystem entry, its top findings and file paths; the building of the multi-repository dashboard itself.
* ControlTower.LoadExisting: the order in which the directory is read is left open, since the dashboard does not depend on it.
* AuthContract.Svc003Findings: states which findings there are, not their order, because they are sorted again afterwards; keys of a mapping that are not strings are not modelled.
* AuditCache.Cache.Lookup: times are exact numbers, not floating-point ones.
* The SVC-001 and SVC-002 evaluators and those of the other domains: heuristics with one-branch properties.
* Registry overlays, consult ordering, report rendering, key generation and the command line: they would only add easy members.
