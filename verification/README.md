# Verified models of the traffictwin analysis and preparation scripts

A Dafny 4.11 project that models the self-contained algorithms in the scripts of the traffictwin
repository and proves what their results mean. `dafny verify dfyconfig.toml` checks everything.
Nothing here runs the Python; each module follows one script's branches, constants and refusals.

| module | what it models |
|---|---|
| `Occupancy`, `OccupancyCounts`, `OccupancyAudit` | reconciliation of an occupancy table with a seconds-by-slots mask, and what the audit's verdict implies cell by cell |
| `StepReconciliation` | the action-weighted task counts of the same audit |
| `Gini`, `FailureDeciles`, `OffloadPartition`, `RunBuckets`, `LeastSquares`, `Percentile` | closed-form statistics against their definitions, in exact arithmetic |
| `ReceiptPublication`, `ReceiptOutcomes`, `ReceiptTemporaries` | concurrent new-only publication of a receipt, with failures, kills and the compensation around it, how calls end and what they leave behind |
| `CorridorStages`, `CorridorSharing`, `DemandStages` | the two marker-driven, crash-resumable pipelines, and which configurations may share a workspace |
| `GateBattery` | the handoff gate battery and its exit code |
| `BusMatching`, `BusSession`, `RouteRequests` | bus-fix deduplication, window accounting, routing requests, binding of routed paths |
| `BusEdges`, `EdgeAttributes` | the one-pass network scanners with a current-edge register |
| `Framing` | length-prefixed record digests, chunked and whole |
| `ClaimUnits`, `ClaimSentences`, `ClaimScanner`, `Text` | the clause-wise claim and secret scanner |
| `Numerals` | zero-padded ids and the shortlex order of seed labels |
| `Sorting`, `Sums`, `Products`, `Counting`, `Lists`, `Options` | sorted copies, exact sums, counters as numbers of positions, and small shared facts |

Floats are exact reals, so rounding is not modelled. Regular expressions, XML and CSV parsing,
SHA-256, JSON text, projections, candidate selection and the external tools are inputs or unknown
functions. Histories with concurrency or crashes are lists of atomic events executed by a total
step function: an event that is not enabled does nothing, so a statement about every list of
events is a statement about every interleaving and every crash point.

## Findings

Where the code does not do all that its comments or names suggest, the code is modelled and the
exact condition is proved:

- **Mask height.** Visit seconds equal the painted cells exactly when no slot overlap is counted
  *and* no accepted span runs past the mask's last second. The second part is automatic only if
  `T` does not exceed the mask's height, which nothing in the script compares
  (`Occupancy.VisitSecondsVerdict`, `Occupancy.ShortMaskBreaksTheCount`). A slot the mask lacks
  raises instead (`OccupancyAudit.Reconcile`).
- **Rejected rows.** The "exactly identify" verdict reads accepted rows only; rejected rows never
  change it (`Occupancy.RejectedRowsEscapeTheVerdict`).
- **Receipt without archive.** An interrupt after `os.link` makes `main` delete the archive of a
  receipt that stays published; this happens exactly on failures after the link
  (`ReceiptPublication.OrphanedReceipts`).
- **Temporary file.** A call that fails between `mkstemp` and the `try` leaves its temporary file
  (`ReceiptTemporaries.GapLeavesTemporary`). Without a receipt that gap alone decides whether a
  finished call's file is still there (`ReceiptTemporaries.WithoutReceiptTheGapDecides`). With one,
  a publisher given the same name earlier may unlink the leaked file
  (`ReceiptTemporaries.ReceiptMayRobALeakedFile`); the exact condition over all runs is
  `ReceiptTemporaries.TemporaryRemainsIff`.
- **Scope and pin of a corridor build.** Markers record neither the scope nor the pin. A workspace
  may be shared by a set of configurations, over all histories, exactly if none of them that can
  meet there compose different networks (`CorridorSharing.SharingIsSafeIff`, with one pin
  `CorridorSharing.OnePinIsSafeIff`). Otherwise a run seals a network built for another scope
  (`CorridorSharing.ScopeChangeIsNotNoticed`) or from another pin's extract
  (`CorridorSharing.PinChangeIsNotNoticed`).
- **Finished acquisition.** Once `acquire.done` is there nothing is downloaded any more, so a
  configuration whose extract is missing or does not match is refused for good
  (`CorridorSharing.WorkspaceServesIff`).
- **Taken name.** A call that has linked its receipt may still raise, and then loses its archive,
  because another caller's second unlink took its temporary name
  (`ReceiptOutcomes.LinkedCallReturnsIff`).
- **Closing tags.** `_xml_is_complete` calls `handle.read()` twice, so its second test looks at an
  empty rest and a closing `</meandata>` is never recognised
  (`DemandStages.MeandataIsNeverRecognised`). The marker is not removed before a stage is run
  again, so reuse is safe exactly when every tool's own result passes the check
  (`DemandStages.ReuseSafeIffResultsPass`).
- **Second refusal.** A bus session is refused for conflicting positions and also for an in-window
  time that is no whole second (`BusSession.MatchSession`).
- **Repeated edge ids.** The edge accounting adds up exactly when no two edge lines with both
  junctions share an id (`EdgeAttributes.EdgesAreConserved`).
- **Negative actions.** A slot seen only with negative actions is both "never" and "always"
  (`OffloadPartition.ClassesOfASlot`).
- **Padded seed labels.** The shortlex order of seed labels is numeric exactly when no label is
  longer than another of larger value (`Numerals.SeedLabelsInNumericOrderIff`).
- **Short runs.** Below 60 steps some bucket is empty and its means are undefined
  (`RunBuckets.EmptyBucketIffShortRun`).

## Model

| member | source | states |
|---|---|---|
| OccupancyAudit.Reconcile | scripts/audit_vec_source_snapshot.py:221-298 | the row, painting and counting loops report, of header, table, window and mask alone, the header check, row and slot counts, every counter as a number of rows or visits, both overlap counts as numbers of overlapping neighbours, both match flags and the boundary vehicles; it raises exactly when an accepted row names a slot the mask lacks |
| OccupancyAudit.ReadRows | scripts/audit_vec_source_snapshot.py:237-255 | after the row loop the grid holds exactly the cells of accepted spans and both dictionaries hold every accepted row once, in table order, under its key |
| OccupancyAudit.PaintSpan | scripts/audit_vec_source_snapshot.py:255 | the slice assignment adds the span's cells, clipped to the grid, and changes no other cell |
| OccupancyAudit.CountOverlaps | scripts/audit_vec_source_snapshot.py:257-270 | sums, over the keys in any order, the positions of each sorted group at which a span overlaps its predecessor |
| OccupancyCounts.OverlapCountIsPairs | scripts/audit_vec_source_snapshot.py:257-270 | each overlap count is the number of pairs of a key and a position of its sorted spans |
| OccupancyCounts.OverlapPairMeans | scripts/audit_vec_source_snapshot.py:257-270 | such a pair is a position at which the span starts no later than its predecessor ends |
| OccupancyCounts.AdjacentOverlapsCountPositions | scripts/audit_vec_source_snapshot.py:260-263 | for every list the neighbour count is the number of such positions |
| OccupancyCounts.SortedGroupMeans | scripts/audit_vec_source_snapshot.py:253-259 | the spans compared for a key are all of its accepted spans with their multiplicities, in tuple order |
| OccupancyCounts.SlotOrderIsTupleOrder | scripts/audit_vec_source_snapshot.py:253-259 | spans of a slot are ordered as tuples (enter, exit, vehicle) |
| OccupancyCounts.VehicleOrderIsTupleOrder | scripts/audit_vec_source_snapshot.py:254-266 | spans of a vehicle are ordered as tuples (enter, exit, slot) |
| OccupancyCounts.FateMeans | scripts/audit_vec_source_snapshot.py:243-251 | a row is accepted iff it covers some cell and only cells of the window; rejections in the order of the script |
| OccupancyCounts.VisitSecondsCountVisits | scripts/audit_vec_source_snapshot.py:252 | visit seconds are the number of pairs of an accepted span and a second of it |
| OccupancyAudit.ReportedVerdict | scripts/audit_vec_source_snapshot.py:283-286 | for a report with a matching grid and a window no taller than the mask, `visit_seconds_match_mask` holds iff no slot overlap is counted; the three verdict flags hold iff the table identifies every visit |
| OccupancyAudit.ReportedRowsAreConserved | scripts/audit_vec_source_snapshot.py:242-250 | reported rows are the three rejection counts plus the accepted rows, and nothing is rejected iff the accepted rows are the table |
| Occupancy.AdjacentPairsSuffice | scripts/audit_vec_source_snapshot.py:259-263 | in a list sorted by entry, no overlap between neighbours means no overlap between any two spans, and conversely |
| Occupancy.OverlapCountZero | scripts/audit_vec_source_snapshot.py:257-270 | the grouped, sorted, adjacent count is 0 iff no two rows with the same key share a second, whatever the table order |
| Occupancy.VisitSecondsCountCells | scripts/audit_vec_source_snapshot.py:252-255 | visit seconds are at least the painted cells, equal iff rows of one slot are pairwise apart and every span ends inside the mask |
| Occupancy.VisitSecondsVerdict | scripts/audit_vec_source_snapshot.py:252-286 | the same for every table, window and mask height, with the reported slot overlap count |
| Occupancy.ShortMaskBreaksTheCount | scripts/audit_vec_source_snapshot.py:193-194 | for every mask shorter than `T` a single span over the window is overcounted although nothing overlaps |
| Occupancy.ExactIdentification | scripts/audit_vec_source_snapshot.py:674-679 | `all_occupancy_exact` holds iff the mask is covered by accepted spans and by nothing else, and spans sharing a second differ in slot and in vehicle |
| Occupancy.OwnershipFromTheVerdict | scripts/audit_vec_source_snapshot.py:734-738 | under the verdict each active cell has exactly one owning span, inactive cells have none, and at one second no vehicle owns two cells |
| Occupancy.RejectedRowsEscapeTheVerdict | scripts/audit_vec_source_snapshot.py:243-251 | inserting any rejected row at any place leaves the verdict unchanged |
| StepReconciliation.ReconciliationCertifiesActions | scripts/audit_vec_source_snapshot.py:366-430 | with non-negative task counts the reconciliation check holds iff the totals agree and every task-carrying cell took action 0, 1 or 2 |
| StepReconciliation.WeightedIsMaskedTotal | scripts/audit_vec_source_snapshot.py:366-430 | the weighted count of an action is the task total with every other cell set to 0 |
| Gini.GiniIsMeanDifference | scripts/analyse_pilot_dynamics.py:48-61 | the sorted-index formula is the sum of absolute differences over all ordered pairs divided by 2 n total |
| Gini.GiniIgnoresOrder | scripts/analyse_pilot_dynamics.py:53-60 | the coefficient depends on the multiset of values only |
| Gini.GiniRange | scripts/analyse_pilot_dynamics.py:48-61 | on non-negative data it lies in [0, (n-1)/n] and is 0 iff all entries are equal |
| Gini.CeilingIsReached | scripts/analyse_pilot_dynamics.py:48-61 | one positive entry among zeros gives (n-1)/n |
| FailureDeciles.WorstIsLargest | scripts/analyse_pilot_dynamics.py:158-160 | no selection of as many slots holds more failures than the head of the descending list |
| FailureDeciles.WorstIsAttained | scripts/analyse_pilot_dynamics.py:158-160 | and some selection of that size holds exactly as many |
| FailureDeciles.DecileSizeMeans | scripts/analyse_pilot_dynamics.py:158 | the decile is the largest number of slots of which ten fit, or one slot below ten |
| FailureDeciles.WorstDecileShareMeans | scripts/analyse_pilot_dynamics.py:174-178 | the share times all failures is the worst decile's total, and it is missing iff there are no failures |
| FailureDeciles.WorstDecileShareRange | scripts/analyse_pilot_dynamics.py:174-178 | the worst-decile share lies between decile size over slots and 1 |
| RunBuckets.Series | scripts/analyse_pilot_dynamics.py:91-119 | the loop yields 60 entries, each with its bounds, completions, mean latency, mean of active vehicles, offload share and the three RSU load means of its own bucket, a quotient being missing exactly where nothing is divided by; it raises iff a run with steps has no RSU |
| RunBuckets.SeriesIsConserved | scripts/analyse_pilot_dynamics.py:92-106 | the entries' completions add up to those of the run, and their means weighted by completions give back the run's latency up to that of buckets without completions |
| RunBuckets.OffloadShareRange | scripts/analyse_pilot_dynamics.py:110-114 | on non-negative counts a share lies in [0, 1] and is missing iff its bucket holds no decision |
| RunBuckets.BusiestWithinTotal | scripts/analyse_pilot_dynamics.py:115-116 | on non-negative loads the mean busiest load is at most the mean total load, which is at most the number of RSUs times it |
| RunBuckets.StepHasOneBucket | scripts/analyse_pilot_dynamics.py:91-93 | every step falls into exactly one bucket |
| RunBuckets.EdgeMeans | scripts/analyse_pilot_dynamics.py:91 | an edge is the whole part of i * steps / 60 |
| RunBuckets.EmptyBucketIffShortRun | scripts/analyse_pilot_dynamics.py:91-110 | some bucket is empty iff the run has fewer than 60 steps |
| OffloadPartition.ClassesOfASlot | scripts/analyse_offload_partition.py:58-69 | an unseen slot is in no class; a seen one in exactly one iff it ever acted non-negatively while present, else in never and always |
| OffloadPartition.ClassesMean | scripts/analyse_offload_partition.py:58-69 | among the steps with tasks, a never-offloading slot has only actions of at most 0, an always-offloading one none equal to 0, a mixed one some above 0 and some equal to 0 |
| OffloadPartition.ShareMeans | scripts/analyse_offload_partition.py:159-168 | a share times the size of its group is the number of its slots in the class |
| OffloadPartition.SharesAddUp | scripts/analyse_offload_partition.py:159-168 | a decile's three composition shares add up to 1 iff each of its slots ever acted non-negatively while present |
| OffloadPartition.DecilesAreApart | scripts/analyse_offload_partition.py:144-149 | for any arrangement argsort may return, worst-decile slots fail at least as often as best-decile ones, and the deciles are disjoint iff two or more slots are ranked |
| LeastSquares.OlsIsTheLeastSquaresLine | scripts/analyse_actor_crossover.py:99-113 | no line has a smaller squared error than the one through the means with the computed slope, and only that line attains it |
| LeastSquares.ExcessError | scripts/analyse_actor_crossover.py:99-113 | the exact amount by which any other line is worse |
| LeastSquares.ExactOnAffineData | scripts/analyse_actor_crossover.py:113 | points on a line give the slope of that line |
| LeastSquares.SlopeIgnoresOrder | scripts/analyse_actor_crossover.py:107-113 | the result, refusals included, is independent of the order of the points |
| LeastSquares.DegenerateIffNoSpread | scripts/analyse_actor_crossover.py:110-112 | the degenerate refusal fires iff all x are equal |
| Percentile.Between | scripts/prepare_bbus_dawn_peak.py:794-799 | the value lies between its two neighbouring order statistics |
| Percentile.PercentileInterpolates | scripts/prepare_bbus_dawn_peak.py:794-799 | at the fraction f past the k-th element the value is the mixture of it and the next with weights 1 - f and f |
| Percentile.PercentileIsMonotone | scripts/prepare_bbus_dawn_peak.py:789-799 | on a sorted list a larger probability gives no smaller value |
| Percentile.PercentileHitsElements | scripts/prepare_bbus_dawn_peak.py:797-798 | at a whole-number position the result is that element |
| Percentile.PercentileEndpoints | scripts/prepare_bbus_dawn_peak.py:794-799 | probability 0 gives the first element and 1 the last |
| Percentile.PercentileWithinData | scripts/prepare_bbus_dawn_peak.py:789-799 | every percentile lies within the data |
| ReceiptPublication.RunKeepsInvariant | scripts/build_vec_end_to_end_artifact.py:14-34 | the invariant behind the next rows holds in every interleaving, with temporary names that may be reused |
| ReceiptPublication.LinkStep | scripts/build_vec_end_to_end_artifact.py:31 | the commit step keeps the invariant: while the destination is absent a caller's temporary name still names its own complete inode |
| ReceiptPublication.ReceiptIsWhole | scripts/build_vec_end_to_end_artifact.py:26-31 | the destination is absent or holds one linking caller's complete payload |
| ReceiptPublication.ReceiptNeverChanges | scripts/build_vec_end_to_end_artifact.py:30-34 | once present, inode and bytes of the receipt stay the same through every later step |
| ReceiptPublication.OnePublisher | scripts/build_vec_end_to_end_artifact.py:31-34 | at most one call links; a call that returns is that call, and the receipt is its payload |
| ReceiptOutcomes.UndisturbedCallReturns | scripts/build_vec_end_to_end_artifact.py:14-34 | after any run without a receipt, a new caller left alone returns; its payload is the receipt, its archive is kept, and no other file has changed |
| ReceiptOutcomes.LinkedCallReturnsIff | scripts/build_vec_end_to_end_artifact.py:31-34 | over every run, a finished call that has linked returned iff no exception struck after its link and its own unlink found the name, which only another caller can have taken |
| ReceiptOutcomes.UndisturbedReceiptKeepsItsArchive | scripts/build_vec_end_to_end_artifact.py:31-51 | without these two events the archive stays beside the published receipt |
| ReceiptOutcomes.FailedCallIsCompensated | scripts/build_vec_end_to_end_artifact.py:25-51 | an exception at any point of an unfinished call ends with the archive deleted, and what was linked stays linked |
| ReceiptOutcomes.LateCallsCreateNothing | scripts/build_vec_end_to_end_artifact.py:16-17 | a call that starts when a receipt is there raises and never creates a file, whatever follows |
| ReceiptTemporaries.FinishedCallsLeaveNoTemporary | scripts/build_vec_end_to_end_artifact.py:33-34 | a finished call has no temporary name left, unless it failed between mkstemp and the try |
| ReceiptTemporaries.TemporaryRemainsIff | scripts/build_vec_end_to_end_artifact.py:19-34 | over every run, a finished call with a temporary file still has it iff it failed in that gap and no other caller has unlinked the name since |
| ReceiptTemporaries.WithoutReceiptTheGapDecides | scripts/build_vec_end_to_end_artifact.py:19-34 | in every run without a receipt it still has it iff it failed in that gap |
| ReceiptTemporaries.QuietDirectoryIsCleanIff | scripts/build_vec_end_to_end_artifact.py:14-34 | when all callers have finished, the directory holds at most the receipt iff every call that failed in the gap had its name unlinked by another |
| ReceiptTemporaries.QuietDirectoryIsClean | scripts/build_vec_end_to_end_artifact.py:14-34 | when all callers finished outside that gap the directory holds the receipt or nothing |
| ReceiptTemporaries.GapLeavesTemporary | scripts/build_vec_end_to_end_artifact.py:19-25 | for every name, a run exists in which a failure in that gap leaves the temporary file |
| ReceiptTemporaries.ReceiptMayRobALeakedFile | scripts/build_vec_end_to_end_artifact.py:32-34 | for any two callers and any name, a run exists in which the second unlink of a publisher removes the leaked file of the other |
| ReceiptPublication.OrphanedReceipts | scripts/build_vec_end_to_end_artifact.py:46-51 | a caller's receipt is published without its archive iff the call failed after linking and was compensated |
| ReceiptPublication.InterruptAfterLinkOrphansReceipt | scripts/build_vec_end_to_end_artifact.py:31-51 | for every caller and payload such a run exists |
| CorridorSharing.MarkersVouchForTheChain | scripts/build_dhaka_corridor_network.py:201-229 | over all histories a done acquire marker means that a network-confirmed run compared the extract on disk with its pin, and a later marker means the complete output on the predecessor's complete output, down to such an extract |
| CorridorStages.ExtractWrittenOnlyWhenConfirmed | scripts/build_dhaka_corridor_network.py:100-121 | an extract file changes only in a network-confirmed run whose download passed size and digest, and only to a part of that download |
| CorridorSharing.SharingIsSafeIff | scripts/build_dhaka_corridor_network.py:200-265 | for every set of configurations: over all histories that start only these, every receipt holds the composition of its own scope on its own verified extract, iff whichever of them acquires and whichever reuses, both compose the same network |
| CorridorSharing.OnePinIsSafeIff | scripts/build_dhaka_corridor_network.py:200-265 | with one pin the condition is that every confirmed configuration composes the same network as every other on each extract that matches the pin |
| CorridorSharing.ReceiptsAreFullCompositions | scripts/build_dhaka_corridor_network.py:201-265 | with one scope and one pin every receipt is for the whole pipeline on the extract on disk, which matches the pin |
| CorridorSharing.ScopeChangeIsNotNoticed | scripts/build_dhaka_corridor_network.py:211-215 | for any two scopes with different networks a history exists whose receipt names the wrong one |
| CorridorSharing.PinChangeIsNotNoticed | scripts/build_dhaka_corridor_network.py:200-215 | for any two pins with different file names a history exists in which a run that verified its own extract seals the network built from the other |
| CorridorSharing.WorkspaceServesIff | scripts/build_dhaka_corridor_network.py:201-265 | once the acquire marker is set, a configuration can ever get a receipt iff the workspace holds an extract that matches its pin |
| DemandStages.MeandataIsNeverRecognised | scripts/run_demand_diagnosis.py:115-119 | the completeness check holds iff `</routes>` occurs in the last 4096 bytes |
| DemandStages.ReportsAreGenuine | scripts/run_demand_diagnosis.py:275-350 | if tool results close their root, every run that reaches the end reports the full composition of the tools |
| DemandStages.UndisturbedRunReports | scripts/run_demand_diagnosis.py:275-350 | from every stopped workspace whose reusable files are genuine, an undisturbed run reaches its end and reports the tools' composition |
| DemandStages.MarkedButWrong | scripts/run_demand_diagnosis.py:126-142 | otherwise an interrupted second run leaves a marked, closed and wrong file |
| DemandStages.ReuseSafeIffResultsPass | scripts/run_demand_diagnosis.py:126-142 | reuse is safe over all histories iff every tool's result passes the check |
| GateBattery.RunBattery | scripts/run_all_gates.py:241-287 | one row per declared gate in order; SKIP iff unselected, NOT RUN iff selected after a failure without keep-going, PASS or FAIL by the answer to its own call; the runner is called for exactly the rows that ran, in order |
| GateBattery.AtMostOneFailure | scripts/run_all_gates.py:263-287 | without keep-going at most one row is a FAIL, and the runner's calls end with its command |
| GateBattery.AllPassedMeansAllRan | scripts/run_all_gates.py:181 | all rows pass iff every gate was selected and every command exited with 0 |
| GateBattery.ExitCode | scripts/run_all_gates.py:165-181 | 2 iff an unknown name is skipped, and then nothing runs; 0 iff nothing is skipped and every declared command ran and exited with 0; otherwise the table is the battery's on the gates not named in skip |
| BusMatching.RowOrderDoesNotMatter | scripts/prepare_bbus_dawn_peak.py:433-473 | permuted rows give the same refusals and the same fixes |
| BusMatching.VehicleAccounting | scripts/prepare_bbus_dawn_peak.py:433-475 | fixes are exactly those of in-window rows, strictly increasing; rows are repeats plus outside fixes plus inside fixes |
| BusMatching.VehicleCounts | scripts/prepare_bbus_dawn_peak.py:433-466 | repeated rows are those beyond one per distinct time; out-of-window and tied counts are numbers of distinct times |
| BusMatching.FixCounts | scripts/prepare_bbus_dawn_peak.py:461-465 | matches, distances and sources are counted fix by fix |
| BusSession.ReadRows | scripts/prepare_bbus_dawn_peak.py:434-445 | the deduplication loop conflicts iff one time has two positions, else counts every repeat |
| BusSession.RefusalMeans | scripts/prepare_bbus_dawn_peak.py:437-453 | a vehicle is refused for two positions at one time, else for an in-window time that is no whole second |
| BusSession.MatchSession | scripts/prepare_bbus_dawn_peak.py:413-496 | refuses iff some vehicle conflicts or has an odd in-window time, the first such vehicle giving the reason; else all vehicles with fixes and the whole report: every count, the matched share, the well-matched vehicles, the source counts and the distance percentiles and maximum |
| BusSession.RowsAreConserved | scripts/prepare_bbus_dawn_peak.py:428-474 | extracted rows are repeated plus out-of-window plus in-window over the session, and every matched fix adds one distance and one source |
| BusSession.SessionCounts | scripts/prepare_bbus_dawn_peak.py:428-475 | every count of the session is the sum of the vehicles' counts |
| BusSession.SessionSelections | scripts/prepare_bbus_dawn_peak.py:461-496 | every distance and source occurs as often as some fix of some vehicle selected it |
| BusSession.ReportIsCoherent | scripts/prepare_bbus_dawn_peak.py:475-496 | in an accepted report the rows add up, the share lies in [0, 1] and is missing iff no vehicle has a fix, and median, ninetieth percentile and maximum ascend and are missing iff nothing matched |
| BusSession.WellMatchedMeans | scripts/prepare_bbus_dawn_peak.py:476-486 | a vehicle counts as well matched iff at least four in five of its fixes have a candidate |
| RouteRequests.Collect | scripts/prepare_bbus_dawn_peak.py:526-552 | refuses iff some vehicle's fixes do not increase; else requests are ordered, numbered, sound and complete: exactly the segments of at most 120 s between candidates more than 15 m apart |
| RouteRequests.RoutableMeans | scripts/prepare_bbus_dawn_peak.py:532-542 | for every number whose square is the sum of the squared coordinate differences, a pair of fixes is routed iff at most 120 s apart, both with a candidate, and that number is above 15 |
| RouteRequests.OneRequestPerSegment | scripts/prepare_bbus_dawn_peak.py:530-551 | requests and routable segments correspond one to one and ids never repeat |
| RouteRequests.MatchedFixesAlwaysIncrease | scripts/prepare_bbus_dawn_peak.py:533-534 | the refusal can never fire on a matched session |
| RouteRequests.BindPaths | scripts/prepare_bbus_dawn_peak.py:314-330 | every request keeps its own entry, entries equal requests, constructed plus refused equal requests |
| RouteRequests.SessionPaths | scripts/prepare_bbus_dawn_peak.py:292-330 | matching, requests, routing and binding in one: refuses iff some vehicle is refused, the second refusal never fires, and else the entries are exactly the routable segments of the matched vehicles, each with the path of its own request's answer |
| Numerals.PaddedInjective | scripts/prepare_bbus_dawn_peak.py:545 | padded ids read back as their number at any count, so they are injective |
| Numerals.PaddedWidth | scripts/prepare_bbus_dawn_peak.py:545 | padded ids have at least the width asked for, and no leading zero beyond it |
| Numerals.ShortlexIsNumeric | scripts/generate_results_tables.py:127 | on labels without leading zeros shortlex order is numeric order |
| Numerals.CanonicalMeans | scripts/generate_results_tables.py:127 | the labels without leading zeros are exactly the decimal numerals of numbers |
| Numerals.ShortlexRespectsValueIff | scripts/generate_results_tables.py:127 | for any two digit labels shortlex places the first before the second against their values iff it is shorter and larger |
| Numerals.SeedLabelsInNumericOrderIff | scripts/generate_results_tables.py:126-128 | digit labels, padded or not, are listed in numeric order iff no label is longer than another of larger value |
| Numerals.SeedLabelsInNumericOrder | scripts/generate_results_tables.py:126-128 | so labels without leading zeros are listed in numeric order, none lost |
| Numerals.PaddedLabelsAreMisplaced | scripts/generate_results_tables.py:127 | any number is listed before a smaller one padded to more places |
| BusEdges.BusEligibleEdgeIds | scripts/prepare_bbus_dawn_peak.py:555-583 | the register scan returns exactly the real, not self-closed edges with a bus-permitting lane line before the next edge line |
| BusEdges.EligibleMeans | scripts/prepare_bbus_dawn_peak.py:555-583 | eligibility spelled out line by line, lane permissions included |
| BusEdges.LaneAllowsBusMeans | scripts/prepare_bbus_dawn_peak.py:586-598 | a lane refuses a bus iff both lists are given, the allow list leaves it out or the disallow list names it |
| BusEdges.Flush | scripts/prepare_bbus_dawn_peak.py:564-582 | settled edges together with the pending one are exactly the eligible ones so far |
| EdgeAttributes.ReadEdgeAttributes | scripts/run_demand_diagnosis.py:161-222 | the scan and the classification loop give every junctioned edge its attributes or its reason, and every counter |
| EdgeAttributes.Scan | scripts/run_demand_diagnosis.py:175-205 | the one-pass loop leaves the dictionaries, the inflow set and the counters that the prefix functions describe |
| EdgeAttributes.ReadingsAreLargest | scripts/run_demand_diagnosis.py:198-205 | a reading exists iff one of the edge's own lanes has one, and is the largest of them, at least 0 |
| EdgeAttributes.MeasuredEdge | scripts/run_demand_diagnosis.py:208-220 | length and speed are positive maxima over the edge's lanes; boundary iff no junctioned edge anywhere ends where it starts |
| EdgeAttributes.ReasonsMean | scripts/run_demand_diagnosis.py:208-216 | an edge lacks geometry iff none of its lanes gives a speed or none a length above 0, else it stands still iff none gives a speed above 0 |
| EdgeAttributes.RegisterMeans | scripts/run_demand_diagnosis.py:175-190 | a lane belongs to the last edge tag above it, if that one is matched and not internal |
| EdgeAttributes.EdgesAreConserved | scripts/run_demand_diagnosis.py:167-222 | the four outcome counts never exceed the edges seen, and equal them iff junctioned edge ids are distinct |
| Framing.DecodeEncode | scripts/benchmark_streaming_ingestion.py:184-190 | for payloads below 2^64 bytes a decoder recovers the record sequence |
| Framing.EncodeDecode | scripts/benchmark_streaming_ingestion.py:189-190 | only genuine streams of frames decode, and to their own records |
| Framing.EncodeInjective | scripts/benchmark_streaming_ingestion.py:180-190 | equal digest input means equal record sequences |
| Framing.BigEndianDigit | scripts/benchmark_streaming_ingestion.py:189 | byte k of a length is its base-256 digit of weight width - 1 - k |
| Framing.Digests.Update | scripts/benchmark_streaming_ingestion.py:180-190 | each table's hash absorbs the frames of its own records; it overflows iff some payload has 2^64 bytes or more |
| Framing.Digests.Consume | scripts/benchmark_streaming_ingestion.py:167-171 | after any chunks each hash has absorbed its table's records in order |
| Framing.AgreeingTables | scripts/benchmark_streaming_ingestion.py:46-65 | of two fresh sets of digests, one fed chunk by chunk and one with the whole tables, a table's inputs agree iff its payload sequences agree, for any chunking and interleaving |
| Framing.PayloadsIdentifyRecords | scripts/benchmark_streaming_ingestion.py:184-188 | where no two records share their JSON text, that is equality of the record sequences |
| ClaimUnits.UnitsDistribute | scripts/validate_e2_research_product.py:242-281 | units of two texts joined by a newline are the units of both, blank ends and CR LF included |
| ClaimUnits.LinesLoseNothing | scripts/validate_e2_research_product.py:244 | cutting into lines drops line ends only |
| ClaimUnits.LineIsFullyScanned | scripts/validate_e2_research_product.py:245-280 | the units of a line carry all its visible text in order, list marker and semicolons apart |
| ClaimUnits.TextIsFullyScanned | scripts/validate_e2_research_product.py:242-281 | the same for a whole list of lines: no part of a text escapes the scan |
| ClaimUnits.UnitsAreClauses | scripts/validate_e2_research_product.py:248-280 | no unit is empty, has outer white space or contains a semicolon |
| ClaimUnits.SentencesAreWhole | scripts/validate_e2_research_product.py:275 | no piece of a text keeps white space after a full stop, exclamation or question mark |
| ClaimUnits.LinesHoldNoLineEnd | scripts/validate_e2_research_product.py:244 | every line end is a cut |
| ClaimSentences.PlainLineIsCut | scripts/validate_e2_research_product.py:274-280 | no unit of a line that is neither heading nor list item holds a sentence boundary |
| ClaimSentences.ItemIsOneUnit | scripts/validate_e2_research_product.py:248-273 | a heading or list item without a semicolon is one unit, or none if it is blank |
| ClaimSentences.PlainLineSplits | scripts/validate_e2_research_product.py:274-280 | a plain line cut at any sentence boundary has the units of its two parts |
| ClaimSentences.SentencesAreJudgedAlone | scripts/validate_e2_research_product.py:197-344 | a plain one-line text flags, for claims and for secrets, iff one of the two parts at a sentence boundary does |
| ClaimSentences.SentencesJoin | scripts/validate_e2_research_product.py:242-280 | two sentences joined by a space, the first ending in `.`, `!` or `?` and beginning like no heading or list item, are scanned as two texts |
| ClaimSentences.NegationEndsWithItsSentence | scripts/validate_e2_research_product.py:284-344 | so the joined text flags iff one of the two sentences does |
| ClaimSentences.BulletIsOneUnit | scripts/validate_e2_research_product.py:255-264 | a bulleted item without a semicolon is one unit, apart from its bullet |
| ClaimSentences.OrdinalIsOneUnit | scripts/validate_e2_research_product.py:256-273 | a numbered item without a semicolon is one unit, apart from its number |
| ClaimScanner.ScanUnit | scripts/validate_e2_research_product.py:327-342 | the find-loop terminates and answers iff some occurrence is not suppressed |
| ClaimScanner.ContainsAffirming | scripts/validate_e2_research_product.py:284-344 | flags iff some unit with a claim verb has an occurrence that is not negated |
| ClaimScanner.ContainsAffirmingSecret | scripts/validate_e2_research_product.py:197-239 | flags iff some unit has an unsuppressed secret word |
| ClaimScanner.SuppressedMeans | scripts/validate_e2_research_product.py:211-236 | a secret word is suppressed iff the words that excuse it stand within the stated distances before or around it, or it is directly negated |
| ClaimScanner.ScanningDistributesOverLines | scripts/validate_e2_research_product.py:197-344 | scanning joined texts flags iff scanning either alone flags, for claims and for secrets |

## Left out

- RouteRequests.Routable: compares squared distances instead of `math.hypot`, which is the same test in exact arithmetic.
- ReceiptPublication.RunKeepsInvariant: takes removal of a temporary name as infallible and gives every caller its own archive path; file modes and `fsync` have no content in the model.
- CorridorSharing.SharingIsSafeIff: one run at a time per workspace; two simultaneous runs are not modelled, the script has no lock against them.
- DemandStages.RunKeepsInvariant: the study network and count files stay the same between runs.
- ClaimUnits.UnitsOfLine: digits in ordered-list markers are the ASCII ones; lower-casing, the grammar of direct negation and the claim-verb test are unknown functions of one unit.
- OccupancyAudit.Reconcile: takes the rows as parsed, and leaves out the trace's own descriptors beside the mask.
- `_tripinfo` in the snapshot audit: set differences that a reading settles.
- `_scan_network`, `latency_curve`, `evaluate_prediction_three`, `_fit`, `summarise` and the per-class tables of both analyses: counters and lookups that would add only easy members.
- Floating-point rounding, NaN (numpy's mean of an empty slice is a missing value here), integer widths of the arrays and numpy broadcasting.
- Parsing of XML, CSV and command lines, hashing, JSON, git, downloads, projections and the external tools themselves.
- The library under `src/traffictwin`, whose results are inputs here.
