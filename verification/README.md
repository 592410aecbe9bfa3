# Event-contract verifier: a model of its algorithmic cores

The system decides whether the events a program emitted really arrived and really
satisfy a gate. This project models its cores and states what they guarantee:

- **Monitors, gate and poller** (`Events`, `Rules`, `RuleMeaning`, `Monitors`, `LiveBank`,
  `Ltl3`, `OrderInevitability`, `OrderExactness`, `Exactness`, `HeartbeatWindow`,
  `GateKernel`, `GateMeaning`, `EarlySettle`, `OrderExclusion`, `Poller`, `PollerMeaning`).
  Rules compile to monitor objects fed one event at a time. `Rules` says what each rule
  means on a complete stream and what it decides on a prefix; the monitor classes are
  proved against it, and `Ltl3` and `Exactness` relate the decisions to the three-valued
  semantics of Bauer, Leucker and Schallhart. The gate judges one sorted read, and the
  poller re-reads a growing store and may stop early on an irrevocable green.
- **Import cycles** (`Names`, `ImportGraph`, `ImportCycles`): recursive Tarjan.
- **Trajectory scoring** (`ToolCalls`, `Matching`, `Trajectory`): nested argument credit,
  the dynamic program, the greedy matcher, positional equality.
- **Bounded protocol kernel** (`Protocol`, `Reducer`, `ReducerMeaning`, `Conformance`,
  `Receipt`): reducer, static analysis, receipts, lineages.
- **Ranking audit** (`Ranking`, `AuditRanking`), **hash chain** (`HashChain`) and
  **paging** (`Paging`); `Options`, `Slices` and `Multisets` are shared helpers.

Where the source updates objects or tables in place the model has classes, arrays and
loops, each tied by its contract to a specification function or predicate whose
properties are the lemmas below. The `...Meaning` lemmas say what those functions compute
in terms of the inputs alone.

Conventions: timestamps are integer microseconds, other numbers are reals; a `where`
filter is an arbitrary predicate on events; a store, its outages, the clock and the
sleeper are parameters.

Points where the code and its own description part:

- `monitor.py` says a `viol` is latched only when inevitable. For `must_order` that holds
  on streams in stream order whose listed events carry `_emit_seq` all or not at all. For
  every other kind of feed it depends on the rule; `ViolInevitableIff` states the exact
  condition for each.
- It calls `pend` undecided; some rules decide later than they could, among them every
  `must_order` of three names or more with `within_s`. `PendExactIff` gives the exact
  condition, and `ExactIff` the one under which the monitor computes the three-valued
  verdict throughout, for every rule.
- It flags the counts that cannot fail, but not `!=` against a fraction;
  `CountCannotFailIff` states which counts those are.
- The poller's blind-window guard reads the clock after a read. The verdict `absent` is
  given outside the window, but its read may have been issued inside it when reads take
  time; `AbsentIssuedOutsideIffInstant` states when that cannot happen.
- `ports.py` says no shipped backend implements `query_spec`; the OpenObserve driver does.
- `fetch_all_pages` describes a guarded stop as returning the unconsumed cursor. The
  cursor stands after the last whole page while the events are cut at `max_rows`, so
  resuming can skip rows; `ResumingLosesNothingIffAligned` states exactly when it does not.
- `receipt.py` accepts walks over declared transitions that no run of the reducer makes;
  `AcceptedReceiptFromRunIff` states which accepted receipts come from runs.

## Model

| member | source | states |
|---|---|---|
| ImportCycles.CycleFinder.ImportCycles | scripts/check_functional_architecture.py:479-515 | Over any graph whose edges stay among its keys, the report lists exactly the strongly connected components with more than one module, each sorted, in the order of their first names; the recursion terminates. |
| ImportCycles.CycleFinder.Visit | scripts/check_functional_architecture.py:489-510 | A visit keeps Tarjan's invariant, leaves earlier indexes, low-links and the stack below it alone, and its low-link is the index of a stack entry it reaches that undercuts every stack entry one edge away from what it visited. |
| ImportCycles.CycleFinder.FollowImports | scripts/check_functional_architecture.py:495-500 | After the loop every import of the module is accounted for in its low-link, the invariant still holding. |
| ImportCycles.CycleFinder.FollowImport | scripts/check_functional_architecture.py:496-500 | One import, whether new, on the stack or already popped, is accounted for. |
| ImportCycles.CycleFinder.PopComponent | scripts/check_functional_architecture.py:501-510 | The pop loop removes exactly the top stack segment down to the module and records it, sorted, when it has more than one member. |
| ImportCycles.FollowVisited | scripts/check_functional_architecture.py:496-498 | Returning from a recursive visit, the smaller of the two low-links still covers everything followed so far. |
| ImportCycles.PopKeepsSound | scripts/check_functional_architecture.py:501-510 | When nothing undercut the module's index, the popped segment is its whole strongly connected component, so popping keeps the invariant. |
| ImportCycles.KeepKeepsSound | scripts/check_functional_architecture.py:501 | When something did, leaving the module on the stack keeps the invariant. |
| ImportCycles.SortedByFirst | scripts/check_functional_architecture.py:515 | Listing disjoint components by first name keeps every component and makes the first names increase. |
| Names.BelowIsLexicographic | scripts/check_functional_architecture.py:510-515 | The order of module names the report is sorted by is Python's: the names agree up to some position, where the lower one ends or has the lower character. |
| ImportCycles.EmptyReportIffAcyclic | scripts/check_functional_architecture.py:448-515 | With no module importing itself, the report is empty if and only if the import graph has no closed walk. |
| ImportCycles.ReportIsUnique | scripts/check_functional_architecture.py:479-515 | Two reports meeting the contract are equal, so the contract pins the result down. |
| Monitors.CountMonitor.constructor | src/ooptdd/engine/monitor.py:211-217 | A fresh monitor has consumed nothing and stands where the empty stream leaves it. |
| Monitors.CountMonitor.Step | src/ooptdd/engine/monitor.py:219-230 | Appends the event to what was consumed; its fields then hold the number of matching events of the whole prefix, and its latch is the first decision the rule takes on any prefix, with that event's index. |
| Monitors.CountMonitor.Collapse | src/ooptdd/engine/monitor.py:232-252 | `passed` is the rule's meaning on everything consumed, and only on a reachable read; verdict and settle index are the latch. |
| Monitors.PresentMonitor.constructor | src/ooptdd/engine/monitor.py:259-263 | A fresh monitor has consumed nothing and stands where the empty stream leaves it. |
| Monitors.PresentMonitor.Step | src/ooptdd/engine/monitor.py:265-270 | Appends the event to what was consumed; its fields then hold which matchers have fired of the whole prefix, and its latch is the first decision the rule takes on any prefix, with that event's index. |
| Monitors.PresentMonitor.Collapse | src/ooptdd/engine/monitor.py:272-280 | `passed` is the rule's meaning on everything consumed, and only on a reachable read; verdict and settle index are the latch. |
| Monitors.AbsentMonitor.constructor | src/ooptdd/engine/monitor.py:287-292 | A fresh monitor has consumed nothing and stands where the empty stream leaves it. |
| Monitors.AbsentMonitor.Step | src/ooptdd/engine/monitor.py:294-299 | Appends the event to what was consumed; its fields then hold the offending events in order of the whole prefix, and its latch is the first decision the rule takes on any prefix, with that event's index. |
| Monitors.AbsentMonitor.Collapse | src/ooptdd/engine/monitor.py:301-309 | `passed` is the rule's meaning on everything consumed, and only on a reachable read; verdict and settle index are the latch. |
| Monitors.DurationMonitor.constructor | src/ooptdd/engine/monitor.py:324-335 | A fresh monitor has consumed nothing and stands where the empty stream leaves it. |
| Monitors.DurationMonitor.Step | src/ooptdd/engine/monitor.py:337-349 | Appends the event to what was consumed; its fields then hold the matches and the offenders of the whole prefix, and its latch is the first decision the rule takes on any prefix, with that event's index. |
| Monitors.DurationMonitor.Collapse | src/ooptdd/engine/monitor.py:351-364 | `passed` is the rule's meaning on everything consumed, and only on a reachable read; verdict and settle index are the latch. |
| Monitors.OrderMonitor.constructor | src/ooptdd/engine/monitor.py:373-399 | A fresh monitor has consumed nothing and stands where the empty stream leaves it. |
| Monitors.OrderMonitor.Step | src/ooptdd/engine/monitor.py:435-452 | Appends the event to what was consumed; its fields then hold timestamp, stream key and emit sequence of each name's first occurrence of the whole prefix, and its latch is the first decision the rule takes on any prefix, with that event's index. |
| Monitors.OrderMonitor.Collapse | src/ooptdd/engine/monitor.py:454-472 | `passed` is the rule's meaning on everything consumed, and only on a reachable read; verdict and settle index are the latch. |
| Monitors.HeartbeatMonitor.constructor | src/ooptdd/engine/monitor.py:491-501 | A fresh monitor has consumed nothing and stands where the empty stream leaves it. |
| Monitors.HeartbeatMonitor.Step | src/ooptdd/engine/monitor.py:503-518 | Appends the event to what was consumed; its fields then hold beat count, first and last beat, largest gap and stream span of the whole prefix, and its latch is the first decision the rule takes on any prefix, with that event's index. |
| Monitors.HeartbeatMonitor.Collapse | src/ooptdd/engine/monitor.py:520-560 | `passed` is the rule's meaning on everything consumed, and only on a reachable read; verdict and settle index are the latch. |
| Monitors.OrderMonitor.PairIsOk | src/ooptdd/engine/monitor.py:407-417 | The pair test on the stored keys is the one on the two first occurrences. |
| Monitors.OrderMonitor.IsOrderedSoFar | src/ooptdd/engine/monitor.py:419-421 | True exactly when every two names that are neighbours among those that occurred are in order. |
| Monitors.OrderMonitor.NoGapExceeded | src/ooptdd/engine/monitor.py:423-433 | True exactly when no two listed neighbours that both occurred are further apart than `within_s`. |
| RuleMeaning.CountMeaning | src/ooptdd/engine/monitor.py:219-252 | A count passes when the number of matching events compares with the target; it latches only a lower bound met (`sat`) or a target overshot (`viol`). |
| RuleMeaning.TautologicalIff | src/ooptdd/engine/monitor.py:240-250 | A check is flagged tautological if and only if it is a count whose target every non-negative number meets. |
| RuleMeaning.TautologyCannotFail | src/ooptdd/engine/monitor.py:240-250 | A check so flagged holds of every stream. |
| RuleMeaning.CountCannotFailIff | src/ooptdd/engine/monitor.py:240-250 | A count of something that can occur cannot fail if and only if it is flagged or asks `!=` of a number that is no whole number. |
| RuleMeaning.PresentMeaning | src/ooptdd/engine/monitor.py:265-280 | `present` passes when each matcher has an event, and latches `sat` then. |
| RuleMeaning.AbsentMeaning | src/ooptdd/engine/monitor.py:294-309 | `absent` passes unless some event meets a forbidden matcher and no allowed one; such an event latches `viol`. |
| RuleMeaning.DurationMeaning | src/ooptdd/engine/monitor.py:337-364 | `duration` passes when something matched and every match carries a number that compares; a match whose field is missing, is no number or does not compare latches `viol`. |
| RuleMeaning.OrderMeaning | src/ooptdd/engine/monitor.py:401-472 | `must_order` passes when every name occurs and the first occurrences of neighbours come in order (emit sequence, else timestamp and sequence, up to the tie window) and within the bound. |
| RuleMeaning.OrderDecision | src/ooptdd/engine/monitor.py:407-452 | Before the stream ends it is `viol` for neighbours among the names seen that are out of order, or listed neighbours beyond the bound, and otherwise `sat` once every name was seen. |
| Ltl3.DecisionIsFinal | src/ooptdd/engine/monitor.py:203-364 | For every rule but `must_order`: a decision taken on a prefix is taken on every extension and is the outcome there. |
| Ltl3.DecisionIsInevitable | src/ooptdd/engine/monitor.py:203-364 | A decision equals the three-valued verdict quantified over all extensions. |
| Ltl3.LatchIsDecision | src/ooptdd/engine/monitor.py:176-180 | The latched verdict is the decision on the whole prefix: nothing is latched late or survives being undone. |
| Ltl3.LatchedVerdictIsPermanent | src/ooptdd/engine/monitor.py:176-180 | A latched verdict stays and agrees with the collapsed outcome on every extension of the stream. |
| Exactness.ExactIff | src/ooptdd/engine/monitor.py:203-472 | For every rule the monitor accepts, `must_order` included, it computes the three-valued verdict on every prefix if and only if the rule is exact: satisfiable matcher and a target the operator can straddle for counts, a non-empty list of satisfiable matchers for `present`, one name, or two without a backward bound no window excuses, for `must_order`, and so on. |
| Exactness.PendExactIff | src/ooptdd/engine/monitor.py:203-472 | Its `pend` means undecided on every prefix if and only if the rule is exact or a non-empty `must_order` without a bound. |
| Exactness.PendIsUndecided | src/ooptdd/engine/monitor.py:203-472 | For such a rule every `pend` prefix has a passing and a failing extension. |
| OrderExactness.PendCanPass | src/ooptdd/engine/monitor.py:407-472 | A pending `must_order` of any length without a bound, or of at most two names with one they can meet, has an extension that passes, built by fitting the missing names in beside those seen. |
| OrderExactness.InexactOrderIsSealed | src/ooptdd/engine/monitor.py:423-472 | For every other `must_order` a stream that is still `pend` though every extension agrees on the outcome: an unstamped name before a backward bound, or two names too far apart for the one between them. |
| OrderExactness.LongOrderIsRepaired | src/ooptdd/engine/monitor.py:407-452 | Three names or more without a bound: a `viol` that an extension turns into a pass, so such a rule is never exact. |
| Exactness.ExactLatchIsDecision | src/ooptdd/engine/monitor.py:176-180 | An exact rule's latch holds its decision on the whole prefix, `must_order` included. |
| Exactness.SettledAtFirstInevitable | src/ooptdd/engine/monitor.py:176-180 | For every exact rule `settled_at` is the index of the first event after which the verdict is inevitable, -1 when it is from the start. |
| Exactness.OpenVerdictIsUnsettled | src/ooptdd/engine/monitor.py:176-188 | For every exact rule, while the three-valued verdict is open nothing is latched and no index is set. |
| OrderInevitability.SatIsFinal | src/ooptdd/engine/monitor.py:435-452 | A `must_order` decided `sat` passes on every extension, in any order and however stamped. |
| OrderInevitability.OrderViolationIsFinal | src/ooptdd/engine/monitor.py:407-421 | Where a `viol` stands (at most two names; or uniform stamps or a negative bound, and stream order or no window that excuses a step), a broken pair of occurred neighbours fails every such extension. |
| OrderInevitability.ViolIsFinal | src/ooptdd/engine/monitor.py:435-472 | There a decided `viol` fails on every extension, gap bounds included, even while intermediate names are missing. |
| OrderInevitability.LatchedOrderIsInevitable | src/ooptdd/engine/monitor.py:435-472 | A `sat` latched anywhere passes on every extension at all; a latched `viol` fails on every extension on which it stands. |
| OrderInevitability.ViolInevitableIff | src/ooptdd/engine/monitor.py:367-472 | For any rule with distinct names and each of the four kinds of feed (ordered or not, uniformly stamped or not), the exact condition on the rule under which every `viol` is inevitable. |
| OrderInevitability.ViolInevitableIffShort | src/ooptdd/engine/monitor.py:407-452 | On ordered feeds stamped any way, `viol` is inevitable if and only if the sequence has at most two names or the bound is negative. |
| OrderInevitability.ViolInevitableIffNoExcuse | src/ooptdd/engine/monitor.py:407-452 | On uniformly stamped feeds in any order it is if and only if the sequence has at most two names or `tie_skew_ms` excuses no step: it is unset, under a microsecond, or too small for a negative bound. |
| OrderInevitability.LateNameRepairsViol | src/ooptdd/engine/monitor.py:407-421 | For every other rule the feed that shows it: a late name between two far-apart ones turns a decided `viol` into a pass. |
| OrderInevitability.UnsortedFeedRepairsViol | src/ooptdd/engine/monitor.py:407-421 | The shortest such feed, under a window of one millisecond. |
| HeartbeatWindow.HeartbeatMeansWindows | src/ooptdd/engine/monitor.py:475-560 | On a time-ordered stream the check passes if and only if there is a beat and every window (t, t+every] from the span's first instant to before its last holds one, the span being the beats' or, with `edge_silence`, the stream's. |
| HeartbeatWindow.MaxGapMeansShortGaps | src/ooptdd/engine/monitor.py:503-518 | The accumulated maximum is within the period exactly when every single gap is. |
| HeartbeatWindow.HeartbeatMeaning | src/ooptdd/engine/monitor.py:475-560 | On a stream in order: some event beats, and between any two events of the span (beats, or all stamped events under `edge_silence`) no window of `every_s` passes without a beat. |
| HeartbeatWindow.HeartbeatDecision | src/ooptdd/engine/monitor.py:503-518 | Before the stream ends, on any feed, `viol` exactly when two beats with none between them are more than `every_s` apart. |
| LiveBank.CompileCheck | src/ooptdd/engine/monitor.py:855-922 | Each modelled rule compiles to a fresh monitor of that rule, or is refused exactly when its constructor raises. |
| LiveBank.RunMonitor | src/ooptdd/engine/monitor.py:836-845 | The batch run returns the judgement of the whole list under indexes 0, 1, 2, ... |
| LiveBank.LiveMonitorSet.constructor | src/ooptdd/engine/monitor.py:934-936 | A bank of distinct fresh monitors has been fed nothing. |
| LiveBank.LiveMonitorSet.Feed | src/ooptdd/engine/monitor.py:951-956 | One call steps every monitor object of the bank once, under the given or the running index, which then moves on. |
| LiveBank.LiveMonitorSet.Verdicts | src/ooptdd/engine/monitor.py:958-960 | The verdict of each monitor is its latch after the fed stream. |
| LiveBank.LiveMonitorSet.Collapse | src/ooptdd/engine/monitor.py:962-964 | Each result is the judgement of its monitor's rule on the fed stream, for reachable and complete reads. |
| LiveBank.FeedAll | src/ooptdd/engine/monitor.py:925-964 | Feeding a list one event at a time gives, monitor by monitor, the result RunMonitor gives: verdict, settle index and outcome. |
| GateKernel.StreamSorted | src/ooptdd/engine/gate_primitives.py:30-39 | Sorting a read by stream key keeps its multiset of events. |
| GateKernel.StreamSortedIsInOrder | src/ooptdd/engine/gate_primitives.py:30-39 | The sorted read is in stream order, untimestamped events last. |
| GateMeaning.SortedReadIsOrdered | src/ooptdd/engine/gate_primitives.py:30-39 | The sorted read lists timestamped events first, by timestamp and then sequence. |
| GateMeaning.StreamSortedIsStable | src/ooptdd/engine/gate_primitives.py:30-39 | Events of one key keep the order they were read in. |
| GateKernel.EvaluateCheck | src/ooptdd/engine/gate_kernel.py:93-143 | Compiling a rule and driving its monitor object over the sorted read gives the check the gate judges, or an error exactly for an uncompilable rule or negative weight. |
| GateMeaning.CheckMeaning | src/ooptdd/engine/gate_kernel.py:93-143 | A check gates and weighs as its rule says; a kernel rule passes only on a reachable, complete read it holds of, a rule with its own handler as that handler says. |
| GateKernel.JudgeEvents | src/ooptdd/engine/gate_kernel.py:298-310 | The gate's loop over its rules yields the specified judgement, including the error when nothing can be weighed. |
| GateMeaning.JudgeDefinedIff | src/ooptdd/engine/gate_kernel.py:146-159 | There is a verdict unless a rule is unusable (negative weight, repeated name, empty field) or the threshold is outside (0, 1] or has no gating weight to measure. |
| GateMeaning.JudgeOkIff | src/ooptdd/engine/gate_kernel.py:146-295 | The gate is ok if and only if the read is reachable and complete, some rule gates (not optional, not pending, not tautological), every gating rule holds of the sorted events or is passed by its handler - under a threshold t, those that do carry at least t of the gating weight - and the three policy clauses are met. |
| EarlySettle.MatchedMonotone | src/ooptdd/engine/verify.py:194-231 | A count over any rearranged multiset superset of the events is at least as high. |
| EarlySettle.SatSurvivesMoreEvents | src/ooptdd/engine/verify.py:194-231 | A `sat` of any rule but `must_order` passes on every multiset superset, timestamps and order arbitrary. |
| EarlySettle.AllPassedMeetsRequirement | src/ooptdd/engine/gate_kernel.py:146-159 | When every gating check passes, the requirement holds with and without a weighted threshold. |
| EarlySettle.SettledGreenIsIrrevocable | src/ooptdd/engine/verify.py:194-231 | A settled green stays `ok` on every later reachable, complete read of a store that only grew. |
| OrderExclusion.SatSurvivesIff | src/ooptdd/engine/verify.py:215-231 | For every legal rule: a `sat` on a sorted read passes on every multiset superset if and only if the rule is not a `must_order` of two names or more. |
| OrderExclusion.OrderExclusionIsNecessary | src/ooptdd/engine/verify.py:215-231 | The `must_order` exclusion is needed, whatever the names, bound and window: a gate of any such rule with two names or more is green with `sat` on a read that a larger, reachable and complete read turns red. |
| Poller.PollUntilPresent | src/ooptdd/engine/verify.py:51-191 | The loop over clock, sleeper and store ends, and its outcome is a prefix settlement, a final verdict after the blind-window extension and confirmations, or an exception out of the evaluator, each with the exact reads that led there. |
| Poller.ReadNext | src/ooptdd/engine/verify.py:125-142 | A sleep and a read leave the session at the scheduled time of the next read and evaluate exactly that read. |
| Poller.StopEarly | src/ooptdd/engine/verify.py:144-167 | Returning from a prefix reports the attempt count and whether the extension was used. |
| Poller.FinishPolling | src/ooptdd/engine/verify.py:168-191 | The final evaluation and the confirmation rounds: any round that is not green wins, and a green one had all of them. |
| Poller.VerifyGate | src/ooptdd/engine/verify.py:234-356 | The gate poller is that loop over the gate's evaluator. |
| PollerMeaning.SettledGreenIff | src/ooptdd/engine/verify.py:194-231 | An early settle is due exactly when the gate is ok, needs no signature, and every gating rule is a `>=` or `>` count or a presence rule that holds of the read; what does not gate has no say. |
| PollerMeaning.RunEndsAtFirstSettling | src/ooptdd/engine/verify.py:144-167 | The run ends at the first such read, present and `irrevocable_prefix`, with that attempt count; no read before it raises. |
| PollerMeaning.RunSettlesEarlyIff | src/ooptdd/engine/verify.py:295-310 | It settles early if and only if one of the reads before the final one is such a read. |
| PollerMeaning.RunFailsIff | src/ooptdd/engine/verify.py:278-310 | A run fails if and only if the spec has no verdict, and then on the first read. |
| PollerMeaning.FinalVerdict | src/ooptdd/engine/verify.py:310-340 | Otherwise the verdict is that of the last read: present when the gate is ok, else inconclusive when the store or a probed source did not answer in full, else absent. |
| PollerMeaning.PauseMeaning | src/ooptdd/engine/polling.py:45-62 | The pause after the n-th read is the larger of `Retry-After` and the delay grown geometrically n - 1 times, capped at max_delay. |
| PollerMeaning.ReadsAreSpaced | src/ooptdd/engine/verify.py:144-152 | Within the budget a read is issued no sooner than that pause after the one before it was done. |
| PollerMeaning.ConfirmationsAreSpaced | src/ooptdd/engine/verify.py:178-191 | A confirming read is issued no sooner than confirm_delay_s after the one before it was done. |
| Poller.OutcomeIsDetermined | src/ooptdd/engine/verify.py:51-191 | Evaluator, settings and world admit one outcome, so the loop's contract leaves nothing open. |
| Poller.ReadsAreBounded | src/ooptdd/engine/verify.py:144-191 | A run makes between one and retries + 1 + confirm_rounds reads. |
| Poller.BlindWindowHasPassed | src/ooptdd/engine/verify.py:154-177 | When the store answered within the retries, the final evaluation happens at least the declared visibility delay after the start, and a read made for the extension is issued after it. |
| Poller.AbsentIsOutsideBlindWindow | src/ooptdd/engine/verify.py:154-191 | `absent` implies a reachable, complete last read, judged outside the blind window; it was issued outside as well when the run was extended or confirmed or the read took no time. |
| Poller.AbsentIssuedOutsideIffInstant | src/ooptdd/engine/verify.py:154-177 | Over all gates, settings and worlds with given read durations, the last read behind every `absent` was issued outside the blind window if and only if reads take no time: the guard looks at the clock after the read. |
| Poller.FinalPresentIsConfirmed | src/ooptdd/engine/verify.py:178-191 | A `bounded_final` present was green at the final evaluation and at each of confirm_rounds further reads. |
| Poller.EarlySettleRefinesFullPolling | src/ooptdd/engine/verify.py:295-310 | An `irrevocable_prefix` present implies that the same schedule with `settle_early=False` ends present too, provided the reads that may end it show the grown store; reads in between may fail. |
| ToolCalls.CreditIsProper | extensions/ooptdd-trajectory/src/ooptdd_trajectory/__init__.py:318-335 | Over arbitrarily nested dicts the credit lies in [0, 1] and is 1 if and only if expected and observed are equal. |
| ToolCalls.DictCredit | extensions/ooptdd-trajectory/src/ooptdd_trajectory/__init__.py:318-335 | The recursive accumulation terminates and computes that credit. |
| ToolCalls.SumCredits | extensions/ooptdd-trajectory/src/ooptdd_trajectory/__init__.py:329-335 | The loop over shared keys computes the same sum in whatever order it takes them. |
| ToolCalls.ScorePair | extensions/ooptdd-trajectory/src/ooptdd_trajectory/__init__.py:338-348 | The pair scorer's branches over names, matchers and literal arguments give the specified score. |
| ToolCalls.PairScoreIsProper | extensions/ooptdd-trajectory/src/ooptdd_trajectory/__init__.py:338-348 | Every pair score lies in [0, 1]; exact comparison never exceeds partial and is full exactly when partial is. |
| ToolCalls.UnparseableEarnsNothing | extensions/ooptdd-trajectory/src/ooptdd_trajectory/__init__.py:230-247 | Arguments that could not be parsed earn nothing when arguments are compared. |
| ToolCalls.NamesDecideAlone | extensions/ooptdd-trajectory/src/ooptdd_trajectory/__init__.py:338-348 | Where arguments are not compared or not expected, or the names differ, the score is 1 for equal names and 0 otherwise. |
| ToolCalls.MatcherScore | extensions/ooptdd-trajectory/src/ooptdd_trajectory/__init__.py:230-247 | With a matcher among the expected arguments the score is 1 if every matcher holds of what arrived under its key (None when nothing did) and every literal arrived equal, and 0 otherwise. |
| ToolCalls.LiteralScore | extensions/ooptdd-trajectory/src/ooptdd_trajectory/__init__.py:318-348 | With literals alone the score is 1 exactly for the expected arguments key by key; otherwise 0 under exact comparison and the dict credit under partial, 0 for arguments that are absent or unreadable. |
| ToolCalls.CreditByKeys | extensions/ooptdd-trajectory/src/ooptdd_trajectory/__init__.py:318-335 | The credit of two dicts times the number of their keys is what the keys bring: 1 for equal values, the inner credit for two dicts, 0 otherwise and for a key on one side. |
| Matching.BestIsUpperBound | extensions/ooptdd-trajectory/src/ooptdd_trajectory/__init__.py:399-413 | No strictly increasing partial matching of the first i expected and first j observed calls outweighs the table entry. |
| Matching.BestIsAttained | extensions/ooptdd-trajectory/src/ooptdd_trajectory/__init__.py:399-413 | Some such matching weighs exactly the table entry. |
| Matching.BestIsHeaviest | extensions/ooptdd-trajectory/src/ooptdd_trajectory/__init__.py:399-413 | So the table's corner is the maximum total weight of an increasing partial matching. |
| Matching.BestIsFullIffAssignable | extensions/ooptdd-trajectory/src/ooptdd_trajectory/__init__.py:399-413 | The table's corner lies between 0 and n, and is n if and only if some increasing assignment gives every expected call weight 1. |
| Matching.FirstBestIsBest | extensions/ooptdd-trajectory/src/ooptdd_trajectory/__init__.py:384-392 | The greedy scan picks the first of the best free positive pairs. |
| Matching.GreedyMeaning | extensions/ooptdd-trajectory/src/ooptdd_trajectory/__init__.py:376-396 | The greedy state is that of a pass of pairs, each taking for its call the first of the best observed calls none before it took, every other call finding nothing left that scores; the total is their weight. |
| Matching.GreedyFollowsAssignment | extensions/ooptdd-trajectory/src/ooptdd_trajectory/__init__.py:376-396 | Where an increasing assignment exists, greedy picks never pass it and every pick has weight 1. |
| Matching.AssignableMeansGreedyFull | extensions/ooptdd-trajectory/src/ooptdd_trajectory/__init__.py:376-413 | A perfect ordered match is a perfect greedy match. |
| Matching.GreedyCountsSharedNames | extensions/ooptdd-trajectory/src/ooptdd_trajectory/__init__.py:376-396 | With names alone the greedy total is the size of the multiset intersection of the names. |
| Matching.NamesAssignableIffSubsequence | extensions/ooptdd-trajectory/src/ooptdd_trajectory/__init__.py:399-413 | With names alone an ordered assignment exists if and only if the expected names are a subsequence. |
| Trajectory.ScoreExact | extensions/ooptdd-trajectory/src/ooptdd_trajectory/__init__.py:363-373 | 1 exactly when lengths agree and every position scores full, 0 otherwise, with the mismatched names in order. |
| Trajectory.ScoreOrdered | extensions/ooptdd-trajectory/src/ooptdd_trajectory/__init__.py:399-413 | The table method returns the heaviest increasing matching's weight divided by the number of expected calls, 1 when none is expected, and the expected names never seen. |
| Trajectory.FillRow | extensions/ooptdd-trajectory/src/ooptdd_trajectory/__init__.py:406-409 | The inner loop fills one row of the table and touches no other. |
| Trajectory.PickBest | extensions/ooptdd-trajectory/src/ooptdd_trajectory/__init__.py:384-390 | The scan over the free observed calls returns the greedy pick and its weight. |
| Trajectory.ScoreSubset | extensions/ooptdd-trajectory/src/ooptdd_trajectory/__init__.py:376-396 | The greedy method returns the greedy total divided by the number of expected calls and names the unmatched ones. |
| Trajectory.ModesNest | extensions/ooptdd-trajectory/src/ooptdd_trajectory/__init__.py:338-413 | With arguments and matchers: exact full implies ordered full implies subset full, and every score is in range. |
| Trajectory.ScoreAll | extensions/ooptdd-trajectory/src/ooptdd_trajectory/__init__.py:363-413 | The three scorers on one input: each in [0, 1], exact = 1 implies ordered = 1 implies subset = 1. |
| Trajectory.NameOnlyScores | extensions/ooptdd-trajectory/src/ooptdd_trajectory/__init__.py:376-413 | By names, subset counts the shared names and ordered is full exactly for subsequences. |
| Trajectory.MismatchedMeaning | extensions/ooptdd-trajectory/src/ooptdd_trajectory/__init__.py:363-373 | `exact` reports the names of exactly the positions that do not score full, in order. |
| Trajectory.UnseenMeaning | extensions/ooptdd-trajectory/src/ooptdd_trajectory/__init__.py:399-413 | `ordered` reports the names of exactly the expected calls whose name no observed call has, in order. |
| Trajectory.MissingMeaning | extensions/ooptdd-trajectory/src/ooptdd_trajectory/__init__.py:376-396 | `subset` misses exactly the expected calls against which, at their turn, no free observed call scores anything, in order. |
| Reducer.AdvanceStaysValid | src/ooptdd/ouroboros/reducer.py:24-88 | The snapshot built for an accepted event always passes the snapshot constructor's checks. |
| Reducer.StepKeepsPath | src/ooptdd/ouroboros/reducer.py:24-88 | A step keeps unique ids, a contiguous path of executable transitions from the initial state and revision = steps used = history length within budget; only a fresh acceptance out of a non-terminal state changes anything, by one record. |
| Reducer.RunKeepsPath | src/ooptdd/ouroboros/reducer.py:24-88 | Every run keeps all that, extends the history, keeps budget and generation, and leaves a terminal snapshot as it is. |
| Reducer.InitialIsOnPath | src/ooptdd/ouroboros/model.py:358-375 | The first snapshot meets the invariant. |
| Reducer.KnownIdChangesNothing | src/ooptdd/ouroboros/reducer.py:38-42 | An event whose id was accepted before never changes the snapshot, whatever its intent. |
| Reducer.RedeliveryOutcome | src/ooptdd/ouroboros/reducer.py:38-88 | The accepted event sent again is a replay; a different intent under its id is an identity conflict. |
| Reducer.RedeliveryIsHarmless | src/ooptdd/ouroboros/reducer.py:38-42 | Any number of repeats inserted anywhere after acceptance leaves the final snapshot unchanged. |
| Reducer.LateCopyIsHarmless | src/ooptdd/ouroboros/reducer.py:38-42 | In particular one copy at any later point of any event sequence. |
| ReducerMeaning.OtherPolicyIsRejected | src/ooptdd/ouroboros/reducer.py:24-37 | `policy_mismatch` exactly when evaluator version, evaluator digest, snapshot digest or event digest is not the definition's. |
| ReducerMeaning.KnownIdAnswer | src/ooptdd/ouroboros/reducer.py:38-42 | Under a known id: a replay when the recorded intent and policy are the event's, a conflict otherwise. |
| ReducerMeaning.FreshAnswer | src/ooptdd/ouroboros/reducer.py:43-88 | Ten conditions on a fresh event, each stated on the definition, snapshot, evaluator and evidence: the first one violated gives the rejection code; when none is, the rule fires and the new snapshot is spelled out. |
| ReducerMeaning.FreshlyAcceptedIff | src/ooptdd/ouroboros/reducer.py:24-88 | A fresh acceptance happens if and only if policy, id and some rule meet every condition. |
| ReducerMeaning.TerminalNeedsEvidence | src/ooptdd/ouroboros/reducer.py:74-99 | An event accepted into a terminal state brought evidence that is satisfied and holds every required authority and artifact. |
| ReducerMeaning.ValidatorMustApprove | src/ooptdd/ouroboros/reducer.py:62-66 | A rule that names a validator fires only when that validator returned true. |
| ReducerMeaning.RunMeaning | src/ooptdd/ouroboros/reducer.py:24-88 | Every run: counters count its records within the budget, ids are distinct, and the history leads from the initial state to the present one by declared transitions out of states that are not terminal and by events the recovery policy allows. |
| Conformance.TransitionClasses | src/ooptdd/ouroboros/conformance.py:59-80 | On a well-formed definition the three classes are what the reducer answers a fresh event for the transition, payload and evidence being in order: terminal state, recovery denied, or no objection; executable indexes come in order. |
| Conformance.ClassesAreAnswers | src/ooptdd/ouroboros/reducer.py:43-75 | Each class holds of a transition if and only if the reducer gives that one answer in every snapshot with budget left. |
| Conformance.GrowOnce | src/ooptdd/ouroboros/conformance.py:88-94 | One pass only adds reachable states, and a pass that adds none has closed the set under executable transitions. |
| Conformance.ReachableStates | src/ooptdd/ouroboros/conformance.py:83-95 | The fixpoint loop terminates with exactly the statically reachable states. |
| Conformance.HistoryRuns | src/ooptdd/ouroboros/reducer.py:24-88 | Any history that follows executable transitions with genuine intents is written by replaying its events. |
| Conformance.StaticIffDynamic | src/ooptdd/ouroboros/conformance.py:83-95 | A state is statically reachable if and only if some evaluator, budget and event sequence drive the reducer to it. |
| Conformance.ReachableTransitionIffFires | src/ooptdd/ouroboros/conformance.py:161-185 | A transition is reported reachable if and only if some run takes it. |
| Conformance.FindingsMeaning | src/ooptdd/ouroboros/conformance.py:98-158 | The findings of such a report are exactly those true of the definition and its runs. |
| Conformance.FindingsInOrder | src/ooptdd/ouroboros/conformance.py:98-158 | They come by kind - out of terminal states, unmatched recovery pairs, not allowed in recovery, unreachable states, unreachable transitions - and within a kind in the order declared. |
| Conformance.AnalyzeDefinition | src/ooptdd/ouroboros/conformance.py:161-185 | Reported states and transitions are those runs can reach and fire, every finding is true and every true one is listed, all in declaration order, and there is none exactly for a conformant definition. |
| Receipt.ValidateReceipt | src/ooptdd/ouroboros/receipt.py:127-169 | Every failed condition is reported once and in the order checked; nothing is reported exactly for an accepted receipt. |
| Receipt.TerminalRunYieldsReceipt | src/ooptdd/ouroboros/receipt.py:87-124 | Every terminal snapshot of a run yields a receipt with its history, and validation finds no error in it. |
| Receipt.AcceptedReceiptFromRunIff | src/ooptdd/ouroboros/receipt.py:127-169 | A well-shaped accepted receipt comes from a run if and only if its records took transitions the reducer would and carry their own intents. |
| Receipt.AcceptedWithoutRun | src/ooptdd/ouroboros/receipt.py:154-169 | The condition is needed: an accepted receipt that walks out of a terminal state, which no run issues. |
| Receipt.ReceiptIssuedIff | src/ooptdd/ouroboros/receipt.py:87-124 | A receipt is issued if and only if policy and evaluator agree, the state is terminal, and the records lead from the initial state to it by declared transitions under distinct ids; it carries the snapshot's fields and their digest. |
| Receipt.SuccessorIff | src/ooptdd/ouroboros/reducer.py:102-125 | A snapshot on its path has a successor if and only if its state is terminal and a generation is left; it is the first snapshot of the next generation. |
| Receipt.SuccessorNeedsReceipt | src/ooptdd/ouroboros/reducer.py:102-125 | No successor starts under another policy or from a snapshot no receipt can be issued for. |
| Receipt.LineageKeepsPath | src/ooptdd/ouroboros/reducer.py:102-125 | Along a lineage of successors the generation counts up by one and the budget stays. |
| Receipt.LineageIsBounded | src/ooptdd/ouroboros/reducer.py:102-125 | A lineage has at most max_generations members and accepts at most max_steps * max_generations events. |
| Ranking.SortedIsNonincreasing | extensions/ooptdd-mutation/src/ooptdd_mutation/analysis.py:722 | The ideal list is non-increasing (and a permutation of the relevances). |
| Ranking.TopSumIsLargest | extensions/ooptdd-mutation/src/ooptdd_mutation/analysis.py:712-727 | Any n of the relevances sum to at most the n largest. |
| Ranking.GainCoversLead | extensions/ooptdd-mutation/src/ooptdd_mutation/analysis.py:712-727 | Under a positive, strictly decreasing discount the ideal's advantage covers its discounted lead in prefix sums. |
| Ranking.DcgBelowIdeal | extensions/ooptdd-mutation/src/ooptdd_mutation/analysis.py:712-727 | DCG never exceeds ideal DCG at any truncation and meets it only when the scored prefix is the ideal prefix. |
| Ranking.NdcgIsProper | extensions/ooptdd-mutation/src/ooptdd_mutation/analysis.py:712-727 | With non-negative relevances nDCG lies in [0, 1] and is 1 exactly for the ideal prefix, truncation (negative ones too) included. |
| Ranking.UntruncatedNdcg | extensions/ooptdd-mutation/src/ooptdd_mutation/analysis.py:712-727 | Untruncated it is 1 exactly for a non-increasing order and undefined exactly when nothing is relevant. |
| Ranking.DcgIsDiscountedSum | extensions/ooptdd-mutation/src/ooptdd_mutation/analysis.py:712-727 | DCG is zero for nothing relevant and linear in each position at that position's discount. |
| Ranking.NdcgMeaning | extensions/ooptdd-mutation/src/ooptdd_mutation/analysis.py:712-727 | nDCG times the best DCG any order of the relevances reaches in the places `[:k]` keeps is the ranking's own DCG there; it is missing exactly when that best is zero. |
| Slices.TakenPositions | extensions/ooptdd-mutation/src/ooptdd_mutation/analysis.py:721-723 | A position is kept by `[:k]` exactly when it lies before k, counted from the end for a negative k. |
| AuditRanking.RankedKillsAreStable | extensions/ooptdd-mutation/src/ooptdd_mutation/analysis.py:730-748 | The ranked view lists every row, kills first, equal statuses in canonical order. |
| AuditRanking.RankedKillsScoreOne | extensions/ooptdd-mutation/src/ooptdd_mutation/analysis.py:730-748 | Its own order scores 1 whenever anything was caught and is undefined otherwise. |
| AuditRanking.VerifyAuditRanking | extensions/ooptdd-mutation/src/ooptdd_mutation/analysis.py:756-834 | Refusals in source order with the first row that fails positional authentication; an authentic report is refused for a non-permutation or for killing nothing, and scored otherwise. |
| AuditRanking.ScoreMeansKillsFirst | extensions/ooptdd-mutation/src/ooptdd_mutation/analysis.py:819-834 | A scored audit is in [0, 1], is 1 exactly when kills precede survivors, and always when it is not order-sensitive. |
| AuditRanking.AuditMeaning | extensions/ooptdd-mutation/src/ooptdd_mutation/analysis.py:806-834 | The audit of a permutation is the nDCG of its kills, a kill being an id whose last row was caught; it is refused exactly when nothing was killed, and says whether both kills and survivors are ranked. |
| AuditRanking.OrderSensitiveIffSomeOrderScoresLess | extensions/ooptdd-mutation/src/ooptdd_mutation/analysis.py:832 | `order_sensitive` is set if and only if some permutation of the audited ids would score below 1. |
| HashChain.SignChain | src/ooptdd/domain/model.py:187-204 | Signing keeps every record's content, adds only the two chain fields, and the result verifies against its own length and head, with or without key evolution. |
| HashChain.VerifyChain | src/ooptdd/domain/model.py:207-258 | `ok` exactly for an intact chain meeting both expectations; otherwise the first failing record with its link judged before its MAC, then truncation, then the head. |
| HashChain.KeyIsEvolved | src/ooptdd/domain/model.py:183-204 | Record i is keyed by the key digested i times under evolution, by the one key otherwise. |
| HashChain.VerifiesIff | src/ooptdd/domain/model.py:207-258 | Spelled out: record i carries the MAC text before it ('' for the first), its own MAC covers the JSON of every field but the two of the chain followed by that text, and length and last MAC are as expected. |
| HashChain.PrefixVerifiesIffLongEnough | src/ooptdd/domain/model.py:217-229 | A prefix of an intact chain verifies without anchor, and against an expected length exactly when it is at least that long. |
| HashChain.ChainIsDetermined | src/ooptdd/domain/model.py:187-204 | Contents and key determine the whole chain. |
| HashChain.MessageSplits | src/ooptdd/domain/model.py:176-200 | Content text and previous MAC can be read back from the signed message. |
| HashChain.HeadBindsWholeLog | src/ooptdd/domain/model.py:207-258 | Two chains accepted against the same head have equal length and canonical contents, or exhibit a MAC collision between them. |
| HashChain.CollisionIsReal | src/ooptdd/domain/model.py:187-258 | The collision these statements fall back on is two different inputs with one MAC, both from the chains at hand. |
| HashChain.HeadRejectsTruncation | src/ooptdd/domain/model.py:217-258 | Against the full head exactly the full length verifies, short of a collision. |
| HashChain.MovedRecordIsReported | src/ooptdd/domain/model.py:231-243 | A record at another position is reported as a broken link exactly where the logs part, short of a collision. |
| HashChain.InteriorDeletionIsReported | src/ooptdd/domain/model.py:231-243 | An interior deletion is reported at the deleted position. |
| HashChain.EditIsReported | src/ooptdd/domain/model.py:231-243 | An edited content under the old chain fields is reported as a MAC mismatch at that record. |
| Paging.Stamp | src/ooptdd/backends/openobserve.py:183-184 | The hits of a page carry their global positions. |
| Paging.OpenObserve.Query | src/ooptdd/backends/openobserve.py:190-258 | The driver's loop returns a prefix of the rows, each at its position; it is complete exactly when every page arrived and no full page met max_rows, and then holds every row. |
| Paging.OpenObserve.QuerySpec | src/ooptdd/backends/openobserve.py:131-188 | Without limit and cursor the whole read; otherwise one page at the offset, with the next cursor exactly when the page was full. |
| Paging.FetchAllPages | src/ooptdd/domain/ports.py:421-456 | Walking cursors with any page size ends; `complete` exactly when every page arrived and none met the guard, and then every row from the cursor on at its global position; a guarded stop leaves a truncated prefix and the next cursor. |
| Paging.CompleteReadsAgree | src/ooptdd/domain/ports.py:421-456 | Two complete reads agree whatever their page sizes and caps; an incomplete one is a prefix of them. |
| Paging.ResumingLosesNothingIffAligned | src/ooptdd/domain/ports.py:453-456 | Resuming from the cursor of a guarded stop misses no row if and only if max_rows is a positive multiple of the page size. |

## Left out

- RatioMonitor, InvariantMonitor, MetamorphicMonitor, ConformsMonitor: they never latch `sat`; with external probes and custom checks they appear in the gate as observations without a kernel verdict, which `_settled_green` refuses. Such results are taken not to be tautological.
- Result dictionaries: labels, briefs, details, grounding and strength decorations, and the arrival stamp; only the fields the verdict depends on are kept.
- Shape checks of specs, settings and payloads (text, integer ranges, JSON nesting), settings resolution, and the bound of interoperable integers.
- `_evaluate` entry points, registries, signatures other than as a fixed condition on the events of a read, force-flush, and the query window; a read is whatever the store answers.
- Poller.PollUntilPresent: the clock moves in the sleeper, which sleeps at least as long as asked, and during each read with its evaluation; a clock that runs backwards is not modelled.
- LiveBank.LiveMonitorSet.Feed: assumes the bank's monitors are distinct objects, as `from_rules` makes them; a bank holding one object twice is not modelled.
- LiveBank.CompileCheck: starts from a rule of the six modelled kinds; key precedence in the rule dictionary, operator spelling and the four kinds named above are not modelled.
- Trajectory inputs after normalisation: extraction of calls from events and the matcher vocabulary are not modelled; a matcher is an arbitrary condition on the observed value, and values compare by structure, so `1 == True` is out.
- Rounding of scores and of nDCG, and floating-point error in sums: reals throughout. The discount is any positive strictly decreasing sequence, of which 1/log2(i + 2) is one.
- Protocol digests are collision-free constructors; canonical JSON and SHA-256 are not modelled there. In `HashChain` nothing is assumed free of collisions, only that digests are non-empty hexadecimal and JSON objects end in a brace; key leakage under evolution, and the error a non-ASCII MAC text raises in the constant-time comparison, are not modelled.
- AuditRanking.VerifyAuditRanking: takes the re-derived mutation ids as given; deriving the mutants and hashing them is not modelled.
- Cursors are offsets; their decimal text and the error for malformed text are not modelled. A failing request carries its kind and Retry-After only, and missing configuration counts as a failing request.
- Ontology compatibility, strength fingerprints, gate freezing, readiness checks and the Wilson interval: further parts of the repository with weaker claims.
- I/O, HTTP, files, command line, pytest plugin, report rendering and vendoring scripts.
