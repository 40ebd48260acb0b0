# Segmentation, packing and coverage: a Dafny model

Sessions of an engineer and an agent are cut into blocks, merged, read as episodes, packed into bounded
windows, and covered by a tick that characterises what no prompt reaches. This project models those
algorithms and proves what each of them keeps. Instants, caps and gaps are whole seconds; a store is a finite
sequence of reference events (instant, level, reference, count).

- `Store` — the event store: additive evidence per level, the attribution decision, turn instants, active bins.
- `Allocation` — that decision read off a level's rollup: the eight allocation levels by name, every reason the
  branching can give, and `can_attribute` as exactly "some level reads attributed".
- `Blocks`, `Cutters`, `CutterProperties` — the four bound arms. Each is its own loop, proved equal to one
  specification, `Cutters.Bound`: take the arm's next boundary, emit, repeat. What the arms promise is then
  proved about `Bound`.
- `IdleArm`, `IdleBlocks` — splitting a span at silence, and lifting any arm over the active segments; where the
  segments lie in seconds, and which blocks stand in each.
- `IdleEvidence` — the idle arms over a store's own bins: no event and no evidence is lost with the dead air.
- `MergeThin`, `MergeProperties`, `MergeCounts`, `NeighbourValue` — absorbing under-evidenced blocks: one closed form
  for the output and every counter, what the absorption keeps, each counter as the size of the set it counts, and when
  a block's published value survives it.
- `Episodes`, `EpisodeScan`, `PublishedEpisodes`, `CapEpisodes` — the episode machine. `Episodes.Step` is one bin; the class
  `EpisodeScan.Scanner` holds the variables the closures share; one invariant is kept by every step.
  `PublishedEpisodes` reads each published record back against the bins. `CapEpisodes` says for which transcripts the length cap keeps the promise the other closes keep.
- `Packing`, `Windows` — the two-sweep fit, strides, headers and rendering.
- `WindowContents`, `WindowHeaders` — what a window carries, misses and counts, against the transcript's own turns.
- `Prose` — trimming the longest message first at sentence boundaries, and exactly when that ends.
- `Intervals` — interval merging and the binary-search count.
- `TickGaps`, `TickPlanner`, `TickRuns`, `TickProgress`, `TickCoverage` — the gaps and the windows of one tick, the
  ledger over any run of ticks, how far a tick gets and what it withholds, and the coverage replay.
- `ErrorRuns`, `Scoring`, `ScoreMeaning` — the one-pass error runs and the detection accounting against their
  specifications, and what one more window adds to a tally.

## Where the code and its documentation differ

The model follows the code. Three statements in its documentation do not hold as worded:

- An episode closed by the length cap can publish a state that its own last bin contradicts, although the flush
  exists to prevent that (`scripts/refseries.py:453-461`). `EpisodeScan.CapCanMislabel` is an input.
  `CapEpisodes.CapsEndOnTheirOwnIff` is the condition: for given instants and thresholds the promise holds for every
  sequence of states if and only if the debounce is at most one bin, or the cap closes only single bins when the
  state never changes. Idle gaps and the end of the transcript do keep the promise.
- `max_global` is described as the stricter reading of a failure run (`scripts/tool_signal.py:305-307`). It is so for
  every pattern of failures exactly when the window touches one resource: `ErrorRuns.GlobalIsStricterIffOneResource`.
- A block that publishes a value is said to keep it when thin evidence is folded in
  (`scripts/block_sizing_eval.py:488-496`). With n thin blocks folded in around it, it does whatever they hold if and
  only if its value leads every other by more than 4n and holds half of its level with 4n to spare:
  `NeighbourValue.MergedValueSurvivesIff`, with an input in `NeighbourValue.PublishingIsNotEnough`.

Three functions have a condition that their code does not state:

- `bound` rewrites a one-word message with a trailing blank to itself for as long as it is the longest, and then never
  ends (`scripts/prose_activity.py:185-198`). `Prose.BoundEndsIff` is the exact condition, which a caller can read off
  the messages and the budget.
- `in_any` decides membership by binary search (`scripts/tick_coverage.py:86-95`), which is right at every instant if
  and only if no interval reaches past a later one before the next starts: `Intervals.HitIsCoveredIff`. Every call
  passes merged intervals or a single one, which meet it: `Intervals.CallersMeetTheCondition`.
- Recall is over (window, transition) pairs (`scripts/sizer_eval.py:70-72`), yet a window credits its detection with
  one transition. `miss` counts the undetected pairs and no others, whatever the sizer answers, if and only if no
  window holds two transitions at most twice the tolerance apart: `Scoring.MissIsUndetectedWhateverFiresIff`, with an
  input in `Scoring.MissCanOvercount`.

## Model

| member | source | states |
|---|---|---|
| Store.EvidenceSplits | scripts/block_sizing_eval.py:94-106 | pooled evidence of abutting spans adds up |
| Store.EvidenceMonotone | scripts/block_sizing_eval.py:94-106 | a wider span never holds less evidence |
| Store.AttributedIffOwned | sidecar/app/analysis/window.py:156-183 | the branching over the ranked rollup says attributed exactly when, over the raw events, the level has at least 5 observations and one reference strictly beats all others and holds half |
| Store.AttributableIsNotThin | scripts/block_sizing_eval.py:733-737 | a span that can attribute on one level clears the pooled floor |
| Store.PooledIsNotAttributable | scripts/block_sizing_eval.py:114-116 | the converse fails: one observation at each of the eight levels pools to eight, and no level can be attributed |
| Allocation.CanAttributeIffReads | scripts/block_sizing_eval.py:109-120 | a span can attribute if and only if, for one of the eight allocation levels, the branching over a ranked rollup of the span says attributed |
| Allocation.AnyAttributedLevelIsEnough | scripts/block_sizing_eval.py:119-120 | whichever of the eight it is and whatever its rollup, one attributed level suffices; a span that can attribute has one that every rollup of it reads attributed |
| Allocation.ReasonsAreExact | sidecar/app/analysis/window.py:156-183 | the other reasons over the raw events: absent, nothing seen; thin, fewer than 5; tie, the top shared; no majority, one top holding less than half |
| Allocation.EvidenceOfOne | scripts/block_sizing_eval.py:94-106 | one event adds its count to the evidence exactly when its level is one of the eight and its instant in [start, end) |
| Store.Instants | sidecar/app/analysis/store.py:1528-1536 | the distinct event instants of the session, strictly ascending, all of them and no others |
| Store.TurnTimes | sidecar/app/analysis/store.py:1528-1530 | those of them in [start, end), all and no others |
| Store.ActiveBins | scripts/sizer_eval.py:142-147 | the starts of exactly the five-minute bins that hold an event, strictly ascending |
| Blocks.TilesPlaceOnce | scripts/block_sizing_eval.py:186-188 | in a tiling every instant of (lo, hi] lies in exactly one block's (start, end], so an instant at a boundary belongs to the block it closes |
| Cutters.FormBlocks | scripts/block_sizing_eval.py:62-84 | arm A's loop is the specification's walk with the time boundary |
| Cutters.BoundEvidenceGated | scripts/block_sizing_eval.py:138-178 | arm B's nested loop is the walk with the evidence gate |
| Cutters.BoundTurns | scripts/block_sizing_eval.py:181-210 | arm C's two forward-only pointers give what rescanning all turns and cuts at every block gives |
| Cutters.BoundNone | scripts/block_sizing_eval.py:213-226 | arm D's loop is the walk bounded by nothing but cuts |
| Cutters.TwoPointerStep | scripts/block_sizing_eval.py:195-207 | one boundary read off the pointers is the boundary of the naive rescan |
| Cutters.StepSound | scripts/block_sizing_eval.py:62-84 | one boundary of any arm makes progress, jumps no cut, is labelled detected exactly at a cut, and closes the session exactly at its end |
| Cutters.RemainingFacts | scripts/block_sizing_eval.py:73 | the cuts considered are exactly those strictly inside the span, ascending |
| CutterProperties.EveryArmTiles | scripts/block_sizing_eval.py:398-400 | all four arms tile [lo, hi) with positive reason-chained blocks, every inside cut a boundary, detected exactly at cuts, a session end on the last block and only there |
| CutterProperties.FormBlocksIsMinimal | scripts/block_sizing_eval.py:62-84 | arm A returns exactly the sum of ceil(gap/cap) blocks, each at most the cap, and no tiling with a boundary at every cut and blocks within the cap has fewer |
| CutterProperties.GatedDeferralIsExact | scripts/block_sizing_eval.py:138-178 | a block list is arm B's answer if and only if it meets the deferral rule: budget is one cap, bound_deferred the least attributable multiple from two on, session_end_deferred means no multiple could attribute |
| CutterProperties.StoreGateReadsTheRollup | scripts/block_sizing_eval.py:164-171 | the oracle arm B asks of a store says yes exactly when some allocation level of the span reads attributed off its rollup |
| CutterProperties.PlainArmsMeetTheirClaims | scripts/block_sizing_eval.py:62-84 | arms A and D end blocks for their own reasons alone, and the reason gives the length: budget one cap, a session end at the end of the span |
| CutterProperties.AlwaysAttributableIsTime | scripts/block_sizing_eval.py:138-153 | with an oracle that always says yes arm B is arm A, reasons included |
| CutterProperties.NeverAttributableIsUnbounded | scripts/block_sizing_eval.py:213-226 | with an oracle that always says no arm B has arm D's spans |
| CutterProperties.GatedBoundsAreNotThin | scripts/block_sizing_eval.py:732-743 | with the store as oracle, a block ended at the bound clears the floor, so a thin block ended at a cut or at the end of the span |
| CutterProperties.TurnsAreCountedOnce | scripts/block_sizing_eval.py:181-210 | every turn lies in one block's (start, end]; a budget block holds exactly n and ends on one, a detected one at most n, the last fewer than n; the counts add up |
| IdleArm.ActiveSegments | scripts/block_sizing_eval.py:249-271 | the loop over bins yields the recursive segments |
| IdleArm.SegmentsSplitAtSilence | scripts/block_sizing_eval.py:249-271 | neighbouring active bins share a segment exactly when fewer than k bins are empty between them; segments are ordered, that far apart, inside the span, and hold every active bin |
| IdleBlocks.SegmentsInSeconds | scripts/block_sizing_eval.py:262-271 | a segment starts at an active bin of the span and ends 300 s after one, or with the span; neighbouring active bins part exactly when 300 (k + 1) seconds or more lie between their starts |
| IdleArm.WithIdle | scripts/block_sizing_eval.py:285-298 | the lifted cutter's loop, seams rewritten in place, is the concatenation of the segments' blocks with their seams |
| IdleArm.IdleTilesTheActivePart | scripts/block_sizing_eval.py:274-300 | any arm under the idle terminator gives ordered disjoint blocks whose union is exactly the segments; every active bin lies in exactly one; both sides of a gap read idle and the reason chain holds |
| IdleBlocks.IdleIsTheArmInEachSegment | scripts/block_sizing_eval.py:285-298 | in every segment stand the blocks the arm itself cuts there, the same spans and reasons but for idle on the sides of a gap, and nothing is emitted elsewhere |
| IdleEvidence.IdleBlocksHoldEverything | scripts/block_sizing_eval.py:249-351 | over a store's own active bins, from a bin start: every event of the span lies in exactly one idle block, and the blocks hold exactly the span's evidence |
| IdleEvidence.OrderedHoldAllEvidence | scripts/block_sizing_eval.py:94-106 | ordered blocks that hold every event of a span hold all of its evidence |
| MergeThin.AbsorbThin | scripts/block_sizing_eval.py:541-602 | the walk returns the closed form: block m spans from the thin run before the m-th solid block to that block, the last one to the end; every counter equals its closed form |
| MergeThin.MergeThinBlocks | scripts/block_sizing_eval.py:474-602 | the same over a store, a block being thin when its pooled evidence is under the floor |
| MergeThin.CountAbsorbed | scripts/block_sizing_eval.py:536-539 | adds the end reason of each absorbed block |
| MergeProperties.MergeKeepsTheTiling | scripts/block_sizing_eval.py:541-602 | order, span, first and last reasons and the reason chain survive; a tiling stays a tiling of the same span |
| MergeProperties.MergeClearsTheFloor | scripts/block_sizing_eval.py:541-602 | unless every block was thin every output block clears the floor; if all were, the output is the input |
| MergeProperties.MergeIsIdempotent | scripts/block_sizing_eval.py:541-602 | merging a merged list changes nothing |
| MergeProperties.MergeConservesEvidence | scripts/block_sizing_eval.py:94-106 | before and after merging the blocks hold exactly the evidence of the span |
| MergeProperties.MergeAccounting | scripts/block_sizing_eval.py:510-602 | read off the closed form that MergeThin.AbsorbThin proves of the walk: if some block is solid, one output block per solid one, merged plus merged_backward is the number of thin blocks, the absorbed end reasons are the thin ones, events are thin minus chained, at most one is backward; otherwise nothing is absorbed |
| MergeCounts.CountersAreCounts | scripts/block_sizing_eval.py:510-602 | each counter is the size of a set read off the blocks: thin blocks, thin ones followed by a thin one, thin ones per end reason, and, of the merge events, those after which the absorbed span reads differently and those after which the surviving block does, forward and backward apart |
| MergeCounts.AllThinCounts | scripts/block_sizing_eval.py:596-600 | when every block is thin the thin are counted per end reason, and no event is |
| MergeCounts.OutputBlockIs | scripts/block_sizing_eval.py:541-602 | output block m starts and opens as the block after the previous solid one, ends and closes as its own solid block, or as the last block of all, and all but its own solid block of those it replaces are thin |
| MergeProperties.GatedMergesOnlyBypasses | scripts/block_sizing_eval.py:724-745 | over arm B's blocks only detected and session-end reasons occur among the end reasons of the thin ones |
| MergeProperties.MergeGatedBlocks | scripts/block_sizing_eval.py:724-777 | arm B, cut and then merged: the result tiles the session with the reason chain intact and holds all of its evidence, every block clears the floor unless none did, and every end reason counted as thin or absorbed is a detected cut or a session end |
| NeighbourValue.MergedValueSurvivesIff | scripts/block_sizing_eval.py:488-496 | for the output block merge_thin makes of a solid block and the n thin ones before and after it: it publishes the solid block's value, whatever the thin ones hold, if and only if the value leads every other reference by more than 4n and holds half of its level with 4n to spare |
| NeighbourValue.PublishingIsNotEnough | scripts/block_sizing_eval.py:546-574 | four blocks of which the last publishes with room for one thin neighbour, and the block merge_thin makes of all four, which does not publish its value |
| Episodes.StepKeeps | scripts/refseries.py:467-489 | one bin keeps the scan's invariant: the closed episodes partition the bins before the open one, each is fit and opened for a true reason, and the pending run is exactly the unconfirmed tail |
| EpisodeScan.Scanner.constructor | scripts/refseries.py:437-438 | the scan starts at bin 0 with nothing pending |
| EpisodeScan.Scanner.Close | scripts/refseries.py:440-451 | emits the open stretch unless it is empty, and hands the reason on only then |
| EpisodeScan.Scanner.Flush | scripts/refseries.py:453-465 | closes the pending run exactly when the last bin continues it |
| EpisodeScan.Scanner.Advance | scripts/refseries.py:467-489 | the loop body changes the shared variables as one step of the machine |
| EpisodeScan.Segment | scripts/refseries.py:437-492 | the whole scan over a transcript returns the machine's episodes |
| EpisodeScan.EpisodesPartitionTheBins | scripts/refseries.py:393-417 | consecutive non-empty slices cover the bins exactly; each opens for the reason it states; inside none is a gap over max_gap, a believed change of state, or, when the debounce cannot outrun the cap, a span of max_span |
| EpisodeScan.IdleEpisodesEndOnTheirOwnState | scripts/refseries.py:453-474 | an episode ended by an idle gap or the transcript has its published state in its last bin, and the resumed boundaries are exactly the idle gaps |
| EpisodeScan.CapEndsOnItsOwnIff | scripts/refseries.py:475-489 | one step: an episode ended by the cap at bin i ends on its own state if and only if bin i-1 has the open state or bin i repeats it |
| EpisodeScan.CapCanMislabel | scripts/refseries.py:475-489 | four bins whose first episode publishes a state its last bin contradicts |
| CapEpisodes.CapClosedEndsOnItsOwnIff | scripts/refseries.py:467-489 | the same for every episode the cap closed in a whole transcript |
| CapEpisodes.CapsEndOnTheirOwnIff | scripts/refseries.py:453-489 | for given instants, debounce, gap and cap: under every sequence of states each cap-closed episode ends on its own state, if and only if the debounce is at most one bin or the scan of one constant state has no cap-closed episode of two bins or more |
| EpisodeScan.EpisodesConserve | scripts/refseries.py:440-451 | published bin counts and events add up to the transcript's; each published end is the next start |
| EpisodeScan.EveryBinInOneEpisode | scripts/refseries.py:415-416 | each bin's instant lies in exactly the published [start, end) of the episode that counts it |
| PublishedEpisodes.RecordsAreTheirBins | scripts/refseries.py:440-451 | each published record against the bins whose instants it holds: start, end, bin count and events; its state is that of its first bin, no believed run of another state lies in it, and its last bin has it when the next episode resumed or none follows; its reason is told from the bins around its start and the records before it |
| EpisodeScan.CarryStates | scripts/refseries.py:428-434 | a watched level's state at a bin is the last reference it showed |
| EpisodeScan.LastSeenIs | scripts/refseries.py:428-434 | that reference was shown at some bin up to here with none shown since, and there is none exactly when none was shown |
| EpisodeScan.AbsenceNeverCuts | scripts/refseries.py:415-416 | a state change opens an episode only at a bin that shows a reference other than the carried one |
| Packing.FitTurns | scripts/qwen_windows.py:171-201 | the two in-place sweeps pin exactly the turns of the recursive rule, in original order |
| Packing.SweepRule | scripts/qwen_windows.py:186-200 | a sweep takes a turn exactly when it is eligible and fits on top of the newer ones it took |
| Packing.FitRule | scripts/qwen_windows.py:171-201 | turn by turn: a user turn is kept exactly when it fits on top of the newer user turns kept, any other exactly when it fits on top of all user turns kept and the newer others |
| Packing.FitIsMaximal | scripts/qwen_windows.py:171-201 | what is kept costs at most the budget, and no dropped turn would still fit |
| Packing.FitIsCompleteIffItFits | scripts/qwen_windows.py:171-201 | nothing is dropped if and only if the whole stride fits |
| Packing.UserTurnsFitAlone | scripts/qwen_windows.py:182-192 | which user turns survive depends on the user turns and the budget alone |
| Windows.StrideFiles | scripts/qwen_windows.py:148-157 | the listed names take at most their character allowance |
| Windows.FilesAreListed | scripts/qwen_windows.py:148-157 | the listed names are distinct and touched, and a touched name is left out only for want of room |
| Windows.FilesInOrder | scripts/qwen_windows.py:154-156 | they stand in the order in which they were first touched |
| Windows.CountBounds | scripts/qwen_windows.py:162-169 | the counting loop leaves bounds that each close a full stride on a prompt, the last being the end of the transcript |
| Windows.StridesHoldEvery | scripts/qwen_windows.py:160-169 | strides abut; every one but possibly the last holds exactly `every` prompts and ends on one |
| Windows.PackWindow | scripts/qwen_windows.py:204-223 | the second fit on the smaller budget happens exactly when the first dropped something |
| Windows.MakeWindows | scripts/qwen_windows.py:160-225 | the windows abut from the first turn to the last, end where the counted strides end, and each is what its own stride packs to |
| Windows.MarkerIffMissing | scripts/qwen_windows.py:213-220 | the marker is set exactly when a turn of the displayed stride is missing, and the kept turns fit what the marker leaves |
| WindowContents.WindowCarries | scripts/qwen_windows.py:204-223 | a window shows every turn of its stretch, or with strip every one whose role is not tool; its turns stand at increasing positions among those, at all of them exactly when it is not marked; stride counts them; no missing one would have fitted under the cap |
| WindowHeaders.HeaderCounts | scripts/qwen_windows.py:131-157 | its header counts, per name, the tool turns of the stretch, and none when they are shown; per language the turns that touched a file in it; each name once |
| WindowHeaders.FirstWordIs | scripts/qwen_windows.py:141-145 | the name counted is the first word of the line |
| WindowHeaders.LineOrder | scripts/qwen_windows.py:228-239 | counts are listed in descending order, equal ones in the order first seen |
| WindowHeaders.DecimalReads | scripts/qwen_windows.py:232 | the printed count reads back as the count |
| WindowHeaders.WindowReads | scripts/qwen_windows.py:228-259 | a marked window with a full header, written out to the character |
| Windows.WindowKeepsItsCap | scripts/qwen_windows.py:253-259 | the rendering is within the cap exactly when its header is, so whenever header and marker fit |
| Prose.Longest | scripts/prose_activity.py:186 | the first of the longest messages |
| Prose.KeepUpTo | scripts/prose_activity.py:190-195 | the longest sentence-prefix within the target, and at least one sentence |
| Prose.TrimLongest | scripts/prose_activity.py:185-198 | one round shortens a longest message, keeps what was promised, and leaves it tight: the next sentence would not fit |
| Prose.RoundIs | scripts/prose_activity.py:185-198 | one round against the budget: of the first longest message, one sentence goes whole; otherwise the most first sentences that leave the total within budget, or one word, but at least one stay |
| Prose.NonBlankKeeps | scripts/prose_activity.py:179 | the messages with text, all of them and in order |
| Prose.Bound | scripts/prose_activity.py:175-202 | within budget; kept plus dropped is the original; survivors are non-empty sentence-prefixes in order; only what was longest is touched; nothing is touched that fits; required is the condition under which the loop ends |
| Prose.BoundEndsIff | scripts/prose_activity.py:185-198 | the loop ends if and only if, from every one-word message with an empty sentence split off it on, the messages that open with a one-word sentence are no more than the budget |
| Prose.TrailingBlankNeverEnds | scripts/prose_activity.py:185-198 | one word and a trailing blank over the budget: the loop does not end |
| Intervals.Merge | scripts/tick_coverage.py:98-105 | the loop overwriting its last interval is the fold over the sorted input |
| Intervals.MergeKeepsTheUnion | scripts/tick_coverage.py:98-105 | the result is sorted, strictly apart, and covers exactly what the input covers |
| Intervals.InAny | scripts/tick_coverage.py:86-95 | counts the instants the bisected interval holds |
| Intervals.HitIffCovered | scripts/tick_coverage.py:86-95 | on separated intervals the bisected one holds an instant if and only if some interval does |
| Intervals.InAnyOfMergeIsNaive | scripts/tick_coverage.py:86-105 | over merged intervals the binary search counts exactly the instants in at least one input interval |
| Intervals.HitIsCoveredIff | scripts/tick_coverage.py:86-95 | on intervals in order of their starts the search decides membership at every instant if and only if no interval reaches past a later one before the next starts |
| Intervals.CallersMeetTheCondition | scripts/tick_coverage.py:122-166 | separated intervals, and any single one, meet that condition |
| Intervals.UnmergedCanMiss | scripts/tick_coverage.py:86-95 | two nested intervals do not meet it, and the search misses an instant |
| TickGaps.CoveredIsReached | sidecar/app/analysis/coverage.py:67-77 | the merged look-backs hold exactly the instants some prompt reaches |
| TickGaps.FindGaps | sidecar/app/analysis/coverage.py:98-115 | the single pass with its two exits is the recursive walk |
| TickGaps.GapsAreUnreached | sidecar/app/analysis/coverage.py:98-115 | the gaps are ordered, disjoint, exactly the unreached instants, and each is closed by a look-back unless it runs to the frontier |
| TickPlanner.MakePlan | sidecar/app/analysis/coverage.py:118-155 | the nested loops and the batch bound give the planned windows and cursor |
| TickPlanner.PlanPartitions | sidecar/app/analysis/coverage.py:118-155 | between old and new cursor the windows are exactly the unreached instants, disjoint, at most a span long, short only where unreached time ends; the cursor does not rewind |
| TickProgress.PlanProgress | sidecar/app/analysis/coverage.py:118-155 | an unbounded plan reaches the frontier when the tail is closed; while it is open the cursor stops whole spans into the gap open at the frontier, less than a span before it |
| TickProgress.PlanIsBounded | sidecar/app/analysis/coverage.py:152-154 | a plan within the bound is left alone; a larger one is cut to its first max_windows windows, the cursor at the end of the last |
| TickRuns.PublishUntilBehind | sidecar/app/analysis/tick.py:115-134 | publishes in order what has evidence and stops at the first window that cannot be answered |
| TickRuns.Tick | sidecar/app/analysis/tick.py:79-134 | one tick moves the ledger as specified, the cursor stopping before work not yet answerable |
| TickProgress.TickCursor | sidecar/app/analysis/tick.py:104-134 | one tick with nothing behind: at or past min(watermark, now - span) nothing happens; below it the cursor goes there once now - watermark >= span, and otherwise stops at the remainder of the open gap |
| TickProgress.FirstTick | sidecar/app/analysis/tick.py:104-111 | without a watermark nothing changes; a transcript without a cursor starts at min(watermark, now - span), settling nothing |
| TickProgress.TickStopsBeforeBehind | sidecar/app/analysis/tick.py:115-129 | the cursor is the start of the first window that is behind, every window before it is settled, and without one the whole plan is |
| TickProgress.TickPublishes | sidecar/app/analysis/tick.py:115-134 | of the windows it settles a tick publishes exactly those with evidence |
| TickProgress.EverySettledWindowHasItsTick | sidecar/app/analysis/coverage.py:80-95 | over any run, each settled window was settled by a tick whose watermark is not before its end and whose now is a span past it; one shorter than a span ends where a known look-back begins, or its tick had now - watermark >= span |
| TickRuns.RunIsExact | sidecar/app/analysis/coverage.py:20-35 | over any run of ticks every instant the cursor passed lies in a known look-back or in exactly one settled window, never both, never neither |
| TickRuns.NothingIsPublishedTwice | sidecar/app/analysis/coverage.py:20-35 | no published window overlaps another, a known prompt's look-back, or that of any prompt still to come |
| TickRuns.CursorNeverRewinds | sidecar/app/analysis/coverage.py:122-125 | whatever the frontier does, the cursor is monotonic |
| TickCoverage.Replay | scripts/tick_coverage.py:108-129 | what the replay emits is what the run of its ticks publishes, from a span before the first turn; ticks run every `tick` seconds from the first turn to two spans past the last; the late windows are what the ticks after the last turn publish |
| TickCoverage.TickSees | scripts/tick_coverage.py:115-123 | a tick sees the last turn at or before it, the prompts up to it and no others, and a window as worth emitting exactly when a unit of work lies in it |
| TickCoverage.WatermarkIs | scripts/tick_coverage.py:117 | the watermark at an instant is the last turn at or before it, and there is none exactly when every turn is later |
| TickCoverage.EveryPassedUnitIsCovered | scripts/tick_coverage.py:108-129 | every unit the cursor passed lies in an emitted window exactly when no known prompt reaches it |
| TickCoverage.EveryUnitIsCovered | scripts/tick_coverage.py:108-129 | with ticks at most a span apart and no batch bound the replay ends with the cursor at the last turn, so every unit before it lies in a look-back or an emitted window, never both |
| TickCoverage.RecoveredCoverageAdds | scripts/tick_coverage.py:160-166 | coverage by prompts and ticks is coverage by prompts plus the units in emitted windows, none counted twice |
| ErrorRuns.Runs | scripts/tool_signal.py:299-329 | the interleaved pass reports what the per-resource specification says: longest runs per key and over all, keys thrashing, failing, and seen |
| ErrorRuns.StreamIsInOrder | scripts/tool_signal.py:311 | the results are taken in order of their instants, each as often as given, those of one instant in input order |
| ErrorRuns.BestIsLongest | scripts/tool_signal.py:309-321 | the running best is the length of a block of consecutive failures, and none is longer |
| ErrorRuns.TargetsNest | scripts/tool_signal.py:322-329 | thrashing keys are failing ones and failing ones keys; a key thrashes exactly when the longest run says so |
| ErrorRuns.GlobalIsStricterIffOneResource | scripts/tool_signal.py:305-307 | for a sequence of resources, the global run is at most the per-resource one under every pattern of failures if and only if there is one resource |
| Scoring.Nearest | scripts/sizer_eval.py:367-379 | the minimum distance, and whether it is within tolerance of some transition |
| Scoring.ClosestIsTheLeast | scripts/sizer_eval.py:367 | that distance is attained by a transition of the window and no other is smaller |
| Scoring.Score | scripts/sizer_eval.py:344-386 | over any windows, hit counts those whose detection is near a transition of theirs; hit + fp = fires and hit + miss = pairs, both for all and for contiguous transitions; the distances are those of the closest transitions |
| ScoreMeaning.WindowAdds | scripts/sizer_eval.py:344-386 | what one more window adds, in seconds: a fire unless it reports that nothing was detected; a hit when a transition in the span before its end is at most 300 s from where it detects, which is the start of its slice when it reports nothing; all other transitions missed; the least distance; the same for the contiguous transitions, of a gap of at most 15 minutes |
| ScoreMeaning.NoWindowsNoCounts | scripts/sizer_eval.py:346-348 | without windows every count is zero |
| ScoreMeaning.UnreportedDetectsAtItsStart | scripts/sizer_eval.py:355 | a sizer that reports no detection fires in every window, and hits in exactly those with a transition within 300 s of the start of the slice |
| Scoring.ContiguousIsARestriction | scripts/sizer_eval.py:376-385 | restricting to contiguous transitions never gains a hit, a miss, or loses a false positive |
| Scoring.MissIsUndetectedIff | scripts/sizer_eval.py:370-375 | for given answers, miss counts exactly the undetected pairs if and only if no detection is near two transitions of its window; otherwise it counts more |
| Scoring.MissIsUndetectedWhateverFiresIff | scripts/sizer_eval.py:344-375 | for every answer of the sizer, if and only if no window holds two transitions at most twice the tolerance apart |
| Scoring.MissCanOvercount | scripts/sizer_eval.py:370-375 | one window, two transitions and a detection near both: one miss, none undetected |

## Left out

- Floating point: instants, spans, caps and budgets are integers, the 0.50 share floor is compared by doubling, and the rounding of slice minutes is not modelled.
- Detectors and reconciliation (`EwmaSizer`, `RefractoryEwma`, `ground_truth`): cut lists and sizer answers are inputs.
- Parameters for which the source does not terminate or divides by zero: a cap or span of zero or less, `every` = 0, `n` < 1.
- The SQLite store, its caches and `CachingStore`: a store is its event sequence.
- The dimension payload behind `value_changed`: `MergeThin` takes an arbitrary `reading(start, end)` and counts where it changes; `NeighbourValue` models the published value of one level.
- Choosing the top reference of a bin from a data frame (`scripts/refseries.py:421-427`): the top references per bin and level are inputs, from the carried state on.
- EpisodeScan.Segment: returns slices of bin indices; the published records are a function of them instead of dictionaries appended inside `close`.
- Prose.Bound: messages are sequences of sentences of words, as the regular expression splits them, the last one possibly empty; the expression itself, the joining of text and the closing notice are not modelled.
- Windows.WindowKeepsItsCap: holds for any marker text, so the marker's own wording is not part of the model; a tool line's name is split off at the first blank only, and a blank tool line, at which the source raises, counts under the empty name.
- Cutters.BoundEvidenceGated: the oracle is an arbitrary function of the span; `Cutters.StoreGate` is the one that reads the store.
- TickRuns.Tick: analysing one window is a verdict (published, empty, expired, behind) given by the caller; payloads and the counts of empty and expired windows are not modelled.
- Scoring.Score: the sizer's answers are given in the order it is asked.
- TickCoverage.EveryUnitIsCovered: with a batch bound the cursor may stop earlier, and how far it then gets is not stated; `EveryPassedUnitIsCovered` holds with any bound.
- NeighbourValue.MergedValueSurvivesIff: at the default floor of five observations, which attribution shares.
- Sweeps, verdicts, percentiles, choice of a cap, report printing and argument parsing: no result beyond the functions above.
- Transcript parsing, `elide_code`, the digest and forward-fill helpers: they would only add easy members.
