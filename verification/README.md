# Verified models of molt's consensus code

Every molt node must compute the same board, the same wiki and the same signed
bytes from the same chain. This project models the parts of `molt-core` and
`molt-engine` where that is hardest and proves what they promise.

- **Recurring calendar** (`Civil`, `Mask`, `Series`, `SeriesRank`, `NextHit`,
  `Windows`, `Expand`, `MonthPrefix`, `StartScan`). A series is defined by one
  plain rule, `Series.Hit`, and `Series.Rank` counts its hits day by day. The
  closed forms, weekday masks, the 400-year prefix table, the jumps and the
  capped expansion are proved against that rule (a subset of the recurrence
  rules in sections 3.3.10 and 3.8.5.3 of RFC 5545).
- **Kanban board** (`TaskGraph`, `Board`, `KanbanFold`, `KanbanEffect`,
  `KanbanRun`, `KanbanDates`, `Derive`, `KanbanCache`). All-or-nothing changesets
  that check only the tasks they touch still keep every reachable board well
  formed; what an accepted one leaves is decided act by act, and every refusal is
  truthful; the cycle finder, the dependency order and the deadlines are exact;
  the incremental cache is a fresh fold.
- **Wiki** (`Wiki`, `PatchHunks`, `PatchTree`, `PatchEmit`, `PatchText`, `WikiFold`).
  Strict application, what a patch can depend on, and the emitter as its
  inverse, down to the printed patch.
- **Signed and committed bytes** (`Bytes`, `ChainBytes`, `CheckpointBytes`,
  `Codec`, `VaultBase`, `VaultLayout`, `WikiBase`). Every layout is read back by a
  reader that states its order, tags and frames on its own, so it is uniquely
  readable; and the two decoders.
- **Two small state machines** (`Parking`, `Quota`).

`Prelude`, `Arith` and `Sorting` are shared ground. Where the source updates
things in place the model does too: classes and loops are proved against
functions or plain predicates, and the theorems are about those.

Conventions. A date is a day number with day 0 at 0000-01-01 and instants are
seconds from there; a task id, 32 hexadecimal digits, is its number, which
orders alike. Text is its UTF-8 bytes. Hashes, JSON, UTF-8 validity and the
line differ enter as function parameters, with what is needed of them in the
`requires`. Void reasons are constructors, one per message, carrying the paths
or tasks the message names. Machine widths are written out where the source
depends on them: `u64` saturation of revisions and byte totals, checked weeks
and months and the one weekly sum that is not checked, `u32` and `u64` frames.
Arithmetic that can leave its type panics, as the workspace builds with overflow
checks (`Cargo.toml:226`, `Cargo.toml:249`); `Prelude.Ran` is how such a
computation ends.

## Findings

- A weekly rule with the interval 2635249153387078802, which the parser accepts,
  and no hits on Mondays or Tuesdays makes `next_hit` overflow
  (`crates/molt-core/src/kanban_calendar.rs:600`): the jump is checked, the sum of
  its week and the day is not. It panics exactly from dates past the last hit in
  the week of the start (`NextHit.OverflowIff`), `expand` exactly if its walk gets
  there (`Expand.Walk`), and the start timer exactly if a watched task's expansion
  does (`StartScan.StartScan`). One changeset is enough
  (`StartScan.OverflowIsReachable`).
- The start timer also panics when its clock is within a day of the smallest
  instant or within the lead of the largest (`StartScan.StartScan`), and
  `crates/molt-engine/src/kanban.rs:91` falls back to the smallest.
- `touched_paths` leaves empty paths out, but a patch section marked both new
  and deleted may create one: `valid_path` is not asked for the new path of a
  deletion, and the creation branch runs first. `apply_patch` is therefore local
  to the paths it names on a tree exactly when that tree has no entry under the
  empty path (`PatchTree.LocalIffNoBlank`), and such an entry is reachable
  (`WikiFold.BlankIsReachable`). The comment at
  `crates/molt-core/src/wiki_fold.rs:365-369` claims locality without condition.
- For the same reason invalid paths can enter the tree; a patch keeps a tree of
  valid paths valid exactly when no file in it is marked both ways with an
  invalid new path (`WikiFold.PathsStayIffNoStray`).
- An emitted patch that adds, edits or deletes a document in a folder whose name
  ends in " b" is read back with other paths: the header is split at the last
  " b/". A new "a b/c" becomes a "c" (`WikiFold.SplitIsMisplaced`). Renames
  survive, as they name their paths again. The reader gives a printed patch back
  exactly if no other file has " b/" in its path (`PatchText.ParseIsInverse`), and
  folding it gives the new side exactly under the same condition and clean
  renames (`WikiFold.EmittedTextFolds`).
- The emitter is inverse to the strict applier exactly when no moving rename
  reuses a path (`PatchEmit.RoundTripsIffClean`); two documents that trade their
  names give a void patch (`PatchEmit.SwapIsVoid`).
- The expansion looks at every occurrence a view should show exactly if the
  series' window ends within 367 days of the midnight it first touches, or none
  stands that long before the horizon (`Expand.ReachedIffShort`); a view 367 days
  after the start of a longer one misses it (`Expand.LongIsMissed`).
- The wiki base decoder accepts entries in any order, unlike the vault's; a
  stream re-encodes to itself exactly when its paths ascend
  (`WikiBase.CanonicalIffAscending`).
- The shared vault layout is readable only within one field shape; an empty
  field and an empty list give the same bytes (`VaultLayout.ShapesMeet`). Each
  tag has one shape, so the primitives stay apart
  (`VaultLayout.PrimitivesAreInjective`).

## Model

| member | source | states |
|---|---|---|
| Civil.YearStart | crates/molt-core/src/kanban_calendar.rs:367-369 | laying months end to end from year 0 gives the closed Gregorian day count for every year, negative ones included |
| Civil.MonthCycle | crates/molt-core/src/kanban_calendar.rs:371-372 | month lengths repeat after any number of 4800-month cycles |
| Civil.DateInRoundTrip | crates/molt-core/src/kanban_calendar.rs:367-369 | a month and a day name a date exactly when that date has this month and this day of the month |
| Mask.MaskOfHas | crates/molt-core/src/kanban_calendar.rs:352-359 | the weekday mask has exactly the bits of the listed weekdays |
| Mask.MaskBetweenStep | crates/molt-core/src/kanban_calendar.rs:361-365 | widening a span by a day adds one to the mask count exactly when that weekday is in the mask |
| Series.GcdDivides | crates/molt-core/src/kanban_calendar.rs:374-380 | the computed gcd divides both numbers |
| Series.GcdIsGreatest | crates/molt-core/src/kanban_calendar.rs:374-380 | every common divisor divides the computed gcd, so none is greater |
| Series.PeriodWraps | crates/molt-core/src/kanban_calendar.rs:371-399 | after one table period of steps the month is back at the same place of the 4800-month cycle |
| SeriesRank.DailyRank | crates/molt-core/src/kanban_calendar.rs:440-449 | counting daily hits day by day gives the rounded-up quotient by the interval |
| SeriesRank.WeeklyPositionIsRank | crates/molt-core/src/kanban_calendar.rs:450-469 | the mask-and-week formula is present exactly on weekly hits and equals the number of earlier ones, first partial week included |
| SeriesRank.TableIsStrideCount | crates/molt-core/src/kanban_calendar.rs:423-435 | the periodic prefix table counts the months that have the day exactly as counting month by month does |
| SeriesRank.MonthlyPositionIsRank | crates/molt-core/src/kanban_calendar.rs:470-477 | the monthly formula is present exactly on monthly hits, days 29 to 31 included, and equals the number of earlier ones |
| SeriesRank.PositionIsRank | crates/molt-core/src/kanban_calendar.rs:437-480 | for every start, rule and date: a position exists exactly on hits of the plain rule and is the number of earlier hits |
| MonthPrefix.FillTable | crates/molt-core/src/kanban_calendar.rs:394-413 | the filled vector is the table of partial counts over one period |
| MonthPrefix.Cache.Lookup | crates/molt-core/src/kanban_calendar.rs:386-421 | the memo answers every lookup with the table a fresh computation gives, and never keeps more than its cap |
| NextHit.NextDaily | crates/molt-core/src/kanban_calendar.rs:579-586 | the least daily hit at or after the date, or none inside the horizon |
| NextHit.NextWeekly | crates/molt-core/src/kanban_calendar.rs:587-605 | the least weekly hit at or after the date, or none inside the horizon, two turns always sufficing; it panics exactly where the unchecked sum of week and day overflows |
| NextHit.OverflowIff | crates/molt-core/src/kanban_calendar.rs:595-602 | the sum overflows exactly if the interval is 2635249153387078802, no hits fall on Mondays or Tuesdays, and the date is past the last hit in the week of the start |
| NextHit.WednesdaysOverflow | crates/molt-core/src/kanban_calendar.rs:595-602 | a valid rule for Wednesdays that overflows from the day after its start on |
| NextHit.CycleHasDay | crates/molt-core/src/kanban_calendar.rs:606-628 | within any full period of monthly steps some month has the start's day, so a search bounded by 4800 turns loses nothing |
| NextHit.SearchMonth | crates/molt-core/src/kanban_calendar.rs:606-628 | the bounded month search finds the least hit or proves there is none up to the horizon |
| NextHit.NextMonthly | crates/molt-core/src/kanban_calendar.rs:606-628 | the least monthly hit at or after the date, or none inside the horizon |
| NextHit.NextHit | crates/molt-core/src/kanban_calendar.rs:577-629 | for every series and date: it panics exactly on that overflow, and otherwise gives a hit at or after the date with no hit between, or none when there is none inside the horizon |
| Windows.PositionHitIsHit | crates/molt-core/src/kanban_calendar.rs:631-641 | the shortcut without a count agrees with the plain rule on every date |
| Windows.IsOccurrenceIsExact | crates/molt-core/src/kanban_calendar.rs:489-500 | a date is accepted exactly if the plain rule hits it and it lies within until or count by its rank |
| Windows.EndIsFinal | crates/molt-core/src/kanban_calendar.rs:481-487 | past the first hit outside the end no later hit is inside it |
| Windows.OccursIs | crates/molt-core/src/kanban_calendar.rs:481-487 | a hit counts exactly if it is no later than `until`, or has fewer than `count` hits before it |
| Windows.BoundsCover | crates/molt-core/src/kanban_calendar.rs:119-147 | begin and end bound exactly the instants of the window, an all-day one by whole days, and the start date is the day of the begin |
| Windows.OverlapsIs | crates/molt-core/src/kanban_calendar.rs:163-169 | a window overlaps a view exactly if one of its instants falls on one of the view's days |
| Expand.Walk | crates/molt-core/src/kanban_calendar.rs:542-566 | it panics exactly if the rule overflows and the walk starts past, or gets past, the last hit of the first week; otherwise the walked part shows every occurrence of its range, up to a stop that is reached early only past 1000 hits |
| Expand.PlaceMoved | crates/molt-core/src/kanban_calendar.rs:567-572 | the moved keys outside the walk are shown exactly if they are occurrences, not skipped, and their new window overlaps |
| Expand.PlacedBelongs | crates/molt-core/src/kanban_calendar.rs:528-540 | an occurrence is placed exactly if its date occurs and is not skipped, and its window overlaps the view: the moved window, marked so, if the date was moved, else the series' window with both ends later by the days since the start |
| Expand.ExpandSeries | crates/molt-core/src/kanban_calendar.rs:502-575 | it panics exactly if its walk does; otherwise everything returned is genuine, once, sorted, at most 1000 plus the moved keys, and nothing reached is missing unless more than 1000 hits lie in range |
| Expand.ShownIsReached | crates/molt-core/src/kanban_calendar.rs:538-548 | when the window ends within 367 days of the midnight it first touches, the walk looks at every date a view should show, up to the last date jumps reach |
| Expand.LongIsMissed | crates/molt-core/src/kanban_calendar.rs:538-548 | for every window longer than that and every occurrence left in its place, a view of one day that shows it while the walk starts after it |
| Expand.ReachedIffShort | crates/molt-core/src/kanban_calendar.rs:538-548 | the walk looks at everything every view should show, exactly if the window ends within 367 days of the midnight it first touches, or no occurrence in its place stands 367 days before the horizon |
| Expand.Expand | crates/molt-core/src/kanban_calendar.rs:502-575 | it panics exactly if the walk of a series does; otherwise, with such a window and at most 1000 hits in range, the result is exactly the occurrences, less skipped, moved ones in their new windows and the others in the shifted one, that overlap the view, by begin and date, each date once; without those bounds it is still genuine and bounded, and no window moved in from outside the walk is missing |
| StartScan.CapNeverBinds | crates/molt-core/src/kanban_wake.rs:140-148 | no series has more than 1000 hits in the window the timer expands, for any 16-bit lead |
| StartScan.StartIsExpanded | crates/molt-core/src/kanban_wake.rs:156-172 | every start the timer must judge is in the expansion it reads |
| StartScan.ScanTaskStarts | crates/molt-core/src/kanban_wake.rs:148-172 | for one task: it panics exactly if the expansion overflows; otherwise due entries are exactly its starts in their firing window, a moved one by its moved window, and the next fire is lowered to its least later one |
| StartScan.StartScan | crates/molt-core/src/kanban_wake.rs:130-175 | for every instant: it panics exactly if the clock arithmetic leaves the clock type or a watched task overflows; otherwise due is exactly the starts of the seat's todo timed tasks, moved ones in their new windows, with begin minus lead at or before now and less than a day old, each once, by task, start and date, flagged exactly if the task is shown blocked or stuck, and next fire is the least later fire within the lookahead |
| StartScan.HeldUpIs | crates/molt-core/src/kanban_wake.rs:155-158 | off the board's own derivation that flag is raised exactly if the task is todo and an existing prerequisite is neither done nor cancelled |
| StartScan.FoldIsScannable | crates/molt-core/src/kanban_fold.rs:1184-1188 | every task of every folded board meets what the scan asks of it |
| StartScan.OverflowIsReachable | crates/molt-core/src/kanban_fold.rs:1184-1188 | one changeset folds to a board whose scan panics for its seat at every clock whose lookahead reaches the task |
| TaskGraph.FindCycleExact | crates/molt-core/src/kanban_fold.rs:1041-1071 | a reported task lies on a cycle reachable from the roots, and none is reported exactly if no such cycle exists |
| TaskGraph.FoundIsFirst | crates/molt-core/src/kanban_fold.rs:1041-1071 | which task is reported: from the first root that leads to a cycle, along the first links that do, the first one met again |
| TaskGraph.FirstIsUnique | crates/molt-core/src/kanban_fold.rs:1041-1071 | that names one task |
| TaskGraph.AcyclicHasOrder | crates/molt-core/src/kanban_fold.rs:1041-1071 | an acyclic graph has an order with every prerequisite before its dependents |
| TaskGraph.OrderIsAcyclic | crates/molt-core/src/kanban_fold.rs:1041-1071 | a graph with such an order has no cycle |
| TaskGraph.TouchedSuffices | crates/molt-core/src/kanban_fold.rs:984-988 | if the graph was acyclic and only touched tasks changed links, searching from the touched tasks alone rules out every cycle |
| TaskGraph.RunFindCycle | crates/molt-core/src/kanban_fold.rs:1041-1071 | the explicit stack and colour map terminate on every graph with the specified answer |
| Board.Transition | crates/molt-core/src/kanban_fold.rs:904-961 | a move is allowed exactly if it is legal for the task, notes its failure or cancellation, and, when it begins work, every prerequisite is met; a refusal's reason holds and names the task it concerns |
| Board.UnmetPrerequisite | crates/molt-core/src/kanban_fold.rs:893-902 | the first link that is missing or not met, and none exactly if all are met |
| KanbanFold.SetFieldsRead | crates/molt-core/src/kanban_fold.rs:852-869 | an edit leaves each named field at the last value given, and every other field, the creator and the lifecycle as they were |
| KanbanFold.CheckedIffLinked | crates/molt-core/src/kanban_fold.rs:990-1040 | a task passes the checks exactly if creator and assignees are seats, dates are ordered, a series is only todo or cancelled and unlinked, links are sound, and skip and moved keys are occurrences |
| KanbanFold.UntouchedStaysLinked | crates/molt-core/src/kanban_fold.rs:964-988 | a task a changeset does not touch stays soundly linked, although it is not checked again |
| KanbanFold.ChangesetKeepsAcyclic | crates/molt-core/src/kanban_fold.rs:984-988 | an accepted changeset leaves the whole graph acyclic |
| KanbanFold.ChangesetKeepsWellFormed | crates/molt-core/src/kanban_fold.rs:1073-1150 | an accepted changeset turns a well formed board into a well formed one, keeps every task and every creator |
| KanbanFold.AcceptedIffWellFormed | crates/molt-core/src/kanban_fold.rs:964-1150 | on a well formed board the checks of touched tasks alone accept a changeset exactly if the whole resulting board is well formed |
| KanbanFold.FoldOneKeepsWellFormed | crates/molt-core/src/kanban_fold.rs:1152-1174 | any payload, void or not, keeps the board well formed and the revision from falling |
| KanbanFold.FoldIsWellFormed | crates/molt-core/src/kanban_fold.rs:1184-1188 | every board reachable from any payload list is well formed: links, seats, dates, series, evidence, notes, revisions, no cycle |
| KanbanFold.TasksStay | crates/molt-core/src/kanban_fold.rs:1176-1188 | a task, once added, survives every later payload and keeps its creator |
| KanbanFold.FoldExtends | crates/molt-core/src/kanban_fold.rs:1176-1182 | folding a prefix and then the rest is folding the whole log |
| KanbanEffect.ChangesetDecides | crates/molt-core/src/kanban_fold.rs:1073-1150 | after an accepted changeset every task some act names has the new revision, the state, note and evidence of its last transition or else the old ones, each field at the last value given or else the old or blank one, and its creator; every other task is as it was |
| KanbanEffect.ActsApplyIff | crates/molt-core/src/kanban_fold.rs:1073-1146 | acts apply exactly if each applies to what those before it leave: an addition under a free id, an edit or a legal move of a task there is; else the first that does not is reported, truly |
| KanbanEffect.FoldOneIs | crates/molt-core/src/kanban_fold.rs:1152-1174 | a foreign payload changes nothing, every changeset moves the revision by one up to saturation, and only an applied one the tasks, as its acts decide |
| KanbanEffect.AppliedIff | crates/molt-core/src/kanban_fold.rs:1152-1174 | on a well formed board a payload applies exactly if it is a non-empty changeset of well-shaped acts that each apply and together leave the board well formed |
| KanbanEffect.VoidIsTrue | crates/molt-core/src/kanban_fold.rs:964-1174 | every void reason holds: of the payload's shape, of the first act that does not apply, or of a touched task, a series' least dependent or a task on a cycle of the result |
| KanbanRun.RunChangeset | crates/molt-core/src/kanban_fold.rs:1073-1150 | editing a copy act by act and checking touched tasks gives the specified tasks or the specified first fault, and the tasks as the acts decide them |
| KanbanRun.LiveBoard.FoldOne | crates/molt-core/src/kanban_fold.rs:1152-1174 | the mutated board is the folded value; an applied payload leaves each task as its acts decide, a void one moves the revision only, a foreign one changes nothing |
| KanbanRun.LiveBoard.FoldOnto | crates/molt-core/src/kanban_fold.rs:1176-1182 | the mutated board is the fold of the payloads onto its old value |
| KanbanRun.Precheck | crates/molt-core/src/kanban_fold.rs:1198-1219 | no fault is reported exactly if folding the payload now would apply; the fault of a changeset is the one its fold is void for |
| KanbanDates.CollectDependents | crates/molt-core/src/kanban_dates.rs:105-112 | each task's entry lists exactly the tasks that depend on it, in id order |
| KanbanDates.DependentsFirstOrder | crates/molt-core/src/kanban_dates.rs:71-99 | on an acyclic board every task is listed once, after all its dependents |
| Derive.NeededDates | crates/molt-core/src/kanban_dates.rs:115-132 | the date of an open task is the least due over all chains of open dependents from it, absent exactly if no chain has one |
| Derive.StuckTasks | crates/molt-core/src/kanban_dates.rs:134-152 | stuck is exactly the todo tasks with an all-todo path to a failed prerequisite |
| Derive.Prioritize | crates/molt-core/src/kanban_dates.rs:206-220 | open tasks that are no series, each once: work in progress first, then earlier dates, undated last, ids breaking ties |
| Derive.TakePass | crates/molt-core/src/kanban_dates.rs:230-247 | a pass hands each assignee exactly the tasks it takes, in priority order |
| Derive.DeriveBoard | crates/molt-core/src/kanban_dates.rs:102-249 | the derivation of a board and a day, each part by its meaning: needed-by and stuck over chains; blocked exactly if an existing prerequisite of a todo task that is not stuck is neither done nor cancelled, and likewise every other shown state; overdue, date conflicts with running into a dependent's appointment, started on a reopened prerequisite; dependents; priority; and per seat with open work exactly what is begun or can be begun now, in priority order |
| Derive.DerivedUnique | crates/molt-core/src/kanban_dates.rs:102-249 | those meanings leave one derivation per board and day |
| Derive.OverdueReachesPrerequisites | crates/molt-core/src/kanban_dates.rs:115-132 | an open prerequisite of an overdue open task is itself overdue |
| KanbanCache.LogExtends | crates/molt-engine/src/kanban.rs:55-67 | stepping through a log in two parts gives the board, revisions and void map of one pass |
| KanbanCache.ExtensionIsRefold | crates/molt-engine/src/kanban.rs:138-172 | extending a fold of prefixes by what both logs gained is the fold of the whole logs, when the other half stood still |
| KanbanCache.FreshBoard | crates/molt-engine/src/kanban.rs:105-114 | the cache's board is the consensus fold of the same payloads, with no more revisions than entries |
| KanbanCache.RevProposalIs | crates/molt-engine/src/kanban.rs:55-67 | a revision names the proposal of the last changeset of a known proposal that reached it, and no other revision is named |
| KanbanCache.RevsDiffer | crates/molt-engine/src/kanban.rs:55-67 | below saturation one changeset at most reaches a revision |
| KanbanCache.VoidIs | crates/molt-engine/src/kanban.rs:55-67 | a proposal is void exactly if some changeset of it was refused, with the reason of the last refusal |
| KanbanCache.StepMovesRev | crates/molt-engine/src/kanban.rs:55-67 | below saturation a step either leaves the board as it is or moves its revision, so a revision names one board |
| KanbanCache.Cache.Step | crates/molt-engine/src/kanban.rs:55-67 | one entry steps board, proposal map and void map together; below saturation of the revision a kept derivation stays honest |
| KanbanCache.Cache.DerivedFor | crates/molt-engine/src/kanban.rs:69-74 | a derivation served for today is the derivation of the current board |
| KanbanCache.State.FoldKanban | crates/molt-engine/src/kanban.rs:105-114 | a fresh cache over both logs, for the current seats and epoch |
| KanbanCache.State.RefreshFold | crates/molt-engine/src/kanban.rs:136-172 | after any run of appends, seat changes and epoch bumps the refreshed cache equals a fresh fold |
| KanbanCache.State.RefreshCache | crates/molt-engine/src/kanban.rs:116-126 | the refreshed cache equals a fresh fold and holds the derivation for today |
| KanbanCache.State.KanbanBoard | crates/molt-engine/src/kanban.rs:174-179 | the cache handed out equals a fresh fold, whether kept or made |
| PatchHunks.ConcatOfElements | crates/molt-core/src/wiki_fold.rs:230-243 | splitting a text into lines loses nothing |
| PatchHunks.ElementsOfLines | crates/molt-core/src/wiki_fold.rs:230-243 | lines, all terminated but perhaps the last, put together split into themselves |
| PatchHunks.RunApplyHunks | crates/molt-core/src/wiki_fold.rs:257-305 | the cursor loop gives the specified text or the specified first fault |
| PatchHunks.AppliesIffDiff | crates/molt-core/src/wiki_fold.rs:253-305 | hunks turn one text into another exactly if they are a cut, into ordered pieces with context between, of an alignment of the old lines with the new text, unterminated last line included |
| PatchHunks.HunkStands | crates/molt-core/src/wiki_fold.rs:262-300 | in an accepted file each hunk's old side stands at exactly its named position with its named count |
| PatchHunks.HunksAreOrdered | crates/molt-core/src/wiki_fold.rs:271-276 | in an accepted file no hunk begins before an earlier one ended |
| PatchHunks.FaultIsTrue | crates/molt-core/src/wiki_fold.rs:257-305 | refused hunks are refused for the first that does not apply to what those before it leave, and for a reason that holds of it |
| PatchHunks.WholeDiffAligns | crates/molt-core/src/wiki_patch.rs:239-245 | taking everything out and putting everything in aligns every two texts, so a differ can always answer |
| PatchTree.RepeatIsCollision | crates/molt-core/src/wiki_fold.rs:317-328 | a path touched twice is reported exactly if two files name one path, and the path reported is one |
| PatchTree.ValidIffSegments | crates/molt-core/src/wiki_fold.rs:214-228 | a path is accepted exactly if it is one to eight segments joined by slashes, none empty, ".", ".." or with a backslash |
| PatchTree.FileApplies | crates/molt-core/src/wiki_fold.rs:330-361 | one file applies exactly if its paths may stand and its hunks align the old text with what it leaves: a fresh text for a creation, nothing for a deletion, a free target for a rename |
| PatchTree.PatchReasonIsTrue | crates/molt-core/src/wiki_fold.rs:310-363 | every void reason holds: of the patch, or of the first file that does not apply to what those before it leave |
| PatchTree.WikiTree.Apply | crates/molt-core/src/wiki_fold.rs:310-363 | the tree becomes the patched tree, or stays as it was with the specified reason |
| PatchTree.RunTouchedPaths | crates/molt-core/src/wiki_fold.rs:365-380 | the collected set is every non-empty path a file names |
| PatchTree.LocalIffNoBlank | crates/molt-core/src/wiki_fold.rs:365-380 | every patch has the same verdict, reason and effect on a tree as on its restriction to the named paths, exactly if the tree has no entry under the empty path |
| PatchTree.PatchIsLocal | crates/molt-core/src/wiki_fold.rs:307-380 | a patch that creates no empty path is local on every tree |
| PatchTree.BlankIsNotLocal | crates/molt-core/src/wiki_fold.rs:330-345 | a concrete patch whose verdict turns on an entry it does not name |
| PatchTree.PatchFrame | crates/molt-core/src/wiki_fold.rs:307-363 | an applied patch leaves every entry it does not name as it was, an entry under the empty path included, and creates none it does not name, but for the empty path when a file creates that |
| PatchTree.FilesPointwise | crates/molt-core/src/wiki_fold.rs:317-361 | under the collision rule a patch applies exactly if each file alone applies to the old tree and at most one creates the empty path, and leaves at each path what that file leaves |
| PatchTree.OrderIsFree | crates/molt-core/src/wiki_fold.rs:317-361 | rearranging the files of any patch that applies gives the same tree |
| PatchEmit.RunChanges | crates/molt-core/src/wiki_patch.rs:185-236 | the loops over the maps build the specified changeset |
| PatchEmit.ChangesAreNet | crates/molt-core/src/wiki_patch.rs:179-236 | the changeset holds exactly the additions, deletions, edits and moves between the trees, said of the maps themselves, in the byte order of the paths they leave behind, each once |
| PatchEmit.RoundTripsIffClean | crates/molt-core/src/wiki_patch.rs:72-236 | applying what is emitted for two trees to the first gives the second, exactly if moving renames are one to one, from paths that are gone to paths that were free |
| PatchEmit.CleanIs | crates/molt-core/src/wiki_patch.rs:179-184 | clean renames, said of the maps themselves: what moves goes from a path that is gone to one that was free, one to one |
| PatchEmit.AppliedIsClean | crates/molt-core/src/wiki_patch.rs:185-236 | any patch that carries the moves of a changeset and gives the new side had clean renames, whatever became of its other files |
| PatchEmit.SwapIsVoid | crates/molt-core/src/wiki_patch.rs:179-184 | two documents that trade their names: the renames are not clean and the emitted patch is void, naming a path twice |
| PatchEmit.NoPatchIffSame | crates/molt-core/src/wiki_patch.rs:72-84 | nothing is emitted exactly if the trees are equal and nothing moved |
| PatchText.LinesOfPrint | crates/molt-core/src/wiki_fold.rs:120-123 | printed lines without carriage returns at their ends are read back as they were |
| PatchText.RunParsePatch | crates/molt-core/src/wiki_fold.rs:112-178 | the line by line reader gives the specified files for every text |
| PatchText.HunkOldReads | crates/molt-core/src/wiki_fold.rs:180-194 | a printed old range, with its count or without, is read back as its two numbers |
| PatchText.HeaderSplits | crates/molt-core/src/wiki_fold.rs:123-133 | a header gives back its two paths exactly if the new one holds no " b/" |
| PatchText.SplitNames | crates/molt-core/src/wiki_fold.rs:123-133 | a path with " b/" in it comes back from its header as a longer old path and a new path without " b/" |
| PatchText.ParseOfPrint | crates/molt-core/src/wiki_fold.rs:120-178 | what the reader makes of any printed patch: flags, renames, positions, lines and missing newlines as printed, other paths as their header splits |
| PatchText.ParseIsInverse | crates/molt-core/src/wiki_patch.rs:85-123 | a printed patch is read back as its files exactly if each is a rename or has no " b/" in its path |
| WikiFold.RunWikiFold | crates/molt-core/src/wiki_fold.rs:406-415 | the loop gives the folded tree and the number of patches that applied |
| WikiFold.RunFoldOne | crates/molt-core/src/wiki_fold.rs:384-392 | a wiki payload applies its patch or leaves the tree; any other leaves it |
| WikiFold.LandedMoves | crates/molt-core/src/wiki_fold.rs:384-415 | a wiki payload whose patch applies replaces the tree by the patched one and moves the revision by one |
| WikiFold.VoidDropsOut | crates/molt-core/src/wiki_fold.rs:384-415 | any other payload, of another kind, without a value or void, could as well not be in the log |
| WikiFold.FoldExtends | crates/molt-core/src/wiki_fold.rs:394-415 | a snapshot and the tail after it reach the tree and revision of the whole log |
| WikiFold.PathsStayIffNoStray | crates/molt-core/src/wiki_fold.rs:330-345 | an applied patch keeps all paths valid exactly if no file with an invalid new path is marked both added and deleted |
| WikiFold.FoldKeepsPaths | crates/molt-core/src/wiki_fold.rs:394-415 | a base folded from patches without such files holds valid paths only |
| WikiFold.EmittedTextFolds | crates/molt-core/src/wiki_patch.rs:72-245 | for all plain trees with valid paths: folding the printed changeset onto the first gives the second, exactly if renames are clean and no change but a moving rename has " b/" in its path; nothing is printed only for equal trees |
| WikiFold.DifferExists | crates/molt-core/src/wiki_patch.rs:239-245 | a differ that aligns every two texts and prints plain hunks for plain ones, so what the printed round trip asks of one can be met |
| WikiFold.SplitLosesChange | crates/molt-core/src/wiki_fold.rs:123-133 | under clean renames, a change that does not move and has " b/" in its path keeps the patch that is read back from giving the new side |
| WikiFold.SplitIsMisplaced | crates/molt-core/src/wiki_fold.rs:123-133 | adding an empty document "a b/c" by its printed patch creates a document "c" instead |
| WikiFold.BlankIsReachable | crates/molt-core/src/wiki_fold.rs:120-178 | one payload puts an entry under the empty path into the base |
| Bytes.U32Is | crates/molt-core/src/lib.rs:2587-2606 | lengths and counts are four bytes, least significant first |
| Bytes.U64Is | crates/molt-core/src/chain.rs:642-764 | heights, ids and counts are eight bytes, least significant first |
| ChainBytes.ApprovalReads | crates/molt-core/src/chain.rs:208-332 | a reader stated apart from the writer, tag, republic, height, kind and the fields of that kind, gives back exactly republic, height and change |
| ChainBytes.RosterReads | crates/molt-core/src/lib.rs:2608-2715 | founding bytes are read back, by version, as everything but the display name, a keyed table's missing features as none |
| ChainBytes.LinkReads | crates/molt-core/src/chain.rs:766-788 | link bytes are read back as height, predecessor, approval bytes and the signatures by member and signature |
| ChainBytes.ApprovalIsExact | crates/molt-core/src/chain.rs:208-332 | approval bytes agree exactly if republic, height and change agree, or both found a republic with equal signed tables; conditional membership extensions included |
| ChainBytes.RosterCancel | crates/molt-core/src/lib.rs:2608-2715 | founding bytes across their three versions determine everything but the display name |
| ChainBytes.ExtensionsCancel | crates/molt-core/src/chain.rs:285-305 | relays and consent, each present or not, are read back uniquely |
| ChainBytes.LinkIsExact | crates/molt-core/src/chain.rs:766-788 | link bytes agree exactly if height, predecessor, signed change and signature multiset agree |
| ChainBytes.OneHeadOneHistory | crates/molt-core/src/chain.rs:766-788 | two linked chains with one head hash agree block by block at every height, or show two different links with one hash |
| CheckpointBytes.CheckpointReads | crates/molt-core/src/chain.rs:642-764 | a reader stated apart from the writer gives back every state from its bytes, in all five versions |
| CheckpointBytes.VersionIs | crates/molt-core/src/chain.rs:642-688 | the version the bytes open with: v10 exactly if some identity has a vault key, else v9 if the memory group holds a wiki base, else v8 if a group is none of the first six, else v7 if there are features |
| CheckpointBytes.CanonicalIsInjective | crates/molt-core/src/chain.rs:625-764 | equal checkpoint bytes come from equal states, across all five versions picked by content |
| CheckpointBytes.VersionCancel | crates/molt-core/src/chain.rs:642-688 | the version tag is read uniquely off the bytes |
| Codec.Reader.TakeBytes | crates/molt-core/src/vault.rs:792-804 | the next bytes and a moved cursor, or nothing and an unmoved one |
| VaultLayout.LayoutCancel | crates/molt-core/src/vault.rs:483-505 | equal layouts have equal tags, and equal fields within one shape |
| VaultLayout.PrimitiveReads | crates/molt-core/src/vault.rs:483-664 | a reader that knows each tag's fields in order gives back every primitive, each value in its place |
| VaultLayout.PrimitivesAreInjective | crates/molt-core/src/vault.rs:516-664 | equal preimages come from the same primitive with the same values, across all thirteen |
| VaultLayout.ShapesMeet | crates/molt-core/src/vault.rs:483-505 | across shapes layouts can meet: an empty field reads like an empty list |
| VaultBase.DecodeOfEncode | crates/molt-core/src/vault.rs:706-790 | decoding an encoding gives the sorted base; duplicate slots or grants and trailing bytes are refused |
| VaultBase.EncodeOfDecode | crates/molt-core/src/vault.rs:735-790 | any bytes that decode are the encoding of what they decode to, which is without duplicates, deposits by depositor and name and grants by id in byte order |
| VaultBase.TruncationIsRefused | crates/molt-core/src/vault.rs:739-782 | no proper prefix of an encoding decodes |
| VaultBase.RunDecode | crates/molt-core/src/vault.rs:739-782 | the reader loops give the specified base or the specified error for every stream |
| WikiBase.DecodeOfEncode | crates/molt-core/src/wiki_fold.rs:417-488 | decoding an encoding gives the tree; with anything after it nothing decodes |
| WikiBase.PrefixIsRefused | crates/molt-core/src/wiki_fold.rs:442-488 | no proper prefix of an encoding decodes |
| WikiBase.CanonicalIffAscending | crates/molt-core/src/wiki_fold.rs:452-488 | a stream that decodes re-encodes to itself exactly if its paths ascend as byte strings |
| WikiBase.DisorderDecodes | crates/molt-core/src/wiki_fold.rs:470-484 | a concrete stream out of order that decodes and re-encodes to other bytes |
| WikiBase.RunDecode | crates/molt-core/src/wiki_fold.rs:452-488 | the cursor loop gives the specified tree or the specified error for every stream |
| Parking.ParkedRefs.Park | crates/molt-engine/src/chat.rs:979-995 | the new map and ledger, by shedding the oldest ref, evicting the oldest target or appending |
| Parking.ParkedRefs.Drain | crates/molt-engine/src/chat.rs:999-1005 | returns what is parked for the target and frees its slot |
| Parking.RunAgrees | crates/molt-engine/src/chat.rs:960-1011 | every run agrees with an ideal record that keeps everything parked per waiting target and gives up the longest waiting one when full |
| Parking.RunIsBounded | crates/molt-engine/src/chat.rs:909-915 | after every run the ledger is free of duplicates and equals the keys, at most 256, with 1 to 64 refs each |
| Parking.ParkedWaits | crates/molt-engine/src/chat.rs:967-1005 | a target is parked exactly if some event found it absent and it has been present after every event since |
| Parking.DrainIsHistory | crates/molt-engine/src/chat.rs:997-1005 | after any run a drain returns exactly the last 64 refs parked for the target since it was last absent, in arrival order, and nothing exactly if it is absent |
| Parking.EvictionIsOldest | crates/molt-engine/src/chat.rs:986-992 | a target leaves unasked only when a new one meets a full buffer, and it is the one parked longest ago |
| Quota.RunQuota | crates/molt-engine/src/backup.rs:804-845 | the loops give the specified deletions and remainder |
| Quota.NothingGoesIff | crates/molt-engine/src/backup.rs:804-845 | nothing is deleted exactly if there is no limit, the bytes used fit it, or every copy is its workspace's newest, the fresh one or pinned; all bytes used are then left |
| Quota.StaysIfEnough | crates/molt-engine/src/backup.rs:836-845 | a copy that could go stays only if there is no limit or the rest fits it |
| Quota.LastIsNeeded | crates/molt-engine/src/backup.rs:836-845 | without the last deletion the bucket would be over its limit |
| Quota.NewestIsNewest | crates/molt-engine/src/backup.rs:814-827 | the copy kept per workspace is its own and no older than any other of it |
| Quota.QuotaConserves | crates/molt-engine/src/backup.rs:804-845 | with different keys and a total within 64 bits, remaining plus deleted bytes are the bytes used |
| Quota.Shortest | crates/molt-engine/src/backup.rs:836-845 | the deletions are the shortest oldest-first run of candidates that fits the limit, or all of them |
| Quota.ProtectedStays | crates/molt-engine/src/backup.rs:828-833 | the newest copy of a workspace, the copy just uploaded and pinned older copies are never deleted |
| Quota.WorkspaceKeepsACopy | crates/molt-engine/src/backup.rs:790-803 | every workspace with a copy keeps one, whatever the limit |
| Quota.OldestGoFirst | crates/molt-engine/src/backup.rs:834-835 | a copy that could go and stays is no older than one that goes |
| Quota.OwnBackupsAre | crates/molt-engine/src/backup.rs:783-788 | exactly the copies of the node's own workspaces count, each once |
| Quota.ForeignStays | crates/molt-engine/src/backup.rs:783-788 | no copy of a workspace this node does not back up is deleted |
| Quota.PruneIsSafe | crates/molt-engine/src/backup.rs:692-708 | retention never deletes the fresh copy or a pinned one, and older copies go before newer |
| Quota.PruneKeeps | crates/molt-engine/src/backup.rs:692-708 | exactly `keep` unpinned copies stay, or all if fewer, or one more if the fresh copy sorts among the oldest |

## Left out

- Parsing payloads from JSON and canonicalizing references (`parse_act`, `parse_field`, `kanban_canonicalize`): acts start parsed, with the shape rules of a single act as a check that voids the payload.
- Which shape rule voids a payload: only that one does.
- The printed form of hunks comes from the `similar` crate, which is not part of this model: any aligned hunks in the unified format are admitted, and what a hunk header says of the new side is a parameter.
- Carriage returns and newlines in paths: the printed round trip is stated for texts without carriage returns, as the line reader strips one before a newline, and for paths a line can hold; and for texts whose length fits 64 bits, as every text in memory does.
- Numbers above 64 bits in frames: the source panics rather than write them, and the byte theorems ask for sizes that can be framed.
- KanbanCache.State.Rewrite: the epoch is an unbounded number here; a wrap-around at 64 bits is not modelled.
- KanbanCache.Cache.Step: promises an honest derivation only below saturation of the revision, which needs as many log entries as a 64-bit number can count; past it a revision no longer names one board.
- StartScan.StartScan: a monthly series has no starts after year 9999, where the jumps of the source end, so what it means by a start ends there too; instants are whole seconds.
- Quota.QuotaConserves: beyond a total of 64 bits the source saturates and no longer conserves.
- `task_actions`, `key_begins`, `impact`, the review, view and wallet read models: lists and display over what is modelled here.
- `count_changes` and patch summaries: counts over the modelled changeset.
- Chat events, delivery windows, `files_state`, relay classification, configuration, compaction, and the asynchronous and S3 side of backups.
- Cryptography: signatures, hashing, HPKE and Shamir sharing stay outside; a hash is any function, with collisions named in the theorem.
