# Verified models of Campfire's algorithmic cores

Dafny models of the algorithms that Campfire's server, web client and shared schema rely on, with proofs of what they
promise. `dafny verify dfyconfig.toml` verifies the whole project.

- **Recurring sessions and wall clocks** (`Calendar`, `LocalDates`, `WallClock`, `ClockResolution`, `Series`,
  `Recurrence`, `RecurrenceTheorems`, `RecurrenceDates`, `RecurrenceSpecs`, `StepBudget`, `SeriesLength`): the proleptic
  Gregorian calendar as a day number with an inverse, calendar dates as text, a zone as a function from instants to
  offsets, the resolution of a wall clock that exists once, twice or never, and the expansion of a rule under its step
  budget.
- **Fog of war** (`Fog`, `FogGeometry`, `FogRegions`, `FogEdits`, `FogViewer`, `FogUndo`): rectangle subtraction as set
  difference on the points of the board, runs of edits, what a viewer is shown, and the undo stack with the editor that
  applies its answers.
- **The sidecar of the image slots** (`Sidecar`, `SidecarFailures`): one asynchronous read, edits that race it, and
  serialized writes, as a class whose callbacks are the steps of a state machine.
- **Dice** (`Dice`, `DiceText`, `DiceWriting`, `DiceExpressions`, `DiceBounds`, `Sorting`, `KeptDice`, `DiceRolls`,
  `DiceValues`): the signed-term parser, the predicate for damage expressions, keep and drop clauses, and the roller over
  given faces.
- **Semantic versions** (`Splitting`, `Semver`, `SemverText`, `SemverGrammar`, `SemverOrder`, `SemverRange`,
  `SemverRangeText`, `SemverRangeParse`): the parser and printer, precedence, and ranges.
- **Agreement of two forms**: canonical JSON against deep equality (`Json`, `JsonText`, `JsonForms`, `CanonicalJson`,
  `CanonicalForm`, `DeepJson`), two tokenizers (`TextSearch`), the two condition columns (`Conditions`, `ConditionRuns`,
  `ConditionNames`, `ConditionLeftOut`, `ConditionReadBack`, `ConditionWrites`), the displayed attack against the rolled
  one (`ActionSpec`, `ActionSpecText`, `ActionSpecAgreement`, `ActionSpecFixedPoint`, `ActionSpecMeaning`,
  `DerivedAttack`).
- **Rests** (`Rest`, `RestTheorems`, `RestReports`, `RestFixedPoint`, `RestMeaning`).

`Text`, `Integers` and `Sequences` hold what several modules share. Code of the repository that loops or changes state is a
method or a class here, proved equal to a function of its inputs or of the old state. The theorems are about that function,
and for each operation some of them say what it returns without it: on the inputs, in literals and in definitions of
their own.

Six promises of the repository turned out to fail on some inputs. For each there is a lemma with an input, and a lemma
that says exactly when the promise holds:

| promise | fails for | exact condition |
|---|---|---|
| a series without last date has `count` occurrences | `SeriesLength.LeapDayGap`: monthly from 2000-02-29, every 300 months, 10 times, gives 9; `SeriesLength.LongIntervalGap`: every ten million months, twice, gives 1 | `SeriesLength.BudgetIff` |
| a wall clock is resolved to exact, gap or ambiguous as it is | `ClockResolution.FirstMidnightGap`: 0100-01-01T00:00 | `ClockResolution.FaithfulIff` |
| a rollable damage expression is accepted by the roller | `DiceBounds.RollableGap`: `1 d6` | `DiceBounds.RollableIsAcceptedIff` |
| deep equality ignores nothing but key order | `DeepJson.DeepGap`: a `__proto__` key | `DeepJson.DeepIff`, `DeepJson.DeepRightIff` |
| an expanded attack of one rollable part rebuilds to itself | `ActionSpecFixedPoint.BareDieChanges`: +3 for `d6` fire | `ActionSpecFixedPoint.FixedPointIff` |
| a condition write reads back as it was written | `ConditionReadBack.LongNameGap`: a condition with a source, and a name of 121 characters beside it | `ConditionReadBack.WriteReadsBackIff` |

## Model

| member | source | states |
|---|---|---|
| Calendar.DayFromYearFormula | packages/schema/src/recurrence.ts:245-265 | the day number a year starts at, counted year by year, is the closed formula of the Gregorian leap rule, for years before and after 1970 |
| Calendar.DayOfCivil | packages/schema/src/recurrence.ts:245-265 | every day number names a valid calendar day whose number it is |
| Calendar.CivilOfDay | packages/schema/src/recurrence.ts:245-265 | every valid calendar day is recovered from its day number |
| Calendar.BeforeIsDayOrder | packages/schema/src/recurrence.ts:338-345 | chronological order of days is the order of their numbers |
| LocalDates.IsLocalDateIff | packages/schema/src/recurrence.ts:40-45 | accepted local dates are exactly the well-shaped days of the calendar in the years 100 to 9999 |
| LocalDates.TextIsLocalDate | packages/schema/src/recurrence.ts:235-238 | the text of a calendar day is an accepted local date exactly when its year is 100 to 9999 |
| LocalDates.DateOrder | packages/schema/src/recurrence.ts:344 | comparing local dates as strings is comparing them as days, so the test against the last date is chronological |
| LocalDates.AddDaysIsDayArithmetic | packages/schema/src/recurrence.ts:245-249 | adding days adds to the day number, and leaves the local dates exactly when the sum leaves the years 100 to 9999 |
| LocalDates.AddDaysAdditive | packages/schema/src/recurrence.ts:245-249 | adding days twice is adding their sum |
| LocalDates.AddMonthsIff | packages/schema/src/recurrence.ts:257-265 | a month step yields the same day of the target month, or nothing exactly when that month lacks it (RFC 5545, section 3.3.10) or lies past what a `Date` holds |
| WallClock.OffsetRecovered | packages/schema/src/recurrence.ts:110-116 | from the year 100 on, the offset worked out from the formatter's fields is the zone's offset |
| ClockResolution.FaithfulFromEarliest | packages/schema/src/recurrence.ts:154-184 | from 0100-01-02T23:59 on and for every regular zone: exact names the only instant that reads the wall clock, ambiguous the earlier of the two, and gap, when there is none, the instant of the offset before the gap, which reads later (RFC 5545, section 3.3.5) |
| ClockResolution.UnfaithfulBefore | packages/schema/src/recurrence.ts:110-116 | for every earlier wall clock there is a regular zone that is answered wrongly, because `Date.UTC` moves the year 99 to 1999 |
| ClockResolution.FirstMidnightGap | packages/schema/src/recurrence.ts:154-184 | 0100-01-01T00:00 is a wall clock that some regular zone answers wrongly |
| ClockResolution.FaithfulIff | packages/schema/src/recurrence.ts:154-184 | a wall clock is resolved faithfully in all regular zones exactly from 0100-01-02T23:59 on |
| ClockResolution.MaterializedPairReadsBack | packages/schema/src/recurrence.ts:220-227 | materializing succeeds exactly for a valid wall clock in a known zone; the stored pair always reads back, and keeps the wall clock asked for exactly when that is no gap |
| ClockResolution.ResolvedOffset | packages/schema/src/recurrence.ts:154-184 | in every zone with offsets below a day, the chosen instant takes an offset in force within a day of the wall clock |
| ClockResolution.RefusedClock | packages/schema/src/recurrence.ts:154-158 | refused are exactly the texts that are no wall clock, and then the unknown zones |
| ClockResolution.LocalTimeIff | packages/schema/src/recurrence.ts:47-52 | local times are exactly the minutes of a day, each with its milliseconds |
| Series.RunWalk | packages/schema/src/recurrence.ts:338-361 | the bounded loop with its skips, its break and its first failure returns what its steps make, in order |
| Series.Walk.ChosenInOrder | packages/schema/src/recurrence.ts:338-345 | steps taken increase, lie in the budget, have a date not past the last one, and number at most `count` |
| Series.Walk.ChosenComplete | packages/schema/src/recurrence.ts:338-345 | up to the last step taken, no step with a date is left out |
| Recurrence.RuleOf | packages/schema/src/recurrence.ts:315-334 | an accepted specification gives a valid rule; which are accepted, and what rule they give, is `RecurrenceSpecs.AcceptedIff`, `RefusedFor` and `RuleIs` |
| Recurrence.ExpandRecurrence | packages/schema/src/recurrence.ts:315-362 | the checks in their order and then the loop compute `Expand`, which `RecurrenceSpecs` states on the fields of the specification |
| Recurrence.StepsInOrder | packages/schema/src/recurrence.ts:339-343 | later steps of a rule name later dates |
| RecurrenceTheorems.SeriesFollowsRule | packages/schema/src/recurrence.ts:338-361 | occurrences are numbered contiguously from 0, keep the weekday or the day of the month, store pairs that read back, never pass the last date and have strictly increasing dates |
| RecurrenceTheorems.SeriesStartsAtStart | packages/schema/src/recurrence.ts:338-361 | the first occurrence is on the start date, and there is none exactly when the last date is before it |
| RecurrenceTheorems.InstantsIncrease | packages/schema/src/recurrence.ts:346-358 | where a zone's offsets differ by less than a day, later occurrences start at later instants |
| RecurrenceTheorems.SmallerCountIsPrefix | packages/schema/src/recurrence.ts:336-361 | a smaller count gives a prefix of the series |
| RecurrenceTheorems.UntilTruncates | packages/schema/src/recurrence.ts:328-345 | a last date keeps exactly the occurrences that are not after it |
| RecurrenceDates.OccursIff | packages/schema/src/recurrence.ts:338-361 | a date occurs exactly when it is whole intervals of the rule after the start and not after the last occurrence: none is missing and none is added |
| RecurrenceSpecs.AcceptedIff | packages/schema/src/recurrence.ts:315-334 | accepted are exactly a local date and time, a known zone, one of the three frequencies, an interval and a count of at least 1, a count below 105, and a last date that is none or a local date |
| RecurrenceSpecs.RefusedFor | packages/schema/src/recurrence.ts:315-334 | every refusal names the first check that fails |
| RecurrenceSpecs.RuleIs | packages/schema/src/recurrence.ts:315-334 | the rule of an accepted specification has its fields, the frequency its text names, and whole numbers |
| RecurrenceSpecs.DailyDates | packages/schema/src/recurrence.ts:338-343 | occurrence i of a `daily` specification is i times the interval in days after its start date |
| RecurrenceSpecs.WeeklyDates | packages/schema/src/recurrence.ts:338-343 | occurrence i of a `weekly` specification is i times the interval in weeks after its start date |
| RecurrenceSpecs.MonthlyDates | packages/schema/src/recurrence.ts:338-343 | every occurrence of a `monthly` specification is on the day of the month of its start date, whole intervals of months later |
| RecurrenceSpecs.SpecOccursIff | packages/schema/src/recurrence.ts:338-361 | up to its last occurrence a series has exactly the dates that the frequency, interval and start date of its specification name |
| RecurrenceSpecs.OccurrenceFields | packages/schema/src/recurrence.ts:346-358 | each occurrence has its index, the duration, and the instant of the start time on its date, which is its local start outside a gap |
| RecurrenceSpecs.SeriesLimits | packages/schema/src/recurrence.ts:336-361 | no more occurrences than asked for and none after the last date; the first on the start date, unless the last date is earlier |
| RecurrenceSpecs.FullLength | packages/schema/src/recurrence.ts:336-361 | a daily or weekly series without last date has exactly as many occurrences as asked for |
| StepBudget.HitInTwelve | packages/schema/src/recurrence.ts:333-336 | outside one family, any twelve consecutive month steps contain a month that has the start day |
| StepBudget.BudgetWithinDate | packages/schema/src/recurrence.ts:333-361 | of rules whose months a `Date` can hold, exactly those of the rare family (monthly from 29 February of a year divisible by 400, an interval that is an odd multiple of 300) that count ten or more fall short, to (12 * count + 39) / 16 |
| SeriesLength.BudgetIff | packages/schema/src/recurrence.ts:333-361 | a series without last date has exactly `count` occurrences unless its rule is of the rare family and counts ten or more, or every later month of the budget lacks the start day or lies past what a `Date` holds; then only the start is left |
| SeriesLength.LeapsOutAlone | packages/schema/src/recurrence.ts:257-265 | a rule of the second kind expands without an error, to its start alone |
| SeriesLength.LongIntervalLeaps | packages/schema/src/recurrence.ts:257-265 | an interval of 280000 years or more makes a rule of the second kind |
| StepBudget.ExpansionSucceeds | packages/schema/src/recurrence.ts:338-361 | a rule within the years 100 to 9999 expands without an error |
| StepBudget.CountIsReached | packages/schema/src/recurrence.ts:333-361 | within those years an open-ended series is `count` long exactly outside that family |
| StepBudget.BudgetRunsOut | packages/schema/src/recurrence.ts:333-361 | any accepted rule of ten occurrences every 300 months from 2000-02-29 expands to nine |
| SeriesLength.LeapDayGap | packages/schema/src/recurrence.ts:315-362 | the specification with start 2000-02-29, 300 months and ten occurrences is accepted and expands to nine |
| SeriesLength.LongIntervalGap | packages/schema/src/recurrence.ts:315-362 | the specification with start 2000-02-29, ten million months and two occurrences is accepted and expands to one |
| Fog.SubtractFogRect | packages/schema/src/fog-editor.ts:25-58 | the pushes of the four strips compute the pieces that the geometry is about |
| Fog.EraseFogRegion | packages/schema/src/fog-editor.ts:76-85 | the nested loops erase the brush from every region, each piece keeping its region's id, and keep the newest 500 |
| FogGeometry.SubtractIsKeptStrips | packages/schema/src/fog-editor.ts:25-58 | the pieces cover exactly the points of those of the four strips around the brush that are at least 0.5 wide and high |
| FogGeometry.SubtractIsDifference | packages/schema/src/fog-editor.ts:25-58 | nothing strictly inside the brush is covered any more, nothing new is, and any other point is lost only in a strip under 0.5 |
| FogGeometry.SubtractIsApart | packages/schema/src/fog-editor.ts:25-58 | no two pieces of a rectangle overlap |
| FogGeometry.AreaIsConserved | packages/schema/src/fog-editor.ts:15-58 | the areas of the strips before the minimum size and of the overlap with the brush sum to the area of the rectangle on the board |
| FogGeometry.SubtractInSchema | packages/schema/src/index.ts:10693-10700 | pieces of stored rectangles are storable rectangles |
| FogGeometry.EraseIsDifference | packages/schema/src/fog-editor.ts:76-85 | erasing from a list is set difference on points; a point outside the brush is lost only in a sliver or through the cap of 500; the result is storable |
| FogRegions.EraseKeepsApart | packages/schema/src/fog-editor.ts:76-85 | regions that do not overlap do not overlap after an erase either |
| FogGeometry.EditRevealsOnlyItsOwn | packages/schema/src/fog-editor.ts:69-111 | a reveal, erase, move or delete reveals no point but by putting a rectangle of its own over it |
| FogGeometry.ErasedStaysConcealed | packages/schema/src/fog-editor.ts:69-111 | over any run of edits, a point strictly inside an erased brush stays concealed until an edit reveals it or moves a region over it |
| FogGeometry.ErasingConceals | apps/server/src/common/fog.ts:24-27 | an erase whose strict interior meets the board always makes the fog conceal pixels |
| FogViewer.RevealIsUnion | packages/schema/src/fog-editor.ts:69-73 | a reveal uncovers exactly its rectangle besides what was uncovered, of which only regions over the cap go |
| FogViewer.MoveShifts | packages/schema/src/fog-editor.ts:88-101 | after a move exactly the points of the other regions and the shifted points of the moved one are uncovered, or its old points when too little of it would remain |
| FogViewer.DeleteIsExact | packages/schema/src/fog-editor.ts:104-111 | after a delete exactly the points of the regions with another id are uncovered |
| FogViewer.ErasedTemplateWithheld | packages/schema/src/fog-visibility.ts:18-29 | after an erase, a template strictly inside the brush is shown over every later dark run to nobody but the viewer who declared it |
| FogViewer.UnconcealedShowsAll | packages/schema/src/fog-visibility.ts:18-29 | when the fog conceals no pixels every template on the board is shown |
| FogViewer.FilterIff | packages/schema/src/fog-visibility.ts:18-29 | a template is shown exactly when the fog is off, to the one who declared it, or where a region holds its origin |
| FogViewer.FilterJoin | packages/schema/src/fog-visibility.ts:18-29 | the templates shown keep their order |
| FogEdits.MovePlaces | packages/schema/src/fog-editor.ts:88-101 | a move places the regions with the id: kept on the board, cut at its far edges, and left alone when less than 0.5 would remain |
| FogEdits.DraggedPastEdge | packages/schema/src/fog-editor.ts:15-22 | dragged past the left or the top edge, a region starts at 0 and keeps its size as far as the board allows |
| FogEdits.RevealAppends | packages/schema/src/fog-editor.ts:69-73 | a reveal puts its rectangle last, under its own or a new id, and drops the oldest beyond 500 |
| FogEdits.DeleteLeavesOthers | packages/schema/src/fog-editor.ts:104-111 | a delete leaves the regions with another id, unchanged and in order |
| FogEdits.ErasedPieces | packages/schema/src/fog-editor.ts:76-85 | an erase leaves at most 500 pieces, each with the id of the region it comes from |
| FogEdits.EditsEnable | packages/schema/src/fog-editor.ts:61-111 | every edit turns the fog on |
| FogEdits.IdsStay | packages/schema/src/fog-editor.ts:61-66 | every stored rectangle keeps its place, its size and its id, or gets one |
| FogEdits.NewIdsDiffer | packages/schema/src/fog-editor.ts:61-66 | rectangles without an id get different ones |
| FogEdits.NewIdIs | packages/schema/src/fog-editor.ts:61-66 | the id given is `fog-`, the place in the list and the corner in tenths, rounded to the nearest |
| FogEdits.ConcealsIff | apps/server/src/common/fog.ts:24-27 | no pixels are concealed exactly when the fog is off or one region holds two opposite corners of the board |
| FogUndo.FogUndoStack.Commit | packages/schema/src/fog-editor.ts:169-174 | pushes the previous state, dropping the oldest beyond 50, and clears the future; a commit of an equal state changes nothing |
| FogUndo.CommitRemembers | packages/schema/src/fog-editor.ts:169-174 | a commit remembers the state before it last, and forgets the oldest beyond 50 |
| FogUndo.FogUndoStack.Undo | packages/schema/src/fog-editor.ts:184-189 | moves the last past state out and the current one onto the future, or changes nothing when there is no past |
| FogUndo.FogUndoStack.Redo | packages/schema/src/fog-editor.ts:191-196 | moves the last future state out and the current one onto the past, or changes nothing when there is no future |
| FogUndo.FogEditor.RunEdits | apps/web/src/features/encounters/map/BattleMap.tsx:1076-1123 | any run of the three callbacks keeps the editor and its stack in step with the session of past, current and future |
| FogUndo.RunIsOneTimeline | packages/schema/src/fog-editor.ts:159-197 | past, current and reversed future form one timeline: undo and redo only move a cursor on it, and a commit cuts it after the cursor and drops only what is beyond the last 50 |
| FogUndo.RunStaysBounded | packages/schema/src/fog-editor.ts:169-174 | over any run past and future together hold at most 50 states |
| FogUndo.UndosThenRedos | packages/schema/src/fog-editor.ts:184-196 | `k` undos and then `k` redos restore the whole session |
| FogUndo.RedosThenUndos | packages/schema/src/fog-editor.ts:184-196 | `k` redos and then `k` undos restore the whole session |
| FogUndo.EqualStatesIff | packages/schema/src/fog-editor.ts:124-136 | the comparison that suppresses a commit is equality of the two states, an empty id counting as none |
| Sidecar.Store.Set | design/claude-design/image-slot.js:243-252 | one edit is one step: the slot and its tombstone change, and a save is made or deferred |
| Sidecar.Store.Hydrate | design/claude-design/image-slot.js:176-193 | the loop over the slots merges as the step does: memory over disk, images inherited, tombstones over both and then cleared |
| Sidecar.Store.Save | design/claude-design/image-slot.js:222-230 | a save under way marks the store dirty, any other writes the slots of the moment |
| Sidecar.Store.WriteCompleted | design/claude-design/image-slot.js:227-229 | a completed write makes the save that was requested meanwhile |
| Sidecar.QuiescentSidecarIsMemory | design/claude-design/image-slot.js:163-252 | in every interleaving, once loaded with no write and no deferred save pending the sidecar is the in-memory slots, which are the later edits replayed on the hydrated ones |
| Sidecar.HydrationIsReplay | design/claude-design/image-slot.js:176-193 | edits carrying an image made before hydration end up as if hydration had come first |
| Sidecar.QuiescentSidecarIsReplay | design/claude-design/image-slot.js:163-252 | when those edits carry images, the sidecar at rest is the original file with all edits replayed in order |
| Sidecar.EachSlotSurvives | design/claude-design/image-slot.js:163-252 | in every interleaving: an untouched slot keeps its value, a cleared id is gone, and a slot set last keeps its framing and, if it had one, its image |
| Sidecar.StoreSettles | design/claude-design/image-slot.js:172-230 | every callback but an edit lowers what is pending, and a loading store not at rest has a callback that can run |
| Sidecar.Store.Get | design/claude-design/image-slot.js:237-241 | a missing slot and a bare empty text answer nothing, a bare image itself at scale 1 and centred, a stored value itself |
| SidecarFailures.LastWriteWins | design/claude-design/image-slot.js:163-252 | in every interleaving, with failing reads and writes: memory is the edits replayed on what the read found, and at rest after a write that came out the file is memory |
| SidecarFailures.FailedWriteKeepsDisk | design/claude-design/image-slot.js:222-230 | a failed write leaves the file as it was, and a save requested meanwhile is made |
| Dice.WalkSignedTerms | apps/server/src/common/dice.ts:163-180 | the scan with its flushes yields the fragments between signs, each with its sign and trimmed body |
| Dice.PatternGivesTerms | apps/server/src/common/dice.ts:141-154 | every expression that matches the pattern splits into at least one fragment, each a die term or a number, so the parser never meets a body it cannot read |
| DiceText.ParseOfPrint | apps/server/src/common/dice.ts:141-211 | printing any non-empty list of terms within bounds and parsing it gives the list, with the source texts aligned by index |
| DiceText.ParsedInBounds | apps/server/src/common/dice.ts:141-211 | every accepted expression parses to at least one term, all within bounds, with as many source texts, and to a list that prints and parses back |
| DiceWriting.BodyReads | apps/server/src/common/dice.ts:119-211 | a term body, in any case and with any white space around its clause, reads as its count, 1 when none is written, its sides and its clause, or fails by the first bound it breaks, in the order count, sides, clause |
| DiceWriting.BodyIsWritten | apps/server/src/common/dice.ts:119-211 | every term body is such a writing |
| DiceExpressions.WritingParses | apps/server/src/common/dice.ts:141-211 | an expression written as any signed bodies with any white space between them parses to the terms they mean, or to the error of the first out of bounds |
| DiceExpressions.ExpressionIff | apps/server/src/common/dice.ts:141-154 | the pattern accepts exactly these writings |
| DiceExpressions.LabelsAre | apps/server/src/common/dice.ts:378-392 | the source texts are the bodies without white space, signed unless they are added dice |
| DiceBounds.RollableIff | packages/schema/src/dice-bounds.ts:49-59 | an expression with inner white space around its sign only is rollable exactly when it starts unsigned and the roller's parser reads one added die without clause and at most one modifier; the values agree |
| DiceBounds.RollableWithoutSpace | packages/schema/src/dice-bounds.ts:49-59 | any expression is rollable exactly when, without its white space, it starts unsigned and is read as one added die and at most one modifier |
| DiceBounds.RollableIsAcceptedIff | packages/schema/src/dice-bounds.ts:49-59 | the roller refuses a rollable expression exactly when white space stands inside its die or its number |
| DiceBounds.RollableGap | packages/schema/src/dice-bounds.ts:49-59 | `1 d6` is rollable and refused |
| KeptDice.KeepIsDrop | apps/server/src/common/dice.ts:218-239 | keeping the n highest is dropping the rest as lowest, and keeping the n lowest is dropping the rest as highest |
| KeptDice.KeptInRollOrder | apps/server/src/common/dice.ts:218-239 | the kept positions are the selected ones, each once, in roll order |
| KeptDice.HighAndLowPartition | apps/server/src/common/dice.ts:218-239 | kept highest and the rest kept lowest are all dice, each once, the first outranking the second |
| KeptDice.HighestIsBest | apps/server/src/common/dice.ts:218-239 | `kh n` keeps n dice whose sum no other n dice exceed |
| KeptDice.LowestIsLeast | apps/server/src/common/dice.ts:218-239 | `kl n` keeps n dice, and no other n dice sum to less |
| DiceValues.RollDice | apps/server/src/common/dice.ts:314-370 | rolls exactly the accepted expressions; the result adds up what its terms mean (`ResultMeans`): every face once in order, the total of the values, the kept dice of a lone clause |
| DiceRolls.BreakdownAt | apps/server/src/common/dice.ts:329-356 | breakdown i is that of term i with its own source text, rolled where the terms before it ended |
| DiceRolls.RollsAreTheFaces | apps/server/src/common/dice.ts:329-356 | the flat list is every face in order, each rolled once, for the die whose turn it was |
| DiceRolls.TotalWithin | apps/server/src/common/dice.ts:329-356 | with fair dice the total lies between the bounds that the terms imply |
| DiceRolls.KeptSumIsExtreme | apps/server/src/common/dice.ts:218-239 | the faces that a clause keeps sum to at least, or at most, any choice of as many dice; `DiceValues.BreakdownsMean` ties the values to it |
| DiceRolls.LoneDieKept | apps/server/src/common/dice.ts:358-369 | with one die term the flat list of kept dice is that term's |
| DiceValues.BreakdownsMean | apps/server/src/common/dice.ts:329-356 | each breakdown is worth what its term means: a modifier its number, a die the signed sum of its own faces, a clause the signed sum of the dice it keeps, which no choice of as many exceeds or undercuts |
| DiceValues.ResultOfMeans | apps/server/src/common/dice.ts:314-370 | the total is the sum of the breakdowns, whose rolls are the faces in order |
| Semver.ParseVersion | packages/schema/src/semver.ts:38-68 | the parser with its early returns decides the grammar that the round trips are about |
| Semver.ComparePrerelease | packages/schema/src/semver.ts:81-103 | the loop compares by the first identifier that differs, a release sorting last |
| SemverText.ParseOfFormat | packages/schema/src/semver.ts:74-79 | every well-formed version parses back to itself |
| SemverText.FormatOfParse | packages/schema/src/semver.ts:38-79 | every accepted text is a well-formed version and prints back as its trimmed self |
| SemverGrammar.ParsesIff | packages/schema/src/semver.ts:35-79 | a text parses to a version exactly when, but for white space around it, it is the text of that version in the grammar of the standard (section 2, 9 and 10 of Semantic Versioning 2.0.0) |
| SemverOrder.VersionsDiffer | packages/schema/src/semver.ts:106-111 | the comparison is antisymmetric and zero exactly for versions equal but for build metadata |
| SemverOrder.VersionsChain | packages/schema/src/semver.ts:106-111 | the comparison is transitive |
| SemverOrder.PrecedenceIff | packages/schema/src/semver.ts:81-111 | less means lower precedence in the sense of section 11 of Semantic Versioning 2.0.0, stated by the first difference |
| SemverOrder.TextsDiffer | packages/schema/src/semver.ts:114-121 | the order extends to all strings: antisymmetric, texts that are no version equal to each other and after all versions |
| SemverOrder.TextsChain | packages/schema/src/semver.ts:114-121 | the order on strings is transitive |
| SemverOrder.TransitionBack | packages/schema/src/semver.ts:247-255 | going back from an upgrade is a downgrade, an upgrade raises precedence, `same` is equality ignoring build metadata, and `unknown` means that a text is no version |
| SemverRange.ParseRange | packages/schema/src/semver.ts:180-198 | the two loops with their early returns compute the range that `SemverRangeParse` characterises |
| SemverRangeParse.RangeParsesIff | packages/schema/src/semver.ts:180-198 | a range parses exactly when every text between its bars is not blank and consists of tokens that parse |
| SemverRangeParse.AlternativesAre | packages/schema/src/semver.ts:180-198 | the alternatives are the text cut at its double bars, from left to right |
| SemverRangeParse.WordsAre | packages/schema/src/semver.ts:180-198 | the words of an alternative are its runs without white space |
| SemverRangeParse.TokenHas | packages/schema/src/semver.ts:136-163 | whatever token parses is a wildcard, or an operator and a version, with the comparators of that operator |
| SemverRangeParse.Wildcards | packages/schema/src/semver.ts:131-138 | the three wildcards stand for no comparator |
| SemverRangeParse.BlankRefused | packages/schema/src/semver.ts:180-198 | a range with a blank alternative after its last bars or before its first, or with nothing at all, is refused |
| SemverRangeParse.BlankNeverSatisfied | packages/schema/src/semver.ts:228-244 | so no version satisfies it |
| SemverRange.CaretIff | packages/schema/src/semver.ts:136-163 | `^base` accepts a release exactly when it is at least base and agrees with it up to its leftmost non-zero component, and a prerelease exactly when base is a prerelease of the same triple and not greater |
| SemverRange.TildeIff | packages/schema/src/semver.ts:136-163 | `~base` accepts a release exactly when it is at least base in the same major and minor, and a prerelease as `^` does |
| SemverRangeText.ParseOfRangeText | packages/schema/src/semver.ts:136-198 | alternatives of tokens, written with blanks and bars, parse to their comparators in order |
| SemverRangeText.RangeMeans | packages/schema/src/semver.ts:200-244 | a version satisfies a written range exactly when some alternative has it within the bounds of every token and, for a prerelease, names a prerelease of its triple or means any version throughout |
| JsonText.SameTextSameValue | packages/schema/src/canonical-json.ts:17-30 | stringifying is injective: two values with one text are the same value |
| CanonicalJson.CanonicalIff | packages/schema/src/canonical-json.ts:17-30 | two values have the same canonical text exactly when they are equal but for key order at every depth |
| CanonicalForm.WalkIsSame | packages/schema/src/canonical-json.ts:17-30 | the canonical form is the value but for the order of keys |
| CanonicalForm.WalkIsOrdered | packages/schema/src/canonical-json.ts:17-30 | its keys are in order at every depth: array indices first, by number, then the others by text |
| CanonicalForm.IndexKeyIff | packages/schema/src/canonical-json.ts:17-30 | array indices are the numbers below 2^32 - 1 as they are written |
| JsonForms.Forms | packages/schema/src/canonical-json.ts:17-30 | the text of each form of a value: words, numbers, items and fields between brackets with commas |
| JsonForms.QuotedReads | packages/schema/src/canonical-json.ts:17-30 | a string is read back from its quoted text (section 7 of RFC 8259) |
| JsonForms.PlainQuoted | packages/schema/src/canonical-json.ts:17-30 | text without quotes, backslashes and control characters is quoted as it is |
| JsonForms.EscapeLength | packages/schema/src/canonical-json.ts:17-30 | seven characters have an escape of two characters, other control characters one of six, all others none |
| DeepJson.DeepIff | apps/server/src/common/json.ts:17-39 | deep equality compares, but for key order, what is left of the two values without their `__proto__` fields |
| DeepJson.DeepDecides | apps/server/src/common/json.ts:30-39 | it never tells apart values equal but for key order, and on values without `__proto__` it decides the same relation as the canonical text |
| DeepJson.DeepRightIff | apps/server/src/common/json.ts:17-39 | comparing a value with its stripped self it is right exactly when the value has no `__proto__` field |
| DeepJson.DeepGap | apps/server/src/common/json.ts:17-39 | an object with a `__proto__` field is called equal to the empty object |
| TextSearch.FindTokenMatch | apps/server/src/common/text-search.ts:99-115 | the scan that returns early finds the index of the first matching token |
| TextSearch.TokenizersAgree | apps/server/src/common/text-search.ts:55-58 | for every text, splitting on separators and scanning for words give the same tokens |
| TextSearch.ScanFindsTokens | apps/server/src/common/text-search.ts:99-115 | the scan's matches are maximal runs of letters and digits at their places, and every such run is among them |
| TextSearch.FirstIndexIsLeast | apps/server/src/common/text-search.ts:99-115 | the index is the least start of a token with a query token as prefix, and -1 exactly when there is none |
| TextSearch.MatchHasIndex | apps/server/src/common/text-search.ts:80-115 | whenever the query matches, there is such an index |
| TextSearch.TokensAreRuns | apps/server/src/common/text-search.ts:55-58 | the tokens of a text are its maximal runs of letters and numbers |
| TextSearch.MatchesIff | apps/server/src/common/text-search.ts:80-97 | a query matches exactly when it has a token and each of its tokens starts some token of the text |
| TextSearch.NoIndexIff | apps/server/src/common/text-search.ts:99-115 | the index is -1 exactly when no token of the text starts with one of the query |
| Conditions.ReconcileInstances | apps/server/src/common/conditions.ts:111-139 | the loops over the prior instances and the wanted names compute the reconciled list |
| Conditions.MergeSheetStacks | apps/server/src/common/conditions.ts:170-186 | the loop computes the merge of a sheet's stacks into the prior instances |
| Conditions.ReadBoth | apps/server/src/common/conditions.ts:255-270 | the loop reads the instances and adds a bare one for each stored name without one |
| ConditionRuns.DerivedIsTrimmed | packages/schema/src/index.ts:12019-12027 | every derived name is the trimmed, non-blank name of an instance |
| ConditionRuns.DerivedHasAll | packages/schema/src/index.ts:12019-12027 | every non-blank name is derived |
| ConditionRuns.DerivedOnce | packages/schema/src/index.ts:12019-12027 | no name is derived twice |
| ConditionRuns.WriteAgrees | apps/server/src/common/conditions.ts:142-246 | every one of the five writers leaves at most 50 instances and the names derived from exactly these |
| ConditionReadBack.WriteReadsBackIff | apps/server/src/common/conditions.ts:98-270 | a write reads back exactly as it was written if and only if the schema accepts what it is given (new names for which there is room of at most 120 characters, the listed or merged instances as far as they are stored), or it has nothing but names to store; stated on the arguments and the row before the write |
| ConditionReadBack.RunReadsBack | apps/server/src/common/conditions.ts:142-270 | over any run of the five writers from any row, the columns agree and reading returns exactly what the last write stored, if that write was given names of at most 120 characters or instances of the schema |
| ConditionReadBack.LongNameGap | apps/server/src/common/conditions.ts:98-148 | `prone` stored with a source reads back, and after a write by its name and one of 121 characters the row does not |
| ConditionRuns.WantedKeysAre | apps/server/src/common/conditions.ts:115-119 | the keys wanted are those of the non-blank names given |
| ConditionRuns.SurvivorsHold | apps/server/src/common/conditions.ts:111-139 | survivors are prior instances unchanged, in prior order, with distinct keys, one for each wanted key that prior has |
| ConditionNames.WantedSpelling | apps/server/src/common/conditions.ts:115-119 | of names with one key the last spelling is used |
| ConditionNames.SurvivorsAreFirst | apps/server/src/common/conditions.ts:111-139 | of several prior instances with one key the first survives |
| ConditionNames.ReconciledHolds | apps/server/src/common/conditions.ts:111-139 | a write by names is the survivors and then bare instances for keys prior lacked, together one for each name asked for, cut at 50 |
| ConditionNames.ReconciledKeys | apps/server/src/common/conditions.ts:111-139 | after the cap keys are distinct and all asked for, and with at most 50 different names none is missing |
| ConditionLeftOut.MergedKeys | apps/server/src/common/conditions.ts:170-186 | a merge leaves one instance for each non-blank key of the sheet and no other |
| ConditionLeftOut.MergedFromSheet | apps/server/src/common/conditions.ts:170-186 | a merged instance has its stacks from the sheet and everything else from the combatant's last instance of that key, if there is one |
| ConditionLeftOut.WritesOnlyNamed | apps/server/src/common/conditions.ts:142-246 | no write stores a key that it does not name |
| ConditionLeftOut.LeftOutStaysOut | apps/server/src/common/conditions.ts:111-156 | a name that a write by names leaves out does not show over any later run of writes until one names it, rewriting instances just read included |
| ConditionWrites.LegacyIs | apps/server/src/common/conditions.ts:73-95 | a bare name becomes an instance with that name, one stack, an id made of it and nothing else; a blank one none |
| ConditionWrites.SheetOfInstances | apps/server/src/common/conditions.ts:219-238 | a sheet written from instances holds the first fifty without the seven fields of an encounter, the rest unchanged |
| ConditionWrites.SheetOfNames | apps/server/src/common/conditions.ts:240-246 | a sheet written by names holds what a combatant would, without those fields |
| ConditionWrites.FirstFifty | apps/server/src/common/conditions.ts:151-156 | a combatant written from instances holds the first fifty, unchanged |
| ConditionWrites.NamedStays | apps/server/src/common/conditions.ts:111-148 | a stored condition that a write by names gives in any case stays as it is |
| ConditionWrites.ReadFills | apps/server/src/common/conditions.ts:255-270 | reading any row returns its instances, none when one is invalid, and then a bare one for each stored name without one, fifty in all |
| ConditionWrites.DerivedInOrder | packages/schema/src/index.ts:12019-12027 | derived names keep the order of the instances |
| ConditionWrites.WantedInOrder | apps/server/src/common/conditions.ts:115-119 | names given keep the order in which they first come |
| ConditionWrites.AddedInOrder | apps/server/src/common/conditions.ts:128-138 | new bare instances come in the order of the names wanted |
| ConditionWrites.MergedInOrder | apps/server/src/common/conditions.ts:170-186 | a merge keeps the order of the sheet |
| Rest.PlanOne | packages/schema/src/rest.ts:449-623 | the loops over dice, slots, pools and conditions compute the plan that `RestMeaning.PlanIs` states, or the failure of `RestMeaning.FailureIs` |
| Rest.PlanParty | packages/schema/src/rest.ts:634-649 | the loop plans each member with the dice that follow those of the members before, as `RestMeaning.PartyInTurn` states |
| RestTheorems.RestKeepsBounds | packages/schema/src/rest.ts:449-623 | a plan keeps hit points between what they were and the maximum, and every pool and slot, in place, in 0 to its maximum; a long rest leaves no slot used |
| RestTheorems.DiceAccounted | packages/schema/src/rest.ts:467-569 | dice spent are the rolls listed and the rise in used hit dice; what a long rest reports as recovered is their fall |
| RestTheorems.ConditionsSplit | packages/schema/src/rest.ts:571-598 | every condition lands in exactly one of cleared and kept, and what stays has at least one stack |
| RestTheorems.EachMemberOnce | packages/schema/src/rest.ts:634-649 | every party member is planned or failed, exactly once |
| RestReports.RecoveredAreFreed | packages/schema/src/rest.ts:534-569 | the pools listed as recovered are exactly those of which less is used afterwards |
| RestReports.LevelsAreFreed | packages/schema/src/rest.ts:429-446 | the slot levels listed as recovered are exactly those of which fewer are used afterwards |
| RestReports.ConditionsEndOrStay | packages/schema/src/rest.ts:409-419 | cleared are exactly the conditions that the rest clears or that lose their last stack; the others stay in order, a leveled one a stack lower |
| RestReports.FailsIff | packages/schema/src/rest.ts:458-504 | a plan fails exactly for the dead, and for hit dice asked for on a long rest, of unknown size, or beyond those unspent |
| RestMeaning.PlanIs | packages/schema/src/rest.ts:449-623 | what a plan does to a sheet: hit points healed by each roll with the modifier, none below nothing, or all on a long rest; death state and counters, temporary hit points, slots, every pool by the table of recharges and the share of hit dice, and the conditions left, gone and lowered |
| RestMeaning.FailureIs | packages/schema/src/rest.ts:458-504 | a failure names the first reason that holds, for this character |
| RestMeaning.RecoversIff | packages/schema/src/rest.ts:109-136 | which recharge each kind of rest brings back; an untagged pool comes back on a long rest |
| RestMeaning.OutcomeIs | packages/schema/src/rest.ts:409-419 | a condition is cleared exactly when the list of this kind of rest has it, and lowered exactly when it is the leveled one, not listed, on a long rest |
| RestMeaning.PartyInTurn | packages/schema/src/rest.ts:634-649 | each member in turn is planned with its own options and the dice after those of the plans before, or failed |
| RestFixedPoint.RestLowers | packages/schema/src/rest.ts:449-623 | a long rest keeps the sheet well formed and lowers the sum of spent hit dice and leveled stacks while it is positive |
| RestFixedPoint.SettledIsFixed | packages/schema/src/rest.ts:449-623 | a rested sheet with none of them left is not changed by a long rest |
| RestFixedPoint.RestsComeToRest | packages/schema/src/rest.ts:449-623 | after as many long rests as that sum, and at least one, every further long rest changes nothing |
| ActionSpec.FormatDamage | packages/schema/src/combatant-statblock.ts:166-183 | the loop builds the display text of a damage list |
| ActionSpec.CollectParts | packages/schema/src/combatant-statblock.ts:185-214 | the loop builds the parts that are rolled |
| ActionSpecText.LineOfDice | packages/schema/src/equipped-item-action.ts:577-582 | dice and a one-word type are read off a display line as they were written, white space around the sign included |
| ActionSpecText.DiceOfLine | packages/schema/src/equipped-item-action.ts:577-582 | whatever a display line matches is a die and a modifier as written |
| ActionSpecText.ReadOfDice | packages/schema/src/combatant-statblock.ts:185-214 | a die with a written count is split into its base and its modifier |
| ActionSpecText.DiceOfRead | packages/schema/src/combatant-statblock.ts:185-214 | whatever the statblock reader splits is a die with a count as written |
| ActionSpecText.NormalizedIs | packages/schema/src/equipped-item-action.ts:700-762 | normalizing writes the same dice with an explicit count and without white space |
| ActionSpecAgreement.FieldSpecAgrees | packages/schema/src/equipped-item-action.ts:621-675 | the spec made from readable fields agrees with them |
| ActionSpecAgreement.LeftSpecAgrees | packages/schema/src/equipped-item-action.ts:700-762 | whatever is edited, a spec left on the result passes the comparison with the fields, which `ActionSpecMeaning.AgreesIff` states on the fields themselves |
| ActionSpecMeaning.LeftSpecRollsFields | packages/schema/src/equipped-item-action.ts:700-762 | whatever is edited, only the spec changes, and one left on the result rolls the displayed bonus, and, with one part, the die, number and type of a readable line |
| ActionSpecMeaning.AgreesIff | packages/schema/src/equipped-item-action.ts:621-675 | the comparison is exactly: a stated bonus equals the displayed one; no part, no readable line; one part, the parts of the line, or an unreadable line that is not blank and no stated bonus |
| ActionSpecMeaning.SuppliedSpecStands | packages/schema/src/equipped-item-action.ts:700-712 | a spec that rolls what the fields display is left as it is |
| ActionSpecMeaning.OtherwiseRebuilt | packages/schema/src/equipped-item-action.ts:700-762 | otherwise the result is an attack for one hit with the displayed bonus and damage when the fields can be read, and has no spec when they cannot |
| ActionSpecMeaning.ReadableIff | packages/schema/src/equipped-item-action.ts:712-745 | readable are a bonus of at most 999 either way and a rollable line with a type of 1 to 24 characters that the vocabulary has |
| ActionSpecMeaning.BonusIs | packages/schema/src/equipped-item-action.ts:585-588 | a bonus is a whole number in digits, with or without sign |
| ActionSpecMeaning.BonusHas | packages/schema/src/equipped-item-action.ts:585-588 | nothing else is a bonus |
| ActionSpecMeaning.LinePart | packages/schema/src/equipped-item-action.ts:577-582 | the part of a line is its die with a count, its signed number and its type in lower case |
| ActionSpecMeaning.PartsOfList | packages/schema/src/combatant-statblock.ts:185-214 | entries with an expression give a part each, in order, and the others none |
| ActionSpecMeaning.PartIs | packages/schema/src/combatant-statblock.ts:185-214 | an entry of a die with a count splits into die and number; any other stays whole |
| ActionSpecMeaning.FormatOfList | packages/schema/src/combatant-statblock.ts:166-183 | the display text joins the entries that are not blank with ` + ` |
| ActionSpecMeaning.ExpandedIs | packages/schema/src/combatant-statblock.ts:317-400 | an expanded attack has the cut name and description, the signed bonus, the display text, and a spec of the same bonus and parts |
| ActionSpecMeaning.ExpandsIff | packages/schema/src/combatant-statblock.ts:317-400 | an attack is expanded exactly when its bonus, display text and parts are within the bounds of the schemas |
| ActionSpecAgreement.RebuildTwice | packages/schema/src/equipped-item-action.ts:700-762 | rebuilding twice is rebuilding once |
| ActionSpecFixedPoint.RebuiltHasSpecIff | packages/schema/src/equipped-item-action.ts:700-762 | the result has a spec exactly when the one given agreed, or the fields can be read and rebuilt |
| ActionSpecFixedPoint.FixedPointIff | packages/schema/src/combatant-statblock.ts:355-369 | an attack expanded from one rollable part with a one-word type rebuilds to itself exactly when its dice have a written count and white space around the sign only |
| ActionSpecFixedPoint.BareDieChanges | packages/schema/src/equipped-item-action.ts:700-762 | an attack of +3 for `d6` fire damage expands to an action that rebuilds to another one |
| DerivedAttack.DerivedIsFixedPoint | packages/schema/src/equipped-item-action.ts:488-510 | an attack derived from a weapon rolls its dice with an explicit count and both modifiers as one flat number, and rebuilds to itself |
| DerivedAttack.DerivedIs | packages/schema/src/equipped-item-action.ts:488-503 | the derived damage is the die, counted 1 when no count is written, and the sum of the weapon's number and the modifier, left out at 0 |
| DerivedAttack.DerivedHas | packages/schema/src/equipped-item-action.ts:488-493 | nothing is derived from any other text |

## Left out

Where the code and the comments differ, the code is modelled:

- The header of `semver.ts` lists the empty range as any version; the parser refuses it, and so does the model.
- The comment on the step budget says that it bounds the search for months; it can also end a series early (first table).
- The wall-clock comment promises gap and ambiguity for every zone; 0100-01-01T00:00 to 0100-01-02T23:58 is out (first table).

Contracts weaker than a promise one could read into the code:

- ClockResolution.FaithfulFromEarliest: for whole-minute offsets below a day with at most one change within a day of the wall clock; two changes so close together are not resolved by the code, and the zones with odd seconds before standard time are left to `ClockResolution.ResolvedOffset`.
- StepBudget.CountIsReached: for rules whose every budgeted month is before the year 10000, because a step past it fails as a wall clock; `SeriesLength.BudgetIff` covers every rule that expands.
- FogGeometry.EraseIsDifference: for stored rectangles that the schema accepts and a brush of no negative size; a rectangle with a negative corner is shifted by the clamp, not cut.
- FogViewer.MoveShifts: for a shift that leaves the corner on the board; `FogEdits.MovePlaces` covers every shift.
- Sidecar.QuiescentSidecarIsMemory: for runs whose read and writes succeed; `SidecarFailures.LastWriteWins` covers the others.
- Sidecar.QuiescentSidecarIsReplay: for edits before hydration that carry an image; a framing without one takes the image on disk, which `Sidecar.EachSlotSurvives` covers.
- DiceBounds.RollableIff: for white space around the sign only; `DiceBounds.RollableWithoutSpace` covers every text.
- RestFixedPoint.RestsComeToRest: a dead character's rest fails and counts as changing nothing.

Not modelled, or abstracted:

- Numbers beyond 2^53, `-0`, `NaN`, fractions of milliseconds; instants are milliseconds and not ISO text.
- ICU's zone data and formatter cache: a zone is any function from instants to offsets, and an unknown name is none.
- Lower-casing, folding and the letter and digit classes: parameters; where dice are lowered, a parameter that lowers ASCII letters alone in texts of digits, signs and `d`.
- UTF-16 surrogate pairs: a text is a sequence of characters, and offsets count these.
- JSON storage: a column is missing, unreadable or the value it encodes. `undefined`, `toJSON` and lone surrogates do not occur in the JSON model.
- Ids, clocks and randomness: parameters. The face of each die is an input of the roller and of the rest planner.
- Schema validation other than the bounds stated; defaults that parsing fills in.
- The absence of a writer for the sidecar, the flush on unload, subscriptions, and everything about the image element.
- Hit testing of fog regions, drag corners, and the reconciliation of a server's fog with a pending one.
- Exploding Open Legend dice, initiative, and the parser of a single simple expression.
- The lookup of weapon proficiency and abilities behind a derived attack, its text-only fallbacks, and its prose.
- The saving-throw branch, recharge and uses of an expanded statblock action, and its other keys.
- Custom party recoveries, the text of rest failures and logs, the default rest models of the rule systems.
- Difficulty and experience tables, adapters, templates, schedule windows, notifications, and all input and output.
