# uproject timeline layout, modelled in Dafny

`uproject.py` turns a project description (a YAML file with a start date,
a time unit, a number of units, rows of work, milestones, breaks, phases,
gaps and dependencies, and optional colour keys and options) into a PDF
timeline chart. This project models the part of it that decides what is
drawn and where:

- **Dates** (`dates.dfy`): the week and month helpers `monday`,
  `prev_week`, `next_week`, `n_weeks`, `first`, `prev_month`,
  `next_month` and `n_months` over a proleptic Gregorian `Date`, with
  `timedelta` arithmetic written out as `AddDays` on day numbers.
- **Segments** (`segments.dfy`): the dependency-line merge engine
  `inline`, `maybe_merge`, `maybe_merge_both` and `normalize_grid`. The
  engine is split into one pass (the two nested loops over the `status`
  list, `MergePass`) and the repetition until a pass merges nothing
  (`NormalizeGrid`).
- **Resolver** (`resolver.dfy`): `find_item`, `find_at`, `get_timing`,
  `get_key` and `get_option`. A timing expression is a date, a number, a
  reference to another row (`"+name"`, `"-name"`, `"name"`) or a
  reference shifted by a delta. Reference chains carry a `fuel` count.
  `None` stands for every way the resolver crashes: a name that matches
  no row, a referenced row without `at`, or a chain longer than the fuel.
  A cycle is such a chain.
- **Layout** (`layout.dfy`): the `Calendar` class with its fields
  (highlight flag, next row number, pending dependency segments) over a
  `Surface` class. `Surface` holds the page state that the drawing
  library keeps: size, margins, cursor, page count and a log of the
  commands drawn. Every `Calendar` drawing method states how the cursor,
  the page count, the stripe state and the dependency list change, and
  which commands it appends to the page log. A page break inside a row
  is part of that contract: the pending lines are flushed through the
  merge engine, a page is added and the time axis is drawn again.
- **Assembly** (`assembly.dfy`): the `draw` function.
  - It numbers the rows and opens the document.
  - It reads the calendar options and dispatches each row on its fields:
    stripe first, then gap, breaks, phases, work (a row with `length`)
    or milestone.
  - It draws each dependency of a work or milestone row, with a warning
    when the dependency ends after the row starts.
  - At the end it finishes the chart, then draws the legend and the
    footer.
  - The functions `MainCall`, `DepStep`, `RowPlan` and `ChartPlan`
    describe, for a whole project, the sequence of calendar operations
    and warnings that `draw` produces. The methods that do the drawing
    are proved to produce exactly that sequence.

Four behaviours of the code are worth knowing when reading the model:

- The merge of two segments on one line has two branches. When the
  second segment starts inside the first, the result keeps the first
  segment's start and the second segment's end. Otherwise, when the
  second ends inside the first, it keeps the second's start and the
  first's end (2..5 merged with 0..3 gives 0..5). So a second segment
  lying strictly inside the first takes the first branch and can shorten
  the merged line (`Segments.NestedMergeDropsCover`). With the order
  reversed (1..2 against 0..4) neither branch applies and the two are not
  merged.
- A dependency whose target row lies below the dependent row (a negative
  row distance) is recorded with its start below its end on the page
  (start.y > end.y, page y growing downwards). Two copies of such a line
  are not ordered segments, so the merge does not collapse them
  (`Layout.LaterRowDepNotMerged`); only dependencies on the same or an
  earlier row are proved to collapse (`Layout.RepeatedDepMerges`,
  `Layout.RepeatedDepFlushesToOne`).
- `get_timing` does not check that a reference names a row. The crash
  comes from indexing the missing row, and the model turns it into
  `None` like every other resolver failure.
- The legend adds a page first when its heading and key rows do not fit
  above the bottom margin. From twenty-eight keys on, this test fails
  even at the top of a page, so a page is always added. On that new page
  key row i starts at 30 + 6i millimetres, and a row breaks the page
  once it would start below 194. So twenty-eight keys fit on the added
  page. With more than twenty-eight keys the key rows break the page
  themselves and redraw the time axis part-way through the legend.

## Model

| member | source | states |
|---|---|---|
| Dates.DaysSinceMonday | uproject.py:53-57 | the number of days back to Monday is between 0 and 6, and going back that far lands on a Monday |
| Dates.OrdinalAddDays | uproject.py:58 | moving a date by n days moves its day number by exactly n, which is the `timedelta` arithmetic all the helpers use |
| Dates.AddDaysAdd | uproject.py:58-64 | two moves by a and b days are one move by a + b |
| Dates.Monday | uproject.py:52-58 | `monday(d)` moves d back by its weekday counted from Monday; `MondayStartsWeek`, `MondayOfMonday` and `MondayIdempotent` state that the result is a Monday at most six days before d, that a Monday is left in place and that applying it twice changes nothing |
| Dates.PrevWeek | uproject.py:60-61 | `prev_week(d)` is `monday` of seven days before `monday(d)`; `PrevWeekStep` states that it is exactly seven days before `monday(d)`, and `PrevOfNextWeek` that it undoes `next_week` |
| Dates.NextWeek | uproject.py:63-64 | `next_week(d)` is `monday` of seven days after `monday(d)`; `NextWeekStep` and `WeekStep` state that it is exactly seven days after `monday(d)` |
| Dates.NWeeks | uproject.py:66-67 | `n_weeks` is the signed day distance over 7; `NWeeksWhole` states that k whole weeks measure k, and `DurAntisymmetric`, `DurAdditive` and `DurOfNext` state its sign, additivity and one unit per week |
| Dates.MondayStartsWeek | uproject.py:52-58 | `monday(d)` is a Monday, no later than d and at most six days before it |
| Dates.MondayOfMonday | uproject.py:52-58 | a Monday is its own `monday` |
| Dates.MondayIdempotent | uproject.py:52-58 | normalising to the week twice is the same as once |
| Dates.ShiftedMonday | uproject.py:52-64 | whole weeks from a Monday land on a Monday, which `monday` leaves in place |
| Dates.NextWeekStep | uproject.py:63-64 | `next_week(d)` is exactly seven days after `monday(d)` |
| Dates.PrevWeekStep | uproject.py:60-61 | `prev_week(d)` is exactly seven days before `monday(d)` |
| Dates.BackOneWeek | uproject.py:60-64 | stepping back a week from the Monday seven days after Monday m gives m |
| Dates.PrevOfNextWeek | uproject.py:60-64 | `prev_week(next_week(d))` is `monday(d)` |
| Dates.NWeeksWhole | uproject.py:66-67 | `n_weeks` between d and d moved by k whole weeks is k |
| Dates.First | uproject.py:71-72 | `first(d)` is day 1 of d's month; `FirstOrdinal` and `FirstIdempotent` state that it lies day-of-month minus one days before d and is its own `first` |
| Dates.PrevMonth | uproject.py:74-75 | `prev_month(d)` is `first` of the day before `first(d)`; `PrevMonthIsPreceding` and `PrevOfNextMonth` state that it is day 1 of the calendar month before and undoes `next_month` |
| Dates.NextMonth | uproject.py:77-78 | `next_month(d)` is `first` of 32 days after `first(d)`; `NextMonthIsFollowing` states that this is day 1 of the calendar month after, across the year end |
| Dates.NMonths | uproject.py:80-82 | `n_months` is the whole months between the dates plus the day difference over 30.42; `DurAntisymmetric`, `DurAdditive` and `DurOfNext` state that it changes sign when the dates swap, adds up along a chain and measures exactly 1 from a month start to the next |
| Dates.FirstOrdinal | uproject.py:71-72 | `first(d)` is day-of-month minus one days before d |
| Dates.FirstIdempotent | uproject.py:71-72 | `first(first(d))` is `first(d)` |
| Dates.NextMonthIsFollowing | uproject.py:77-78 | `next_month(d)` is the first day of the calendar month after d's, December rolling over to January of the next year |
| Dates.PrevMonthIsPreceding | uproject.py:74-75 | `prev_month(d)` is the first day of the calendar month before d's, January rolling back to December |
| Dates.PrevOfNextMonth | uproject.py:74-78 | `prev_month(next_month(d))` is `first(d)` |
| Dates.NormalizeIdempotent | uproject.py:152-166 | the unit's `normalize` is idempotent for weeks and for months |
| Dates.NextIsNormalized | uproject.py:152-166 | the unit's `next` always returns a unit start |
| Dates.PrevOfNext | uproject.py:152-166 | the unit's `prev` undoes its `next`, up to normalisation |
| Dates.DurAntisymmetric | uproject.py:66-82 | the unit's `dur` from a to b is minus the `dur` from b to a |
| Dates.DurAdditive | uproject.py:66-82 | `dur` adds up along a chain of three dates |
| Dates.DurOfNext | uproject.py:66-82 | from a unit start to the next unit start is exactly one unit, in weeks and in months |
| Dates.WeekStep | uproject.py:63-64 | `next_week` of a date k weeks after Monday d is k + 1 weeks after d |
| Dates.NextUnitStart | uproject.py:231-262 | the axis loop's `unit = self.next(unit)` steps from the k-th unit start to the (k+1)-th |
| Dates.DurOfUnitStart | uproject.py:231-262 | the k-th unit start is a unit start and lies exactly k units after the first |
| Segments.Inline | uproject.py:86-87 | the named coordinate of all four end points is one value; `MaybeMergeBoth` states that a merge happens only for segments inline on one axis and stays on that line |
| Segments.MaybeMerge | uproject.py:89-98 | a merge's start and end are each an endpoint of one of the two inputs |
| Segments.MergeCondition | uproject.py:89-98 | on ordered segments, the merge succeeds exactly when their spans overlap or touch, unless the second strictly encloses the first |
| Segments.MaybeMergeBoth | uproject.py:100-106 | a merge happens only for two segments on one vertical or one horizontal line, and its result lies on that same line |
| Segments.MergeAddsNothing | uproject.py:89-106 | a merge of ordered segments is ordered and covers no point that neither input covered |
| Segments.StaggeredMergeIsUnion | uproject.py:94-95 | two overlapping segments on one vertical line, the second starting inside the first, merge to exactly their union |
| Segments.NestedMergeDropsCover | uproject.py:94-95 | a segment that lies inside another merges to a shorter line: a point of the outer segment is no longer covered |
| Segments.DuplicateMergesToItself | uproject.py:100-106 | an ordered horizontal or vertical segment (start no later than end) merged with itself gives itself, so duplicated ordered lines collapse |
| Segments.MergePass | uproject.py:108-127 | one pass never grows the list and empties no non-empty list, returns it unchanged exactly when no pair in it merges, and builds every output segment from input segments |
| Segments.PassAddsNothing | uproject.py:108-127 | on ordered input, a pass returns ordered segments covering no new point |
| Segments.NormalizeGrid | uproject.py:108-132 | the merged list is no longer than the input and empty only for an empty input; every merged segment starts at a start point and ends at an end point of the input; no pair is left that merges; a list with no such pair comes back unchanged, so a second run changes nothing; on ordered input no new point is covered |
| Segments.MergeKeepsEnds | uproject.py:89-106 | a merge of two segments starts where one of them starts and ends where one of them ends |
| Segments.PassEndsFrom | uproject.py:89-127 | a pass builds each segment from a start point and an end point of its input, because a merge keeps one input's start and one input's end |
| Segments.DuplicateFlushesToOne | uproject.py:100-132 | the engine run on one ordered horizontal or vertical segment listed twice returns exactly that segment once |
| Resolver.GetOption | uproject.py:573-582 | the option's value when the project has options and the name is present, the default otherwise |
| Resolver.Offset | uproject.py:516-519 | the offset is 1 when the `one_based` option is truthy and 0 otherwise; `DateOfUnitStart` states that a number resolves to itself less this offset |
| Resolver.NameMatches | uproject.py:505 | the pattern equals the start of the name up to ASCII case and ends at a word boundary of the name; `FirstMatch`, `FindItem` and `GetKey` state that the row or key found is the first for which it holds |
| Resolver.SplitSign | uproject.py:501-503 | a leading `+` or `-` is split off exactly when present, and the sign followed by the rest is the text |
| Resolver.FirstMatch | uproject.py:504-507 | the index found is the first whose name matches the pattern; `None` exactly when no name matches |
| Resolver.FindItem | uproject.py:497-507 | after one leading sign is dropped, the first row whose name matches the pattern case-insensitively up to a word boundary; `None` when none does |
| Resolver.GetKey | uproject.py:564-571 | the first key whose name matches; `None` when none matches or the project has no keys |
| Resolver.Anchor | uproject.py:531-537 | a reference anchors at its start (`-`) exactly when its text starts with `-`, and at its end (`+`) otherwise |
| Resolver.RefTarget | uproject.py:497-546 | a reference names the first row that its text matches once `find_at` and then `find_item` have each dropped one leading sign; `ResolvedReference`, `AnchoredReference` and `SecondSignIgnored` state where such a reference resolves |
| Resolver.FindAt | uproject.py:509-551 | a reference resolves only with fuel left and a row that its name matches |
| Resolver.GetTiming | uproject.py:553-562 | the length of a resolved row is its `length`, or 0 for a milestone |
| Resolver.FindAtFuelMonotone | uproject.py:509-551 | more fuel never changes a position that was found, so the fuel bound only cuts off chains and never alters a result |
| Resolver.RefFuelMonotone | uproject.py:530-546 | the same, for a reference to another row |
| Resolver.GetTimingFuelMonotone | uproject.py:553-562 | the same, for a row's timing |
| Resolver.SelfReferenceNeverResolves | uproject.py:530-562 | a row whose `at` names the row itself never resolves, whatever the fuel: the source recurses without end |
| Resolver.ResolvedReference | uproject.py:530-546 | a resolved reference is the row's position plus its length when anchored at `+`, its position when anchored at `-` |
| Resolver.AnchoredReference | uproject.py:530-546 | `+name` and `name` resolve to the end of the row and `-name` to its start |
| Resolver.SecondSignIgnored | uproject.py:497-546 | a second leading sign is dropped again by the row search, so `+-name` resolves like `+name` |
| Resolver.DateOfUnitStart | uproject.py:516-528 | the k-th unit start resolves to position k; a number resolves to itself less the one-based offset |
| Resolver.ShiftAddsDelta | uproject.py:548-551 | a shifted expression resolves exactly when its base does, to the base's position plus the delta |
| Resolver.ChainingScenario | uproject.py:530-562 | row B at `+A`, where A is at 2 with length 3, is at 5 as a milestone; `-A` is at 2 |
| Layout.YearShown | uproject.py:246-247 | the year is printed under the `show_year` option at the first tick and at a tick dated 1 to 6 January; `NoYearOnSeventhOfJanuary` states that a tick on 7 January shows none |
| Layout.LabelAt | uproject.py:231-262 | tick i carries the i-th unit start, the number i (i + 1 when one-based) and the year flag; `LabelsUpToAt`, `AxisLabelsResolveToTick` and `AxisDatesAreUnitStarts` state that the axis holds exactly these labels and that each resolves back to position i |
| Layout.LabelsUpTo | uproject.py:231-262 | there is one axis label per unit |
| Layout.LabelsUpToAt | uproject.py:231-262 | the i-th axis label is the i-th unit start with tick number i (i + 1 when one-based) and the year flag |
| Layout.AxisLabelsResolveToTick | uproject.py:231-262 | the date printed at tick i resolves to position i, and so does the number printed there |
| Layout.AxisDatesAreUnitStarts | uproject.py:231-262 | each tick's date is a unit start i units after the first, and the unit's `next` of it is the next tick's date |
| Layout.NoYearOnSeventhOfJanuary | uproject.py:246-247 | the week after 31 December 2018 starts on 7 January 2019, and no tick after the first shows the year there |
| Layout.ClampUp | uproject.py:455-456 | a dependency reaching above the page's first row is cut to half a row above it, and any other reach is kept |
| Layout.DepSegments | uproject.py:457-478 | the horizontal segment along the row's centre when the target is later, then the vertical one at the start; `DepSegmentsShape`, `DepStaysBelowPageTop`, `RepeatedDepMerges` and `LaterRowDepNotMerged` state their shape, their reach and how copies merge |
| Layout.DepSegmentsShape | uproject.py:457-478 | a dependency adds a horizontal segment exactly when it ends after it starts, and always a vertical one at its start that ends on the row's centre line |
| Layout.DepStaysBelowPageTop | uproject.py:455-478 | after clamping, a dependency's vertical line starts no higher than the top of the page's rows |
| Layout.RepeatedDepMerges | uproject.py:448-493 | for a dependency on the same or an earlier row (row distance up ≥ 0), the vertical line merges with a copy of itself into itself; `RepeatedDepFlushesToOne` states the flushed result |
| Layout.RepeatedDepFlushesToOne | uproject.py:448-493 | a dependency on the same or an earlier row whose target is not later adds only its vertical line; drawn twice on a page, the flush leaves exactly that one line |
| Layout.LaterRowDepNotMerged | uproject.py:455-493 | for a dependency on a later row (up < 0) the vertical line runs upwards from below the row's centre, and a copy of it does not merge with it |
| Layout.KeyTextGrey | uproject.py:345-348 | key text is drawn in grey 240 or grey 100 |
| Layout.KeyTextDarkOnLightFill | uproject.py:346-348 | key text is dark exactly when the block has a colour whose channel sum, divided by 3 with integer division, exceeds 200 |
| Layout.Surface.constructor | uproject.py:612-613 | a new document has its size and margins, the cursor at the top-left margin, no pages and nothing drawn |
| Layout.Surface.AddPage | uproject.py:195 | a new page puts the cursor at the top-left margin and adds one page |
| Layout.Surface.SetXY | uproject.py:264 | the cursor moves to the given point |
| Layout.Surface.SetY | uproject.py:322 | the cursor moves to the given height and back to the left margin |
| Layout.Surface.Cell | uproject.py:296-299 | a cell moves the cursor below it or to its right |
| Layout.Calendar.constructor | uproject.py:142-181 | the first date is normalised to the unit; the unit width shares the page width between the units; no stripe, no rows and no pending lines |
| Layout.Calendar.RowKeepsStack | uproject.py:183-199 | each drawn row sits one row height below the previous one on its page, counting from the page's first row after a break |
| Layout.Calendar.RowAdvances | uproject.py:183-199 | every drawn row only appends to the page log. With no break due it stays on the page and moves one row down. It keeps an empty list of pending lines empty. It keeps the rows stacked and the pending lines below the page's first row, starting afresh on a new page after a break |
| Layout.Calendar.NewRow | uproject.py:183-199 | returns the cursor, which is above the bottom margin. When the cursor was below it, the pending lines are flushed, the row count restarts and one page and an axis are added; otherwise nothing changes |
| Layout.Calendar.DrawTimeAxis | uproject.py:224-264 | after a possible page break, logs one axis with the calendar's labels at the row origin and moves the cursor below it; on a new page, or before any row and line, the page's rows then start there with no line pending |
| Layout.Calendar.TickLabels | uproject.py:231-262 | the loop builds exactly the calendar's axis labels, each dated at a unit start |
| Layout.Calendar.Finish | uproject.py:201-206 | the pending lines go through the merge engine and are drawn dashed, leaving none pending and nothing else changed |
| Layout.Calendar.NextHighlight | uproject.py:266-271 | the next row's stripe is set to the given value, nothing else changes |
| Layout.Calendar.DrawHighlight | uproject.py:273-288 | a striped row gets a shaded band at the cursor; the stripe alternates and the row count grows by one |
| Layout.Calendar.BeginRow | uproject.py:295-296 | `_new_row` then `_draw_highlight`: a possible page break, the stripe band, then the stripe flips and the row count grows |
| Layout.Calendar.DrawKey | uproject.py:290-310 | a key row: its label and a swatch in the key's colour, grey 150 without one, one row lower |
| Layout.Calendar.DrawGap | uproject.py:312-322 | a gap row: a bold label only when the label is not empty, and the cursor one row lower at the left margin |
| Layout.Calendar.DrawWork | uproject.py:324-358 | a work row: its label and a block from `at` for `length` units in its colour (grey 150 without one), and the key text only when it is narrower than the block |
| Layout.Calendar.DrawMilestone | uproject.py:430-446 | a milestone row: an italic label and a dot at `at` |
| Layout.Calendar.DrawMulti | uproject.py:376-428 | a breaks or phases row: its label and one interval per item, in order |
| Layout.Calendar.ItemCommands | uproject.py:385-426 | the loop draws one interval per item, in order |
| Layout.Calendar.DrawBreaks | uproject.py:360-366 | a multi row of kind breaks |
| Layout.Calendar.DrawPhases | uproject.py:368-374 | a multi row of kind phases |
| Layout.Calendar.DrawDep | uproject.py:448-478 | appends the dependency's segments, whose vertical one never starts above the page's rows once a row is drawn there, so every pending line stays below the page's first row; nothing else changes |
| Layout.Calendar.ReallyDrawDeps | uproject.py:480-493 | replaces the pending lines by their merged form and logs them, in order, as one dashed-lines command |
| Assembly.Numbered | uproject.py:607-610 | each row keeps its fields and gets its index as its number |
| Assembly.AssignOrdinals | uproject.py:607-610 | numbering the rows in place gives each its index and changes nothing else |
| Assembly.NumberRows | uproject.py:607-610 | the numbered project differs from the input only in the rows' numbers |
| Assembly.OpenDocument | uproject.py:612-618 | an A4 landscape document with one page; the title heading is drawn when the title option is absent or truthy, and the cursor is below it |
| Assembly.LabelWidth | uproject.py:620-627 | the label width is 50 without the option; a number is taken as it is and a flag as 1 or 0; any other value fails |
| Assembly.KeyRows | uproject.py:699-700 | the legend draws one key row per key, in order, with the key's name and colour |
| Assembly.Classify | uproject.py:637-671 | a row is a gap when `gap` is true, else breaks, else phases, else work when it has a length, else a milestone, tested in that order; `MainCallFollowsDispatch` states the operation drawn for each case |
| Assembly.WorkKey | uproject.py:659-668 | the colour and key text of a work row; `WorkKeyMatches` and `MissingKeyFails` state what it finds and when it fails |
| Assembly.MainCall | uproject.py:637-671 | the calendar operation a row is drawn with; `MainCallFollowsDispatch` and `RowCall` state which operation, with which caption, length and intervals |
| Assembly.SpanItemsResolved | uproject.py:641-654 | a breaks or phases row's intervals are its spans in order, each at its resolved position; the row fails exactly when a span does not resolve |
| Assembly.CollectSpans | uproject.py:641-654 | the loop collects exactly those intervals, or fails on the first span that does not resolve |
| Assembly.MainCallFollowsDispatch | uproject.py:637-671 | a gap row draws a gap; a breaks or phases row draws a multi row with one interval per span; a row with a length draws a work row of that length; any other row draws a milestone |
| Assembly.RowCall | uproject.py:637-671 | the dispatch resolves exactly the calendar operation for the row |
| Assembly.WorkKeyMatches | uproject.py:659-668 | a work row without a key has no colour and no key text; with a key that resolves, the colour is that of the first matching key, whose name is shown exactly under `key_in_block` |
| Assembly.MissingKeyFails | uproject.py:659-663 | a work row whose key matches no project key fails |
| Assembly.DepStep | uproject.py:673-685 | a dependency is drawn exactly when it is a reference that resolves and names a row |
| Assembly.DepStepWarnsWhenLate | uproject.py:678-685 | one line from the dependency's position to the row's, with a warning exactly when the dependency ends after the row starts |
| Assembly.DepLineSpansRows | uproject.py:607-610 | with the rows numbered, a dependency line goes up as many rows as lie between the named row and the current one |
| Assembly.DepPlan | uproject.py:673-685 | the dependencies of a row in order; `DepPlanLines` and `DepPlanFails` state one line per dependency and failure exactly when one dependency fails |
| Assembly.DepPlanLines | uproject.py:673-685 | the dependencies of a row draw one line each, in order, each to the row's position from where that dependency resolves |
| Assembly.DepPlanFails | uproject.py:673-685 | a row's dependency list fails exactly when one of its dependencies fails |
| Assembly.DrawDep | uproject.py:678-685 | one dependency produces exactly its planned line and warning, and keeps the row count and every pending line below the page's first row |
| Assembly.DrawDeps | uproject.py:673-685 | the loop produces exactly the planned lines and warnings of the row's dependencies, keeping the row count and the pending lines below the page's first row |
| Assembly.RowPlan | uproject.py:631-685 | one iteration of the row loop; `RowPlanShape` and `MissingKeyFails` state its stripe, operation and dependency lines and one way it fails, and `DrawRow` that the loop body produces it |
| Assembly.RowsPlan | uproject.py:630-686 | the row loop from a given row on; `RowsPlanFails` states that it fails exactly when a row fails, and `DrawRows` that the loop produces it |
| Assembly.RowPlanShape | uproject.py:631-685 | a row draws an optional stripe first, then its own operation, then one line per dependency, and dependencies only for work and milestone rows |
| Assembly.Perform | uproject.py:637-671 | each row operation is handed to the calendar once and only appends to the page log. With no page break due it moves the cursor one row down on the same page. It keeps an empty pending list empty, and keeps the rows stacked and the pending lines below the page's first row |
| Assembly.DrawRowHead | uproject.py:634-671 | the stripe request if the row has one, then exactly the row's own operation, or failure when it does not resolve; only appends to the page log and keeps the page's rows in place |
| Assembly.DrawRow | uproject.py:631-685 | one loop iteration produces exactly the row's planned operations and warnings, only appends to the page log and keeps the page's rows and pending lines in place |
| Assembly.RowsPlanFails | uproject.py:631-685 | the chart fails exactly when one of its rows fails |
| Assembly.DrawRows | uproject.py:631-685 | the row loop produces exactly the planned operations and warnings of all rows, in order, only appending to the page log and keeping the page's rows and pending lines in place |
| Assembly.DrawChart | uproject.py:628-687 | the time axis is logged first, after a page break if one was due. The rows produce their planned operations and warnings. When they all draw, no line is left pending and the merged lines are the last thing logged |
| Assembly.DrawKeyLegend | uproject.py:689-700 | the legend draws one key row per key, switching the stripe off first. When it fits, it stays on the page and ends 20 plus one row height per key lower. When it does not fit, it starts with a new page. When no break falls among the key rows, the log gains the "Key" heading and then the key rows, unshaded first and alternating |
| Assembly.DrawKeyHeading | uproject.py:690-696 | a new page exactly when the heading and the key rows would not fit above the bottom margin, then the "Key" heading; the cursor ends 20 below where it was, or 20 below the top margin of the new page |
| Assembly.DrawKeyRows | uproject.py:697-700 | with the stripe off, one key row per key in order; with no break among them, the cursor moves one row per key and the log gains exactly the legend's rows |
| Assembly.DrawLegendStep | uproject.py:699-700 | one turn of the legend loop keeps what the loop knows, for one more key |
| Assembly.DrawLegendRow | uproject.py:699-700 | one key row with the key's name and colour; with no break due, it logs the stripe if due, the caption and the swatch one row lower |
| Assembly.LegendStartsUnshaded | uproject.py:697-700 | the legend's first key row is drawn without shading: its caption and swatch are its first commands |
| Assembly.DrawEnd | uproject.py:689-711 | the legend's key rows are drawn only when the project has keys and asks for a legend; a truthy footer is the last thing drawn, 15 above the page's foot; the log only grows and no line becomes pending |
| Assembly.OpenCalendar | uproject.py:620-627 | the calendar is set up on the document from the project's unit, start and length, with the given label width and the truth of the `show_year` and `one_based` options (absent means false); the stripe is off, the row count is zero, no line is pending and nothing is drawn yet |
| Assembly.DrawOnCalendar | uproject.py:628-711 | the time axis is the first command logged, the rows and then the legend produce their planned operations, and no line is left pending when all rows draw |
| Assembly.ChartPlan | uproject.py:607-711 | the rows of the numbered project, then the legend's key rows; it fails when the length is 0, the label width is not a number or a flag, or a row fails; `Draw` states that `draw` produces exactly it |
| Assembly.Draw | uproject.py:586-711 | `draw` completes exactly when the chart plan does, and produces its operations and warnings. The calendar has the project's unit, normalised start and length, the label width the project sets (50 by default) and the truth of its `show_year` and `one_based` options. The document starts with a page, then the title `<name> timeline` when it is shown, then the time axis, and no line is left pending |

## Left out

- Drawing details of the PDF library (colours, fonts, line widths, rectangle and dash geometry, the tick lines of the axis): each drawn element is one logged command.
- `_get_label_size` and the font-size search it does: label sizes are not modelled.
- The dashed lines of `_really_draw_deps` are logged as one command holding the merged segment list, not one command per segment.
- Layout.RepeatedDepMerges: for a dependency with a horizontal part (its target later than its start), it is proved only that each of its segments merges with its copy, not that the flush of the two copies leaves exactly the two lines. The engine's contract alone does not pin the flushed list there; only the vertical-only case is proved exact (`Layout.RepeatedDepFlushesToOne`).
- Floating-point rounding: positions and widths are Dafny `real`s.
- Regular expressions: a name pattern is taken as literal text matched case-insensitively at the start of the name and up to a word boundary. General regex syntax in row names is not modelled.
- The YAML reading, the schema validation, the command line, `sys.exit` and `pdf.output`: the model starts from a parsed project and ends with the page log.
- `date.today()`: the calendar's default first date is not used, because `draw` always passes the project's start. The footer's default text (which contains today's date) and the project name are parameters.
- The text of the late-dependency warning that `draw` prints: the model returns the warnings as values.
- `strftime` formatting of the axis labels: a label holds the date, the tick number and whether the year is shown.
- Python's date range (years 1 to 9999): years are unbounded.
- Resolver.FindAt: a reference chain is followed at most `fuel` steps. A row whose `at` names the row itself, where the source recurses until Python's stack runs out, is `None` for every fuel (`Resolver.SelfReferenceNeverResolves`). Longer cycles are only cut off by the fuel; no lemma states that they fail for every fuel.
- Resolver.FindAt: its own contract states only when a reference can resolve. The values it resolves to are stated by the lemmas about it.
- Assembly.Draw: states the sequence of calendar operations and warnings, the first page's opening commands and the time axis, not every page command the rows draw; those are stated per operation by the `Layout.Calendar` methods.
- Assembly.Perform: states the call it logs, the cursor step without a page break and the placement of rows and lines, not the full page log; the `Layout.Calendar` method it calls states that.
- Assembly.DrawEnd: states the legend's key rows, the footer's place and that the log only grows; the legend's own commands are stated by `Assembly.DrawKeyLegend`.
- Assembly.DrawKeyLegend: the exact commands are stated only when no page break falls among the key rows. Otherwise it states the new page, the key rows' calls and that the log only grows.
- Units other than `week` and `month`: the unit is a two-valued type, as the schema requires. The source leaves the calendar's helpers unset for any other unit.
