# CalendarKit timeline layout rules in Dafny

This project models the small, sequential layout rules at the heart of the
CalendarKit day view, and proves properties about them:

- **Event ranges and overlap clustering** (`Event.swift`). An event has a closed
  range only when it does not end before it starts. `totalOverlapPeriods` does the following:
  - drops the events without a range;
  - sorts the rest by start;
  - lets each event join the first cluster whose longest member overlaps it, or open a new cluster;
  - reports the size of the largest cluster, or 1 when there is none.

  `groupWidth` reserves 110 points per column. `updateGroupWidthIfNeed` stretches
  a lane list proportionally so that it fills a target width.
- **The edit session** (`Event.swift`). `makeEditable` clones an event, and the clone
  points back at the original. `commitEditing` writes the clone's start and end
  back onto the original.
- **Style arithmetic** (`CalendarStyle.swift`):
  - the hour-ruler helpers of `DateStyle`: `count`, `real24Hour` and `inHourRange`;
  - the lane arithmetic of `TimelineStyle`: `totalGroupWidth`, `contentWidth`, `groupWidth(index:)` and `groupX(index:)`;
  - the safe collection subscript.
- **The header strip** (`GroupNameView.swift`):
  - the `ranges(of:)` substring search (greedy, leftmost, non-overlapping);
  - `split(separator: "\n")`;
  - the label-placement loop of `updateStyle`, with its running `currentX` offset.
- **The view reuse pool** (`ReusePool.swift`). It is a LIFO stack: `enqueue` resets frames and pushes,
  and `dequeue` pops, or makes a new view when the pool is empty.

Modules, one per file:

- `Wrappers`: `Option`.
- `CalendarStyle`: `DateStyle`, lanes, `TimelineStyle`.
- `Events`: the event record, its range, the edit session.
- `StartOrder`: the sort by start date.
- `EventLayout`: clustering, `groupWidth`, `updateGroupWidthIfNeed`.
- `OverlapScenarios`: the results on disjoint and on identical events.
- `StringRanges`: `ranges(of:)`.
- `GroupNameView`: line splitting and label layout.
- `ReusePool`: the pool.

How source types are represented:

- Dates are integer instants.
- The calendar's hour component is a function parameter `hourOf`.
- `CGFloat` widths are exact reals.
- Object identity is an id:
  - an event store maps ids to events, and the draft's weak back-reference is an optional id;
  - a view carries an id, and the pool is a value.

The sort is by start date only, with no tie-break by duration, exactly as in the code.

`updateGroupWidthIfNeed` divides the target by the current total whenever the total is below the target:

- With no lanes (the default `group` of `TimelineStyle`), the total is 0 and the factor is infinite, but the map runs over the empty list, so the code returns the empty list. The model does the same.
- With at least one lane and a zero total, the code produces non-finite widths. The model departs from the code here and gives `None` (see "## Left out").

`updateStyle` is modelled as written, including the subtitle bug under "## Findings". `LabelContent` builds the label the code builds, and `LabelContentCorrected` builds the label the code evidently intends.

## Model

| member | source | states |
|---|---|---|
| CalendarStyle.HourRows | Source/CalendarStyle.swift:16-32 | The ruler has 24 rows, or one per time string for a custom style. `real24Hour` shifts by the custom start hour. A row index is in 0..count-1 exactly when the hour is in the displayed window. |
| CalendarStyle.InHourRangeByRows | Source/CalendarStyle.swift:34-44 | Non-custom styles accept every event. A custom style accepts an event exactly when its start hour is at or after the start hour and its end hour at or before the end hour. Only hours are compared. |
| CalendarStyle.Count | Source/CalendarStyle.swift:16-23 | The ruler's row count: one row per time string for a custom style, 24 rows for every other style. `HourRows` states which hours those rows show. |
| CalendarStyle.Real24Hour | Source/CalendarStyle.swift:25-32 | The ruler row of a wall-clock hour: the hour minus the custom start hour for a custom style, the hour itself otherwise. `HourRows` states that rows 0..count-1 are exactly the displayed hours. |
| CalendarStyle.InHourRange | Source/CalendarStyle.swift:34-44 | Whether an event falls in the displayed window. Only the hour components of its start and end are compared with the custom bounds, and every event falls in a non-custom window. `InHourRangeByRows` relates this to the ruler rows. |
| CalendarStyle.DefaultTimelineStyle | Source/CalendarStyle.swift:99-115 | The values a new `TimelineStyle` starts with: system date style, 30 and 15 minutes, 100, 10 and 53 points, no gap, no lanes, 7 fixed-width lanes. `DefaultLanesKept` and `DefaultHeader` use it. |
| CalendarStyle.GroupCount | Source/CalendarStyle.swift:107-109 | The number of configured lanes. |
| CalendarStyle.SumWidths | Source/CalendarStyle.swift:112 | The lane widths added left to right starting from 0, as `reduce(0, +)` does here and at Event.swift line 90. `SumWidthsPrefixMonotone`, `SumWidthsNonNegative` and `SumWidthsScale` state its properties. |
| CalendarStyle.SafeGet | Source/CalendarStyle.swift:166-171 | The safe subscript yields an element exactly when the index is one of the collection's indices, and then it yields the element at that index. |
| CalendarStyle.GroupWidth | Source/CalendarStyle.swift:138-140 | A lane index in range gives that lane's width. Any other index, negative ones included, gives 0. |
| CalendarStyle.TotalGroupWidth | Source/CalendarStyle.swift:111-113 | The widths of all lanes added up left to right from 0. With non-negative widths, `GroupXMonotone` shows that every lane ends within it. |
| CalendarStyle.ContentWidth | Source/CalendarStyle.swift:134-136 | The leading inset plus the total lane width. `ContentWidthIsLastEdge` shows that this is where the last lane ends. |
| CalendarStyle.GroupX | Source/CalendarStyle.swift:142-144 | The widths of the first `index` lanes added up, or of all lanes once `index` passes the last lane. `GroupXPrefixSum` states the recurrence. |
| CalendarStyle.GroupXPrefixSum | Source/CalendarStyle.swift:142-144 | `groupX(0)` is 0. Each following lane starts where the previous one ends. Past the last lane, the offset is the total lane width. The leading inset is not included. |
| CalendarStyle.ContentWidthIsLastEdge | Source/CalendarStyle.swift:134-136 | The content width is the leading inset plus the right edge of the last lane. With no lanes, it is just the inset. |
| CalendarStyle.SumWidthsPrefixMonotone | Source/CalendarStyle.swift:111-113 | With non-negative widths, summing a longer prefix of the lanes never gives less. |
| CalendarStyle.GroupXMonotone | Source/CalendarStyle.swift:138-144 | With non-negative widths, lane offsets never decrease as the index grows, and every lane ends within the total width. |
| Events.Range | Source/Timeline/Event.swift:141-147 | An event has a range exactly when its end is not before its start. The range runs from the start to the end. |
| Events.OverlapsCharacterized | Source/Timeline/Event.swift:121 | Closed-range overlap holds exactly when both events are valid and each starts no later than the other ends. Touching endpoints count. Overlap is symmetric, and a valid event overlaps itself. |
| Events.Overlaps | Source/Timeline/Event.swift:121 | Both events have a range and the two closed ranges share an instant. `OverlapsCharacterized` gives it in terms of the dates. |
| Events.Duration | Source/Timeline/Event.swift:116-117 | How long an event lasts: its end minus its start, as `timeIntervalSince` gives. |
| Events.MakeEditable | Source/Timeline/Event.swift:35-52 | The draft has the original's start, end, all-day flag, text, group and user info. Its back-reference points at the original. |
| Events.EditTarget | Source/Timeline/Event.swift:55 | The weak back-reference resolves exactly when it is set and the event it names is still alive. |
| Events.CommitEditing | Source/Timeline/Event.swift:54-58 | Commit changes nothing when the back-reference is nil. Otherwise it copies only the start and end onto the original. Every other field and every other event stays as it was. |
| Events.CommitUnchangedDraft | Source/Timeline/Event.swift:35-58 | Committing an unmodified draft leaves the store unchanged. |
| Events.CommitMovedDraft | Source/Timeline/Event.swift:35-58 | Committing a draft moved to new dates sets exactly the original's dates to them. |
| StartOrder.InsertionPoint | Source/Timeline/Event.swift:105 | It is at most the length of the list. Every event before the point starts strictly earlier than the new event, and the event at the point, if any, does not. In a start-ordered list this is the position after all earlier-starting events. |
| StartOrder.Insert | Source/Timeline/Event.swift:105 | Insertion adds exactly one copy of the event and keeps a start-ordered list ordered. |
| StartOrder.InsertKeepsOrder | Source/Timeline/Event.swift:105 | Putting the event at its insertion point keeps the list ordered by start. |
| StartOrder.SortByStart | Source/Timeline/Event.swift:105 | The result is a permutation of the input, ordered by start date. |
| EventLayout.Valid | Source/Timeline/Event.swift:104 | The filter keeps every event with a range as often as it occurs, and drops every event without one. |
| EventLayout.ValidOfAllValid | Source/Timeline/Event.swift:104 | Filtering a list whose events all have ranges returns it unchanged. |
| EventLayout.ValidIsAllValid | Source/Timeline/Event.swift:104 | Every event that passes the filter has a range. |
| EventLayout.AllValidByBag | Source/Timeline/Event.swift:104-105 | Sorting a list of valid events leaves only valid events. |
| EventLayout.LongestIndex | Source/Timeline/Event.swift:115-119 | The representative of a cluster has the greatest duration in it. Every member before it is strictly shorter. |
| EventLayout.Longest | Source/Timeline/Event.swift:115-119 | The member a cluster is compared by: the one at `LongestIndex`, a member of greatest duration. |
| EventLayout.FirstMatch | Source/Timeline/Event.swift:113-126 | The chosen cluster is the first whose longest member overlaps the event. No earlier cluster overlaps. The result is past the end only when no cluster overlaps. |
| EventLayout.MembersSize | Source/Timeline/Event.swift:106-131 | The bag of clustered events has as many elements as the cluster sizes add up to. |
| EventLayout.MembersAppendTo | Source/Timeline/Event.swift:122 | Appending an event to one cluster adds exactly that event to the bag of clustered events. |
| EventLayout.ClusterWithinMembers | Source/Timeline/Event.swift:133 | No cluster is larger than the number of clustered events. |
| EventLayout.Place | Source/Timeline/Event.swift:113-130 | Placing an event keeps every cluster non-empty and adds exactly that event to the clustered events. |
| EventLayout.Step | Source/Timeline/Event.swift:108-131 | One iteration of the outer loop keeps every cluster non-empty. |
| EventLayout.Clusters | Source/Timeline/Event.swift:108-131 | The clusters partition the events with a range. Each such event is in exactly one cluster, every cluster is non-empty, and the sizes add up to the number of such events. |
| EventLayout.ClustersAppend | Source/Timeline/Event.swift:108-130 | A valid event processed after a prefix is placed into the clusters built from that prefix. |
| EventLayout.MaxSize | Source/Timeline/Event.swift:133 | The maximum is at least every cluster's size and is the size of some cluster. With no clusters, it is 0. |
| EventLayout.ClustersOfNothing | Source/Timeline/Event.swift:133 | With no valid event there is no cluster to measure. |
| EventLayout.MaxSizeWithinMembers | Source/Timeline/Event.swift:133 | The largest cluster holds at most all clustered events. |
| EventLayout.TotalOverlapPeriods | Source/Timeline/Event.swift:103-135 | The result is at least 1. It is exactly 1 with no valid event, and otherwise at most the number of valid events. |
| EventLayout.FindGroup | Source/Timeline/Event.swift:113-126 | The inner scan stops at the first cluster whose longest member overlaps the event. |
| EventLayout.ClustersExtend | Source/Timeline/Event.swift:108-109 | Processing one more sorted event is one step of the loop, which skips events without a range. |
| EventLayout.PlaceEvent | Source/Timeline/Event.swift:111-130 | The loop body appends the event to the cluster the scan found, or opens a new cluster. |
| EventLayout.GroupEvents | Source/Timeline/Event.swift:106-131 | The loop builds the clusters that partition the valid events, every cluster non-empty. |
| EventLayout.GroupWidth | Source/Timeline/Event.swift:78-84 | The width is at least 110. It is exactly 110 with no valid event, and otherwise at most 110 per valid event. |
| EventLayout.TotalOverlapPeriodsIgnoresInvalid | Source/Timeline/Event.swift:104 | Removing the invalid events first does not change the count. |
| EventLayout.Scale | Source/Timeline/Event.swift:94-96 | Scaling keeps the number, names and order of the lanes, and multiplies every width by the factor. |
| EventLayout.SumWidthsScale | Source/Timeline/Event.swift:90-96 | The scaled lanes add up to the original total times the factor. |
| EventLayout.StretchFactorAboveOne | Source/Timeline/Event.swift:92-93 | When the current total is positive and below the target, the scale factor exceeds 1. |
| EventLayout.ScaleUpNeverNarrows | Source/Timeline/Event.swift:94-96 | Scaling non-negative widths by a factor above 1 never narrows a lane. |
| EventLayout.SumWidthsNonNegative | Source/Timeline/Event.swift:90 | Non-negative widths have a non-negative total. |
| EventLayout.UpdateGroupWidthIfNeed | Source/Timeline/Event.swift:87-100 | Lane count and names are kept in order. A total at or above the target leaves the lanes unchanged. With no lanes the empty list comes back, whose total stays 0 even below the target. With lanes and a positive total below the target, every width is scaled by target/total and the new total equals the target. There is no result exactly when there are lanes, their total is 0 and the target is positive. |
| EventLayout.DefaultLanesKept | Source/Timeline/Event.swift:90-99 | The default style (its `group` starts empty) has no lanes, and for every target width the update returns the empty lane list. |
| EventLayout.UpdateGroupWidthNeverShrinks | Source/Timeline/Event.swift:87-100 | With non-negative widths no lane gets narrower, and neither does the total. |
| EventLayout.UpdateGroupWidthExample | Source/Timeline/Event.swift:87-100 | Two 110-point lanes stretched to 300 become two 150-point lanes. |
| OverlapScenarios.DisjointAsBag | Source/Timeline/Event.swift:104-105 | Pairwise non-overlap of a list is a property of its bag of events, so sorting keeps it. |
| OverlapScenarios.ClustersOfDisjoint | Source/Timeline/Event.swift:108-131 | Valid events that pairwise do not overlap each open their own cluster, in order. |
| OverlapScenarios.DisjointEventsGiveOne | Source/Timeline/Event.swift:103-135 | Pairwise non-overlapping events give a count of 1 and a width of 110. |
| OverlapScenarios.ClustersOfIdentical | Source/Timeline/Event.swift:108-131 | Valid events that share one interval form a single cluster. |
| OverlapScenarios.IdenticalEventsGiveCount | Source/Timeline/Event.swift:103-135 | N valid events with the same interval give a count of N and a width of 110 times N. |
| StringRanges.FindFromLeftmost | Source/Header/GroupNameView.swift:86-87 | The search from a position finds the leftmost occurrence at or after it, and finds none only when there is none. |
| StringRanges.FindFrom | Source/Header/GroupNameView.swift:86-87 | The search of `self[startIndex...]` for the pattern. A result lies at or after the start point, in the text, with room for the pattern. `FindFromLeftmost` shows that it is the leftmost occurrence. |
| StringRanges.Resume | Source/Header/GroupNameView.swift:90-91 | Where the scan continues: at the end of a non-empty match, one character past an empty match, and never past the end of the text. `MatchesFromStep` states what this guarantees. |
| StringRanges.MatchesFrom | Source/Header/GroupNameView.swift:82-94 | The ranges `ranges(of:)` collects from a start point: the leftmost match, then again from the resume point, until none is left. `MatchesOrdered`, `MatchesResumeLeftmost`, `MatchesExhaustive` and `MatchesSpellPattern` characterise it, and `Ranges` computes it. |
| StringRanges.MatchesWithin | Source/Header/GroupNameView.swift:85-89 | Every reported range starts in the text, at or after the start point, and has the pattern's length. |
| StringRanges.MatchesFromStep | Source/Header/GroupNameView.swift:85-91 | Each round reports the leftmost match. The resume point lies past the match's start, at or past its end, and within the text, even for an empty match. |
| StringRanges.MatchesOrdered | Source/Header/GroupNameView.swift:89-91 | Reported ranges are strictly increasing and do not overlap. |
| StringRanges.MatchesFirst | Source/Header/GroupNameView.swift:83-88 | The result is empty exactly when the pattern does not occur. Otherwise it starts with the leftmost occurrence. |
| StringRanges.MatchesResumeLeftmost | Source/Header/GroupNameView.swift:85-91 | No occurrence starts between a resume point and the next reported range. |
| StringRanges.MatchesExhaustive | Source/Header/GroupNameView.swift:85-91 | No occurrence starts after the last resume point. |
| StringRanges.NonOverlappingExample | Source/Header/GroupNameView.swift:89-91 | "aa" in "aaaa" is reported at 0..<2 and 2..<4 only. |
| StringRanges.MatchesSpellPattern | Source/Header/GroupNameView.swift:85-89 | Every reported range lies in the text and spells the pattern. |
| StringRanges.Ranges | Source/Header/GroupNameView.swift:82-94 | The loop collects exactly the greedy leftmost non-overlapping matches, resuming after each one. |
| GroupNameView.LinesFrom | Source/Header/GroupNameView.swift:48 | Every line is a non-empty span inside the text. |
| GroupNameView.Split | Source/Header/GroupNameView.swift:48 | Each piece is the text of the corresponding line span. |
| GroupNameView.LinesAreRuns | Source/Header/GroupNameView.swift:48 | Every piece is a maximal newline-free run bounded by newlines or the ends of the text. |
| GroupNameView.LinesOrdered | Source/Header/GroupNameView.swift:48 | Pieces come left to right with at least one newline between two of them. |
| GroupNameView.LinesCover | Source/Header/GroupNameView.swift:48 | Every non-newline character lies in some piece. |
| GroupNameView.SubtitleSpanAsWritten | Source/Header/GroupNameView.swift:48-52 | As written, a span is styled exactly when the name has two non-empty lines. The span spells the second line, and no occurrence of that text starts before it, so it is the first occurrence in the whole name. |
| GroupNameView.SubtitleSpan | Source/Header/GroupNameView.swift:48-55 | Corrected: the span to style is the last range reported for the second line's text. `SubtitleSpanIsSecondLine` shows that this is the second line itself. |
| GroupNameView.SecondLineFound | Source/Header/GroupNameView.swift:49-52 | For a two-line name the search always reports at least one range, so the plain-text fallback at line 57 is never reached. |
| GroupNameView.AsWrittenStylesFirstLine | Source/Header/GroupNameView.swift:48-55 | For "ab\nb" the pieces are "ab" and "b", the second line is at 3..<4, and the code styles 1..<2 inside the first line. The label built is attributed with 1..<2. |
| GroupNameView.SearchReaches | Source/Header/GroupNameView.swift:85-91 | An occurrence that no earlier occurrence overlaps is always reported. |
| GroupNameView.SubtitleSpanIsSecondLine | Source/Header/GroupNameView.swift:49-55 | Corrected: a span is styled exactly when the name has two non-empty lines, and it is the second line itself. |
| GroupNameView.LabelContent | Source/Header/GroupNameView.swift:47-61 | The label shows the whole name. It is attributed exactly for a two-line name, and then its smaller span is the as-written subtitle span. |
| GroupNameView.LabelContentCorrected | Source/Header/GroupNameView.swift:47-61 | Corrected: the whole name, with the corrected span in the smaller font when there is one. `LabelContentStylesSecondLine` and `AsWrittenAgreesUnlessRepeated` state its properties. |
| GroupNameView.LabelContentStylesSecondLine | Source/Header/GroupNameView.swift:49-55 | Corrected: the label shows the whole name, is attributed exactly for a two-line name, and sets the second line itself in the smaller font. |
| GroupNameView.CorrectedStylesSecondLine | Source/Header/GroupNameView.swift:49-55 | Corrected, "ab\nb" gets 3..<4, its second line, in the smaller font. |
| GroupNameView.AsWrittenAgreesUnlessRepeated | Source/Header/GroupNameView.swift:49-55 | For a two-line name, the code as written and the correction build the same label exactly when the second line's text does not occur before the second line. |
| GroupNameView.LabelsTile | Source/Header/GroupNameView.swift:39-41 | Each label starts where the previous one ends, and the last ends at the content width. |
| GroupNameView.LabelFrame | Source/Header/GroupNameView.swift:41 | Label i's frame: at the leading inset plus `groupX(i)`, as wide as lane i, 30 points high. `LabelsTile` shows that the frames tile the strip. |
| GroupNameView.PlaceLabel | Source/Header/GroupNameView.swift:41-63 | One pass of the loop places the label at the leading inset plus the lane offset, with the lane's width and the label text the code builds. It advances the running offset to the next lane's offset. |
| GroupNameView.Push | Source/Header/GroupNameView.swift:62 | Adding a label keeps the labels already placed and puts the new one last. |
| GroupNameView.UpdateStyle | Source/Header/GroupNameView.swift:32-66 | The spacer covers the leading inset. There is one label per lane. Label i sits at the leading inset plus `groupX(i)`, has width `groupWidth(i)`, and carries the as-written label text of lane i. The running offset equals `groupX` at every step. |
| GroupNameView.DefaultHeader | Source/Header/GroupNameView.swift:36-40 | With the default style, which has no lanes, the header is just the spacer over the 53-point leading inset, with no labels. |
| ReusePool.NewPool | Source/Timeline/ReusePool.swift:9-11 | A new pool stores nothing. |
| ReusePool.Reset | Source/Timeline/ReusePool.swift:14 | A reset view keeps its identity and has a zero frame. |
| ReusePool.ResetAll | Source/Timeline/ReusePool.swift:14 | Every view in the list is reset, and the list keeps its length and order. |
| ReusePool.Enqueue | Source/Timeline/ReusePool.swift:13-16 | Enqueueing keeps the stored views and appends the given views in order, each with a zero frame. The size grows by their number. |
| ReusePool.Dequeue | Source/Timeline/ReusePool.swift:18-21 | From a non-empty pool, dequeue returns the last stored view and removes only it. From an empty pool, it returns a new zero-frame view and leaves the pool empty. |
| ReusePool.EnqueueKeepsReset | Source/Timeline/ReusePool.swift:13-16 | Enqueueing keeps every stored frame zero. |
| ReusePool.DequeueGivesReset | Source/Timeline/ReusePool.swift:18-21 | A pool of reset views hands out only reset views, and what remains stays reset. |
| ReusePool.EnqueueDequeueRoundTrip | Source/Timeline/ReusePool.swift:13-20 | Enqueueing one view and then dequeueing returns that view with its frame reset, and restores the storage. |
| ReusePool.DrainReversesEnqueue | Source/Timeline/ReusePool.swift:13-20 | Last in, first out: dequeueing as many views as were enqueued returns them in reverse order and restores the storage. |

## Left out

- UIKit views, fonts, colours, `numberOfLines`, font scaling, `setNeedsDisplay` and drawing are left out. Labels are modelled as a frame plus text with an optional smaller-font span.
- The colour helpers of `Event` (`updateColors` and the two `apply…Colors`) are left out because they are floating-point HSB conversion on `UIColor`.
- Widths are exact reals, not `CGFloat` floating point. Rounding is not modelled.
- Events.MakeEditable: copies only the modelled fields. `attributedText`, `lineBreakMode`, the colours and the border are not part of the event record, because they play no part in layout.
- Dates are integers, and `Calendar.component(.hour, from:)` is the parameter `hourOf`. The unused `Date()` in `inHourRange` has no effect and is dropped.
- StartOrder.SortByStart: fixes one deterministic order (stable, so equal starts keep their input order). Swift's `sorted` does not promise stability.
- EventLayout.LongestIndex: the cluster representative is the first member of greatest duration, which is what a stable sort would give. The source's choice among equally long members is unspecified.
- EventLayout.UpdateGroupWidthIfNeed: with at least one lane, a zero total and a positive target, the source divides by zero and produces non-finite widths (infinite, or NaN for zero widths). The model returns `None` for that case instead of a value, because exact reals have no infinity. With no lanes nothing is divided, and the model returns the empty list as the source does.
- CalendarStyle.GroupX: requires a non-negative index, because `prefix` traps on a negative one.
- StringRanges.FindFrom: matching is literal and character by character, with the default options. Unicode canonical equivalence and `CompareOptions` are left out. An empty pattern matches at every position here; Foundation reports no range for an empty needle.
- GroupNameView.Split: strings here are sequences of Unicode scalars, not Swift `Character`s (grapheme clusters). So "\r\n" and other multi-scalar graphemes split differently: for "a\r\nb" the code sees one piece and the model two. Span offsets are scalar offsets, not the UTF-16 offsets `NSRange` uses.
- ReusePool.Enqueue: views are values here, and the pool stores reset copies of them. In the source `EventView` is a class, so line 14 resets the frames of the caller's own view objects in place, and the storage keeps references to those same objects. The model does not show the caller's views being reset. It also does not show a frame the caller assigns later, through a reference it still holds, appearing in the storage or in what `dequeue` returns. `AllReset` and `DequeueGivesReset` hold only under the assumption that nobody outside the pool changes a stored view.
- The `ReusePool.shared` singleton and view allocation are left out. The pool is a value, and a new view from `dequeue` gets a caller-supplied id and a zero frame.
- `fixWidthGroupCount`, `verticalDiff` and the other style fields are carried in `TimelineStyle` but play no part in the modelled operations.

## Findings

| source | as written | input that shows it | evidently intended | confidence | as-written member | corrected member |
|---|---|---|---|---|---|---|
| Source/Header/GroupNameView.swift:51-52 | the smaller font goes on the first range of `ranges(of: texts.last!)` in the whole name | name "ab\nb": the second line "b" also occurs inside "ab", so 1..<2 is styled | style the second line itself, 3..<4 (the last occurrence) | medium, not executed | GroupNameView.AsWrittenStylesFirstLine | GroupNameView.LabelContentStylesSecondLine |
