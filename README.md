# Record ordering and analytics of the interaction-recording editor

This project models the core of a small React editor. The editor loads a
recorded session of UI interaction events. The user can then reorder or
delete single records and ask for statistics. All of the logic is in
`src/App.js`, and the model has three parts.

- **Record store** (`store.dfy`, `actions.dfy`, `stable_sort.dfy`). Loading wraps
  each capture as `{order: i, data}`. "up" and "down" find a record by its rank
  (`order`), change its rank and its array neighbour's rank, and then re-sort
  stably by rank. "delete" splices out the record at the index `findIndex`
  returns.
  - `Actions` models `handleAction` and `setNewRecords` exactly as written: the
    +1/-1 update, the unchecked neighbour reads, and `splice(-1, 1)`.
  - `Store` is the corrected store, the class `RecordStore` together with its
    specification functions.
  - **Policy.** A move swaps rank values with the record next to it in the
    array and then re-sorts. A record at the array boundary, or a rank no
    record holds, gives a no-op. Delete leaves gaps in the ranks (it does not
    renumber), and deleting an absent rank is a no-op.
  - `Actions.AgreesWhileDense` proves that this policy and the source give the
    same result for every edit the list offers while ranks are dense. Ranks
    are dense after a load and stay dense under moves.
- **Analytics** (`event_totals.dfy`, `analytics.dfy`): the event-type
  histogram, the browser/DOM split, delay min/max/mean, the longest input
  value and the total elapsed time. The imperative functions are methods whose
  loops are proved against functional specifications. Each seedless `reduce`
  is modelled twice: once as written, and once as the intended result.
- **Duration formatting** (`duration.dfy`): `moment.utc(ms).format('hh:mm:ss' |
  'mm:ss')`, written out as floor-mod arithmetic on integer milliseconds with
  zero-padded fields. `hh` is moment's 12-hour token.

`scenarios.dfy` works through a three-event session (click, input "hello",
click at +1 s and +3 s) and the inputs that expose the findings below.

Points where the code is easy to misread:

- getTotalTime's reducer reads as if it summed consecutive gaps to
  `last − first`. It is a `reduce` without a seed, and it does not give that
  total (see Findings). The intended total is `Analytics.TotalTime`.
- Under the swap policy the moved record ends up holding its neighbour's old
  rank. Undoing a move therefore names that rank, and
  `Store.UpThenDownRestores` is stated that way.
- The comments on the two guards read "If switching up and the previous one
  is not the fist" (src/App.js:132) and "Else if switching down and the
  following one is not the last" (src/App.js:136). The model reads them as
  "the record is not the first (last)", which is the array-position guard of
  `Store`. The code instead compares the previous rank with 0 and the next
  record's rank with the list length. The latter refuses legal moves once
  deletes have left ranks above the length (see Findings).
- `setup.value.length` counts UTF-16 code units, so the model measures
  values with `Types.Utf16Length`. A character outside the Basic
  Multilingual Plane counts 2.

## Model

| member | source | states |
|---|---|---|
| Store.Wrap | src/App.js:77-82 | load gives as many records as captures, the i-th holding rank i and the i-th capture; ranks are dense and strictly increasing |
| Store.LoadRoundTrip | src/App.js:77-82 | reading the loaded records back in rank order gives the captures in their original order |
| Store.RecordStore.Load | src/App.js:77-82 | the store afterwards holds exactly the wrapped captures and satisfies its invariant |
| Store.IndexOf | src/App.js:152-154 | result is the first position holding the rank, or -1 exactly when no record holds it |
| StableSort.Insert | src/App.js:99 | one insertion step of the stable sort: one record longer, headed by the new record or by the old head |
| StableSort.InsertKeepsSorted | src/App.js:99 | inserting a record into a rank-ordered list keeps it rank-ordered |
| StableSort.InsertPermutes | src/App.js:99 | inserting adds exactly that one record to the list's multiset |
| StableSort.SortByOrder | src/App.js:99 | the re-sort returns a list of the same length, ordered by rank |
| StableSort.InsertStable | src/App.js:99 | insertion places the new record before every record of its rank already in the list; it passes only records of lower rank |
| StableSort.SortStable | src/App.js:99 | the re-sort is stable: for every rank, the records holding it keep their input order |
| StableSort.SortStableAll | src/App.js:99 | stability holds for all ranks at once |
| StableSort.SortPermutes | src/App.js:99 | the re-sort is a permutation of its input |
| StableSort.SortOfSorted | src/App.js:99 | re-sorting a list already ordered by rank changes nothing |
| StableSort.SortFixesInversion | src/App.js:99 | one adjacent inversion in an otherwise ordered list is undone by the re-sort, and nothing else moves |
| Store.SwapPayloads | src/App.js:133-140 | exchanging two neighbours' payloads keeps every rank in place, moves each of the two payloads to the other position, and touches nothing else |
| Store.SwapPermutes | src/App.js:133-140 | exchanging two neighbours' payloads keeps the multiset of payloads |
| Store.Exchange | src/App.js:95-100 | the exchange of two neighbouring ranks that the store's up and down perform: same length, every payload in place |
| Store.ExchangeThenSort | src/App.js:95-100 | on a strictly ordered list, exchanging two neighbouring ranks and re-sorting is exactly the payload exchange |
| Store.MoveUpResult | src/App.js:95-100 | a move up keeps length and the ranks in their places; for the first record or an absent rank it changes nothing |
| Store.MoveDownResult | src/App.js:95-100 | a move down keeps length and the ranks in their places; for the last record or an absent rank it changes nothing |
| Store.MovesPermute | src/App.js:95-100 | neither move loses or duplicates a payload |
| Store.DeleteResult | src/App.js:102-108 | a delete of a held rank removes one record; an absent rank changes nothing |
| Store.MovesKeepInvariant | src/App.js:125-141 | moves keep ranks strictly increasing, and keep them dense when they were dense |
| Store.MoveUpSwaps | src/App.js:133-135 | moving up the record at position i > 0 puts its payload at i-1 and the previous payload at i, with the ranks in place and every other record unchanged |
| Store.MoveDownSwaps | src/App.js:137-140 | moving down the record at position i < last puts its payload at i+1 and the next payload at i, with the ranks in place and every other record unchanged |
| Store.UpThenDownRestores | src/App.js:125-141 | up followed by down on the rank the moved record now holds restores the original list |
| Store.DownThenUpRestores | src/App.js:125-141 | down followed by up on the rank the moved record now holds restores the original list |
| Store.DeleteRemovesExactlyOne | src/App.js:102-108 | deleting a held rank: length drops by one, exactly that record leaves the multiset, the others keep their relative order and ranks, the rank is gone, the invariant holds |
| Store.DeleteLeavesGap | src/App.js:102-108 | after a load, deleting any record but the last leaves ranks that are no longer dense (no renumbering) |
| Store.RecordStore.MoveUp | src/App.js:95-100 | exchanging ranks with the previous record and re-sorting yields exactly the move-up result, and keeps the invariant |
| Store.RecordStore.MoveDown | src/App.js:95-100 | exchanging ranks with the next record and re-sorting yields exactly the move-down result, and keeps the invariant |
| Store.RecordStore.Delete | src/App.js:102-108 | the guarded splice yields exactly the delete result and keeps the invariant |
| Actions.SetNewRecords | src/App.js:125-145 | the source's rank update throws exactly for up on the first or down on the last record; otherwise only ranks change, payloads stay in place; an absent rank changes nothing |
| Actions.SpliceOne | src/App.js:107 | `splice(start, 1)` removes one element; a start of -1 removes the last one, and nothing is removed from an empty list |
| Actions.HandleAction | src/App.js:90-117 | up/down throw exactly when the rank update throws, and otherwise give a rank-ordered permutation of the updated list in which records of equal rank keep their order; delete drops one record from a non-empty list; an unknown action empties the list |
| Actions.MoveIsResort | src/App.js:90-100 | a move the rank update accepts ends in the stable re-sort of the updated list |
| Actions.AdjacentBumpIsSwap | src/App.js:133-140 | +1/-1 on neighbouring ranks that differ by exactly 1, then the re-sort, is the payload swap |
| Actions.UpAgreesWhileDense | src/App.js:133-135 | with dense ranks, the source's up on any record but the first equals the store's move up |
| Actions.DownAgreesWhileDense | src/App.js:137-140 | with dense ranks, the source's down on any record but the last equals the store's move down |
| Actions.Offered | src/components/RecordView.js:30-36 | the edits the list offers on row i: up from the second row, down up to the last-but-one, delete on every row |
| Actions.AgreesWhileDense | src/components/RecordView.js:30-36 | with dense ranks, every edit the list offers (up from the second row, down up to the last-but-one, delete always) gives the same result in the source as in the store |
| Actions.AbsentRankMoveIsResortOnly | src/App.js:126-129 | a move naming a rank no record holds only re-sorts, which is the identity on an ordered list; the store changes nothing |
| Actions.BoundaryMovesThrow | src/App.js:133-138 | up on the first record and down on the last throw a TypeError in the source, and are no-ops in the store |
| Actions.DeletePresentAgrees | src/App.js:102-108 | for a held rank the source's delete equals the store's on any list |
| Actions.DeleteAbsentDropsLast | src/App.js:105-107 | for an absent rank the source removes the last record, while the store removes nothing |
| Actions.UpAcrossGapDoesNotMove | src/App.js:133-135 | when the previous rank is at least 2 lower, the source's up changes both ranks but leaves every payload in place |
| Actions.DownAcrossGapDoesNotMove | src/App.js:137-140 | when the next rank is at least 2 higher, the source's down changes both ranks but leaves every payload in place |
| Actions.DownGuardRefuses | src/App.js:137-138 | when the next record's rank exceeds the length, the source's down leaves the list unchanged |
| Actions.GapAfterDelete | src/App.js:102-108 | loading three captures and deleting rank 1 leaves ranks 0 and 2 |
| Actions.GapExample | src/App.js:133-135 | on ranks 0 and 2, the source's up gives both records rank 1 and moves nothing |
| Actions.GapExampleStore | src/App.js:95-100 | on ranks 0 and 2, the store's up exchanges the two payloads |
| Actions.DeleteHead | src/App.js:102-108 | deleting the rank of the first record drops exactly that record |
| Actions.HighRanksAfterDeletes | src/App.js:102-108 | loading four captures and deleting ranks 0 then 1 leaves ranks 2 and 3 in a list of length 2 |
| Actions.DownRefusedExample | src/App.js:137-138 | on ranks 2 and 3, the source refuses the offered down on the first record; the store swaps them |
| EventTotals.Count | src/App.js:234-235 | the number of matching types is at most the list length; it is 0 exactly when the type is absent, and the full length exactly when every entry has it |
| EventTotals.FirstIndex | src/App.js:225-226 | the first position at which a present type occurs |
| EventTotals.FirstSeen | src/App.js:223-232 | the `some`/`push` pass: no longer than the types, and listing only types that occur |
| EventTotals.FirstSeenIsDistinctAndComplete | src/App.js:223-232 | the first-seen list has no repeats, and a type is listed exactly when some record has it |
| EventTotals.FirstSeenInOrder | src/App.js:223-232 | listed types appear in the order of their first occurrence among the records |
| EventTotals.CountDistinct | src/App.js:225-231 | in a list without repeats each member is counted once |
| EventTotals.SumCountsIsLength | src/App.js:233-236 | counting every entry under distinct covering keys sums to the number of entries |
| EventTotals.TotalEvents | src/App.js:215-239 | the types are the distinct record types in first-seen order, each total is the number of records of that type, and the totals sum to the record count |
| Analytics.DomCount | src/App.js:256-263 | the DOM count is at most the record count; it is 0 exactly when no record is a DOM event, and the full count exactly when all are |
| Analytics.DomCountIsCardinality | src/App.js:258-262 | the DOM count is the number of positions whose node name is present and non-empty |
| Analytics.TotalEventsByContext | src/App.js:247-269 | dom counts exactly the records with a present, non-empty node name, and browser + dom equals the record count |
| Analytics.Delay | src/App.js:276-288 | the delay after record k is `getTimeDifference` of the next record's time and its own: its time plus the delay is the next record's time |
| Analytics.TotalTime | src/App.js:331-339 | intended total: 0 for fewer than two records, otherwise first time + total = last time |
| Analytics.TotalTimeIsSumOfDelays | src/App.js:331-339 | the total time equals the sum of the consecutive delays |
| Analytics.SumDelaysBounds | src/App.js:284-295 | bounds on every delay, times the number of delays, bound their sum |
| Analytics.MeanBetweenScaledBounds | src/App.js:282 | the total divided by n lies between (n-1)/n times the smallest delay and (n-1)/n times the largest |
| Analytics.TimeDelays | src/App.js:275-302 | none for fewer than two records; otherwise min ≤ every consecutive delay ≤ max with both bounds attained, and mean × record count = total time |
| Analytics.DelaysShown | src/App.js:297-301 | each delay in range is shown as five characters `mm:ss`, with the mean truncated toward zero |
| Types.Utf16Length | src/App.js:323-325 | `length` of a string lies between its number of characters and twice that |
| Types.Utf16LengthAppend | src/App.js:323-325 | the code-unit length of a concatenation is the sum of the parts' lengths |
| Types.Utf16LengthIsCharCount | src/App.js:323-325 | the code-unit length equals the character count exactly when no character lies outside the Basic Multilingual Plane |
| Analytics.LongestInput | src/App.js:315-327 | intended result: at least the UTF-16 value length of every input record, equal to one of them when one exists, 0 when none does |
| Analytics.Inputs | src/App.js:321 | the filter keeps exactly the input records |
| Analytics.InputsAppend | src/App.js:321 | filtering a concatenation filters each part and keeps their order |
| Analytics.InputsOfOne | src/App.js:321 | on one record the filter keeps it exactly when it is an input record |
| Analytics.FirstInputIsFirst | src/App.js:321-322 | the first filtered record, which the seedless reduce takes as its seed, is the first input record in array order |
| Analytics.LongestOfInputs | src/App.js:321-326 | filtering the input records first does not change the longest input |
| Analytics.LongestStep | src/App.js:322-325 | the reducer step gives a number at least the value's length; from a number it keeps the larger of the two; from a record object (compared as NaN) it gives the length |
| Analytics.LongestFold | src/App.js:322-325 | the reducer over the remaining records: the seed when none remain, a number otherwise |
| Analytics.LongestAsWritten | src/App.js:321-326 | the source throws when there is no input record and returns the record object itself when there is one |
| Analytics.LongestFoldIsMax | src/App.js:322-326 | once the accumulator is a number, the reducer computes the maximum |
| Analytics.LongestAsWrittenSkipsFirst | src/App.js:322-326 | with two or more input records, the source returns the longest of all but the first |
| Analytics.LongestAsWrittenAgreesIff | src/App.js:322-326 | the source is right exactly when the first input is not strictly longer than every later one |
| Analytics.MomentOf | src/App.js:337-338 | assumption: `moment()` of a record object or a Duration reads no date fields and gives the start of the current local day (the parameter `startOfToday`) |
| Analytics.TimeFold | src/App.js:336-338 | getTotalTime's seedless reduce over the remaining records: the seed when none remain, a Duration otherwise |
| Analytics.TotalTimeAsWritten | src/App.js:336-338 | the source's total throws for fewer than two records |
| Analytics.TimeFoldFromToday | src/App.js:337-338 | each reducer step measures from the start of today, so the fold ends at the last time since the start of today |
| Analytics.TotalTimeAsWrittenValue | src/App.js:336-338 | the source's total throws exactly below two records, otherwise is last time − start of today, and equals the elapsed time exactly when the first record is at the start of today |
| Duration.Difference | src/App.js:309-311 | the signed difference: previous + difference = time, non-negative exactly when previous ≤ time |
| Duration.Pad2 | src/App.js:347-350 | a number below 100 written as two digits that read back as that number |
| Duration.TwelveHour | src/App.js:347-348 | moment's `hh` lies in 1..12 and agrees with the hour modulo 12 |
| Duration.FormatDuration | src/App.js:346-351 | "hours" gives 8 characters and "minutes" 5 inside the Date range; outside it, "Invalid date" |
| Duration.HoursFormatIsClock | src/App.js:346-351 | `hh:mm:ss` has hh in 01–12 and mm, ss in 00–59, and its fields read back as the whole seconds of the instant modulo 12 hours |
| Duration.MinutesIsSuffixOfHours | src/App.js:346-351 | the `mm:ss` string is the last five characters of the `hh:mm:ss` string |
| Duration.FormatIsDaily | src/App.js:346-351 | the display depends only on the milliseconds modulo 24 hours |
| Duration.ZeroIsTwelve | src/App.js:347-348 | 0 ms shows as `12:00:00` and `00:00` |
| Duration.NegativeWraps | src/App.js:346-351 | -1000 ms wraps back to `11:59:59` and `59:59` |
| Duration.TruncateMs | src/App.js:300 | a fractional number of milliseconds is truncated toward zero |
| Scenarios.TotalsOfTwoKinds | src/App.js:215-239 | for distinct types a, b, a, the totals list a (2) then b (1) |
| Scenarios.SessionTotals | src/App.js:215-239 | the three-event session lists click (2) then input (1) |
| Scenarios.SessionDomCount | src/App.js:256-263 | the session has 2 DOM events |
| Scenarios.SessionLongestInput | src/App.js:315-327 | the session's longest input is 5 |
| Scenarios.SessionStats | src/App.js:247-339 | the session has 2 DOM events, longest input 5, total 3000 ms, delays 1000 and 2000 ms, mean 1000 ms |
| Scenarios.SessionTotalShown | src/App.js:206 | the session's intended total time, 3000 ms, is shown as `12:00:03` (the source's own total is the as-written value of Findings) |
| Scenarios.SessionDelaysShown | src/App.js:297-301 | the session's min and max delays show as `00:01` and `00:02`; the intended mean, 1000 ms, shows as `00:01` |
| Scenarios.SessionLongestAsWritten | src/App.js:321-326 | on the session, the source returns the input record object instead of 5 |
| Scenarios.AstralCountsTwice | src/App.js:321-326 | input values "a" then U+1F600 give 2 in the source and as the intended result, because the emoji is two UTF-16 code units |
| Scenarios.LongestAsWrittenDropsFirst | src/App.js:321-326 | input values "hello" then "abc": the source reports 3, the intended result is 5 |
| Scenarios.TotalTimeAsWrittenOff | src/App.js:336-338 | records at 1000 and 4000 ms on a day starting at 0 give 4000 in the source and 3000 elapsed; one record throws instead of giving 0 |
| Scenarios.MeanBelowMinimum | src/App.js:282 | with delays all equal to 1000 ms, the mean over three records is below the minimum delay |

## Findings

| source | as written | input that shows it | evidently intended | confidence | as-written member | corrected member |
|---|---|---|---|---|---|---|
| src/App.js:321-326 | `reduce` without a seed starts from the first input *record*. Comparing that object with a number is false (NaN), so the first input's length is never counted. One input returns the record itself; no input throws | input values "hello", "abc" give 3; the three-event session gives the record object | the largest value length over input records, 0 when there is none | not executed; high | Analytics.LongestAsWritten (Scenarios.LongestAsWrittenDropsFirst) | Analytics.LongestInput |
| src/App.js:336-338 | `reduce` without a seed passes a record, and later a Duration, to `moment()`. moment reads no date fields from such an object and gives the start of the current day, so the result is last time − start of today. One record returns the record, and `.asMilliseconds()` then throws | records at 1000 and 4000 ms on a day starting at 0 give 4000 instead of 3000; one record throws | last time − first time, and 0 for one record | not executed; medium (rests on moment's handling of plain objects) | Analytics.TotalTimeAsWritten (Scenarios.TotalTimeAsWrittenOff) | Analytics.TotalTime |
| src/App.js:133-140 | a move adds and subtracts 1 instead of exchanging ranks. After a delete leaves a gap, nothing moves, and a gap of 2 gives two records the same rank | load three captures, delete rank 1, then up on rank 2: both records get rank 1 and stay in place | the record changes places with its neighbour | not executed; high | Actions.HandleAction (Actions.GapExample) | Store.MoveUpResult (Actions.GapExampleStore) |
| src/App.js:137-138 | the down guard compares the next record's rank with the list length, so once ranks exceed the length a move the list offers is refused | load four captures, delete ranks 0 and 1, then down on rank 2: nothing changes | guard on the array position: move unless the record is last | not executed; high | Actions.HandleAction (Actions.DownRefusedExample) | Store.MoveDownResult |
| src/App.js:105-107 | an absent rank gives `findIndex` -1, and `splice(-1, 1)` removes the last record. The list itself only passes held ranks | ranks [0, 1], delete rank 7: rank 1 is removed | an absent rank removes nothing | not executed; high | Actions.DeleteAbsentDropsLast | Store.DeleteResult |

## Left out

- Fetching `/task.recording.json` and the POST to `/save` (src/App.js:73-74, 158-191) are network I/O and are not modelled. The body that saving sends is `Types.Payloads` of the records: same length and order, with the ranks stripped.
- The `setTimeout` that clears the alert after 5000 ms is asynchronous behaviour and is not modelled.
- React state plumbing: `useState`, `useCallback`, `useEffect`, and the `visible` toggle and `totalRecords = records.length` in `handleStats`. This is glue and is not modelled.
- src/components/RecordView.js, RecordStats.js and RecordActions.js only render, so they are left out. The one fact used from them is which buttons RecordView shows (`Actions.Offered`).
- backend/server.js is file I/O behind an Express route and is not part of this model.
- moment's parsing of the raw `time` values is left out. Times are integer milliseconds.
- The start of the current local day, which the as-written total time depends on (a clock and a time zone), is the parameter `startOfToday`.
- Floating point is left out. The mean is an exact `real`, and the model truncates it toward zero, as `new Date` does, before formatting. Integers are unbounded, so precision loss above 2^53 ms is not modelled.
- Aliasing is not modelled. The source mutates the record objects it shares with the previous state array; the model builds new values. No call throws after it has mutated anything, so the visible results are the same.
- Any stable sort gives the same result, so JavaScript's sort is modelled as a stable insertion sort. The model does not prove that uniqueness.
- An input record without `setup.value` throws in the source when the reducer reads its `.length`. That happens for every input record except the first: the first is only the seed and its value is never read. The model makes `value` a string (empty when absent), so the throw is not modelled.
- Action names are an enumeration (`Up`, `Down`, `Delete`, `Other`), not strings.
- Store.RecordStore.MoveUp: exchanges ranks with the neighbour rather than adding and subtracting 1. The two agree while ranks are dense (`Actions.UpAgreesWhileDense`); the source's own behaviour on gapped ranks is in `Actions.HandleAction`.
- Store.RecordStore.MoveDown: guards on the array position rather than comparing the next rank with the length, and exchanges ranks rather than adding and subtracting 1. The source's behaviour is in `Actions.HandleAction`.
- Store.RecordStore.Delete: an absent rank is a no-op rather than removing the last record.
- Analytics.TimeDelays: its mean divides the intended total time (`Analytics.TotalTime`) by the record count. It does not use the source's total from `Analytics.TotalTimeAsWritten`. For fewer than two records it returns `None` where the source throws.
- Analytics.LongestInput: returns 0 when there is no input record, where the source throws.
