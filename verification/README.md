# Course-timetable planner: search, grid and table store in Dafny

This project models the logic inside three React components of a university course-timetable planner.

- **Search dialog** (`src/basic/SearchDialog.tsx`). It covers:
  - the six-clause lecture filter and the incremental pager;
  - the option updates and their page resets;
  - the `searchInfo` pre-filter;
  - the memoising fetch cache and the six-call `fetchAllLectures`;
  - the assembly of the catalog from the responses.
- **Schedule grid** (`src/basic/ScheduleTable.tsx`). It covers:
  - the 24-period timetable;
  - the colour of a lecture block;
  - the pixel box of a block;
  - the payloads of the cell-click and delete callbacks;
  - the drag id.
- **Table store** (`src/basic/ScheduleTables.tsx`). It covers:
  - the map from table id to schedules, with duplicate, remove and delete-entry;
  - the rule that disables the remove button;
  - the table id recovered from a drag id.

Modules:

- `Types`: the records passed between the components.
- `Builtins`: the JavaScript built-ins the code relies on, on sequences:
  - `includes`, `String(n)`, `split(':')[0]`, `indexOf`;
  - `[...new Set(xs)]`, with the first-occurrence order proved.
- `LectureFilter`: the `filteredLectures` predicate and filter.
- `Pagination`: `lastPage`, `visibleLectures` and the page step.
- `LectureFetch`:
  - the cache is the class `LectureCache`, which holds the stored request per category and counts the requests issued;
  - `fetchAllLectures` is a method over it.
- `SearchDialog`: the dialog state is the class `SearchDialogState` (`lectures`, `page`, `options`). Its methods are the handlers and effects that call the setters.
- `ScheduleTable`: the grid, as pure functions.
- `ScheduleTables`:
  - the copy-on-write updates, as functions on maps;
  - the state slot, as the class `ScheduleStore`, which points to a `TablesObject`. This keeps visible that `remove` deletes the key from the previous object in place.

Parameters stand in for helpers defined in files outside this model:

- `parseSchedule` (src/basic/utils.ts) and `toLowerCase` are the fields of `LectureFilter.Env`.
- `parseHnM` applied to a minute count is the `formatMinutes` argument of `ScheduleTable.Times`.
- `DAY_LABELS` and `CellSize` (src/basic/constants.ts) are arguments.
- The `Date.now()` key of `duplicate` is the `newKey` argument.

## Model

| member | source | states |
|---|---|---|
| Builtins.IncludesIffOccurs | src/basic/SearchDialog.tsx:135-136 | `includes` holds exactly when the needle occurs at some position of the text |
| Builtins.DecimalString | src/basic/SearchDialog.tsx:141 | `String(credits)` is a non-empty string of decimal digits with no leading zero |
| Builtins.DecimalStringRoundTrip | src/basic/SearchDialog.tsx:141 | reading the digits of `String(n)` back gives n |
| Builtins.SplitHead | src/basic/ScheduleTables.tsx:37 | `split(':')[0]` is a prefix without ':' that stops at the first ':' or at the end |
| Builtins.IndexOf | src/basic/ScheduleTable.tsx:53 | `indexOf` is -1 exactly when the element is absent; otherwise it is the first position holding it |
| Builtins.IndexOfUnique | src/basic/ScheduleTable.tsx:151 | in a list without repeats, the element at p is found at p |
| Builtins.Distinct | src/basic/ScheduleTable.tsx:51 | `[...new Set(s)]` has no repeats, holds only elements of s, and holds every element of s |
| Builtins.DistinctOfPrefix | src/basic/ScheduleTable.tsx:51 | the distinct elements of a prefix are a prefix of the distinct elements |
| Builtins.DistinctIndexOfFirst | src/basic/ScheduleTable.tsx:51-53 | an element first seen at i is found right after the distinct elements of s[..i] |
| LectureFilter.ParsedEntries | src/basic/SearchDialog.tsx:143 | the parsed entries of a lecture, none for empty schedule text; EmptyScheduleRejectedByDayOrTime states the consequence |
| LectureFilter.Accepts | src/basic/SearchDialog.tsx:133-152 | the filter callback with its early returns in source order; AcceptsIffAllActiveClausesHold characterises it as the conjunction of the switched-on clauses |
| LectureFilter.Filter | src/basic/SearchDialog.tsx:132 | `lectures.filter(Accepts)`; FilterCounts, FilterMembers, FilterIsSubsequence, FilterIdempotent and FilterConcat state its properties |
| LectureFilter.AcceptsIffAllActiveClausesHold | src/basic/SearchDialog.tsx:131-152 | a lecture passes exactly when every switched-on clause holds (query, grades, majors, credits prefix, day, period) |
| LectureFilter.FilterCounts | src/basic/SearchDialog.tsx:132-153 | every accepted lecture is kept as often as the catalog holds it; every rejected one is dropped |
| LectureFilter.FilterMembers | src/basic/SearchDialog.tsx:132-153 | a lecture is in the result exactly when it is in the catalog and accepted |
| LectureFilter.FilterIsSubsequence | src/basic/SearchDialog.tsx:130-154 | the result is an order-preserving subsequence of the catalog |
| LectureFilter.FilterKeepsAllAccepted | src/basic/SearchDialog.tsx:132-153 | a catalog whose every lecture is accepted passes unchanged |
| LectureFilter.FilterIdempotent | src/basic/SearchDialog.tsx:130-154 | filtering the result again with the same options changes nothing |
| LectureFilter.InitialOptionsKeepEverything | src/basic/SearchDialog.tsx:122-153 | with the initial options the whole catalog is shown, in order |
| LectureFilter.EmptyScheduleRejectedByDayOrTime | src/basic/SearchDialog.tsx:143-150 | a lecture with empty schedule text is rejected whenever days or periods are selected |
| LectureFilter.FilterConcat | src/basic/SearchDialog.tsx:132-153 | filtering two catalogs one after another equals filtering each and concatenating |
| LectureFilter.FilterIgnoresTimesOrder | src/basic/SearchDialog.tsx:146-150 | only the set of selected periods matters, not their order or repetition |
| LectureFilter.FilterSameAcceptance | src/basic/SearchDialog.tsx:132-153 | two option values that accept the same lectures give the same result |
| LectureFilter.CreditsMatchByPrefix | src/basic/SearchDialog.tsx:141 | credits match by text prefix: option 1 accepts "1", "1.5" and "10" and rejects "2" |
| LectureFilter.DayAndTimeMatchedIndependently | src/basic/SearchDialog.tsx:143-150 | the day clause and the period clause may be met by different parsed entries |
| Pagination.LastPage | src/basic/SearchDialog.tsx:156-159 | `lastPage` is the fewest 100-lecture pages that hold the filtered lectures |
| Pagination.VisibleLectures | src/basic/SearchDialog.tsx:161-164 | the visible lectures are the prefix of length min(n, page*100) |
| Pagination.NextPage | src/basic/SearchDialog.tsx:200 | one step never passes the last page; it adds one below it and lands on it otherwise |
| Pagination.AfterStepsClosedForm | src/basic/SearchDialog.tsx:197-201 | k steps from a page up to the last give min(last, page + k) |
| Pagination.StepAtLastPageIsNoOp | src/basic/SearchDialog.tsx:200 | a step at the last page leaves it there |
| Pagination.AllVisibleAfterEnoughSteps | src/basic/SearchDialog.tsx:156-164 | from page 1, lastPage - 1 steps make every filtered lecture visible |
| Pagination.VisibleGrowsWithStep | src/basic/SearchDialog.tsx:161-164 | a page step never hides a visible lecture: the visible list before the step is a prefix of the one after |
| Pagination.EmptyResultDropsPageToZero | src/basic/SearchDialog.tsx:200 | with no filtered lectures a step sets the page to 0 |
| LectureFetch.LectureCache.constructor | src/basic/SearchDialog.tsx:83-84 | the cache starts empty with no request issued |
| LectureFetch.LectureCache.FetchWithCache | src/basic/SearchDialog.tsx:87-100 | the first call for a category issues and stores one request; later calls return the stored one and issue none |
| LectureFetch.AtMostOneRequestPerCategory | src/basic/SearchDialog.tsx:83-102 | however often the cached fetches run, at most two requests are ever issued |
| LectureFetch.BothCachedIsFull | src/basic/SearchDialog.tsx:83-102 | once both categories are cached the cache holds nothing else and exactly two requests were issued |
| LectureFetch.FetchAllLectures | src/basic/SearchDialog.tsx:106-114 | the six results are the majors and liberal-arts requests alternating three times; exactly the missing categories are fetched; earlier entries are kept |
| LectureFetch.Assemble | src/basic/SearchDialog.tsx:183-187 | the catalog is assembled exactly when every request succeeded |
| LectureFetch.EveryLectureThreeTimes | src/basic/SearchDialog.tsx:183-187 | the catalog is M+L+M+L+M+L, so each lecture occurs three times as often as in its list |
| LectureFetch.FailedListFailsAssembly | src/basic/SearchDialog.tsx:106-114 | one failed list leaves no catalog |
| LectureFetch.FilteredResultTripled | src/basic/SearchDialog.tsx:130-154 | the search result over the tripled catalog is the per-list results tripled in the same pattern |
| SearchDialog.Read | src/basic/SearchDialog.tsx:40-47 | reading a field yields a change of that field |
| SearchDialog.WithChange | src/basic/SearchDialog.tsx:174 | the named field takes the new value and every other field keeps its old one |
| SearchDialog.OptionsDeterminedByFields | src/basic/SearchDialog.tsx:40-47 | two options with equal fields are equal |
| SearchDialog.PrefilterDays | src/basic/SearchDialog.tsx:213 | the day filter is `[day]` exactly when a non-empty day is given, else empty |
| SearchDialog.PrefilterTimes | src/basic/SearchDialog.tsx:214 | the period filter is `[time]` exactly when a non-zero period is given, else empty |
| SearchDialog.AllMajors | src/basic/SearchDialog.tsx:166-169 | the majors offered have no repeats and are exactly the majors of the catalog |
| SearchDialog.Insert | src/basic/SearchDialog.tsx:302-303 | inserting into an ascending list keeps it ascending and adds exactly that element |
| SearchDialog.SortAscending | src/basic/SearchDialog.tsx:302-303 | the sorted periods are ascending and a permutation of the input |
| SearchDialog.SearchDialogState.constructor | src/basic/SearchDialog.tsx:120-128 | the dialog starts with no lectures, page 1 and the initial options |
| SearchDialog.SearchDialogState.Filtered | src/basic/SearchDialog.tsx:130-154 | `filteredLectures` of the current catalog and options; SortTimesForDisplay proves it unchanged by the in-place sort |
| SearchDialog.SearchDialogState.Visible | src/basic/SearchDialog.tsx:161-164 | `visibleLectures` of the current page; the handlers below state how it changes |
| SearchDialog.SearchDialogState.ChangeSearchOption | src/basic/SearchDialog.tsx:171-178 | exactly one field changes, the page returns to 1 so at most one page is visible, and the catalog is kept |
| SearchDialog.SearchDialogState.OnLoaderVisible | src/basic/SearchDialog.tsx:197-201 | the page advances by one step, never past the last page, and stays at the last page; the visible lectures before are a prefix of those after |
| SearchDialog.SearchDialogState.OnSearchInfo | src/basic/SearchDialog.tsx:210-217 | days and periods take the pre-filters, the other options are kept, the page returns to 1 so at most one page is visible |
| SearchDialog.SearchDialogState.SortTimesForDisplay | src/basic/SearchDialog.tsx:302-303 | the periods are sorted in place and the search result does not change |
| SearchDialog.SearchDialogState.LoadLectures | src/basic/SearchDialog.tsx:183-188 | the catalog becomes the assembled lists when every request succeeded; otherwise it stays as it was |
| SearchDialog.PrefilteredDialogAccepts | src/basic/SearchDialog.tsx:210-217 | after a cell click, a lecture shows exactly when the other options accept it and it has an entry on that day and one covering that period |
| ScheduleTable.PeriodStart | src/basic/ScheduleTable.tsx:30-40 | start of period k in minutes: 30k for the 18 day periods, 540 + 55(k-18) after; Times, PeriodsDoNotOverlap and PeriodGaps state its properties |
| ScheduleTable.PeriodLength | src/basic/ScheduleTable.tsx:30-40 | length of period k: 30 minutes for the day periods, 50 for the evening ones; used by Times, PeriodsDoNotOverlap and PeriodGaps |
| ScheduleTable.PeriodsDoNotOverlap | src/basic/ScheduleTable.tsx:30-40 | period starts strictly increase and no two periods overlap |
| ScheduleTable.PeriodGaps | src/basic/ScheduleTable.tsx:30-40 | the 18 day periods tile without gaps; each evening period is followed by a 5-minute break |
| ScheduleTable.Times | src/basic/ScheduleTable.tsx:30-40 | there are 24 labels; period k runs from 30k minutes for 30 (k < 18) or from 540 + 55(k-18) for 50 |
| ScheduleTable.ColorsDistinct | src/basic/ScheduleTable.tsx:52 | the six colours are pairwise different |
| ScheduleTable.GetColor | src/basic/ScheduleTable.tsx:50-54 | a colour exists exactly for ids on the table and is one of the six |
| ScheduleTable.ColorByFirstOccurrence | src/basic/ScheduleTable.tsx:50-54 | a lecture's colour is fixed by the number of distinct lectures before its first schedule, mod 6 |
| ScheduleTable.ColorOfDistinctPosition | src/basic/ScheduleTable.tsx:50-54 | the p-th distinct lecture gets colour p mod 6 |
| ScheduleTable.FirstSixLecturesDistinctColors | src/basic/ScheduleTable.tsx:50-54 | the first six distinct lectures get pairwise different colours |
| ScheduleTable.ColorsRepeatEverySix | src/basic/ScheduleTable.tsx:50-54 | distinct lectures six places apart share a colour |
| ScheduleTable.DeleteButtonPayloads | src/basic/ScheduleTable.tsx:56-63 | the i-th handler reports the i-th schedule's day and first period |
| ScheduleTable.CellClickPayload | src/basic/ScheduleTable.tsx:113-132 | a cell click reports that column's day label and row index + 1, in 1..24 |
| ScheduleTable.ScheduleBox | src/basic/ScheduleTable.tsx:151-162 | the pixel box of a schedule block; it requires a non-empty range, since the source reads `range[0]`; BoxInsideItsCells, AdjacentDaysOneColumnApart and BoxHeightPerPeriod state its geometry |
| ScheduleTable.BoxInsideItsCells | src/basic/ScheduleTable.tsx:151-162 | a block over periods r..r+k-1 on day d starts one pixel inside column d and row r and ends at the lines of column d+1 and row r+k |
| ScheduleTable.AdjacentDaysOneColumnApart | src/basic/ScheduleTable.tsx:151-159 | blocks on neighbouring days are exactly one cell width apart |
| ScheduleTable.BoxHeightPerPeriod | src/basic/ScheduleTable.tsx:152-162 | a block grows by one cell height per extra period |
| ScheduleTable.DragId | src/basic/ScheduleTable.tsx:77 | the drag id is the table id, then ':', then text with no ':' |
| ScheduleTable.DragIdRoundTrip | src/basic/ScheduleTable.tsx:77 | the table id and the schedule index can both be read back from the drag id |
| ScheduleTables.DisabledRemoveButton | src/basic/ScheduleTables.tsx:17 | the remove button is disabled exactly when one table remains; RemovingOnlyTableEmptiesMap and EnabledRemoveKeepsATable relate it to `remove` |
| ScheduleTables.KeepUnmatched | src/basic/ScheduleTables.tsx:52 | the delete filter of one table; KeepUnmatchedCounts, KeepUnmatchedIsSubsequence, KeepUnmatchedNoMatchIsNoOp and KeepUnmatchedIdempotent state its properties |
| ScheduleTables.KeepUnmatchedCounts | src/basic/ScheduleTables.tsx:52 | every unmatched schedule is kept as often as it occurs; every matching one is gone |
| ScheduleTables.KeepUnmatchedIsSubsequence | src/basic/ScheduleTables.tsx:52 | the kept schedules keep their order |
| ScheduleTables.KeepUnmatchedNoMatchIsNoOp | src/basic/ScheduleTables.tsx:52 | when nothing matches, the table is unchanged |
| ScheduleTables.KeepUnmatchedIdempotent | src/basic/ScheduleTables.tsx:52 | deleting twice is deleting once |
| ScheduleTables.PressedScheduleRemoved | src/basic/ScheduleTables.tsx:49-53 | the schedule whose delete button was pressed is removed |
| ScheduleTables.DuplicateTable | src/basic/ScheduleTables.tsx:19-24 | the new key holds a copy of the target's schedules, other keys keep theirs; a missing target yields nothing |
| ScheduleTables.RemoveTable | src/basic/ScheduleTables.tsx:26-31 | the keys lose the target and every other table is kept |
| ScheduleTables.DeleteEntries | src/basic/ScheduleTables.tsx:49-54 | only the named table changes, to its unmatched schedules; a missing table yields nothing |
| ScheduleTables.DeleteEntriesIdempotent | src/basic/ScheduleTables.tsx:49-54 | deleting the same day and period twice gives the same map as once |
| ScheduleTables.DeleteEntriesNoMatchIsNoOp | src/basic/ScheduleTables.tsx:49-54 | a delete that matches nothing leaves the map as it was |
| ScheduleTables.RemoveAbsentIsNoOp | src/basic/ScheduleTables.tsx:26-31 | removing an absent table changes nothing |
| ScheduleTables.RemovingOnlyTableEmptiesMap | src/basic/ScheduleTables.tsx:17-31 | `remove` itself does not check the button rule: removing the only table leaves an empty map |
| ScheduleTables.EnabledRemoveKeepsATable | src/basic/ScheduleTables.tsx:17-31 | while the button is enabled, a remove leaves at least one table |
| ScheduleTables.ActiveTableId | src/basic/ScheduleTables.tsx:34-40 | the active table is the text before the first ':' of a non-empty drag id, else none |
| ScheduleTables.ActiveTableIdOfDragId | src/basic/ScheduleTables.tsx:34-40 | the drag id of a schedule leads back to its table when the table id has no ':' |
| ScheduleTables.ColonInTableIdIsCutShort | src/basic/ScheduleTables.tsx:37 | a table id containing ':' is cut short ("a:b" gives "a") |
| ScheduleTables.CellClickPrefiltersDialog | src/basic/ScheduleTables.tsx:46-48 | a cell click opens the dialog pre-filtered to that cell's day and period |
| ScheduleTables.AddButtonOpensUnfiltered | src/basic/ScheduleTables.tsx:66 | the add button opens the dialog with no day or period pre-filter |
| ScheduleTables.ScheduleStore.constructor | src/basic/ScheduleTables.tsx:10 | the store starts with the given map |
| ScheduleTables.ScheduleStore.Duplicate | src/basic/ScheduleTables.tsx:19-24 | a fresh object holds the duplicated map; the previous object is untouched; a missing target changes nothing |
| ScheduleTables.ScheduleStore.Remove | src/basic/ScheduleTables.tsx:26-31 | the key is deleted from the previous object in place, and a fresh copy of it becomes current |
| ScheduleTables.ScheduleStore.DeleteButtonClick | src/basic/ScheduleTables.tsx:49-54 | a fresh object holds the map with only that table filtered; a missing table changes nothing |

## Left out

- React rendering, hooks and memoisation, and the Chakra UI components: presentation, not logic.
- The hover popover state of a block: presentation only.
- The tag-close buttons that drop one period or one major from the options: only the `changeSearchOption` call they make is modelled.
- The labels drawn for majors and periods: presentation only.
- axios requests, `performance.now` and console logging are I/O. A request is an opaque `Request` token, and what it resolves to is the `respond` parameter.
- Promise timing: the six cached calls run one after another, and the assembly happens once all have resolved.
- `IntersectionObserver` and `scrollTo`, and the `lastPage` value captured by the observer's closure, are browser plumbing. Only the page step is modelled, against the current last page.
- The dnd-kit drag transform: a foreign library.
- `parseSchedule`, `parseHnM`, `fill2` and `toLowerCase` are parameters; their definitions are not part of this model.
- `DAY_LABELS`, `CellSize` and `분` are parameters (src/basic/constants.ts is not part of this model).
- `LectureTable` and the adding of a lecture to a table are not part of this model.
- LectureFilter.SearchOption: `credits` is an optional natural number. The credits select produces the strings "", "1", "2" and "3", and "" is falsy like an absent value.
- ScheduleTable.DeleteButtonPayloads: requires every schedule to have a non-empty range. The source reads `range[0]` and would report an undefined period otherwise.
- ScheduleTable.ScheduleBox: requires a non-empty range, as the source reads `range[0]`. A day missing from the labels gets column index -1, as `indexOf` does. No lemma covers that case.
- A JavaScript exception (spreading or filtering a missing table) is modelled as no new map: the result is None, or `ok` is false and the state is unchanged.
- Removing the last table: the remove button is disabled exactly when one table remains (src/basic/ScheduleTables.tsx:17, 68), but `remove` (src/basic/ScheduleTables.tsx:26-31) does not check this and empties the map when called on the only table. The model follows the code (see ScheduleTables.RemovingOnlyTableEmptiesMap).
