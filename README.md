# Schedule import adapters, modelled in Dafny

The repository holds adapter scripts that turn timetable data from several sources into one
canonical shape: a list of courses (name, teacher, location, weekday, first and last period,
teaching weeks), a list of daily time slots and a small configuration record. This project
models three of them and proves what they promise.

- **HNVCC** (`resources/HNVCC/HNVCC_01.js`) reads an HTML timetable. The model covers the
  year validator, the week-text parser `parseWeeks`, the period-label parser `parseSections`,
  the table walk `parseTimetable` over an abstract document (rows, cells, item boxes and
  their ordered child elements), the in-place sort and merge scan of `mergeCourses`, and the
  two preset twelve-period timetables.
- **WakeUp** (`resources/GLOBAL_TOOLS/wake_up.js`) decodes a share blob. The model covers the
  key check, the split of the blob into its five JSON lines, date formatting and the
  start-date conversion, the normalisation of `nodes`, the time-slot filter, and the join of
  the course catalog with the scheduling details.
- **CQU** (`resources/CQU/cqu.js`) maps JSON records. The model covers `parseSchedule` with
  its defaults, the teacher-name slice, the period-format decoding and the week bitmask, and
  the string logic of `getStudentId`, `checkLogin` and `getAccessToken`.

Files:

- `wrappers.dfy`: `Option` and `Result`.
- `text.dfy` (module `JsText`): the JavaScript string primitives the scripts use.
- `schedule.dfy`: the canonical `Course` and `TimeSlot` records and day-plan facts.
- `sorting.dfy`: `Array.prototype.sort` as an in-place stable insertion sort.
- `hnvcc_fields.dfy`, `hnvcc_timetable.dfy` and `hnvcc_merge.dfy`: the HNVCC adapter.
- `wakeup.dfy`: the WakeUp adapter.
- `cqu.dfy`: the CQU adapter.

Each loop of the source is a `method` whose `ensures` ties its result to a specification
function. The properties are proved as lemmas about those functions. JavaScript `null` and
`undefined` are `None`, and so is `NaN` from `parseInt` and `Number`. The one exception is CQU's
`periodFormat`, where the source treats the two differently; there the model keeps them apart.

## Model

| member | source | states |
|---|---|---|
| JsText.TrimSpec | resources/GLOBAL_TOOLS/wake_up.js:10 | `trim` keeps the middle of the text between a white-space prefix and suffix; the result neither starts nor ends with white space, and it is empty exactly when the text is all white space |
| JsText.TrimStartSpec | resources/GLOBAL_TOOLS/wake_up.js:69 | `trimStart` drops a white-space prefix and keeps the rest, which does not start with white space |
| JsText.TrimEndSpec | resources/GLOBAL_TOOLS/wake_up.js:69 | `trimEnd` drops a white-space suffix and keeps the rest, which does not end with white space |
| JsText.TrimIdentity | resources/GLOBAL_TOOLS/wake_up.js:25 | text with no white space at either end is unchanged by `trim` |
| JsText.IndexOf | resources/CQU/cqu.js:49 | `indexOf` gives -1 exactly when the character is absent, and otherwise the position of its first occurrence |
| JsText.SplitCount | resources/GLOBAL_TOOLS/wake_up.js:25 | `split` gives one part more than there are separators |
| JsText.SplitParts | resources/GLOBAL_TOOLS/wake_up.js:25 | no part of a `split` holds the separator |
| JsText.SplitJoin | resources/GLOBAL_TOOLS/wake_up.js:25 | joining the parts of a `split` with the separator gives the text back |
| JsText.SplitOfJoin | resources/GLOBAL_TOOLS/wake_up.js:25 | splitting separator-free parts joined by the separator gives the parts back |
| JsText.SplitFirst | resources/HNVCC/HNVCC_01.js:29 | a text that starts with a separator-free part and a separator splits into that part followed by the parts of the rest |
| JsText.SplitWithoutSeparator | resources/HNVCC/HNVCC_01.js:33 | a text without the separator splits into itself alone |
| JsText.ReplaceChar | resources/GLOBAL_TOOLS/wake_up.js:75 | `replace(/\//g, '-')` keeps the length and turns exactly the matching characters into the replacement |
| JsText.RemoveChar | resources/CQU/cqu.js:5 | `replaceAll(c, '')` removes every `c`, keeps every other character, and is shorter by the number of `c`s |
| JsText.RemoveCharAppend | resources/CQU/cqu.js:5 | removing a character from a concatenation removes it from each part |
| JsText.SlicePrefix | resources/CQU/cqu.js:49 | `slice(0, end)` gives a prefix of the text |
| JsText.ParseIntDigits | resources/HNVCC/HNVCC_01.js:35-36 | `parseInt` of a digit string is its decimal value |
| JsText.NumberOf | resources/CQU/cqu.js:52-53 | `Number` of a blank text is 0 |
| JsText.NatToString | resources/GLOBAL_TOOLS/wake_up.js:54-56 | `String(n)` is a digit string with no leading zero whose value is `n` |
| JsText.IntToString | resources/HNVCC/HNVCC_01.js:287-288 | `String(n)` of an integer is its digits, after a `-` when it is negative |
| JsText.PadStart2Digits | resources/GLOBAL_TOOLS/wake_up.js:54-55 | `padStart(2, '0')` of a number below 100 is two digits with the number's value |
| JsText.LexTotal | resources/HNVCC/HNVCC_01.js:289 | the string order used for the weeks text is strict and total |
| JsText.LexTrans | resources/HNVCC/HNVCC_01.js:289 | the string order used for the weeks text is transitive |
| JsText.CloseFromSpec | resources/HNVCC/HNVCC_01.js:26 | the lazy `(.*?)` stops at the first closing character it can reach over non-terminator characters, and fails exactly when it can reach none |
| JsText.LazyMatchSpec | resources/CQU/cqu.js:1 | the match of `/O(.*?)[C]/` is leftmost: no earlier opening character can reach a close |
| JsText.LazyCaptureChars | resources/CQU/cqu.js:1 | the captured text holds neither a closing character nor a line terminator |
| JsText.LazyCaptureAfter | resources/CQU/cqu.js:1 | the first opening character captures everything up to the next closing character |
| Schedule.Hm | resources/HNVCC/HNVCC_01.js:327 | `HH:MM` text of a time is a clock time worth `h * 60 + m` minutes |
| Schedule.PlanConcat | resources/HNVCC/HNVCC_01.js:326-339 | two runs of periods, the first ending before the second starts, form one run |
| Schedule.PlanOfFour | resources/HNVCC/HNVCC_01.js:327-330 | four periods numbered in a row, each ending before the next starts, form a run |
| Sorting.InsertPermutes | resources/HNVCC/HNVCC_01.js:285 | one insertion step adds exactly the inserted record |
| Sorting.SortSpecPermutes | resources/HNVCC/HNVCC_01.js:285 | the sort only reorders: its output is a permutation of its input |
| Sorting.InsertSorted | resources/HNVCC/HNVCC_01.js:285 | inserting into a sorted list keeps it sorted |
| Sorting.SortSpecSorted | resources/HNVCC/HNVCC_01.js:285-291 | with a total comparison the sort's output is sorted |
| Sorting.SortSpecOfSorted | resources/HNVCC/HNVCC_01.js:285-291 | sorting a sorted list leaves it unchanged |
| Sorting.InsertTies | resources/HNVCC/HNVCC_01.js:285 | with a transitive comparison one insertion step never moves an element past one that compares equal to it |
| Sorting.SortSpecStable | resources/HNVCC/HNVCC_01.js:285-291 | with a transitive comparison the sort is stable: for every `x`, the elements that compare equal to `x` keep their input order |
| Sorting.SortedAppend | resources/HNVCC/HNVCC_01.js:285 | a list with one more element is sorted exactly when the list is and the element is not below its last one |
| Sorting.InsertAt | resources/HNVCC/HNVCC_01.js:285 | the insertion places the element after the last one that is not greater |
| Sorting.InsertLast | resources/HNVCC/HNVCC_01.js:285 | one step of the in-place sort moves `a[i]` into the sorted prefix and leaves the rest of the array alone |
| Sorting.Sort | resources/HNVCC/HNVCC_01.js:285-291 | the in-place sort leaves the array holding the stable sort of its old contents |
| HnvccFields.ValidateYearInput | resources/HNVCC/HNVCC_01.js:9-16 | accepted exactly when the input is four ASCII digits; otherwise the error message |
| HnvccFields.Interval | resources/HNVCC/HNVCC_01.js:39 | the weeks `lo..hi`: exactly the integers between them |
| HnvccFields.TokenBounds | resources/HNVCC/HNVCC_01.js:33-48 | a token's run always goes from the smaller to the larger week |
| HnvccFields.RangeTokenBounds | resources/HNVCC/HNVCC_01.js:33-43 | a token `a-b` runs from the smaller to the larger number, whichever is written first |
| HnvccFields.SingleTokenBounds | resources/HNVCC/HNVCC_01.js:44-48 | a token that is one number names that one week |
| HnvccFields.NonNumericTokenBounds | resources/HNVCC/HNVCC_01.js:44-48 | a token without a dash that does not start with a digit or a sign names no week |
| HnvccFields.PushNewSpec | resources/HNVCC/HNVCC_01.js:40-42 | pushing a week that is not yet there keeps the list free of repeats and adds that week |
| HnvccFields.PushRangeSpec | resources/HNVCC/HNVCC_01.js:39-43 | pushing a range keeps the list free of repeats and adds exactly the range |
| HnvccFields.PushTokenSpec | resources/HNVCC/HNVCC_01.js:33-49 | one token keeps the list free of repeats and adds exactly the token's weeks |
| HnvccFields.PushTokensSpec | resources/HNVCC/HNVCC_01.js:31-50 | the token loop collects exactly the weeks of all tokens, without repeats |
| HnvccFields.SortedDistinctAscending | resources/HNVCC/HNVCC_01.js:51 | a sorted list without repeats is strictly ascending |
| HnvccFields.WeeksOfSpec | resources/HNVCC/HNVCC_01.js:23-52 | no `第…周`/`第…(` part gives `[]`; the result is strictly ascending and holds exactly the weeks the text names |
| HnvccFields.PushWeekRange | resources/HNVCC/HNVCC_01.js:39-43 | the range loop performs exactly the pushes of its specification |
| HnvccFields.PushAllTokens | resources/HNVCC/HNVCC_01.js:31-50 | the token loop performs exactly the pushes of its specification |
| HnvccFields.ParseWeeks | resources/HNVCC/HNVCC_01.js:23-52 | `parseWeeks`: empty without a match, strictly ascending, and holding exactly the named weeks |
| HnvccFields.WeekSetExample | resources/HNVCC/HNVCC_01.js:26-48 | `第1-3,5周` names weeks 1, 2, 3 and 5 |
| HnvccFields.FindRange | resources/HNVCC/HNVCC_01.js:62 | finds the leftmost place where `(\d+)\s*-\s*(\d+)` matches, or reports that it matches nowhere |
| HnvccFields.FirstDigit | resources/HNVCC/HNVCC_01.js:71 | finds the leftmost digit, or reports that there is none |
| HnvccFields.ParseSections | resources/HNVCC/HNVCC_01.js:60-85 | periods are never negative; without a range both ends are one positive number; a label without digits gives null |
| HnvccFields.ParseSectionsWrittenOrder | resources/HNVCC/HNVCC_01.js:62-68 | the first range `a-b` gives start `a` and end `b` in written order, even when `a > b` |
| HnvccFields.ParseSectionsSingle | resources/HNVCC/HNVCC_01.js:71-84 | a label with one number gives it at both ends when it is positive, and null when it is 0 |
| HnvccFields.ParseSectionsNoDigit | resources/HNVCC/HNVCC_01.js:84 | a label without digits gives null |
| HnvccFields.ParseSectionsAt | resources/HNVCC/HNVCC_01.js:62-68 | a range after a digit-free prefix gives the two runs it joins |
| HnvccFields.SectionLabelTwoLines | resources/HNVCC/HNVCC_01.js:56-68 | `第一大节\n第1-2节` gives periods 1 to 2 |
| HnvccFields.SectionLabelSingle | resources/HNVCC/HNVCC_01.js:71-80 | `第3节` gives period 3 to 3 |
| HnvccFields.MorningPlan | resources/HNVCC/HNVCC_01.js:327-330 | periods 1-4 are numbered in order, each ends before the next starts, and the morning ends at 12:00 |
| HnvccFields.SummerAfternoonPlan | resources/HNVCC/HNVCC_01.js:331-334 | summer periods 5-8 run in order from 14:00 to 17:35 |
| HnvccFields.WinterAfternoonPlan | resources/HNVCC/HNVCC_01.js:349-352 | winter periods 5-8 run in order from 14:30 to 18:05 |
| HnvccFields.EveningPlan | resources/HNVCC/HNVCC_01.js:335-338 | periods 9-12 run in order from 19:00 |
| HnvccFields.SummerTimeSlotsPlan | resources/HNVCC/HNVCC_01.js:325-340 | the summer preset is twelve periods numbered 1 to 12, each ending before the next starts |
| HnvccFields.WinterTimeSlotsPlan | resources/HNVCC/HNVCC_01.js:343-358 | the winter preset is twelve periods numbered 1 to 12, each ending before the next starts |
| HnvccFields.ClockTexts | resources/HNVCC/HNVCC_01.js:327 | the clock texts are zero-padded as the presets write them (`08:20`, `14:30`) |
| HnvccTimetable.FindWeekTotal | resources/HNVCC/HNVCC_01.js:143 | finds the leftmost match of `/\/(\d+)周/`, or reports that it matches nowhere |
| HnvccTimetable.TotalWeeksOf | resources/HNVCC/HNVCC_01.js:142-144 | without a `/N周` match the semester has 20 weeks |
| HnvccTimetable.TotalWeeksExample | resources/HNVCC/HNVCC_01.js:143-144 | `第1周/18周` gives 18 weeks |
| HnvccTimetable.TotalWeeksDefault | resources/HNVCC/HNVCC_01.js:144 | markup without a slash gives 20 weeks |
| HnvccTimetable.TchNameFromSpec | resources/HNVCC/HNVCC_01.js:189-192 | the search finds the first `.tch-name` sibling, and fails only when there is none |
| HnvccTimetable.InfoFromSpec | resources/HNVCC/HNVCC_01.js:204-220 | the search finds the first `DIV` with the icon when no `P` comes before it, and fails exactly when every such `DIV` has a `P` before it |
| HnvccTimetable.FindTchName | resources/HNVCC/HNVCC_01.js:189-192 | the sibling loop returns the first `.tch-name` sibling after the name, as `TchNameFromSpec` characterises it |
| HnvccTimetable.FindInfo | resources/HNVCC/HNVCC_01.js:204-220 | the sibling loop returns the location element after the teacher, as `InfoFromSpec` characterises it |
| HnvccTimetable.ItemCourse | resources/HNVCC/HNVCC_01.js:185-252 | an emitted course has weekday 1..7, a name, ascending non-empty weeks and the row's periods |
| HnvccTimetable.EntryCourse | resources/HNVCC/HNVCC_01.js:227-252 | a course built from a found entry with a name and a weekday 1..7 has ascending non-empty weeks and the row's periods |
| HnvccTimetable.ItemCourseSkips | resources/HNVCC/HNVCC_01.js:185-253 | an entry yields a course exactly when its name is not empty, a teacher element follows, a location element follows before the next `P`, and the weeks are not empty |
| HnvccTimetable.CollectItem | resources/HNVCC/HNVCC_01.js:183-259 | the walk of one name element pushes exactly the course its specification gives |
| HnvccTimetable.CollectEntry | resources/HNVCC/HNVCC_01.js:227-253 | the end of one entry pushes exactly the course its specification gives |
| HnvccTimetable.SkippedRows | resources/HNVCC/HNVCC_01.js:153-164 | rows with fewer than two cells, with a `colspan=7` cell or with a label that does not parse give no courses |
| HnvccTimetable.BoxCoursesEmitted | resources/HNVCC/HNVCC_01.js:181-259 | every course of an item box is well formed and has the row's periods |
| HnvccTimetable.BoxesCoursesEmitted | resources/HNVCC/HNVCC_01.js:176-260 | every course of a cell is well formed and has the row's periods |
| HnvccTimetable.DaysCoursesEmitted | resources/HNVCC/HNVCC_01.js:169-261 | every course of the seven day cells is well formed and has the row's periods |
| HnvccTimetable.RowCoursesEmitted | resources/HNVCC/HNVCC_01.js:150-261 | a skipped row gives nothing; every course of a kept row carries that row's periods |
| HnvccTimetable.RowsCoursesEmitted | resources/HNVCC/HNVCC_01.js:148-262 | every course of the table has weekday 1..7, a name and ascending non-empty weeks |
| HnvccTimetable.CollectBox | resources/HNVCC/HNVCC_01.js:181-259 | the loop over a box's children pushes exactly the box's courses |
| HnvccTimetable.CollectCell | resources/HNVCC/HNVCC_01.js:176-260 | the loop over a cell's item boxes pushes exactly the cell's courses |
| HnvccTimetable.CollectDay | resources/HNVCC/HNVCC_01.js:170-176 | a missing day cell pushes nothing; a present one pushes its courses |
| HnvccTimetable.CollectDays | resources/HNVCC/HNVCC_01.js:169-261 | the weekday loop pushes exactly the courses of days 1 to 7 |
| HnvccTimetable.CollectRow | resources/HNVCC/HNVCC_01.js:148-262 | one row pushes exactly that row's courses |
| HnvccTimetable.CollectRows | resources/HNVCC/HNVCC_01.js:148-262 | the row loop pushes the courses of every row, in row order |
| HnvccTimetable.ParseTimetable | resources/HNVCC/HNVCC_01.js:131-271 | null exactly when there is no `#timetable`; otherwise the courses of all rows and the config (total weeks, first day 1) |
| HnvccTimetable.TimetableEmitted | resources/HNVCC/HNVCC_01.js:131-271 | every course `parseTimetable` returns has weekday 1..7, a name and ascending non-empty weeks |
| HnvccMerge.WeeksKeyInjective | resources/HNVCC/HNVCC_01.js:301 | two week lists have the same `JSON.stringify` text exactly when they are equal |
| HnvccMerge.CourseLeSpec | resources/HNVCC/HNVCC_01.js:285-291 | the comparator orders by day, then the weeks text, then the first period |
| HnvccMerge.CourseLeTotal | resources/HNVCC/HNVCC_01.js:285-291 | any two courses compare one way or the other |
| HnvccMerge.CourseLeTrans | resources/HNVCC/HNVCC_01.js:285-291 | the comparator is transitive |
| HnvccMerge.CourseTied | resources/HNVCC/HNVCC_01.js:285-291 | two courses compare equal exactly when they share the day, the weeks and the first period |
| HnvccMerge.CourseSortStable | resources/HNVCC/HNVCC_01.js:285-291 | the sort of `mergeCourses` keeps courses with the same day, weeks and first period in their input order |
| HnvccMerge.CanMergeSpec | resources/HNVCC/HNVCC_01.js:300-308 | the merge test holds exactly when day, weeks, name, teacher and location are equal and the next record starts right after the block ends |
| HnvccMerge.ScanTail | resources/HNVCC/HNVCC_01.js:297-316 | the open block is the last record read except for its first period, and each join removes one record |
| HnvccMerge.ScanMergeTest | resources/HNVCC/HNVCC_01.js:298-308 | the open block passes the merge test with the next record exactly when the last record read does |
| HnvccMerge.BlockStartOpens | resources/HNVCC/HNVCC_01.js:297-316 | the chosen opening record cannot join the one before it, and every later record up to the current one joins its predecessor |
| HnvccMerge.ScanBlockStart | resources/HNVCC/HNVCC_01.js:297-316 | the open block keeps the first period of the record that opened it; a join only moves its last period |
| HnvccMerge.ScanStart | resources/HNVCC/HNVCC_01.js:297-316 | the open block's first period is that of some record that cannot join its predecessor, followed only by records that join theirs |
| HnvccMerge.MergeTwo | resources/HNVCC/HNVCC_01.js:295-317 | two records that can merge become one block ending at the second's last period; two that cannot come out unchanged |
| HnvccMerge.ScanSorted | resources/HNVCC/HNVCC_01.js:297-316 | over a sorted list the blocks come out sorted |
| HnvccMerge.ScanSeparated | resources/HNVCC/HNVCC_01.js:297-316 | no two neighbouring blocks of the scan can merge |
| HnvccMerge.ScanIdentity | resources/HNVCC/HNVCC_01.js:297-316 | without neighbours that can merge, the scan keeps every record as it is |
| HnvccMerge.JoinsZero | resources/HNVCC/HNVCC_01.js:308 | there are no joins exactly when no two neighbours can merge |
| HnvccMerge.SeparatedAppend | resources/HNVCC/HNVCC_01.js:308-314 | a list with one more record is separated exactly when the list is and the record cannot merge onto its last one |
| HnvccMerge.MergeSortedLength | resources/HNVCC/HNVCC_01.js:293-319 | a non-empty list merges into between 1 and as many blocks as records, one fewer per join |
| HnvccMerge.MergeSortedSeparated | resources/HNVCC/HNVCC_01.js:293-319 | no two neighbouring output blocks can merge |
| HnvccMerge.MergeSortedIdentity | resources/HNVCC/HNVCC_01.js:293-319 | the scan changes a list exactly when two of its neighbours can merge |
| HnvccMerge.MergeSortedSorted | resources/HNVCC/HNVCC_01.js:293-319 | the blocks of a sorted list are sorted |
| HnvccMerge.MergeIdempotent | resources/HNVCC/HNVCC_01.js:279-320 | the output is ordered by (day, weeks, first period), no two neighbours can merge, and merging it again changes nothing |
| HnvccMerge.MergeScan | resources/HNVCC/HNVCC_01.js:293-319 | the merge loop computes exactly the scan over the sorted records |
| HnvccMerge.MergeCourses | resources/HNVCC/HNVCC_01.js:279-320 | null or empty gives `[]`; otherwise between 1 and as many blocks as records, the array holds its stable sort, a permutation of the same records, and the result is the scan over it |
| WakeUp.ValidateKeySpec | resources/GLOBAL_TOOLS/wake_up.js:9-14 | a key is refused, always with the same message, exactly when it is null or only white space |
| WakeUp.ParseRawScheduleDataSpec | resources/GLOBAL_TOOLS/wake_up.js:22-44 | accepted exactly when the trimmed blob has at least four line feeds; otherwise the error message; no part holds a line feed |
| WakeUp.ParseRawScheduleDataLines | resources/GLOBAL_TOOLS/wake_up.js:25-42 | lines joined by line feeds give their first five lines, in order, as the five parts |
| WakeUp.FormatDateSpec | resources/GLOBAL_TOOLS/wake_up.js:51-57 | the text is `YYYY-MM-DD` and its fields read back as the year, the 0-based month plus one, and the day |
| WakeUp.FormatDateExample | resources/GLOBAL_TOOLS/wake_up.js:51-57 | 1 September 2025 (month 8) is written `2025-09-01` |
| WakeUp.NatDigitsLength | resources/GLOBAL_TOOLS/wake_up.js:52 | years from 1000 to 9999 are written with four digits |
| WakeUp.ConvertToSemesterStartDateSpec | resources/GLOBAL_TOOLS/wake_up.js:64-86 | falsy or blank input gives null; otherwise the parser gets the trimmed text with no `/` left, and an unparseable date gives null; a parsed one gives exactly the formatted parsed date, which is `YYYY-MM-DD` text when the parser yields only valid dates |
| WakeUp.ConvertToSemesterStartDateExample | resources/GLOBAL_TOOLS/wake_up.js:64-86 | ` 2025/09/01 ` gives `2025-09-01` |
| WakeUp.DateTextExample | resources/GLOBAL_TOOLS/wake_up.js:69-75 | ` 2025/09/01 ` is trimmed and its slashes become dashes |
| WakeUp.NormaliseNodes | resources/GLOBAL_TOOLS/wake_up.js:115-127 | an array is kept, a positive count `n` becomes `1..n`, anything else `[]` |
| WakeUp.FilterMembers | resources/GLOBAL_TOOLS/wake_up.js:133-134 | `filter` keeps exactly the elements that pass |
| WakeUp.FilterAppend | resources/GLOBAL_TOOLS/wake_up.js:133-134 | `filter` keeps the input order |
| WakeUp.FilterFuse | resources/GLOBAL_TOOLS/wake_up.js:133-134 | two filters in a row are one filter with both conditions |
| WakeUp.MapAppend | resources/GLOBAL_TOOLS/wake_up.js:135-139 | `map` keeps the input order |
| WakeUp.MapMembers | resources/GLOBAL_TOOLS/wake_up.js:135-139 | `map` applies the function at every position |
| WakeUp.TimeSlotsOfFused | resources/GLOBAL_TOOLS/wake_up.js:132-139 | the pipeline is one filter (no `00:00` time, a valid node) followed by the renaming |
| WakeUp.TimeSlotsOfAppend | resources/GLOBAL_TOOLS/wake_up.js:132-139 | the slots keep the input order |
| WakeUp.TimeSlotsOfOne | resources/GLOBAL_TOOLS/wake_up.js:132-139 | one raw slot gives its renamed copy when it survives and nothing otherwise |
| WakeUp.TimeSlotsOfMembers | resources/GLOBAL_TOOLS/wake_up.js:132-139 | no more slots than raw ones; every slot has no `00:00` time and a node among the valid periods |
| WakeUp.CatalogMapSpec | resources/GLOBAL_TOOLS/wake_up.js:173-176 | every catalog id is in the map, only those, each mapped to the last entry with that id |
| WakeUp.BuildCourseMap | resources/GLOBAL_TOOLS/wake_up.js:173-176 | the `reduce` builds exactly the catalog map |
| WakeUp.LastCatalogEntryWins | resources/GLOBAL_TOOLS/wake_up.js:173-176 | when the catalog repeats an id, a detail joins the last entry with that id |
| WakeUp.WeekListSpec | resources/GLOBAL_TOOLS/wake_up.js:186-193 | the week list is ascending and holds exactly the weeks of the range the type selects (every, odd, even) |
| WakeUp.WeekListKinds | resources/GLOBAL_TOOLS/wake_up.js:186-193 | type 0 gives every week of the range; an unknown type gives none |
| WakeUp.ExpandWeeks | resources/GLOBAL_TOOLS/wake_up.js:186-193 | the week loop pushes exactly the week list |
| WakeUp.CoursesOfAppend | resources/GLOBAL_TOOLS/wake_up.js:179-211 | the courses follow the detail order |
| WakeUp.CoursesOfOne | resources/GLOBAL_TOOLS/wake_up.js:180-210 | one detail gives its course when its id is present and known, and nothing otherwise |
| WakeUp.CoursesOfShape | resources/GLOBAL_TOOLS/wake_up.js:179-211 | at most one course per detail; each is built from a joining detail (`endSection = startNode + step - 1`, teacher and room `|| ""`) and has ascending weeks |
| WakeUp.CollectCourses | resources/GLOBAL_TOOLS/wake_up.js:179-211 | the `forEach` pushes exactly the courses of the details |
| WakeUp.ConvertToCourseJsonModel | resources/GLOBAL_TOOLS/wake_up.js:168-214 | the result is the courses of the details against the catalog map, no more than there are details |
| Cqu.StudentIdSpec | resources/CQU/cqu.js:1 | the id holds neither `]` nor a line break; a label without `[` gives `undefined` |
| Cqu.StudentIdOfLabel | resources/CQU/cqu.js:1 | a label `name[id]...` gives `id` |
| Cqu.CheckLoginOfLabel | resources/CQU/cqu.js:3 | logged in exactly on `my.cqu.edu.cn`, with a bracketed id in the label |
| Cqu.AccessTokenSpec | resources/CQU/cqu.js:5 | a token comes back exactly when one is stored (a missing one raises a `TypeError` in the source); it has no `"`, holds every other character, and is empty exactly when the stored text was quotes only |
| Cqu.AccessTokenOfJsonString | resources/CQU/cqu.js:5 | a token stored as a JSON string `"t"` reads back as `t`, and reading it again changes nothing |
| Cqu.TimeSlotsOfSpec | resources/CQU/cqu.js:42-46 | one slot per raw slot, in order; `periodOrder` or the position counted from 1; missing times become `''` |
| Cqu.TimeSlotsNumbered | resources/CQU/cqu.js:42-46 | slots without period numbers are numbered 1, 2, 3, ... by position; they form a daily timetable exactly when each has clock times, starts before it ends, and ends before the next one starts |
| Cqu.TeacherNameSpec | resources/CQU/cqu.js:49 | the text before the first `-`; without a `-` the last character is dropped; a missing name gives `''` |
| Cqu.TeacherNameOfLabel | resources/CQU/cqu.js:49 | `name-department` gives `name` |
| Cqu.PeriodsOfRange | resources/CQU/cqu.js:52-53 | with a `-` after the first character, the sections are the numbers of the first two parts |
| Cqu.PeriodsOfDigits | resources/CQU/cqu.js:52-53 | `a-b` of digit strings gives the values of `a` and `b` |
| Cqu.PeriodsSingle | resources/CQU/cqu.js:52-53 | without a `-` after the first character both sections are `Number` of the whole text; a missing format gives `NaN` and a `null` one gives 0 (`Number(null)`) at both ends |
| Cqu.PeriodsNegative | resources/CQU/cqu.js:52-53 | a leading `-` is not a range: `-3` is -3 at both ends |
| Cqu.NumberOfDigits | resources/CQU/cqu.js:52-53 | `Number` of a digit string is its value |
| Cqu.OnesFromSpec | resources/CQU/cqu.js:54 | from position `k` on, the weeks are ascending, exactly the 1-based positions of a `1`, one per `1` |
| Cqu.TeachingWeeksSpec | resources/CQU/cqu.js:54 | the weeks are ascending, week `w` exactly when character `w` is `1`, one per `1`; a missing bitmask gives `[]` |
| Cqu.TeachingWeeksExample | resources/CQU/cqu.js:54 | `0110` gives weeks 2 and 3 |
| Cqu.CourseOfSpec | resources/CQU/cqu.js:47-55 | name `?? ''`, day `?? 0`, position then room then `''`, the sections of the format, and ascending weeks within the bitmask |
| Cqu.CourseOfExample | resources/CQU/cqu.js:47-55 | `高等数学`, teacher `张三-数学学院`, room `D1144`, day 1, `1-2`, `0110` gives teacher `张三`, periods 1 to 2 and weeks 2 and 3 |
| Cqu.ParseScheduleSpec | resources/CQU/cqu.js:37-56 | the config passes the start date and week count through; one slot and one course per input, each in its position |
| Cqu.ParseScheduleExample | resources/CQU/cqu.js:37-56 | the start date and week count pass through, a slot without `periodOrder` becomes period 1, and the course maps as in `CourseOfExample` |

## Left out

- Network and host bridge: every `fetch`, response status check and `AndroidBridge` call, the `save*` functions, `runImportFlow` and the `async` IIFE of `cqu.js` with its `Promise.allSettled`. They are I/O.
- `document.querySelector`, `innerText`, `localStorage` and `window.location`: the model takes their results (the user label, the stored token, the host name, the abstract document) as parameters.
- `JSON.parse` and `JSON.stringify` used as output: records arrive decoded. `JSON.stringify(weeks)` is modelled only as the sort and merge key.
- `new Date(...)`, its validity test and time zones: `ConvertToSemesterStartDate` takes the parser as a function parameter.
- The `courseConfig` object of `fetchAndParseData` (`wake_up.js` lines 141-148) only copies fields and is not modelled. The `try`/`catch` around it is not modelled either.
- `parsedRowCount` in `parseTimetable` is never read and is not modelled. The same goes for the `try`/`catch` around each entry, which catches nothing the model can raise.
- The `nodeType !== 1` test on siblings is not modelled: the model lists element siblings only, as `nextElementSibling` does.
- CSS selector semantics: elements record only what the walk asks of them (tag, text, the `tch-name` class, the icon, their spans).
- `localeCompare` is modelled as plain code-point order, ignoring the locale. It agrees with code-unit order on the ASCII weeks texts it compares.
- Strings are sequences of Unicode code points (Dafny's `char`), while JavaScript strings are UTF-16 code units. The two agree on text inside the Basic Multilingual Plane. They differ in positions, lengths and slices for characters outside it: at `indexOf` and `slice(0, -1)` in `cqu.js` line 49, and at the positions `split('')` in `cqu.js` line 54 counts.
- `parseInt` and `Number` beyond optionally signed decimal digit strings: hexadecimal, fractions, exponents and `Infinity` are not modelled. `Number` of an unusable text is `NaN` (`None`) and `NaN` is not compared further. Integers are unbounded, so the 2^53 precision limit is not modelled.
- The dead `?? 0` after `Number(...)` in `cqu.js` lines 52-53 cannot apply, since `Number` never gives `null`, and is not modelled.
- The falsy test of `convertToSemesterStartDate` is modelled as `None` for every falsy value: the model receives the text of a value that is truthy.
- WakeUp.NormaliseNodes: a fractional positive count (where `Array.from` takes the length `ToLength`) is not modelled; the count is an integer.
- WakeUp.TaughtIn: `startWeek`, `endWeek` and `type` are taken as integers; non-integer JSON numbers are not modelled.
- HnvccFields.ParseWeeks: `parseInt` on a part of a range that is not a number gives `NaN`, and then the loop pushes nothing; the model writes this as a token that names no week.
- Cqu.AccessToken: `getItem` returning `null` makes `replaceAll` raise a `TypeError`; the model gives `None` instead of raising.
- Cqu.StudentId: a page without the user-name element makes `querySelector` give `null` and the source raise; the model receives the label text.
- Cqu.TeacherNameSpec: for a name without `-` whose last character lies outside the Basic Multilingual Plane, `slice(0, -1)` drops only the low surrogate and leaves a lone high surrogate; the model drops the whole character.
- Cqu.TeacherName: `indexOf('-')` and the slice bound count UTF-16 code units in the source and code points in the model; the prefix before the first `-` is the same text either way.
- Cqu.TeachingWeeks: a `teachingWeek` text holding a character outside the Basic Multilingual Plane gives each later `1` a week number higher in the source than in the model, by one for every such character before it.
