# Advent bot: task picker, day-record store and payment handlers in Dafny

A model of the core of a seasonal Telegram bot. Parents register children. In
December, each child gets one age- and day-type-appropriate task per day.
Parents mark tasks done, view monthly statistics, and pay Stars to reroll a
day's task or to open the whole December calendar.

The model covers:

- the storage class (`models/storage.py`): children and per-day task records,
  ids, lookups, status updates, the reroll update and the monthly scan;
- the day-type classifier (`utils/calendar_logic.py`), with Python's
  `date.weekday()` computed from the proleptic Gregorian ordinal;
- the three-tier task picker (`models/task_picker.py`) and the older two-tier
  picker (`handlers/task_picker.py`);
- the timezone table (`utils/timezones.py`);
- the statistics counts (`handlers/stats.py`);
- today's task, marking it done and the reroll invoice (`handlers/tasks.py`);
- donation amount parsing, the invoice payload formats and their parsing, the
  full-calendar fill loop and the payment callback (`handlers/payments.py`).

Modules, one per concern:

- `Wrappers`: `Option` and `Result`.
- `Seqs`: a generic filter and unique keys.
- `Text`: decimal digits, `str(int)`, `int(str)`, zero padding, `split("_")`
  and `split()`.
- `Calendar`, `Timezones`, `Catalog`.
- `Records`: the pure functions behind the store.
- `Store`: `class Storage`, whose methods update its `children` and `tasks`
  sequences in place.
- `TaskPicker`, `LegacyPicker`, `Stats`, `Payloads`, `TaskHandlers`,
  `Payments`.

Inputs the source reads from outside become parameters:

- The task catalog, which the source reads from a JSON file, is the parameter
  `catalog`.
- `random.choice(tier)` is `tier[choice % |tier|]` for a parameter `choice`.
  The lemma `TaskPicker.EveryCandidateReachable` shows that every member of
  the winning tier can come out.
- The child's local date, which the source takes from the clock, is the
  parameter `today`.
- Python exceptions become outcome constructors:
  - `ValueError` from the picker;
  - a failing `int()` or `strptime`;
  - `TypeError` on a task id missing from the catalog.

  The store is left as it was at the point where Python raises.

**Code and documentation disagree on the used-task window.** The docstring of
`get_used_tasks` (`models/task_picker.py:15-18`) and the comments of the picker
say the strict tier avoids every task id used in the whole year. The comment at
`models/task_picker.py:29` says "not used THIS year", and the one at line 37
calls the second tier "ignoring repeats within the year". The code calls
`get_used_tasks` without a month, so only December (month 12) records are read.
The model follows the code: `TaskPicker.UsedTasksMonth` is 12.
`TaskPicker.OtherMonthsAreNotUsed` shows that records of other months are
ignored. `TaskPicker.DecemberOnlyStoreUsesWholeYear` shows that the two readings agree whenever the store holds only December
records. That is the case for records this code creates, since
`send_today_task` and the calendar fill only ever create December records.

## Model

| member | source | states |
|---|---|---|
| Seqs.Filter | models/storage.py:147-159 | the kept elements are exactly the elements that satisfy the predicate, in order, and there are no more than the input has |
| Seqs.FilterAppend | models/storage.py:152-158 | filtering a concatenation is the concatenation of the filtered parts, which is what a left-to-right scan relies on |
| Seqs.FilterKeepsUniqueKeys | models/storage.py:60-72 | dropping elements keeps ids unique |
| Seqs.AppendKeepsUniqueKeys | models/storage.py:82-97 | appending an element whose id is larger than every stored id keeps ids unique |
| Records.MaxKey | models/storage.py:30 | the result is one of the ids and no id is larger |
| Records.NextId | models/storage.py:26-30 | the next id is 1 for an empty list; otherwise it is one more than some stored id and larger than every stored id |
| Records.FindChild | models/storage.py:49-54 | `get_child` gives None exactly when no child has the id; otherwise it gives the first child with that id |
| Records.ChildrenOfParent | models/storage.py:56-58 | the result holds exactly the children whose parent id matches |
| Records.FindRecord | models/storage.py:99-109 | `get_task_record` gives None exactly when no record has the (child, year, month, day) key; otherwise it gives the first record with that key |
| Records.MonthRecords | models/storage.py:147-159 | the result holds exactly the records of the child, year and month |
| Records.MonthRecordsSnoc | models/storage.py:152-158 | scanning one more record extends the month's list by that record exactly when it belongs to the month |
| Records.FindRecordAppend | models/storage.py:99-109 | a lookup in `a + b` gives the first match of `a`, or else the first match of `b` |
| Records.AddedRecordIsFound | models/storage.py:82-97 | after a record is appended for a key that had none, the lookup gives that record, with status "new" and the given task |
| Records.AppendKeepsFirstMatch | models/storage.py:82-109 | appending never hides an existing record of the same key |
| Records.AddedChildIsFound | models/storage.py:26-54 | a child added under the next id is found by `get_child` |
| Records.DeleteChildCascades | models/storage.py:60-72 | after deletion the child is gone and no record of it remains in any month; every other child and record is kept |
| Records.FindAfterSetStatus | models/storage.py:111-124 | after `set_task_status`, the lookup gives the old record with the new status, or None if there was none |
| Records.FindAfterReplaceTaskId | models/storage.py:126-143 | after `update_task_id`, the lookup gives the old record with the new task id and status "new" |
| Records.SetStatusTouchesOnlyMatches | models/storage.py:115-122 | only records at the key change, and only in their status; with no match nothing changes |
| Records.ReplaceTaskIdTouchesOnlyMatches | models/storage.py:131-140 | only records at the key change, and only in task id and status (reset to "new" even from "done"); with no match nothing changes |
| Store.Storage.constructor | models/storage.py:12-18 | a new store has no children and no records, and ids are unique |
| Store.Storage.AddChild | models/storage.py:32-48 | appends the child under the next id, which is larger than every old id; the new child is then found; records are untouched; id uniqueness is preserved |
| Store.Storage.DeleteChild | models/storage.py:60-72 | removes the child and all of its records; afterwards `get_child` gives None and every month of the child is empty |
| Store.Storage.GetChild | models/storage.py:49-54 | None exactly when no stored child has the id; otherwise a stored child with that id, and while ids are unique (`Valid`) the only one |
| Store.Storage.GetChildrenByParent | models/storage.py:56-58 | exactly the stored children of that parent |
| Store.Storage.AddTaskRecord | models/storage.py:82-97 | appends a record with status "new" under an id larger than every old record id; children are untouched |
| Store.Storage.GetTaskRecord | models/storage.py:99-109 | None exactly when no stored record has the (child, year, month, day) key; otherwise a stored record at that key |
| Store.Storage.SetTaskStatus | models/storage.py:111-124 | the loop leaves the records equal to `SetStatusAll` of the old records |
| Store.Storage.UpdateTaskId | models/storage.py:126-143 | the loop leaves the records equal to `ReplaceTaskIdAll` of the old records; the result is true exactly when a record had the key |
| Store.Storage.GetTaskRecordsForChild | models/storage.py:147-159 | the loop collects exactly `MonthRecords`, in stored order |
| Store.Storage.GetChildMonthRecords | models/storage.py:161-166 | the same list, holding exactly the child's records of that month |
| Calendar.DaysInMonth | utils/calendar_logic.py:4-20 | every month has 28 to 31 days |
| Calendar.DayOfWeek | utils/calendar_logic.py:18 | `date.weekday()` lies in 0..6 |
| Calendar.NextDay | utils/calendar_logic.py:18 | the day after a valid date is valid |
| Calendar.DaysInYear | utils/calendar_logic.py:18 | a year has 366 days when it is a leap year and 365 otherwise |
| Calendar.MonthsAreContiguous | utils/calendar_logic.py:18 | each month starts right after the previous one ends |
| Calendar.OrdinalOfNextDay | utils/calendar_logic.py:18 | consecutive dates have consecutive ordinals |
| Calendar.WeekdayOfNextDay | utils/calendar_logic.py:18 | the weekday advances by one, modulo 7, from one day to the next |
| Calendar.GetDayType | utils/calendar_logic.py:4-20 | five if-and-only-if clauses: 24, 25 and 31 December are tagged as holidays; otherwise Saturday and Sunday are weekend and the rest are weekdays |
| Calendar.IsDecember | utils/calendar_logic.py:23-24 | true exactly for month 12; a valid December date has a day in 1..31, the days the calendar fill walks |
| Calendar.NonDecemberHasNoHolidayTag | utils/calendar_logic.py:12-20 | outside December only weekend or weekday occur |
| Calendar.DayTypeDependsOnMonthDayWeekday | utils/calendar_logic.py:12-20 | the tag depends only on month, day and weekday |
| Calendar.ChristmasDay2025 | utils/calendar_logic.py:14-15 | 25 December 2025 is a Thursday and is tagged christmas_day |
| Calendar.ChristmasEveOnSaturday | utils/calendar_logic.py:12-13 | 24 December 2022 is a Saturday and is still tagged christmas_eve, not weekend |
| Calendar.SaturdaySixthDecember2025 | utils/calendar_logic.py:18-19 | 6 December 2025 is tagged weekend |
| Timezones.Labels | utils/timezones.py:11-12 | one label per table entry, in table order |
| Timezones.TimezoneLabels | utils/timezones.py:11-12 | `get_timezone_labels()` lists the six labels in table order |
| Timezones.OffsetIn | utils/timezones.py:15-19 | the offset of the first entry with the label, or 0 when no entry has it |
| Timezones.OffsetByLabel | utils/timezones.py:15-19 | an offered label gives its entry's offset; any other label gives 0 |
| Timezones.LabelsAreDistinct | utils/timezones.py:1-8 | no two entries share a label |
| Timezones.OffsetOfEveryLabel | utils/timezones.py:1-19 | every offered label maps back to its own entry's offset |
| Timezones.UnknownLabelIsUtc | utils/timezones.py:19 | an unknown label falls back to UTC (offset 0) |
| Timezones.OffsetsInRange | utils/timezones.py:1-8 | every offset lies between UTC-5 and UTC+7 |
| Catalog.FindTask | handlers/tasks.py:95-96 | `next(t for t in tasks if t["id"] == ...)` gives None exactly when no task has the id; otherwise it gives a catalog task with that id |
| Catalog.FindOwnTask | handlers/tasks.py:95-96 | with unique ids, looking up a catalog task's id gives that task |
| TaskPicker.UsedTasks | models/task_picker.py:15-18 | an id is used exactly when some record of the child in that year and month carries it |
| TaskPicker.PickFrom | models/task_picker.py:29-49 | fails with `NoTasksForAge` exactly when no task covers the age; otherwise the pick is a catalog task covering the age; it suits the day type and is unused whenever such a task exists; it has the day type whenever a task of that type covers the age |
| TaskPicker.PickTask | models/task_picker.py:21-49 | for the child's date, with the used ids taken from the child's December records of that year: fails exactly when no task covers the age; the pick covers the age; it is unused and suits the day type whenever such a task exists; it has the day type whenever a task of that type covers the age |
| TaskPicker.PickIndexesWinningTier | models/task_picker.py:46-49 | the pick is the choice-th member of the first non-empty tier |
| TaskPicker.EveryCandidateReachable | models/task_picker.py:49 | every member of the winning tier is returned for some choice |
| TaskPicker.PickIsFromWinningTier | models/task_picker.py:29-49 | every successful pick is a member of the winning tier |
| TaskPicker.OtherMonthsAreNotUsed | models/task_picker.py:15-18 | adding a record of a month other than December does not change the used ids |
| TaskPicker.DecemberOnlyStoreUsesWholeYear | models/task_picker.py:15-18 | when every record is in December, the December used ids equal the whole year's used ids |
| TaskPicker.ChristmasScenario | models/task_picker.py:29-40 | for an 8-year-old on 25 December 2025, with some christmas_day task for that age, the pick succeeds and is a christmas_day task |
| LegacyPicker.PickTask | handlers/task_picker.py:17-35 | fails exactly when no task covers the age; prefers an unused task of the day type; when there is none, it picks from all tasks of the age |
| LegacyPicker.LegacyMayIgnoreDayType | handlers/task_picker.py:21-30 | on Saturday 6 December 2025, with the only weekend task used, the legacy picker gives a weekday task while the three-tier picker keeps the weekend task |
| LegacyPicker.LegacyPicksWeekdayTask | handlers/task_picker.py:29-35 | the legacy half of that scenario |
| LegacyPicker.TieredPicksWeekendTask | models/task_picker.py:37-40 | the three-tier half of that scenario |
| Stats.CountDone | handlers/stats.py:29 | the number of "done" records equals the length of the filtered list and is at most the total |
| Stats.MonthName | handlers/stats.py:32 | the name is "декабрь" exactly for month 12; otherwise it is `str(month)` |
| Stats.BuildStats | handlers/stats.py:26-32 | total is the size of the child's month, done counts its "done" records, in-progress is the difference, and 0 <= done <= total |
| Stats.OneDoneRecord | handlers/stats.py:26-30 | a month with no records, after one record is added and marked done, reports one task given and one done |
| Text.NatToStringRoundTrip | handlers/payments.py:243 | reading the decimal digits of `str(n)` gives back `n` |
| Text.IntRoundTrip | handlers/payments.py:283 | `int(str(i)) == i`, negative numbers included |
| Text.PadDigitsValue | handlers/tasks.py:251 | zero padding to a width keeps the value when the value fits in that width |
| Text.SplitAfterField | handlers/payments.py:282 | splitting at the separator after an underscore-free field yields that field followed by the split of the rest |
| Text.Words | handlers/payments.py:239 | `split()` yields non-empty words without separators |
| Text.WordsAroundSpace | handlers/payments.py:239 | a whitespace character splits the text in two: the words of the whole are the words before it followed by the words after it |
| Text.WordsOfBlank | handlers/payments.py:239 | a text of whitespace only has no words |
| Text.WordsOfWord | handlers/payments.py:239 | a non-empty text without whitespace is one word; with the two lemmas above this fixes `split()` on every input |
| Text.WordsOfSpacedWord | handlers/payments.py:239 | a word followed by a space splits off as the first word |
| Payloads.EncodeDate | handlers/tasks.py:251 | `strftime('%Y%m%d')` gives eight digits |
| Payloads.DecodeDate | handlers/payments.py:285 | `strptime` gives only valid dates |
| Payloads.DateRoundTrip | handlers/payments.py:285 | `strptime(strftime(d)) == d` |
| Payloads.RerollInvoice | handlers/payments.py:105-118 | the reroll invoice costs 50 Stars; its payload starts with `reload_task_{id}_`, is eight characters longer than that prefix, and parses back to the child id and the date |
| Payloads.CalendarInvoice | handlers/payments.py:166-190 | the calendar invoice costs 100 Stars; its payload starts with `full_calendar_` and parses back to the child id and the year |
| Payloads.DonationInvoice | handlers/payments.py:257-264 | the donation invoice charges the donated amount and its payload starts with `donation_` |
| Payloads.ParseRerollPayload | handlers/payments.py:281-286 | a parse succeeds only with at least four `_`-fields; the id is `int` of the third field and the date is valid |
| Payloads.ParseCalendarPayload | handlers/payments.py:313-316 | succeeds exactly when there are four or more fields and the third and fourth are integers, which become the id and the year |
| Payloads.ParseDonationPayload | handlers/payments.py:325-326 | None with fewer than two fields; otherwise `int` of the second field |
| Payloads.RerollPayloadRoundTrip | handlers/payments.py:281-286 | the callback's parsing of a reroll payload gives back the child id and the date |
| Payloads.CalendarPayloadRoundTrip | handlers/payments.py:313-317 | the callback's parsing of a calendar payload gives back the child id and the year |
| Payloads.DonationPayloadRoundTrip | handlers/payments.py:325-326 | the callback's parsing of a donation payload gives back the amount |
| TaskHandlers.ReplyForRecord | handlers/tasks.py:84-113 | an existing record answers "already done" exactly when its status is "done"; it answers "task not found" exactly when it is not done and no catalog task has its id; otherwise, when it is not done and the catalog has its task id, the catalog's task with that id is shown |
| TaskHandlers.SendTodayTask | handlers/tasks.py:62-119 | outside December: no change. An existing record: no change, and the reply follows `ReplyForRecord`. Otherwise: either the picker fails and nothing changes, or the picked task is appended as a new record and shown |
| TaskHandlers.NewRecordShowsSameTaskAgain | handlers/tasks.py:84-106 | once today's record was created, asking again shows the same task |
| TaskHandlers.MarkDoneForChild | handlers/tasks.py:167-195 | without today's record: "no task" and no change; otherwise every record of today gets status "done" |
| TaskHandlers.MarkedDayAnswersAlreadyDone | handlers/tasks.py:84-92 | after marking today done, today's task answers "already done" |
| TaskHandlers.SendRerollInvoice | handlers/tasks.py:248-261 | the reroll invoice costs 50 Stars and its payload parses back to the child and the child's date |
| Payments.FirstNumber | handlers/payments.py:237-245 | None exactly when no word is all digits; otherwise the value of the first all-digit word |
| Payments.ParseDonationAmount | handlers/payments.py:237-245 | None exactly when no whitespace-separated word of the text is all digits; otherwise the value of the first such word |
| Payments.DonationAccepted | handlers/payments.py:248-256 | the text is accepted exactly when its parsed amount is one of the packs 200, 500 and 1000 |
| Payments.ButtonAmountParses | handlers/payments.py:225-245 | the amount on a "⭐ N Stars" button is the amount parsed from it |
| Payments.ButtonAcceptedIffPack | handlers/payments.py:248-256 | a button's amount is accepted exactly when it is one of 200, 500 and 1000 |
| Payments.EmptyDecemberMissesEveryDay | handlers/payments.py:203-209 | a December with no records of the child misses all 31 days |
| Payments.FillSkipsRecordedDay | handlers/payments.py:205-207 | a day that already has a record had it before the fill; nothing is added and the day counts as done |
| Payments.FillAddsMissingDay | handlers/payments.py:207-210 | adding the picked record of a day that had none completes that day, one record per missing day |
| Payments.UncataloguedRecordIsOld | handlers/payments.py:207-211 | a day record whose task id is not in the catalog was stored before the fill, since the fill only adds catalog tasks |
| Payments.FillCompletes | handlers/payments.py:203-214 | after the whole loop every December day has a record, the records added equal the days that were missing, and an empty December gets 31 |
| Payments.RecordForDay | handlers/payments.py:204-210 | a day that has a record keeps the store as it is and returns that record; a missing day gets exactly one appended record whose task is the picker's result for that date, child and stored records (so it covers the child's age); None only when no catalog task covers the age, and then nothing changes |
| Payments.FillDecember | handlers/payments.py:203-214 | the day loop for a known child and a valid year stops only with a failed pick, a missing catalog task or a full fill. Each stop states its cause, as for `HandleFullCalendar`. Every added record names a catalog task covering the child's age |
| Payments.HandleFullCalendar | handlers/payments.py:193-216 | an unknown child or an invalid year changes nothing. Otherwise only missing December days are added, each once, in day order, with a catalog task, and every earlier day has a record. The fill stops early only when no task covers the child's age, or when a stored record names a task missing from the catalog. When the age is covered and every old record names a catalog task, it fills all 31 days. Every added record names a catalog task that covers the child's age |
| Payments.SuccessfulPayment | handlers/payments.py:277-337 | a reroll payload re-picks the day's task with `update_task_id`; an unknown child, a failed pick or a malformed payload changes nothing; a calendar payload runs the fill; donation and other payloads change nothing |
| Payments.RerollReplacesTask | handlers/payments.py:296-302 | after a paid reroll the day's record carries the new task with status "new" |

## Left out

- File I/O: the JSON document of `Storage`, its `_load`/`_save`, and `load_tasks`. The store is its two lists in memory; the catalog is a parameter.
- Missing keys in stored JSON objects (`c.get("id", 0)` and similar defaults). Every modelled record has all its fields.
- Telegram: aiogram routing, the FSM child-selection handlers, keyboards, message texts, `text.format(name=...)`, the rendering of the calendar text with its ✅/⏳ marks, and `process_pre_checkout_query`.
- The clock: `get_child_today`, `datetime.date.today()`. The date is the parameter `today`. The payments copy of `send_reroll_invoice` uses the server date and the tasks copy uses the child's local date; both build the same payload from whatever date they receive.
- `random.choice` is the parameter `choice`; there is no probability model.
- Unicode: `str.isdigit()` and `int()` accept non-ASCII digits, and `str.split()` splits on all Unicode whitespace. The model uses ASCII digits and ASCII whitespace.
- `int()` leniency: a leading `+`, surrounding whitespace and digit-group underscores are not modelled. The split at `_` keeps underscores out of the fields anyway.
- `strptime` leniency: `%m`/`%d` with a single digit are not modelled. Only exactly eight digits are accepted.
- `strftime('%Y')` for years below 1000 pads to four digits in the model. Some C libraries do not pad.
- `process_donation`'s message filter (text starts with "⭐ " and ends with "Stars") belongs to the router; `Payments.DonationAccepted` models the amount check that follows it.
- Payments.SuccessfulPayment: the calendar branch states only that the fill keeps the old records as a prefix and, when it completes, covers every December day. The full fill contract is on `Payments.HandleFullCalendar`.
- Concurrency between handlers, and payment delivery being "exactly once", are not modelled.
- Duplicate records for one day are possible in the source. `add_task_record` does not check for them, and the model keeps that behaviour. Lookups return the first match; status and task updates touch every match.
- `handlers/children.py`, `handlers/start.py`, `main.py` and `config.py` are not part of this model.
