# Chore tracker: recurrence engine, list handlers, colour picker and chore editor

A Dafny model of the core of a small office chore tracker (a React application).
Chores carry a due date and a repetition rule. The rule is none, every `interval`
days, or every `interval` weeks on selected weekdays, with an optional end date.
Each render expands the chores into dated instances for the month on show, and
each instance records whether that date was ticked off. The model covers:

- `recurrence.ts`, the recurrence engine. Module `RecurrenceEngine`, file `recurrence.dfy`:
  - `getChoreInstancesForMonth` and `generateRecurringDates`: the daily walk, the weekly day scan and the window clipping. These are methods with their loops, proved equal to a day-by-day reference definition (`RecurringDates`, `ChoreDates`, `MonthInstances`).
  - `getNextOccurrence`: the 365-day forward search, a method proved against the predicate `IsNextOccurrence`.
- `App.tsx`, the application shell. Module `App`, file `app.dfy`:
  - The handlers that replace the chore and member lists: add, update, delete, toggle completion, add member, remove member. Update, delete, toggle and remove member compute the new list with a function; add and add member append to the list. Class `ChoreBoard` holds both lists and its methods make these changes.
  - The view filter (category, priority, assignee, with `'all'`) and the per-day list.
- `storage.ts`, the palette `COLORS` and `getNextColor`. Module `Storage`, file `storage.dfy`.
- `ChoreForm.tsx`, the chore editor. Module `ChoreForm`, file `chore_form.dfy`:
  - the record `handleSubmit` builds, with `String.prototype.trim` written out;
  - the controls loaded for an edit;
  - the interval fallback `parseInt(v) || 1`;
  - `toggleDayOfWeek`.
- Shared records: `types.ts` in `types.dfy`. The list primitives `filter`, `map` and the include/remove toggle are in `seqs.dfy`.

Dates are day numbers. Day 0 is 1970-01-01, a Thursday, and day 19723 is Monday
2024-01-01. A stored `yyyy-MM-dd` string is identified with its day number. The
weekday of day `d` is `(d + 4) % 7`, with 0 for Sunday.

JavaScript's `a % b === 0` is modelled as `RemainderIsZero`. It is false when `b`
is 0, because `x % 0` is `NaN`. Otherwise it is divisibility, which holds whatever
the sign of `b`. `Math.floor((d - due) / 7)` is Dafny's `(d - due) / 7`, which rounds
down for a positive divisor.

Inputs the source reads from the environment are parameters:
- the month window `[monthStart, monthEnd]`;
- the generated id and the current time (`freshId`, `now`);
- "today" for a new form.

## Model

| member | source | states |
|---|---|---|
| RecurrenceEngine.Weekday | chore-app/src/utils/recurrence.ts:102 | `getDay`: a weekday from 0 (Sunday) to 6 (Saturday), counted from Thursday 1970-01-01 as day 0 |
| RecurrenceEngine.RemainderIsZero | chore-app/src/utils/recurrence.ts:111 | definition: `x % interval === 0` holds iff the interval is non-zero (a remainder by zero is NaN) and divides x |
| RecurrenceEngine.JsRemainder | chore-app/src/utils/recurrence.ts:145 | JavaScript's truncating `%`: the remainder is smaller in magnitude than the divisor and has the sign of the dividend |
| RecurrenceEngine.JsRemainderDivides | chore-app/src/utils/recurrence.ts:145 | what JavaScript's `%` leaves off is a multiple of the divisor, so `JsRemainder` is a remainder |
| RecurrenceEngine.RemainderIsZeroMatchesJs | chore-app/src/utils/recurrence.ts:111 | the source's `% interval === 0` test (here and at line 145) holds exactly when `RemainderIsZero` does, whatever the signs of the operands |
| RecurrenceEngine.WithinEnd | chore-app/src/utils/recurrence.ts:106 | definition of the end-date test (also line 137): a day passes when the rule has no end date or the day is not after it |
| RecurrenceEngine.RecurringDay | chore-app/src/utils/recurrence.ts:89-113 | definition of the expansion's day test: daily, on or after the anchor, within the end date and a whole number of steps after the anchor; weekly, a selected weekday on or after the anchor and within the end date whose week index is a multiple of the interval or the interval is 1 |
| RecurrenceEngine.Expandable | chore-app/src/utils/recurrence.ts:82-97 | definition of the inputs on which the daily walk is proved to end and to equal the reference: a daily chore whose clipped window is non-empty has an interval of at least 1 |
| RecurrenceEngine.EffectiveStart | chore-app/src/utils/recurrence.ts:73 | the clipped window starts at the later of the window start and the anchor |
| RecurrenceEngine.EffectiveEnd | chore-app/src/utils/recurrence.ts:74 | the clipped window ends at the earlier of the window end and the end date; it is never past the end date |
| RecurrenceEngine.RecurringDates | chore-app/src/utils/recurrence.ts:63-120 | reference definition: a day is listed iff it lies in the window and the rule makes it due; every listed day lies in the clipped window; the list is strictly ascending |
| RecurrenceEngine.IsDue | chore-app/src/utils/recurrence.ts:28-41 | definition of the per-chore day test: a non-recurring chore is due only on its due date, a recurring one on the days of its rule |
| RecurrenceEngine.ChoreDates | chore-app/src/utils/recurrence.ts:28-57 | the dates a chore is emitted on are exactly the due days of the window, ascending and distinct; a non-recurring chore has one date iff its due date is in the window, otherwise none |
| RecurrenceEngine.Instance | chore-app/src/utils/recurrence.ts:50-55 | an instance is completed iff its date is in the chore's completedDates |
| RecurrenceEngine.InstancesOf | chore-app/src/utils/recurrence.ts:49-56 | one instance per date, in the order of the dates |
| RecurrenceEngine.ClipToEffectiveRange | chore-app/src/utils/recurrence.ts:73-78 | clipping the window to [max(start, anchor), min(end, endDate)] changes no result; an empty clipped window yields no dates |
| RecurrenceEngine.GenerateRecurringDates | chore-app/src/utils/recurrence.ts:63-120 | the expansion returns exactly the reference dates of the window, for daily and weekly rules, on every input `Expandable` admits |
| RecurrenceEngine.SkipToWindow | chore-app/src/utils/recurrence.ts:81-88 | the first daily loop stops on the first step from the anchor that is on or after the clipped window's start, the step before it lying before that start |
| RecurrenceEngine.WalkDaily | chore-app/src/utils/recurrence.ts:80-97 | walking from the anchor in steps of `interval` days and collecting the steps inside the clipped window yields every due day of the window, none omitted however far the window lies after the anchor |
| RecurrenceEngine.ScanWeekly | chore-app/src/utils/recurrence.ts:98-117 | testing each day of the clipped window for weekday, anchor, end date and week index yields exactly the reference dates |
| RecurrenceEngine.MonthInstances | chore-app/src/utils/recurrence.ts:16-61 | reference definition of the month's instances: chore by chore in input order, each chore's instances on its due days of the window in date order (its properties are stated by MonthInstancesMembership and MonthInstancesAppend) |
| RecurrenceEngine.GetChoreInstancesForMonth | chore-app/src/utils/recurrence.ts:16-61 | the instances are those of the reference definition: chore by chore in input order, each chore's dates ascending |
| RecurrenceEngine.AddChoreInstances | chore-app/src/utils/recurrence.ts:25-57 | one pass over a chore appends exactly that chore's instances of the window, in date order, after those already collected |
| RecurrenceEngine.MonthInstancesMembership | chore-app/src/utils/recurrence.ts:24-58 | an instance is emitted iff its chore is an input chore, its date lies in the window and the chore is due that day, and its completion flag equals membership of the date in completedDates |
| RecurrenceEngine.MonthInstancesAppend | chore-app/src/utils/recurrence.ts:24-58 | the instances of a concatenation of chore lists are the concatenated instances: output order follows input order |
| RecurrenceEngine.SingleChoreInstances | chore-app/src/utils/recurrence.ts:28-40 | a single chore contributes its dates in order; a non-recurring one yields exactly one instance iff its due date lies in the window |
| RecurrenceEngine.DailyDatesAreSteps | chore-app/src/utils/recurrence.ts:80-97 | a daily chore with interval at least 1 is emitted on d iff d lies in the clipped window and d = dueDate + k * interval for some k >= 0 |
| RecurrenceEngine.WeeklyDates | chore-app/src/utils/recurrence.ts:98-117 | a weekly chore is emitted on d iff d lies in the clipped window, its weekday is selected, and its week index since the anchor is a multiple of the interval or the interval is 1; no selected weekday gives no dates |
| RecurrenceEngine.MondaysWithinMonth | chore-app/src/utils/recurrence.ts:102 | within the 31 days from a Monday the Mondays are the days at offsets 0, 7, 14, 21 and 28 |
| RecurrenceEngine.MondaysOfMonth | chore-app/src/utils/recurrence.ts:98-117 | a weekly Monday chore anchored on a Monday is emitted on the five Mondays of the 31 days from the anchor |
| RecurrenceEngine.AlternateMondaysOfMonth | chore-app/src/utils/recurrence.ts:108-113 | with interval 2, only the Mondays with week index 0, 2 and 4 remain |
| RecurrenceEngine.January2024 | chore-app/src/utils/recurrence.ts:98-117 | 2024-01-01 is a Monday; in January 2024 a Monday chore from that day falls on the 1st, 8th, 15th, 22nd and 29th, and an every-other-week one on the 1st, 15th and 29th |
| RecurrenceEngine.EveryThirdDayWindow | chore-app/src/utils/recurrence.ts:80-97 | every third day from an anchor, over offsets 9 to 19: offsets 9, 12, 15 and 18 |
| RecurrenceEngine.March2024 | chore-app/src/utils/recurrence.ts:80-97 | every third day from 2024-03-01, inside 2024-03-10 to 2024-03-20: the 10th, 13th, 16th and 19th |
| RecurrenceEngine.SearchHit | chore-app/src/utils/recurrence.ts:141-152 | definition of the search's day test: a daily chore when the days since the anchor are a multiple of the interval, a weekly chore on any selected weekday whatever the interval, a non-recurring chore never |
| RecurrenceEngine.FirstHit | chore-app/src/utils/recurrence.ts:134-156 | definition: the result is the first day of the 365 after the start that passes the day test, with no day past the end date before it; none when no such day exists |
| RecurrenceEngine.SearchStart | chore-app/src/utils/recurrence.ts:132 | the search starts from the later of the reference day and the anchor |
| RecurrenceEngine.IsNextOccurrence | chore-app/src/utils/recurrence.ts:122-157 | definition of `getNextOccurrence`'s result: a non-recurring chore gives its due date iff it is after the reference day; a recurring one gives the first hit after `SearchStart` |
| RecurrenceEngine.ScanForward | chore-app/src/utils/recurrence.ts:132-156 | the forward scan returns the first day of the following 365 that passes the day test, stopping with none once a day past the end date is reached |
| RecurrenceEngine.GetNextOccurrence | chore-app/src/utils/recurrence.ts:122-157 | a non-recurring chore gives its due date iff it is after the reference day; a recurring chore gives the first hit after max(afterDate, dueDate); any result is after the reference day, and after the anchor for a recurring chore |
| RecurrenceEngine.NextOccurrenceUnique | chore-app/src/utils/recurrence.ts:122-157 | the search result is determined by its specification |
| RecurrenceEngine.NextOccurrenceSkipsDueDate | chore-app/src/utils/recurrence.ts:132-135 | counterexample: a daily chore due on day 10, searched after day 5, is reported on day 11 though it is due on day 10 |
| RecurrenceEngine.WeeklySearchIgnoresInterval | chore-app/src/utils/recurrence.ts:146-151 | the search reports Monday 2024-01-08 for an every-other-Monday chore anchored 2024-01-01, a day on which the calendar does not show it |
| RecurrenceEngine.CorrectedSearchStart | chore-app/src/utils/recurrence.ts:132 | corrected start: the anchor itself is tested when the reference day precedes it; otherwise it matches the program |
| RecurrenceEngine.GetNextOccurrenceFromDueDate | chore-app/src/utils/recurrence.ts:122-157 | the corrected search: any result lies after the reference day and on or after the anchor |
| RecurrenceEngine.NextOccurrenceIsEarliest | chore-app/src/utils/recurrence.ts:122-157 | with the corrected start, for daily chores with interval ≥ 1 and weekly chores repeating every week, the reported day is due, and no earlier day after the reference day is; it is the only date the calendar shows between the two |
| RecurrenceEngine.NoNextOccurrenceMeansNoneDue | chore-app/src/utils/recurrence.ts:134-156 | with the corrected start, no result means the chore is due on no day of the searched year, for every chore of every kind and interval |
| Seqs.Filter | chore-app/src/App.tsx:62 | `Array.prototype.filter`: an element is kept iff it is in the input and passes the test, and the result is no longer than the input |
| Seqs.Map | chore-app/src/App.tsx:56 | `Array.prototype.map`: the result has the input's length and holds the image of each element at its position |
| Seqs.FilterAppend | chore-app/src/App.tsx:62 | filtering a concatenation concatenates the filtered parts, so `filter` keeps relative order |
| Seqs.Toggle | chore-app/src/App.tsx:72-74 | the toggled value's membership flips; every other value keeps its membership; an absent value is appended at the end |
| Seqs.ToggleKeepsNoDuplicates | chore-app/src/components/ChoreForm/ChoreForm.tsx:77-79 | a duplicate-free list stays duplicate-free under the toggle |
| Seqs.ToggleTwice | chore-app/src/App.tsx:72-74 | toggling twice restores every membership, and the list itself when the value was absent |
| App.WithUpdated | chore-app/src/App.tsx:55-56 | update keeps length, order and ids; every chore with the edited id becomes the edited chore; all others are unchanged |
| App.WithoutChore | chore-app/src/App.tsx:61-62 | delete keeps exactly the chores with another id |
| App.ToggledCompletion | chore-app/src/App.tsx:69-75 | only completedDates changes; the toggled date's membership flips and other dates keep theirs; a date not yet completed is appended at the end |
| App.WithToggled | chore-app/src/App.tsx:65-77 | the list keeps its length; chores with another id are unchanged; each matching chore becomes `ToggledCompletion` of itself: only completedDates changes, the date's membership flips and every other date keeps its membership |
| App.WithoutMember | chore-app/src/App.tsx:85 | the member list keeps exactly the members with another id |
| App.Unassigned | chore-app/src/App.tsx:86-90 | exactly the chores assigned to the removed member lose their assignee; everything else is unchanged |
| App.AddThenDelete | chore-app/src/App.tsx:50-62 | deleting a just-added chore with a fresh id restores the list |
| App.UpdateIdempotent | chore-app/src/App.tsx:55-56 | saving the same edit twice equals saving it once |
| App.UpdateThenDelete | chore-app/src/App.tsx:55-62 | deleting after an edit equals deleting alone |
| App.ToggleCompleteTwice | chore-app/src/App.tsx:65-77 | toggling the same (id, date) twice restores every date's membership and all other fields, and the chore itself when the date was absent |
| App.RemoveMemberKeepsAssigneesKnown | chore-app/src/App.tsx:84-90 | if every assignee names a member before removing a member, it still does afterwards |
| App.DeleteKeepsAssigneesKnown | chore-app/src/App.tsx:61-62 | deleting a chore keeps every assignee a member |
| App.SaveKeepsAssigneesKnown | chore-app/src/App.tsx:50-56 | adding or saving a chore assigned to a member keeps every assignee a member |
| App.Passes | chore-app/src/App.tsx:37-48 | an instance passes iff every criterion other than `'all'` equals its chore's category, priority or assignee |
| App.FilteredInstances | chore-app/src/App.tsx:37-48 | the filtered list holds exactly the instances that pass |
| App.DayInstances | chore-app/src/App.tsx:127 | the day list holds exactly the filtered instances dated on the selected day |
| App.NoFiltersIsIdentity | chore-app/src/App.tsx:29-48 | with every criterion at `'all'`, filtering changes nothing |
| App.FilterKeepsOrder | chore-app/src/App.tsx:37-48 | the filter keeps the instances' relative order |
| App.DayListMembership | chore-app/src/App.tsx:35-127 | the day list of the month view holds an instance iff its chore is stored, it is dated the selected day inside the month, the chore is due that day, it is completed iff the day is in completedDates, and it passes the filters |
| App.ChoreBoard.constructor | chore-app/src/App.tsx:22-23 | the board starts with the given chore and member lists |
| App.ChoreBoard.AddChore | chore-app/src/App.tsx:50-51 | the chore is appended; members unchanged |
| App.ChoreBoard.UpdateChore | chore-app/src/App.tsx:55-56 | the chore list becomes the updated list; members unchanged |
| App.ChoreBoard.DeleteChore | chore-app/src/App.tsx:61-62 | the chore list loses the chores with that id; members unchanged |
| App.ChoreBoard.ToggleComplete | chore-app/src/App.tsx:65-77 | the chore list becomes the toggled list; members unchanged |
| App.ChoreBoard.AddTeamMember | chore-app/src/App.tsx:80-81 | the member is appended; chores unchanged |
| App.ChoreBoard.RemoveTeamMember | chore-app/src/App.tsx:84-90 | both lists change: the member is dropped and its chores are unassigned |
| App.ChoreBoard.CalendarInstances | chore-app/src/App.tsx:35-48 | the calendar receives the filtered month instances of the stored chores |
| Storage.UsedColors | chore-app/src/utils/storage.ts:42 | the used set holds exactly the members' colours |
| Storage.GetNextColor | chore-app/src/utils/storage.ts:41-49 | the result is a palette colour; it is the first unused colour in palette order when one exists, and then differs from every member's colour; when every colour is used it is COLORS[length % 10]; with no members it is '#4CAF50'; with fewer than ten members it is always unused |
| Storage.PaletteDistinct | chore-app/src/utils/storage.ts:36-39 | `COLORS` (the constant `Storage.Colors`) holds ten pairwise different colours |
| Storage.UsedColorsBound | chore-app/src/utils/storage.ts:42 | members never use more colours than there are members |
| Storage.FreeColorWhileRoomLeft | chore-app/src/utils/storage.ts:42-46 | with fewer than ten members some palette colour is unused |
| ChoreForm.IsJsWhitespace | chore-app/src/components/ChoreForm/ChoreForm.tsx:53-58 | definition of the characters `trim` removes: the ECMAScript white-space and line-terminator characters |
| ChoreForm.TrimStart | chore-app/src/components/ChoreForm/ChoreForm.tsx:57 | the result is a suffix of the input, everything cut is white space, and it does not start with white space |
| ChoreForm.TrimEnd | chore-app/src/components/ChoreForm/ChoreForm.tsx:57 | the result is a prefix of the input, everything cut is white space, and it does not end with white space |
| ChoreForm.Trim | chore-app/src/components/ChoreForm/ChoreForm.tsx:57-58 | the trimmed text neither starts nor ends with white space |
| ChoreForm.TrimCutsOnlyWhitespace | chore-app/src/components/ChoreForm/ChoreForm.tsx:57-58 | the trimmed text is a contiguous piece of the input, with only white space cut on either side |
| ChoreForm.TrimKeepsTrimmed | chore-app/src/components/ChoreForm/ChoreForm.tsx:57-58 | a text without white space at either end is unchanged |
| ChoreForm.TrimIdempotent | chore-app/src/components/ChoreForm/ChoreForm.tsx:57-58 | trimming twice equals trimming once |
| ChoreForm.TrimEmptyIffBlank | chore-app/src/components/ChoreForm/ChoreForm.tsx:53 | a text trims to empty iff it is all white space |
| ChoreForm.NewForm | chore-app/src/components/ChoreForm/ChoreForm.tsx:23-47 | a new form has empty title, description and assignee, category other, priority medium, no recurrence with interval 1 and no weekdays, no end date, and the selected day, or else today, as due date |
| ChoreForm.NewFormSavesOneOffChore | chore-app/src/components/ChoreForm/ChoreForm.tsx:24-74 | a new form with only a non-blank title saves a non-recurring, unassigned chore without completions, due on the selected day or today; it can be expanded over any window and appears exactly in the windows holding its due date |
| ChoreForm.FormFor | chore-app/src/components/ChoreForm/ChoreForm.tsx:34-45 | editing loads the chore's title, description, category, priority, due date, recurrence type, interval, weekdays and end date; a missing assignee shows as the empty selection |
| ChoreForm.Submit | chore-app/src/components/ChoreForm/ChoreForm.tsx:51-74 | nothing is saved iff the title is blank or the due date empty. Otherwise: the texts are trimmed; an empty assignee becomes none; the rule is stored verbatim. An edit keeps completedDates, and keeps id and createdAt unless empty. A new chore gets the fresh id, no completions and the current time. |
| ChoreForm.EditWithoutChangesSavesSameChore | chore-app/src/components/ChoreForm/ChoreForm.tsx:34-74 | opening a normalised chore and saving without changes saves the same chore |
| ChoreForm.SavedChoreIsNormalised | chore-app/src/components/ChoreForm/ChoreForm.tsx:51-74 | every saved chore is normalised, so re-saving it unchanged is a fixed point |
| ChoreForm.SubmitThenEditShowsSavedValues | chore-app/src/components/ChoreForm/ChoreForm.tsx:34-74 | reopening a saved chore shows the trimmed texts and the entered assignee, dates and rule |
| ChoreForm.IntervalInput | chore-app/src/components/ChoreForm/ChoreForm.tsx:201 | an unparseable or zero input becomes 1; any other integer, negatives included, passes through; the result is never 0 |
| ChoreForm.IntervalInputExpandable | chore-app/src/components/ChoreForm/ChoreForm.tsx:195-201 | an interval from a non-negative input makes every window one on which the daily expansion is proved to end |
| ChoreForm.ToggleDayOfWeek | chore-app/src/components/ChoreForm/ChoreForm.tsx:76-80 | a selected day is removed and an unselected one appended; other days keep their membership |
| ChoreForm.ToggleDayOfWeekTwice | chore-app/src/components/ChoreForm/ChoreForm.tsx:76-80 | the selection stays duplicate-free, and pressing twice restores it |

## Left out

- Dates and times. Millisecond `Date` values, time zones, time of day and DST are not modelled; dates are whole days. This leaves out:
  - the DST shifts the millisecond differences at recurrence.ts:108-110 and 142-144 can cause;
  - the time of day carried by `afterDate`;
  - `startOfMonth` and `endOfMonth`: the window is given as two days.
- ISO date strings. Parsing and formatting are not modelled, and neither are malformed dates; a stored date string is its day number.
- GenerateRecurringDates, GetChoreInstancesForMonth, ChoreBoard.CalendarInstances: these require each daily chore whose clipped window is non-empty to have an interval of at least 1. With interval 0 the daily walk never ends; with a negative interval it ends only when the date leaves JavaScript's range, returning [] or [dueDate]. Both are excluded rather than modelled.
- Non-integer and `NaN` intervals from stored data are not modelled; the interval is an integer.
- The form's browser validation (`required`, `min`/`max` on the interval input) is not modelled.
- Persistence. `loadChores`/`saveChores`, `loadTeamMembers`/`saveTeamMembers`, the local-storage hook and the sample data are I/O.
- Id generation (`generateId`, three variants) and clock reads. These become the `freshId`, `now` and `today` parameters.
- UI-only state is not modelled:
  - the current view, selected date, form visibility and editing chore;
  - `handleEditChore` and `handleNewChore`, which only set that state;
  - all rendering, and the Calendar, ChoreList, TeamManager and Sidebar components.
- NewForm: it describes a freshly mounted editor. When the same mounted editor switches to a new chore, the source's effect resets only the due date.
- App.Passes: the `'all'` sentinel is a separate constructor `All`. The source cannot tell it from a member whose id is the string `"all"`.
- ChoreForm.Trim: strings are sequences of Unicode scalar values rather than UTF-16 code units. The white-space set is that of `String.prototype.trim`, written out.

## Findings

| source | as written | input that shows it | evidently intended | confidence | as-written member | corrected member |
|---|---|---|---|---|---|---|
| chore-app/src/utils/recurrence.ts:132-135 | a recurring chore's search starts on the day after max(afterDate, dueDate), so the due date itself is never reported | daily chore, interval 1, due on day 10, searched after day 5: returns day 11 although the chore is due on day 10 | the first occurrence after afterDate (day 10), as for a non-recurring chore | medium, not executed | RecurrenceEngine.NextOccurrenceSkipsDueDate | RecurrenceEngine.NextOccurrenceIsEarliest |

The corrected search, `GetNextOccurrenceFromDueDate`, keeps the program's day test. A
weekly search therefore still ignores the interval, as `WeeklySearchIgnoresInterval` shows for the program.
