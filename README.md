# StudyFlow planner core in Dafny

StudyFlow is a single-page study planner (`script.js`). Most of the file is
page rendering and chart glue. This project models the data layer that
remains once that is set aside:

- the `StudyPlanner` object of one logged-in user. It holds the task list,
  the 20-entry activity timeline, the settings, a copy of the browser store,
  the Pomodoro timer state and its interval handle;
- the task operations on that object: add, toggle, delete, edit, and the
  filter/sort view of `renderTasks`, which, for the `all` filter, sorts the
  stored list in place;
- the statistics: the counters and the study streak. The streak is modelled
  exactly as written, and a corrected version is proved beside it;
- the Pomodoro state machine (start, tick, pause, reset, complete, duration
  edits);
- the pure helpers: `formatTimeLeft`, the timer display split, the
  per-user storage keys, and the settings read-modify-write;
- `AuthManager`'s e-mail check, the ordered sign-up checks with the append of
  a new user, login, and logout.

Timestamps are integers (milliseconds since the epoch). A calendar day is the
timestamp divided by 86 400 000. The clock, the `setInterval` handle, the
`confirm()` answers and the values of the filter and sort selectors are
parameters of the operations that use them. JavaScript's array sort is stable,
so each sort is modelled as a stable insertion sort
(`Views.SortBy`, with `Views.SortStable`). The browser store is a map from key
to a typed document (`Storage.Store`).

Modules: `Wrappers` (Option, Result), `Text` (JavaScript white space, `trim`,
decimal rendering), `Tasks`, `Timeline`, `Views`, `Streak`, `Format`,
`Pomodoro`, `Storage`, `Auth`, `Planner`.

## Model

| member | source | states |
|---|---|---|
| Text.TrimIsSlice | script.js:559-560 | `trim` returns a contiguous slice of its input, with only white space cut from either end |
| Text.TrimEnds | script.js:559-560 | a non-empty trimmed string neither starts nor ends with white space |
| Text.TrimEmptyIffAllSpace | script.js:567 | the trimmed title is empty exactly when the typed title is all white space, which is the case `!title` rejects |
| Text.Utf16Length | script.js:93 | `length` counts UTF-16 code units: between one and two per character, and one per character inside the Basic Multilingual Plane |
| Text.Utf16LengthConcat | script.js:93 | the code-unit length of a concatenation is the sum of the two lengths |
| Text.AstralCharIsTwoUnits | script.js:93 | a single emoji outside the Basic Multilingual Plane has length 2 |
| Text.NatToStringRoundTrip | script.js:575 | `Date.now().toString()` is a digit string with no leading zero that reads back as the same number |
| Tasks.FindIndex | script.js:600 | `find` by id gives the first task with that id, and finds nothing exactly when no task has it |
| Tasks.Toggled | script.js:602-603 | toggling flips `completed`, sets `completedAt` to now when completing and clears it when reopening, and changes no other field |
| Tasks.ToggleTwice | script.js:599-606 | toggling twice restores `completed`; a task that was open comes back with no completion time |
| Tasks.ToggleKeepsConsistent | script.js:599-606 | toggling one task keeps "`completedAt` is set iff `completed`" true across the whole list |
| Tasks.RemoveId | script.js:627 | `filter(t => t.id !== id)` leaves no task with that id and never grows the list |
| Tasks.RemoveIdAbsent | script.js:627 | deleting an id no task has returns the list unchanged |
| Tasks.RemoveIdPresent | script.js:627 | deleting a present id shrinks the list |
| Tasks.RemoveIdConcat | script.js:627 | deletion distributes over concatenation, so the surviving tasks keep their relative order |
| Tasks.RemoveIdCount | script.js:627 | every task without the id keeps its exact multiplicity; every task with it is gone |
| Tasks.ConsistentSubMultiset | script.js:599-606 | "`completedAt` is set iff `completed`" holds of every list whose tasks are among those of a list where it holds, whatever their order |
| Tasks.ConsistentByMultiset | script.js:664-690 | two lists with the same tasks in any order satisfy the record invariant together or not at all, so sorting cannot break it |
| Tasks.AppendKeepsConsistent | script.js:576-586 | appending a consistent task to a consistent list keeps the record invariant |
| Tasks.RemoveIdKeepsConsistent | script.js:627 | removing the tasks with an id keeps the record invariant |
| Timeline.Prepend | script.js:1225-1235 | `unshift` then `slice(0, 20)`: the new entry is at index 0, the old entries follow in order, and the length is min(old + 1, 20) |
| Timeline.PrependAllKeepsNewest | script.js:1233-1234 | after any series of appends to a log of at most 20, the log is the appends newest first followed by the old log, cut to 20 |
| Timeline.TwentyFiveAppends | script.js:1233-1234 | after 25 appends to an empty log, exactly the last 20 remain, newest first |
| Views.Select | script.js:664-677 | each filter keeps only the tasks matching it |
| Views.SelectCount | script.js:664-677 | a filter keeps every occurrence of a matching task and drops non-matching ones: the filter is exactly the list's matching sub-multiset |
| Views.SelectAll | script.js:664 | the `all` filter is the list itself |
| Views.FilterOf | script.js:664-677 | the filter selector names `pending`, `completed` or `overdue`; any other value, `all` included, selects everything, as the `switch` without a default does |
| Views.PendingCompletedPartition | script.js:666-671 | the pending and completed filters split the list: together they hold every task exactly as often as the list does |
| Views.OverdueWithinPending | script.js:672-674 | every overdue task (open and due before now) is pending |
| Views.SortKeyOf | script.js:679-690 | the sort selector maps to due date, priority or creation order; due date exactly for every value other than `priority` and `created` |
| Views.SortBy | script.js:679-690 | each sort returns a permutation of its input ordered by its key (due date ascending, priority descending, creation time descending) |
| Views.SortStable | script.js:679-690 | the sort keeps the relative order of tasks with equal keys, as the stable `Array.prototype.sort` does |
| Views.View | script.js:656-690 | the rendered list holds exactly the tasks the filter selects, each as often as in the list, sorted by the chosen key, and tasks with equal keys keep their list order (stable sort); with `all` it is a permutation of the whole list |
| Views.CountCompleted | script.js:881 | the completed count is at most the number of tasks |
| Views.ComputeStats | script.js:880-883 | total is the list length, pending is total minus completed, the percentage lies in 0..100, is 0 with no task or none completed, 100 when every task is completed, and otherwise the nearest integer to 100 × completed / total (halves rounded up) |
| Views.CountCompletedIsSelect | script.js:881 | the completed count is the length of the completed filter |
| Views.StatsAgreeWithViews | script.js:880-883 | total is the list length, completed plus pending is total, and the counts equal the lengths of the completed and pending views |
| Views.RoundedPercent | script.js:883-888 | `Math.round(completed / total * 100)` computed in integers: a value in 0..100 within half a percent of the exact ratio, rounding halves up |
| Streak.NewestFirstDaysNonIncreasing | script.js:894-895 | completed tasks sorted by `completedAt` descending have non-increasing completion days |
| Streak.AsWritten | script.js:903-915 | the scan as written never counts more than the completions it visits, and never less than the count it starts from |
| Streak.StudyStreak | script.js:893-918 | the streak is at most the number of tasks with a completion time |
| Streak.StreakZero | script.js:897-915 | no completed task, or a newest completion before today, gives a streak of 0 |
| Streak.AsWrittenEveryOtherDay | script.js:903-915 | as written, the j-th counted completion lies on day `cursor + streak - 2j`, because the cursor has already moved back one day per match |
| Streak.StudyStreakEveryOtherDay | script.js:893-918 | the streak is at most the number of completed tasks, and for every j below the streak k there is a completion on `today - 2j` |
| Streak.AsWrittenStops | script.js:903-915 | over non-increasing days, the scan as written stops at the first day of its every-other-day series that has no completion |
| Streak.StudyStreakStops | script.js:893-918 | no completion lies on `today - 2k` for the streak k shown; with `Streak.StudyStreakEveryOtherDay`, k is the first such gap |
| Streak.TwoConsecutiveDays | script.js:907-911 | completions today and yesterday give 1 as written and 2 with the intended comparison |
| Streak.ConsecutiveCounts | script.js:893-918 | with the intended comparison, over non-increasing days, every day of the run has a completion and the day after the run has none |
| Streak.CorrectedStreakIsRun | script.js:893-918 | the corrected streak is the length of the run of consecutive days, ending today, that each have a completion |
| Format.Split | script.js:865-867 | days, hours 0..23 and minutes 0..59 with `days·86400000 + hours·3600000 + minutes·60000 ≤ ms <` that plus 60000 |
| Format.Classify | script.js:862-876 | negative means overdue; otherwise the "Nd Nh", "Nh Nm" or "Nm" case is chosen by the first non-zero unit, and its numbers bound `ms` |
| Format.FormatTimeLeft | script.js:862-876 | the text is never empty, and for a due date not yet passed it shows days (ending in the hours) exactly when at least a full day is left |
| Format.OverdueIffNegative | script.js:862-876 | the text is "Overdue" exactly for a negative difference; otherwise it starts with a digit |
| Pomodoro.Display | script.js:1362-1363 | for a non-negative time, minutes and seconds (0..59) add up to it; for a negative time both come out non-positive |
| Pomodoro.DisplayOfMinusOne | script.js:1362-1363 | one second below zero, the display would read -1:-1 |
| Storage.ClearedKeys | script.js:992-997 | the three keys `clearAllData` removes are the storage keys of `tasks`, `timeline` and `settings` |
| Storage.SameUserKeysDistinct | script.js:354-356 | for one user, different logical keys give different storage keys |
| Storage.KeysSeparateUsers | script.js:354-356 | for ids without `_`, equal storage keys mean the same user and the same logical key |
| Storage.LoadSetting | script.js:410-419 | a setting is present exactly when the settings document has it; a missing document reads as empty |
| Storage.SaveSetting | script.js:421-430 | after saving, the key reads back the new value, every other setting reads as before, and every other document is unchanged |
| Auth.ValidateEmail | script.js:227-230 | an accepted address has at least 5 characters; `Auth.ValidateEmailIsPattern` equates it with the regular expression |
| Auth.ValidEmailHasOneAt | script.js:227-230 | an accepted address contains exactly one `@` |
| Auth.ValidImpliesPattern | script.js:227-230 | every string the hand-written e-mail check accepts matches `^[^\s@]+@[^\s@]+\.[^\s@]+$` |
| Auth.PatternImpliesValid | script.js:227-230 | every string matching the regular expression passes the hand-written check |
| Auth.ValidateEmailIsPattern | script.js:227-230 | the hand-written check and the regular expression accept exactly the same strings |
| Auth.Signup | script.js:86-132 | the validations run in order: a trimmed name of at least 2 UTF-16 code units, a valid e-mail, a password of at least 6 code units, a matching confirmation, an unregistered e-mail; the first failing one gives its error, and success builds the user from the trimmed name and e-mail |
| Auth.EmojiNamePassesLength | script.js:93 | a name made of one emoji is two code units long and passes the name check |
| Auth.FindUser | script.js:72 | the lookup returns the first user with that e-mail and password, or nothing when no user has both |
| Auth.Login | script.js:54-84 | login rejects an invalid e-mail, then an empty password, then unknown credentials; on success it returns the first registered user with that e-mail and password: no earlier user matches both |
| Auth.SignupKeepsEmailsUnique | script.js:116-131 | appending a newly signed-up user keeps registered e-mail addresses distinct |
| Auth.SignupThenLogin | script.js:54-132 | logging in with the same e-mail field and password right after signing up finds the new user |
| Auth.AuthManager.constructor | script.js:151-159 | a remembered user is logged in again at start-up |
| Auth.AuthManager.HandleSignup | script.js:86-140 | on success the user is appended, logged in and remembered; on failure nothing changes; distinct e-mails stay distinct |
| Auth.AuthManager.HandleLogin | script.js:54-84 | on success the user found is logged in and remembered; the user list never changes |
| Auth.AuthManager.HandleLogout | script.js:142-149 | after confirmation nobody is logged in or remembered; without it nothing changes |
| Planner.NewTask | script.js:567-584 | the new task has trimmed title and description, the clock as id and creation time, is open and has no completion time |
| Planner.Entry | script.js:1225-1231 | a log entry's id is the clock in decimal and reads back as its timestamp, with the given message and kind |
| Planner.Rendered | script.js:664-690 | after `renderTasks`, the stored list is the stable sort of the old one by the chosen key when the filter is `all`, and is left as it was for any other filter |
| Planner.RenderedKeepsConsistent | script.js:683-689 | the in-place sort of a render keeps "`completedAt` is set iff `completed`" |
| Planner.ToggleEntry | script.js:605-606 | a completion is logged as `complete`; a reopening is logged, as written, as `create` |
| Planner.KeysDistinct | script.js:354-356 | a user's tasks, timeline and settings keys are three different strings |
| Planner.StudyPlanner.constructor | script.js:271-299 | a new planner has the default timer, no handle, and the three documents loaded from the store; the first render sorts the tasks by due date |
| Planner.StudyPlanner.SaveTasks | script.js:938-946 | the tasks document holds the in-memory list and nothing else in the store changes |
| Planner.StudyPlanner.SaveTimeline | script.js:958-965 | the timeline document holds the in-memory log and nothing else in the store changes |
| Planner.StudyPlanner.SaveBoth | script.js:938-965 | after `saveTasks` and `saveTimeline`, both documents read back as the in-memory list and log |
| Planner.StudyPlanner.AddToTimeline | script.js:1225-1235 | the log becomes `Timeline.Prepend` of the old log and the new entry: at most 20 entries, the new one first |
| Planner.StudyPlanner.RenderTasks | script.js:656-690 | returns the filtered and sorted view; with `all`, the stored list becomes that view; `Valid()` is kept when it held |
| Planner.StudyPlanner.SaveAndRender | script.js:588-590 | the documents are saved before the render, so the store keeps the order from before the sort; afterwards the invariant holds again, and so does the record invariant if it held before |
| Planner.StudyPlanner.AddTask | script.js:558-597 | a blank title or missing due date changes nothing; otherwise one open task is appended at the end, one `create` entry is prepended, and both documents are saved; a list where "`completedAt` is set iff `completed`" holds keeps it |
| Planner.StudyPlanner.ToggleTask | script.js:599-622 | an unknown id changes nothing; otherwise the first task with the id is toggled, the matching entry is logged, and both documents are saved; a list where "`completedAt` is set iff `completed`" holds keeps it |
| Planner.StudyPlanner.DeleteTask | script.js:624-637 | without a matching task, or without confirmation, nothing changes; otherwise every task with the id is removed, the survivors keep their order in the store, and one `delete` entry is logged; a list where "`completedAt` is set iff `completed`" holds keeps it |
| Planner.StudyPlanner.EditTask | script.js:639-654 | returns the task to copy into the form, then has exactly the effect of `deleteTask`; a list where "`completedAt` is set iff `completed`" holds keeps it |
| Planner.StudyPlanner.CalculateStudyStreak | script.js:893-918 | the loop returns `Streak.StudyStreak` of the current tasks, the scan as written |
| Planner.StudyPlanner.LoadUserSetting | script.js:410-419 | a setting is present exactly when this user's settings document has the key, and then it is the stored value |
| Planner.StudyPlanner.SaveUserSetting | script.js:421-430 | the settings document is rewritten by `Storage.SaveSetting`: the key reads back its value and the other keys are unchanged |
| Planner.StudyPlanner.ClearAllData | script.js:987-1022 | after both confirmations, the user's three documents are removed and tasks, timeline, settings, handle and timer state are reset; otherwise nothing changes |
| Planner.StudyPlanner.StartPomodoro | script.js:1260-1269 | a non-empty id of an existing task selects that task for the timer; anything else leaves the selection as it was; `Valid()` is kept |
| Planner.StudyPlanner.StartPomodoroTimer | script.js:1284-1300 | a running timer is left alone; otherwise it runs, unpaused, under the new handle |
| Planner.StudyPlanner.Tick | script.js:1290-1297 | callable only while running; above one second left it removes a second and changes nothing else; at the last second it has exactly the effect of `pomodoroComplete`: stopped, not paused, no handle, the other phase at its full length, durations kept, and the session logged and saved when a work phase ends with a selected task |
| Planner.StudyPlanner.PausePomodoroTimer | script.js:1302-1314 | a stopped timer is left alone; a running one becomes paused and loses its handle |
| Planner.StudyPlanner.ResetPomodoroTimer | script.js:1316-1330 | stopped, not paused, no handle, and the current phase's full length (duration × 60) left |
| Planner.StudyPlanner.PomodoroComplete | script.js:1332-1359 | stops the timer, switches phase with the new phase's full length left, and when a work phase ends with a selected task, logs the session and saves the log |
| Planner.StudyPlanner.ClosePomodoroModal | script.js:1277-1282 | closing the modal pauses a running timer |
| Planner.StudyPlanner.SetWorkDuration | script.js:526-534 | the work length changes, and takes effect at once when idle in a work phase |
| Planner.StudyPlanner.SetBreakDuration | script.js:536-544 | the break length changes, and takes effect at once when idle in a break phase |

The constructor establishes `StudyPlanner.Valid()`. Every user-facing operation keeps it: AddTask, ToggleTask, DeleteTask, EditTask, SaveUserSetting, ClearAllData, the Pomodoro methods (StartPomodoro, StartPomodoroTimer, PausePomodoroTimer, ResetPomodoroTimer, PomodoroComplete, Tick, ClosePomodoroModal) and the duration setters. RenderTasks keeps it when it held, and SaveAndRender re-establishes it from the timer part alone. AddToTimeline alone breaks the stored-timeline part until SaveTimeline runs, as its callers in script.js do; SaveTasks and SaveTimeline state the stored documents exactly instead. That invariant says:

- a timer handle exists exactly while the timer runs;
- running and paused never hold together;
- the stored tasks are a permutation of the in-memory tasks;
- the stored timeline equals the in-memory one.

The record invariant "`completedAt` is set iff `completed`"
(`Tasks.AllConsistent`) is not part of `Valid()`, because the documents the
constructor loads may break it. Every task operation keeps it when it held
before: adding appends an open task, toggling flips both fields together,
deleting only drops tasks, and the render only reorders the list.

The streak follows the code, not the intended behaviour: the code measures
each completion against a day cursor that has already moved back once per
match. Where the code persists the timeline through an explicit
`saveTimeline` call after `addToTimeline` rather than inside it, the model
does the same. Also as in the code, `clearAllData` does not reset the task
selected for the Pomodoro timer.

## Left out

- Page rendering, HTML building, toasts, modals, charts, themes and the celebration: presentation only.
- Notifications, `setTimeout`/`setInterval` scheduling and reminder callbacks: the interval is the explicit `Tick` method, and its handle is a parameter.
- JSON encoding and parsing, and the `try`/`catch` around storage errors: the store holds typed documents, so a malformed or wrongly typed document reads as empty.
- `estimatedTime` (`parseFloat`), the fractional progress-bar width, and the `NaN` that `parseInt` gives for a non-numeric duration or reminder: durations and reminder times are integers.
- Time zones, daylight saving and `setHours(0,0,0,0)`: days are timestamps divided by the length of a day, and ISO date strings are integer milliseconds.
- `StudyPlanner`'s early return when nobody is logged in: the constructor takes the logged-in user's id.
- Task id uniqueness: ids come from the clock and are not assumed unique. Deletion removes every task with the id, and toggling acts on the first.
- `Text.IsSpace` works on characters, not UTF-16 code units; the JavaScript white-space characters all lie inside the Basic Multilingual Plane, so nothing is lost.
- The two-digit padding of the timer display (`padStart`): only the numbers are modelled.
- `loadTasks`, `loadTimeline` and `loadSettings` as separate operations: they are called only from the constructor (script.js:294-296), where their effect is modelled.
- `saveSettings` (script.js:977-984): no code calls it; settings are written one key at a time through `saveUserSetting`.
- The per-priority, per-subject and seven-day chart counts: optional presentation data.
- Views.RoundedPercent: computes `Math.round(completed / total * 100)` exactly, in integers; the page computes in IEEE doubles, where for example 57 / 200 * 100 is 28.499999999999996 and shows 28% where the model gives 29.
- `Pomodoro.JsRem`: its contract is given only through `Pomodoro.Display`.

## Findings

| source | as written | input that shows it | evidently intended | confidence | as-written member | corrected member |
|---|---|---|---|---|---|---|
| script.js:907-911 | `daysDiff` is measured from `currentDate`, which moves back one day after each match, so after k matches only a completion on day today − 2k counts | completions today and yesterday give a streak of 1 | a streak of consecutive days ending today, measuring every completion from today, which gives 2 here | high, not executed | Streak.TwoConsecutiveDays | Streak.CorrectedStreakIsRun |
