/**
 * The `StudyPlanner` object of one logged-in user: the task list, the
 * activity log and the settings loaded from the browser store, the Pomodoro
 * timer state, and the operations that change them. Every time-dependent
 * operation takes the clock `now` (milliseconds) as a parameter; the timer
 * handle `setInterval` returns and the answers of `confirm()` dialogs are
 * parameters too. The values of the filter and sort selectors, which
 * `renderTasks` reads from the page, are passed to every operation that
 * re-renders the list.
 */
module Planner {
  import opened Wrappers
  import opened Text
  import opened Tasks
  import opened Views
  import opened Timeline
  import opened Streak
  import opened Storage
  import opened Pomodoro

  /** What the task form holds when it is submitted; an empty due-date field is `None`. */
  datatype TaskForm = TaskForm(
    title: string,
    description: string,
    priority: Priority,
    subject: string,
    dueDate: Option<int>,
    reminderTime: int)

  /** The form passes `addTask`'s check: a non-blank title and a due date. */
  predicate Accepted(form: TaskForm) {
    Trim(form.title) != [] && form.dueDate.Some?
  }

  /** The task `addTask` builds at time `now`: trimmed texts, open, no completion time. */
  function NewTask(form: TaskForm, now: nat): (t: Task)
    requires Accepted(form)
    ensures !t.completed && t.completedAt.None? && CompletionConsistent(t)
    ensures t.id == NatToString(now) && t.createdAt == now
    ensures t.title == Trim(form.title) && t.description == Trim(form.description)
  {
    Task(NatToString(now), Trim(form.title), Trim(form.description), form.priority, form.subject,
         form.dueDate.value, form.reminderTime, false, now, None)
  }

  /**
   * The log entry `addToTimeline` builds at time `now`: its id is the clock
   * in decimal, so it reads back as the moment the entry was made.
   */
  function Entry(message: string, kind: EntryKind, now: nat): (e: TimelineEntry)
    ensures IsDigits(e.id) && ParseDigits(e.id) == e.timestamp == now
    ensures e.message == message && e.kind == kind
  {
    NatToStringRoundTrip(now);
    TimelineEntry(NatToString(now), message, kind, now)
  }

  /**
   * The stored task list after `renderTasks`: with the `all` filter the sort
   * runs on the list itself, so it is reordered; any other filter sorts a copy.
   */
  function Rendered(ts: seq<Task>, filter: string, sort: string): (r: seq<Task>)
    ensures multiset(r) == multiset(ts) && |r| == |ts|
    ensures FilterOf(filter) == All ==> Sorted(r, SortKeyOf(sort)) && r == SortBy(ts, SortKeyOf(sort))
    ensures FilterOf(filter) != All ==> r == ts
  {
    if FilterOf(filter) == All then SortBy(ts, SortKeyOf(sort)) else ts
  }

  /** Rendering only reorders the list, so it keeps the record invariant. */
  lemma RenderedKeepsConsistent(ts: seq<Task>, filter: string, sort: string)
    requires AllConsistent(ts)
    ensures AllConsistent(Rendered(ts, filter, sort))
  {
    ConsistentByMultiset(ts, Rendered(ts, filter, sort));
  }

  /** The message `toggleTask` logs, and its kind: reopening is logged as a creation. */
  function ToggleEntry(t: Task, now: nat): (e: TimelineEntry)
    ensures e.kind == Complete <==> t.completed
    ensures e.kind != Delete
  {
    if t.completed then Entry("Completed task: " + t.title, Complete, now)
    else Entry("Reopened task: " + t.title, Create, now)
  }

  /** The three storage keys of one user are different strings. */
  lemma KeysDistinct(userId: string)
    ensures StorageKey(Some(userId), "tasks") != StorageKey(Some(userId), "timeline")
    ensures StorageKey(Some(userId), "tasks") != StorageKey(Some(userId), "settings")
    ensures StorageKey(Some(userId), "timeline") != StorageKey(Some(userId), "settings")
  {
    SameUserKeysDistinct(Some(userId), "tasks", "timeline");
    SameUserKeysDistinct(Some(userId), "tasks", "settings");
    SameUserKeysDistinct(Some(userId), "timeline", "settings");
  }

  class StudyPlanner {
    const userId: string
    var tasks: seq<Task>
    var timeline: seq<TimelineEntry>
    var settings: map<string, SettingValue>
    /** The browser store, shared with everything else on the page. */
    var store: Store
    var pomodoroState: PomodoroState
    /** The `setInterval` handle of the running timer, `null` when there is none. */
    var pomodoroTimer: Option<nat>
    var currentPomodoroTask: Option<Task>

    function TasksKey(): string { StorageKey(Some(userId), "tasks") }
    function TimelineKey(): string { StorageKey(Some(userId), "timeline") }
    function SettingsKey(): string { StorageKey(Some(userId), "settings") }

    /** The timer invariant: a handle exists exactly while the timer runs, and running excludes paused. */
    predicate TimerValid()
      reads this`pomodoroTimer, this`pomodoroState
    {
      && (pomodoroTimer.Some? <==> pomodoroState.isRunning)
      && !(pomodoroState.isRunning && pomodoroState.isPaused)
    }

    /**
     * The store invariant: the store holds the tasks (in the order of the
     * last save, which a later in-place sort may have changed) and exactly
     * the activity log.
     */
    ghost predicate StoreValid()
      reads this`tasks, this`timeline, this`store
    {
      && multiset(TasksAt(store, TasksKey())) == multiset(tasks)
      && TimelineAt(store, TimelineKey()) == timeline
    }

    /** The object invariant every operation keeps. */
    ghost predicate Valid()
      reads this
    {
      TimerValid() && StoreValid()
    }

    /**
     * The constructor for a logged-in user: the default timer state, the
     * three documents loaded from the store, and the first render, which
     * runs with the selectors reset to `all` and `dueDate`.
     */
    constructor(id: string, initial: Store)
      ensures Valid()
      ensures userId == id && store == initial
      ensures tasks == SortBy(TasksAt(initial, StorageKey(Some(id), "tasks")), ByDueDate)
      ensures timeline == TimelineAt(initial, StorageKey(Some(id), "timeline"))
      ensures settings == ReadSettings(initial, StorageKey(Some(id), "settings"))
      ensures pomodoroState == Default && pomodoroTimer.None? && currentPomodoroTask.None?
    {
      userId := id;
      store := initial;
      pomodoroTimer := None;
      pomodoroState := Default;
      currentPomodoroTask := None;
      tasks := Rendered(TasksAt(initial, StorageKey(Some(id), "tasks")), "all", "dueDate");
      timeline := TimelineAt(initial, StorageKey(Some(id), "timeline"));
      settings := ReadSettings(initial, StorageKey(Some(id), "settings"));
    }

    // -----------------------------------------------------------------
    // Persistence and the activity log
    // -----------------------------------------------------------------

    /** `saveTasks`: the tasks document now holds the list as it is. */
    method SaveTasks()
      modifies this`store
      ensures store == old(store)[TasksKey() := TaskList(tasks)]
    {
      store := store[TasksKey() := TaskList(tasks)];
    }

    /** `saveTimeline`: the timeline document now holds the log as it is. */
    method SaveTimeline()
      modifies this`store
      ensures store == old(store)[TimelineKey() := Log(timeline)]
    {
      store := store[TimelineKey() := Log(timeline)];
    }

    /**
     * `saveTasks(); saveTimeline()`, the pair every task operation runs:
     * each document then reads back as the in-memory value.
     */
    method SaveBoth()
      modifies this`store
      ensures store == old(store)[TasksKey() := TaskList(tasks)][TimelineKey() := Log(timeline)]
      ensures TasksAt(store, TasksKey()) == tasks && TimelineAt(store, TimelineKey()) == timeline
    {
      KeysDistinct(userId);
      SaveTasks();
      SaveTimeline();
    }

    /** `addToTimeline`: the new entry goes in front and the log is cut to twenty entries. */
    method AddToTimeline(message: string, kind: EntryKind, now: nat)
      modifies this`timeline
      ensures timeline == Prepend(old(timeline), Entry(message, kind, now))
      ensures |timeline| <= MaxEntries && timeline[0] == Entry(message, kind, now)
    {
      timeline := Prepend(timeline, Entry(message, kind, now));
    }

    /**
     * `renderTasks`: returns the tasks shown (the chosen filter, then the
     * chosen sort) and, with the `all` filter, leaves the list sorted in place.
     */
    method RenderTasks(filter: string, sort: string, now: int) returns (shown: seq<Task>)
      modifies this`tasks
      ensures old(Valid()) ==> Valid()
      ensures shown == View(old(tasks), FilterOf(filter), SortKeyOf(sort), now)
      ensures tasks == Rendered(old(tasks), filter, sort)
      ensures FilterOf(filter) == All ==> tasks == shown
    {
      shown := View(tasks, FilterOf(filter), SortKeyOf(sort), now);
      if FilterOf(filter) == All {
        tasks := shown;
      }
    }

    /**
     * The tail every task operation shares: `saveTasks(); saveTimeline();
     * renderTasks()`. The tasks document gets the list before the render
     * reorders it.
     */
    method SaveAndRender(filter: string, sort: string, now: int)
      requires TimerValid()
      modifies this`tasks, this`store
      ensures Valid()
      ensures store == old(store)[TasksKey() := TaskList(old(tasks))][TimelineKey() := Log(timeline)]
      ensures tasks == Rendered(old(tasks), filter, sort)
      ensures AllConsistent(old(tasks)) ==> AllConsistent(tasks)
    {
      ghost var before := tasks;
      SaveBoth();
      var _ := RenderTasks(filter, sort, now);
      if AllConsistent(before) {
        RenderedKeepsConsistent(before, filter, sort);
      }
    }

    // -----------------------------------------------------------------
    // Task operations
    // -----------------------------------------------------------------

    /**
     * `addTask`: a form with a blank title or no due date changes nothing.
     * Otherwise the new open task is appended, one creation entry is logged,
     * both documents are saved (the tasks document in append order), and
     * the list is re-rendered.
     */
    method AddTask(form: TaskForm, now: nat, filter: string, sort: string)
      requires Valid()
      modifies this`tasks, this`timeline, this`store
      ensures Valid()
      ensures !Accepted(form) ==> tasks == old(tasks) && timeline == old(timeline) && store == old(store)
      ensures Accepted(form) ==> tasks == Rendered(old(tasks) + [NewTask(form, now)], filter, sort)
      ensures Accepted(form) ==> timeline == Prepend(old(timeline), Entry("Created task: " + Trim(form.title), Create, now))
      ensures Accepted(form) ==>
        store == old(store)[TasksKey() := TaskList(old(tasks) + [NewTask(form, now)])][TimelineKey() := Log(timeline)]
      ensures AllConsistent(old(tasks)) ==> AllConsistent(tasks)
    {
      if !Accepted(form) {
        return;
      }
      var task := NewTask(form, now);
      if AllConsistent(tasks) {
        AppendKeepsConsistent(tasks, task);
      }
      tasks := tasks + [task];
      AddToTimeline("Created task: " + task.title, Create, now);
      SaveAndRender(filter, sort, now);
    }

    /**
     * `toggleTask`: the first task with `id` flips its completion and its
     * completion time, the change is logged and saved, and the list is
     * re-rendered. An unknown id changes nothing.
     */
    method ToggleTask(id: string, now: nat, filter: string, sort: string)
      requires Valid()
      modifies this`tasks, this`timeline, this`store
      ensures Valid()
      ensures !HasId(old(tasks), id) ==> tasks == old(tasks) && timeline == old(timeline) && store == old(store)
      ensures HasId(old(tasks), id) ==>
        var i := FindIndex(old(tasks), id).value;
        var t := Toggled(old(tasks)[i], now);
        && tasks == Rendered(old(tasks)[i := t], filter, sort)
        && timeline == Prepend(old(timeline), ToggleEntry(t, now))
        && store == old(store)[TasksKey() := TaskList(old(tasks)[i := t])][TimelineKey() := Log(timeline)]
      ensures AllConsistent(old(tasks)) ==> AllConsistent(tasks)
    {
      var found := FindIndex(tasks, id);
      if found.None? {
        return;
      }
      var i := found.value;
      var t := Toggled(tasks[i], now);
      if AllConsistent(tasks) {
        ToggleKeepsConsistent(tasks, i, now);
      }
      tasks := tasks[i := t];
      var e := ToggleEntry(t, now);
      AddToTimeline(e.message, e.kind, now);
      SaveAndRender(filter, sort, now);
    }

    /**
     * `deleteTask`: when a task with `id` exists and the user confirms,
     * every task with that id is dropped, the deletion of the first one is
     * logged, both documents are saved and the list is re-rendered.
     * Otherwise nothing changes.
     */
    method DeleteTask(id: string, confirmed: bool, now: nat, filter: string, sort: string)
      requires Valid()
      modifies this`tasks, this`timeline, this`store
      ensures Valid()
      ensures !(HasId(old(tasks), id) && confirmed) ==>
        tasks == old(tasks) && timeline == old(timeline) && store == old(store)
      ensures HasId(old(tasks), id) && confirmed ==>
        var title := old(tasks)[FindIndex(old(tasks), id).value].title;
        && tasks == Rendered(RemoveId(old(tasks), id), filter, sort)
        && timeline == Prepend(old(timeline), Entry("Deleted task: " + title, Delete, now))
        && store == old(store)[TasksKey() := TaskList(RemoveId(old(tasks), id))][TimelineKey() := Log(timeline)]
      ensures AllConsistent(old(tasks)) ==> AllConsistent(tasks)
    {
      var found := FindIndex(tasks, id);
      if found.None? || !confirmed {
        return;
      }
      var title := tasks[found.value].title;
      if AllConsistent(tasks) {
        RemoveIdKeepsConsistent(tasks, id);
      }
      tasks := RemoveId(tasks, id);
      AddToTimeline("Deleted task: " + title, Delete, now);
      SaveAndRender(filter, sort, now);
    }

    /**
     * `editTask`: the task with `id` is copied into the form (returned
     * here) and then deleted through `deleteTask`, confirmation included.
     */
    method EditTask(id: string, confirmed: bool, now: nat, filter: string, sort: string) returns (prefill: Option<Task>)
      requires Valid()
      modifies this`tasks, this`timeline, this`store
      ensures Valid()
      ensures prefill.Some? <==> HasId(old(tasks), id)
      ensures prefill.Some? ==> prefill.value == old(tasks)[FindIndex(old(tasks), id).value]
      ensures !(HasId(old(tasks), id) && confirmed) ==>
        tasks == old(tasks) && timeline == old(timeline) && store == old(store)
      ensures HasId(old(tasks), id) && confirmed ==>
        && tasks == Rendered(RemoveId(old(tasks), id), filter, sort)
        && timeline == Prepend(old(timeline), Entry("Deleted task: " + prefill.value.title, Delete, now))
        && store == old(store)[TasksKey() := TaskList(RemoveId(old(tasks), id))][TimelineKey() := Log(timeline)]
      ensures AllConsistent(old(tasks)) ==> AllConsistent(tasks)
    {
      var found := FindIndex(tasks, id);
      if found.None? {
        return None;
      }
      prefill := Some(tasks[found.value]);
      DeleteTask(id, confirmed, now, filter, sort);
    }

    // -----------------------------------------------------------------
    // Statistics
    // -----------------------------------------------------------------

    /**
     * `calculateStudyStreak` on day `today`: the completed tasks sorted
     * newest first are visited with a day cursor that steps back after each
     * match, exactly as the function `StudyStreak` describes.
     */
    method CalculateStudyStreak(today: int) returns (streak: nat)
      ensures streak == StudyStreak(tasks, today)
    {
      var completed := NewestFirst(tasks);
      ghost var days := Days(completed);
      if |completed| == 0 {
        return 0;
      }
      streak := 0;
      var cursor := today;
      var i := 0;
      while i < |completed|
        invariant 0 <= i <= |completed|
        invariant cursor == today - streak
        invariant AsWritten(days[i..], cursor, streak) == StudyStreak(tasks, today)
      {
        var taskDate := Day(completed[i].completedAt.GetOr(0));
        var daysDiff := cursor - taskDate;
        assert days[i..][0] == taskDate && days[i..][1..] == days[i + 1..];
        if daysDiff == streak {
          streak := streak + 1;
          cursor := cursor - 1;
        } else if daysDiff > streak {
          break;
        }
        i := i + 1;
      }
    }

    // -----------------------------------------------------------------
    // Settings
    // -----------------------------------------------------------------

    /** `loadUserSetting`: the value stored under `key` in this user's settings document. */
    function LoadUserSetting(key: string): (r: Option<SettingValue>)
      reads this
      ensures r.Some? <==> key in ReadSettings(store, SettingsKey())
      ensures r.Some? ==> r.value == ReadSettings(store, SettingsKey())[key]
    {
      LoadSetting(store, SettingsKey(), key)
    }

    /**
     * `saveUserSetting`: one key of the settings document is rewritten; the
     * in-memory `settings` object is not touched.
     */
    method SaveUserSetting(key: string, value: SettingValue)
      requires Valid()
      modifies this`store
      ensures Valid()
      ensures store == SaveSetting(old(store), SettingsKey(), key, value)
      ensures LoadUserSetting(key) == Some(value)
      ensures forall k | k != key :: LoadUserSetting(k) == old(LoadUserSetting(k))
    {
      KeysDistinct(userId);
      store := SaveSetting(store, SettingsKey(), key, value);
    }

    /**
     * `clearAllData`: after both confirmations the three documents of this
     * user are removed from the store and the tasks, log, settings and timer
     * go back to their initial values. The task chosen for the timer stays.
     */
    method ClearAllData(confirmed: bool, finalConfirmed: bool)
      requires Valid()
      modifies this`tasks, this`timeline, this`settings, this`store, this`pomodoroState, this`pomodoroTimer
      ensures Valid()
      ensures !(confirmed && finalConfirmed) ==>
        && tasks == old(tasks) && timeline == old(timeline) && settings == old(settings) && store == old(store)
        && pomodoroState == old(pomodoroState) && pomodoroTimer == old(pomodoroTimer)
      ensures confirmed && finalConfirmed ==>
        && tasks == [] && timeline == [] && settings == map[]
        && store == old(store) - {TasksKey(), TimelineKey(), SettingsKey()}
        && pomodoroState == Default && pomodoroTimer.None?
    {
      if !(confirmed && finalConfirmed) {
        return;
      }
      var keys := ClearedKeys(Some(userId));
      store := store - {keys[0], keys[1], keys[2]};
      tasks := [];
      timeline := [];
      settings := map[];
      pomodoroTimer := None;
      pomodoroState := Default;
    }

    // -----------------------------------------------------------------
    // Pomodoro timer
    // -----------------------------------------------------------------

    /** `startPomodoro`: a known, non-empty task id becomes the task the timer works on. */
    method StartPomodoro(taskId: string)
      requires Valid()
      modifies this`currentPomodoroTask
      ensures Valid()
      ensures taskId != "" && HasId(tasks, taskId) ==>
        currentPomodoroTask == Some(tasks[FindIndex(tasks, taskId).value])
      ensures !(taskId != "" && HasId(tasks, taskId)) ==> currentPomodoroTask == old(currentPomodoroTask)
    {
      if taskId != "" {
        var found := FindIndex(tasks, taskId);
        if found.Some? {
          currentPomodoroTask := Some(tasks[found.value]);
        }
      }
    }

    /** `startPomodoroTimer`: does nothing while running; otherwise runs, unpaused, under a fresh handle. */
    method StartPomodoroTimer(handle: nat)
      requires Valid()
      modifies this`pomodoroState, this`pomodoroTimer
      ensures Valid()
      ensures old(pomodoroState.isRunning) ==> pomodoroState == old(pomodoroState) && pomodoroTimer == old(pomodoroTimer)
      ensures !old(pomodoroState.isRunning) ==>
        pomodoroState == old(pomodoroState).(isRunning := true, isPaused := false) && pomodoroTimer == Some(handle)
    {
      if pomodoroState.isRunning {
        return;
      }
      pomodoroState := pomodoroState.(isRunning := true, isPaused := false);
      pomodoroTimer := Some(handle);
    }

    /** `pausePomodoroTimer`: does nothing unless running; otherwise stops the interval and marks the timer paused. */
    method PausePomodoroTimer()
      requires Valid()
      modifies this`pomodoroState, this`pomodoroTimer
      ensures Valid()
      ensures !old(pomodoroState.isRunning) ==> pomodoroState == old(pomodoroState) && pomodoroTimer == old(pomodoroTimer)
      ensures old(pomodoroState.isRunning) ==>
        pomodoroState == old(pomodoroState).(isRunning := false, isPaused := true) && pomodoroTimer.None?
    {
      if !pomodoroState.isRunning {
        return;
      }
      pomodoroState := pomodoroState.(isRunning := false, isPaused := true);
      pomodoroTimer := None;
    }

    /** `resetPomodoroTimer`: stopped, not paused, and the current phase's full length left. */
    method ResetPomodoroTimer()
      requires Valid()
      modifies this`pomodoroState, this`pomodoroTimer
      ensures Valid()
      ensures pomodoroState == old(pomodoroState).(isRunning := false, isPaused := false, timeLeft := PhaseSeconds(old(pomodoroState)))
      ensures pomodoroTimer.None?
    {
      pomodoroState := pomodoroState.(isRunning := false, isPaused := false, timeLeft := PhaseSeconds(pomodoroState));
      pomodoroTimer := None;
    }

    /**
     * `pomodoroComplete`: the timer stops and switches phase with the new
     * phase's full length left. Finishing a work phase with a chosen task
     * logs the session and saves the log.
     */
    method PomodoroComplete(now: nat)
      requires Valid()
      modifies this`pomodoroState, this`pomodoroTimer, this`timeline, this`store
      ensures Valid()
      ensures !pomodoroState.isRunning && !pomodoroState.isPaused && pomodoroTimer.None?
      ensures pomodoroState.isBreak == !old(pomodoroState.isBreak)
      ensures pomodoroState.timeLeft == PhaseSeconds(pomodoroState)
      ensures pomodoroState.workDuration == old(pomodoroState.workDuration)
      ensures pomodoroState.breakDuration == old(pomodoroState.breakDuration)
      ensures !old(pomodoroState.isBreak) && currentPomodoroTask.Some? ==>
        && timeline == Prepend(old(timeline), Entry("Completed Pomodoro session for: " + currentPomodoroTask.value.title, Complete, now))
        && store == old(store)[TimelineKey() := Log(timeline)]
      ensures !(!old(pomodoroState.isBreak) && currentPomodoroTask.Some?) ==>
        timeline == old(timeline) && store == old(store)
    {
      pomodoroState := pomodoroState.(isRunning := false, isPaused := false);
      pomodoroTimer := None;
      if pomodoroState.isBreak {
        pomodoroState := pomodoroState.(isBreak := false, timeLeft := pomodoroState.workDuration * 60);
      } else {
        pomodoroState := pomodoroState.(isBreak := true, timeLeft := pomodoroState.breakDuration * 60);
        if currentPomodoroTask.Some? {
          AddToTimeline("Completed Pomodoro session for: " + currentPomodoroTask.value.title, Complete, now);
          SaveTimeline();
          KeysDistinct(userId);
        }
      }
    }

    /** One firing of the interval, possible only while the timer runs: a second less, completing at zero. */
    method Tick(now: nat)
      requires Valid() && pomodoroState.isRunning
      modifies this`pomodoroState, this`pomodoroTimer, this`timeline, this`store
      ensures Valid()
      ensures old(pomodoroState.timeLeft) > 1 ==>
        pomodoroState == old(pomodoroState).(timeLeft := old(pomodoroState.timeLeft) - 1)
        && pomodoroTimer == old(pomodoroTimer) && timeline == old(timeline) && store == old(store)
      ensures old(pomodoroState.timeLeft) <= 1 ==>
        && !pomodoroState.isRunning && !pomodoroState.isPaused && pomodoroTimer.None?
        && pomodoroState.isBreak == !old(pomodoroState.isBreak)
        && pomodoroState.timeLeft == PhaseSeconds(pomodoroState)
      ensures pomodoroState.workDuration == old(pomodoroState.workDuration)
      ensures pomodoroState.breakDuration == old(pomodoroState.breakDuration)
      ensures old(pomodoroState.timeLeft) <= 1 && !old(pomodoroState.isBreak) && currentPomodoroTask.Some? ==>
        && timeline == Prepend(old(timeline), Entry("Completed Pomodoro session for: " + currentPomodoroTask.value.title, Complete, now))
        && store == old(store)[TimelineKey() := Log(timeline)]
      ensures !(old(pomodoroState.timeLeft) <= 1 && !old(pomodoroState.isBreak) && currentPomodoroTask.Some?) ==>
        timeline == old(timeline) && store == old(store)
    {
      pomodoroState := pomodoroState.(timeLeft := pomodoroState.timeLeft - 1);
      if pomodoroState.timeLeft <= 0 {
        PomodoroComplete(now);
      }
    }

    /** `closePomodoroModal`: a running timer is paused. */
    method ClosePomodoroModal()
      requires Valid()
      modifies this`pomodoroState, this`pomodoroTimer
      ensures Valid()
      ensures old(pomodoroState.isRunning) ==>
        pomodoroState == old(pomodoroState).(isRunning := false, isPaused := true) && pomodoroTimer.None?
      ensures !old(pomodoroState.isRunning) ==> pomodoroState == old(pomodoroState) && pomodoroTimer == old(pomodoroTimer)
    {
      if pomodoroTimer.Some? {
        PausePomodoroTimer();
      }
    }

    /** The work-duration input: a new length, applied at once when idle in a work phase. */
    method SetWorkDuration(minutes: int)
      requires Valid()
      modifies this`pomodoroState
      ensures Valid()
      ensures pomodoroState.workDuration == minutes
      ensures !old(pomodoroState.isBreak) && !old(pomodoroState.isRunning) ==>
        pomodoroState == old(pomodoroState).(workDuration := minutes, timeLeft := minutes * 60)
      ensures !(!old(pomodoroState.isBreak) && !old(pomodoroState.isRunning)) ==>
        pomodoroState == old(pomodoroState).(workDuration := minutes)
    {
      pomodoroState := pomodoroState.(workDuration := minutes);
      if !pomodoroState.isBreak && !pomodoroState.isRunning {
        pomodoroState := pomodoroState.(timeLeft := minutes * 60);
      }
    }

    /** The break-duration input: a new length, applied at once when idle in a break phase. */
    method SetBreakDuration(minutes: int)
      requires Valid()
      modifies this`pomodoroState
      ensures Valid()
      ensures pomodoroState.breakDuration == minutes
      ensures old(pomodoroState.isBreak) && !old(pomodoroState.isRunning) ==>
        pomodoroState == old(pomodoroState).(breakDuration := minutes, timeLeft := minutes * 60)
      ensures !(old(pomodoroState.isBreak) && !old(pomodoroState.isRunning)) ==>
        pomodoroState == old(pomodoroState).(breakDuration := minutes)
    {
      pomodoroState := pomodoroState.(breakDuration := minutes);
      if pomodoroState.isBreak && !pomodoroState.isRunning {
        pomodoroState := pomodoroState.(timeLeft := minutes * 60);
      }
    }
  }
}
