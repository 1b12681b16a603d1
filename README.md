# Smart task manager — a verified model of its core

This project models, in Dafny, the logic of a small React to-do application with a
countdown ("pomodoro") timer:

- **Task list state** (`tasks.dfy`, module `Tasks`). This is the application's task reducer, with these commands:
  - add a task;
  - toggle, delete or update a task by id;
  - load or reorder the whole list;
  - ignore anything else.

  The module also has the two effect guards that mirror the list into browser storage. `TaskStore` is a small class holding the in-memory list and the stored copy.
- **Task list view** (`task_list.dfy`, module `TaskList`). This is the filtered and sorted list the task list component shows:
  - filters: all, completed, pending, or one priority;
  - sort keys: date, newest first; priority, high first; title, by a collation; status, incomplete first.

  JavaScript's stable `Array.prototype.sort` is modelled by a stable insertion sort (`sorting.dfy`). The same file has the drag-and-drop reorder, with both of its splices. `TaskListState` is a class for the component's own state: the selectors, the inline editor and the drag in progress.
- **Statistics** (`task_stats.dfy`, module `TaskStats`): totals, completed and pending counts, the rounded completion percentage, and the per-priority tally.
- **Timer** (`pomodoro.dfy`, module `PomodoroTimer`). This is the timer reducer over duration, time left and a running flag. `TaskTimer` is a class for the hook that keeps the handle of the one-second interval. The browser's interval registry is modelled as a set of live handles.
- **Timer display** (`timer_view.dfy`, module `TimerView`): the `MM:SS` formatting, the minutes-to-seconds duration change, and the progress percentage.
- **New-task form** (`task_input.dfy`, module `TaskInput`): building a task from the trimmed title, and the form reset. `TaskForm` is the class holding the form's state.
- **JavaScript string built-ins** (`text.dfy`, module `Text`). `trim` uses the ECMA-262 whitespace set. `toString` is modelled for non-negative integers, along with `padStart`.

Two facts about the drag-and-drop reorder come out of the model:

- **The drop index is a view index.** The dragged task's position comes from the unsorted list (`FindIndex`). The drop position is the index of the row in the displayed, sorted view. `Drop` models both exactly as the source computes them.
- **The date-sorted view does not change.** Rows are draggable only when every task is shown sorted by date. In that mode, if no two tasks share a creation time, the view of the reordered list equals the view before the drop (`TaskList.ReorderInvisibleByDate`). The new list order is stored, and it shows only among tasks that another sort key ties: two high-priority tasks swapped by a drop swap places in the view by priority (`TaskList.ReorderShowsUnderTies`).

## Model

| member | source | states |
|---|---|---|
| Tasks.Toggle | src/App.jsx:28 | same length; each task keeps its id, title, priority and creation time; its completion flag flips exactly when its id matches |
| Tasks.Delete | src/App.jsx:30 | no task with the deleted id remains |
| Tasks.Update | src/App.jsx:32 | same length; a task with the id becomes the task with every field the patch carries overridden; every other task is kept |
| Tasks.TaskReducer | src/App.jsx:23-40 | add appends the task at the end, so the old list is a prefix and the length grows by one; toggle and update keep the length; delete leaves no task with that id and never grows the list; load and reorder return exactly the given list; any other action returns the state |
| Tasks.ToggleInvolution | src/App.jsx:28 | toggling the same id twice gives back the original list |
| Tasks.DeleteSpec | src/App.jsx:30 | delete keeps each task with another id as often as it occurs and drops those with the id; it distributes over concatenation, so relative order is kept; a second delete with the same id changes nothing |
| Tasks.AbsentIdIsNoop | src/App.jsx:27-32 | toggle, delete and update with an id no task has return the list unchanged |
| Tasks.ReducerKeepsIdsUnique | src/App.jsx:23-40 | each action keeps ids unique: toggle and delete always; an add when its id is new; an update when the patch has no id; a load or reorder when its list has unique ids |
| Tasks.StepIds | src/App.jsx:25-32 | an add, toggle, delete or id-preserving update brings in no id except the added task's |
| Tasks.RunIdsFromAdds | src/App.jsx:23-40 | after any sequence of such edits, every id in the list was there at the start or came with an add |
| Tasks.RunKeepsUnique | src/App.jsx:23-40 | a whole run of actions that each keep ids unique ends with unique ids |
| Tasks.ShouldLoadOnMount | src/App.jsx:55 | a load is allowed only when storage has tasks and the list in memory is empty, and a load it allows always replaces the list with a different one |
| Tasks.ShouldSync | src/App.jsx:61-65 | the write-back is skipped only when the list and the stored copy are both empty, so they already agree |
| Tasks.TaskStore.constructor | src/App.jsx:48-51 | the reducer starts from the empty list; storage starts from what was persisted |
| Tasks.TaskStore.LoadOnMount | src/App.jsx:54-58 | the stored list replaces the list in memory exactly when it has tasks and the list in memory has none; storage is untouched |
| Tasks.TaskStore.Dispatch | src/App.jsx:61-65 | the list becomes the reducer's result and storage mirrors it afterwards |
| TaskList.FilterTasks | src/components/TaskList.jsx:27-46 | the filtered list is no longer than the list, every task in it matches the filter, and `all` returns the list itself; `TaskList.FilterKeepsMatching` states the converse |
| TaskList.FilterKeepsMatching | src/components/TaskList.jsx:27-46 | each filter keeps exactly the matching tasks, each as often as it occurs; every kept task matches; `all` keeps the list as it is |
| TaskList.CompletedPendingPartition | src/components/TaskList.jsx:29-34 | the completed and pending filters split the list between them, in elements and in length |
| TaskList.Compare | src/components/TaskList.jsx:49-62 | per key, `a` may stay before `b` (the comparison is at most 0) exactly when `a`'s priority ranks at least `b`'s, `a` is incomplete or `b` is completed, `a` is at least as new, or the collation puts `a`'s title no later |
| TaskList.Precedes | src/components/TaskList.jsx:49-62 | the "may stay before" relation the sort uses is a total preorder for every key but the title; `TaskList.PrecedesIsPreorder` adds the title under a collation |
| TaskList.PrecedesIsPreorder | src/components/TaskList.jsx:49-62 | every sort key's comparator is a total preorder, by title when the collation is one |
| TaskList.View | src/components/TaskList.jsx:24-65 | the view is a rearrangement of the filtered tasks, of the same length; the input list is not changed |
| TaskList.ViewByPriority | src/components/TaskList.jsx:51-53 | sorted by priority, ranks never increase: high before medium before low |
| TaskList.ViewByStatus | src/components/TaskList.jsx:56-57 | sorted by status, no completed task comes before an incomplete one |
| TaskList.ViewByCreated | src/components/TaskList.jsx:58-60 | sorted by date, creation times never increase: newest first |
| TaskList.ViewByTitle | src/components/TaskList.jsx:54-55 | sorted by title, titles are ascending in the collation |
| TaskList.ViewStable | src/components/TaskList.jsx:49 | tasks the comparator ties keep their list order in the view |
| TaskList.ViewByStatusSplits | src/components/TaskList.jsx:56-57 | sorted by status, the view is the incomplete tasks in list order followed by the completed tasks in list order |
| TaskList.Move | src/components/TaskList.jsx:129-131 | the copy-and-splice keeps the length, puts the moved task at the drop position, leaves the other tasks in order, and rearranges the list |
| TaskList.FindIndex | src/components/TaskList.jsx:122 | -1 exactly when no task has the id; otherwise the first position of a task with that id |
| TaskList.ReorderInvisibleByDate | src/components/TaskList.jsx:286 | with all tasks shown by date and distinct creation times, the view of any reordered list equals the view before |
| TaskList.ReorderShowsUnderTies | src/components/TaskList.jsx:116-136 | two incomplete high-priority tasks swapped by a move appear swapped in the view by priority, since the sort keeps tied tasks in list order |
| TaskList.MoveSourceMeaning | src/components/TaskList.jsx:129-131 | after a move each position holds the task from one computed position before it |
| TaskList.MoveKeepsIdsUnique | src/components/TaskList.jsx:129-133 | a move of a list with unique ids has unique ids, so the reorder it emits keeps the reducer's ids unique |
| TaskList.DropMovesDraggedTask | src/components/TaskList.jsx:122-133 | a drop of a task in the list onto another row emits a rearrangement with that task at the drop position |
| TaskList.TaskListState.constructor | src/components/TaskList.jsx:12-17 | the component starts with all tasks by date, no editor open and no drag in progress |
| TaskList.TaskListState.SetFilter | src/components/TaskList.jsx:220 | the filter selector takes the chosen mode; `Rows` then shows that filter's view |
| TaskList.TaskListState.SetSortBy | src/components/TaskList.jsx:245 | the sort selector takes the chosen key; `Rows` then shows the view sorted by it |
| TaskList.TaskListState.Draggable | src/components/TaskList.jsx:286 | rows can be dragged exactly when every task is shown sorted by date: the sort is by date and the filter hides no task |
| TaskList.TaskListState.Rows | src/components/TaskList.jsx:24-65 | in the draggable mode the rows are a rearrangement of the whole list |
| TaskList.TaskListState.StartEditing | src/components/TaskList.jsx:143-146 | the editor opens on the task's id with its title |
| TaskList.TaskListState.SaveEdit | src/components/TaskList.jsx:148-154 | an update of the title to its trimmed form is emitted exactly when that is not empty; the editor closes either way |
| TaskList.TaskListState.CancelEdit | src/components/TaskList.jsx:156-159 | the editor closes without emitting anything |
| TaskList.TaskListState.DragStart | src/components/TaskList.jsx:93-97 | the dragged task is recorded |
| TaskList.TaskListState.DragOver | src/components/TaskList.jsx:99-108 | entering or passing over a row highlights that row |
| TaskList.TaskListState.DragLeave | src/components/TaskList.jsx:110-114 | leaving for something outside the row clears the highlight; otherwise it stays |
| TaskList.TaskListState.DragEnd | src/components/TaskList.jsx:138-141 | the drag state is cleared |
| TaskList.TaskListState.Drop | src/components/TaskList.jsx:116-136 | without a dragged task nothing happens; a drop at the dragged task's own list position emits nothing; otherwise the list with that task moved to the drop position is emitted (the last task if the dragged one is gone); the drag state is cleared |
| Sorting.Sort | src/components/TaskList.jsx:49 | sorting a copy gives a rearrangement of the same length |
| Sorting.SortSorted | src/components/TaskList.jsx:49-62 | under a total preorder the result is sorted |
| Sorting.SortStable | src/components/TaskList.jsx:49-62 | elements the comparator ties leave the sort in the order they entered it |
| Sorting.SortDeterminedByElements | src/components/TaskList.jsx:49-62 | when no two elements tie, sorting any rearrangement of a list gives the same result |
| TaskStats.CompletionRate | src/context/TaskStatsContext.jsx:13 | 0 for an empty list; otherwise the whole percentage nearest to the completed share, halves rounded up; between 0 and 100; 100 when every task is done |
| TaskStats.Tally | src/context/TaskStatsContext.jsx:15-18 | folding tasks into the tally keeps every key and never lowers a count; `TaskStats.TallyCounts` gives the exact counts |
| TaskStats.TallyCounts | src/context/TaskStatsContext.jsx:15-18 | the tally adds, per priority, the number of tasks with it, and has a key only for a priority it met |
| TaskStats.PriorityCountsSum | src/context/TaskStatsContext.jsx:15-18 | the three priority counts add up to the length of the list |
| TaskStats.ComputeStats | src/context/TaskStatsContext.jsx:9-27 | total is the length, completed and pending add up to it, completed lies within it, and the rate lies in 0..100; `TaskStats.StatsMeaning` gives the exact values |
| TaskStats.StatsMeaning | src/context/TaskStatsContext.jsx:9-27 | total is the length; completed and pending count completed and incomplete tasks and lie within the total; the rate is 0 to 100, 0 with no tasks and 100 with all done; the priority map holds each occurring priority's count, and the counts add up to the total |
| TaskStats.StatsPermutationInvariant | src/context/TaskStatsContext.jsx:9-27 | the stats of two rearrangements of one list are equal, so a reorder changes none of them |
| PomodoroTimer.Initial | src/hooks/usePomodoroTimer.js:39-45 | the timer starts stopped with the full duration left, within range for a non-negative duration |
| PomodoroTimer.TimerReducer | src/hooks/usePomodoroTimer.js:13-37 | the time left stays within a non-negative duration; only set-duration changes the duration; only start turns the timer on; a tick takes one second off without going below zero and stops the timer at zero; start and pause only switch the timer; reset and set-duration stop it with the full duration left; other actions change nothing |
| PomodoroTimer.TicksCountDown | src/hooks/usePomodoroTimer.js:21-26 | n ticks take n seconds off, floored at zero, and leave the timer running only if it was running and time remains |
| PomodoroTimer.FreshRunExpires | src/hooks/usePomodoroTimer.js:21-26 | a fresh started timer reaches zero and stops after as many ticks as the duration has seconds, and stays there |
| PomodoroTimer.ResetAfterTicks | src/hooks/usePomodoroTimer.js:19-20 | reset after any ticks restores the full duration, stopped |
| PomodoroTimer.RunStaysInRange | src/hooks/usePomodoroTimer.js:13-45 | any run of actions whose new durations are not negative keeps the time left within the duration |
| PomodoroTimer.DefaultTimer | src/hooks/usePomodoroTimer.js:39-45 | the timer component's hook, called without a duration, starts stopped at 25 minutes (1500 seconds) with no interval |
| PomodoroTimer.TaskTimer.constructor | src/hooks/usePomodoroTimer.js:39-48 | the hook starts with the initial state and holds no interval |
| PomodoroTimer.TaskTimer.StartTimer | src/hooks/usePomodoroTimer.js:51-56 | the reducer starts and a fresh interval is installed; the interval held before is not cleared and becomes an orphan |
| PomodoroTimer.TaskTimer.PauseTimer | src/hooks/usePomodoroTimer.js:58-64 | the reducer pauses; the held interval is cleared and the handle is null |
| PomodoroTimer.TaskTimer.ResetTimer | src/hooks/usePomodoroTimer.js:66-72 | the reducer resets; the held interval is cleared and the handle is null |
| PomodoroTimer.TaskTimer.SetDuration | src/hooks/usePomodoroTimer.js:74-80 | the reducer takes the new duration; the held interval is cleared and the handle is null |
| PomodoroTimer.TaskTimer.TickFrom | src/hooks/usePomodoroTimer.js:53-55 | a live interval's callback dispatches one tick and clears nothing |
| PomodoroTimer.ExpiredRestartLeaks | src/hooks/usePomodoroTimer.js:51-56 | a timer that ran out, started again and then reset leaves one interval live with no handle to clear it |
| PomodoroTimer.TaskTimer.StartTimerClearing | src/hooks/usePomodoroTimer.js:51-56 | a start that clears the held interval first installs a fresh one and orphans nothing |
| PomodoroTimer.ExpiredRestartClearing | src/hooks/usePomodoroTimer.js:51-56 | with the clearing start the same presses leave no live interval |
| TimerView.FormatTime | src/components/Timer.jsx:32-36 | the display is at least five characters long with ':' three characters from its end |
| TimerView.FormatTimeRoundTrip | src/components/Timer.jsx:32-36 | reading minutes and seconds back from the display gives the number of seconds shown, where a readable display has a seconds field below 60 |
| TimerView.ParseTimeFields | src/components/Timer.jsx:33-35 | a display that reads back as n seconds shows n's whole minutes before the ':' and its remaining seconds, below 60, after it; with the round trip, the display of n has exactly these two fields |
| TimerView.FormatTimeLength | src/components/Timer.jsx:32-36 | the display is five characters below 100 minutes and six from 100 to 999 minutes, which covers the 120-minute maximum of the duration input (line 91) |
| TimerView.TwoDigitsLength | src/components/Timer.jsx:35 | a padded minutes field has two characters below 100 and three from 100 to 999 |
| TimerView.TwoDigitsMeaning | src/components/Timer.jsx:35 | a padded field is all digits, at least two, exactly two below 100, and reads back as its number |
| TimerView.HandleDurationChange | src/components/Timer.jsx:39-42 | the timer is set to the custom minutes times 60 seconds, stopped, with its interval cleared |
| TimerView.Progress | src/components/Timer.jsx:44 | 0 for a zero duration |
| TimerView.ProgressBounds | src/components/Timer.jsx:44 | while the time left lies within the duration, progress lies in 0..100: 0 at the full duration, 100 at zero |
| TimerView.ProgressGrowsWithTicks | src/components/Timer.jsx:44 | a tick never lowers the progress shown |
| TaskInput.NewTask | src/components/TaskInput.jsx:22-29 | no task for a blank title; otherwise a task with the given id and creation time, the chosen priority, not completed, whose title is the trimmed title: non-empty and with no whitespace at either end |
| TaskInput.TaskForm.constructor | src/components/TaskInput.jsx:12-13 | the form opens with an empty title and medium priority |
| TaskInput.TaskForm.SetTitle | src/components/TaskInput.jsx:70 | the title field takes the typed text as it is, untrimmed |
| TaskInput.TaskForm.SetPriority | src/components/TaskInput.jsx:108 | the priority field takes the chosen priority |
| TaskInput.TaskForm.HandleSubmit | src/components/TaskInput.jsx:19-37 | emits the task built from the form; on a blank title emits nothing and leaves the form alone; after emitting resets the title to empty and the priority to medium |
| Text.Trim | src/components/TaskInput.jsx:22-25 | trimming yields the infix between the leading and trailing whitespace; it neither starts nor ends with whitespace and is empty exactly when the input is all whitespace |
| Text.TrimIdempotent | src/components/TaskList.jsx:149-150 | trimming a trimmed title changes nothing |
| Text.DecimalString | src/components/Timer.jsx:35 | the decimal digits of a number: at least one, one below 10, at most two below 100, and no leading zero from 10 up |
| Text.ParseDecimalString | src/components/Timer.jsx:35 | reading the digits back gives the number |
| Text.PadStart | src/components/Timer.jsx:35 | padding reaches the width, keeps the string as its suffix, and fills the front with the pad character |

## Left out

- Rendering, inline styles, hover handlers and colours are not modelled. The same goes for the theme context, the responsive-layout hook and the page layout, which are presentation only.
- The storage hook and the storage reads and writes are I/O. `TaskStore.stored` stands for the hook's copy of the `"tasks"` entry. On mount, the source runs the load effect and the sync effect in the same commit. The sync effect can briefly write the empty list before the loaded list is written back. The model treats each effect on its own and does not capture that transient write.
- Tasks.TaskStore.Dispatch: always runs the sync effect. React skips the effect when the reducer returns the very same array (the ignored-action case). Once storage mirrors the list, that skip changes nothing.
- `Date.now()`, `toISOString()` and date parsing are not modelled. A task's id and creation time are integers passed in, and sorting by date compares those integers.
- `localeCompare` is the parameter `collate`. The title-order lemmas assume only that it orders strings as a total preorder.
- Priorities and the two selectors are closed datatypes. A priority string other than low, medium or high, and a selector value other than those offered, are not representable.
- TaskList.TaskListState.SaveEdit: a request whose id is null is emitted as `None` in its id. Passed on to the reducer, such an update matches no task. `Tasks.TaskReducer` takes only integer ids, so that step is not modelled.
- The pass-through toggle and delete callbacks of the task list are not modelled separately. They forward the id unchanged, which is exactly the reducer's toggle and delete.
- Real `setInterval` timing and callback scheduling are not modelled. A tick is the explicit call `TaskTimer.TickFrom`, and the interval registry is the set `live`. Clearing every interval when the component unmounts is not modelled either, because the source does not do it.
- TaskStats.CompletionRate: rounds the exact fraction half up. The source rounds a floating-point quotient, which can fall just below a true half. For 57 of 200 tasks the source shows 28 where the model gives 29.
- TimerView.Progress: exact rational arithmetic, whereas the source computes in floating point.
- TimerView.HandleDurationChange: the custom duration is an integer. A fractional or non-numeric entry from the input field is not modelled.
- TimerView.FormatTime: takes non-negative seconds only. The duration input's `min="1"` (src/components/Timer.jsx:89-91) does not stop a typed negative number, which the change handler converts with `Number` and passes on; the display would then show a negative minutes field such as "-5:00", which the `nat` parameter cannot represent. While the duration is not negative the time left never goes negative (`PomodoroTimer.RunStaysInRange`).
- TimerView.FormatTimeRoundTrip: covers non-negative seconds only, for the same reason.
- The DOM work is not modelled: scrolling to the latest task, the display's font-size effect, focusing the title input, and the drag event's `dataTransfer` fields.

## Findings

| source | as written | input that shows it | evidently intended | confidence | as-written member | corrected member |
|---|---|---|---|---|---|---|
| src/hooks/usePomodoroTimer.js:51-56 | starting installs a new interval over the held handle without clearing it; running out (lines 21-26) only stops the reducer, so the interval stays live, and the Start button stays enabled at 0:00 | duration 1 s: Start, one tick, Start again, Reset → one interval still live and no handle left to clear it | clear any held interval before installing a new one | not executed | PomodoroTimer.ExpiredRestartLeaks | PomodoroTimer.TaskTimer.StartTimerClearing |
