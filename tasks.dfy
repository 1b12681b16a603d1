/**
 * The task list state machine of the application shell (`taskReducer` in
 * src/App.jsx) and the two guards that mirror the list into browser storage.
 */
module Tasks {
  import opened Wrappers
  import opened Sequences

  datatype Priority = Low | Medium | High

  /**
   * A to-do item. `id` (from `Date.now()`) and `createdAt` (an ISO timestamp)
   * are integers here; only their equality and order matter.
   */
  datatype Task = Task(id: int, title: string, priority: Priority, completed: bool, createdAt: int)

  /** The `updates` object of an update command: every field it carries overrides the task's own. */
  datatype Patch = Patch(
    id: Option<int>,
    title: Option<string>,
    priority: Option<Priority>,
    completed: Option<bool>,
    createdAt: Option<int>)

  /** The patch that only renames a task. */
  function TitlePatch(title: string): Patch {
    Patch(None, Some(title), None, None, None)
  }

  /** The task with every field the patch carries overridden by the patch. */
  function Merge(t: Task, u: Patch): Task {
    Task(
      if u.id.Some? then u.id.value else t.id,
      if u.title.Some? then u.title.value else t.title,
      if u.priority.Some? then u.priority.value else t.priority,
      if u.completed.Some? then u.completed.value else t.completed,
      if u.createdAt.Some? then u.createdAt.value else t.createdAt)
  }

  /** The actions dispatched to the reducer; `Other` is any other action type. */
  datatype TaskAction =
    | AddTask(task: Task)
    | ToggleTask(id: int)
    | DeleteTask(id: int)
    | UpdateTask(id: int, updates: Patch)
    | LoadTasks(tasks: seq<Task>)
    | ReorderTasks(tasks: seq<Task>)
    | Other(kind: string)

  predicate IsCompleted(t: Task) {
    t.completed
  }

  predicate IsPending(t: Task) {
    !t.completed
  }

  /** The tasks of priority `p`, in order. */
  function OfPriority(s: seq<Task>, p: Priority): (r: seq<Task>)
    ensures forall i :: 0 <= i < |r| ==> r[i].priority == p
  {
    Filter((t: Task) => t.priority == p, s)
  }

  function Ids(s: seq<Task>): set<int> {
    set i | 0 <= i < |s| :: s[i].id
  }

  predicate UniqueIds(s: seq<Task>) {
    forall i, j :: 0 <= i < j < |s| ==> s[i].id != s[j].id
  }

  /**
   * Toggling completion of the tasks with an id:
   * same length and order; a task with that id has its completion flag flipped
   * and every other field kept; any other task is kept as it is.
   */
  function Toggle(state: seq<Task>, id: int): (r: seq<Task>)
    ensures |r| == |state|
    ensures forall i :: 0 <= i < |r| ==>
      && r[i].id == state[i].id && r[i].title == state[i].title
      && r[i].priority == state[i].priority && r[i].createdAt == state[i].createdAt
      && (r[i].completed <==> (state[i].completed != (state[i].id == id)))
  {
    if state == [] then []
    else
      var t := state[0];
      [if t.id == id then t.(completed := !t.completed) else t] + Toggle(state[1..], id)
  }

  /** Deleting by id: the tasks with any other id, in order. */
  function Delete(state: seq<Task>, id: int): (r: seq<Task>)
    ensures forall i :: 0 <= i < |r| ==> r[i].id != id
  {
    Filter((t: Task) => t.id != id, state)
  }

  /**
   * Patching the tasks with an id:
   * same length and order; a task with that id becomes the merge of the task
   * and the patch; any other task is kept as it is.
   */
  function Update(state: seq<Task>, id: int, updates: Patch): (r: seq<Task>)
    ensures |r| == |state|
    ensures forall i :: 0 <= i < |r| ==> r[i] == if state[i].id == id then Merge(state[i], updates) else state[i]
  {
    if state == [] then []
    else
      var t := state[0];
      [if t.id == id then Merge(t, updates) else t] + Update(state[1..], id, updates)
  }

  /**
   * The task reducer: an add appends the new task at the end, toggle and
   * update keep the length, a delete leaves no task with that id, a load or
   * reorder replaces the list, and any other action leaves it alone.
   */
  function TaskReducer(state: seq<Task>, action: TaskAction): (r: seq<Task>)
    ensures action.AddTask? ==> |r| == |state| + 1 && r[..|state|] == state && r[|state|] == action.task
    ensures action.ToggleTask? || action.UpdateTask? ==> |r| == |state|
    ensures action.DeleteTask? ==> |r| <= |state| && action.id !in Ids(r)
    ensures action.LoadTasks? || action.ReorderTasks? ==> r == action.tasks
    ensures action.Other? ==> r == state
  {
    match action
    case AddTask(task) => state + [task]
    case ToggleTask(id) => Toggle(state, id)
    case DeleteTask(id) => Delete(state, id)
    case UpdateTask(id, updates) => Update(state, id, updates)
    case LoadTasks(tasks) => tasks
    case ReorderTasks(tasks) => tasks
    case Other(_) => state
  }

  /** Toggling the same id twice gives back the original list. */
  lemma {:induction false} ToggleInvolution(state: seq<Task>, id: int)
    ensures Toggle(Toggle(state, id), id) == state
  {
    if state != [] {
      ToggleInvolution(state[1..], id);
      assert Toggle(state, id)[1..] == Toggle(state[1..], id);
    }
  }

  /**
   * Deleting keeps every task with another id, as often as it occurred, in its
   * relative order, and drops every task with that id; a second delete is a no-op.
   */
  lemma DeleteSpec(state: seq<Task>, id: int)
    ensures forall t :: multiset(Delete(state, id))[t] == if t.id == id then 0 else multiset(state)[t]
    ensures forall a, b :: Delete(state + [a] + b, id) == Delete(state, id) + Delete([a], id) + Delete(b, id)
    ensures Delete(Delete(state, id), id) == Delete(state, id)
  {
    var p := (t: Task) => t.id != id;
    forall t ensures multiset(Delete(state, id))[t] == if t.id == id then 0 else multiset(state)[t] {
      FilterCount(p, state, t);
    }
    forall a, b ensures Delete(state + [a] + b, id) == Delete(state, id) + Delete([a], id) + Delete(b, id) {
      FilterAppend(p, state + [a], b);
      FilterAppend(p, state, [a]);
    }
    FilterIdempotent(p, state);
  }

  /** Toggle, delete and update with an id no task has return the list unchanged. */
  lemma {:induction false} AbsentIdIsNoop(state: seq<Task>, action: TaskAction)
    requires action.ToggleTask? || action.DeleteTask? || action.UpdateTask?
    requires action.id !in Ids(state)
    ensures TaskReducer(state, action) == state
  {
    if action.DeleteTask? {
      FilterKeepsAll((t: Task) => t.id != action.id, state);
    } else {
      var r := TaskReducer(state, action);
      assert forall i :: 0 <= i < |state| ==> state[i].id in Ids(state);
      assert |r| == |state|;
      forall i | 0 <= i < |r| ensures r[i] == state[i] {
        assert state[i].id in Ids(state);
      }
    }
  }

  /**
   * The action keeps ids unique: an added task brings an id not yet in the
   * list, an update does not overwrite the id, a loaded or reordered list has
   * unique ids itself.
   */
  predicate KeepsIdsUnique(state: seq<Task>, action: TaskAction) {
    match action
    case AddTask(task) => task.id !in Ids(state)
    case UpdateTask(_, updates) => updates.id.None?
    case LoadTasks(tasks) => UniqueIds(tasks)
    case ReorderTasks(tasks) => UniqueIds(tasks)
    case _ => true
  }

  /** Ids stay unique under every action that respects the rule above. */
  lemma ReducerKeepsIdsUnique(state: seq<Task>, action: TaskAction)
    requires UniqueIds(state)
    requires KeepsIdsUnique(state, action)
    ensures UniqueIds(TaskReducer(state, action))
  {
    var r := TaskReducer(state, action);
    match action
    case AddTask(task) =>
      forall i, j | 0 <= i < j < |r| ensures r[i].id != r[j].id {
        if j == |state| {
          assert state[i].id in Ids(state);
        }
      }
    case DeleteTask(id) =>
      FilterKeepsPairwise((t: Task) => t.id != id, (a: Task, b: Task) => a.id != b.id, state);
    case _ =>
  }

  /** The list the reducer reaches from `state` through `actions`, one after the other. */
  function Run(state: seq<Task>, actions: seq<TaskAction>): seq<Task>
    decreases |actions|
  {
    if actions == [] then state else Run(TaskReducer(state, actions[0]), actions[1..])
  }

  /** Every action of the run keeps ids unique in the state it meets. */
  predicate RunKeepsIdsUnique(state: seq<Task>, actions: seq<TaskAction>)
    decreases |actions|
  {
    actions == []
    || (KeepsIdsUnique(state, actions[0]) && RunKeepsIdsUnique(TaskReducer(state, actions[0]), actions[1..]))
  }

  /** The ids the add commands of a run bring. */
  function AddedIds(actions: seq<TaskAction>): set<int> {
    set i | 0 <= i < |actions| && actions[i].AddTask? :: actions[i].task.id
  }

  /** The commands the task list issues: everything but loading and reordering a whole list. */
  predicate IsEdit(a: TaskAction) {
    a.AddTask? || a.ToggleTask? || a.DeleteTask? || (a.UpdateTask? && a.updates.id.None?)
  }

  /** An edit brings no id into the list except the id of an added task. */
  lemma StepIds(state: seq<Task>, a: TaskAction)
    requires IsEdit(a)
    ensures Ids(TaskReducer(state, a)) <= Ids(state) + (if a.AddTask? then {a.task.id} else {})
  {
    var next := TaskReducer(state, a);
    if a.DeleteTask? {
      DeleteSpec(state, a.id);
    }
    forall k | k in Ids(next) ensures k in Ids(state) + (if a.AddTask? then {a.task.id} else {}) {
      var i :| 0 <= i < |next| && next[i].id == k;
      if a.AddTask? {
        if i < |state| {
          assert state[i].id == k;
        }
      } else if a.DeleteTask? {
        assert next[i] in multiset(next);
        assert next[i] in multiset(state);
      } else {
        assert state[i].id == k;
      }
    }
  }

  /** After edits only, every id in the list was there at the start or came with an add. */
  lemma {:induction false} RunIdsFromAdds(state: seq<Task>, actions: seq<TaskAction>)
    requires forall i :: 0 <= i < |actions| ==> IsEdit(actions[i])
    ensures Ids(Run(state, actions)) <= Ids(state) + AddedIds(actions)
    decreases |actions|
  {
    if actions != [] {
      var a := actions[0];
      StepIds(state, a);
      RunIdsFromAdds(TaskReducer(state, a), actions[1..]);
      assert AddedIds(actions[1..]) <= AddedIds(actions) by {
        forall k | k in AddedIds(actions[1..]) ensures k in AddedIds(actions) {
          var i :| 0 <= i < |actions[1..]| && actions[1..][i].AddTask? && actions[1..][i].task.id == k;
          assert actions[i + 1] == actions[1..][i];
        }
      }
      assert a.AddTask? ==> a.task.id in AddedIds(actions);
    }
  }

  /** A whole run of id-respecting actions keeps ids unique. */
  lemma {:induction false} RunKeepsUnique(state: seq<Task>, actions: seq<TaskAction>)
    requires UniqueIds(state)
    requires RunKeepsIdsUnique(state, actions)
    ensures UniqueIds(Run(state, actions))
    decreases |actions|
  {
    if actions != [] {
      ReducerKeepsIdsUnique(state, actions[0]);
      RunKeepsUnique(TaskReducer(state, actions[0]), actions[1..]);
    }
  }

  /**
   * The mount effect loads the stored list only when it has tasks and the
   * list in memory has none; a load it allows always changes the list.
   */
  predicate ShouldLoadOnMount(stored: seq<Task>, tasks: seq<Task>): (load: bool)
    ensures load ==> tasks == [] && TaskReducer(tasks, LoadTasks(stored)) == stored != tasks
    ensures stored == [] ==> !load
  {
    |stored| > 0 && |tasks| == 0
  }

  /**
   * The sync effect writes the list back only when the list or the stored
   * copy has tasks; when it skips the write the two are both empty already.
   */
  predicate ShouldSync(tasks: seq<Task>, stored: seq<Task>): (w: bool)
    ensures !w ==> tasks == stored
  {
    |tasks| > 0 || |stored| > 0
  }

  /**
   * The application's task state: the reducer's list and the `"tasks"` entry
   * of browser storage as the storage hook holds it.
   */
  class TaskStore {
    var tasks: seq<Task>
    var stored: seq<Task>

    /** The reducer starts from `[]`; the storage hook starts from what was persisted. */
    constructor (persisted: seq<Task>)
      ensures tasks == [] && stored == persisted
    {
      tasks := [];
      stored := persisted;
    }

    /** The load-on-mount effect. */
    method LoadOnMount()
      modifies this
      ensures tasks == if ShouldLoadOnMount(old(stored), old(tasks)) then old(stored) else old(tasks)
      ensures stored == old(stored)
    {
      if ShouldLoadOnMount(stored, tasks) {
        tasks := TaskReducer(tasks, LoadTasks(stored));
      }
    }

    /** One dispatch followed by the sync effect it triggers: storage mirrors the new list. */
    method Dispatch(action: TaskAction)
      modifies this
      ensures tasks == TaskReducer(old(tasks), action)
      ensures stored == tasks
    {
      tasks := TaskReducer(tasks, action);
      if ShouldSync(tasks, stored) {
        stored := tasks;
      }
    }
  }
}
