/**
 * The task list component (src/components/TaskList.jsx): the filtered and
 * sorted view it shows, the drag-and-drop reorder it emits, and the edit and
 * drag state it keeps.
 */
module TaskList {
  import opened Wrappers
  import opened Sequences
  import opened Sorting
  import opened Text
  import opened Tasks

  /** The filter select: all, completed, pending, or one priority. */
  datatype FilterMode = All | CompletedOnly | PendingOnly | PriorityOnly(priority: Priority)

  /** The sort select: by date (the default), priority, title or status. */
  datatype SortKey = ByCreated | ByPriority | ByTitle | ByStatus

  /** The filter step of the memoised view. */
  function FilterTasks(tasks: seq<Task>, mode: FilterMode): (r: seq<Task>)
    ensures |r| <= |tasks|
    ensures forall i :: 0 <= i < |r| ==> Shows(mode, r[i])
    ensures mode == All ==> r == tasks
  {
    match mode
    case All => tasks
    case CompletedOnly => Filter(IsCompleted, tasks)
    case PendingOnly => Filter(IsPending, tasks)
    case PriorityOnly(p) => OfPriority(tasks, p)
  }

  /** Whether a task passes the filter. */
  predicate Shows(mode: FilterMode, t: Task) {
    match mode
    case All => true
    case CompletedOnly => t.completed
    case PendingOnly => !t.completed
    case PriorityOnly(p) => t.priority == p
  }

  /**
   * Each filter keeps exactly the tasks that match it, each as often as it
   * occurs and in list order; `all` keeps the list as it is.
   */
  lemma FilterKeepsMatching(tasks: seq<Task>, mode: FilterMode)
    ensures forall t :: multiset(FilterTasks(tasks, mode))[t] == if Shows(mode, t) then multiset(tasks)[t] else 0
    ensures forall i :: 0 <= i < |FilterTasks(tasks, mode)| ==> Shows(mode, FilterTasks(tasks, mode)[i])
    ensures mode == All ==> FilterTasks(tasks, mode) == tasks
  {
    forall t ensures multiset(FilterTasks(tasks, mode))[t] == if Shows(mode, t) then multiset(tasks)[t] else 0 {
      match mode
      case All =>
      case CompletedOnly => FilterCount(IsCompleted, tasks, t);
      case PendingOnly => FilterCount(IsPending, tasks, t);
      case PriorityOnly(p) => FilterCount((x: Task) => x.priority == p, tasks, t);
    }
  }

  /** The completed and pending filters split the list between them. */
  lemma CompletedPendingPartition(tasks: seq<Task>)
    ensures multiset(FilterTasks(tasks, CompletedOnly)) + multiset(FilterTasks(tasks, PendingOnly)) == multiset(tasks)
    ensures |FilterTasks(tasks, CompletedOnly)| + |FilterTasks(tasks, PendingOnly)| == |tasks|
  {
    FilterPartition(IsCompleted, IsPending, tasks);
  }

  /** `priorityOrder` of the comparator. */
  function Rank(p: Priority): int {
    match p
    case High => 3
    case Medium => 2
    case Low => 1
  }

  /** A completion flag read as a number, as the status comparator subtracts them. */
  function Bit(b: bool): int {
    if b then 1 else 0
  }

  /**
   * The comparator handed to `sort`; `collate` is `String.prototype.localeCompare`,
   * whose collation the model leaves open.
   */
  function Compare(key: SortKey, collate: (string, string) -> int, a: Task, b: Task): (r: int)
    ensures key == ByPriority ==> (r <= 0 <==> Rank(a.priority) >= Rank(b.priority))
    ensures key == ByStatus ==> (r <= 0 <==> !a.completed || b.completed)
    ensures key == ByCreated ==> (r <= 0 <==> a.createdAt >= b.createdAt)
    ensures key == ByTitle ==> (r <= 0 <==> collate(a.title, b.title) <= 0)
  {
    match key
    case ByPriority => Rank(b.priority) - Rank(a.priority)
    case ByTitle => collate(a.title, b.title)
    case ByStatus => Bit(a.completed) - Bit(b.completed)
    case ByCreated => b.createdAt - a.createdAt
  }

  /** `a` may stay in front of `b`: the comparator does not put `b` first. */
  function Precedes(key: SortKey, collate: (string, string) -> int): (le: (Task, Task) -> bool)
    ensures key != ByTitle ==> TotalPreorder(le)
  {
    (a: Task, b: Task) => Compare(key, collate, a, b) <= 0
  }

  /** A collation that orders all strings consistently, as `localeCompare` is meant to. */
  ghost predicate IsCollation(collate: (string, string) -> int) {
    && (forall x, y :: collate(x, y) <= 0 || collate(y, x) <= 0)
    && (forall x, y, z :: collate(x, y) <= 0 && collate(y, z) <= 0 ==> collate(x, z) <= 0)
  }

  lemma PrecedesIsPreorder(key: SortKey, collate: (string, string) -> int)
    requires key == ByTitle ==> IsCollation(collate)
    ensures TotalPreorder(Precedes(key, collate))
  {
  }

  /**
   * `filteredAndSortedTasks`: the filtered tasks, sorted stably on a copy.
   * It is a rearrangement of the filtered tasks.
   */
  function View(tasks: seq<Task>, mode: FilterMode, key: SortKey, collate: (string, string) -> int): (r: seq<Task>)
    ensures |r| == |FilterTasks(tasks, mode)|
    ensures multiset(r) == multiset(FilterTasks(tasks, mode))
  {
    Sort(Precedes(key, collate), FilterTasks(tasks, mode))
  }

  /** By priority: ranks never increase, so high comes before medium and medium before low. */
  lemma ViewByPriority(tasks: seq<Task>, mode: FilterMode, collate: (string, string) -> int)
    ensures forall i, j :: 0 <= i < j < |View(tasks, mode, ByPriority, collate)| ==>
      Rank(View(tasks, mode, ByPriority, collate)[i].priority) >= Rank(View(tasks, mode, ByPriority, collate)[j].priority)
  {
    SortSorted(Precedes(ByPriority, collate), FilterTasks(tasks, mode));
  }

  /** By status: no completed task comes before an incomplete one. */
  lemma ViewByStatus(tasks: seq<Task>, mode: FilterMode, collate: (string, string) -> int)
    ensures forall i, j :: 0 <= i < j < |View(tasks, mode, ByStatus, collate)| && View(tasks, mode, ByStatus, collate)[i].completed ==>
      View(tasks, mode, ByStatus, collate)[j].completed
  {
    SortSorted(Precedes(ByStatus, collate), FilterTasks(tasks, mode));
  }

  /** By date: newest first. */
  lemma ViewByCreated(tasks: seq<Task>, mode: FilterMode, collate: (string, string) -> int)
    ensures forall i, j :: 0 <= i < j < |View(tasks, mode, ByCreated, collate)| ==>
      View(tasks, mode, ByCreated, collate)[i].createdAt >= View(tasks, mode, ByCreated, collate)[j].createdAt
  {
    SortSorted(Precedes(ByCreated, collate), FilterTasks(tasks, mode));
  }

  /** By title: ascending in the collation. */
  lemma ViewByTitle(tasks: seq<Task>, mode: FilterMode, collate: (string, string) -> int)
    requires IsCollation(collate)
    ensures forall i, j :: 0 <= i < j < |View(tasks, mode, ByTitle, collate)| ==>
      collate(View(tasks, mode, ByTitle, collate)[i].title, View(tasks, mode, ByTitle, collate)[j].title) <= 0
  {
    SortSorted(Precedes(ByTitle, collate), FilterTasks(tasks, mode));
  }

  /** Tasks the comparator ties with `z` appear in the view in the order they have in the list. */
  lemma ViewStable(tasks: seq<Task>, mode: FilterMode, key: SortKey, collate: (string, string) -> int, z: Task)
    requires key == ByTitle ==> IsCollation(collate)
    ensures Ties(Precedes(key, collate), z, View(tasks, mode, key, collate))
         == Ties(Precedes(key, collate), z, FilterTasks(tasks, mode))
  {
    SortStable(Precedes(key, collate), z, FilterTasks(tasks, mode));
  }

  /** Ties with an incomplete task under the status order are the incomplete tasks, and likewise for completed ones. */
  lemma {:induction false} StatusTies(z: Task, collate: (string, string) -> int, s: seq<Task>)
    ensures Ties(Precedes(ByStatus, collate), z, s) == Filter(if z.completed then IsCompleted else IsPending, s)
  {
    if s != [] {
      StatusTies(z, collate, s[1..]);
    }
  }

  /** Every incomplete task comes before every completed one. */
  predicate StatusOrdered(r: seq<Task>) {
    forall i, j :: 0 <= i < j < |r| && r[i].completed ==> r[j].completed
  }

  /** A status-ordered sequence is its incomplete tasks followed by its completed ones. */
  lemma {:induction false} StatusOrderedSplits(r: seq<Task>)
    requires StatusOrdered(r)
    ensures r == Filter(IsPending, r) + Filter(IsCompleted, r)
  {
    if r == [] {
    } else if r[0].completed {
      AllCompletedSplit(r);
    } else {
      var tail := r[1..];
      StatusOrderedTail(r);
      StatusOrderedSplits(tail);
      var pending, completed := Filter(IsPending, tail), Filter(IsCompleted, tail);
      assert Filter(IsPending, r) == [r[0]] + pending;
      assert Filter(IsCompleted, r) == completed;
      assert ([r[0]] + pending) + completed == [r[0]] + (pending + completed);
      assert r == [r[0]] + tail;
    }
  }

  lemma StatusOrderedTail(r: seq<Task>)
    requires StatusOrdered(r) && r != []
    ensures StatusOrdered(r[1..])
  {
    var tail := r[1..];
    forall i, j | 0 <= i < j < |tail| && tail[i].completed ensures tail[j].completed {
      assert tail[i] == r[i + 1] && tail[j] == r[j + 1];
    }
  }

  lemma AllCompletedSplit(r: seq<Task>)
    requires StatusOrdered(r) && r != [] && r[0].completed
    ensures r == Filter(IsPending, r) + Filter(IsCompleted, r)
  {
    forall i | 0 <= i < |r| ensures IsCompleted(r[i]) && !IsPending(r[i]) {
      if i > 0 {
        assert r[0].completed ==> r[i].completed;
      }
    }
    FilterKeepsAll(IsCompleted, r);
    FilterKeepsNone(IsPending, r);
    assert [] + r == r;
  }

  /**
   * Sorting by status is stable in full: the view is the incomplete tasks in
   * list order followed by the completed tasks in list order.
   */
  lemma ViewByStatusSplits(tasks: seq<Task>, mode: FilterMode, collate: (string, string) -> int)
    ensures View(tasks, mode, ByStatus, collate)
         == Filter(IsPending, FilterTasks(tasks, mode)) + Filter(IsCompleted, FilterTasks(tasks, mode))
  {
    var f := FilterTasks(tasks, mode);
    var r := View(tasks, mode, ByStatus, collate);
    ViewByStatus(tasks, mode, collate);
    StatusOrderedSplits(r);
    var pending := Task(0, "", Low, false, 0);
    var done := pending.(completed := true);
    ViewStable(tasks, mode, ByStatus, collate, pending);
    ViewStable(tasks, mode, ByStatus, collate, done);
    StatusTies(pending, collate, r);
    StatusTies(pending, collate, f);
    StatusTies(done, collate, r);
    StatusTies(done, collate, f);
  }

  /** The list without the element at `i`: `splice(i, 1)`. */
  function RemoveAt(s: seq<Task>, i: int): seq<Task>
    requires 0 <= i < |s|
  {
    s[..i] + s[i + 1..]
  }

  /**
   * The copy-and-splice of the drop handler with valid indices: the task at
   * `from` ends at `to`, the others keep their relative order, and the result
   * is a rearrangement of the list.
   */
  function Move(tasks: seq<Task>, from: int, to: int): (r: seq<Task>)
    requires 0 <= from < |tasks| && 0 <= to < |tasks|
    ensures |r| == |tasks| && r[to] == tasks[from]
    ensures RemoveAt(r, to) == RemoveAt(tasks, from)
    ensures multiset(r) == multiset(tasks)
  {
    var rest := RemoveAt(tasks, from);
    var r := rest[..to] + [tasks[from]] + rest[to..];
    assert r[..to] + r[to + 1..] == rest;
    assert tasks == tasks[..from] + [tasks[from]] + tasks[from + 1..];
    assert rest == rest[..to] + rest[to..];
    assert multiset(rest) == multiset(tasks[..from]) + multiset(tasks[from + 1..]);
    assert multiset(rest) == multiset(rest[..to]) + multiset(rest[to..]);
    assert multiset(r) == multiset(rest[..to]) + multiset{tasks[from]} + multiset(rest[to..]);
    assert multiset(tasks) == multiset(tasks[..from]) + multiset{tasks[from]} + multiset(tasks[from + 1..]);
    assert multiset(r) == multiset(rest) + multiset{tasks[from]};
    assert multiset(tasks) == multiset(rest) + multiset{tasks[from]};
    r
  }

  /** The first position of a task with that id, or -1 when there is none. */
  function FindIndex(tasks: seq<Task>, id: int): (r: int)
    ensures -1 <= r < |tasks|
    ensures r == -1 <==> id !in Ids(tasks)
    ensures r >= 0 ==> tasks[r].id == id && forall k :: 0 <= k < r ==> tasks[k].id != id
  {
    if tasks == [] then -1
    else if tasks[0].id == id then 0
    else
      var k := FindIndex(tasks[1..], id);
      assert id in Ids(tasks[1..]) <==> id in Ids(tasks) by {
        assert forall i :: 0 <= i < |tasks[1..]| ==> tasks[1..][i] == tasks[i + 1];
      }
      if k == -1 then -1 else k + 1
  }

  /** The start position `splice` uses for a start in -1 .. length - 1: -1 counts from the end. */
  function SpliceStart(start: int, length: int): int {
    if start < 0 then length + start else start
  }

  /**
   * The drag-and-drop reorder is invisible in the one mode where rows are
   * draggable (all tasks, sorted by date): when no two tasks share a creation
   * time, the view of the reordered list is the view of the list before.
   */
  lemma ReorderInvisibleByDate(tasks: seq<Task>, from: int, to: int, collate: (string, string) -> int)
    requires 0 <= from < |tasks| && 0 <= to < |tasks|
    requires forall i, j :: 0 <= i < j < |tasks| ==> tasks[i].createdAt != tasks[j].createdAt
    ensures View(Move(tasks, from, to), All, ByCreated, collate) == View(tasks, All, ByCreated, collate)
  {
    var le := Precedes(ByCreated, collate);
    forall a, b | a in multiset(tasks) && b in multiset(tasks) && le(a, b) && le(b, a) ensures a == b {
      var i :| 0 <= i < |tasks| && tasks[i] == a;
      var j :| 0 <= j < |tasks| && tasks[j] == b;
      assert a.createdAt == b.createdAt;
      assert i == j;
    }
    SortDeterminedByElements(le, tasks, Move(tasks, from, to));
  }

  /**
   * The reorder does show under a sort key that ties the moved tasks: two
   * high-priority tasks swapped by a drag appear swapped when sorted by
   * priority, since the stable sort keeps their new list order.
   */
  lemma ReorderShowsUnderTies(collate: (string, string) -> int)
    ensures var tasks := [Task(1, "a", High, false, 10), Task(2, "b", High, false, 20)];
      View(Move(tasks, 0, 1), All, ByPriority, collate) != View(tasks, All, ByPriority, collate)
  {
    var t1, t2 := Task(1, "a", High, false, 10), Task(2, "b", High, false, 20);
    var le := Precedes(ByPriority, collate);
    assert Move([t1, t2], 0, 1) == [t2, t1];
    assert Sort(le, [t1]) == [t1];
    assert Sort(le, [t2]) == [t2];
    assert Sort(le, [t2, t1]) == Insert(le, t2, [t1]) == [t2, t1];
    assert Sort(le, [t1, t2]) == Insert(le, t1, [t2]) == [t1, t2];
  }

  /** The position in the list before the move of the task at position `k` after it. */
  function MoveSource(from: int, to: int, k: int): int {
    if k == to then from
    else
      var j := if k < to then k else k - 1;
      if j < from then j else j + 1
  }

  /** After a move, position `k` holds the task that stood at `MoveSource(from, to, k)` before it. */
  lemma MoveSourceMeaning(tasks: seq<Task>, from: int, to: int, k: int)
    requires 0 <= from < |tasks| && 0 <= to < |tasks| && 0 <= k < |tasks|
    ensures 0 <= MoveSource(from, to, k) < |tasks|
    ensures Move(tasks, from, to)[k] == tasks[MoveSource(from, to, k)]
  {
    var rest := RemoveAt(tasks, from);
    var r := rest[..to] + [tasks[from]] + rest[to..];
    assert Move(tasks, from, to) == r;
    if k != to {
      var j := if k < to then k else k - 1;
      assert r[k] == rest[j];
    }
  }

  /** Distinct positions after a move come from distinct positions before it. */
  lemma MoveSourceInjective(from: int, to: int, k: int, m: int)
    requires k != m
    ensures MoveSource(from, to, k) != MoveSource(from, to, m)
  {
  }

  /** A move keeps ids unique, so the list a drop emits may be dispatched as a reorder. */
  lemma MoveKeepsIdsUnique(tasks: seq<Task>, from: int, to: int)
    requires 0 <= from < |tasks| && 0 <= to < |tasks|
    requires UniqueIds(tasks)
    ensures UniqueIds(Move(tasks, from, to))
    ensures KeepsIdsUnique(tasks, ReorderTasks(Move(tasks, from, to)))
  {
    var r := Move(tasks, from, to);
    forall i, j | 0 <= i < j < |r| ensures r[i].id != r[j].id {
      MoveSourceMeaning(tasks, from, to, i);
      MoveSourceMeaning(tasks, from, to, j);
      MoveSourceInjective(from, to, i, j);
      var a, b := MoveSource(from, to, i), MoveSource(from, to, j);
      if a < b {
        assert tasks[a].id != tasks[b].id;
      } else {
        assert tasks[b].id != tasks[a].id;
      }
    }
  }

  /** What the save handler passes to the update callback: the editing id (maybe null) and the patch. */
  datatype UpdateRequest = UpdateRequest(id: Option<int>, updates: Patch)

  /** The component's own state: the two selectors, the inline editor and the drag in progress. */
  class TaskListState {
    var filter: FilterMode
    var sortBy: SortKey
    var editingId: Option<int>
    var editTitle: string
    var draggedTask: Option<Task>
    var dragOverIndex: Option<int>

    constructor ()
      ensures filter == All && sortBy == ByCreated
      ensures editingId == None && editTitle == ""
      ensures draggedTask == None && dragOverIndex == None
    {
      filter, sortBy := All, ByCreated;
      editingId, editTitle := None, "";
      draggedTask, dragOverIndex := None, None;
    }

    method SetFilter(mode: FilterMode)
      modifies this`filter
      ensures filter == mode
    {
      filter := mode;
    }

    method SetSortBy(key: SortKey)
      modifies this`sortBy
      ensures sortBy == key
    {
      sortBy := key;
    }

    /** Rows can be dragged exactly when every task is shown, sorted by date. */
    predicate Draggable(): (d: bool)
      reads this
      ensures d <==> sortBy == ByCreated && forall t: Task :: Shows(filter, t)
    {
      var pending, done := Task(0, "", High, false, 0), Task(0, "", Low, true, 0);
      assert filter != All ==> !Shows(filter, pending) || !Shows(filter, done);
      filter == All && sortBy == ByCreated
    }

    /** The rows shown for the current selectors. */
    function Rows(tasks: seq<Task>, collate: (string, string) -> int): (r: seq<Task>)
      reads this
      ensures Draggable() ==> multiset(r) == multiset(tasks)
    {
      View(tasks, filter, sortBy, collate)
    }

    method StartEditing(task: Task)
      modifies this`editingId, this`editTitle
      ensures editingId == Some(task.id) && editTitle == task.title
    {
      editingId, editTitle := Some(task.id), task.title;
    }

    /**
     * `saveEdit`: emits an update of the title to its trimmed form only when
     * that is not empty; the editor is closed either way.
     */
    method SaveEdit() returns (request: Option<UpdateRequest>)
      modifies this`editingId, this`editTitle
      ensures request.Some? <==> Trim(old(editTitle)) != []
      ensures request.Some? ==> request.value == UpdateRequest(old(editingId), TitlePatch(Trim(old(editTitle))))
      ensures editingId == None && editTitle == ""
    {
      var trimmed := Trim(editTitle);
      if trimmed != [] {
        request := Some(UpdateRequest(editingId, TitlePatch(trimmed)));
      } else {
        request := None;
      }
      editingId, editTitle := None, "";
    }

    /** `cancelEdit`: closes the editor without emitting anything. */
    method CancelEdit()
      modifies this`editingId, this`editTitle
      ensures editingId == None && editTitle == ""
    {
      editingId, editTitle := None, "";
    }

    method DragStart(task: Task)
      modifies this`draggedTask
      ensures draggedTask == Some(task)
    {
      draggedTask := Some(task);
    }

    /** Entering or passing over a row highlights it. */
    method DragOver(index: int)
      modifies this`dragOverIndex
      ensures dragOverIndex == Some(index)
    {
      dragOverIndex := Some(index);
    }

    /** Leaving a row for something outside it clears the highlight. */
    method DragLeave(leftRow: bool)
      modifies this`dragOverIndex
      ensures dragOverIndex == if leftRow then None else old(dragOverIndex)
    {
      if leftRow {
        dragOverIndex := None;
      }
    }

    method DragEnd()
      modifies this`draggedTask, this`dragOverIndex
      ensures draggedTask == None && dragOverIndex == None
    {
      draggedTask, dragOverIndex := None, None;
    }

    /**
     * `handleDrop` on the row shown at `dropIndex`. Without a dragged task
     * nothing happens. The dragged task is looked up in the unsorted list; if
     * it sits at `dropIndex` nothing is emitted, otherwise the list with it
     * moved to `dropIndex` is. A dragged task no longer in the list gives
     * index -1, and `splice(-1, 1)` then moves the last task instead.
     */
    method Drop(tasks: seq<Task>, dropIndex: int) returns (reorder: Option<seq<Task>>)
      requires 0 <= dropIndex < |tasks|
      modifies this`draggedTask, this`dragOverIndex
      ensures old(draggedTask).None? ==> reorder == None && draggedTask == None && dragOverIndex == old(dragOverIndex)
      ensures old(draggedTask).Some? ==> draggedTask == None && dragOverIndex == None
      ensures old(draggedTask).Some? ==>
        var from := FindIndex(tasks, old(draggedTask).value.id);
        reorder == if from == dropIndex then None else Some(Move(tasks, SpliceStart(from, |tasks|), dropIndex))
    {
      if draggedTask.None? {
        return None;
      }
      var dragIndex := FindIndex(tasks, draggedTask.value.id);
      if dragIndex == dropIndex {
        reorder := None;
      } else {
        // remove the dragged task from a copy, then insert it at the drop position
        var from := SpliceStart(dragIndex, |tasks|);
        var newTasks := tasks;
        var removed := newTasks[from];
        newTasks := newTasks[..from] + newTasks[from + 1..];
        newTasks := newTasks[..dropIndex] + [removed] + newTasks[dropIndex..];
        assert newTasks == Move(tasks, from, dropIndex);
        reorder := Some(newTasks);
      }
      draggedTask, dragOverIndex := None, None;
    }
  }

  /**
   * A drop of a task that is in the list, onto another row, emits a
   * rearrangement of the list with that task at the drop position.
   */
  lemma DropMovesDraggedTask(tasks: seq<Task>, dragged: Task, dropIndex: int)
    requires 0 <= dropIndex < |tasks| && dragged in tasks
    requires FindIndex(tasks, dragged.id) != dropIndex
    ensures var r := Move(tasks, SpliceStart(FindIndex(tasks, dragged.id), |tasks|), dropIndex);
      multiset(r) == multiset(tasks) && r[dropIndex].id == dragged.id
  {
    var i :| 0 <= i < |tasks| && tasks[i] == dragged;
    assert dragged.id in Ids(tasks);
  }
}
