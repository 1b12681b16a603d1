/**
 * The new-task form (src/components/TaskInput.jsx): a title and a priority
 * the user edits, and the submit handler that builds a task from them.
 */
module TaskInput {
  import opened Wrappers
  import opened Text
  import opened Tasks

  /**
   * The task the submit handler emits, if any: none for a title that is only
   * whitespace; otherwise a task with the given id and creation time, the
   * trimmed title (non-empty, with no whitespace at either end), the chosen
   * priority, and not completed.
   */
  function NewTask(title: string, priority: Priority, id: int, createdAt: int): (r: Option<Task>)
    ensures r.None? <==> Blank(title)
    ensures r.Some? ==> r.value.id == id && r.value.createdAt == createdAt
    ensures r.Some? ==> r.value.priority == priority && !r.value.completed
    ensures r.Some? ==> r.value.title == Trim(title) && |r.value.title| > 0
    ensures r.Some? ==> !IsWhitespace(r.value.title[0]) && !IsWhitespace(r.value.title[|r.value.title| - 1])
  {
    var trimmed := Trim(title);
    if trimmed != [] then Some(Task(id, trimmed, priority, false, createdAt)) else None
  }

  class TaskForm {
    var title: string
    var priority: Priority

    /** The form opens with an empty title and medium priority. */
    constructor ()
      ensures title == "" && priority == Medium
    {
      title, priority := "", Medium;
    }

    method SetTitle(text: string)
      modifies this`title
      ensures title == text
    {
      title := text;
    }

    method SetPriority(p: Priority)
      modifies this`priority
      ensures priority == p
    {
      priority := p;
    }

    /**
     * `handleSubmit`: emits the task built from the form (id and creation time
     * come from the clock) and then resets the form to an empty title and
     * medium priority; a blank title emits nothing and leaves the form as it is.
     */
    method HandleSubmit(id: int, createdAt: int) returns (emitted: Option<Task>)
      modifies this
      ensures emitted == NewTask(old(title), old(priority), id, createdAt)
      ensures emitted.None? ==> title == old(title) && priority == old(priority)
      ensures emitted.Some? ==> title == "" && priority == Medium
    {
      emitted := NewTask(title, priority, id, createdAt);
      if emitted.Some? {
        title, priority := "", Medium;
      }
    }
  }
}
