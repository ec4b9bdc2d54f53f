/**
  The page's task list: the module-level variable `tasks`. `addTask` changes
  the array in place with `unshift`; `toggleComplete` and `disableEdit`
  assign a field of one record; `deleteTask`, the drop handler and the clear
  button assign a new array to `tasks`. Each change that saves ends with
  `saveTasks()`. The durable copy is the ghost field `saved`; every method
  says what `tasks` and `saved` are afterwards. Each keeps `Valid()` (unique ids, trimmed non-empty texts)
  when it held before, except that `AddTask` needs a fresh id and `Drop` an
  id list without duplicates for that.
 */
module Store {
  import opened Text
  import opened Tasks

  class TaskStore {
    var tasks: seq<Task>
    /** The list as last written by `saveTasks()`. */
    ghost var saved: seq<Task>

    ghost predicate Valid()
      reads this
    {
      WellFormed(tasks)
    }

    /** The list `loadTasks()` produced at start-up. */
    constructor (loaded: seq<Task>)
      ensures tasks == loaded && saved == loaded
    {
      tasks := loaded;
      saved := loaded;
    }

    /** `saveTasks()`: write the current list to the durable slot. */
    ghost method SaveTasks()
      modifies this`saved
      ensures saved == tasks
    {
      saved := tasks;
    }

    /** `addTask(text)`, with `id` standing for the value `uid()` returns. */
    method AddTask(text: string, id: TaskId)
      modifies this
      ensures Trim(text) == [] ==> tasks == old(tasks) && saved == old(saved)
      ensures Trim(text) != [] ==> tasks == Added(old(tasks), id, Trim(text)) && saved == tasks
      ensures old(Valid()) && id !in Ids(old(tasks)) ==> Valid()
    {
      var trimmed := Trim(text);
      if trimmed == [] {
        return;
      }
      if Valid() && id !in Ids(tasks) {
        AddedWellFormed(tasks, id, text);
      }
      tasks := [Task(id, trimmed, false)] + tasks;  // tasks.unshift(...)
      SaveTasks();
    }

    /** `deleteTask(id)`: saves whether or not a task had the id. */
    method DeleteTask(id: TaskId)
      modifies this
      ensures tasks == Without(old(tasks), id) && saved == tasks
      ensures old(Valid()) ==> Valid()
    {
      if Valid() {
        WithoutWellFormed(tasks, id);
      }
      tasks := Without(tasks, id);
      SaveTasks();
    }

    /** `toggleComplete(id, isCompleted)`: sets the flag of the first task with
        the id; without such a task nothing changes and nothing is saved. */
    method ToggleComplete(id: TaskId, isCompleted: bool)
      modifies this
      ensures id !in Ids(old(tasks)) ==> tasks == old(tasks) && saved == old(saved)
      ensures id in Ids(old(tasks)) ==> tasks == SetCompleted(old(tasks), id, isCompleted) && saved == tasks
      ensures old(Valid()) ==> Valid()
    {
      var found := FindIndex(tasks, id);
      if found.None? {
        return;
      }
      var i := found.value;
      if Valid() {
        SetCompletedWellFormed(tasks, id, isCompleted);
      }
      SetCompletedAt(tasks, id, isCompleted, i);
      tasks := tasks[i := tasks[i].(completed := isCompleted)];
      SaveTasks();
    }

    /** `disableEdit`: commit the edited text of a task. An edit that trims to
        nothing deletes the task; otherwise the first task with the id gets
        the trimmed text. The list is saved in every case, even when no task
        has the id. */
    method DisableEdit(id: TaskId, newText: string)
      modifies this
      ensures Trim(newText) == [] ==> tasks == Without(old(tasks), id)
      ensures Trim(newText) != [] ==> tasks == SetText(old(tasks), id, Trim(newText))
      ensures saved == tasks
      ensures old(Valid()) ==> Valid()
    {
      var trimmed := Trim(newText);
      if trimmed == [] {
        DeleteTask(id);
        return;
      }
      ghost var wasValid := Valid();
      var found := FindIndex(tasks, id);
      if found.None? {
        FindIndexNone(tasks, id);
        SetTextAbsent(tasks, id, trimmed);
      } else {
        var i := found.value;
        SetTextAt(tasks, id, trimmed, i);
        if wasValid {
          TrimIdempotent(newText);
          SetTextWellFormed(tasks, id, trimmed);
        }
        tasks := tasks[i := tasks[i].(text := trimmed)];
      }
      SaveTasks();
    }

    /** The drop handler: rebuild the list from the ids of the list items in
        their final order. */
    method Drop(ids: seq<TaskId>)
      modifies this
      ensures tasks == Reordered(old(tasks), ids) && saved == tasks
      ensures old(Valid()) && NoDuplicates(ids) ==> Valid()
    {
      if Valid() && NoDuplicates(ids) {
        ReorderedWellFormed(tasks, ids);
      }
      tasks := Reordered(tasks, ids);
      SaveTasks();
    }

    /** The clear button, once the user has confirmed. */
    method Clear()
      modifies this
      ensures tasks == [] && saved == []
      ensures Valid()
    {
      tasks := [];
      SaveTasks();
    }
  }
}
