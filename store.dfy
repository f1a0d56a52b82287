/**
 * The planner's task store: the task array the page keeps in memory, the
 * snapshot it writes to local storage, and the handlers that change them.
 * Every handler follows the page's order of steps: change the array, save it,
 * then render, which sorts the array in place before drawing it.
 */
module Store {
  import opened Tasks

  datatype Option<T> = None | Some(value: T)

  /** What the task list area shows: the empty-state message, or one card per task in this order. */
  datatype View = EmptyState | Cards(shown: seq<Task>)

  class TaskStore {
    /** The in-memory task array. */
    var tasks: seq<Task>
    /** The snapshot under the storage key `tasks`; `None` until something is saved. */
    var saved: Option<seq<Task>>

    /**
     * Page start-up: the stored snapshot, or an empty list when there is
     * none. The snapshot itself is left as it is.
     */
    constructor Load(stored: Option<seq<Task>>)
      ensures saved == stored
      ensures tasks == (if stored.Some? then stored.value else [])
    {
      tasks := if stored.Some? then stored.value else [];
      saved := stored;
    }

    /** Appends a new task built from the form fields, the clock's id and its creation stamp. */
    method Push(id: int, name: string, deadline: int, priority: string, createdAt: string)
      modifies this`tasks
      ensures tasks == old(tasks) + [Task(id, name, deadline, priority, createdAt)]
      ensures |tasks| == |old(tasks)| + 1 && tasks[..|old(tasks)|] == old(tasks)
    {
      tasks := tasks + [Task(id, name, deadline, priority, createdAt)];
    }

    /** Orders the array by deadline in place, nearest first, ties in their current order. */
    method SortTasks()
      modifies this`tasks
      ensures tasks == Sort(old(tasks))
      ensures Sorted(tasks) && multiset(tasks) == multiset(old(tasks)) && Stable(tasks, old(tasks))
    {
      tasks := SortByDeadline(tasks);
    }

    /** Writes the whole array as the snapshot. */
    method SaveTasks()
      modifies this`saved
      ensures saved == Some(tasks)
    {
      saved := Some(tasks);
    }

    /** Sorts the array, then shows the empty state or the tasks in deadline order. */
    method RenderTasks() returns (view: View)
      modifies this`tasks
      ensures tasks == Sort(old(tasks)) && Sorted(tasks) && multiset(tasks) == multiset(old(tasks))
      ensures view == if tasks == [] then EmptyState else Cards(tasks)
    {
      SortTasks();
      if |tasks| == 0 {
        view := EmptyState;
      } else {
        view := Cards(tasks);
      }
    }

    /**
     * The add form's submit handler: push the new task, save, render. The
     * snapshot keeps the order before sorting, with the new task last.
     */
    method SubmitTask(id: int, name: string, deadline: int, priority: string, createdAt: string)
      returns (view: View)
      modifies this
      ensures saved == Some(old(tasks) + [Task(id, name, deadline, priority, createdAt)])
      ensures tasks == Sort(old(tasks) + [Task(id, name, deadline, priority, createdAt)])
      ensures Sorted(tasks) && multiset(tasks) == multiset(saved.value)
      ensures Sorted(old(tasks)) ==> tasks == Insert(old(tasks), Task(id, name, deadline, priority, createdAt))
      ensures view == Cards(tasks)
    {
      ghost var before := tasks;
      Push(id, name, deadline, priority, createdAt);
      SaveTasks();
      view := RenderTasks();
      if Sorted(before) {
        var t := Task(id, name, deadline, priority, createdAt);
        assert (before + [t])[..|before|] == before;
        SortKeepsSorted(before);
      }
    }

    /**
     * The delete handler once the user has confirmed: keep the tasks whose id
     * differs, save, render. On a list already in deadline order the result is
     * the filtered list itself.
     */
    method DeleteTask(id: int) returns (view: View)
      modifies this
      ensures saved == Some(Without(old(tasks), id))
      ensures tasks == Sort(Without(old(tasks), id))
      ensures Sorted(tasks) && multiset(tasks) == multiset(saved.value)
      ensures Sorted(old(tasks)) ==> tasks == Without(old(tasks), id)
      ensures forall t :: t in tasks <==> t in old(tasks) && t.id != id
      ensures view == if tasks == [] then EmptyState else Cards(tasks)
    {
      ghost var before := tasks;
      tasks := Without(tasks, id);
      SaveTasks();
      view := RenderTasks();
      ghost var kept := Without(before, id);
      forall t ensures t in tasks <==> t in kept {
        assert t in tasks <==> t in multiset(tasks);
        assert t in kept <==> t in multiset(kept);
      }
      if Sorted(before) {
        WithoutSorted(before, id);
        SortKeepsSorted(kept);
      }
    }

    /** The clear-all handler once the user has confirmed: empty the array, save, render. */
    method ClearAll() returns (view: View)
      modifies this
      ensures tasks == [] && saved == Some([])
      ensures view == EmptyState
    {
      tasks := [];
      SaveTasks();
      view := RenderTasks();
    }
  }

  /**
   * An example run: a task due in an hour and one due in ten minutes are
   * shown nearest first; deleting the nearer one leaves the other; clearing
   * leaves none and saves an empty list.
   */
  method ExampleRun(now: int, a: int, b: int) returns (afterAdds: View, afterDelete: View, afterClear: View)
    requires a != b
    ensures afterAdds == Cards([Task(b, "B", now + 600000, "low", ""), Task(a, "A", now + 3600000, "high", "")])
    ensures afterDelete == Cards([Task(a, "A", now + 3600000, "high", "")])
    ensures afterClear == EmptyState
  {
    var store := new TaskStore.Load(None);
    afterAdds := store.SubmitTask(a, "A", now + 3600000, "high", "");
    afterAdds := store.SubmitTask(b, "B", now + 600000, "low", "");
    afterDelete := store.DeleteTask(b);
    afterClear := store.ClearAll();
    assert store.saved == Some([]);
  }
}
