/** The `TaskManager` object: the task list, the view of it the list widget shows, the three
    view settings, and the commands bound to keys. The widgets, the timers and the file system
    are left out; the file is modelled by the field `stored`, the tasks as last written. */
module Manager {
  import opened Text
  import opened TaskModel
  import opened View

  /** What the status bar reports. */
  datatype StatusLine = StatusLine(total: nat, completed: nat, filter: FilterMode, sort: SortMode)

  class TaskManager {
    var tasks: seq<Task>
    /** For each row of the list widget, the position in `tasks` of the task on that row. */
    var filteredTaskIndices: seq<int>
    var filterMode: FilterMode
    var sortMode: SortMode
    var searchTerm: string
    /** The content of the tasks file: `None` while it does not exist. */
    var stored: Option<seq<Task>>

    /** The view is up to date: every command that changes the list or a setting refreshes it. */
    ghost predicate Valid()
      reads this
    {
      filteredTaskIndices == ViewIndices(tasks, filterMode, sortMode, searchTerm)
    }

    /** Starts from the tasks in the file, or none when there is no file, with every task
        shown in list order. */
    constructor (file: Option<seq<Task>>)
      ensures tasks == (if file.Some? then file.value else [])
      ensures stored == file
      ensures filterMode == All && sortMode == Default && searchTerm == []
      ensures Valid()
    {
      tasks := if file.Some? then file.value else [];
      stored := file;
      filterMode := All;
      sortMode := Default;
      searchTerm := [];
      filteredTaskIndices := [];
      new;
      UpdateTaskList();
    }

    /** Rebuilds `filteredTaskIndices` from a sorted copy of the list; the list itself is not
        touched. */
    method UpdateTaskList()
      modifies this`filteredTaskIndices
      ensures Valid()
    {
      var sortedTasks := SortedCopy(sortMode, tasks);
      filteredTaskIndices := [];
      var k := 0;
      while k < |sortedTasks|
        invariant 0 <= k <= |sortedTasks|
        invariant filteredTaskIndices == IndicesFrom(tasks, sortedTasks[..k], filterMode, searchTerm)
      {
        var task := sortedTasks[k];
        var originalIndex := FindIndex(tasks, task.id);
        var matchesFilter := filterMode == All || (filterMode == Completed && task.completed)
                             || (filterMode == Uncompleted && !task.completed);
        var matchesSearch := searchTerm == [] || Contains(ToLower(task.description), ToLower(searchTerm));
        if matchesFilter && matchesSearch {
          filteredTaskIndices := filteredTaskIndices + [originalIndex];
        }
        assert sortedTasks[..k + 1][..k] == sortedTasks[..k];
        k := k + 1;
      }
      assert sortedTasks[..k] == sortedTasks;
    }

    /** Writes the list to the tasks file. */
    method SaveTasks()
      modifies this`stored
      ensures stored == Some(tasks)
    {
      stored := Some(tasks);
    }

    /** The status bar: the number of tasks, how many are completed, and the two modes. */
    function StatusBar(): (s: StatusLine)
      reads this
      ensures s.completed <= s.total == |tasks|
      ensures s.filter == filterMode && s.sort == sortMode
    {
      StatusLine(|tasks|, CompletedCount(tasks), filterMode, sortMode)
    }

    /** The `s` key: default, priority, due date, created, and back to default. */
    method ToggleSortMode()
      requires Valid()
      modifies this`sortMode, this`filteredTaskIndices
      ensures sortMode == NextSort(old(sortMode))
      ensures Valid()
    {
      if sortMode == Default {
        sortMode := ByPriority;
      } else if sortMode == ByPriority {
        sortMode := ByDueDate;
      } else if sortMode == ByDueDate {
        sortMode := ByCreated;
      } else {
        sortMode := Default;
      }
      UpdateTaskList();
    }

    /** The `f` key: all, completed, uncompleted, and back to all. */
    method ToggleFilterMode()
      requires Valid()
      modifies this`filterMode, this`filteredTaskIndices
      ensures filterMode == NextFilter(old(filterMode))
      ensures Valid()
    {
      if filterMode == All {
        filterMode := Completed;
      } else if filterMode == Completed {
        filterMode := Uncompleted;
      } else {
        filterMode := All;
      }
      UpdateTaskList();
    }

    /** Submitting the search dialog: the trimmed input becomes the search term. */
    method SubmitSearch(input: string)
      requires Valid()
      modifies this`searchTerm, this`filteredTaskIndices
      ensures searchTerm == Trim(input)
      ensures Valid()
    {
      searchTerm := Trim(input);
      UpdateTaskList();
    }

    /** The row `selected` is a row of the list widget. */
    predicate Selectable(selected: int)
      reads this
    {
      0 <= selected < |filteredTaskIndices|
    }

    /** Every position the view holds is inside the list. */
    lemma ViewInRange()
      requires Valid()
      ensures forall k :: 0 <= k < |filteredTaskIndices| ==> 0 <= filteredTaskIndices[k] < |tasks|
    {
      ViewAligned(tasks, filterMode, sortMode, searchTerm);
    }

    /** Opening the edit dialog: the id of the task on the selected row, or nothing when no row
        is selected. */
    method EditTarget(selected: int) returns (taskId: Option<int>)
      requires Valid()
      ensures taskId.Some? <==> Selectable(selected)
      ensures taskId.Some? ==> 0 <= filteredTaskIndices[selected] < |tasks|
                               && taskId.value == tasks[filteredTaskIndices[selected]].id
    {
      if selected < 0 || selected >= |filteredTaskIndices| {
        return None;
      }
      ViewInRange();
      var taskIndex := filteredTaskIndices[selected];
      taskId := Some(tasks[taskIndex].id);
    }

    /** Submitting the edit dialog for the task with id `taskId`: a blank input, or an id no
        longer in the list, changes nothing; otherwise the first task with that id gets the
        trimmed input as its description and the list is saved. Only the handler of the
        latest opening runs; the handlers the source leaves behind are `EditHandlersAsWritten`. */
    method SubmitEdit(taskId: int, input: string)
      requires Valid()
      modifies this`tasks, this`stored, this`filteredTaskIndices
      ensures Valid()
      ensures
        var i := FindIndex(old(tasks), taskId);
        if Trim(input) != [] && i >= 0 then
          && tasks == old(tasks)[i := WithDescription(old(tasks)[i], Trim(input))]
          && stored == Some(tasks)
        else
          tasks == old(tasks) && stored == old(stored)
      ensures tasks == EditById(old(tasks), taskId, input)
      ensures UniqueIds(old(tasks)) ==> UniqueIds(tasks)
      ensures StatusBar().completed == old(StatusBar().completed)
    {
      var newDescription := Trim(input);
      if newDescription != [] {
        var currentTaskIndex := FindIndex(tasks, taskId);
        if currentTaskIndex >= 0 {
          var task := WithDescription(tasks[currentTaskIndex], newDescription);
          EditKeepsIdsAndCount(tasks, currentTaskIndex, task);
          tasks := tasks[currentTaskIndex := task];
          SaveTasks();
          UpdateTaskList();
        }
      }
    }

    /** The `p` key on the selected row: that task's priority moves one step round the cycle
        and the list is saved; with no row selected nothing happens. */
    method CyclePriorityOfSelected(selected: int)
      requires Valid()
      modifies this`tasks, this`stored, this`filteredTaskIndices
      ensures Valid()
      ensures
        if old(Selectable(selected)) then
          var i := old(filteredTaskIndices[selected]);
          && 0 <= i < |old(tasks)|
          && tasks == old(tasks)[i := CyclePriority(old(tasks)[i])]
          && stored == Some(tasks)
        else
          tasks == old(tasks) && stored == old(stored)
      ensures UniqueIds(old(tasks)) ==> UniqueIds(tasks)
      ensures StatusBar().completed == old(StatusBar().completed)
    {
      if selected < 0 || selected >= |filteredTaskIndices| {
        return;
      }
      ViewInRange();
      var taskIndex := filteredTaskIndices[selected];
      var task := CyclePriority(tasks[taskIndex]);
      EditKeepsIdsAndCount(tasks, taskIndex, task);
      tasks := tasks[taskIndex := task];
      SaveTasks();
      UpdateTaskList();
    }

    /** Submitting the tags dialog for the selected row: the parsed tags replace the task's
        tags (a blank input leaves it with none) and the list is saved. */
    method SubmitTags(selected: int, input: string)
      requires Valid()
      modifies this`tasks, this`stored, this`filteredTaskIndices
      ensures Valid()
      ensures
        if old(Selectable(selected)) then
          var i := old(filteredTaskIndices[selected]);
          && 0 <= i < |old(tasks)|
          && tasks == old(tasks)[i := WithTags(old(tasks)[i], input)]
          && stored == Some(tasks)
        else
          tasks == old(tasks) && stored == old(stored)
      ensures UniqueIds(old(tasks)) ==> UniqueIds(tasks)
      ensures StatusBar().completed == old(StatusBar().completed)
    {
      if selected < 0 || selected >= |filteredTaskIndices| {
        return;
      }
      ViewInRange();
      var taskIndex := filteredTaskIndices[selected];
      var task := WithTags(tasks[taskIndex], input);
      EditKeepsIdsAndCount(tasks, taskIndex, task);
      tasks := tasks[taskIndex := task];
      SaveTasks();
      UpdateTaskList();
    }

    /** Submitting the due-date dialog for the selected row: a blank input clears the due date,
        a well-formed date replaces it, and both save the list; any other input changes
        nothing. */
    method SubmitDueDate(selected: int, input: string)
      requires Valid()
      modifies this`tasks, this`stored, this`filteredTaskIndices
      ensures Valid()
      ensures
        if old(Selectable(selected)) && !ParseDueDate(input).RejectDueDate? then
          var i := old(filteredTaskIndices[selected]);
          && 0 <= i < |old(tasks)|
          && tasks == old(tasks)[i := ApplyDueDate(old(tasks)[i], ParseDueDate(input))]
          && stored == Some(tasks)
        else
          tasks == old(tasks) && stored == old(stored)
      ensures UniqueIds(old(tasks)) ==> UniqueIds(tasks)
      ensures StatusBar().completed == old(StatusBar().completed)
      ensures DueDatesWellFormed(old(tasks)) ==> DueDatesWellFormed(tasks)
    {
      if selected < 0 || selected >= |filteredTaskIndices| {
        return;
      }
      ViewInRange();
      var taskIndex := filteredTaskIndices[selected];
      var edit := ParseDueDate(input);
      if edit.RejectDueDate? {
        return;
      }
      var task := ApplyDueDate(tasks[taskIndex], edit);
      EditKeepsIdsAndCount(tasks, taskIndex, task);
      if DueDatesWellFormed(tasks) {
        DueDateStaysWellFormed(tasks, taskIndex, input);
      }
      tasks := tasks[taskIndex := task];
      SaveTasks();
      UpdateTaskList();
    }

    /** The add box: a blank input changes nothing; otherwise a new task with the trimmed input
        as its description is appended and the list is saved. The id and the creation stamp
        are the clock readings the caller passes in. */
    method AddTask(input: string, id: int, createdAt: string)
      requires Valid()
      modifies this`tasks, this`stored, this`filteredTaskIndices
      ensures Valid()
      ensures
        if Trim(input) == [] then
          tasks == old(tasks) && stored == old(stored)
        else
          && tasks == old(tasks) + [NewTask(id, Trim(input), createdAt)]
          && stored == Some(tasks)
      ensures UniqueIds(old(tasks)) && FreshId(old(tasks), id) ==> UniqueIds(tasks)
      ensures StatusBar().completed == old(StatusBar().completed)
    {
      var description := Trim(input);
      if description != [] {
        var task := NewTask(id, description, createdAt);
        CompletedCountConcat(tasks, [task]);
        CompletedCountSingle(task);
        if UniqueIds(tasks) && FreshId(tasks, id) {
          UniqueIdsAppend(tasks, task);
        }
        tasks := tasks + [task];
        SaveTasks();
        UpdateTaskList();
      }
    }

    /** The `c` key on the selected row: that task's completed flag flips, the completed count
        moves by one accordingly, and the list is saved; with no row selected nothing happens. */
    method ToggleComplete(selected: int)
      requires Valid()
      modifies this`tasks, this`stored, this`filteredTaskIndices
      ensures Valid()
      ensures
        if old(Selectable(selected)) then
          var i := old(filteredTaskIndices[selected]);
          && 0 <= i < |old(tasks)|
          && tasks == old(tasks)[i := Toggled(old(tasks)[i])]
          && stored == Some(tasks)
          && StatusBar().completed ==
             if tasks[i].completed then old(StatusBar().completed) + 1 else old(StatusBar().completed) - 1
        else
          tasks == old(tasks) && stored == old(stored)
      ensures UniqueIds(old(tasks)) ==> UniqueIds(tasks)
    {
      if selected >= 0 && selected < |filteredTaskIndices| {
        ViewInRange();
        var taskIndex := filteredTaskIndices[selected];
        var task := Toggled(tasks[taskIndex]);
        CompletedCountUpdate(tasks, taskIndex, task);
        if UniqueIds(tasks) {
          UniqueIdsUpdate(tasks, taskIndex, task);
        }
        tasks := tasks[taskIndex := task];
        SaveTasks();
        UpdateTaskList();
      }
    }

    /** The `d` key on the selected row: that task is spliced out, the others keep their
        order, and the list is saved; with no row selected nothing happens. */
    method RemoveTask(selected: int)
      requires Valid()
      modifies this`tasks, this`stored, this`filteredTaskIndices
      ensures Valid()
      ensures
        if old(Selectable(selected)) then
          var i := old(filteredTaskIndices[selected]);
          && 0 <= i < |old(tasks)|
          && tasks == old(tasks)[..i] + old(tasks)[i + 1..]
          && |tasks| == |old(tasks)| - 1
          && stored == Some(tasks)
          && StatusBar().completed ==
             if old(tasks)[i].completed then old(StatusBar().completed) - 1 else old(StatusBar().completed)
        else
          tasks == old(tasks) && stored == old(stored)
      ensures UniqueIds(old(tasks)) ==> UniqueIds(tasks)
    {
      if selected >= 0 && selected < |filteredTaskIndices| {
        ViewInRange();
        var taskIndex := filteredTaskIndices[selected];
        CompletedCountRemove(tasks, taskIndex);
        if UniqueIds(tasks) {
          UniqueIdsRemove(tasks, taskIndex);
        }
        tasks := tasks[..taskIndex] + tasks[taskIndex + 1..];
        SaveTasks();
        UpdateTaskList();
      }
    }
  }
}
