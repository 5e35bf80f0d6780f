# taskterm task list, modelled in Dafny

taskterm is a terminal to-do list. This project models its `TaskManager`: the task records, the
view shown in the list widget, and the commands bound to keys. The view is the sorted, filtered
and searched list of tasks, plus `filteredTaskIndices`, which maps each row to the task's
position in the list. The commands are add, toggle complete, delete, edit, cycle priority, set
tags, set due date, search, and the filter and sort toggles.

The model has four modules:

- `Text` (text.dfy) holds the JavaScript string operations the program relies on:
  - `trim` with the ECMAScript whitespace set;
  - `toLowerCase`, `includes`, `split(",")` and `join(",")`.

  It also holds two operations that stand in for the `Date` comparison the sort uses:
  comparison of strings, and the value of a decimal digit string.
- `TaskModel` (task.dfy) holds the `ITask` record and the per-task edits:
  - the priority cycle;
  - the due-date format check;
  - the tags parser;
  - unique ids and the completed count over a whole list.
- `View` (view.dfy) holds what `updateTaskList` computes:
  - the sort comparators, each shown to be a strict weak order;
  - the stable sort of a copy of the list;
  - the filter and search predicates;
  - the lookup by id;
  - the resulting index sequence, with its membership, order and count properties.
- `Manager` (manager.dfy) holds the `TaskManager` class:
  - its fields, including `stored`, which stands for the tasks file;
  - the invariant `Valid()`, which says the view is up to date;
  - one method per command.

  `UpdateTaskList` refills `filteredTaskIndices` with a loop, as the source does.

Every selection command takes the row number the widget reports. It checks that number before
acting and dereferences it through `filteredTaskIndices`. The method contracts state:

- the exact new list in terms of the old one;
- that a command which saves leaves `stored == Some(tasks)`;
- that a no-op leaves both the list and the file unchanged;
- that unique ids are preserved;
- how the completed count in the status bar moves.

Three facts about the code shape the model:

- Commands address a task by the selected row. An out-of-range row, a blank edit or a
  malformed date leaves the list and the file unchanged. For a malformed date the program
  shows "Invalid date format! Use YYYY-MM-DD" in the status line; messages are not modelled.
- Ids come from `Date.now()`, so `AddTask` takes the id as a parameter. Ids stay unique only
  when the caller passes a fresh one.
- `ITask` declares `priority` as required. The code treats a missing priority as "unset", so
  the model has `priority: Option<Priority>`.

## Model

| member | source | states |
|---|---|---|
| Text.Trim | src/taskManager.ts:454 | the result is no longer than the input and neither of its ends is whitespace |
| Text.TrimIsSlice | src/taskManager.ts:454 | the trimmed string is a contiguous slice of the input, and everything cut before and after it is whitespace |
| Text.TrimEmptyIff | src/taskManager.ts:454-455 | a trimmed input is empty (falsy) exactly when the input is whitespace only |
| Text.TrimOfTrimmed | src/taskManager.ts:426 | trimming a string that has no whitespace at its ends gives it back |
| Text.ContainsIff | src/taskManager.ts:231 | `includes` holds exactly when the term occurs as a slice of the description at some offset |
| Text.Split | src/taskManager.ts:429 | `split(",")` yields at least one segment and no segment contains a comma |
| Text.JoinSplit | src/taskManager.ts:428-429 | joining the segments of a split with commas restores the string |
| Text.SplitJoin | src/taskManager.ts:414 | splitting the comma-join of comma-free segments gives the segments back |
| Text.LexLessTotal | src/taskManager.ts:209 | string comparison is total: two strings are equal or one is smaller |
| Text.LexLessTransitive | src/taskManager.ts:209 | string comparison is transitive |
| Text.LexLessDigits | src/taskManager.ts:209 | digit strings of one length compare as text exactly as their numeric values compare |
| TaskModel.NewTask | src/taskManager.ts:456-462 | the pushed record has the given id, description and stamp, is not completed, has medium priority and has no due date or tags |
| TaskModel.Toggled | src/taskManager.ts:475 | only `completed` changes, and it is negated |
| TaskModel.ToggledTwice | src/taskManager.ts:475 | toggling twice restores the task |
| TaskModel.CyclePriority | src/taskManager.ts:370-376 | the result has a priority, different from a set old one, and no other field changes |
| TaskModel.PriorityCycleOfThree | src/taskManager.ts:370-376 | three presses restore a set priority; from unset, the fourth press repeats the first; one or two presses always change the task |
| TaskModel.WithDescription | src/taskManager.ts:347 | only the description changes |
| TaskModel.ParseDueDate | src/taskManager.ts:540-558 | a blank input clears; a non-blank input sets exactly when its trimmed form passes the YYYY-MM-DD test, and the value set is the trimmed input; any other input is rejected |
| TaskModel.ApplyDueDate | src/taskManager.ts:544-554 | a rejection leaves the task as it is; otherwise only `due_date` changes, to none or to the date |
| TaskModel.DueDateStaysWellFormed | src/taskManager.ts:543-554 | if every stored due date passes the format test, it still holds after the dialog's outcome is applied to any one task of the list |
| TaskModel.NoCalendarCheck | src/taskManager.ts:543 | "2024-13-99" passes the format test, as month 13 and day 99 |
| TaskModel.DateTextFields | src/taskManager.ts:209 | on well-formed dates, text order is decided by the year digits, then the month digits, then the day digits |
| TaskModel.DateTextOrder | src/taskManager.ts:209 | on strings that pass the format test, text order is (year, month, day) order |
| TaskModel.DateFields | src/taskManager.ts:543 | the fields of a well-formed date are below 10000, 100 and 100 |
| TaskModel.NonEmpty | src/taskManager.ts:431 | every kept string is a non-empty member of the input, every non-empty member is kept, and nothing is dropped when none is empty |
| TaskModel.NonEmptyPicks | src/taskManager.ts:431 | the kept strings are the inputs at increasing positions, and those positions are exactly the ones holding a non-empty string |
| TaskModel.TrimEachCommaFree | src/taskManager.ts:428-430 | trimming comma-free segments leaves them comma-free and trimmed |
| TaskModel.ParseTags | src/taskManager.ts:426-434 | every tag is non-empty, comma-free and trimmed; a blank input gives no tags; every segment of the trimmed input that is non-empty once trimmed becomes a tag |
| TaskModel.ParseTagsSegments | src/taskManager.ts:426-434 | the tags are the trimmed comma-separated segments of the trimmed input, in their order, with exactly the empty ones dropped |
| TaskModel.WithTags | src/taskManager.ts:428-434 | the parsed tags replace the old ones wholesale; nothing else changes |
| TaskModel.TagsRoundTrip | src/taskManager.ts:413-434 | submitting the text the dialog opens with (`tags.join(",")`) gives the same tags back |
| TaskModel.JoinEnds | src/taskManager.ts:414 | the comma-join of parsed tags is non-empty and trimmed |
| TaskModel.UniqueIdsAppend | src/taskManager.ts:456-457 | appending a task with a fresh id keeps ids unique |
| TaskModel.UniqueIdsUpdate | src/taskManager.ts:475 | replacing a task by one with the same id keeps ids unique |
| TaskModel.EditKeepsIdsAndCount | src/taskManager.ts:347 | replacing a task by one with the same id and completion flag keeps ids unique and the completed count unchanged |
| TaskModel.UniqueIdsRemove | src/taskManager.ts:490 | splicing one task out keeps ids unique |
| TaskModel.CompletedCount | src/taskManager.ts:261 | the completed count never exceeds the number of tasks |
| TaskModel.CompletedCountConcat | src/taskManager.ts:261 | the count of a concatenation is the sum of the counts |
| TaskModel.CompletedCountUpdate | src/taskManager.ts:475 | replacing one task changes the count by that task's contribution only |
| TaskModel.CompletedCountRemove | src/taskManager.ts:490 | removing one task lowers the count by one exactly when it was completed |
| View.FilterCycle | src/taskManager.ts:277-280 | three presses of `f` visit all, completed and uncompleted and return |
| View.SortCycle | src/taskManager.ts:267-271 | four presses of `s` visit all four sort modes and return |
| View.BeforeIrreflexive | src/taskManager.ts:198-215 | no task sorts strictly before itself in any mode |
| View.BeforeTransitive | src/taskManager.ts:198-215 | sorting strictly before is transitive in every mode |
| View.BeforeAsymmetric | src/taskManager.ts:198-215 | two tasks never each sort strictly before the other |
| View.BeforeNegativelyTransitive | src/taskManager.ts:198-215 | not sorting before is transitive, so each mode is a strict weak order |
| View.DueDateCompareInconsistent | src/taskManager.ts:206-210 | the comparator as written puts each of two undated tasks after the other |
| View.DueDateCompareAgrees | src/taskManager.ts:206-210 | when at least one task has a due date, the comparator as written and the model's order agree both ways |
| View.InsertSpec | src/taskManager.ts:200-215 | inserting into a stably sorted sequence adds exactly one element and keeps it stably sorted |
| View.InsertionSortSpec | src/taskManager.ts:200-215 | the sort is a permutation of its input and is stable |
| View.SortEntriesSpec | src/taskManager.ts:197-216 | the sorted copy is a permutation of the list, is stably sorted in every mode, and each entry carries the task at its position |
| View.FindIndex | src/taskManager.ts:220 | `findIndex` gives the first position with the id, or -1 when no task has it |
| View.FindIndexOfPosition | src/taskManager.ts:220 | with unique ids, looking up a task's id finds its own position |
| View.EditByIdSpec | src/taskManager.ts:341-355 | one submit handler changes only the description of the first task with its id, to the trimmed input; a blank input or a vanished id changes nothing |
| View.StaleEditHandlerRenames | src/taskManager.ts:319-358 | with the handlers as written, opening the edit dialog on task a, then on task b, and submitting a text gives that text to both a and b |
| View.SearchIgnoresCase | src/taskManager.ts:231 | lower-casing the term does not change which tasks match |
| View.ViewAligned | src/taskManager.ts:218-251 | one index per row; every index is a position in the list whose task has the row's id, and with unique ids is that very task; every row passes the filter and the search |
| View.ViewMembers | src/taskManager.ts:223-233 | with unique ids, a position is in the view exactly when its task passes the filter mode and the search |
| View.ViewOrdered | src/taskManager.ts:197-253 | with unique ids, the view lists positions in the stable order of the sort mode, and no position appears twice |
| View.DefaultViewKeepsListOrder | src/taskManager.ts:197 | under the default sort the view lists positions in increasing order |
| View.PriorityViewOrder | src/taskManager.ts:198-204 | under the priority sort ranks never decrease along the view, and equal ranks keep list order |
| View.DueDateViewOrder | src/taskManager.ts:205-210 | under the due-date sort dated tasks come first, dates ascend, and undated tasks keep list order |
| View.CreatedViewOrder | src/taskManager.ts:211-215 | under the created sort stamps ascend and equal stamps keep list order |
| View.ViewCountMatchesStatus | src/taskManager.ts:259-263 | with no search term, the view has as many rows as the status bar counts for the filter: all tasks, the completed ones, or the rest |
| View.SortKeepsCompletedCount | src/taskManager.ts:197-216 | sorting the copy does not change how many of its tasks are completed |
| View.InsertKeepsCompletedCount | src/taskManager.ts:200-215 | inserting a task into the sorted part adds exactly its own contribution to the completed count |
| Manager.TaskManager.constructor | src/taskManager.ts:183-186 | starts from the file's tasks, or none without a file, with filter all, default sort, empty search and an up-to-date view |
| Manager.TaskManager.UpdateTaskList | src/taskManager.ts:192-257 | fills `filteredTaskIndices` with the view of the current list and settings, and changes nothing else |
| Manager.TaskManager.SaveTasks | src/taskManager.ts:178-180 | the stored list becomes the in-memory list |
| Manager.TaskManager.StatusBar | src/taskManager.ts:259-264 | reports the number of tasks, a completed count no larger than it, and the two modes |
| Manager.TaskManager.ToggleSortMode | src/taskManager.ts:267-275 | the sort mode moves one step round its cycle and the view is refreshed |
| Manager.TaskManager.ToggleFilterMode | src/taskManager.ts:277-284 | the filter mode moves one step round its cycle and the view is refreshed |
| Manager.TaskManager.SubmitSearch | src/taskManager.ts:299-304 | the search term becomes the trimmed input (empty exactly for a blank input) and the view is refreshed |
| Manager.TaskManager.ViewInRange | src/taskManager.ts:312-316 | every index the view holds is a position in the list |
| Manager.TaskManager.EditTarget | src/taskManager.ts:310-317 | gives the id of the task on the selected row exactly when the row exists |
| Manager.TaskManager.SubmitEdit | src/taskManager.ts:341-355 | a blank input or an id no longer present changes nothing; otherwise only the first task with the id gets the trimmed description and the list is saved; the new list is one `View.EditById` step of the old one |
| Manager.TaskManager.CyclePriorityOfSelected | src/taskManager.ts:361-381 | without a selected row nothing changes; otherwise only the selected task's priority moves round the cycle and the list is saved |
| Manager.TaskManager.SubmitTags | src/taskManager.ts:383-440 | without a selected row nothing changes; otherwise only the selected task's tags are replaced by the parsed ones and the list is saved |
| Manager.TaskManager.SubmitDueDate | src/taskManager.ts:497-561 | without a selected row, or for a malformed date, nothing changes; otherwise only the selected task's due date is cleared or set and the list is saved; well-formed due dates stay well-formed |
| Manager.TaskManager.AddTask | src/taskManager.ts:453-469 | a blank input changes nothing; otherwise exactly one new task with the trimmed description is appended, the others untouched, and the list is saved |
| Manager.TaskManager.ToggleComplete | src/taskManager.ts:471-484 | without a selected row nothing changes; otherwise only the selected task's flag flips, the completed count moves by one to match, and the list is saved |
| Manager.TaskManager.RemoveTask | src/taskManager.ts:486-495 | without a selected row nothing changes; otherwise exactly the selected position is spliced out, the rest keep their order, the count drops if it was completed, and the list is saved |

## Left out

- The blessed screen, widgets, key bindings, focus, dialog show and hide, and rendering are left out. They are user-interface wiring. The row the list widget reports as selected is a method parameter.
- `setStatusMessage`, the edit dialog's `setTimeout`, and the transient status messages are left out. They are timer-driven presentation.
- The row text with colour markup and `input.clearValue()` are left out. They are presentation only.
- `saveTasks` and `loadTasks` are abstracted. JSON encoding, `fs`, and creating the configuration directory are foreign calls. The file is the field `stored`, and saving assigns it the list.
- A tasks file that fails to parse is not modelled. The program aborts in that case.
- `Date.now()` and `new Date().toISOString()` are left out. They read the clock, so the id and creation stamp are parameters of `AddTask`.
- Quitting (`process.exit`) and the help box are left out. They have no state of the list.
- View.Before: `new Date(..).getTime()` differences are replaced by comparing the strings. Both the due dates and the ISO creation stamps are compared this way. For ISO creation stamps the two orders agree. For due dates, `TaskModel.DateTextOrder` proves that text order is (year, month, day) order, which agrees with the `Date` order for real calendar dates. The format test also accepts strings that are not calendar dates, such as "2024-13-99" and "2024-02-30". Depending on the engine, `Date` turns these into `NaN`, which the sort treats as equal, or rolls them into a later month. Their order under `Date` is not modelled.
- View.Before: the due-date order is the corrected comparator. Undated tasks are equal, so they keep list order, as listed under Findings.
- Text.LowerChar: only ASCII capitals are folded. `toLowerCase` applies full Unicode case mapping.
- Text.LexLess: compares characters as Unicode scalar values. JavaScript compares UTF-16 code units, which differs only for characters outside the Basic Multilingual Plane.
- View.ViewMembers, View.ViewOrdered and the four per-mode order lemmas assume unique ids. With duplicate ids, `findIndex` sends every row of that id to the first such task. Index validity (`View.ViewAligned`) is proved for any list.
- Manager.TaskManager.AddTask: keeps ids unique only when the caller passes a fresh id. `Date.now()` can repeat within one millisecond.
- Manager.TaskManager.SubmitTags and SubmitDueDate are modelled synchronously, on the task at the selected row. The source dialogs capture the task object and write to it when submitted, after other events may have run.
- Manager.TaskManager.SubmitEdit: runs only the handler of the latest opening of the edit dialog. The source also runs the handlers left by earlier openings, as listed under Findings.
- Priority strings other than high, medium and low in a hand-edited file are not modelled. The model's priority is one of the three or unset.

## Findings

| source | as written | input that shows it | evidently intended | confidence | as-written member | corrected member |
|---|---|---|---|---|---|---|
| src/taskManager.ts:206-210 | the due-date comparator returns 1 whenever the first task has no due date, even when the second has none either | two tasks without a due date: comparing them either way answers 1, so each is said to sort after the other | tasks with a due date first, in date order; tasks without one compare equal and keep their list order | not executed | View.DueDateCompareInconsistent | View.DueDateViewOrder |
| src/taskManager.ts:319-358 | `unkey("enter", () => {})` is handed a new function, so it removes no handler, and every opening of the edit dialog adds another `onSubmit` that captured its own task id | open the edit dialog on task A, dismiss it, open it on task B, type a new text and press Enter: A's description also becomes that text | each opening replaces the previous handler, so only the task the dialog was opened for changes | not executed | View.StaleEditHandlerRenames | View.EditByIdSpec |
