# Student Task Manager — task-list core in Dafny

The app keeps one list of tasks in memory. Its three screens each compute a new list from the old one and hand it to `setTasks`:

- the home screen deletes a task, toggles a task's completion flag, and derives the visible list and the progress figures;
- the add screen appends a new task;
- the edit screen replaces a task and decides whether its Update button is enabled.

This project models each of those computations as a pure function over `seq<Task>` and proves what they promise.

Modules (one file each):

- `Seqs` (`seqs.dfy`): `Array.prototype.filter` as `Filter`, the subsequence relation, and the generic facts about them: filters commute, a filter yields a subsequence, and a predicate and its complement split a list.
- `Text` (`text.dfy`): the JavaScript string operations used. `Trim` strips the ECMAScript whitespace and line-terminator code points. `Lower` folds ASCII letters. `Includes` is proved to hold exactly when the needle occurs at some index.
- `TaskModel` (`task_model.dfy`): the `Task` record (`id`, `title`, optional `description`, opaque `dueDate` string, `completed`, and `others` for any further stored properties that object spread copies), plus id uniqueness.
- `HomeScreen` (`home_screen.dfy`):
  - `HandleDelete` and `HandleToggleComplete`;
  - the visible list `View`: mode filter, then case-insensitive title search, then `sort` with the screen's comparator, modelled as a stable insertion sort;
  - `Statistics`.
- `AddTaskScreen` (`add_task_screen.dfy`): `HandleAddTask`, and `FormResult`, the new list or a refusal with an alert, which both form handlers return.
- `EditTaskScreen` (`edit_task_screen.dfy`): `HandleUpdate`, `ReplaceById`, `HasChanges`, `UpdateEnabled`.
- `TaskStore` (`task_store.dfy`): every user action as a `Command`. `Apply` and `Replay` run commands. Replay keeps the list valid (unique ids, non-empty titles) whenever each generated id is fresh.

Behaviours of the code a reader may not expect:

- The add handler refuses only the empty title (`!title`). It does not trim, so any non-empty blank title such as `" "` is stored as typed. The edit handler does trim and refuses it (`TaskStore.BlankTitleAcceptedByAddRefusedByEdit`).
- Updating a task whose id is not in the list, or deleting or toggling such an id, leaves the list unchanged. No not-found error is raised.
- The handlers return nothing about the task they touched. They only replace the list.
- The visible list is not a subsequence of the list once sorted, because completed tasks move to the end. The matching tasks before the sort form a subsequence, and so do the pending group and the completed group of the visible list.

One consequence of the add/edit asymmetry: a task added with a title that has some non-blank text and whitespace at either end opens the edit form already counted as changed, so Update is enabled before anything is typed (`TaskStore.UntrimmedAddOpensChangedEditForm`). A task with an all-blank title also opens as changed, but Update stays disabled because the trimmed title is empty.

## Model

| member | source | states |
|---|---|---|
| HomeScreen.HandleDelete | screens/HomeScreen.js:24-26 | the result is a subsequence of the list; it holds no task with the id and every task with another id; its length is the list's minus the number of tasks carrying the id |
| HomeScreen.DeleteAbsentIsNoOp | screens/HomeScreen.js:24-26 | deleting an id no task carries returns the list unchanged |
| HomeScreen.DeletePresentRemovesOne | screens/HomeScreen.js:24-26 | with unique ids and the id present, delete removes exactly one task, the id is gone, and ids stay unique |
| HomeScreen.HandleToggleComplete | screens/HomeScreen.js:29-35 | same length and ids; each task with the id has only `completed` flipped, all other tasks are unchanged at their positions |
| HomeScreen.ToggleInvolution | screens/HomeScreen.js:29-35 | toggling the same id twice gives back the original list |
| HomeScreen.ToggleAbsentIsNoOp | screens/HomeScreen.js:29-35 | toggling an id no task carries returns the list unchanged |
| HomeScreen.TogglePreservesUniqueness | screens/HomeScreen.js:29-35 | toggling keeps ids unique exactly when they were unique |
| HomeScreen.ToggleShiftsCompletedCount | screens/HomeScreen.js:29-35 | with unique ids, toggling a present task moves the completed count up by one if it was pending and down by one if it was completed |
| HomeScreen.FilterModeSemantics | screens/HomeScreen.js:46-50 | mode "pending" keeps exactly the pending tasks, "completed" exactly the completed ones, any other mode keeps the whole list |
| HomeScreen.EmptySearchKeepsAll | screens/HomeScreen.js:51-53 | an empty search text keeps every task |
| HomeScreen.FilterAndSearchCommute | screens/HomeScreen.js:45-53 | filtering by mode then searching gives the same list as searching then filtering |
| HomeScreen.MatchesAreSubsequence | screens/HomeScreen.js:45-53 | the tasks passing mode and search, before sorting, are a subsequence of the list |
| HomeScreen.ViewMembership | screens/HomeScreen.js:45-57 | a task is shown if and only if it is in the list, passes the mode filter and its lowercased title includes the lowercased search text |
| HomeScreen.CompareByCompletion | screens/HomeScreen.js:54-57 | the comparator returns 0 exactly for equal flags, and is at most 0 unless a completed task is compared with a pending one |
| HomeScreen.SortByCompletion | screens/HomeScreen.js:54-57 | the sort returns a permutation of its input |
| HomeScreen.SortIsStablePartition | screens/HomeScreen.js:54-57 | the stable sort with the comparator yields all pending tasks, then all completed ones, each group in input order |
| HomeScreen.PartitionIsStableSort | screens/HomeScreen.js:54-57 | that partition is ordered by the comparator and keeps each group's input order |
| HomeScreen.StableSortIsUnique | screens/HomeScreen.js:54-57 | any list ordered by the comparator with each group in input order equals the partition, so every stable sort gives the same result |
| HomeScreen.ViewIsOrderedPartition | screens/HomeScreen.js:45-57 | the visible list is a permutation of the matching tasks, ordered pending before completed, each group in list order and a subsequence of the list |
| HomeScreen.Statistics | screens/HomeScreen.js:59-61 | total is the list length; completed plus pending is the total; the percentage lies in 0..100, is 0 for an empty list or none completed, and is 100 exactly when a non-empty list is all completed |
| HomeScreen.Ratio | screens/HomeScreen.js:61 | the completion fraction is in 0..1, 0 exactly when nothing is completed, 1 exactly when everything is |
| HomeScreen.CompletedCountIsDoneTab | screens/HomeScreen.js:59-60 | the completed count equals the length of the "completed" view with empty search (and the pending count that of the "pending" view), so it counts the full list |
| AddTaskScreen.NewTask | screens/AddTaskScreen.js:34-40 | the new task has the given id, is not completed, and has title and description exactly as typed |
| AddTaskScreen.HandleAddTask | screens/AddTaskScreen.js:28-42 | refused exactly when the title is the empty string; otherwise the old list is an unchanged prefix, the length grows by one and the last task is the new one |
| AddTaskScreen.AddPreservesUniqueIds | screens/AddTaskScreen.js:35-42 | with a fresh id, adding keeps ids unique and the new id is present |
| EditTaskScreen.UpdatedTask | screens/EditTaskScreen.js:39-44 | the updated record differs from the original only in title, description and due date; title and description are stored trimmed |
| EditTaskScreen.ReplaceById | screens/EditTaskScreen.js:46-48 | same length; each position holds the replacement if its id matches and the original task otherwise |
| EditTaskScreen.ReplaceByIdFrame | screens/EditTaskScreen.js:46-48 | an id no task carries leaves the list unchanged; a replacement keeping the id keeps all ids |
| EditTaskScreen.HandleUpdate | screens/EditTaskScreen.js:33-50 | refused exactly when the title is blank after trimming; otherwise length and ids are kept, only tasks with the edited id are replaced, and a missing id leaves the list unchanged |
| EditTaskScreen.HasChangesIffRecordChanges | screens/EditTaskScreen.js:96-102 | `hasChanges` holds if and only if saving would store a record different from the original, reading a missing description as empty |
| EditTaskScreen.ChangedFormChangesRecord | screens/EditTaskScreen.js:96-102 | a form with changes always produces a record different from the original |
| EditTaskScreen.EnabledUpdateChangesTask | screens/EditTaskScreen.js:286-291 | when Update is enabled, the update succeeds and the task at the edited position changes |
| EditTaskScreen.InitialFormChangedIffUntrimmed | screens/EditTaskScreen.js:26-28 | the form as opened counts as changed if and only if the stored title or description has whitespace at an end |
| TaskStore.ApplyPreservesValid | App.js:58-92 | any single action on a list with unique ids and non-empty titles keeps both, given a fresh id for an added task |
| TaskStore.ReplayPreservesValid | App.js:58-92 | any sequence of actions from a valid list, each add with a fresh id, keeps ids unique and titles non-empty |
| TaskStore.ReplayFromEmptyIsValid | App.js:18 | starting from the empty list the app opens with, any sequence of actions with fresh generated ids yields unique ids and non-empty titles |
| TaskStore.BlankTitleAcceptedByAddRefusedByEdit | screens/AddTaskScreen.js:29-32 | every non-empty all-whitespace title is accepted and stored as typed by the add form and refused by the edit form; the edit form opened on such a task counts as changed but keeps Update disabled |
| TaskStore.UntrimmedAddOpensChangedEditForm | screens/EditTaskScreen.js:286-291 | a task added with a title that has non-blank text and whitespace at an end opens the edit form with Update already enabled |
| Text.Trim | screens/EditTaskScreen.js:34-42 | the result has no whitespace at either end, is an infix of the input with only whitespace around it, and is empty exactly when the input is all whitespace |
| Text.TrimFixesExactlyTrimmed | screens/EditTaskScreen.js:98-99 | trimming leaves a string unchanged if and only if neither end is whitespace |
| Text.Lower | screens/HomeScreen.js:52 | same length, each code point folded, and no ASCII upper-case letter remains |
| Text.IncludesIffOccurs | screens/HomeScreen.js:52 | `includes` holds if and only if the needle occurs at some index of the haystack |

## Left out

- HomeScreen.Statistics: the percentage is an exact rational (`real`), not an IEEE double. The `Math.round` shown on the progress card is not modelled. Float rounding can differ from the exact value: 23 of 40 gives `(23 / 40) * 100 = 57.49999999999999` in doubles, shown as 57, where the exact 57.5 would round to 58.
- Text.Lower: folds only ASCII `A`–`Z`. JavaScript `toLowerCase` applies full Unicode case mapping, which this model does not include.
- AddTaskScreen.AddPreservesUniqueIds: takes the freshness of the generated id as a precondition. `uuid.v4()` is a random generator and is not modelled. TaskStore.ApplyPreservesValid and TaskStore.ReplayPreservesValid rely on the same assumption.
- Due dates are opaque strings. Converting a `Date` with `toISOString().split('T')[0]`, the date picker, its minimum date and the Today/Tomorrow labels depend on time zones and the Date library. As a result, the add form's `!dueDate` check never fires and is not modelled: the picker always holds a date.
- utils/storage.js and the load/save effects in App.js are not modelled. They are asynchronous I/O through AsyncStorage and JSON. This model has no storage round trip and no fallback to an empty list on a corrupt value. A list loaded from storage is not checked for unique ids or non-empty titles, so TaskStore.ReplayPreservesValid applies to it only if it is already valid.
- Alerts, toasts, navigation and rendering are UI presentation and are not modelled. components/TaskItem.js (confirmation dialogs and the strike-through flag) is not part of this model.
- A refused form is modelled as a `Failure` result. The alert text is dropped, and the list stays as it was.
