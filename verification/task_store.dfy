/** The shared task list as the three screens change it: each user action becomes a command, and
    replaying commands keeps the list's invariants. */
module TaskStore {
  import opened Text
  import opened TaskModel
  import opened HomeScreen
  import opened AddTaskScreen
  import opened EditTaskScreen

  /** One submitted action. `newId` is the identifier generated for an added task; `task` is the
      record the edit screen was opened with. */
  datatype Command =
    | Add(addForm: AddForm, newId: string)
    | Update(task: Task, editForm: EditForm)
    | Delete(id: string)
    | ToggleComplete(id: string)

  /** The list after one command; a refused form leaves it as it was. */
  function Apply(tasks: seq<Task>, cmd: Command): seq<Task> {
    match cmd
    case Add(form, newId) => HandleAddTask(tasks, form, newId).ListAfter(tasks)
    case Update(task, form) => HandleUpdate(tasks, task, form).ListAfter(tasks)
    case Delete(id) => HandleDelete(tasks, id)
    case ToggleComplete(id) => HandleToggleComplete(tasks, id)
  }

  /** The list's invariants: ids are unique and no title is empty. */
  predicate Valid(tasks: seq<Task>) {
    UniqueIds(tasks) && forall i :: 0 <= i < |tasks| ==> tasks[i].title != ""
  }

  /** An added task's generated id is not already in the list. */
  predicate FreshFor(tasks: seq<Task>, cmd: Command) {
    cmd.Add? ==> !HasId(tasks, cmd.newId)
  }

  lemma ApplyPreservesValid(tasks: seq<Task>, cmd: Command)
    requires Valid(tasks) && FreshFor(tasks, cmd)
    ensures Valid(Apply(tasks, cmd))
  {
    match cmd
    case Add(form, newId) => AddKeepsValid(tasks, form, newId);
    case Update(task, form) => UpdateKeepsValid(tasks, task, form);
    case Delete(id) => DeleteKeepsValid(tasks, id);
    case ToggleComplete(id) => ToggleKeepsValid(tasks, id);
  }

  lemma AddKeepsValid(tasks: seq<Task>, form: AddForm, newId: string)
    requires Valid(tasks) && !HasId(tasks, newId)
    ensures Valid(HandleAddTask(tasks, form, newId).ListAfter(tasks))
  {
    if form.title != "" {
      AddPreservesUniqueIds(tasks, form, newId);
      var r := HandleAddTask(tasks, form, newId).value;
      assert forall i :: 0 <= i < |tasks| ==> r[i] == tasks[i];
    }
  }

  lemma UpdateKeepsValid(tasks: seq<Task>, task: Task, form: EditForm)
    requires Valid(tasks)
    ensures Valid(HandleUpdate(tasks, task, form).ListAfter(tasks))
  {
    var r := HandleUpdate(tasks, task, form);
    if r.Success? {
      SameIdsSameUniqueness(r.value, tasks);
      assert UpdatedTask(task, form).title != "";
    }
  }

  lemma DeleteKeepsValid(tasks: seq<Task>, id: string)
    requires Valid(tasks)
    ensures Valid(HandleDelete(tasks, id))
  {
    DeletePreservesUniqueness(tasks, id);
    var r := HandleDelete(tasks, id);
    forall i | 0 <= i < |r| ensures r[i].title != "" {
      var j :| 0 <= j < |tasks| && tasks[j] == r[i];
    }
  }

  lemma ToggleKeepsValid(tasks: seq<Task>, id: string)
    requires Valid(tasks)
    ensures Valid(HandleToggleComplete(tasks, id))
  {
    TogglePreservesUniqueness(tasks, id);
  }

  /** The list after the commands in order. */
  function Replay(tasks: seq<Task>, cmds: seq<Command>): seq<Task>
    decreases |cmds|
  {
    if |cmds| == 0 then tasks else Replay(Apply(tasks, cmds[0]), cmds[1..])
  }

  /** Every added task's id is fresh at the moment it is added. */
  predicate FreshThroughout(tasks: seq<Task>, cmds: seq<Command>)
    decreases |cmds|
  {
    |cmds| == 0 || (FreshFor(tasks, cmds[0]) && FreshThroughout(Apply(tasks, cmds[0]), cmds[1..]))
  }

  /** Starting from a valid list (the empty one, say), any sequence of actions with fresh
      generated ids keeps ids unique and titles non-empty. */
  lemma {:induction false} ReplayPreservesValid(tasks: seq<Task>, cmds: seq<Command>)
    requires Valid(tasks) && FreshThroughout(tasks, cmds)
    ensures Valid(Replay(tasks, cmds))
    decreases |cmds|
  {
    if |cmds| > 0 {
      ApplyPreservesValid(tasks, cmds[0]);
      ReplayPreservesValid(Apply(tasks, cmds[0]), cmds[1..]);
    }
  }

  /** The app starts from an empty list, so every list the screens produce has unique ids and
      non-empty titles as long as each generated id is fresh. */
  lemma ReplayFromEmptyIsValid(cmds: seq<Command>)
    requires FreshThroughout([], cmds)
    ensures Valid(Replay([], cmds))
  {
    ReplayPreservesValid([], cmds);
  }

  /** The add form accepts any non-empty blank title and stores it as typed, where the edit form
      refuses it. Opened on such a task, the edit form counts as changed, yet Update stays disabled. */
  lemma BlankTitleAcceptedByAddRefusedByEdit(
    tasks: seq<Task>, task: Task, newId: string, title: string, description: string, dueDate: string)
    requires title != "" && AllWhitespace(title)
    ensures HandleAddTask(tasks, AddForm(title, description, dueDate), newId).Success?
    ensures HandleAddTask(tasks, AddForm(title, description, dueDate), newId).value[|tasks|].title == title
    ensures HandleUpdate(tasks, task, EditForm(title, description, dueDate)).Failure?
    ensures var added := HandleAddTask(tasks, AddForm(title, description, dueDate), newId).value[|tasks|];
            HasChanges(added, InitialForm(added)) && !UpdateEnabled(added, InitialForm(added))
  {
  }

  /** A task added with a title that has some non-blank text but whitespace at an end opens the
      edit form with Update already enabled. */
  lemma UntrimmedAddOpensChangedEditForm(tasks: seq<Task>, form: AddForm, newId: string)
    requires Trim(form.title) != "" && !IsTrimmed(form.title)
    ensures var added := HandleAddTask(tasks, form, newId).value[|tasks|];
            UpdateEnabled(added, InitialForm(added))
  {
    var added := HandleAddTask(tasks, form, newId).value[|tasks|];
    InitialFormChangedIffUntrimmed(added);
  }
}
