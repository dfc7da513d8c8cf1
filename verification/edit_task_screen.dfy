/** The edit-task form: its submit handler and the change detection that enables the Update button. */
module EditTaskScreen {
  import opened Text
  import opened TaskModel
  import opened AddTaskScreen

  /** The values in the edit form. `dueDate` is the formatted date string. */
  datatype EditForm = EditForm(title: string, description: string, dueDate: string)

  /** The form as the screen opens it for `task`: a missing description shows as empty. */
  function InitialForm(task: Task): (f: EditForm)
    ensures f.title == task.title && f.dueDate == task.dueDate
    ensures f.description == (if task.description.Some? then task.description.value else "")
  {
    EditForm(task.title, DescriptionOrEmpty(task), task.dueDate)
  }

  /** The record `handleUpdate` builds from the task it was opened with: title and description
      trimmed, the new due date, and every other property copied from the original. */
  function UpdatedTask(task: Task, form: EditForm): (u: Task)
    ensures u.(title := task.title, description := task.description, dueDate := task.dueDate) == task
    ensures IsTrimmed(u.title) && u.title == Trim(form.title)
    ensures u.description.Some? && IsTrimmed(u.description.value) && u.description.value == Trim(form.description)
    ensures u.dueDate == form.dueDate
  {
    task.(title := Trim(form.title), description := Some(Trim(form.description)), dueDate := form.dueDate)
  }

  /** Puts `u` in place of every task whose id is `id`; positions and every other task are kept. */
  function ReplaceById(tasks: seq<Task>, id: string, u: Task): (r: seq<Task>)
    ensures |r| == |tasks|
    ensures forall i :: 0 <= i < |tasks| ==> r[i] == if tasks[i].id == id then u else tasks[i]
  {
    if |tasks| == 0 then []
    else [if tasks[0].id == id then u else tasks[0]] + ReplaceById(tasks[1..], id, u)
  }

  /** An id no task carries leaves the list unchanged; a replacement keeping the id keeps the ids. */
  lemma ReplaceByIdFrame(tasks: seq<Task>, id: string, u: Task)
    ensures !HasId(tasks, id) ==> ReplaceById(tasks, id, u) == tasks
    ensures u.id == id ==> Ids(ReplaceById(tasks, id, u)) == Ids(tasks)
  {
  }

  /** `handleUpdate`: refuses a title that is blank after trimming; otherwise replaces the tasks
      carrying the edited task's id by the updated record. A missing id is not an error. */
  function HandleUpdate(tasks: seq<Task>, task: Task, form: EditForm): (r: FormResult)
    ensures r.Failure? <==> AllWhitespace(form.title)
    ensures r.Success? ==> |r.value| == |tasks| && Ids(r.value) == Ids(tasks)
    ensures r.Success? ==> forall i :: 0 <= i < |tasks| ==>
      r.value[i] == if tasks[i].id == task.id then UpdatedTask(task, form) else tasks[i]
    ensures r.Success? && !HasId(tasks, task.id) ==> r.value == tasks
  {
    if Trim(form.title) == "" then Failure(MissingTitle)
    else
      ReplaceByIdFrame(tasks, task.id, UpdatedTask(task, form));
      Success(ReplaceById(tasks, task.id, UpdatedTask(task, form)))
  }

  /** `hasChanges`: the trimmed title, trimmed description or due date differs from the original. */
  predicate HasChanges(task: Task, form: EditForm) {
    || Trim(form.title) != task.title
    || Trim(form.description) != DescriptionOrEmpty(task)
    || form.dueDate != task.dueDate
  }

  /** The Update button is enabled only for a non-blank title and a changed form. */
  predicate UpdateEnabled(task: Task, form: EditForm) {
    Trim(form.title) != "" && HasChanges(task, form)
  }

  /** The task with a missing description written as the empty string, as an update stores it. */
  function WithDescription(task: Task): Task {
    task.(description := Some(DescriptionOrEmpty(task)))
  }

  /** `hasChanges` holds exactly when saving the form would store a record different from the
      original (reading a missing description as empty). */
  lemma HasChangesIffRecordChanges(task: Task, form: EditForm)
    ensures HasChanges(task, form) <==> UpdatedTask(task, form) != WithDescription(task)
  {
    var u := UpdatedTask(task, form);
    if u == WithDescription(task) {
      assert u.title == task.title && u.dueDate == task.dueDate;
      assert u.description.value == DescriptionOrEmpty(task);
    }
  }

  /** An enabled Update always succeeds and changes the task it was opened on, where it sits in the list. */
  lemma EnabledUpdateChangesTask(tasks: seq<Task>, task: Task, form: EditForm, k: int)
    requires UpdateEnabled(task, form)
    requires 0 <= k < |tasks| && tasks[k] == task
    ensures HandleUpdate(tasks, task, form).Success?
    ensures HandleUpdate(tasks, task, form).value[k] != task
  {
    ChangedFormChangesRecord(task, form);
    assert HandleUpdate(tasks, task, form).value[k] == UpdatedTask(task, form);
  }

  lemma ChangedFormChangesRecord(task: Task, form: EditForm)
    requires HasChanges(task, form)
    ensures UpdatedTask(task, form) != task
  {
    HasChangesIffRecordChanges(task, form);
    if task.description.Some? {
      assert WithDescription(task) == task;
    }
  }

  /** The form as opened already counts as changed exactly when the original title or description
      has whitespace at an end (possible, since the add form stores titles untrimmed). */
  lemma InitialFormChangedIffUntrimmed(task: Task)
    ensures HasChanges(task, InitialForm(task))
        <==> !IsTrimmed(task.title) || !IsTrimmed(DescriptionOrEmpty(task))
  {
    var f, d := InitialForm(task), DescriptionOrEmpty(task);
    assert f == EditForm(task.title, d, task.dueDate);
    assert HasChanges(task, f) <==> Trim(task.title) != task.title || Trim(d) != d;
    TrimFixesExactlyTrimmed(task.title);
    TrimFixesExactlyTrimmed(d);
  }
}
