/** The add-task form's submit handler. */
module AddTaskScreen {
  import opened TaskModel

  /** The values typed into the add form. `dueDate` is the already formatted date string:
      the picker always holds a date, so the form never lacks one. */
  datatype AddForm = AddForm(title: string, description: string, dueDate: string)

  /** Why a form was refused (the alert the screen shows instead of saving). */
  datatype FormError = MissingTitle

  /** What a form's submit handler does with the list: saves a new one, or refuses with an alert. */
  datatype FormResult = Success(value: seq<Task>) | Failure(error: FormError) {

    /** The list once the handler has run: a refusal leaves `current` in place. */
    function ListAfter(current: seq<Task>): seq<Task> {
      if Success? then value else current
    }
  }

  /** The record `handleAddTask` builds: the fields exactly as typed, not completed. */
  function NewTask(id: string, form: AddForm): (t: Task)
    ensures t.id == id && !t.completed
    ensures t.title == form.title && DescriptionOrEmpty(t) == form.description
  {
    Task(id, form.title, Some(form.description), form.dueDate, false, map[])
  }

  /** `handleAddTask`: refuses only an empty title (a blank one is accepted untrimmed), and
      otherwise appends the new task. `newId` is the freshly generated identifier. */
  function HandleAddTask(tasks: seq<Task>, form: AddForm, newId: string): (r: FormResult)
    ensures r.Failure? <==> form.title == ""
    ensures r.Success? ==> |r.value| == |tasks| + 1 && r.value[..|tasks|] == tasks
    ensures r.Success? ==> r.value[|tasks|] == NewTask(newId, form)
  {
    if form.title == "" then Failure(MissingTitle)
    else Success(tasks + [NewTask(newId, form)])
  }

  /** With a fresh id, adding keeps the ids unique and the new id is then present. */
  lemma AddPreservesUniqueIds(tasks: seq<Task>, form: AddForm, newId: string)
    requires UniqueIds(tasks) && !HasId(tasks, newId)
    requires form.title != ""
    ensures UniqueIds(HandleAddTask(tasks, form, newId).value)
    ensures HasId(HandleAddTask(tasks, form, newId).value, newId)
  {
    var r := HandleAddTask(tasks, form, newId).value;
    assert forall i :: 0 <= i < |tasks| ==> r[i] == tasks[i];
    assert r[|tasks|].id == newId;
  }
}
