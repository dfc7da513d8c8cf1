/** The task record the three screens share, and the id-uniqueness invariant of the list. */
module TaskModel {
  /** A property of a stored object that may be absent. */
  datatype Option<T> = None | Some(value: T)

  /** One task as the screens build it. `description` is `None` when the stored object has no
      description property; `dueDate` is the `YYYY-MM-DD` string, kept opaque; `others` stands for
      any further properties a stored object carries, which object spread copies unchanged. */
  datatype Task = Task(
    id: string,
    title: string,
    description: Option<string>,
    dueDate: string,
    completed: bool,
    others: map<string, string>)

  /** The description as the edit form sees it: a missing one reads as the empty string. */
  function DescriptionOrEmpty(t: Task): string {
    match t.description
    case Some(d) => d
    case None => ""
  }

  predicate IsPending(t: Task) {
    !t.completed
  }

  predicate IsCompleted(t: Task) {
    t.completed
  }

  /** The ids of the list, position by position. */
  function Ids(tasks: seq<Task>): (r: seq<string>)
    ensures |r| == |tasks|
    ensures forall i :: 0 <= i < |tasks| ==> r[i] == tasks[i].id
  {
    seq(|tasks|, i requires 0 <= i < |tasks| => tasks[i].id)
  }

  predicate HasId(tasks: seq<Task>, id: string) {
    exists i :: 0 <= i < |tasks| && tasks[i].id == id
  }

  /** No two positions of the list hold tasks with the same id. */
  predicate UniqueIds(tasks: seq<Task>) {
    forall i, j :: 0 <= i < j < |tasks| ==> tasks[i].id != tasks[j].id
  }

  /** Lists with the same ids position by position agree on uniqueness and on which ids they hold. */
  lemma SameIdsSameUniqueness(a: seq<Task>, b: seq<Task>)
    requires Ids(a) == Ids(b)
    ensures UniqueIds(a) <==> UniqueIds(b)
    ensures forall id :: HasId(a, id) <==> HasId(b, id)
  {
    assert forall i :: 0 <= i < |a| ==> a[i].id == Ids(a)[i] == Ids(b)[i] == b[i].id;
  }
}
