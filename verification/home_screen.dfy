/** The list logic of the home screen: deleting and toggling tasks, the visible list
    (mode filter, then title search, then pending-before-completed sort) and the progress counts. */
module HomeScreen {
  import opened Seqs
  import opened Text
  import opened TaskModel

  // ---------------------------------------------------------------- delete

  function IdIsNot(id: string): Task -> bool {
    (t: Task) => t.id != id
  }

  function IdIs(id: string): Task -> bool {
    (t: Task) => t.id == id
  }

  /** The tasks of the list whose id is `id`. */
  function WithId(tasks: seq<Task>, id: string): seq<Task> {
    Filter(tasks, IdIs(id))
  }

  /** `handleDelete(id)`: keeps every task whose id differs from `id`, in order. */
  function HandleDelete(tasks: seq<Task>, id: string): (r: seq<Task>)
    ensures IsSubsequence(r, tasks)
    ensures forall i :: 0 <= i < |r| ==> r[i] in tasks && r[i].id != id
    ensures forall i :: 0 <= i < |tasks| && tasks[i].id != id ==> tasks[i] in r
    ensures |r| == |tasks| - |WithId(tasks, id)|
  {
    FilterMembers(tasks, IdIsNot(id));
    FilterIsSubsequence(tasks, IdIsNot(id));
    FilterSplit(tasks, IdIsNot(id), IdIs(id));
    Filter(tasks, IdIsNot(id))
  }

  /** Deleting an id that no task carries leaves the list as it was. */
  lemma DeleteAbsentIsNoOp(tasks: seq<Task>, id: string)
    requires !HasId(tasks, id)
    ensures HandleDelete(tasks, id) == tasks
  {
    FilterKeepsAll(tasks, IdIsNot(id));
  }

  /** With unique ids, a task carrying `id` is the only one; deleting it shortens the list by one. */
  lemma {:induction false} DeletePresentRemovesOne(tasks: seq<Task>, id: string)
    requires UniqueIds(tasks) && HasId(tasks, id)
    ensures |HandleDelete(tasks, id)| == |tasks| - 1
    ensures !HasId(HandleDelete(tasks, id), id)
    ensures UniqueIds(HandleDelete(tasks, id))
  {
    WithIdOfUniqueIsSingle(tasks, id);
    var r := HandleDelete(tasks, id);
    assert !HasId(r, id);
    DeletePreservesUniqueness(tasks, id);
  }

  lemma {:induction false} WithIdOfUniqueIsSingle(tasks: seq<Task>, id: string)
    requires UniqueIds(tasks) && HasId(tasks, id)
    ensures |WithId(tasks, id)| == 1
  {
    var rest := tasks[1..];
    assert UniqueIds(rest) by {
      forall i, j | 0 <= i < j < |rest| ensures rest[i].id != rest[j].id {
        assert rest[i] == tasks[i + 1] && rest[j] == tasks[j + 1];
      }
    }
    if tasks[0].id == id {
      forall i | 0 <= i < |rest| ensures !IdIs(id)(rest[i]) {
        assert rest[i] == tasks[i + 1];
      }
      FilterKeepsNone(rest, IdIs(id));
    } else {
      var k :| 0 <= k < |tasks| && tasks[k].id == id;
      assert rest[k - 1] == tasks[k];
      WithIdOfUniqueIsSingle(rest, id);
    }
  }

  lemma {:induction false} DeletePreservesUniqueness(tasks: seq<Task>, id: string)
    requires UniqueIds(tasks)
    ensures UniqueIds(HandleDelete(tasks, id))
  {
    SubsequencePreservesUniqueness(HandleDelete(tasks, id), tasks);
  }

  lemma {:induction false} SubsequencePreservesUniqueness(a: seq<Task>, b: seq<Task>)
    requires IsSubsequence(a, b) && UniqueIds(b)
    ensures UniqueIds(a)
    decreases |b|
  {
    if |a| > 0 {
      var tail := b[1..];
      assert UniqueIds(tail) by {
        forall i, j | 0 <= i < j < |tail| ensures tail[i].id != tail[j].id {
          assert tail[i] == b[i + 1] && tail[j] == b[j + 1];
        }
      }
      if a[0] == b[0] && IsSubsequence(a[1..], tail) {
        SubsequencePreservesUniqueness(a[1..], tail);
        SubsequenceMembers(a[1..], tail);
        forall j | 0 < j < |a| ensures a[0].id != a[j].id {
          assert a[j] == a[1..][j - 1];
          var k :| 0 <= k < |tail| && tail[k] == a[j];
          assert b[k + 1] == a[j];
        }
      } else {
        SubsequencePreservesUniqueness(a, tail);
      }
    }
  }

  lemma {:induction false} SubsequenceMembers(a: seq<Task>, b: seq<Task>)
    requires IsSubsequence(a, b)
    ensures forall i :: 0 <= i < |a| ==> exists k :: 0 <= k < |b| && b[k] == a[i]
    decreases |b|
  {
    if |a| > 0 {
      if a[0] == b[0] && IsSubsequence(a[1..], b[1..]) {
        SubsequenceMembers(a[1..], b[1..]);
        forall i | 0 < i < |a| ensures exists k :: 0 <= k < |b| && b[k] == a[i] {
          assert a[i] == a[1..][i - 1];
          var k :| 0 <= k < |b[1..]| && b[1..][k] == a[i];
          assert b[k + 1] == a[i];
        }
        assert b[0] == a[0];
      } else {
        SubsequenceMembers(a, b[1..]);
        forall i | 0 <= i < |a| ensures exists k :: 0 <= k < |b| && b[k] == a[i] {
          var k :| 0 <= k < |b[1..]| && b[1..][k] == a[i];
          assert b[k + 1] == a[i];
        }
      }
    }
  }

  // ---------------------------------------------------------------- toggle

  /** The task with its completion flag flipped and every other property kept. */
  function Toggled(t: Task): Task {
    t.(completed := !t.completed)
  }

  /** `handleToggleComplete(id)`: flips `completed` on the tasks whose id is `id`, nothing else. */
  function HandleToggleComplete(tasks: seq<Task>, id: string): (r: seq<Task>)
    ensures |r| == |tasks|
    ensures forall i :: 0 <= i < |tasks| ==>
      r[i] == if tasks[i].id == id then Toggled(tasks[i]) else tasks[i]
    ensures Ids(r) == Ids(tasks)
  {
    if |tasks| == 0 then []
    else [if tasks[0].id == id then Toggled(tasks[0]) else tasks[0]] + HandleToggleComplete(tasks[1..], id)
  }

  /** Toggling the same id twice gives back the original list. */
  lemma ToggleInvolution(tasks: seq<Task>, id: string)
    ensures HandleToggleComplete(HandleToggleComplete(tasks, id), id) == tasks
  {
  }

  lemma ToggleAbsentIsNoOp(tasks: seq<Task>, id: string)
    requires !HasId(tasks, id)
    ensures HandleToggleComplete(tasks, id) == tasks
  {
  }

  lemma TogglePreservesUniqueness(tasks: seq<Task>, id: string)
    ensures UniqueIds(HandleToggleComplete(tasks, id)) <==> UniqueIds(tasks)
  {
    SameIdsSameUniqueness(HandleToggleComplete(tasks, id), tasks);
  }

  /** With unique ids, toggling the task at position `k` moves the completed count by exactly one. */
  lemma ToggleShiftsCompletedCount(tasks: seq<Task>, id: string, k: int)
    requires UniqueIds(tasks) && 0 <= k < |tasks| && tasks[k].id == id
    ensures |Completed(HandleToggleComplete(tasks, id))|
         == |Completed(tasks)| + (if tasks[k].completed then -1 else 1)
  {
    var r := HandleToggleComplete(tasks, id);
    assert forall i :: 0 <= i < |tasks| && i != k ==> r[i] == tasks[i];
    CompletedCountOneChange(tasks, r, k);
  }

  /** Two lists that differ at position `k` only have completed counts that differ by
      what position `k` contributes. */
  lemma {:induction false} CompletedCountOneChange(a: seq<Task>, b: seq<Task>, k: int)
    requires |a| == |b| && 0 <= k < |a|
    requires forall i :: 0 <= i < |a| && i != k ==> a[i] == b[i]
    ensures |Completed(a)| - (if a[k].completed then 1 else 0)
         == |Completed(b)| - (if b[k].completed then 1 else 0)
  {
    if k == 0 {
      assert a[1..] == b[1..];
    } else {
      CompletedCountOneChange(a[1..], b[1..], k - 1);
    }
  }

  // ---------------------------------------------------------------- view

  /** The filter pill: `"completed"` keeps completed tasks, `"pending"` keeps the others,
      and any other value keeps every task. */
  predicate KeepsByMode(mode: string, t: Task) {
    if mode == "completed" then t.completed
    else if mode == "pending" then !t.completed
    else true
  }

  /** Case-insensitive title search. */
  predicate MatchesSearch(searchText: string, t: Task) {
    Includes(Lower(t.title), Lower(searchText))
  }

  function ModeFilter(mode: string): Task -> bool {
    (t: Task) => KeepsByMode(mode, t)
  }

  function SearchFilter(searchText: string): Task -> bool {
    (t: Task) => MatchesSearch(searchText, t)
  }

  function FilterByMode(tasks: seq<Task>, mode: string): seq<Task> {
    Filter(tasks, ModeFilter(mode))
  }

  function Search(tasks: seq<Task>, searchText: string): seq<Task> {
    Filter(tasks, SearchFilter(searchText))
  }

  function Pending(tasks: seq<Task>): seq<Task> {
    Filter(tasks, IsPending)
  }

  function Completed(tasks: seq<Task>): seq<Task> {
    Filter(tasks, IsCompleted)
  }

  /** The comparator handed to `sort`: equal flags compare equal, a completed task sorts after a pending one. */
  function CompareByCompletion(a: Task, b: Task): (c: int)
    ensures c == 0 <==> a.completed == b.completed
    ensures c <= 0 <==> (a.completed ==> b.completed)
  {
    if a.completed == b.completed then 0 else if a.completed then 1 else -1
  }

  /** The list is ordered by the comparator: no later task compares below an earlier one. */
  predicate SortedByCompletion(s: seq<Task>) {
    forall i, j :: 0 <= i < j < |s| ==> CompareByCompletion(s[i], s[j]) <= 0
  }

  /** Inserts `x` before the first element it does not compare above. */
  function Insert(x: Task, sorted: seq<Task>): (r: seq<Task>)
    ensures multiset(r) == multiset(sorted) + multiset{x}
  {
    if |sorted| == 0 then [x]
    else if CompareByCompletion(x, sorted[0]) <= 0 then [x] + sorted
    else
      assert sorted == [sorted[0]] + sorted[1..];
      [sorted[0]] + Insert(x, sorted[1..])
  }

  /** A stable sort with the comparator: each element goes in front of the equal elements that
      followed it in the input. */
  function SortByCompletion(s: seq<Task>): (r: seq<Task>)
    ensures multiset(r) == multiset(s)
  {
    if |s| == 0 then []
    else
      assert s == [s[0]] + s[1..];
      Insert(s[0], SortByCompletion(s[1..]))
  }

  /** The tasks that pass both the filter pill and the search box, in list order. */
  function Matches(tasks: seq<Task>, mode: string, searchText: string): seq<Task> {
    Search(FilterByMode(tasks, mode), searchText)
  }

  /** `filteredTasks`: filter, then search, then sort. */
  function View(tasks: seq<Task>, mode: string, searchText: string): seq<Task> {
    SortByCompletion(Matches(tasks, mode, searchText))
  }

  lemma {:induction false} InsertCompletedAfterPending(x: Task, p: seq<Task>, c: seq<Task>)
    requires x.completed
    requires forall i :: 0 <= i < |p| ==> !p[i].completed
    requires |c| > 0 ==> c[0].completed
    ensures Insert(x, p + c) == p + [x] + c
  {
    if |p| == 0 {
      assert p + c == c;
    } else {
      assert (p + c)[0] == p[0] && (p + c)[1..] == p[1..] + c;
      InsertCompletedAfterPending(x, p[1..], c);
    }
  }

  /** The sort puts the pending tasks first and the completed ones after, each group in input order. */
  lemma {:induction false} SortIsStablePartition(s: seq<Task>)
    ensures SortByCompletion(s) == Pending(s) + Completed(s)
  {
    if |s| > 0 {
      SortIsStablePartition(s[1..]);
      var p, c := Pending(s[1..]), Completed(s[1..]);
      PartitionCons(s);
      if s[0].completed {
        InsertCompletedAfterPending(s[0], p, c);
      } else {
        InsertPendingGoesFirst(s[0], p + c);
      }
    }
  }

  lemma PartitionCons(s: seq<Task>)
    requires |s| > 0
    ensures Pending(s) + Completed(s)
         == if s[0].completed then Pending(s[1..]) + [s[0]] + Completed(s[1..])
            else [s[0]] + (Pending(s[1..]) + Completed(s[1..]))
  {
    var p, c := Pending(s[1..]), Completed(s[1..]);
    if s[0].completed {
      assert Completed(s) == [s[0]] + c;
      assert p + [s[0]] + c == p + ([s[0]] + c);
    } else {
      assert Pending(s) == [s[0]] + p;
      assert [s[0]] + (p + c) == ([s[0]] + p) + c;
    }
  }

  lemma InsertPendingGoesFirst(x: Task, s: seq<Task>)
    requires !x.completed
    ensures Insert(x, s) == [x] + s
  {
  }

  /** The partition is ordered by the comparator and keeps each group in input order. */
  lemma PartitionIsStableSort(s: seq<Task>)
    ensures SortedByCompletion(Pending(s) + Completed(s))
    ensures Pending(Pending(s) + Completed(s)) == Pending(s)
    ensures Completed(Pending(s) + Completed(s)) == Completed(s)
  {
    var p, c := Pending(s), Completed(s);
    FilterConcat(p, c, IsPending);
    FilterConcat(p, c, IsCompleted);
    FilterKeepsAll(p, IsPending);
    FilterKeepsNone(c, IsPending);
    FilterKeepsAll(c, IsCompleted);
    FilterKeepsNone(p, IsCompleted);
  }

  lemma {:induction false} SortedSplitsIntoGroups(r: seq<Task>)
    requires SortedByCompletion(r)
    ensures r == Pending(r) + Completed(r)
  {
    if |r| > 0 {
      if r[0].completed {
        FilterKeepsNone(r, IsPending);
        FilterKeepsAll(r, IsCompleted);
      } else {
        SortedSplitsIntoGroups(r[1..]);
      }
    }
  }

  /** Any result a stable sort with this comparator may return, ordered and keeping each group's
      input order, is the partition: the stable sort's output is uniquely determined. */
  lemma StableSortIsUnique(s: seq<Task>, r: seq<Task>)
    requires SortedByCompletion(r)
    requires Pending(r) == Pending(s) && Completed(r) == Completed(s)
    ensures r == Pending(s) + Completed(s)
  {
    SortedSplitsIntoGroups(r);
  }

  /** The filter pill semantics: each mode keeps exactly the tasks its predicate accepts. */
  lemma FilterModeSemantics(tasks: seq<Task>, mode: string)
    ensures mode == "pending" ==> FilterByMode(tasks, mode) == Pending(tasks)
    ensures mode == "completed" ==> FilterByMode(tasks, mode) == Completed(tasks)
    ensures mode != "pending" && mode != "completed" ==> FilterByMode(tasks, mode) == tasks
  {
    if mode != "pending" && mode != "completed" {
      FilterKeepsAll(tasks, ModeFilter(mode));
    } else {
      FilterSameOnList(tasks, ModeFilter(mode), if mode == "pending" then IsPending else IsCompleted);
    }
  }

  lemma {:induction false} FilterSameOnList(s: seq<Task>, p: Task -> bool, q: Task -> bool)
    requires forall i :: 0 <= i < |s| ==> p(s[i]) == q(s[i])
    ensures Filter(s, p) == Filter(s, q)
  {
    if |s| > 0 {
      FilterSameOnList(s[1..], p, q);
    }
  }

  /** An empty search box keeps every task. */
  lemma EmptySearchKeepsAll(tasks: seq<Task>)
    ensures Search(tasks, "") == tasks
  {
    forall i | 0 <= i < |tasks| ensures SearchFilter("")(tasks[i]) {
      IncludesEmpty(Lower(tasks[i].title));
    }
    FilterKeepsAll(tasks, SearchFilter(""));
  }

  /** Filtering by mode and searching may be done in either order. */
  lemma FilterAndSearchCommute(tasks: seq<Task>, mode: string, searchText: string)
    ensures Search(FilterByMode(tasks, mode), searchText) == FilterByMode(Search(tasks, searchText), mode)
  {
    FilterCommutes(tasks, ModeFilter(mode), SearchFilter(searchText));
  }

  /** The tasks that pass filter and search form a subsequence of the list. */
  lemma MatchesAreSubsequence(tasks: seq<Task>, mode: string, searchText: string)
    ensures IsSubsequence(Matches(tasks, mode, searchText), tasks)
  {
    var f := FilterByMode(tasks, mode);
    FilterIsSubsequence(tasks, ModeFilter(mode));
    FilterIsSubsequence(f, SearchFilter(searchText));
    SubsequenceTransitive(Matches(tasks, mode, searchText), f, tasks);
  }

  /** A task is shown exactly when it is in the list, passes the filter pill and matches the search. */
  lemma ViewMembership(tasks: seq<Task>, mode: string, searchText: string, t: Task)
    ensures t in View(tasks, mode, searchText)
        <==> t in tasks && KeepsByMode(mode, t) && MatchesSearch(searchText, t)
  {
    var m := Matches(tasks, mode, searchText);
    assert t in multiset(View(tasks, mode, searchText)) <==> t in multiset(m);
    FilterMembers(tasks, ModeFilter(mode));
    FilterMembers(FilterByMode(tasks, mode), SearchFilter(searchText));
  }

  /** The shown list is a rearrangement of the matching tasks that puts every pending task
      before every completed one and keeps each group in list order. */
  lemma ViewIsOrderedPartition(tasks: seq<Task>, mode: string, searchText: string)
    ensures multiset(View(tasks, mode, searchText)) == multiset(Matches(tasks, mode, searchText))
    ensures SortedByCompletion(View(tasks, mode, searchText))
    ensures Pending(View(tasks, mode, searchText)) == Pending(Matches(tasks, mode, searchText))
    ensures Completed(View(tasks, mode, searchText)) == Completed(Matches(tasks, mode, searchText))
    ensures IsSubsequence(Pending(View(tasks, mode, searchText)), tasks)
    ensures IsSubsequence(Completed(View(tasks, mode, searchText)), tasks)
  {
    var m := Matches(tasks, mode, searchText);
    SortIsStablePartition(m);
    PartitionIsStableSort(m);
    MatchesAreSubsequence(tasks, mode, searchText);
    FilterIsSubsequence(m, IsPending);
    FilterIsSubsequence(m, IsCompleted);
    SubsequenceTransitive(Pending(m), m, tasks);
    SubsequenceTransitive(Completed(m), m, tasks);
  }

  // ---------------------------------------------------------------- statistics

  /** The progress card's figures, always over the full list. */
  datatype Stats = Stats(completedTasks: nat, totalTasks: nat, completionPercentage: real)

  function Statistics(tasks: seq<Task>): (r: Stats)
    ensures r.totalTasks == |tasks|
    ensures r.completedTasks + |Pending(tasks)| == |tasks|
    ensures r.completedTasks <= r.totalTasks
    ensures 0.0 <= r.completionPercentage <= 100.0
    ensures |tasks| == 0 ==> r.completionPercentage == 0.0
    ensures r.completionPercentage == 100.0 <==> |tasks| > 0 && |Pending(tasks)| == 0
    ensures r.completionPercentage == 0.0 <==> r.completedTasks == 0
  {
    var completed := |Completed(tasks)|;
    var total := |tasks|;
    FilterSplit(tasks, IsCompleted, IsPending);
    var ratio := Ratio(completed, total);
    Stats(completed, total, ratio * 100.0)
  }

  /** `completed / total` as an exact fraction, and 0 for an empty list. */
  function Ratio(completed: nat, total: nat): (q: real)
    requires completed <= total
    ensures 0.0 <= q <= 1.0
    ensures q == 1.0 <==> total > 0 && completed == total
    ensures q == 0.0 <==> completed == 0
  {
    if total == 0 then 0.0
    else
      var q := completed as real / total as real;
      assert q * total as real == completed as real;
      RatioBounds(q, completed as real, total as real);
      q
  }

  lemma RatioBounds(q: real, c: real, t: real)
    requires 0.0 <= c <= t && t > 0.0 && q * t == c
    ensures 0.0 <= q <= 1.0
    ensures q == 1.0 <==> c == t
    ensures q == 0.0 <==> c == 0.0
  {
  }

  /** The completed count is the length of the "Done" tab with an empty search. */
  lemma CompletedCountIsDoneTab(tasks: seq<Task>)
    ensures Statistics(tasks).completedTasks == |View(tasks, "completed", "")|
    ensures |Pending(tasks)| == |View(tasks, "pending", "")|
  {
    FilterModeSemantics(tasks, "completed");
    FilterModeSemantics(tasks, "pending");
    EmptySearchKeepsAll(Completed(tasks));
    EmptySearchKeepsAll(Pending(tasks));
    var v1 := View(tasks, "completed", "");
    var v2 := View(tasks, "pending", "");
    assert |multiset(v1)| == |v1|;
    assert |multiset(v2)| == |v2|;
  }
}
