/** The app's data: lists of tasks, with the array helpers (`find`, `filter`)
    its operations are built from and the pure per-list task updates. */
module Model {
  import opened Text

  datatype Option<+T> = None | Some(value: T)

  /** A generated identifier (`Date.now().toString(36) + random digits`). */
  type Id = string

  /** Whether an id variable is truthy where the script tests it (`if (!x)`,
      `if (x)`): `null` and the empty string are falsy. */
  predicate IsSet(x: Option<Id>) {
    x.Some? && x.value != []
  }

  /** A task; `dueDate` is absent when the date input was left empty, and
      timestamps are milliseconds. */
  datatype Task = Task(
    id: Id,
    title: string,
    description: string,
    dueDate: Option<int>,
    completed: bool,
    createdAt: int)

  datatype TodoList = TodoList(id: Id, name: string, tasks: seq<Task>)

  // ----- Array.prototype.filter and Array.prototype.find -----

  /** `s.filter(p)`: the elements that satisfy `p`, in their original order. */
  function Filter<T(!new)>(s: seq<T>, p: T -> bool): (r: seq<T>)
    ensures |r| <= |s|
  {
    if s == [] then []
    else if p(s[0]) then [s[0]] + Filter(s[1..], p)
    else Filter(s[1..], p)
  }

  /** An element survives the filter exactly when it was there and passes. */
  lemma {:induction false} FilterMembers<T(!new)>(s: seq<T>, p: T -> bool)
    ensures forall x :: x in Filter(s, p) <==> x in s && p(x)
  {
    if s != [] {
      FilterMembers(s[1..], p);
      assert forall x :: x in s <==> x == s[0] || x in s[1..];
    }
  }

  /** Filtering distributes over concatenation, so it keeps relative order. */
  lemma {:induction false} FilterAppend<T(!new)>(a: seq<T>, b: seq<T>, p: T -> bool)
    ensures Filter(a + b, p) == Filter(a, p) + Filter(b, p)
  {
    if a == [] {
      assert a + b == b;
    } else {
      var ab := a + b;
      FilterAppend(a[1..], b, p);
      assert ab[0] == a[0];
      assert ab[1..] == a[1..] + b;
      if p(a[0]) {
        calc {
          Filter(ab, p);
          [a[0]] + Filter(ab[1..], p);
          [a[0]] + (Filter(a[1..], p) + Filter(b, p));
          ([a[0]] + Filter(a[1..], p)) + Filter(b, p);
        }
      }
    }
  }

  /** Filtering keeps a sequence whole when every element passes. */
  lemma {:induction false} FilterKeepsAll<T(!new)>(s: seq<T>, p: T -> bool)
    requires forall k :: 0 <= k < |s| ==> p(s[k])
    ensures Filter(s, p) == s
  {
    if s != [] {
      FilterKeepsAll(s[1..], p);
    }
  }

  /** Filtering keeps nothing when no element passes. */
  lemma {:induction false} FilterDropsAll<T(!new)>(s: seq<T>, p: T -> bool)
    requires forall k :: 0 <= k < |s| ==> !p(s[k])
    ensures Filter(s, p) == []
  {
    if s != [] {
      FilterDropsAll(s[1..], p);
    }
  }

  /** Filtering out the one element that fails removes exactly that element. */
  lemma FilterDropsOne<T(!new)>(s: seq<T>, i: nat, p: T -> bool)
    requires i < |s| && !p(s[i])
    requires forall k :: 0 <= k < |s| && k != i ==> p(s[k])
    ensures Filter(s, p) == s[..i] + s[i + 1..]
  {
    var front, back := s[..i], s[i + 1..];
    assert s == front + ([s[i]] + back);
    FilterAppend(front, [s[i]] + back, p);
    FilterAppend([s[i]], back, p);
    FilterDropsAll([s[i]], p);
    forall k | 0 <= k < |front| ensures p(front[k]) {
      assert front[k] == s[k];
    }
    FilterKeepsAll(front, p);
    forall k | 0 <= k < |back| ensures p(back[k]) {
      assert back[k] == s[i + 1 + k];
    }
    FilterKeepsAll(back, p);
  }

  /** What `p` accepts and what its complement `q` accepts add up to everything. */
  lemma {:induction false} FilterComplement<T(!new)>(s: seq<T>, p: T -> bool, q: T -> bool)
    requires forall x :: q(x) == !p(x)
    ensures |Filter(s, p)| + |Filter(s, q)| == |s|
  {
    if s != [] {
      FilterComplement(s[1..], p, q);
    }
  }

  /** `s.findIndex(p)` as an option: the first position whose element passes. */
  function FirstIndex<T>(s: seq<T>, p: T -> bool): (r: Option<nat>)
    ensures r.Some? ==> r.value < |s| && p(s[r.value]) && forall k :: 0 <= k < r.value ==> !p(s[k])
    ensures r.None? ==> forall k :: 0 <= k < |s| ==> !p(s[k])
  {
    if s == [] then None
    else if p(s[0]) then Some(0)
    else match FirstIndex(s[1..], p)
      case None => None
      case Some(i) => Some(i + 1)
  }

  /** The search finds the same position in a sequence whose elements answer
      `p` the same way position by position. */
  lemma FirstIndexAgrees<T>(s: seq<T>, s': seq<T>, p: T -> bool)
    requires |s| == |s'|
    requires forall k :: 0 <= k < |s| ==> p(s[k]) == p(s'[k])
    ensures FirstIndex(s, p) == FirstIndex(s', p)
  {
    var r, r' := FirstIndex(s, p), FirstIndex(s', p);
    if r.Some? && r'.Some? {
      assert !(r.value < r'.value) && !(r'.value < r.value);
    }
  }

  function ListHasId(id: Id): TodoList -> bool { (l: TodoList) => l.id == id }
  function ListIdIsNot(id: Id): TodoList -> bool { (l: TodoList) => l.id != id }
  function TaskHasId(id: Id): Task -> bool { (t: Task) => t.id == id }
  function TaskIdIsNot(id: Id): Task -> bool { (t: Task) => t.id != id }

  /** `lists.find(l => l.id === id)`, as the position found. */
  function ListIndex(lists: seq<TodoList>, id: Id): Option<nat> {
    FirstIndex(lists, ListHasId(id))
  }

  /** `tasks.find(t => t.id === id)`, as the position found. */
  function TaskIndex(tasks: seq<Task>, id: Id): Option<nat> {
    FirstIndex(tasks, TaskHasId(id))
  }

  // ----- Well-formed data -----

  predicate UniqueTaskIds(tasks: seq<Task>) {
    forall i, j :: 0 <= i < j < |tasks| ==> tasks[i].id != tasks[j].id
  }

  predicate UniqueListIds(lists: seq<TodoList>) {
    forall i, j :: 0 <= i < j < |lists| ==> lists[i].id != lists[j].id
  }

  /** No two lists have names that agree after lower-casing. */
  predicate UniqueNames(lists: seq<TodoList>) {
    forall i, j :: 0 <= i < j < |lists| ==> ToLower(lists[i].name) != ToLower(lists[j].name)
  }

  /** A title or name as the app stores it: trimmed and not empty. */
  predicate IsCleanText(s: string) {
    s != [] && !IsWhitespace(s[0]) && !IsWhitespace(s[|s| - 1])
  }

  /** Clean text is exactly the non-empty text that trimming leaves alone. */
  lemma CleanIsTrimmed(s: string)
    ensures IsCleanText(s) <==> s != [] && Trim(s) == s
  {
    TrimIsOuterSlice(s);
    if IsCleanText(s) {
      TrimNoop(s);
    }
  }

  /** What the app stores after `trim()` and its emptiness check is clean. */
  lemma TrimmedIsClean(s: string)
    requires Trim(s) != []
    ensures IsCleanText(Trim(s))
  {
    TrimIsOuterSlice(s);
  }

  predicate WellFormedList(l: TodoList) {
    IsCleanText(l.name) && UniqueTaskIds(l.tasks) &&
    forall k :: 0 <= k < |l.tasks| ==> IsCleanText(l.tasks[k].title)
  }

  predicate WellFormed(lists: seq<TodoList>) {
    UniqueListIds(lists) && UniqueNames(lists) &&
    forall k :: 0 <= k < |lists| ==> WellFormedList(lists[k])
  }

  /** `lists.some(l => l.name.toLowerCase() === name.toLowerCase())` */
  predicate NameTaken(lists: seq<TodoList>, name: string) {
    exists l :: l in lists && ToLower(l.name) == ToLower(name)
  }

  predicate ListIdInUse(lists: seq<TodoList>, id: Id) {
    exists l :: l in lists && l.id == id
  }

  predicate TaskIdInUse(lists: seq<TodoList>, id: Id) {
    exists l, t :: l in lists && t in l.tasks && t.id == id
  }

  /** With unique ids, the one match `find` returns is the only one. */
  lemma UniqueTaskMatch(tasks: seq<Task>, id: Id)
    requires UniqueTaskIds(tasks)
    ensures TaskIndex(tasks, id).Some? ==>
      forall k :: 0 <= k < |tasks| && k != TaskIndex(tasks, id).value ==> tasks[k].id != id
  {
  }

  /** Appending a list with a trimmed, non-empty, untaken name and an unused
      id keeps the store well formed. */
  lemma AppendKeepsWellFormed(lists: seq<TodoList>, id: Id, name: string)
    requires WellFormed(lists)
    requires IsCleanText(name) && !NameTaken(lists, name) && !ListIdInUse(lists, id)
    ensures WellFormed(lists + [TodoList(id, name, [])])
  {
    var r := lists + [TodoList(id, name, [])];
    forall i, j | 0 <= i < j < |r| ensures r[i].id != r[j].id && ToLower(r[i].name) != ToLower(r[j].name) {
      if j == |lists| {
        assert r[i] in lists;
      }
    }
  }

  /** Position `k` of `s` with position `i` cut out is position `k` or `k + 1` of `s`. */
  lemma CutAt<T>(s: seq<T>, i: nat, k: nat)
    requires i < |s| && k < |s| - 1
    ensures (s[..i] + s[i + 1..])[k] == s[if k < i then k else k + 1]
  {
  }

  /** Removing the one list with a given id keeps the rest in order and keeps
      the store well formed. */
  lemma RemoveListKeepsWellFormed(lists: seq<TodoList>, i: nat)
    requires WellFormed(lists) && i < |lists|
    ensures Filter(lists, ListIdIsNot(lists[i].id)) == lists[..i] + lists[i + 1..]
    ensures WellFormed(lists[..i] + lists[i + 1..])
  {
    FilterDropsOne(lists, i, ListIdIsNot(lists[i].id));
    var r := lists[..i] + lists[i + 1..];
    forall a, b | 0 <= a < b < |r|
      ensures r[a].id != r[b].id && ToLower(r[a].name) != ToLower(r[b].name)
    {
      CutAt(lists, i, a);
      CutAt(lists, i, b);
    }
    forall k | 0 <= k < |r| ensures WellFormedList(r[k]) {
      CutAt(lists, i, k);
    }
  }

  // ----- Task updates inside one list -----

  /** `task.completed = !task.completed` on the task `find` returns; nothing
      else changes, and nothing at all when no task has the id. */
  function ToggleTask(tasks: seq<Task>, id: Id): (r: seq<Task>)
    ensures |r| == |tasks|
    ensures forall k :: 0 <= k < |r| ==>
      r[k].id == tasks[k].id && r[k].title == tasks[k].title &&
      r[k].description == tasks[k].description && r[k].dueDate == tasks[k].dueDate &&
      r[k].createdAt == tasks[k].createdAt
    ensures forall k :: 0 <= k < |r| ==>
      (r[k].completed != tasks[k].completed <==> TaskIndex(tasks, id) == Some(k))
  {
    match TaskIndex(tasks, id)
    case None => tasks
    case Some(i) => tasks[i := tasks[i].(completed := !tasks[i].completed)]
  }

  /** Toggling the same task twice restores the list exactly. */
  lemma ToggleTwice(tasks: seq<Task>, id: Id)
    ensures ToggleTask(ToggleTask(tasks, id), id) == tasks
  {
    var once := ToggleTask(tasks, id);
    FirstIndexAgrees(tasks, once, TaskHasId(id));
    var twice := ToggleTask(once, id);
    assert forall k :: 0 <= k < |tasks| ==> twice[k] == tasks[k];
  }

  /** `task.title = title; task.description = description; task.dueDate =
      dueDate` on the task `find` returns; every other field of it and every
      other task is unchanged, and nothing changes when no task has the id. */
  function UpdateTask(tasks: seq<Task>, id: Id, title: string, description: string, dueDate: Option<int>): (r: seq<Task>)
    ensures |r| == |tasks|
    ensures forall k :: 0 <= k < |r| ==>
      r[k].id == tasks[k].id && r[k].completed == tasks[k].completed && r[k].createdAt == tasks[k].createdAt
    ensures forall k :: 0 <= k < |r| && TaskIndex(tasks, id) != Some(k) ==> r[k] == tasks[k]
    ensures TaskIndex(tasks, id).Some? ==>
      var t := r[TaskIndex(tasks, id).value];
      t.title == title && t.description == description && t.dueDate == dueDate
  {
    match TaskIndex(tasks, id)
    case None => tasks
    case Some(i) => tasks[i := tasks[i].(title := title, description := description, dueDate := dueDate)]
  }

  /** Updating keeps the task ids, so the store stays well formed when the new
      title is clean. */
  lemma UpdateKeepsWellFormed(l: TodoList, id: Id, title: string, description: string, dueDate: Option<int>)
    requires WellFormedList(l) && IsCleanText(title)
    ensures WellFormedList(l.(tasks := UpdateTask(l.tasks, id, title, description, dueDate)))
  {
  }

  /** `list.tasks.filter(t => t.id !== id)`: with unique ids this removes
      exactly the task `find` would return and keeps the others in order. */
  lemma RemoveTask(tasks: seq<Task>, id: Id)
    requires UniqueTaskIds(tasks)
    ensures Filter(tasks, TaskIdIsNot(id)) ==
      match TaskIndex(tasks, id)
      case None => tasks
      case Some(i) => tasks[..i] + tasks[i + 1..]
  {
    match TaskIndex(tasks, id)
    case None =>
      FilterKeepsAll(tasks, TaskIdIsNot(id));
    case Some(i) =>
      FilterDropsOne(tasks, i, TaskIdIsNot(id));
  }

  /** Removing tasks keeps a list well formed. */
  lemma RemoveTaskKeepsWellFormed(l: TodoList, id: Id)
    requires WellFormedList(l)
    ensures WellFormedList(l.(tasks := Filter(l.tasks, TaskIdIsNot(id))))
  {
    RemoveTask(l.tasks, id);
    match TaskIndex(l.tasks, id)
    case None =>
    case Some(i) =>
      var r := l.tasks[..i] + l.tasks[i + 1..];
      forall a, b | 0 <= a < b < |r| ensures r[a].id != r[b].id {
        CutAt(l.tasks, i, a);
        CutAt(l.tasks, i, b);
      }
      forall k | 0 <= k < |r| ensures IsCleanText(r[k].title) {
        CutAt(l.tasks, i, k);
      }
  }

  /** Appending a task with an unused id and a clean title keeps a list well formed. */
  lemma AppendTaskKeepsWellFormed(l: TodoList, t: Task)
    requires WellFormedList(l) && IsCleanText(t.title)
    requires forall k :: 0 <= k < |l.tasks| ==> l.tasks[k].id != t.id
    ensures WellFormedList(l.(tasks := l.tasks + [t]))
  {
  }
}
