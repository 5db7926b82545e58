/** `getFilteredTasks` and `updateStats`: which tasks of a list are shown,
    in which order, and the counts shown beside them. */
module Query {
  import opened Text
  import opened Model
  import opened Sorting

  /** The values of the filter drop-down; any other value shows everything. */
  datatype FilterMode = All | Active | Completed

  /** The values of the sort drop-down; any other value sorts by creation. */
  datatype SortMode = ByCreated | ByDueDate | ByTitle

  function FilterModeOf(value: string): FilterMode {
    if value == "active" then Active
    else if value == "completed" then Completed
    else All
  }

  function SortModeOf(value: string): SortMode {
    if value == "due-date" then ByDueDate
    else if value == "title" then ByTitle
    else ByCreated
  }

  // ----- Filtering -----

  /** `searchInput.value.toLowerCase().trim()` */
  function SearchTerm(input: string): string {
    Trim(ToLower(input))
  }

  /** The term occurs in the lowered title, or in the lowered description
      when there is one. */
  predicate MatchesSearch(t: Task, term: string) {
    Includes(ToLower(t.title), term) ||
    (t.description != [] && Includes(ToLower(t.description), term))
  }

  function SearchFilter(term: string): Task -> bool {
    (t: Task) => MatchesSearch(t, term)
  }

  /** The completion test of a filter mode; `All` lets every task through. */
  function CompletionFilter(mode: FilterMode): Task -> bool {
    (t: Task) => match mode
      case All => true
      case Active => !t.completed
      case Completed => t.completed
  }

  /** The search step (skipped for an empty term) followed by the completion
      step (skipped for `All`). */
  function Selection(tasks: seq<Task>, term: string, mode: FilterMode): seq<Task> {
    var searched := if term == [] then tasks else Filter(tasks, SearchFilter(term));
    if mode == All then searched else Filter(searched, CompletionFilter(mode))
  }

  /** The selection holds exactly the tasks that match the term (any task when
      the term is empty) and pass the completion filter, and it keeps their
      order: it is the single filter by both tests. */
  lemma SelectionIsFilter(tasks: seq<Task>, term: string, mode: FilterMode)
    ensures Selection(tasks, term, mode) ==
      Filter(tasks, (t: Task) => (term == [] || MatchesSearch(t, term)) && CompletionFilter(mode)(t))
    ensures forall t :: t in Selection(tasks, term, mode) <==>
      t in tasks && (term == [] || MatchesSearch(t, term)) && CompletionFilter(mode)(t)
  {
    var both := (t: Task) => (term == [] || MatchesSearch(t, term)) && CompletionFilter(mode)(t);
    var first := if term == [] then (t: Task) => true else SearchFilter(term);
    FilterTwice(tasks, first, CompletionFilter(mode), both);
    if term == [] {
      FilterKeepsAll(tasks, first);
    }
    if mode == All {
      var searched := if term == [] then tasks else Filter(tasks, SearchFilter(term));
      FilterKeepsAll(searched, CompletionFilter(mode));
    }
    FilterMembers(tasks, both);
  }

  /** Two filters in a row are one filter by both tests. */
  lemma {:induction false} FilterTwice(s: seq<Task>, p: Task -> bool, q: Task -> bool, pq: Task -> bool)
    requires forall t :: pq(t) == (p(t) && q(t))
    ensures Filter(Filter(s, p), q) == Filter(s, pq)
  {
    if s != [] {
      FilterTwice(s[1..], p, q, pq);
      if p(s[0]) {
        assert ([s[0]] + Filter(s[1..], p))[1..] == Filter(s[1..], p);
      }
    }
  }

  // ----- Ordering -----

  /** The comparator passed to `sort`: negative puts `a` first, positive puts
      `b` first. `titleCmp` stands for `String.prototype.localeCompare`. */
  function Compare(mode: SortMode, titleCmp: (string, string) -> int, a: Task, b: Task): int {
    match mode
    case ByDueDate =>
      if a.dueDate.None? && b.dueDate.None? then 0
      else if a.dueDate.None? then 1
      else if b.dueDate.None? then -1
      else a.dueDate.value - b.dueDate.value
    case ByTitle => titleCmp(a.title, b.title)
    case ByCreated => b.createdAt - a.createdAt
  }

  /** The comparator for one choice of the sort menu, as a function value. */
  function ComparatorFor(mode: SortMode, titleCmp: (string, string) -> int): (Task, Task) -> int {
    (a: Task, b: Task) => Compare(mode, titleCmp, a, b)
  }

  /** Whenever the title comparison (`localeCompare`, a collation order) is
      consistent, so is the comparator of every sort mode: due dates and
      creation times are compared as numbers, undated tasks tie with each
      other and come after dated ones. */
  lemma ComparatorForIsConsistent(mode: SortMode, titleCmp: (string, string) -> int)
    requires ConsistentComparator(titleCmp)
    ensures ConsistentComparator(ComparatorFor(mode, titleCmp))
  {
    var cmp := ComparatorFor(mode, titleCmp);
    forall a, b ensures Antisymmetric(cmp, a, b) {
      assert Antisymmetric(titleCmp, a.title, b.title);
    }
    forall a, b, c ensures TransitiveThrough(cmp, a, b, c) {
      assert TransitiveThrough(titleCmp, a.title, b.title, c.title);
    }
  }

  /** What sorted means for each choice of the sort menu: newest first; dated
      tasks by ascending due date, then the undated ones; or in the order the
      title comparison gives. */
  lemma SortedMeaning(mode: SortMode, titleCmp: (string, string) -> int, s: seq<Task>)
    requires Sorted(ComparatorFor(mode, titleCmp), s)
    ensures mode == ByCreated ==>
      forall i, j :: 0 <= i < j < |s| ==> s[i].createdAt >= s[j].createdAt
    ensures mode == ByDueDate ==>
      forall i, j :: 0 <= i < j < |s| && s[j].dueDate.Some? ==>
        s[i].dueDate.Some? && s[i].dueDate.value <= s[j].dueDate.value
    ensures mode == ByTitle ==>
      forall i, j :: 0 <= i < j < |s| ==> titleCmp(s[i].title, s[j].title) <= 0
  {
    forall i, j | 0 <= i < j < |s| ensures Compare(mode, titleCmp, s[i], s[j]) <= 0 {
      assert ComparatorFor(mode, titleCmp)(s[i], s[j]) <= 0;
    }
  }

  /** The stable sort by the menu's comparator keeps exactly the tasks it was
      given, keeps tied tasks in their order, and orders the rest as the
      sort menu asks. */
  lemma SortedByMenu(mode: SortMode, titleCmp: (string, string) -> int, tasks: seq<Task>)
    requires ConsistentComparator(titleCmp)
    ensures var r := StableSort(ComparatorFor(mode, titleCmp), tasks);
      && multiset(r) == multiset(tasks) && (forall t :: t in r <==> t in tasks)
      && StableReorder(ComparatorFor(mode, titleCmp), tasks, r)
      && (mode == ByCreated ==>
            forall i, j :: 0 <= i < j < |r| ==> r[i].createdAt >= r[j].createdAt)
      && (mode == ByDueDate ==>
            forall i, j :: 0 <= i < j < |r| && r[j].dueDate.Some? ==>
              r[i].dueDate.Some? && r[i].dueDate.value <= r[j].dueDate.value)
      && (mode == ByTitle ==>
            forall i, j :: 0 <= i < j < |r| ==> titleCmp(r[i].title, r[j].title) <= 0)
  {
    var cmp := ComparatorFor(mode, titleCmp);
    var r := StableSort(cmp, tasks);
    ComparatorForIsConsistent(mode, titleCmp);
    StableSortCorrect(cmp, tasks);
    assert forall t :: t in r <==> t in multiset(r);
    assert forall t :: t in tasks <==> t in multiset(tasks);
    SortedMeaning(mode, titleCmp, r);
  }

  /** `[...tasks].sort(cmp)`: a sorted copy of `tasks` made by the stable
      in-place sort; `SortedByMenu` says what its order is. */
  method SortTasks(tasks: seq<Task>, mode: SortMode, titleCmp: (string, string) -> int) returns (r: seq<Task>)
    requires ConsistentComparator(titleCmp)
    ensures r == StableSort(ComparatorFor(mode, titleCmp), tasks)
    ensures multiset(r) == multiset(tasks)
  {
    ComparatorForIsConsistent(mode, titleCmp);
    var a := new Task[|tasks|](k requires 0 <= k < |tasks| => tasks[k]);
    assert a[..] == tasks;
    SortInPlace(a, ComparatorFor(mode, titleCmp));
    r := a[..];
    SortedByMenu(mode, titleCmp, tasks);
  }

  // ----- Statistics -----

  datatype Counts = Counts(total: nat, completed: nat, active: int)

  /** `updateStats`: the list size, how many are completed, and the rest. */
  function Stats(tasks: seq<Task>): Counts {
    var done := |Filter(tasks, CompletionFilter(Completed))|;
    Counts(|tasks|, done, |tasks| - done)
  }

  /** The counts agree with what the "completed" and "active" filters show,
      and they add up to the list size. */
  lemma StatsMatchFilters(tasks: seq<Task>)
    ensures Stats(tasks).completed == |Selection(tasks, [], Completed)|
    ensures Stats(tasks).active == |Selection(tasks, [], Active)|
    ensures Stats(tasks).active >= 0 && Stats(tasks).completed + Stats(tasks).active == Stats(tasks).total
  {
    FilterComplement(tasks, CompletionFilter(Completed), CompletionFilter(Active));
  }
}
