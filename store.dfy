/** The app's global state (`lists`, `currentListId`, `editingTaskId`) and the
    handlers that change it. Input values read from the page are parameters,
    `confirm()` is a boolean parameter, and the ids `generateId` would make and
    the clock reading `Date.now()` are supplied by the caller. */
module Store {
  import opened Text
  import opened Model
  import opened Sorting
  import opened Query

  /** Which way `saveNewList` ended: one of its two alerts, or a new list. */
  datatype ListOutcome = EmptyName | DuplicateName | ListCreated

  /** `lists.find(l => l.id === currentListId)`, as a position: the current
      list, when one is selected and a list has that id. */
  function SelectedIndex(lists: seq<TodoList>, current: Option<Id>): (r: Option<nat>)
    ensures r.Some? ==> r.value < |lists| && current == Some(lists[r.value].id)
    ensures r.Some? ==> forall k :: 0 <= k < r.value ==> lists[k].id != current.value
    ensures r.None? ==> current.None? || forall k :: 0 <= k < |lists| ==> lists[k].id != current.value
  {
    if current.None? then None else ListIndex(lists, current.value)
  }

  /** The three starter lists, in the order `createDefaultLists` makes them. */
  function DefaultLists(workId: Id, personalId: Id, shoppingId: Id): seq<TodoList> {
    [TodoList(workId, "Work", []), TodoList(personalId, "Personal", []), TodoList(shoppingId, "Shopping", [])]
  }

  /** A starter list is well formed: its name is trimmed and not empty. */
  lemma StarterListWellFormed(id: Id, name: string)
    requires name == "Work" || name == "Personal" || name == "Shopping"
    ensures WellFormedList(TodoList(id, name, []))
  {
  }

  /** The starter names differ even ignoring case. */
  lemma StarterNamesDistinct()
    ensures ToLower("Work") != ToLower("Personal")
    ensures ToLower("Work") != ToLower("Shopping")
    ensures ToLower("Personal") != ToLower("Shopping")
  {
    assert ToLower("Work")[0] == 'w';
    assert ToLower("Personal")[0] == 'p';
    assert ToLower("Shopping")[0] == 's';
  }

  /** Three well-formed lists with distinct ids and names make a well-formed
      store. */
  lemma ThreeListsWellFormed(a: TodoList, b: TodoList, c: TodoList)
    requires WellFormedList(a) && WellFormedList(b) && WellFormedList(c)
    requires a.id != b.id && a.id != c.id && b.id != c.id
    requires ToLower(a.name) != ToLower(b.name) && ToLower(a.name) != ToLower(c.name)
    requires ToLower(b.name) != ToLower(c.name)
    ensures WellFormed([a, b, c])
  {
  }

  /** With distinct ids the starter lists satisfy the store invariant. */
  lemma DefaultListsWellFormed(workId: Id, personalId: Id, shoppingId: Id)
    requires workId != personalId && workId != shoppingId && personalId != shoppingId
    ensures WellFormed(DefaultLists(workId, personalId, shoppingId))
  {
    StarterListWellFormed(workId, "Work");
    StarterListWellFormed(personalId, "Personal");
    StarterListWellFormed(shoppingId, "Shopping");
    StarterNamesDistinct();
    ThreeListsWellFormed(TodoList(workId, "Work", []), TodoList(personalId, "Personal", []),
                         TodoList(shoppingId, "Shopping", []));
  }

  /** Putting back a well-formed list with the same id and name keeps the
      store well formed. */
  lemma ReplaceListKeepsWellFormed(lists: seq<TodoList>, i: nat, l: TodoList)
    requires WellFormed(lists) && i < |lists|
    requires WellFormedList(l) && l.id == lists[i].id && l.name == lists[i].name
    ensures WellFormed(lists[i := l])
  {
  }

  /** A fresh task id is used by no task of any list. */
  lemma FreshTaskId(lists: seq<TodoList>, i: nat, id: Id)
    requires i < |lists| && !TaskIdInUse(lists, id)
    ensures forall k :: 0 <= k < |lists[i].tasks| ==> lists[i].tasks[k].id != id
  {
    forall k | 0 <= k < |lists[i].tasks| ensures lists[i].tasks[k].id != id {
      assert lists[i] in lists && lists[i].tasks[k] in lists[i].tasks;
    }
  }

  /** Editing a task of one list with a clean title keeps the store well formed. */
  lemma UpdateInListKeepsWellFormed(lists: seq<TodoList>, i: nat, id: Id, title: string,
                                  description: string, dueDate: Option<int>)
    requires WellFormed(lists) && i < |lists| && IsCleanText(title)
    ensures WellFormed(lists[i := lists[i].(tasks := UpdateTask(lists[i].tasks, id, title, description, dueDate))])
  {
    UpdateKeepsWellFormed(lists[i], id, title, description, dueDate);
    ReplaceListKeepsWellFormed(lists, i, lists[i].(tasks := UpdateTask(lists[i].tasks, id, title, description, dueDate)));
  }

  /** Appending a task with a clean title and a fresh id to one list keeps
      the store well formed. */
  lemma AddToListKeepsWellFormed(lists: seq<TodoList>, i: nat, t: Task)
    requires WellFormed(lists) && i < |lists| && IsCleanText(t.title) && !TaskIdInUse(lists, t.id)
    ensures WellFormed(lists[i := lists[i].(tasks := lists[i].tasks + [t])])
  {
    FreshTaskId(lists, i, t.id);
    AppendTaskKeepsWellFormed(lists[i], t);
    ReplaceListKeepsWellFormed(lists, i, lists[i].(tasks := lists[i].tasks + [t]));
  }

  /** `updateStats`: nothing (the panel is hidden) without a current list;
      otherwise the counts of the current list, which agree with what the
      "completed" and "active" filters show. */
  function CurrentStats(lists: seq<TodoList>, current: Option<Id>): (c: Option<Counts>)
    ensures c.None? <==> SelectedIndex(lists, current).None?
    ensures c.Some? ==>
      var tasks := lists[SelectedIndex(lists, current).value].tasks;
      && c.value.total == |tasks|
      && c.value.completed == |Selection(tasks, [], Completed)|
      && c.value.active == |Selection(tasks, [], Active)|
      && c.value.completed + c.value.active == c.value.total
  {
    match SelectedIndex(lists, current)
    case None => None
    case Some(i) =>
      StatsMatchFilters(lists[i].tasks);
      Some(Stats(lists[i].tasks))
  }

  class TodoStore {
    var lists: seq<TodoList>
    var currentListId: Option<Id>
    var editingTaskId: Option<Id>

    /** The object invariant: unique list ids, list names unique ignoring case,
        names and titles trimmed and non-empty, task ids unique in each list. */
    ghost predicate Valid()
      reads this
    {
      WellFormed(lists)
    }

    /** The globals as the script declares them. */
    constructor ()
      ensures Valid()
      ensures lists == [] && currentListId == None && editingTaskId == None
    {
      lists := [];
      currentListId := None;
      editingTaskId := None;
    }

    /** `createDefaultLists`: the three starter lists replace whatever was
        there. */
    method CreateDefaultLists(workId: Id, personalId: Id, shoppingId: Id)
      requires workId != personalId && workId != shoppingId && personalId != shoppingId
      modifies this
      ensures Valid()
      ensures lists == DefaultLists(workId, personalId, shoppingId)
      ensures currentListId == old(currentListId) && editingTaskId == old(editingTaskId)
    {
      DefaultListsWellFormed(workId, personalId, shoppingId);
      lists := DefaultLists(workId, personalId, shoppingId);
    }

    /** `saveNewList`: rejects an empty trimmed name or one that matches an
        existing name ignoring case, changing nothing; otherwise appends a new
        empty list under the trimmed name and selects it. */
    method SaveNewList(input: string, freshId: Id) returns (outcome: ListOutcome)
      requires Valid() && !ListIdInUse(lists, freshId)
      modifies this
      ensures Valid()
      ensures outcome == EmptyName <==> Trim(input) == []
      ensures outcome == DuplicateName <==> Trim(input) != [] && NameTaken(old(lists), Trim(input))
      ensures outcome != ListCreated ==> lists == old(lists) && currentListId == old(currentListId)
      ensures outcome == ListCreated ==>
        lists == old(lists) + [TodoList(freshId, Trim(input), [])] && currentListId == Some(freshId)
      ensures editingTaskId == old(editingTaskId)
    {
      var name := Trim(input);
      if name == [] {
        return EmptyName;
      }
      if NameTaken(lists, name) {
        return DuplicateName;
      }
      TrimmedIsClean(input);
      AppendKeepsWellFormed(lists, freshId, name);
      lists := lists + [TodoList(freshId, name, [])];
      SelectList(freshId);
      outcome := ListCreated;
    }

    /** `deleteCurrentList`: with a selected (truthy) id, a list with that id
        and the user's confirmation, removes that list (and its tasks) and
        selects the first remaining list, or none; otherwise changes nothing. */
    method DeleteCurrentList(confirmed: bool)
      requires Valid()
      modifies this
      ensures Valid()
      ensures var sel := SelectedIndex(old(lists), old(currentListId));
        !IsSet(old(currentListId)) || sel.None? || !confirmed ==>
          lists == old(lists) && currentListId == old(currentListId)
      ensures var sel := SelectedIndex(old(lists), old(currentListId));
        IsSet(old(currentListId)) && sel.Some? && confirmed ==>
          && lists == Filter(old(lists), ListIdIsNot(old(currentListId).value))
          && lists == old(lists)[..sel.value] + old(lists)[sel.value + 1..]
          && currentListId == (if lists == [] then None else Some(lists[0].id))
      ensures editingTaskId == old(editingTaskId)
    {
      if !IsSet(currentListId) {
        return;
      }
      var i := SelectedIndex(lists, currentListId);
      if i.None? || !confirmed {
        return;
      }
      RemoveListKeepsWellFormed(lists, i.value);
      lists := Filter(lists, ListIdIsNot(currentListId.value));
      if |lists| > 0 {
        SelectList(lists[0].id);
      } else {
        currentListId := None;
      }
    }

    /** `selectList`, its state part: the id becomes the selection, whether or
        not a list has it. */
    method SelectList(id: Id)
      modifies this
      ensures currentListId == Some(id)
      ensures lists == old(lists) && editingTaskId == old(editingTaskId)
    {
      currentListId := Some(id);
    }

    /** `showTaskForm`, its state part: with a selected (truthy) id, the form
        opens for a new task; without one nothing changes. */
    method ShowTaskForm() returns (shown: bool)
      modifies this
      ensures shown <==> IsSet(old(currentListId))
      ensures editingTaskId == if shown then None else old(editingTaskId)
      ensures lists == old(lists) && currentListId == old(currentListId)
    {
      if !IsSet(currentListId) {
        return false;
      }
      editingTaskId := None;
      shown := true;
    }

    /** `editTask`, its state part: a task of the current list becomes the
        edit target; an unknown list or task changes nothing. */
    method EditTask(taskId: Id)
      modifies this
      ensures lists == old(lists) && currentListId == old(currentListId)
      ensures var sel := SelectedIndex(lists, currentListId);
        editingTaskId ==
          if sel.Some? && TaskIndex(lists[sel.value].tasks, taskId).Some? then Some(taskId)
          else old(editingTaskId)
    {
      var i := SelectedIndex(lists, currentListId);
      if i.None? {
        return;
      }
      if TaskIndex(lists[i.value].tasks, taskId).None? {
        return;
      }
      editingTaskId := Some(taskId);
    }

    /** `hideTaskForm`, its state part: no edit target. */
    method HideTaskForm()
      modifies this
      ensures editingTaskId == None
      ensures lists == old(lists) && currentListId == old(currentListId)
    {
      editingTaskId := None;
    }

    /** `saveTask`: an empty trimmed title, or no current list, changes
        nothing. Otherwise, with an edit target, the title, description and due
        date of that task are overwritten (the tasks stay as they are if it is
        gone); without one (or with a falsy one), a new uncompleted task is appended to the current
        list. Either way the form closes, clearing the edit target. */
    method SaveTask(titleInput: string, descriptionInput: string, dueDate: Option<int>, freshId: Id, now: int)
      requires Valid() && !TaskIdInUse(lists, freshId)
      modifies this
      ensures Valid()
      ensures var sel := SelectedIndex(old(lists), old(currentListId));
        Trim(titleInput) == [] || sel.None? ==>
          lists == old(lists) && editingTaskId == old(editingTaskId)
      ensures var sel := SelectedIndex(old(lists), old(currentListId));
        Trim(titleInput) != [] && sel.Some? ==> editingTaskId == None
      ensures var sel := SelectedIndex(old(lists), old(currentListId));
        Trim(titleInput) != [] && sel.Some? && IsSet(old(editingTaskId)) ==>
          var l := old(lists)[sel.value];
          var edited := UpdateTask(l.tasks, old(editingTaskId).value, Trim(titleInput), Trim(descriptionInput), dueDate);
          lists == old(lists)[sel.value := l.(tasks := edited)]
      ensures var sel := SelectedIndex(old(lists), old(currentListId));
        Trim(titleInput) != [] && sel.Some? && !IsSet(old(editingTaskId)) ==>
          var l := old(lists)[sel.value];
          var added := Task(freshId, Trim(titleInput), Trim(descriptionInput), dueDate, false, now);
          lists == old(lists)[sel.value := l.(tasks := l.tasks + [added])]
      ensures currentListId == old(currentListId)
    {
      var title := Trim(titleInput);
      var description := Trim(descriptionInput);
      if title == [] {
        return;
      }
      var i := SelectedIndex(lists, currentListId);
      if i.None? {
        return;
      }
      TrimmedIsClean(titleInput);
      var l := lists[i.value];
      var updated;
      if IsSet(editingTaskId) {
        updated := l.(tasks := UpdateTask(l.tasks, editingTaskId.value, title, description, dueDate));
        UpdateInListKeepsWellFormed(lists, i.value, editingTaskId.value, title, description, dueDate);
      } else {
        var t := Task(freshId, title, description, dueDate, false, now);
        updated := l.(tasks := l.tasks + [t]);
        AddToListKeepsWellFormed(lists, i.value, t);
      }
      lists := lists[i.value := updated];
      editingTaskId := None;
    }

    /** `deleteTask`: with the user's confirmation and a current list, removes
        the task with that id from it, keeping the others in order; otherwise
        changes nothing. */
    method DeleteTask(taskId: Id, confirmed: bool)
      requires Valid()
      modifies this
      ensures Valid()
      ensures var sel := SelectedIndex(old(lists), old(currentListId));
        !confirmed || sel.None? ==> lists == old(lists)
      ensures var sel := SelectedIndex(old(lists), old(currentListId));
        confirmed && sel.Some? ==>
          var tasks := old(lists)[sel.value].tasks;
          lists == old(lists)[sel.value := old(lists)[sel.value].(tasks := Filter(tasks, TaskIdIsNot(taskId)))]
      ensures var sel := SelectedIndex(old(lists), old(currentListId));
        confirmed && sel.Some? ==>
          var tasks := old(lists)[sel.value].tasks;
          var found := TaskIndex(tasks, taskId);
          && (found.None? ==> lists == old(lists))
          && (found.Some? ==> lists[sel.value].tasks == tasks[..found.value] + tasks[found.value + 1..])
      ensures currentListId == old(currentListId) && editingTaskId == old(editingTaskId)
    {
      if !confirmed {
        return;
      }
      var i := SelectedIndex(lists, currentListId);
      if i.None? {
        return;
      }
      var l := lists[i.value];
      assert WellFormedList(l);
      var updated := l.(tasks := Filter(l.tasks, TaskIdIsNot(taskId)));
      RemoveTask(l.tasks, taskId);
      RemoveTaskKeepsWellFormed(l, taskId);
      ReplaceListKeepsWellFormed(lists, i.value, updated);
      lists := lists[i.value := updated];
    }

    /** `toggleTaskComplete`: flips `completed` on the task with that id in the
        current list; an unknown list or task changes nothing. */
    method ToggleTaskComplete(taskId: Id)
      requires Valid()
      modifies this
      ensures Valid()
      ensures var sel := SelectedIndex(old(lists), old(currentListId));
        sel.None? ==> lists == old(lists)
      ensures var sel := SelectedIndex(old(lists), old(currentListId));
        sel.Some? ==>
          var l := old(lists)[sel.value];
          lists == old(lists)[sel.value := l.(tasks := ToggleTask(l.tasks, taskId))]
      ensures currentListId == old(currentListId) && editingTaskId == old(editingTaskId)
    {
      var i := SelectedIndex(lists, currentListId);
      if i.None? {
        return;
      }
      var l := lists[i.value];
      assert WellFormedList(l);
      var updated := l.(tasks := ToggleTask(l.tasks, taskId));
      ReplaceListKeepsWellFormed(lists, i.value, updated);
      lists := lists[i.value := updated];
    }

    /** `getFilteredTasks`: no list selected gives no tasks; otherwise the
        current list's tasks that match the search term and the completion
        filter, stably sorted by the chosen comparator. Nothing changes. */
    method FilteredTasks(searchInput: string, filterValue: string, sortValue: string,
                         titleCmp: (string, string) -> int) returns (r: seq<Task>)
      requires ConsistentComparator(titleCmp)
      ensures var sel := SelectedIndex(lists, currentListId);
        var term, mode := SearchTerm(searchInput), SortModeOf(sortValue);
        if sel.None? then r == []
        else
          var shown := Selection(lists[sel.value].tasks, term, FilterModeOf(filterValue));
          && r == StableSort(ComparatorFor(mode, titleCmp), shown)
          && forall t :: t in r <==>
               t in lists[sel.value].tasks && (term == [] || MatchesSearch(t, term)) &&
               CompletionFilter(FilterModeOf(filterValue))(t)
    {
      var i := SelectedIndex(lists, currentListId);
      if i.None? {
        return [];
      }
      var tasks := lists[i.value].tasks;
      var term := SearchTerm(searchInput);
      if term != [] {
        tasks := Filter(tasks, SearchFilter(term));
      }
      var filterMode := FilterModeOf(filterValue);
      if filterMode != All {
        tasks := Filter(tasks, CompletionFilter(filterMode));
      }
      r := SortTasks(tasks, SortModeOf(sortValue), titleCmp);
      SortedByMenu(SortModeOf(sortValue), titleCmp, tasks);
      SelectionIsFilter(lists[i.value].tasks, term, filterMode);
    }
  }
}
