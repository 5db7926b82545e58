# To-do lists: a Dafny model of the app's state and queries

This project models the core of a browser to-do app (`todo-script.js`). The
app keeps named lists of tasks. Each task has a title, an optional
description, an optional due date, a completion flag and a creation time.
The app holds three globals: the lists, the id of the selected list, and the
id of the task being edited. Its event handlers do the following:

- create the three starter lists;
- add a list under a trimmed name that must be new ignoring case;
- delete the selected list, after confirmation, and select the first
  remaining one;
- add or edit a task from the form;
- delete a task, after confirmation;
- toggle a task's completion.

Each render shows the selected list's tasks. The shown tasks are filtered by
a search term and a completion filter. They are stably sorted by creation
time, due date or title. Beside them the app shows counts, due-date labels
and due-date classes, and it escapes the text before putting it into markup.

The modules:

- `Text` (text.dfy) — `trim`, `toLowerCase` and `includes` over `seq<char>`.
- `Escape` (escape.dfy) — `escapeHtml`, with a decoder as its inverse.
- `Model` (model.dfy):
  - the `Task` and `TodoList` values;
  - the `filter`/`find` helpers;
  - the per-list task updates (toggle, edit, remove);
  - the store invariant `WellFormed`: list ids are unique, list names are
    unique ignoring case, names and titles are trimmed and not empty, and
    task ids are unique within a list.
- `Dates` (dates.dfy):
  - `isOverdue` and `isToday`;
  - the branch `formatDate` takes;
  - the due-date class of a drawn task.
- `Sorting` (sort.dfy):
  - `Array.prototype.sort` with a comparator, as a stable in-place insertion
    sort on an array;
  - its specification `StableSort` on sequences, proved to produce a sorted,
    stable permutation.
- `Query` (query.dfy):
  - `getFilteredTasks`: the selection, the sort menu's comparator and what
    each sort order means;
  - `updateStats`: the counts.
- `Store` (store.dfy) — class `TodoStore`:
  - the three globals as fields;
  - every handler as a method that keeps `Valid()` (the store invariant);
  - each method's `ensures` gives the whole new state.

## Model

| member | source | states |
|---|---|---|
| Text.TrimStartSpec | todo-script.js:236 | trimming the front keeps a suffix that does not start with whitespace, and all it drops is whitespace |
| Text.TrimEndSpec | todo-script.js:366-367 | trimming the end keeps a prefix that does not end with whitespace, and all it drops is whitespace |
| Text.TrimIsOuterSlice | todo-script.js:236 | `trim()` returns a slice of the input with only whitespace outside it and none at either of its ends |
| Text.TrimIdempotent | todo-script.js:366 | trimming a trimmed string changes nothing |
| Text.TrimEmptyIff | todo-script.js:239-242 | the trimmed input is empty exactly when the input is all whitespace, which is when the empty-name alert fires |
| Text.ToLowerIdempotent | todo-script.js:245 | lower-casing twice is lower-casing once, so a stored name that is already lower-case compares equal to its own lowered form |
| Text.Trim | todo-script.js:236 | `String.prototype.trim`: drops leading and then trailing whitespace (the full ECMAScript whitespace and line-terminator set); its result is never longer than the input |
| Text.ToLower | todo-script.js:245 | `toLowerCase`, character by character: the result has the input's length and each character is the lowered input character |
| Text.Includes | todo-script.js:476-477 | `includes`: the term is a prefix of the text or of one of its suffixes |
| Text.IncludesIff | todo-script.js:476-477 | `includes` is true exactly when the term occurs as a contiguous slice of the text |
| Escape.EntityOf | todo-script.js:620-626 | a special character maps to a reference starting with `&`, and any other character maps to itself |
| Escape.EscapeHtml | todo-script.js:619-628 | the output is at least as long as the input, contains no `<`, `>`, `"` or `'`, and equals the input when nothing needed escaping |
| Escape.DecodeEntity | todo-script.js:620-626 | each replacement decodes back to its character, whatever follows it |
| Escape.EscapeRoundTrip | todo-script.js:619-628 | decoding the escaped text gives back the original text |
| Escape.EscapeInjective | todo-script.js:619-628 | two different texts never escape to the same markup |
| Model.Filter | todo-script.js:438 | `Array.prototype.filter`: the elements passing the test, in order; never longer than the input |
| Model.FilterMembers | todo-script.js:438 | an element survives `filter` exactly when it was present and passes the test |
| Model.FilterComplement | todo-script.js:603-604 | the elements passing a test and those failing it together number the whole sequence |
| Model.FirstIndex | todo-script.js:270 | `find` returns the first position that passes the test, or nothing when no position passes |
| Model.IsSet | todo-script.js:268 | the truthiness test on an id variable: `null` and the empty string are falsy |
| Model.NameTaken | todo-script.js:245 | `lists.some`: some list's lower-cased name equals the lower-cased candidate |
| Model.CleanIsTrimmed | todo-script.js:236-242 | a stored name is clean exactly when it is non-empty and trimming leaves it unchanged |
| Model.TrimmedIsClean | todo-script.js:366-374 | a trimmed title that passed the emptiness check is clean |
| Model.UniqueTaskMatch | todo-script.js:415-416 | with unique ids, the task `find` returns is the only one with that id |
| Model.AppendKeepsWellFormed | todo-script.js:245-257 | appending a list with a clean, untaken name and an unused id keeps the store invariant |
| Model.RemoveListKeepsWellFormed | todo-script.js:278 | filtering out the selected list's id removes exactly that list, keeps the others in order and keeps the invariant |
| Model.ToggleTask | todo-script.js:452-455 | only the `completed` flag of the task `find` returns changes; with no such task nothing changes |
| Model.ToggleTwice | todo-script.js:449-460 | toggling the same task twice restores the tasks exactly |
| Model.UpdateTask | todo-script.js:384-389 | the found task gets the new title, description and due date; its id, flag and creation time stay, and every other task is unchanged |
| Model.UpdateKeepsWellFormed | todo-script.js:384-389 | editing with a clean title keeps a list well formed |
| Model.RemoveTask | todo-script.js:438 | with unique ids, the id filter removes exactly the task `find` would return and keeps the rest in order |
| Model.RemoveTaskKeepsWellFormed | todo-script.js:438 | removing tasks keeps a list well formed |
| Model.AppendTaskKeepsWellFormed | todo-script.js:391-399 | appending a task with a clean title and an unused id keeps a list well formed |
| Dates.IsOverdue | todo-script.js:160-163 | `isOverdue`: a due date is set and lies strictly before now |
| Dates.IsToday | todo-script.js:170-177 | `isToday`: a due date is set and falls on the same calendar day as now |
| Dates.FormatDate | todo-script.js:133-153 | `formatDate`: no label without a date; otherwise by the whole-day difference, 0 gives "Today at", 1 "Tomorrow at", a negative one "Overdue -", anything else the full date |
| Dates.DayMonotone | todo-script.js:136-142 | a later time never falls on an earlier calendar day |
| Dates.FormatDateCarriesDate | todo-script.js:133-153 | the label is empty exactly when there is no due date, and any other label carries the due date |
| Dates.TodayLabelIffToday | todo-script.js:144-145 | the "Today at" branch is taken exactly when `isToday` holds |
| Dates.LabelAgreesWithOverdue | todo-script.js:148-152 | an "Overdue" label means `isOverdue` holds; a "Tomorrow" label or a full date means it does not |
| Dates.DueClassOf | todo-script.js:548-555 | a task gets the overdue class exactly when it is dated, not completed and overdue; it gets the today class exactly when it is dated, not completed, not overdue and due today |
| Dates.DueClassAgreesWithLabel | todo-script.js:548-555 | an overdue-class date is labelled "Today" or "Overdue"; a today-class date is labelled "Today" and is not yet past |
| Query.SearchTerm | todo-script.js:473 | the search term: the input lower-cased, then trimmed |
| Query.MatchesSearch | todo-script.js:475-478 | a task matches when its lowered title includes the term, or it has a description whose lowered form includes it |
| Query.Selection | todo-script.js:473-487 | the search filter (skipped for an empty term) followed by the completion filter (skipped unless `active` or `completed`) |
| Query.SelectionIsFilter | todo-script.js:473-487 | the search step followed by the completion step is one stable filter by both tests, and keeps exactly the tasks that pass both |
| Query.FilterTwice | todo-script.js:482-487 | two filters in a row are one filter by the conjunction of their tests |
| Query.Compare | todo-script.js:491-504 | the comparator: by due date, dated tasks before undated ones and earlier dates first, undated ones tied; by title, `localeCompare`; otherwise newest creation time first |
| Query.ComparatorForIsConsistent | todo-script.js:491-504 | if the title comparison is consistent, then every sort mode's comparator is antisymmetric and transitive |
| Query.SortedMeaning | todo-script.js:493-503 | sorted by creation means newest first; by due date means dated tasks ascending, then undated ones; by title means in title order |
| Query.SortedByMenu | todo-script.js:490-505 | the sorted result has the same tasks (as a multiset), keeps tied tasks in order, and is ordered as the sort menu asks |
| Query.SortTasks | todo-script.js:490-505 | sorting a copy of the tasks in place yields the stable sort of the tasks |
| Query.Stats | todo-script.js:598-600 | the total, the completed count, and the total minus the completed count |
| Query.StatsMatchFilters | todo-script.js:598-600 | the completed and active counts equal the sizes of the "completed" and "active" selections and add up to the total |
| Sorting.StableSort | todo-script.js:491 | the order of a stable sort by the comparator: insertion sort from the left, so tied elements keep their input order |
| Sorting.InsertPermutes | todo-script.js:491 | one insertion step adds exactly the inserted element |
| Sorting.InsertSorted | todo-script.js:491 | inserting into a sorted sequence keeps it sorted |
| Sorting.InsertTies | todo-script.js:491 | an insertion puts the element last among the elements tied with it and leaves every other tie class alone |
| Sorting.StableSortCorrect | todo-script.js:491 | the stable sort yields a sorted permutation of its input in which tied elements keep their input order |
| Sorting.InsertAt | todo-script.js:491 | insertion places the element after the elements not greater than it and before the greater ones |
| Sorting.ShiftedIsInsert | todo-script.js:491 | shifting the greater tail of a sorted prefix right and writing the element into the gap is one insertion step |
| Sorting.InsertLast | todo-script.js:491 | the inner loop turns the array's first `i + 1` places into the old sorted prefix with element `i` inserted, and leaves the rest alone |
| Sorting.SortInPlace | todo-script.js:491 | the in-place sort leaves the array holding the stable sort of its old contents |
| Store.SelectedIndex | todo-script.js:467-468 | like `lists.find` on the selected id: a position found holds a list with that id and no earlier list has it; nothing is found exactly when no id is selected or no list has it |
| Store.DefaultLists | todo-script.js:98-117 | the starter lists "Work", "Personal" and "Shopping", empty, in that order |
| Store.StarterNamesDistinct | todo-script.js:101-113 | the starter names "Work", "Personal" and "Shopping" differ even ignoring case |
| Store.DefaultListsWellFormed | todo-script.js:98-117 | with distinct ids, the starter lists satisfy the store invariant |
| Store.CurrentStats | todo-script.js:591-611 | there are no counts exactly when no list is selected; otherwise the total is the list size, the completed and active counts match the filters, and the two add up to the total |
| Store.TodoStore.constructor | todo-script.js:27-29 | the store starts with no lists, no selection and no edit target, and satisfies the invariant |
| Store.TodoStore.CreateDefaultLists | todo-script.js:98-117 | the lists become the three empty starter lists, in order; the invariant holds and nothing else changes |
| Store.TodoStore.SaveNewList | todo-script.js:235-262 | it reports an empty name exactly when the trimmed input is empty, and a duplicate exactly when the name is taken ignoring case, changing nothing in either case; otherwise it appends an empty list under the trimmed name and selects it |
| Store.TodoStore.DeleteCurrentList | todo-script.js:267-292 | with a truthy selected id, a list with that id, and confirmation, it removes exactly that list, keeps the others in order and selects the first remaining list or none; otherwise nothing changes |
| Store.TodoStore.SelectList | todo-script.js:298-299 | the given id becomes the selection, whether or not a list has it |
| Store.TodoStore.ShowTaskForm | todo-script.js:339-347 | the form opens (clearing the edit target) exactly when the selected id is truthy |
| Store.TodoStore.EditTask | todo-script.js:412-420 | the edit target becomes the task id only when the selected list has that task; otherwise nothing changes |
| Store.TodoStore.HideTaskForm | todo-script.js:357-360 | the edit target is cleared and nothing else changes |
| Store.TodoStore.SaveTask | todo-script.js:365-406 | with an empty trimmed title or no list, nothing changes. Otherwise a truthy edit target gets the trimmed title and description and the due date; with a falsy one a new uncompleted task stamped with the current time is appended; the edit target is then cleared. The invariant holds throughout. |
| Store.TodoStore.DeleteTask | todo-script.js:432-443 | with confirmation and a selected list, the task with that id is removed and the others keep their order; otherwise nothing changes |
| Store.TodoStore.ToggleTaskComplete | todo-script.js:449-460 | the selected list's task with that id has its completion flipped; with no list or no such task nothing changes |
| Store.TodoStore.FilteredTasks | todo-script.js:466-508 | with no list selected the result is empty; otherwise it is the stable sort, by the chosen comparator, of exactly the tasks that match the search term and the completion filter |

## Left out

- Rendering (`renderLists`, `renderTasks`, the empty-state markup, the stats text and its visibility, focus handling) and the event wiring (`setupEventListeners`, `init`, `showNewListForm`, `hideNewListForm`): DOM work with no state of its own.
- `loadDataFromStorage` and `saveDataToStorage`: localStorage I/O. The store invariant is assumed of the starting state rather than checked on stored data.
- `alert` calls become the `ListOutcome` result of `SaveNewList` or an unchanged state; the answer of `confirm` is a boolean parameter.
- Ids are compared as the script compares them: `find` matches by equality, while `if (!currentListId)` and `if (editingTaskId)` treat the empty string like `null` (`Model.IsSet`).
- `generateId`: it depends on the clock and on `Math.random`, so the fresh ids are parameters. `CreateDefaultLists` requires them to be distinct, and `SaveNewList` and `SaveTask` require them to be unused.
- `Date.now()` is a parameter of `SaveTask`. Due dates are times in milliseconds, and an empty date input is `None`; parsing the date string is left out.
- `formatDate`'s clock and date text comes from locale formatting, so a label keeps only its branch and the date.
- Days are whole multiples of 86,400,000 ms of local time; time zones and DST are left out. Without DST both dates are truncated to midnight before the subtraction, so the difference is a whole number of days and the `Math.ceil` at line 142 changes nothing. With DST the source differs from the model: after a spring-forward, yesterday's midnight is 23 hours back, `Math.ceil` gives -0, which equals 0, so yesterday is labelled "Today at" although `isToday` is false; before a fall-back, tomorrow's midnight is 25 hours ahead, `Math.ceil` gives 2, so tomorrow gets its full date instead of "Tomorrow at". `Dates.TodayLabelIffToday` holds in the DST-free model only.
- `localeCompare` is a parameter `titleCmp` that must be a consistent comparator; its collation order is left out.
- `Array.prototype.sort` is a stable sort (ECMAScript 2019 and later), modelled by insertion sort; any stable sort gives the same order.
- Text.ToLower: lower-cases ASCII and Latin-1 capitals only; the rest of the Unicode case mapping is left out.
- The edited task is updated in place through a shared object reference; the model replaces the list value at its position. With unique task ids the observable result is the same.
