/** The due-date helpers `isOverdue`, `isToday`, `formatDate` and the
    due-date class chosen when a task is drawn. Times are local wall-clock
    milliseconds and "now" is a parameter. */
module Dates {
  import opened Model

  const MS_PER_DAY: int := 86_400_000

  /** The calendar day a local timestamp falls on (floor division). */
  function DayOf(t: int): int {
    t / MS_PER_DAY
  }

  /** A later time never falls on an earlier day. */
  lemma DayMonotone(a: int, b: int)
    requires a <= b
    ensures DayOf(a) <= DayOf(b)
  {
  }

  /** `isOverdue`: a due date that is set and strictly before now. */
  predicate IsOverdue(due: Option<int>, now: int) {
    due.Some? && due.value < now
  }

  /** `isToday`: a due date that is set and on the same calendar day as now. */
  predicate IsToday(due: Option<int>, now: int) {
    due.Some? && DayOf(due.value) == DayOf(now)
  }

  /** The label `formatDate` produces; the clock and date text inside each
      label is locale formatting of `at`, which this model keeps opaque. */
  datatype DueLabel =
    | NoLabel              // ''
    | TodayAt(at: int)     // 'Today at <time>'
    | TomorrowAt(at: int)  // 'Tomorrow at <time>'
    | OverdueOn(at: int)   // 'Overdue - <month day>'
    | OnDate(at: int)      // '<month day, year>'

  /** `formatDate`: the branch is chosen by the whole-day difference between
      the due day and today. */
  function FormatDate(due: Option<int>, now: int): DueLabel {
    match due
    case None => NoLabel
    case Some(d) =>
      var diffDays := DayOf(d) - DayOf(now);
      if diffDays == 0 then TodayAt(d)
      else if diffDays == 1 then TomorrowAt(d)
      else if diffDays < 0 then OverdueOn(d)
      else OnDate(d)
  }

  /** The label of a date is empty exactly when there is no date, and any
      label it does have carries that date. */
  lemma FormatDateCarriesDate(due: Option<int>, now: int)
    ensures FormatDate(due, now) == NoLabel <==> due.None?
    ensures due.Some? ==> FormatDate(due, now).at == due.value
  {
  }

  /** The label picks "Today" exactly on the days `isToday` accepts. */
  lemma TodayLabelIffToday(due: Option<int>, now: int)
    ensures FormatDate(due, now).TodayAt? <==> IsToday(due, now)
  {
  }

  /** A date labelled "Overdue" is overdue, and one labelled "Tomorrow" or
      with its full date is not. */
  lemma LabelAgreesWithOverdue(due: Option<int>, now: int)
    ensures FormatDate(due, now).OverdueOn? ==> IsOverdue(due, now)
    ensures FormatDate(due, now).TomorrowAt? || FormatDate(due, now).OnDate? ==> !IsOverdue(due, now)
  {
    if due.Some? {
      if due.value >= now {
        DayMonotone(now, due.value);
      } else {
        DayMonotone(due.value, now);
      }
    }
  }

  /** The class a task's due date gets when drawn (todo-script.js 548-555). */
  datatype DueClass = Plain | Overdue | Today

  /** Completed tasks and undated tasks get no class; otherwise overdue takes
      precedence over today. */
  function DueClassOf(t: Task, now: int): (c: DueClass)
    ensures c == Overdue <==> t.dueDate.Some? && !t.completed && IsOverdue(t.dueDate, now)
    ensures c == Today <==> t.dueDate.Some? && !t.completed && !IsOverdue(t.dueDate, now) && IsToday(t.dueDate, now)
  {
    if t.dueDate.Some? && !t.completed then
      if IsOverdue(t.dueDate, now) then Overdue
      else if IsToday(t.dueDate, now) then Today
      else Plain
    else Plain
  }

  /** The class and the label never contradict each other: an overdue task
      is labelled "Today" (earlier today) or "Overdue", and a task marked
      "today" is due later today and labelled "Today". */
  lemma DueClassAgreesWithLabel(t: Task, now: int)
    ensures DueClassOf(t, now) == Overdue ==>
      FormatDate(t.dueDate, now).TodayAt? || FormatDate(t.dueDate, now).OverdueOn?
    ensures DueClassOf(t, now) == Today ==>
      FormatDate(t.dueDate, now).TodayAt? && now <= t.dueDate.value
  {
    if DueClassOf(t, now) == Overdue {
      DayMonotone(t.dueDate.value, now);
    }
  }
}
