/**
 * The dashboard: the task list with its two filters and its sort, the task
 * operations (add, toggle, delete, priority cycle), the overdue test, and the
 * recent-proposals widget.
 *
 * Dates are day numbers: `parse` gives the day a date text denotes, or None
 * when `new Date(text)` is an invalid date (its time is NaN).
 */
module Dashboard {
  import opened Wrappers
  import opened Text
  import opened Collections
  import opened ListView
  import Proposals

  datatype Priority = High | Medium | Low

  /** priorityOrder: High sorts first. */
  function Rank(p: Priority): (r: int)
    ensures 1 <= r <= 3
  {
    match p
    case High => 1
    case Medium => 2
    case Low => 3
  }

  /** The task ids are numbers (`Date.now()` for a new task). */
  datatype Task = Task(id: int, text: string, completed: bool, priority: Priority, dueDate: Option<string>)

  const MsPerDay := 86400000

  // ---------------------------------------------------------------------------
  // The task order

  /** The time the sort gives a due date: Infinity without one, NaN when it does not parse. */
  datatype Time = Finite(ms: int) | Infinite | NotANumber

  /** `a.dueDate ? new Date(a.dueDate).getTime() : Infinity`; the empty text counts as no date. */
  function DueTime(t: Task, parse: string -> Option<int>): Time {
    if t.dueDate.None? || t.dueDate.value == "" then Infinite
    else match parse(t.dueDate.value)
      case None => NotANumber
      case Some(day) => Finite(day * MsPerDay)
  }

  /** `aDate !== bDate`: NaN differs from every time, itself included. */
  predicate TimesDiffer(a: Time, b: Time) {
    a != b || a.NotANumber?
  }

  /**
   * The sign of `aDate - bDate` as the sort reads it: a NaN difference counts as
   * equal, Infinity is after every finite time.
   */
  function TimeDifference(a: Time, b: Time): int {
    match (a, b)
    case (Finite(x), Finite(y)) => x - y
    case (Infinite, Finite(_)) => 1
    case (Finite(_), Infinite) => -1
    case _ => 0
  }

  /**
   * The comparator of filteredAndSortedTasks: incomplete before completed; two
   * incomplete tasks with different due times by time; otherwise by priority.
   */
  function TaskOrder(parse: string -> Option<int>): (Task, Task) -> int {
    (a: Task, b: Task) =>
      if a.completed != b.completed then (if a.completed then 1 else -1)
      else if !a.completed && TimesDiffer(DueTime(a, parse), DueTime(b, parse))
      then TimeDifference(DueTime(a, parse), DueTime(b, parse))
      else Rank(a.priority) - Rank(b.priority)
  }

  /** A task the order can place: completed, or with a due time that is not NaN. */
  predicate Placeable(t: Task, parse: string -> Option<int>) {
    t.completed || !DueTime(t, parse).NotANumber?
  }

  /** "Not after" for the due times of two incomplete tasks: earlier dates first, undated last. */
  predicate TimeNotAfter(a: Time, b: Time) {
    match (a, b)
    case (Finite(x), Finite(y)) => x <= y
    case (_, Infinite) => true
    case _ => false
  }

  /** What one comparison that does not put a after b says about the two tasks. */
  lemma TaskOrderPair(a: Task, b: Task, parse: string -> Option<int>)
    requires Placeable(a, parse) && Placeable(b, parse)
    requires TaskOrder(parse)(a, b) <= 0
    ensures a.completed ==> b.completed
    ensures !a.completed && !b.completed ==> TimeNotAfter(DueTime(a, parse), DueTime(b, parse))
    ensures a.completed == b.completed && (a.completed || DueTime(a, parse) == DueTime(b, parse))
      ==> Rank(a.priority) <= Rank(b.priority)
  {
  }

  /** For any two tasks, even with unparsable due dates, a comparison is negative exactly when the reverse is positive. */
  lemma TaskOrderAntisymmetric(a: Task, b: Task, parse: string -> Option<int>)
    ensures TaskOrder(parse)(a, b) < 0 <==> TaskOrder(parse)(b, a) > 0
  {
  }

  lemma TaskOrderTransitive(a: Task, b: Task, c: Task, parse: string -> Option<int>)
    requires Placeable(a, parse) && Placeable(b, parse) && Placeable(c, parse)
    requires TaskOrder(parse)(a, b) <= 0 && TaskOrder(parse)(b, c) <= 0
    ensures TaskOrder(parse)(a, c) <= 0
  {
    TaskOrderPair(a, b, parse);
    TaskOrderPair(b, c, parse);
    var ta, tb, tc := DueTime(a, parse), DueTime(b, parse), DueTime(c, parse);
    if !a.completed && !c.completed {
      assert !b.completed;
      if ta != tc {
        assert TimeNotAfter(ta, tc);
      }
    }
  }

  /** On tasks the order can place, the task order is consistent. */
  lemma TaskOrderConsistent(s: seq<Task>, parse: string -> Option<int>)
    requires forall i | 0 <= i < |s| :: Placeable(s[i], parse)
    ensures ConsistentOn(TaskOrder(parse), s)
  {
    var o := TaskOrder(parse);
    forall a, b | a in s && b in s ensures o(a, b) < 0 <==> o(b, a) > 0 {
      TaskOrderAntisymmetric(a, b, parse);
    }
    forall a, b, c | a in s && b in s && c in s && o(a, b) <= 0 && o(b, c) <= 0 ensures o(a, c) <= 0 {
      TaskOrderTransitive(a, b, c, parse);
    }
  }

  // ---------------------------------------------------------------------------
  // The task list

  datatype CompletionFilter = AllTasks | IncompleteOnly | CompletedOnly

  predicate PassesCompletion(f: CompletionFilter, t: Task) {
    match f
    case AllTasks => true
    case IncompleteOnly => !t.completed
    case CompletedOnly => t.completed
  }

  predicate TaskSelected(t: Task, pf: StatusFilter<Priority>, cf: CompletionFilter) {
    Passes(pf, t.priority) && PassesCompletion(cf, t)
  }

  function TaskSelectedBy(pf: StatusFilter<Priority>, cf: CompletionFilter): Task -> bool {
    (t: Task) => TaskSelected(t, pf, cf)
  }

  /** filteredAndSortedTasks: the priority filter, the completion filter, then the sort. */
  function TaskView(tasks: seq<Task>, pf: StatusFilter<Priority>, cf: CompletionFilter, parse: string -> Option<int>): (r: seq<Task>)
    ensures multiset(r) == multiset(Filter(tasks, TaskSelectedBy(pf, cf)))
    ensures forall t | t in r :: Passes(pf, t.priority) && PassesCompletion(cf, t)
    ensures r == Sort(Filter(tasks, TaskSelectedBy(pf, cf)), TaskOrder(parse))
  {
    var byPriority := if pf.All? then tasks else Filter(tasks, (t: Task) => t.priority == pf.status);
    var byCompletion :=
      if cf == AllTasks then byPriority
      else Filter(byPriority, (t: Task) => if cf == CompletedOnly then t.completed else !t.completed);
    TaskFilters(tasks, pf, cf, byPriority, byCompletion);
    var r := Sort(byCompletion, TaskOrder(parse));
    FilteredMembers(r, tasks, TaskSelectedBy(pf, cf));
    r
  }

  lemma TaskFilters(tasks: seq<Task>, pf: StatusFilter<Priority>, cf: CompletionFilter, byPriority: seq<Task>, byCompletion: seq<Task>)
    requires byPriority == if pf.All? then tasks else Filter(tasks, (t: Task) => t.priority == pf.status)
    requires byCompletion ==
      if cf == AllTasks then byPriority
      else Filter(byPriority, (t: Task) => if cf == CompletedOnly then t.completed else !t.completed)
    ensures byCompletion == Filter(tasks, TaskSelectedBy(pf, cf))
  {
    var priorityTest := (t: Task) => Passes(pf, t.priority);
    var completionTest := (t: Task) => PassesCompletion(cf, t);
    if pf.All? {
      FilterKeepsAll(tasks, priorityTest);
    } else {
      FilterExt(tasks, (t: Task) => t.priority == pf.status, priorityTest);
    }
    if cf == AllTasks {
      FilterKeepsAll(byPriority, completionTest);
    } else {
      FilterExt(byPriority, (t: Task) => if cf == CompletedOnly then t.completed else !t.completed, completionTest);
    }
    FilterTwice(tasks, priorityTest, completionTest, TaskSelectedBy(pf, cf));
  }

  /**
   * When the order can place every task: incomplete tasks precede completed ones,
   * incomplete tasks follow their due dates with undated ones last, and the
   * remaining ties go High, Medium, Low.
   */
  lemma TaskViewOrdered(tasks: seq<Task>, pf: StatusFilter<Priority>, cf: CompletionFilter, parse: string -> Option<int>)
    requires forall i | 0 <= i < |tasks| :: Placeable(tasks[i], parse)
    ensures var r := TaskView(tasks, pf, cf, parse);
      forall i, j | 0 <= i < j < |r| ::
        && (r[i].completed ==> r[j].completed)
        && (!r[i].completed && !r[j].completed ==> TimeNotAfter(DueTime(r[i], parse), DueTime(r[j], parse)))
        && (r[i].completed == r[j].completed && (r[i].completed || DueTime(r[i], parse) == DueTime(r[j], parse))
            ==> Rank(r[i].priority) <= Rank(r[j].priority))
  {
    var selected := Filter(tasks, TaskSelectedBy(pf, cf));
    forall i | 0 <= i < |selected| ensures Placeable(selected[i], parse) {
      assert selected[i] in tasks;
    }
    TaskOrderConsistent(selected, parse);
    SortSorted(selected, TaskOrder(parse));
    var r := TaskView(tasks, pf, cf, parse);
    PlaceableSorted(r, selected, parse);
  }

  lemma PlaceableSorted(r: seq<Task>, selected: seq<Task>, parse: string -> Option<int>)
    requires multiset(r) == multiset(selected)
    requires forall i | 0 <= i < |selected| :: Placeable(selected[i], parse)
    requires SortedBy(r, TaskOrder(parse))
    ensures forall i, j | 0 <= i < j < |r| ::
        && (r[i].completed ==> r[j].completed)
        && (!r[i].completed && !r[j].completed ==> TimeNotAfter(DueTime(r[i], parse), DueTime(r[j], parse)))
        && (r[i].completed == r[j].completed && (r[i].completed || DueTime(r[i], parse) == DueTime(r[j], parse))
            ==> Rank(r[i].priority) <= Rank(r[j].priority))
  {
    forall i | 0 <= i < |r| ensures Placeable(r[i], parse) {
      assert r[i] in multiset(selected);
      assert r[i] in selected;
    }
    forall i, j | 0 <= i < j < |r| ensures r[i].completed ==> r[j].completed {
      TaskOrderPair(r[i], r[j], parse);
    }
    forall i, j | 0 <= i < j < |r| && !r[i].completed && !r[j].completed
      ensures TimeNotAfter(DueTime(r[i], parse), DueTime(r[j], parse))
    {
      TaskOrderPair(r[i], r[j], parse);
    }
    forall i, j | 0 <= i < j < |r| && r[i].completed == r[j].completed && (r[i].completed || DueTime(r[i], parse) == DueTime(r[j], parse))
      ensures Rank(r[i].priority) <= Rank(r[j].priority)
    {
      TaskOrderPair(r[i], r[j], parse);
    }
  }

  // ---------------------------------------------------------------------------
  // Task operations

  /**
   * handleAddTask: whitespace-only text adds nothing; otherwise one incomplete task
   * of medium priority goes at the end, without a due date when the date input is empty.
   */
  function AddTask(tasks: seq<Task>, text: string, dueInput: string, now: int): (r: seq<Task>)
    ensures IsBlank(text) ==> r == tasks
    ensures !IsBlank(text) ==> |r| == |tasks| + 1 && r[..|tasks|] == tasks
    ensures !IsBlank(text) ==> r[|tasks|] == Task(now, text, false, Medium, if dueInput == "" then None else Some(dueInput))
  {
    TrimEmptyIffBlank(text);
    if Trim(text) == "" then tasks
    else tasks + [Task(now, text, false, Medium, if dueInput == "" then None else Some(dueInput))]
  }

  /** A task added without a due date sorts as undated. */
  lemma AddedTaskUndated(tasks: seq<Task>, text: string, now: int, parse: string -> Option<int>)
    requires !IsBlank(text)
    ensures DueTime(AddTask(tasks, text, "", now)[|tasks|], parse) == Infinite
    ensures Placeable(AddTask(tasks, text, "", now)[|tasks|], parse)
  {
  }

  /** handleToggleTask: the tasks with the id flip their completion; nothing else changes. */
  function Toggle(tasks: seq<Task>, id: int): (r: seq<Task>)
    ensures |r| == |tasks|
    ensures forall i | 0 <= i < |tasks| :: tasks[i].id != id ==> r[i] == tasks[i]
    ensures forall i | 0 <= i < |tasks| :: tasks[i].id == id ==> r[i] == tasks[i].(completed := !tasks[i].completed)
  {
    UpdateWhere(tasks, (t: Task) => t.id == id, (t: Task) => t.(completed := !t.completed))
  }

  /** Toggling twice gives back the tasks. */
  lemma ToggleTwice(tasks: seq<Task>, id: int)
    ensures Toggle(Toggle(tasks, id), id) == tasks
  {
    var r := Toggle(Toggle(tasks, id), id);
    assert forall i | 0 <= i < |tasks| :: r[i] == tasks[i];
  }

  /** handleDeleteTask: the tasks without the id, in their order. */
  function Delete(tasks: seq<Task>, id: int): (r: seq<Task>)
    ensures forall t | t in r :: t.id != id
    ensures forall t | t in tasks && t.id != id :: t in r
    ensures forall t: Task | t.id != id :: multiset(r)[t] == multiset(tasks)[t]
  {
    Filter(tasks, (t: Task) => t.id != id)
  }

  /** Deleting keeps the relative order of the rest: it distributes over concatenation. */
  lemma DeleteKeepsOrder(a: seq<Task>, b: seq<Task>, id: int)
    ensures Delete(a + b, id) == Delete(a, id) + Delete(b, id)
  {
    FilterConcat(a, b, (t: Task) => t.id != id);
  }

  /** Deleting an id no task has changes nothing, and deleting twice is deleting once. */
  lemma DeleteAbsentAndTwice(tasks: seq<Task>, id: int)
    ensures (forall i | 0 <= i < |tasks| :: tasks[i].id != id) ==> Delete(tasks, id) == tasks
    ensures Delete(Delete(tasks, id), id) == Delete(tasks, id)
  {
    var keep := (t: Task) => t.id != id;
    if forall i | 0 <= i < |tasks| :: tasks[i].id != id {
      FilterKeepsAll(tasks, keep);
    }
    var once := Delete(tasks, id);
    forall i | 0 <= i < |once| ensures keep(once[i]) {
      assert once[i] in once;
    }
    FilterKeepsAll(once, keep);
  }

  /** The priority cycle of handlePriorityChange. */
  function NextPriority(p: Priority): (q: Priority)
    ensures q != p
    ensures Rank(q) == if p == Low then 1 else Rank(p) + 1
  {
    match p
    case High => Medium
    case Medium => Low
    case Low => High
  }

  /** Three steps along the cycle come back to the start. */
  lemma PriorityCycle(p: Priority)
    ensures NextPriority(NextPriority(NextPriority(p))) == p
  {
  }

  /** handlePriorityChange: the tasks with the id move one step along the cycle; nothing else changes. */
  function CyclePriority(tasks: seq<Task>, id: int): (r: seq<Task>)
    ensures |r| == |tasks|
    ensures forall i | 0 <= i < |tasks| :: tasks[i].id != id ==> r[i] == tasks[i]
    ensures forall i | 0 <= i < |tasks| :: tasks[i].id == id ==> r[i] == tasks[i].(priority := NextPriority(tasks[i].priority))
  {
    UpdateWhere(tasks, (t: Task) => t.id == id, (t: Task) => t.(priority := NextPriority(t.priority)))
  }

  /** Three priority changes give back the tasks. */
  lemma CyclePriorityThrice(tasks: seq<Task>, id: int)
    ensures CyclePriority(CyclePriority(CyclePriority(tasks, id), id), id) == tasks
  {
    var r := CyclePriority(CyclePriority(CyclePriority(tasks, id), id), id);
    assert forall i | 0 <= i < |tasks| :: r[i] == tasks[i];
  }

  // ---------------------------------------------------------------------------
  // Overdue

  /**
   * isOverdue: not without a due date or when completed; otherwise the last
   * millisecond of the due day is before the first millisecond of today. An invalid
   * date compares false.
   */
  function IsOverdue(t: Task, today: int, parse: string -> Option<int>): (r: bool)
    ensures r <==> && t.dueDate.Some? && t.dueDate.value != "" && !t.completed
                   && parse(t.dueDate.value).Some? && parse(t.dueDate.value).value < today
  {
    if t.dueDate.None? || t.dueDate.value == "" || t.completed then false
    else match parse(t.dueDate.value)
      case None => false
      case Some(day) => day * MsPerDay + (MsPerDay - 1) < today * MsPerDay
  }

  /** A task is never overdue on its due day, and is overdue every day after it until completed. */
  lemma OverdueAfterDueDay(t: Task, day: int, parse: string -> Option<int>)
    requires t.dueDate.Some? && t.dueDate.value != "" && parse(t.dueDate.value) == Some(day)
    ensures !IsOverdue(t, day, parse)
    ensures forall later | later > day :: IsOverdue(t, later, parse) <==> !t.completed
  {
  }

  // ---------------------------------------------------------------------------
  // Recent proposals

  const RecentCount := 5

  /** `new Date(b.date).getTime() - new Date(a.date).getTime()`: newest first, a NaN difference as equal. */
  function RecentOrder(parse: string -> Option<int>): (Proposals.Proposal, Proposals.Proposal) -> int {
    (a: Proposals.Proposal, b: Proposals.Proposal) =>
      if parse(a.date).Some? && parse(b.date).Some? then parse(b.date).value - parse(a.date).value else 0
  }

  function Selection(filter: StatusFilter<Proposals.ProposalStatus>): Proposals.Proposal -> bool {
    (p: Proposals.Proposal) => Passes(filter, p.status)
  }

  /** filteredProposals: the status filter, newest first, the first five. */
  function RecentProposals(s: seq<Proposals.Proposal>, filter: StatusFilter<Proposals.ProposalStatus>, parse: string -> Option<int>): (r: seq<Proposals.Proposal>)
    ensures |r| == if |Filter(s, Selection(filter))| < RecentCount then |Filter(s, Selection(filter))| else RecentCount
    ensures multiset(r) <= multiset(Filter(s, Selection(filter)))
    ensures forall p | p in r :: Passes(filter, p.status)
    ensures r == Sort(Filter(s, Selection(filter)), RecentOrder(parse))[..|r|]
  {
    var filtered := if filter.All? then s else Filter(s, (p: Proposals.Proposal) => p.status == filter.status);
    RecentFilter(s, filter, filtered);
    var sorted := Sort(filtered, RecentOrder(parse));
    var r := if |sorted| < RecentCount then sorted else sorted[..RecentCount];
    PrefixMultiset(sorted, |r|);
    assert r == sorted[..|r|];
    FilteredMembers(sorted, s, Selection(filter));
    assert forall p | p in r :: p in sorted;
    r
  }

  lemma RecentFilter(s: seq<Proposals.Proposal>, filter: StatusFilter<Proposals.ProposalStatus>, filtered: seq<Proposals.Proposal>)
    requires filtered == if filter.All? then s else Filter(s, (p: Proposals.Proposal) => p.status == filter.status)
    ensures filtered == Filter(s, Selection(filter))
  {
    if filter.All? {
      FilterKeepsAll(s, Selection(filter));
    } else {
      FilterExt(s, (p: Proposals.Proposal) => p.status == filter.status, Selection(filter));
    }
  }

  lemma PrefixMultiset<T>(s: seq<T>, k: nat)
    requires k <= |s|
    ensures multiset(s[..k]) <= multiset(s)
  {
    assert s == s[..k] + s[k..];
  }

  lemma RecentOrderConsistent(s: seq<Proposals.Proposal>, parse: string -> Option<int>)
    requires forall i | 0 <= i < |s| :: parse(s[i].date).Some?
    ensures ConsistentOn(RecentOrder(parse), s)
  {
    var o := RecentOrder(parse);
    forall a, b, c | a in s && b in s && c in s && o(a, b) <= 0 && o(b, c) <= 0 ensures o(a, c) <= 0 {
      assert parse(a.date).Some? && parse(b.date).Some? && parse(c.date).Some?;
    }
    forall a, b | a in s && b in s ensures o(a, b) < 0 <==> o(b, a) > 0 {
      assert parse(a.date).Some? && parse(b.date).Some?;
    }
  }

  /** Every date parses and no date is newer than an earlier one's. */
  predicate NewestFirst(r: seq<Proposals.Proposal>, parse: string -> Option<int>) {
    forall i, j | 0 <= i < j < |r| :: parse(r[j].date).Some? && parse(r[i].date).Some? && parse(r[j].date).value <= parse(r[i].date).value
  }

  /** When every date parses, the widget shows its proposals newest first. */
  lemma RecentNewestFirst(s: seq<Proposals.Proposal>, filter: StatusFilter<Proposals.ProposalStatus>, parse: string -> Option<int>)
    requires forall i | 0 <= i < |s| :: parse(s[i].date).Some?
    ensures NewestFirst(RecentProposals(s, filter, parse), parse)
  {
    var filtered := Filter(s, Selection(filter));
    forall i | 0 <= i < |filtered| ensures parse(filtered[i].date).Some? {
      assert filtered[i] in s;
    }
    RecentOrderConsistent(filtered, parse);
    SortSorted(filtered, RecentOrder(parse));
    var sorted := Sort(filtered, RecentOrder(parse));
    var r := RecentProposals(s, filter, parse);
    DatesDescending(sorted, r, filtered, parse);
  }

  lemma DatesDescending(sorted: seq<Proposals.Proposal>, r: seq<Proposals.Proposal>, filtered: seq<Proposals.Proposal>, parse: string -> Option<int>)
    requires |r| <= |sorted| && r == sorted[..|r|]
    requires multiset(sorted) == multiset(filtered)
    requires forall i | 0 <= i < |filtered| :: parse(filtered[i].date).Some?
    requires SortedBy(sorted, RecentOrder(parse))
    ensures NewestFirst(r, parse)
  {
    forall i | 0 <= i < |sorted| ensures parse(sorted[i].date).Some? {
      assert sorted[i] in multiset(filtered);
      assert sorted[i] in filtered;
    }
    forall i, j | 0 <= i < j < |r| ensures parse(r[j].date).value <= parse(r[i].date).value {
      assert r[i] == sorted[i] && r[j] == sorted[j];
      assert RecentOrder(parse)(sorted[i], sorted[j]) <= 0;
    }
  }
}
