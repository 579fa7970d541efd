/** The pure half of the in-browser to-do app (`TodoApp` in ToDoApp01-Frontend/js/app.js):
    the record kept per task, the four-criterion filter, the sort comparator, and the
    counters shown above the list. */
module TodoAppView {
  import opened Wrappers
  import opened Seqs
  import opened Text
  import StableSort

  /** The three options of the priority `<select>`. */
  datatype Priority = Low | Medium | High

  /** `{ high: 3, medium: 2, low: 1 }`. */
  function Rank(p: Priority): int {
    match p
    case High => 3
    case Medium => 2
    case Low => 1
  }

  /** One task. `date` is the due date as a day number, `None` for the empty date input;
      `id` and `createdAt` are the strings the app derives from the clock. */
  datatype Todo = Todo(
    id: string,
    text: string,
    priority: Priority,
    date: Option<int>,
    completed: bool,
    createdAt: string)

  /** The options of the status `<select>`: empty, `active`, `completed`. */
  datatype StatusFilter = AnyStatus | ActiveOnly | CompletedOnly

  /** `currentFilter`: an empty search, `None` priority or date, and `AnyStatus` each mean
      "no constraint". `search` is held already lower-cased. */
  datatype ViewFilter = ViewFilter(
    search: string,
    priority: Option<Priority>,
    status: StatusFilter,
    date: Option<int>)

  /** The filter the app starts with and `clearFilters` restores. */
  const NoFilter := ViewFilter("", None, AnyStatus, None)

  /** `currentSort`: `'date'` (the initial value) or `'priority'`. */
  datatype SortMode = ByDate | ByPriority

  // The four stages of getFilteredTodos, each as the test its `filter` callback applies.

  function TextHas(search: string): Todo -> bool {
    (t: Todo) => Contains(ToLower(t.text), search)
  }

  function PriorityIs(p: Priority): Todo -> bool {
    (t: Todo) => t.priority == p
  }

  function StatusIs(done: bool): Todo -> bool {
    (t: Todo) => t.completed == done
  }

  function DateIs(d: int): Todo -> bool {
    (t: Todo) => t.date == Some(d)
  }

  /** `getFilteredTodos`: search, then priority, then status, then date; a stage whose
      criterion is empty is skipped. */
  function GetFilteredTodos(todos: seq<Todo>, f: ViewFilter): seq<Todo> {
    var bySearch := if f.search != "" then Filter(todos, TextHas(f.search)) else todos;
    var byPriority := if f.priority.Some? then Filter(bySearch, PriorityIs(f.priority.value)) else bySearch;
    var byStatus :=
      match f.status
      case AnyStatus => byPriority
      case ActiveOnly => Filter(byPriority, StatusIs(false))
      case CompletedOnly => Filter(byPriority, StatusIs(true));
    if f.date.Some? then Filter(byStatus, DateIs(f.date.value)) else byStatus
  }

  /** The same selection stated as one test per task: all four criteria hold. */
  predicate Matches(f: ViewFilter, t: Todo) {
    && (f.search == "" || Contains(ToLower(t.text), f.search))
    && (f.priority.None? || t.priority == f.priority.value)
    && (match f.status
        case AnyStatus => true
        case ActiveOnly => !t.completed
        case CompletedOnly => t.completed)
    && (f.date.None? || t.date == f.date)
  }

  function MatchesFilter(f: ViewFilter): Todo -> bool {
    (t: Todo) => Matches(f, t)
  }

  /** The pipeline keeps exactly the tasks that meet every criterion, in their original order. */
  lemma FilteredIsOneFilter(todos: seq<Todo>, f: ViewFilter)
    ensures GetFilteredTodos(todos, f) == Filter(todos, MatchesFilter(f))
  {
    var p1: Todo -> bool := (t: Todo) => f.search == "" || Contains(ToLower(t.text), f.search);
    var p2: Todo -> bool := (t: Todo) => p1(t) && (f.priority.None? || t.priority == f.priority.value);
    var p3: Todo -> bool := (t: Todo) => p2(t) && (match f.status
                                           case AnyStatus => true
                                           case ActiveOnly => !t.completed
                                           case CompletedOnly => t.completed);
    var bySearch := if f.search != "" then Filter(todos, TextHas(f.search)) else todos;
    if f.search != "" {
      FilterAgree(todos, TextHas(f.search), p1);
    } else {
      FilterKeepsAll(todos, p1);
    }
    assert bySearch == Filter(todos, p1);
    var byPriority := if f.priority.Some? then Filter(bySearch, PriorityIs(f.priority.value)) else bySearch;
    if f.priority.Some? {
      FilterFilter(todos, p1, PriorityIs(f.priority.value), p2);
    } else {
      FilterAgree(todos, p1, p2);
    }
    assert byPriority == Filter(todos, p2);
    var byStatus :=
      match f.status
      case AnyStatus => byPriority
      case ActiveOnly => Filter(byPriority, StatusIs(false))
      case CompletedOnly => Filter(byPriority, StatusIs(true));
    match f.status {
      case AnyStatus => FilterAgree(todos, p2, p3);
      case ActiveOnly => FilterFilter(todos, p2, StatusIs(false), p3);
      case CompletedOnly => FilterFilter(todos, p2, StatusIs(true), p3);
    }
    assert byStatus == Filter(todos, p3);
    if f.date.Some? {
      FilterFilter(todos, p3, DateIs(f.date.value), MatchesFilter(f));
    } else {
      FilterAgree(todos, p3, MatchesFilter(f));
    }
  }

  /** What is shown is drawn from `todos` in order, and a task is shown iff it meets the filter. */
  lemma FilteredSelection(todos: seq<Todo>, f: ViewFilter)
    ensures IsSubsequence(GetFilteredTodos(todos, f), todos)
    ensures forall t :: t in GetFilteredTodos(todos, f) <==> t in todos && Matches(f, t)
  {
    FilteredIsOneFilter(todos, f);
    FilterIsSubsequence(todos, MatchesFilter(f));
    FilterMembers(todos, MatchesFilter(f));
  }

  /** With every criterion empty, nothing is filtered out. */
  lemma NoFilterKeepsAll(todos: seq<Todo>)
    ensures GetFilteredTodos(todos, NoFilter) == todos
  {
    FilteredIsOneFilter(todos, NoFilter);
    FilterKeepsAll(todos, MatchesFilter(NoFilter));
  }

  /** Filtering the filtered list again with the same criteria changes nothing. */
  lemma FilterTwiceIsOnce(todos: seq<Todo>, f: ViewFilter)
    ensures GetFilteredTodos(GetFilteredTodos(todos, f), f) == GetFilteredTodos(todos, f)
  {
    FilteredIsOneFilter(todos, f);
    FilteredIsOneFilter(GetFilteredTodos(todos, f), f);
    FilterIdempotent(todos, MatchesFilter(f));
  }

  /** The search term is not trimmed: a padded term misses a task whose text is the bare word. */
  lemma SearchIsNotTrimmed()
    ensures !Matches(NoFilter.(search := " milk "), Todo("1", "milk", Low, None, false, "t"))
  {
  }

  /** The search box lower-cases what is typed, and the test lower-cases the task's text, so
      typing a piece of a task's text, with its letters in either case, never hides that task. */
  lemma SearchFindsTypedText(t: Todo, piece: string, typed: string)
    requires Contains(t.text, piece) && ToLower(typed) == ToLower(piece)
    ensures Matches(NoFilter.(search := ToLower(typed)), t)
  {
    ContainsLowered(t.text, piece);
  }

  /** The comparator of `sortTodos`. In priority mode, higher rank first; in date mode,
      undated tasks after dated ones, dated ones by ascending day. */
  function Compare(mode: SortMode, a: Todo, b: Todo): int {
    match mode
    case ByPriority => Rank(b.priority) - Rank(a.priority)
    case ByDate =>
      if a.date.None? && b.date.None? then 0
      else if a.date.None? then 1
      else if b.date.None? then -1
      else a.date.value - b.date.value
  }

  function Comparator(mode: SortMode): (Todo, Todo) -> int {
    (a, b) => Compare(mode, a, b)
  }

  /** `sortTodos`: the stable sort of `Array.prototype.sort` with that comparator. */
  function SortTodos(todos: seq<Todo>, mode: SortMode): seq<Todo> {
    StableSort.Sort(todos, Comparator(mode))
  }

  /** Both comparators are consistent, so the sort is well defined. */
  lemma ComparatorConsistent(mode: SortMode)
    ensures StableSort.IsConsistent(Comparator(mode))
  {
    var cmp := Comparator(mode);
    forall a, b ensures StableSort.FlipsAt(cmp, a, b) {
    }
    forall a, b, c ensures StableSort.TransitiveAt(cmp, a, b, c) {
    }
  }

  /** The sorted list holds exactly the tasks it was given, each as often. */
  lemma SortIsPermutation(todos: seq<Todo>, mode: SortMode)
    ensures multiset(SortTodos(todos, mode)) == multiset(todos)
  {
    StableSort.SortPermutes(todos, Comparator(mode));
  }

  /** Priority mode: ranks never increase along the list. */
  lemma SortByPriorityOrder(todos: seq<Todo>)
    ensures forall i, j :: 0 <= i < j < |SortTodos(todos, ByPriority)| ==>
      Rank(SortTodos(todos, ByPriority)[i].priority) >= Rank(SortTodos(todos, ByPriority)[j].priority)
  {
    ComparatorConsistent(ByPriority);
    StableSort.SortSorted(todos, Comparator(ByPriority));
  }

  /** Date mode: every dated task comes before every undated one, and dates ascend. */
  lemma SortByDateOrder(todos: seq<Todo>)
    ensures forall i, j :: 0 <= i < j < |SortTodos(todos, ByDate)| && SortTodos(todos, ByDate)[j].date.Some? ==>
      SortTodos(todos, ByDate)[i].date.Some? &&
      SortTodos(todos, ByDate)[i].date.value <= SortTodos(todos, ByDate)[j].date.value
  {
    ComparatorConsistent(ByDate);
    StableSort.SortSorted(todos, Comparator(ByDate));
  }

  /** Ties keep their input order: the tasks that compare equal to any `x` (same rank, or
      same date, or both undated) appear in the output in the order they had in the input. */
  lemma SortKeepsTieOrder(todos: seq<Todo>, mode: SortMode, x: Todo)
    ensures Filter(SortTodos(todos, mode), StableSort.TiesWith(Comparator(mode), x))
         == Filter(todos, StableSort.TiesWith(Comparator(mode), x))
  {
    ComparatorConsistent(mode);
    StableSort.SortStable(todos, Comparator(mode), x);
  }

  /** The four counters of `updateStats`. */
  datatype Stats = Stats(total: nat, active: nat, completed: nat, highPriority: nat)

  function IsHighAndOpen(): Todo -> bool {
    (t: Todo) => t.priority == High && !t.completed
  }

  /** `updateStats`, computed over the whole list whatever the filter. */
  function UpdateStats(todos: seq<Todo>): Stats {
    Stats(|todos|, |Filter(todos, StatusIs(false))|, |Filter(todos, StatusIs(true))|,
          |Filter(todos, IsHighAndOpen())|)
  }

  /** Every task is active or completed and not both; high-priority counts only active ones. */
  lemma StatsConsistent(todos: seq<Todo>)
    ensures UpdateStats(todos).total == |todos|
    ensures UpdateStats(todos).active + UpdateStats(todos).completed == UpdateStats(todos).total
    ensures UpdateStats(todos).highPriority <= UpdateStats(todos).active
  {
    FilterPartitionCount(todos, StatusIs(false), StatusIs(true));
    FilterMonotone(todos, IsHighAndOpen(), StatusIs(false));
  }
}
