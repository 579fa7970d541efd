/** The client-side cache of the second app's front end
    (ToDoApp02-Frontend+Backend/frontend/src/hooks/useTodos.js): after each request succeeds
    the hook edits its copy of the list and its `{total, completed, pending}` counters by hand
    instead of fetching again. Each state updater is a transition on `State`; the question is
    whether the counters keep describing the list. */
module OptimisticTodos {
  import opened Wrappers
  import opened Seqs
  import opened TodoRows
  import TodosRouter

  datatype Stats = Stats(total: int, completed: int, pending: int)

  /** The hook's `todos`, `stats` and `filter`. */
  datatype State = State(todos: seq<Row>, stats: Stats, filter: string)

  /** The initial `useState` values: nothing loaded, counters at zero, filter `all`. */
  const Initial := State([], Stats(0, 0, 0), "all")

  /** The counters describe the cached list. */
  predicate CountersMatch(st: State) {
    && st.stats.total == |st.todos|
    && st.stats.completed == |Filter(st.todos, IsDone())|
    && st.stats.pending == |Filter(st.todos, IsOpen())|
  }

  /** The invariant: ids in the cache are unique (they come from a primary key) and the
      counters match. */
  predicate Valid(st: State) {
    UniqueIds(st.todos) && CountersMatch(st)
  }

  lemma InitialValid()
    ensures Valid(Initial)
  {
  }

  /** `fetchTodos`: list and counters taken from the server's reply. */
  function AfterFetch(st: State, reply: TodosRouter.Listing): (r: State)
    ensures r.filter == st.filter
    ensures CountersMatch(r) <==>
      && reply.total == |reply.todos|
      && reply.completedCount == |Filter(reply.todos, IsDone())|
      && reply.pendingCount == |Filter(reply.todos, IsOpen())|
  {
    st.(todos := reply.todos, stats := Stats(reply.total, reply.completedCount, reply.pendingCount))
  }

  /** The reply `getTodos(filter)` gets: the first page of 50 (the client's defaults). */
  function FirstPage(table: seq<Row>, filter: string): TodosRouter.Listing {
    TodosRouter.ListTodos(table, filter, 1, 50).listing
  }

  /** After fetching with the `all` filter (or any value the server does not filter on) from a
      table of at most 50 rows, the counters match the list. */
  lemma FetchAllIsValid(st: State, table: seq<Row>)
    requires UniqueIds(table) && |table| <= 50
    requires st.filter != "completed" && st.filter != "pending"
    ensures Valid(AfterFetch(st, FirstPage(table, st.filter)))
  {
    FilterKeepsAll(table, TodosRouter.StatusKeeps(st.filter));
    assert table[0..|table|] == table;
  }

  /** With the `pending` filter the list holds only open rows while `completed` counts the
      whole table, so a single completed row breaks the counters. */
  lemma FetchPendingBreaksCounters()
    ensures var st := State([], Stats(0, 0, 0), "pending");
      var table := [Row(1, "a", None, true, 0)];
      !CountersMatch(AfterFetch(st, FirstPage(table, st.filter)))
  {
  }

  /** With more than 50 rows `total` counts them all while the list holds the first page. */
  lemma FetchPastFirstPageBreaksCounters()
    ensures var st := State([], Stats(0, 0, 0), "all");
      var table := seq(51, i => Row(i, "a", None, false, 0));
      !CountersMatch(AfterFetch(st, FirstPage(table, st.filter)))
  {
    var table := seq(51, i => Row(i, "a", None, false, 0));
    FilterKeepsAll(table, TodosRouter.StatusKeeps("all"));
  }

  /** `addTodo`: the created row appended, `total` and `pending` up by one. */
  function AfterAdd(st: State, created: Row): (r: State)
    ensures |r.todos| == |st.todos| + 1 && r.todos[..|st.todos|] == st.todos && r.todos[|st.todos|] == created
    ensures r.stats == Stats(st.stats.total + 1, st.stats.completed, st.stats.pending + 1)
  {
    st.(todos := st.todos + [created],
        stats := st.stats.(total := st.stats.total + 1, pending := st.stats.pending + 1))
  }

  /** The server creates rows not completed with a fresh id, so adding keeps the invariant. */
  lemma AddKeepsValid(st: State, created: Row)
    requires Valid(st) && !created.completed && !HasId(st.todos, created.id)
    ensures Valid(AfterAdd(st, created))
  {
    FilterConcat(st.todos, [created], IsDone());
    FilterConcat(st.todos, [created], IsOpen());
  }

  /** The cache agrees with the server's table: every cached row is, unchanged, a row of the
      table. A cache that another client has made stale does not agree. */
  predicate CacheAgrees(cache: seq<Row>, table: seq<Row>) {
    forall k :: 0 <= k < |cache| ==> cache[k] in table
  }

  /** The row `TodoRouter.CreateTodo` returns is open and carries the table's next id, which no
      table row has; so a cache that agrees with the table stays valid when it is added. */
  lemma AddFromServerKeepsValid(st: State, table: seq<Row>, nextId: int,
                                title: string, description: Option<string>, now: int)
    requires Valid(st) && CacheAgrees(st.todos, table) && IdsBelow(table, nextId)
    ensures Valid(AfterAdd(st, Row(nextId, title, description, false, now)))
  {
    var created := Row(nextId, title, description, false, now);
    assert !HasId(st.todos, nextId) by {
      forall k | 0 <= k < |st.todos| ensures st.todos[k].id != nextId {
        var j :| 0 <= j < |table| && table[j] == st.todos[k];
      }
    }
    AddKeepsValid(st, created);
  }

  function ReplaceId(todos: seq<Row>, id: int, updated: Row): seq<Row> {
    seq(|todos|, k requires 0 <= k < |todos| => if todos[k].id == id then updated else todos[k])
  }

  /** `updateTodo`, given the requested status (absent when the request did not set one) and the
      row the server returned. */
  function AfterUpdate(st: State, id: int, requested: Option<bool>, updated: Row): (r: State)
    ensures |r.todos| == |st.todos|
    ensures forall k :: 0 <= k < |st.todos| ==> r.todos[k] == if st.todos[k].id == id then updated else st.todos[k]
    ensures r.stats.total == st.stats.total
    ensures r.stats.completed + r.stats.pending == st.stats.completed + st.stats.pending
    ensures requested.None? || !HasId(st.todos, id) ==> r.stats == st.stats
    ensures requested.Some? && HasId(st.todos, id) ==>
      var was := FindRow(st.todos, id).value.completed;
      r.stats.completed == st.stats.completed + (if !was && requested.value then 1 else 0)
                                              - (if was && !requested.value then 1 else 0)
  {
    var stats :=
      if requested.None? then st.stats
      else match FindRow(st.todos, id)
        case None => st.stats
        case Some(previous) =>
          if previous.completed && !requested.value then
            st.stats.(completed := st.stats.completed - 1, pending := st.stats.pending + 1)
          else if !previous.completed && requested.value then
            st.stats.(completed := st.stats.completed + 1, pending := st.stats.pending - 1)
          else st.stats;
    st.(todos := ReplaceId(st.todos, id, updated), stats := stats)
  }

  /** When the server returns the row with the same id and the status the request asked for
      (or the old one when none was asked for), updating keeps the invariant. */
  lemma UpdateKeepsValid(st: State, id: int, requested: Option<bool>, updated: Row)
    requires Valid(st) && updated.id == id
    requires HasId(st.todos, id) ==>
      updated.completed == requested.GetOr(FindRow(st.todos, id).value.completed)
    ensures Valid(AfterUpdate(st, id, requested, updated))
  {
    var after := AfterUpdate(st, id, requested, updated);
    if !HasId(st.todos, id) {
      assert after.todos == st.todos;
    } else {
      var k :| 0 <= k < |st.todos| && st.todos[k].id == id;
      FindRowAt(st.todos, k);
      assert after.todos == st.todos[k := updated];
      FilterUpdateCount(st.todos, k, updated, IsDone());
      FilterUpdateCount(st.todos, k, updated, IsOpen());
      assert UniqueIds(after.todos) by {
        assert forall j :: 0 <= j < |st.todos| ==> after.todos[j].id == st.todos[j].id;
      }
    }
  }

  /** The status the client's `updates` object asks for: `updates.completed`, or none when the
      field is left out. */
  function Requested(u: RowUpdate): Option<bool> {
    if u.completed.SetTo? then Some(u.completed.value) else None
  }

  /** The row `TodoRouter.UpdateTodo` returns for a stored id is `ApplyUpdate` of the table's
      row. When the cache agrees with the table, that reply meets what `UpdateKeepsValid` asks
      of it, so the update keeps the invariant. */
  lemma UpdateFromServerKeepsValid(st: State, table: seq<Row>, id: int, u: RowUpdate)
    requires Valid(st) && CacheAgrees(st.todos, table) && UniqueIds(table) && HasId(table, id)
    ensures Valid(AfterUpdate(st, id, Requested(u), ApplyUpdate(FindRow(table, id).value, u)))
  {
    var stored := FindRow(table, id).value;
    var updated := ApplyUpdate(stored, u);
    if HasId(st.todos, id) {
      var cached := FindRow(st.todos, id).value;
      var j :| 0 <= j < |table| && table[j] == cached;
      FindRowAt(table, j);
      assert cached == stored;
    }
    UpdateKeepsValid(st, id, Requested(u), updated);
  }

  /** A stale cache breaks the counters: the cache still holds a row open that the table has
      completed, and a title-only update brings back the completed row while the counters,
      with no status requested, stay as they were. */
  lemma StaleCacheBreaksCounters()
    ensures var st := State([Row(1, "a", None, false, 0)], Stats(1, 0, 1), "all");
      var table := [Row(1, "a", None, true, 0)];
      var u := RowUpdate(SetTo("b"), Unset, Unset);
      && Valid(st)
      && !CountersMatch(AfterUpdate(st, 1, Requested(u), ApplyUpdate(FindRow(table, 1).value, u)))
  {
    var st := State([Row(1, "a", None, false, 0)], Stats(1, 0, 1), "all");
    var after := AfterUpdate(st, 1, None, Row(1, "b", None, true, 0));
    assert after.todos == [Row(1, "b", None, true, 0)];
  }

  /** `deleteTodo`: every row with that id dropped; when the cache held it, `total` and the
      counter of its status down by one. */
  function AfterDelete(st: State, id: int): (r: State)
    ensures !HasId(st.todos, id) ==> r.stats == st.stats
    ensures HasId(st.todos, id) ==>
      var gone := FindRow(st.todos, id).value;
      && r.stats.total == st.stats.total - 1
      && r.stats.completed == st.stats.completed - (if gone.completed then 1 else 0)
      && r.stats.pending == st.stats.pending - (if gone.completed then 0 else 1)
  {
    var deleted := FindRow(st.todos, id);
    var todos := Filter(st.todos, IdIsNot(id));
    match deleted
    case None => st.(todos := todos)
    case Some(gone) =>
      st.(todos := todos,
          stats := Stats(st.stats.total - 1,
                         if gone.completed then st.stats.completed - 1 else st.stats.completed,
                         if !gone.completed then st.stats.pending - 1 else st.stats.pending))
  }

  lemma DeleteKeepsValid(st: State, id: int)
    requires Valid(st)
    ensures Valid(AfterDelete(st, id))
  {
    WithoutRowGone(st.todos, id);
    if !HasId(st.todos, id) {
      WithoutAbsentRow(st.todos, id);
    } else {
      var k :| 0 <= k < |st.todos| && st.todos[k].id == id;
      FindRowAt(st.todos, k);
      WithoutRowAt(st.todos, k);
      FilterRemoveAtCount(st.todos, k, IsDone());
      FilterRemoveAtCount(st.todos, k, IsOpen());
    }
  }

  /** `clearCompleted`: only open rows kept, `total` down by `completed`, `completed` at zero,
      `pending` unchanged. */
  function AfterClearCompleted(st: State): (r: State)
    ensures forall t :: t in r.todos <==> t in st.todos && !t.completed
    ensures r.stats == Stats(st.stats.total - st.stats.completed, 0, st.stats.pending)
  {
    FilterMembers(st.todos, IsOpen());
    st.(todos := Filter(st.todos, IsOpen()),
        stats := st.stats.(total := st.stats.total - st.stats.completed, completed := 0))
  }

  lemma ClearCompletedKeepsValid(st: State)
    requires Valid(st)
    ensures Valid(AfterClearCompleted(st))
  {
    var open := Filter(st.todos, IsOpen());
    FilterIsSubsequence(st.todos, IsOpen());
    SubsequenceKeepsUniqueIds(open, st.todos);
    FilterPartitionCount(st.todos, IsDone(), IsOpen());
    FilterIdempotent(st.todos, IsOpen());
    FilterMembers(st.todos, IsOpen());
    FilterKeepsNone(open, IsDone());
  }

  /** `clearAll`: an empty list and every counter at zero, whatever came before. */
  function AfterClearAll(st: State): (r: State)
    ensures Valid(r) && r.todos == [] && r.filter == st.filter
  {
    st.(todos := [], stats := Stats(0, 0, 0))
  }

  /** `changeFilter`. */
  function ChangeFilter(st: State, filter: string): (r: State)
    ensures r.filter == filter && r.todos == st.todos && r.stats == st.stats
    ensures Valid(st) ==> Valid(r)
  {
    st.(filter := filter)
  }

  /** `getFilteredTodos`: completed rows for `completed`, open rows for `pending`, the whole
      list for any other filter. */
  function Visible(st: State): seq<Row> {
    if st.filter == "completed" then Filter(st.todos, IsDone())
    else if st.filter == "pending" then Filter(st.todos, IsOpen())
    else st.todos
  }

  /** What is shown keeps the cached order and holds exactly the rows of the chosen status. */
  lemma VisibleSelection(st: State)
    ensures IsSubsequence(Visible(st), st.todos)
    ensures forall t :: t in Visible(st) <==>
      t in st.todos && (st.filter == "completed" ==> t.completed) && (st.filter == "pending" ==> !t.completed)
  {
    FilterIsSubsequence(st.todos, IsDone());
    FilterIsSubsequence(st.todos, IsOpen());
    FilterMembers(st.todos, IsDone());
    FilterMembers(st.todos, IsOpen());
    if st.filter != "completed" && st.filter != "pending" {
      SubsequenceOfItself(st.todos);
    }
  }

  lemma {:induction false} SubsequenceOfItself(s: seq<Row>)
    ensures IsSubsequence(s, s)
  {
    if s != [] {
      SubsequenceOfItself(s[1..]);
    }
  }
}
