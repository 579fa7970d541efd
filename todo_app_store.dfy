/** The stateful half of the in-browser to-do app (`TodoApp` in
    ToDoApp01-Frontend/js/app.js): the object whose fields the event handlers update.
    The functions first describe each change as a value; the class then applies them. */
module TodoAppStore {
  import opened Wrappers
  import opened Seqs
  import opened Text
  import opened TodoAppView

  /** `this.todos.find(t => t.id === id)`, as the index of the first task with that id. */
  function FindIndex(todos: seq<Todo>, id: string): (r: Option<nat>)
    ensures r.Some? ==> r.value < |todos| && todos[r.value].id == id
    ensures r.Some? ==> forall k :: 0 <= k < r.value ==> todos[k].id != id
    ensures r.None? <==> forall k :: 0 <= k < |todos| ==> todos[k].id != id
  {
    if |todos| == 0 then None
    else if todos[0].id == id then Some(0)
    else match FindIndex(todos[1..], id)
      case None => None
      case Some(i) => Some(i + 1)
  }

  /** Two lists whose ids agree position by position have their first match in the same place. */
  lemma {:induction false} FindIndexByIds(a: seq<Todo>, b: seq<Todo>, id: string)
    requires |a| == |b|
    requires forall k :: 0 <= k < |a| ==> a[k].id == b[k].id
    ensures FindIndex(a, id) == FindIndex(b, id)
  {
    if |a| > 0 && a[0].id != id {
      FindIndexByIds(a[1..], b[1..], id);
    }
  }

  /** `toggleTodo`: the first task with `id` has its status flipped; without one, nothing changes. */
  function Toggled(todos: seq<Todo>, id: string): seq<Todo> {
    match FindIndex(todos, id)
    case None => todos
    case Some(i) => todos[i := todos[i].(completed := !todos[i].completed)]
  }

  /** Toggling keeps the length and every id; it flips the status of the first task with that
      id, keeps its other fields, and leaves every other task as it was. */
  lemma ToggleChangesOnlyFirst(todos: seq<Todo>, id: string)
    ensures |Toggled(todos, id)| == |todos|
    ensures forall k :: 0 <= k < |todos| ==>
      Toggled(todos, id)[k] ==
        if FindIndex(todos, id) == Some(k) then todos[k].(completed := !todos[k].completed) else todos[k]
  {
  }

  /** Toggling an id no task has is a no-op. */
  lemma ToggleUnknownId(todos: seq<Todo>, id: string)
    requires forall t :: t in todos ==> t.id != id
    ensures Toggled(todos, id) == todos
  {
    assert forall k :: 0 <= k < |todos| ==> todos[k] in todos;
  }

  /** Toggling the same id twice restores the list. */
  lemma ToggleTwice(todos: seq<Todo>, id: string)
    ensures Toggled(Toggled(todos, id), id) == todos
  {
    ToggleChangesOnlyFirst(todos, id);
    FindIndexByIds(Toggled(todos, id), todos, id);
  }

  /** `todos.filter(todo => todo.id !== id)`. */
  function OtherIds(id: string): Todo -> bool {
    (t: Todo) => t.id != id
  }

  function WithoutId(todos: seq<Todo>, id: string): seq<Todo> {
    Filter(todos, OtherIds(id))
  }

  /** Deleting removes every task with that id, keeps every other one in its original relative
      order, and leaves the list as it was when no task has the id. */
  lemma DeleteRemovesExactlyThatId(todos: seq<Todo>, id: string)
    ensures IsSubsequence(WithoutId(todos, id), todos)
    ensures forall t :: t in WithoutId(todos, id) <==> t in todos && t.id != id
    ensures (forall t :: t in todos ==> t.id != id) ==> WithoutId(todos, id) == todos
  {
    FilterIsSubsequence(todos, OtherIds(id));
    FilterMembers(todos, OtherIds(id));
    if forall t :: t in todos ==> t.id != id {
      assert forall k :: 0 <= k < |todos| ==> todos[k] in todos;
      FilterKeepsAll(todos, OtherIds(id));
    }
  }

  /** Deleting twice is deleting once. */
  lemma DeleteIdempotent(todos: seq<Todo>, id: string)
    ensures WithoutId(WithoutId(todos, id), id) == WithoutId(todos, id)
  {
    FilterIdempotent(todos, OtherIds(id));
  }

  /** The three assignments of `saveEdit`, made to the first task with `id`. */
  function Edited(todos: seq<Todo>, id: string, text: string, priority: Priority, date: Option<int>): seq<Todo> {
    match FindIndex(todos, id)
    case None => todos
    case Some(i) => todos[i := todos[i].(text := text, priority := priority, date := date)]
  }

  /** An edit keeps the length, the ids and statuses of all tasks, and every task but the edited one. */
  lemma EditChangesOnlyFirst(todos: seq<Todo>, id: string, text: string, priority: Priority, date: Option<int>)
    ensures |Edited(todos, id, text, priority, date)| == |todos|
    ensures forall k :: 0 <= k < |todos| ==>
      var e := Edited(todos, id, text, priority, date)[k];
      e.id == todos[k].id && e.completed == todos[k].completed && e.createdAt == todos[k].createdAt &&
      (FindIndex(todos, id) == Some(k) ==> e.text == text && e.priority == priority && e.date == date) &&
      (FindIndex(todos, id) != Some(k) ==> e == todos[k])
  {
  }

  /** What `saveEdit` ended with. */
  datatype EditOutcome =
    | NotEditing   // `editingId` was null or empty: returned at once
    | NoSuchTask   // no task has `editingId`: nothing happened
    | EmptyText    // the trimmed text was empty: error shown, fields already overwritten
    | Saved        // fields overwritten and the modal closed

  /** The `TodoApp` object. The DOM, `localStorage`, the confirm dialog and the clock are not
      part of it: what a handler reads from them is a parameter of its method. */
  class TodoApp {
    var todos: seq<Todo>
    var currentFilter: ViewFilter
    var currentSort: SortMode
    var editingId: Option<string>

    /** The constructor and `loadTodos`: the saved list if there is one, otherwise empty. */
    constructor(saved: Option<seq<Todo>>)
      ensures todos == saved.GetOr([])
      ensures currentFilter == NoFilter && currentSort == ByDate && editingId == None
    {
      todos := saved.GetOr([]);
      currentFilter := NoFilter;
      currentSort := ByDate;
      editingId := None;
    }

    /** `addTodo`, given the raw input, the selected priority and date, and the id and creation
        time taken from the clock. */
    method AddTodo(input: string, priority: Priority, date: Option<int>, id: string, createdAt: string)
      returns (added: bool)
      modifies this
      ensures added <==> Trim(input) != ""
      ensures added ==> todos == [Todo(id, Trim(input), priority, date, false, createdAt)] + old(todos)
      ensures !added ==> todos == old(todos)
      ensures currentFilter == old(currentFilter) && currentSort == old(currentSort)
      ensures editingId == old(editingId)
    {
      var task := Trim(input);
      if task == "" {
        return false;
      }
      var newTodo := Todo(id, task, priority, date, false, createdAt);
      todos := [newTodo] + todos;
      added := true;
    }

    /** `deleteTodo`, given the answer to the confirm dialog. */
    method DeleteTodo(id: string, confirmed: bool)
      modifies this
      ensures todos == if confirmed then WithoutId(old(todos), id) else old(todos)
      ensures currentFilter == old(currentFilter) && currentSort == old(currentSort)
      ensures editingId == old(editingId)
    {
      if confirmed {
        todos := WithoutId(todos, id);
      }
    }

    /** `toggleTodo`. */
    method ToggleTodo(id: string)
      modifies this
      ensures todos == Toggled(old(todos), id)
      ensures currentFilter == old(currentFilter) && currentSort == old(currentSort)
      ensures editingId == old(editingId)
    {
      var found := FindIndex(todos, id);
      if found.Some? {
        var i := found.value;
        todos := todos[i := todos[i].(completed := !todos[i].completed)];
      }
    }

    /** `editTodo`: opens the edit dialog for a task that exists. */
    method EditTodo(id: string)
      modifies this
      ensures editingId == if FindIndex(old(todos), id).Some? then Some(id) else old(editingId)
      ensures todos == old(todos)
      ensures currentFilter == old(currentFilter) && currentSort == old(currentSort)
    {
      if FindIndex(todos, id).Some? {
        editingId := Some(id);
      }
    }

    /** `saveEdit`, given the three fields of the edit dialog. */
    method SaveEdit(text: string, priority: Priority, date: Option<int>) returns (outcome: EditOutcome)
      modifies this
      ensures outcome == NotEditing <==> old(editingId).None? || old(editingId).value == ""
      ensures outcome == NotEditing ==> todos == old(todos)
      ensures old(editingId).Some? && old(editingId).value != "" ==>
        todos == Edited(old(todos), old(editingId).value, Trim(text), priority, date)
      ensures outcome == NoSuchTask <==>
        old(editingId).Some? && old(editingId).value != "" && FindIndex(old(todos), old(editingId).value).None?
      ensures outcome == EmptyText <==>
        old(editingId).Some? && old(editingId).value != "" &&
        FindIndex(old(todos), old(editingId).value).Some? && Trim(text) == ""
      ensures editingId == if outcome == Saved then None else old(editingId)
      ensures currentFilter == old(currentFilter) && currentSort == old(currentSort)
    {
      if editingId.None? || editingId.value == "" {
        return NotEditing;
      }
      var id := editingId.value;
      var found := FindIndex(todos, id);
      if found.None? {
        return NoSuchTask;
      }
      var i := found.value;
      var newText := Trim(text);
      todos := todos[i := todos[i].(text := newText, priority := priority, date := date)];
      if newText == "" {
        return EmptyText;
      }
      CloseModal();
      outcome := Saved;
    }

    /** `closeModal`. */
    method CloseModal()
      modifies this
      ensures editingId == None
      ensures todos == old(todos) && currentFilter == old(currentFilter) && currentSort == old(currentSort)
    {
      editingId := None;
    }

    /** `setSort`. */
    method SetSort(mode: SortMode)
      modifies this
      ensures currentSort == mode
      ensures todos == old(todos) && currentFilter == old(currentFilter) && editingId == old(editingId)
    {
      currentSort := mode;
    }

    /** `clearFilters`. */
    method ClearFilters()
      modifies this
      ensures currentFilter == NoFilter
      ensures todos == old(todos) && currentSort == old(currentSort) && editingId == old(editingId)
    {
      currentFilter := NoFilter;
    }

    /** The search box handler: the typed value, lower-cased and not trimmed. */
    method SetSearch(input: string)
      modifies this
      ensures currentFilter == old(currentFilter).(search := ToLower(input))
      ensures todos == old(todos) && currentSort == old(currentSort) && editingId == old(editingId)
    {
      currentFilter := currentFilter.(search := ToLower(input));
    }

    /** The priority select handler; `None` is the empty option. */
    method SetPriorityFilter(p: Option<Priority>)
      modifies this
      ensures currentFilter == old(currentFilter).(priority := p)
      ensures todos == old(todos) && currentSort == old(currentSort) && editingId == old(editingId)
    {
      currentFilter := currentFilter.(priority := p);
    }

    /** The status select handler. */
    method SetStatusFilter(s: StatusFilter)
      modifies this
      ensures currentFilter == old(currentFilter).(status := s)
      ensures todos == old(todos) && currentSort == old(currentSort) && editingId == old(editingId)
    {
      currentFilter := currentFilter.(status := s);
    }

    /** The date input handler; `None` is the cleared input. */
    method SetDateFilter(d: Option<int>)
      modifies this
      ensures currentFilter == old(currentFilter).(date := d)
      ensures todos == old(todos) && currentSort == old(currentSort) && editingId == old(editingId)
    {
      currentFilter := currentFilter.(date := d);
    }

    /** `render`'s list: the filtered copy, sorted. It changes no field, so the stored
        order of `todos` is never affected by sorting. */
    method Render() returns (shown: seq<Todo>)
      ensures multiset(shown) == multiset(GetFilteredTodos(todos, currentFilter))
      ensures forall t :: t in shown <==> t in todos && Matches(currentFilter, t)
      ensures currentSort == ByPriority ==>
        forall i, j :: 0 <= i < j < |shown| ==> Rank(shown[i].priority) >= Rank(shown[j].priority)
      ensures currentSort == ByDate ==>
        forall i, j :: 0 <= i < j < |shown| && shown[j].date.Some? ==>
          shown[i].date.Some? && shown[i].date.value <= shown[j].date.value
      ensures forall x :: Filter(shown, StableSort.TiesWith(Comparator(currentSort), x))
                       == Filter(GetFilteredTodos(todos, currentFilter), StableSort.TiesWith(Comparator(currentSort), x))
    {
      var filtered := GetFilteredTodos(todos, currentFilter);
      shown := SortTodos(filtered, currentSort);
      SortIsPermutation(filtered, currentSort);
      FilteredSelection(todos, currentFilter);
      assert forall t :: t in shown <==> t in filtered by {
        assert forall t :: t in shown <==> t in multiset(shown);
      }
      if currentSort == ByPriority {
        SortByPriorityOrder(filtered);
      } else {
        SortByDateOrder(filtered);
      }
      forall x {
        SortKeepsTieOrder(filtered, currentSort, x);
      }
    }

    /** `updateStats`: the counters over the whole list. */
    method Stats() returns (s: TodoAppView.Stats)
      ensures s.total == |todos| && s.active + s.completed == s.total
      ensures s.highPriority <= s.active
      ensures s == UpdateStats(todos)
    {
      s := UpdateStats(todos);
      StatsConsistent(todos);
    }
  }
}
