/** The data-access functions of the first Python back end (TodoApp01/backend/app/crud.py),
    over an in-memory `todos` table. Request validation by the `TodoCreate` and `TodoUpdate`
    schemas (a title of 1 to 255 characters) is what callers guarantee. */
module CrudStore {
  import opened Wrappers
  import opened Seqs
  import opened TodoRows
  import StableSort

  /** The `filter_type` test of `get_todos`: `"active"`, `"completed"`, anything else keeps all. */
  function FilterTypeKeeps(filterType: string): Row -> bool {
    if filterType == "active" then IsOpen()
    else if filterType == "completed" then IsDone()
    else (r: Row) => true
  }

  /** `order_by(created_at.desc())` as a comparator: later rows first. */
  function NewestFirst(): (Row, Row) -> int {
    (a: Row, b: Row) => b.createdAt - a.createdAt
  }

  lemma NewestFirstConsistent()
    ensures StableSort.IsConsistent(NewestFirst())
  {
    forall a, b ensures StableSort.FlipsAt(NewestFirst(), a, b) {
    }
    forall a, b, c ensures StableSort.TransitiveAt(NewestFirst(), a, b, c) {
    }
  }

  /** `get_todos`: the rows the filter keeps, newest first. Rows created at the same moment keep
      their storage order. */
  function ListRows(rows: seq<Row>, filterType: string): seq<Row> {
    StableSort.Sort(Filter(rows, FilterTypeKeeps(filterType)), NewestFirst())
  }

  /** `get_todos` returns each kept row exactly once, only open rows for `"active"`, only
      completed ones for `"completed"`, the whole table otherwise, ordered by creation time
      descending. */
  lemma ListRowsSelection(rows: seq<Row>, filterType: string)
    ensures multiset(ListRows(rows, filterType)) == multiset(Filter(rows, FilterTypeKeeps(filterType)))
    ensures forall r :: r in ListRows(rows, filterType) <==>
      r in rows && (filterType == "active" ==> !r.completed) && (filterType == "completed" ==> r.completed)
    ensures filterType != "active" && filterType != "completed" ==> multiset(ListRows(rows, filterType)) == multiset(rows)
    ensures forall i, j :: 0 <= i < j < |ListRows(rows, filterType)| ==>
      ListRows(rows, filterType)[i].createdAt >= ListRows(rows, filterType)[j].createdAt
  {
    var keep := FilterTypeKeeps(filterType);
    var listed := ListRows(rows, filterType);
    StableSort.SortPermutes(Filter(rows, keep), NewestFirst());
    FilterMembers(rows, keep);
    assert forall r :: r in listed <==> r in Filter(rows, keep) by {
      assert forall r :: r in listed <==> r in multiset(listed);
    }
    if filterType != "active" && filterType != "completed" {
      FilterKeepsAll(rows, keep);
    }
    NewestFirstConsistent();
    StableSort.SortSorted(Filter(rows, keep), NewestFirst());
  }

  /** The table and the next primary key it will assign. */
  class TodoTable {
    var rows: seq<Row>
    var nextId: int

    /** Ids are unique and below `nextId`; every title satisfies the schema's length bounds. */
    ghost predicate Valid()
      reads this
    {
      UniqueIds(rows) && IdsBelow(rows, nextId) && TitlesFit(rows)
    }

    constructor()
      ensures Valid() && rows == [] && nextId == 1
    {
      rows := [];
      nextId := 1;
    }

    /** `get_todos`: each stored row the filter keeps, newest first. */
    function GetTodos(filterType: string): (r: seq<Row>)
      reads this
      ensures multiset(r) == multiset(Filter(rows, FilterTypeKeeps(filterType)))
      ensures forall i, j :: 0 <= i < j < |r| ==> r[i].createdAt >= r[j].createdAt
    {
      ListRowsSelection(rows, filterType);
      ListRows(rows, filterType)
    }

    /** `get_todo`: the row with that id, or none exactly when no row has it. */
    function GetTodo(id: int): (r: Option<Row>)
      reads this
      ensures r.None? <==> !HasId(rows, id)
      ensures r.Some? ==> r.value in rows && r.value.id == id
    {
      FindRow(rows, id)
    }

    /** `create_todo`: one new row, not completed, with the next id and the server time. */
    method CreateTodo(title: string, description: Option<string>, now: int) returns (created: Row)
      requires Valid() && 1 <= |title| <= 255
      modifies this
      ensures Valid()
      ensures created == Row(old(nextId), title, description, false, now)
      ensures !HasId(old(rows), created.id)
      ensures rows == old(rows) + [created] && nextId == old(nextId) + 1
    {
      created := Row(nextId, title, description, false, now);
      AppendFreshKeepsKeys(rows, created, nextId);
      rows := rows + [created];
      nextId := nextId + 1;
    }

    /** `update_todo`: none when the id is absent; otherwise the row with only the given
        fields assigned. */
    method UpdateTodo(id: int, u: RowUpdate) returns (updated: Option<Row>)
      requires Valid() && (u.title.SetTo? ==> 1 <= |u.title.value| <= 255)
      modifies this
      ensures Valid()
      ensures updated == match FindRow(old(rows), id)
                         case None => None
                         case Some(r) => Some(ApplyUpdate(r, u))
      ensures rows == UpdateRow(old(rows), id, u) && nextId == old(nextId)
    {
      var found := FindRow(rows, id);
      if found.None? {
        return None;
      }
      var row := ApplySetattrs(found.value, u);
      WithRowChangesOnlyThatId(rows, row);
      rows := WithRow(rows, row);
      updated := Some(row);
    }

    /** `toggle_todo`: none when the id is absent; otherwise the row with its status flipped. */
    method ToggleTodo(id: int) returns (toggled: Option<Row>)
      requires Valid()
      modifies this
      ensures Valid()
      ensures toggled == match FindRow(old(rows), id)
                         case None => None
                         case Some(r) => Some(r.(completed := !r.completed))
      ensures rows == ToggleRow(old(rows), id) && nextId == old(nextId)
    {
      var found := FindRow(rows, id);
      if found.None? {
        return None;
      }
      var row := found.value.(completed := !found.value.completed);
      WithRowChangesOnlyThatId(rows, row);
      rows := WithRow(rows, row);
      toggled := Some(row);
    }

    /** `delete_todo`: false with no change when the id is absent; otherwise true, and the
        row is gone. */
    method DeleteTodo(id: int) returns (deleted: bool)
      requires Valid()
      modifies this
      ensures Valid()
      ensures deleted == HasId(old(rows), id)
      ensures rows == if deleted then WithoutRow(old(rows), id) else old(rows)
      ensures !HasId(rows, id) && nextId == old(nextId)
    {
      var found := FindRow(rows, id);
      if found.None? {
        return false;
      }
      WithoutRowGone(rows, id);
      FilterKeepsKeys(rows, IdIsNot(id), nextId);
      FilterMembers(rows, IdIsNot(id));
      rows := WithoutRow(rows, id);
      deleted := true;
    }

    /** `delete_completed_todos`: the number of completed rows, all of them removed and every
        open row kept in order. */
    method DeleteCompletedTodos() returns (count: nat)
      requires Valid()
      modifies this
      ensures Valid()
      ensures count == |Filter(old(rows), IsDone())|
      ensures rows == Filter(old(rows), IsOpen()) && nextId == old(nextId)
    {
      var completed := Filter(rows, IsDone());
      count := |completed|;
      DeleteCompletedKeepsOpen(rows);
      FilterKeepsKeys(rows, IsOpen(), nextId);
      FilterMembers(rows, IsOpen());
      rows := DeleteEach(rows, completed);
    }

    /** `delete_all_todos`: the number of rows there were, and an empty table. */
    method DeleteAllTodos() returns (count: nat)
      requires Valid()
      modifies this
      ensures Valid()
      ensures count == |old(rows)| && rows == [] && nextId == old(nextId)
    {
      var all := rows;
      count := |all|;
      DeleteAllEmpties(all);
      rows := DeleteEach(rows, all);
    }
  }

  /** The schema's title bounds hold for every row. */
  predicate TitlesFit(rows: seq<Row>) {
    forall k :: 0 <= k < |rows| ==> 1 <= |rows[k].title| <= 255
  }
}
