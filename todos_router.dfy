/** The handler bodies of the second Python back end
    (ToDoApp02-Frontend+Backend/backend/app/routers/todos.py) over an in-memory `todos`
    table: the paginated listing with its counts, and the single and bulk mutations with
    404 replies as result variants. */
module TodosRouter {
  import opened Wrappers
  import opened Seqs
  import opened TodoRows

  /** The `status` query parameter: `"completed"` and `"pending"` filter, anything else keeps all. */
  function StatusKeeps(status: string): Row -> bool {
    if status == "completed" then IsDone()
    else if status == "pending" then IsOpen()
    else (r: Row) => true
  }

  /** `TodoListResponse`. */
  datatype Listing = Listing(todos: seq<Row>, total: nat, completedCount: nat, pendingCount: nat)

  /** A query rejected by the `ge`/`le` bounds on `page` and `limit`, or a listing. */
  datatype ListReply = InvalidQuery | Listed(listing: Listing)

  function Min(a: int, b: int): int {
    if a <= b then a else b
  }

  function Max(a: int, b: int): int {
    if a >= b then a else b
  }

  /** `get_todos`: filter, count the filtered rows, cut out the page at `(page - 1) * limit`,
      and count completed and pending rows over the whole table. */
  function ListTodos(rows: seq<Row>, status: string, page: int, limit: int): (r: ListReply)
    ensures r.InvalidQuery? <==> page < 1 || limit < 1 || limit > 100
    ensures r.Listed? ==>
      var l := r.listing;
      && l.total == |Filter(rows, StatusKeeps(status))|
      && |l.todos| == Min(limit, Max(0, l.total - (page - 1) * limit))
      && l.completedCount == |Filter(rows, IsDone())|
      && l.pendingCount == |Filter(rows, IsOpen())|
      && l.completedCount + l.pendingCount == |rows|
  {
    if page < 1 || limit < 1 || limit > 100 then InvalidQuery
    else
      var matching := Filter(rows, StatusKeeps(status));
      var offset := (page - 1) * limit;
      var start := Min(offset, |matching|);
      var end := Min(offset + limit, |matching|);
      StatusCountsAddUp(rows);
      Listed(Listing(matching[start..end], |matching|, |Filter(rows, IsDone())|, |Filter(rows, IsOpen())|))
  }

  /** Every row the filter keeps is on exactly one page: the `j`-th matching row (counting from
      zero) is item `j % limit` of page `j / limit + 1`. */
  lemma EachRowOnItsPage(rows: seq<Row>, status: string, limit: int, j: nat)
    requires 1 <= limit <= 100 && j < |Filter(rows, StatusKeeps(status))|
    ensures var r := ListTodos(rows, status, j / limit + 1, limit);
      r.Listed? && j % limit < |r.listing.todos| &&
      r.listing.todos[j % limit] == Filter(rows, StatusKeeps(status))[j]
  {
    var page := j / limit + 1;
    assert (page - 1) * limit + j % limit == j;
  }

  /** The listing holds only rows of the table that the status keeps: completed ones for
      `"completed"`, open ones for `"pending"`. */
  lemma ListedRowsMatch(rows: seq<Row>, status: string, page: int, limit: int)
    requires ListTodos(rows, status, page, limit).Listed?
    ensures forall r :: r in ListTodos(rows, status, page, limit).listing.todos ==>
      r in rows && (status == "completed" ==> r.completed) && (status == "pending" ==> !r.completed)
  {
    var matching := Filter(rows, StatusKeeps(status));
    FilterMembers(rows, StatusKeeps(status));
    assert forall r :: r in ListTodos(rows, status, page, limit).listing.todos ==> r in matching;
  }

  /** The reply of a handler that looks a row up by id: 404 or a value. */
  datatype Reply<T> = NotFound | Ok(value: T)

  /** The `todos` table and the next primary key it will assign. */
  class TodoRouter {
    var rows: seq<Row>
    var nextId: int

    ghost predicate Valid()
      reads this
    {
      UniqueIds(rows) && IdsBelow(rows, nextId)
    }

    constructor()
      ensures Valid() && rows == [] && nextId == 1
    {
      rows := [];
      nextId := 1;
    }

    /** `get_todos`: a 422 reply for bounds out of range; otherwise stored rows the status
        keeps, with the counts over the whole table. */
    function GetTodos(status: string, page: int, limit: int): (r: ListReply)
      reads this
      ensures r.InvalidQuery? <==> page < 1 || limit < 1 || limit > 100
      ensures r.Listed? ==> forall x :: x in r.listing.todos ==>
        x in rows && (status == "completed" ==> x.completed) && (status == "pending" ==> !x.completed)
      ensures r.Listed? ==> r.listing.completedCount + r.listing.pendingCount == |rows|
    {
      if page < 1 || limit < 1 || limit > 100 then InvalidQuery
      else
        ListedRowsMatch(rows, status, page, limit);
        ListTodos(rows, status, page, limit)
    }

    /** `get_todo`: the row, or 404. */
    function GetTodo(id: int): (r: Reply<Row>)
      reads this
      ensures r.NotFound? <==> !HasId(rows, id)
      ensures r.Ok? ==> r.value in rows && r.value.id == id
    {
      match FindRow(rows, id)
      case None => NotFound
      case Some(row) => Ok(row)
    }

    /** `create_todo`: the request carries no status, the row is stored not completed. */
    method CreateTodo(title: string, description: Option<string>, now: int) returns (created: Row)
      requires Valid()
      modifies this
      ensures Valid()
      ensures created == Row(old(nextId), title, description, false, now)
      ensures !HasId(old(rows), created.id)
      ensures rows == old(rows) + [created] && nextId == old(nextId) + 1
    {
      created := Row(nextId, title, description, false, now);
      AppendFreshKeepsKeys(rows, created, nextId);
      rows := rows + [created];
      nextId := nextId + 1;
    }

    /** `update_todo`: 404 for an absent id; otherwise only the fields set in the request are
        assigned. */
    method UpdateTodo(id: int, u: RowUpdate) returns (reply: Reply<Row>)
      requires Valid()
      modifies this
      ensures Valid()
      ensures reply == match FindRow(old(rows), id)
                       case None => NotFound
                       case Some(r) => Ok(ApplyUpdate(r, u))
      ensures rows == UpdateRow(old(rows), id, u) && nextId == old(nextId)
    {
      var found := FindRow(rows, id);
      if found.None? {
        return NotFound;
      }
      var row := ApplySetattrs(found.value, u);
      WithRowChangesOnlyThatId(rows, row);
      rows := WithRow(rows, row);
      reply := Ok(row);
    }

    /** `delete_todo`: 404 with nothing removed for an absent id; otherwise the row is gone and
        the reply carries its id. */
    method DeleteTodo(id: int) returns (reply: Reply<int>)
      requires Valid()
      modifies this
      ensures Valid()
      ensures reply == if HasId(old(rows), id) then Ok(id) else NotFound
      ensures rows == if reply.Ok? then WithoutRow(old(rows), id) else old(rows)
      ensures !HasId(rows, id) && nextId == old(nextId)
    {
      var found := FindRow(rows, id);
      if found.None? {
        return NotFound;
      }
      WithoutRowGone(rows, id);
      FilterKeepsKeys(rows, IdIsNot(id), nextId);
      rows := WithoutRow(rows, id);
      reply := Ok(id);
    }

    /** `clear_completed_todos`: removes exactly the completed rows and reports how many. */
    method ClearCompletedTodos() returns (deletedCount: nat)
      requires Valid()
      modifies this
      ensures Valid()
      ensures deletedCount == |Filter(old(rows), IsDone())|
      ensures rows == Filter(old(rows), IsOpen()) && nextId == old(nextId)
    {
      var completed := Filter(rows, IsDone());
      deletedCount := |completed|;
      DeleteCompletedKeepsOpen(rows);
      FilterKeepsKeys(rows, IsOpen(), nextId);
      rows := DeleteEach(rows, completed);
    }

    /** `clear_all_todos`: reports the number of rows there were and empties the table. */
    method ClearAllTodos() returns (deletedCount: nat)
      requires Valid()
      modifies this
      ensures Valid()
      ensures deletedCount == |old(rows)| && rows == [] && nextId == old(nextId)
    {
      var all := rows;
      deletedCount := |all|;
      DeleteAllEmpties(all);
      rows := DeleteEach(rows, all);
    }
  }
}
