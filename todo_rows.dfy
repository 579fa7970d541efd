/** The `todos` table row shared by the two Python back ends (TodoApp01/backend and
    ToDoApp02-Frontend+Backend/backend), the partial update both apply with a `setattr`
    loop, and the row-by-row bulk delete both perform. A table is a sequence of rows in
    storage order. */
module TodoRows {
  import opened Wrappers
  import opened Seqs

  /** One row. `createdAt` is the server timestamp as a number; `updated_at` is not modelled. */
  datatype Row = Row(id: int, title: string, description: Option<string>, completed: bool, createdAt: int)

  /** A field of an update request: left out of the request, or given a value. */
  datatype Patch<T> = Unset | SetTo(value: T)

  /** `TodoUpdate`: each field may be absent. */
  datatype RowUpdate = RowUpdate(title: Patch<string>, description: Patch<Option<string>>, completed: Patch<bool>)

  /** The value a field ends up with: the given one, or the old one when the field was left out. */
  function Patched<T>(p: Patch<T>, current: T): T {
    match p
    case Unset => current
    case SetTo(v) => v
  }

  /** Reference meaning of a partial update, field by field. */
  function ApplyUpdate(r: Row, u: RowUpdate): Row {
    r.(title := Patched(u.title, r.title),
       description := Patched(u.description, r.description),
       completed := Patched(u.completed, r.completed))
  }

  /** An update keeps the id and the timestamp, takes each field that was given, and keeps each
      field that was left out; the update with nothing set changes nothing; applying it twice is
      applying it once. */
  lemma ApplyUpdateFields(r: Row, u: RowUpdate)
    ensures ApplyUpdate(r, u).id == r.id && ApplyUpdate(r, u).createdAt == r.createdAt
    ensures ApplyUpdate(r, u).title == if u.title.SetTo? then u.title.value else r.title
    ensures ApplyUpdate(r, u).description == if u.description.SetTo? then u.description.value else r.description
    ensures ApplyUpdate(r, u).completed == if u.completed.SetTo? then u.completed.value else r.completed
    ensures ApplyUpdate(r, RowUpdate(Unset, Unset, Unset)) == r
    ensures ApplyUpdate(ApplyUpdate(r, u), u) == ApplyUpdate(r, u)
  {
  }

  /** One `setattr(todo, field, value)`. */
  datatype Assignment = SetTitle(title: string) | SetDescription(description: Option<string>) | SetCompleted(completed: bool)

  function Assign(r: Row, a: Assignment): Row {
    match a
    case SetTitle(t) => r.(title := t)
    case SetDescription(d) => r.(description := d)
    case SetCompleted(c) => r.(completed := c)
  }

  /** `dict(exclude_unset=True)`: the fields present in the request, in declaration order. */
  function SetFields(u: RowUpdate): (fields: seq<Assignment>)
    ensures |fields| <= 3
    ensures u.title.SetTo? ==> SetTitle(u.title.value) in fields
    ensures u.description.SetTo? ==> SetDescription(u.description.value) in fields
    ensures u.completed.SetTo? ==> SetCompleted(u.completed.value) in fields
    ensures forall a :: a in fields ==>
      (a.SetTitle? ==> u.title.SetTo?) && (a.SetDescription? ==> u.description.SetTo?) &&
      (a.SetCompleted? ==> u.completed.SetTo?)
  {
    (if u.title.SetTo? then [SetTitle(u.title.value)] else []) +
    (if u.description.SetTo? then [SetDescription(u.description.value)] else []) +
    (if u.completed.SetTo? then [SetCompleted(u.completed.value)] else [])
  }

  /** The effect of the assignments made in order. */
  function AssignAll(r: Row, fields: seq<Assignment>): Row
    decreases |fields|
  {
    if fields == [] then r else Assign(AssignAll(r, fields[..|fields| - 1]), fields[|fields| - 1])
  }

  /** The `for field, value in update_data.items(): setattr(...)` loop: its result is the
      field-by-field meaning of the update. */
  method ApplySetattrs(r: Row, u: RowUpdate) returns (out: Row)
    ensures out == ApplyUpdate(r, u)
  {
    var fields := SetFields(u);
    out := r;
    var i := 0;
    while i < |fields|
      invariant 0 <= i <= |fields|
      invariant out == AssignAll(r, fields[..i])
    {
      assert fields[..i + 1][..i] == fields[..i];
      out := Assign(out, fields[i]);
      i := i + 1;
    }
    assert fields[..|fields|] == fields;
    SetattrsMeanUpdate(r, u);
  }

  lemma SetattrsMeanUpdate(r: Row, u: RowUpdate)
    ensures AssignAll(r, SetFields(u)) == ApplyUpdate(r, u)
  {
    var t := if u.title.SetTo? then [SetTitle(u.title.value)] else [];
    var d := if u.description.SetTo? then [SetDescription(u.description.value)] else [];
    var c := if u.completed.SetTo? then [SetCompleted(u.completed.value)] else [];
    assert SetFields(u) == t + d + c;
    AssignAllConcat(r, t + d, c);
    AssignAllConcat(r, t, d);
  }

  lemma {:induction false} AssignAllConcat(r: Row, a: seq<Assignment>, b: seq<Assignment>)
    ensures AssignAll(r, a + b) == AssignAll(AssignAll(r, a), b)
    decreases |b|
  {
    if b == [] {
      assert a + b == a;
    } else {
      assert (a + b)[..|a + b| - 1] == a + b[..|b| - 1];
      AssignAllConcat(r, a, b[..|b| - 1]);
    }
  }

  /** No two rows share an id (the primary key). */
  predicate UniqueIds(rows: seq<Row>) {
    forall i, j :: 0 <= i < j < |rows| ==> rows[i].id != rows[j].id
  }

  predicate HasId(rows: seq<Row>, id: int) {
    exists k :: 0 <= k < |rows| && rows[k].id == id
  }

  /** `query.filter(Todo.id == id).first()`. */
  function FindRow(rows: seq<Row>, id: int): (r: Option<Row>)
    ensures r.Some? ==> r.value in rows && r.value.id == id
    ensures r.None? <==> !HasId(rows, id)
  {
    if |rows| == 0 then None
    else if rows[0].id == id then Some(rows[0])
    else
      var rest := FindRow(rows[1..], id);
      assert HasId(rows[1..], id) ==> HasId(rows, id) by {
        if HasId(rows[1..], id) {
          var k :| 0 <= k < |rows[1..]| && rows[1..][k].id == id;
          assert rows[k + 1].id == id;
        }
      }
      assert HasId(rows, id) ==> HasId(rows[1..], id) by {
        if HasId(rows, id) {
          var k :| 0 <= k < |rows| && rows[k].id == id;
          assert rows[1..][k - 1].id == id;
        }
      }
      rest
  }

  /** With unique ids, the row found is the one at the position holding that id. */
  lemma FindRowAt(rows: seq<Row>, k: nat)
    requires UniqueIds(rows) && k < |rows|
    ensures FindRow(rows, rows[k].id) == Some(rows[k])
  {
    var r := FindRow(rows, rows[k].id);
    var j :| 0 <= j < |rows| && rows[j] == r.value;
  }

  /** The table after the row carrying `row.id` is written back with new contents. */
  function WithRow(rows: seq<Row>, row: Row): seq<Row> {
    seq(|rows|, k requires 0 <= k < |rows| => if rows[k].id == row.id then row else rows[k])
  }

  /** Writing back one row changes only the row with that id: same length, same ids. */
  lemma WithRowChangesOnlyThatId(rows: seq<Row>, row: Row)
    ensures |WithRow(rows, row)| == |rows|
    ensures forall k :: 0 <= k < |rows| ==> WithRow(rows, row)[k].id == rows[k].id
    ensures forall k :: 0 <= k < |rows| && rows[k].id != row.id ==> WithRow(rows, row)[k] == rows[k]
    ensures UniqueIds(rows) ==> UniqueIds(WithRow(rows, row))
    ensures HasId(rows, row.id) ==> row in WithRow(rows, row)
  {
    if HasId(rows, row.id) {
      var k :| 0 <= k < |rows| && rows[k].id == row.id;
      assert WithRow(rows, row)[k] == row;
    }
  }

  /** With unique ids, writing back a row is replacing the element at its position. */
  lemma WithRowIsUpdateAt(rows: seq<Row>, k: nat, row: Row)
    requires UniqueIds(rows) && k < |rows| && rows[k].id == row.id
    ensures WithRow(rows, row) == rows[k := row]
  {
  }

  /** `update_todo` on the table: the first row with that id, updated; no change without one. */
  function UpdateRow(rows: seq<Row>, id: int, u: RowUpdate): seq<Row> {
    match FindRow(rows, id)
    case None => rows
    case Some(r) => WithRow(rows, ApplyUpdate(r, u))
  }

  /** `toggle_todo` on the table. */
  function ToggleRow(rows: seq<Row>, id: int): seq<Row> {
    match FindRow(rows, id)
    case None => rows
    case Some(r) => WithRow(rows, r.(completed := !r.completed))
  }

  /** Toggling flips the status of the row with that id only and keeps everything else. */
  lemma ToggleRowEffect(rows: seq<Row>, id: int)
    requires UniqueIds(rows)
    ensures |ToggleRow(rows, id)| == |rows| && UniqueIds(ToggleRow(rows, id))
    ensures forall k :: 0 <= k < |rows| ==>
      ToggleRow(rows, id)[k] == if rows[k].id == id then rows[k].(completed := !rows[k].completed) else rows[k]
  {
    match FindRow(rows, id)
    case None =>
    case Some(r) =>
      WithRowChangesOnlyThatId(rows, r.(completed := !r.completed));
      forall k | 0 <= k < |rows| && rows[k].id == id
        ensures ToggleRow(rows, id)[k] == rows[k].(completed := !rows[k].completed)
      {
        FindRowAt(rows, k);
      }
  }

  /** Toggling twice restores the table. */
  lemma ToggleRowTwice(rows: seq<Row>, id: int)
    requires UniqueIds(rows)
    ensures ToggleRow(ToggleRow(rows, id), id) == rows
  {
    ToggleRowEffect(rows, id);
    ToggleRowEffect(ToggleRow(rows, id), id);
  }

  /** Updating changes only the row with that id, as the update says, and keeps ids unique. */
  lemma UpdateRowEffect(rows: seq<Row>, id: int, u: RowUpdate)
    requires UniqueIds(rows)
    ensures |UpdateRow(rows, id, u)| == |rows| && UniqueIds(UpdateRow(rows, id, u))
    ensures forall k :: 0 <= k < |rows| ==>
      UpdateRow(rows, id, u)[k] == if rows[k].id == id then ApplyUpdate(rows[k], u) else rows[k]
  {
    match FindRow(rows, id)
    case None =>
    case Some(r) =>
      WithRowChangesOnlyThatId(rows, ApplyUpdate(r, u));
      forall k | 0 <= k < |rows| && rows[k].id == id
        ensures UpdateRow(rows, id, u)[k] == ApplyUpdate(rows[k], u)
      {
        FindRowAt(rows, k);
      }
  }

  function IsDone(): Row -> bool {
    (r: Row) => r.completed
  }

  function IsOpen(): Row -> bool {
    (r: Row) => !r.completed
  }

  function IdIsNot(id: int): Row -> bool {
    (r: Row) => r.id != id
  }

  /** `db.delete(todo)` for the row with that id. */
  function WithoutRow(rows: seq<Row>, id: int): seq<Row> {
    Filter(rows, IdIsNot(id))
  }

  /** Deleting an absent id changes nothing. */
  lemma WithoutAbsentRow(rows: seq<Row>, id: int)
    requires !HasId(rows, id)
    ensures WithoutRow(rows, id) == rows
  {
    FilterKeepsAll(rows, IdIsNot(id));
  }

  /** With unique ids, deleting an id that is present removes that one row and keeps every
      other row in order. */
  lemma WithoutRowAt(rows: seq<Row>, k: nat)
    requires UniqueIds(rows) && k < |rows|
    ensures WithoutRow(rows, rows[k].id) == rows[..k] + rows[k + 1..]
  {
    var id := rows[k].id;
    var before, after := rows[..k], rows[k + 1..];
    assert Filter(before, IdIsNot(id)) == before by {
      NoIdKeepsAll(rows, 0, k, id);
      assert rows[0..k] == before;
    }
    assert Filter([rows[k]] + after, IdIsNot(id)) == after by {
      NoIdKeepsAll(rows, k + 1, |rows|, id);
      assert rows[k + 1..|rows|] == after;
      FilterConcat([rows[k]], after, IdIsNot(id));
      assert Filter([rows[k]], IdIsNot(id)) == [];
    }
    assert Filter(rows, IdIsNot(id)) == Filter(before, IdIsNot(id)) + Filter([rows[k]] + after, IdIsNot(id)) by {
      assert rows == before + ([rows[k]] + after);
      FilterConcat(before, [rows[k]] + after, IdIsNot(id));
    }
  }

  /** A slice of a table with unique ids that stays clear of the row holding `id` loses
      nothing when that id is deleted. */
  lemma NoIdKeepsAll(rows: seq<Row>, lo: nat, hi: nat, id: int)
    requires UniqueIds(rows) && lo <= hi <= |rows|
    requires forall k :: 0 <= k < |rows| && rows[k].id == id ==> k < lo || hi <= k
    ensures Filter(rows[lo..hi], IdIsNot(id)) == rows[lo..hi]
  {
    forall i | 0 <= i < hi - lo ensures IdIsNot(id)(rows[lo..hi][i]) {
      assert rows[lo..hi][i] == rows[lo + i];
    }
    FilterKeepsAll(rows[lo..hi], IdIsNot(id));
  }

  /** After a delete no row has that id, and ids stay unique. */
  lemma WithoutRowGone(rows: seq<Row>, id: int)
    requires UniqueIds(rows)
    ensures !HasId(WithoutRow(rows, id), id) && UniqueIds(WithoutRow(rows, id))
  {
    var w := WithoutRow(rows, id);
    FilterMembers(rows, IdIsNot(id));
    FilterIsSubsequence(rows, IdIsNot(id));
    forall k | 0 <= k < |w| ensures w[k].id != id {
      assert IdIsNot(id)(w[k]);
    }
    SubsequenceKeepsUniqueIds(w, rows);
  }

  lemma {:induction false} SubsequenceKeepsUniqueIds(a: seq<Row>, b: seq<Row>)
    requires IsSubsequence(a, b) && UniqueIds(b)
    ensures UniqueIds(a)
    decreases |b|
  {
    if a != [] && b != [] {
      if a[0] == b[0] && IsSubsequence(a[1..], b[1..]) {
        SubsequenceKeepsUniqueIds(a[1..], b[1..]);
        assert forall j :: 0 < j < |a| ==> a[j] in b[1..] by {
          SubsequenceMembers(a[1..], b[1..]);
        }
      } else {
        SubsequenceKeepsUniqueIds(a, b[1..]);
      }
    }
  }

  lemma {:induction false} SubsequenceMembers(a: seq<Row>, b: seq<Row>)
    requires IsSubsequence(a, b)
    ensures forall j :: 0 <= j < |a| ==> a[j] in b
    decreases |b|
  {
    if a != [] && b != [] {
      if a[0] == b[0] && IsSubsequence(a[1..], b[1..]) {
        SubsequenceMembers(a[1..], b[1..]);
        assert forall j :: 0 < j < |a| ==> a[j] == a[1..][j - 1];
      } else {
        SubsequenceMembers(a, b[1..]);
      }
    }
  }

  /** The rows whose id is none of the victims' ids. */
  function NotAmong(victims: seq<Row>): Row -> bool {
    (r: Row) => forall k :: 0 <= k < |victims| ==> victims[k].id != r.id
  }

  /** The `for todo in todos: db.delete(todo)` loop of the bulk deletes. */
  method DeleteEach(rows: seq<Row>, victims: seq<Row>) returns (remaining: seq<Row>)
    ensures remaining == Filter(rows, NotAmong(victims))
  {
    remaining := rows;
    FilterKeepsAll(rows, NotAmong([]));
    var i := 0;
    while i < |victims|
      invariant 0 <= i <= |victims|
      invariant remaining == Filter(rows, NotAmong(victims[..i]))
    {
      var step := NotAmong(victims[..i + 1]);
      assert forall r :: step(r) == (NotAmong(victims[..i])(r) && IdIsNot(victims[i].id)(r)) by {
        forall r ensures step(r) == (NotAmong(victims[..i])(r) && IdIsNot(victims[i].id)(r)) {
          assert forall k :: 0 <= k < i ==> victims[..i + 1][k] == victims[..i][k];
          assert victims[..i + 1][i] == victims[i];
        }
      }
      FilterFilter(rows, NotAmong(victims[..i]), IdIsNot(victims[i].id), step);
      remaining := WithoutRow(remaining, victims[i].id);
      i := i + 1;
    }
    assert victims[..|victims|] == victims;
  }

  /** Deleting, one by one, the rows a query returned removes exactly those rows. With unique
      ids, deleting the completed rows keeps exactly the open ones, in order. */
  lemma DeleteCompletedKeepsOpen(rows: seq<Row>)
    requires UniqueIds(rows)
    ensures Filter(rows, NotAmong(Filter(rows, IsDone()))) == Filter(rows, IsOpen())
  {
    var victims := Filter(rows, IsDone());
    FilterMembers(rows, IsDone());
    forall i | 0 <= i < |rows| ensures NotAmong(victims)(rows[i]) == IsOpen()(rows[i]) {
      if rows[i].completed {
        assert rows[i] in victims;
      } else {
        forall k | 0 <= k < |victims| ensures victims[k].id != rows[i].id {
          var j :| 0 <= j < |rows| && rows[j] == victims[k];
        }
      }
    }
    FilterAgree(rows, NotAmong(victims), IsOpen());
  }

  /** Deleting every row a full query returned leaves the table empty. */
  lemma DeleteAllEmpties(rows: seq<Row>)
    ensures Filter(rows, NotAmong(rows)) == []
  {
    forall i | 0 <= i < |rows| ensures !NotAmong(rows)(rows[i]) {
    }
    FilterKeepsNone(rows, NotAmong(rows));
  }

  /** Completed and open rows together make up the table. */
  lemma StatusCountsAddUp(rows: seq<Row>)
    ensures |Filter(rows, IsDone())| + |Filter(rows, IsOpen())| == |rows|
  {
    FilterPartitionCount(rows, IsDone(), IsOpen());
  }

  /** Every id is below the next id the table will hand out. */
  predicate IdsBelow(rows: seq<Row>, nextId: int) {
    forall k :: 0 <= k < |rows| ==> rows[k].id < nextId
  }

  /** Keeping some of the rows keeps ids unique and below the next id. */
  lemma FilterKeepsKeys(rows: seq<Row>, p: Row -> bool, nextId: int)
    requires UniqueIds(rows) && IdsBelow(rows, nextId)
    ensures UniqueIds(Filter(rows, p)) && IdsBelow(Filter(rows, p), nextId)
  {
    FilterIsSubsequence(rows, p);
    SubsequenceKeepsUniqueIds(Filter(rows, p), rows);
    FilterMembers(rows, p);
  }

  /** A row with a fresh id can be appended without breaking uniqueness. */
  lemma AppendFreshKeepsKeys(rows: seq<Row>, row: Row, nextId: int)
    requires UniqueIds(rows) && IdsBelow(rows, nextId) && row.id == nextId
    ensures UniqueIds(rows + [row]) && IdsBelow(rows + [row], nextId + 1) && !HasId(rows, row.id)
  {
  }
}
