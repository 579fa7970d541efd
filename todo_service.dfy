/** The service layer of the Java back end
    (ToDoApp05/backend/src/main/java/com/todoapp/service/TodoService.java) over an in-memory
    repository: a map from id to entity. The derived queries of `TodoRepository` are functions
    on that map; list results are sets, since no query fixes an order. */
module TodoService {
  import opened Wrappers
  import opened Text

  /** The `Todo` entity. `dueDate` is a point in time as a number; `None` is `null`. */
  datatype Todo = Todo(
    id: int,
    title: string,
    description: Option<string>,
    completed: bool,
    priority: int,
    dueDate: Option<int>)

  type Repository = map<int, Todo>

  /** `findAll`. */
  function FindAll(repo: Repository): set<Todo> {
    repo.Values
  }

  /** `findByCompleted`. */
  function FindByCompleted(repo: Repository, completed: bool): set<Todo> {
    set t | t in repo.Values && t.completed == completed
  }

  /** The two status queries split the repository: they share nothing and together return
      every entity. */
  lemma StatusQueriesPartition(repo: Repository)
    ensures FindByCompleted(repo, true) * FindByCompleted(repo, false) == {}
    ensures FindByCompleted(repo, true) + FindByCompleted(repo, false) == FindAll(repo)
  {
  }

  /** `findByPriority`. */
  function FindByPriority(repo: Repository, priority: int): set<Todo> {
    set t | t in repo.Values && t.priority == priority
  }

  /** The priority queries sort every entity into the class of its own priority, and two
      different priorities never return the same entity. */
  lemma PriorityClasses(repo: Repository, p: int, q: int)
    ensures FindByPriority(repo, p) <= FindAll(repo)
    ensures forall t :: t in FindAll(repo) ==> t in FindByPriority(repo, t.priority)
    ensures p != q ==> FindByPriority(repo, p) * FindByPriority(repo, q) == {}
  {
  }

  /** `findByTitleContainingIgnoreCase` (case folding of ASCII letters only). */
  function FindByTitleContainingIgnoreCase(repo: Repository, title: string): (r: set<Todo>)
    ensures forall t :: t in r <==> t in repo.Values && Contains(ToLower(t.title), ToLower(title))
    ensures title == "" ==> r == repo.Values
  {
    assert forall s: string :: OccursAt(s, "", 0) && Contains(s, "");
    assert title == "" ==> ToLower(title) == "";
    set t | t in repo.Values && Contains(ToLower(t.title), ToLower(title))
  }

  /** `findUpcomingTodos`: open items with a due date no later than the given one. */
  function FindUpcomingTodos(repo: Repository, dueDate: int): set<Todo> {
    set t | t in repo.Values && !t.completed && t.dueDate.Some? && t.dueDate.value <= dueDate
  }

  /** The upcoming items are open ones; a later bound returns every item an earlier bound
      returns; an open dated item is returned from its own due date on. */
  lemma UpcomingGrowsWithDate(repo: Repository, earlier: int, later: int)
    requires earlier <= later
    ensures FindUpcomingTodos(repo, later) <= FindByCompleted(repo, false)
    ensures FindUpcomingTodos(repo, earlier) <= FindUpcomingTodos(repo, later)
    ensures forall t :: t in FindByCompleted(repo, false) && t.dueDate.Some? ==>
      t in FindUpcomingTodos(repo, t.dueDate.value)
  {
  }

  /** An entity stored under its own id: the repository invariant of the service. */
  predicate KeyedById(repo: Repository) {
    forall id :: id in repo ==> repo[id].id == id
  }

  /** A non-empty repository has an id. */
  lemma SomeId(repo: Repository)
    requires repo != map[]
    ensures exists id :: id in repo
  {
    if forall id :: id !in repo {
      assert false;
    }
  }

  /** A stored entity is stored under some id. */
  lemma StoredUnderSomeId(repo: Repository, t: Todo)
    ensures t in repo.Values ==> exists id :: id in repo && repo[id] == t
  {
    if t in repo.Values && forall id :: id in repo ==> repo[id] != t {
      assert false;
    }
  }

  /** An entity no id holds is not stored. */
  lemma NotStored(repo: Repository, t: Todo)
    requires forall id :: id in repo ==> repo[id] != t
    ensures t !in repo.Values
  {
    StoredUnderSomeId(repo, t);
  }

  /** Under that invariant an id is in use exactly when an entity carries it. */
  lemma KeyedLookup(repo: Repository, id: int)
    ensures KeyedById(repo) ==> (id in repo <==> exists t :: t in repo.Values && t.id == id)
  {
    if KeyedById(repo) && !(id in repo) {
      forall t | t in repo.Values ensures t.id != id {
        StoredUnderSomeId(repo, t);
      }
    }
  }

  /** Under that invariant no two ids hold the same entity, so there are as many entities as
      ids. */
  lemma {:induction false} KeyedValuesCount(repo: Repository)
    requires KeyedById(repo)
    ensures |repo.Values| == |repo.Keys|
    decreases |repo|
  {
    if repo != map[] {
      SomeId(repo);
      var k :| k in repo;
      var rest := repo - {k};
      assert KeyedById(rest);
      assert rest.Keys == repo.Keys - {k};
      KeyedValuesCount(rest);
      assert repo.Values == rest.Values + {repo[k]} by {
        forall t | t in repo.Values ensures t in rest.Values + {repo[k]} {
          StoredUnderSomeId(repo, t);
          var id :| id in repo && repo[id] == t;
          if id != k {
            assert rest[id] == t;
          }
        }
      }
      assert repo[k] !in rest.Values by {
        forall id | id in rest ensures rest[id] != repo[k] {
          assert rest[id].id == id;
        }
        NotStored(rest, repo[k]);
      }
    }
  }

  /** The entities with one status, keyed by id. */
  function WithStatus(repo: Repository, completed: bool): Repository {
    map id | id in repo && repo[id].completed == completed :: repo[id]
  }

  /** The ids whose entity has that status. */
  function IdsWithStatus(repo: Repository, completed: bool): set<int> {
    set id | id in repo && repo[id].completed == completed
  }

  /** `countByCompleted`. */
  function CountByCompleted(repo: Repository, completed: bool): nat {
    |IdsWithStatus(repo, completed)|
  }

  /** `countAllTodos`. */
  function CountAllTodos(repo: Repository): nat {
    |repo.Keys|
  }

  /** Under the repository invariant, each count is the size of the matching query. */
  lemma CountsMatchQueries(repo: Repository, completed: bool)
    ensures KeyedById(repo) ==> CountAllTodos(repo) == |FindAll(repo)|
    ensures KeyedById(repo) ==> CountByCompleted(repo, completed) == |FindByCompleted(repo, completed)|
  {
    if !KeyedById(repo) {
      return;
    }
    KeyedValuesCount(repo);
    var part := WithStatus(repo, completed);
    assert KeyedById(part);
    KeyedValuesCount(part);
    assert part.Keys == IdsWithStatus(repo, completed);
    assert part.Values == FindByCompleted(repo, completed) by {
      forall t | t in FindByCompleted(repo, completed) ensures t in part.Values {
        StoredUnderSomeId(repo, t);
        var id :| id in repo && repo[id] == t;
        assert part[id] == t;
      }
    }
  }

  /** Every entity is completed or not, so the two status counts add up to the total. */
  lemma StatusCountsAddUp(repo: Repository)
    ensures CountByCompleted(repo, true) + CountByCompleted(repo, false) == CountAllTodos(repo)
  {
    var done, open := IdsWithStatus(repo, true), IdsWithStatus(repo, false);
    assert repo.Keys == done + open;
    assert done * open == {};
  }

  /** `deleteByCompleted(true)`: the repository without its completed entities. */
  function WithoutCompleted(repo: Repository): Repository {
    map id | id in repo && !repo[id].completed :: repo[id]
  }

  /** Deleting the completed entities removes all of them, keeps every open one as it was,
      and lowers the total by the number that were completed. */
  lemma WithoutCompletedEffect(repo: Repository)
    ensures forall id :: id in WithoutCompleted(repo) <==> id in repo && !repo[id].completed
    ensures forall id :: id in WithoutCompleted(repo) ==> WithoutCompleted(repo)[id] == repo[id]
    ensures CountByCompleted(WithoutCompleted(repo), true) == 0
    ensures CountByCompleted(WithoutCompleted(repo), false) == CountByCompleted(repo, false)
    ensures CountAllTodos(WithoutCompleted(repo)) == CountAllTodos(repo) - CountByCompleted(repo, true)
  {
    var rest := WithoutCompleted(repo);
    assert IdsWithStatus(rest, true) == {};
    assert IdsWithStatus(rest, false) == IdsWithStatus(repo, false);
    assert rest.Keys == IdsWithStatus(repo, false);
    StatusCountsAddUp(repo);
  }

  /** `TodoUpdateRequest`: `completed` and `priority` may be `null`. */
  datatype UpdateRequest = UpdateRequest(
    title: string,
    description: Option<string>,
    completed: Option<bool>,
    priority: Option<int>,
    dueDate: Option<int>)

  /** What `updateTodo` makes of an entity: title, description and due date always replaced,
      even by `null`; status and priority replaced only when given. */
  function Overwritten(t: Todo, req: UpdateRequest): Todo {
    Todo(t.id, req.title, req.description, req.completed.GetOr(t.completed), req.priority.GetOr(t.priority), req.dueDate)
  }

  /** An update keeps the id; it applies the always-set fields, and leaves status and priority
      alone when the request has none; applying it twice is applying it once. */
  lemma OverwrittenFields(t: Todo, req: UpdateRequest)
    ensures Overwritten(t, req).id == t.id
    ensures Overwritten(t, req).title == req.title && Overwritten(t, req).description == req.description
    ensures Overwritten(t, req).dueDate == req.dueDate
    ensures req.completed.None? ==> Overwritten(t, req).completed == t.completed
    ensures req.completed.Some? ==> Overwritten(t, req).completed == req.completed.value
    ensures req.priority.None? ==> Overwritten(t, req).priority == t.priority
    ensures req.priority.Some? ==> Overwritten(t, req).priority == req.priority.value
    ensures Overwritten(Overwritten(t, req), req) == Overwritten(t, req)
  {
  }

  /** The service, with the repository it owns and the next id the database will assign. */
  class TodoService {
    var repo: Repository
    var nextId: int

    /** Each entity is stored under its own id, and ids are below `nextId`. */
    ghost predicate Valid()
      reads this
    {
      KeyedById(repo) && forall id :: id in repo ==> id < nextId
    }

    constructor()
      ensures Valid() && repo == map[] && nextId == 1
    {
      repo := map[];
      nextId := 1;
    }

    /** `getAllTodos`: every stored entity, one per id. */
    function GetAllTodos(): (r: set<Todo>)
      reads this
      ensures forall id :: id in repo ==> repo[id] in r
      ensures Valid() ==> |r| == CountAllTodos(repo)
    {
      CountsMatchQueries(repo, true);
      FindAll(repo)
    }

    /** `getTodosByStatus`: everything for `null`, otherwise exactly the entities with that status. */
    function GetTodosByStatus(completed: Option<bool>): (r: set<Todo>)
      reads this
      ensures completed.None? ==> r == repo.Values
      ensures completed.Some? ==> forall t :: t in r <==> t in repo.Values && t.completed == completed.value
    {
      if completed.None? then FindAll(repo) else FindByCompleted(repo, completed.value)
    }

    /** The `null` query returns what the two status queries return between them, and those two
        never overlap. */
    lemma StatusQueriesSplitAll()
      ensures GetTodosByStatus(None) == GetTodosByStatus(Some(true)) + GetTodosByStatus(Some(false))
      ensures GetTodosByStatus(Some(true)) * GetTodosByStatus(Some(false)) == {}
    {
      StatusQueriesPartition(repo);
    }

    /** `getTodoById`: with every entity stored under its own id, the lookup finds an entity
        exactly when one with that id is stored, and returns that entity. */
    function GetTodoById(id: int): (r: Option<Todo>)
      reads this
      ensures r.Some? ==> r.value in GetAllTodos()
      ensures Valid() ==> (r.Some? <==> exists t :: t in GetAllTodos() && t.id == id)
      ensures Valid() && r.Some? ==> r.value.id == id
    {
      KeyedLookup(repo, id);
      if id in repo then Some(repo[id]) else None
    }

    /** `searchTodosByTitle`: stored entities only, all of them for an empty query, and the
        same entities for two queries that differ only in the case of their letters. */
    function SearchTodosByTitle(title: string): (r: set<Todo>)
      reads this
      ensures r <= GetAllTodos()
      ensures title == "" ==> r == GetAllTodos()
      ensures r == FindByTitleContainingIgnoreCase(repo, ToLower(title))
    {
      ToLowerIdempotent(title);
      FindByTitleContainingIgnoreCase(repo, title)
    }

    /** `getTodosByPriority`: stored entities of that priority; different priorities share none. */
    function GetTodosByPriority(priority: int): (r: set<Todo>)
      reads this
      ensures r <= GetAllTodos()
      ensures forall q :: q != priority ==> r * FindByPriority(repo, q) == {}
      ensures forall id :: id in repo && repo[id].priority == priority ==> repo[id] in r
    {
      FindByPriority(repo, priority)
    }

    /** `getUpcomingTodos`: open entities only, and more of them the later the bound. */
    function GetUpcomingTodos(dueDate: int): (r: set<Todo>)
      reads this
      ensures r <= GetTodosByStatus(Some(false))
      ensures forall later :: later >= dueDate ==> r <= FindUpcomingTodos(repo, later)
    {
      FindUpcomingTodos(repo, dueDate)
    }

    /** `countTodosByStatus`: the total for `null`, which is the sum of the two status counts. */
    function CountTodosByStatus(completed: Option<bool>): (n: nat)
      reads this
      ensures completed.None? ==> n == CountByCompleted(repo, true) + CountByCompleted(repo, false)
      ensures completed.Some? ==> n == |IdsWithStatus(repo, completed.value)|
      ensures Valid() ==> n == |GetTodosByStatus(completed)|
    {
      StatusCountsAddUp(repo);
      CountsMatchQueries(repo, completed.GetOr(true));
      if completed.None? then CountAllTodos(repo) else CountByCompleted(repo, completed.value)
    }

    /** `countAllTodos`: the number of ids, which is the number of stored entities. */
    function CountAll(): (n: nat)
      reads this
      ensures n == CountByCompleted(repo, true) + CountByCompleted(repo, false)
      ensures Valid() ==> n == |GetAllTodos()|
    {
      StatusCountsAddUp(repo);
      CountsMatchQueries(repo, true);
      CountAllTodos(repo)
    }

    /** `createTodo`: one new entity, not completed, with priority 0 when the request has none;
        title, description and due date copied. */
    method CreateTodo(title: string, description: Option<string>, priority: Option<int>, dueDate: Option<int>)
      returns (saved: Todo)
      requires Valid()
      modifies this
      ensures Valid()
      ensures saved == Todo(old(nextId), title, description, false, priority.GetOr(0), dueDate)
      ensures saved.id !in old(repo) && repo == old(repo)[saved.id := saved]
    {
      var todo := Todo(nextId, title, description, false, 0, dueDate);
      todo := todo.(priority := if priority.Some? then priority.value else 0);
      repo := repo[nextId := todo];
      nextId := nextId + 1;
      saved := todo;
    }

    /** `updateTodo`: empty and nothing saved for an absent id; otherwise the entity with the
        request written over it. */
    method UpdateTodo(id: int, req: UpdateRequest) returns (r: Option<Todo>)
      requires Valid()
      modifies this
      ensures Valid()
      ensures id !in old(repo) ==> r.None? && repo == old(repo)
      ensures id in old(repo) ==> r == Some(Overwritten(old(repo)[id], req)) && repo == old(repo)[id := r.value]
      ensures nextId == old(nextId)
    {
      if id !in repo {
        return None;
      }
      var todo := repo[id];
      todo := todo.(title := req.title);
      todo := todo.(description := req.description);
      if req.completed.Some? {
        todo := todo.(completed := req.completed.value);
      }
      if req.priority.Some? {
        todo := todo.(priority := req.priority.value);
      }
      todo := todo.(dueDate := req.dueDate);
      repo := repo[id := todo];
      r := Some(todo);
    }

    /** `toggleTodoStatus`: empty for an absent id; otherwise that entity's status flipped. */
    method ToggleTodoStatus(id: int) returns (r: Option<Todo>)
      requires Valid()
      modifies this
      ensures Valid()
      ensures id !in old(repo) ==> r.None? && repo == old(repo)
      ensures id in old(repo) ==>
        r == Some(old(repo)[id].(completed := !old(repo)[id].completed)) && repo == old(repo)[id := r.value]
      ensures nextId == old(nextId)
    {
      if id !in repo {
        return None;
      }
      var todo := repo[id].(completed := !repo[id].completed);
      repo := repo[id := todo];
      r := Some(todo);
    }

    /** `deleteTodo`: true exactly when the id existed; afterwards it is absent and nothing
        else is removed. */
    method DeleteTodo(id: int) returns (existed: bool)
      requires Valid()
      modifies this
      ensures Valid()
      ensures existed == (id in old(repo))
      ensures repo == old(repo) - {id} && nextId == old(nextId)
    {
      if id in repo {
        repo := repo - {id};
        return true;
      }
      return false;
    }

    /** `deleteCompletedTodos`: the number of completed entities before the delete. */
    method DeleteCompletedTodos() returns (count: nat)
      requires Valid()
      modifies this
      ensures Valid()
      ensures count == CountByCompleted(old(repo), true)
      ensures repo == WithoutCompleted(old(repo)) && nextId == old(nextId)
    {
      count := CountByCompleted(repo, true);
      repo := WithoutCompleted(repo);
    }

    /** `deleteAllTodos`: the number of entities before the delete, and an empty repository. */
    method DeleteAllTodos() returns (count: nat)
      requires Valid()
      modifies this
      ensures Valid()
      ensures count == CountAllTodos(old(repo)) && repo == map[] && nextId == old(nextId)
    {
      count := CountAllTodos(repo);
      repo := map[];
    }
  }
}
