# To-do collection logic, modelled in Dafny

The repository holds several independent to-do apps. They share one core: a list of to-do
records, and the operations that add, toggle, edit, delete, filter, sort and count them. This
project models that core for five implementations and proves what each one promises.

- **In-browser app** (`TodoApp` in `ToDoApp01-Frontend/js/app.js`). This is a class whose handlers update `todos`,
  `currentFilter`, `currentSort` and `editingId` in place. Its view is computed from them:
  - a four-criterion filter pipeline;
  - a stable sort by priority rank, or by due date with undated tasks last;
  - four counters.
  Modules `TodoAppView` (pure) and `TodoAppStore` (the class).
- **Optimistic client cache** (`useTodos` hook). After each successful request, the hook edits
  its cached list and a `{total, completed, pending}` counter triple by hand. Module
  `OptimisticTodos` gives one transition per state updater. It proves that the counters keep
  describing the list after add, update, delete, clear-completed and clear-all. It also shows
  the two fetches after which they do not.
- **Input validator** (`validateInput`). Module `InputValidation`.
- **Two Python back ends over a `todos` table.** Module `TodoRows` holds what they share:
  - the row type;
  - the partial update applied by a `setattr` loop;
  - the row-by-row bulk delete.
  `CrudStore` models the data-access functions of the first back end. `TodosRouter` models the
  handlers of the second, including the paginated listing with its global counts.
- **Java service** (`TodoService`) over a repository modelled as a map from id to entity.
  Module `TodoService`.

Shared building blocks:
- `Seqs`: order-preserving filter.
- `StableSort`: a stable insertion sort under a JavaScript-style comparator, proved to permute,
  to order and to keep ties in input order. `Array.prototype.sort` has been required to be
  stable since the 10th edition of ECMA-262.
- `Text`: the JavaScript `trim` whitespace set, ASCII lower-casing, substring search, and
  decimal formatting with its parse-back.
- `Wrappers`: `Option`.

Two behaviours of the code worth knowing:
- The search term is lower-cased but not trimmed (`ToDoApp01-Frontend/js/app.js:35`).
  `TodoAppView.SearchIsNotTrimmed` shows the consequence.
- The second back end's `create_todo` always stores `completed = False`, because its request
  schema has no status field (`ToDoApp02-Frontend+Backend/backend/app/routers/todos.py:65-69`).

Environment inputs become parameters:
- the confirm dialog's answer;
- the text of the form fields;
- the clock-derived id and creation time;
- the saved list read from `localStorage`;
- the server's replies;
- the server time of a new row.

## Model

| member | source | states |
|---|---|---|
| TodoAppView.FilteredIsOneFilter | ToDoApp01-Frontend/js/app.js:221-253 | The four-stage pipeline keeps exactly the tasks that meet all four criteria at once, in their original order. |
| TodoAppView.FilteredSelection | ToDoApp01-Frontend/js/app.js:221-253 | The shown list is a subsequence of `todos`. A task is shown iff it is in `todos` and matches the search, priority, status and date criteria. |
| TodoAppView.NoFilterKeepsAll | ToDoApp01-Frontend/js/app.js:221-253 | With every criterion empty, each stage is skipped and the whole list is returned. |
| TodoAppView.FilterTwiceIsOnce | ToDoApp01-Frontend/js/app.js:221-253 | Filtering the filtered list again with the same criteria changes nothing. |
| TodoAppView.SearchFindsTypedText | ToDoApp01-Frontend/js/app.js:35 | Typing a piece of a task's text, with its letters in either case, keeps that task under the search criterion the handler stores. |
| TodoAppView.SearchIsNotTrimmed | ToDoApp01-Frontend/js/app.js:34-36 | The search term is stored lower-cased but untrimmed, so a padded term misses a task whose text is the bare word. |
| TodoAppView.ComparatorConsistent | ToDoApp01-Frontend/js/app.js:257-268 | Both comparators (priority rank, and due date with undated last) are antisymmetric and transitive, so the sort is well defined. |
| TodoAppView.SortIsPermutation | ToDoApp01-Frontend/js/app.js:256-269 | Sorting returns the same tasks, each as often as before. |
| TodoAppView.SortByPriorityOrder | ToDoApp01-Frontend/js/app.js:258-260 | In priority mode, ranks (high 3, medium 2, low 1) never increase along the sorted list. |
| TodoAppView.SortByDateOrder | ToDoApp01-Frontend/js/app.js:261-266 | In date mode, every dated task precedes every undated one, and dated tasks ascend by date. |
| TodoAppView.SortKeepsTieOrder | ToDoApp01-Frontend/js/app.js:256-269 | Tasks that compare equal keep their input order (stable `Array.prototype.sort`). |
| TodoAppView.StatsConsistent | ToDoApp01-Frontend/js/app.js:323-327 | `total` is the list length, `active + completed == total`, and `highPriority <= active`. |
| TodoAppStore.FindIndex | ToDoApp01-Frontend/js/app.js:141 | `find` by id returns the first index holding that id, or none exactly when no task has it. |
| TodoAppStore.ToggleChangesOnlyFirst | ToDoApp01-Frontend/js/app.js:140-148 | Toggling flips `completed` on the first task with that id and leaves every other task and field unchanged. |
| TodoAppStore.ToggleUnknownId | ToDoApp01-Frontend/js/app.js:140-148 | Toggling an id no task has is a no-op. |
| TodoAppStore.ToggleTwice | ToDoApp01-Frontend/js/app.js:140-148 | Toggling the same id twice restores the list. |
| TodoAppStore.DeleteRemovesExactlyThatId | ToDoApp01-Frontend/js/app.js:131 | Deleting removes every task with that id and keeps the others in their original relative order. An absent id changes nothing. |
| TodoAppStore.DeleteIdempotent | ToDoApp01-Frontend/js/app.js:131 | Deleting the same id twice is deleting it once. |
| TodoAppStore.EditChangesOnlyFirst | ToDoApp01-Frontend/js/app.js:166-170 | An edit overwrites text, priority and date of the first task with that id only. Ids, statuses and creation times stay as they were. |
| TodoAppStore.TodoApp.constructor | ToDoApp01-Frontend/js/app.js:3-15 | The app starts with the saved list (or an empty one), no filter, date sort and no task being edited. |
| TodoAppStore.TodoApp.AddTodo | ToDoApp01-Frontend/js/app.js:92-126 | An input that trims to empty is rejected and `todos` is unchanged. Otherwise a not-completed task with the trimmed text goes in front of all previous tasks, which keep their order. |
| TodoAppStore.TodoApp.DeleteTodo | ToDoApp01-Frontend/js/app.js:129-137 | Without confirmation nothing changes. With it, `todos` becomes the list without that id. |
| TodoAppStore.TodoApp.ToggleTodo | ToDoApp01-Frontend/js/app.js:140-148 | `todos` becomes the list with the first matching task's status flipped. No other field changes. |
| TodoAppStore.TodoApp.EditTodo | ToDoApp01-Frontend/js/app.js:151-160 | `editingId` is set only when a task has that id. |
| TodoAppStore.TodoApp.SaveEdit | ToDoApp01-Frontend/js/app.js:163-182 | The outcome is "not editing" iff `editingId` is null or empty, and then nothing changes. A missing task changes nothing. Otherwise text (trimmed), priority and date are overwritten before the emptiness check. An empty text is reported and the dialog stays open. Any other edit is saved and closes the dialog. |
| TodoAppStore.TodoApp.CloseModal | ToDoApp01-Frontend/js/app.js:185-188 | `editingId` becomes null and nothing else changes. |
| TodoAppStore.TodoApp.SetSort | ToDoApp01-Frontend/js/app.js:191-201 | Only the sort mode changes. |
| TodoAppStore.TodoApp.ClearFilters | ToDoApp01-Frontend/js/app.js:204-218 | All four criteria return to empty. List, sort and edit state are untouched. |
| TodoAppStore.TodoApp.SetSearch | ToDoApp01-Frontend/js/app.js:34-37 | The search criterion becomes the lower-cased input, untrimmed. |
| TodoAppStore.TodoApp.SetPriorityFilter | ToDoApp01-Frontend/js/app.js:40-43 | Only the priority criterion changes. |
| TodoAppStore.TodoApp.SetStatusFilter | ToDoApp01-Frontend/js/app.js:45-48 | Only the status criterion changes. |
| TodoAppStore.TodoApp.SetDateFilter | ToDoApp01-Frontend/js/app.js:50-53 | Only the date criterion changes. |
| TodoAppStore.TodoApp.Render | ToDoApp01-Frontend/js/app.js:272-287 | The shown list is a permutation of the filtered list and holds exactly the matching tasks, ordered by the current sort mode. Tasks that compare equal keep their filtered order. Rendering changes no field, so `todos` is never reordered. |
| TodoAppStore.TodoApp.Stats | ToDoApp01-Frontend/js/app.js:323-333 | The counters are computed over the whole list: `active + completed == total == \|todos\|` and `highPriority <= active`. |
| StableSort.SortPermutes | ToDoApp01-Frontend/js/app.js:257 | The sort returns a permutation of its input. |
| StableSort.SortSorted | ToDoApp01-Frontend/js/app.js:257 | Under a consistent comparator, no later element compares below an earlier one. |
| StableSort.SortStable | ToDoApp01-Frontend/js/app.js:257 | Under a consistent comparator, elements that compare equal keep their input order. |
| Text.TrimShape | ToDoApp01-Frontend/js/app.js:97 | `trim` returns a slice of the input, with only whitespace cut on either side and no whitespace at either end of the result. |
| Text.TrimEmptyIffBlank | ToDoApp01-Frontend/js/app.js:101 | The trimmed text is empty iff the input is all whitespace. |
| Text.ToLower | ToDoApp01-Frontend/js/app.js:35 | The result has the input's length and no capital letter. Every character that was not a capital is kept in place, and each capital becomes its small letter. |
| Text.ToLowerSlice | ToDoApp01-Frontend/js/app.js:227 | Lower-casing a slice gives the same slice of the lower-cased text. |
| Text.ContainsLowered | ToDoApp01-Frontend/js/app.js:227 | When a text contains a piece, the lower-cased text contains the lower-cased piece, so lower-casing both sides never loses a match. |
| Text.IntToDecimalRoundTrip | ToDoApp02-Frontend+Backend/frontend/src/utils/helpers.js:48 | A number interpolated into a message reads back as the same number. |
| OptimisticTodos.InitialValid | ToDoApp02-Frontend+Backend/frontend/src/hooks/useTodos.js:6-14 | The initial empty list with zero counters satisfies the invariant. |
| OptimisticTodos.AfterFetch | ToDoApp02-Frontend+Backend/frontend/src/hooks/useTodos.js:17-27 | The filter is kept. The counters match the new list iff the reply's `total`, `completed_count` and `pending_count` describe the list it carries. |
| OptimisticTodos.FetchAllIsValid | ToDoApp02-Frontend+Backend/frontend/src/hooks/useTodos.js:21-27 | After a fetch with the `all` filter from a table of at most 50 rows with unique ids, the counters match the list. |
| OptimisticTodos.FetchPendingBreaksCounters | ToDoApp02-Frontend+Backend/frontend/src/hooks/useTodos.js:22-27 | After a fetch with the `pending` filter, `completed` counts the whole table while the list holds only open rows, so the counters can disagree with the list. |
| OptimisticTodos.FetchPastFirstPageBreaksCounters | ToDoApp02-Frontend+Backend/frontend/src/hooks/useTodos.js:22-27 | With 51 rows, `total` counts all of them but the list holds the first page of 50. |
| OptimisticTodos.AfterAdd | ToDoApp02-Frontend+Backend/frontend/src/hooks/useTodos.js:40-45 | The created row is appended after all previous rows. `total` and `pending` rise by one and `completed` is unchanged. |
| OptimisticTodos.AddKeepsValid | ToDoApp02-Frontend+Backend/frontend/src/hooks/useTodos.js:37-52 | Adding a not-completed row with a fresh id keeps the counters matching the list. |
| OptimisticTodos.AddFromServerKeepsValid | ToDoApp02-Frontend+Backend/frontend/src/hooks/useTodos.js:37-46 | The row the router's `create_todo` returns is open and carries the table's next id. So when every cached row is a table row, adding it keeps the counters matching the list. |
| OptimisticTodos.AfterUpdate | ToDoApp02-Frontend+Backend/frontend/src/hooks/useTodos.js:55-94 | Every row with that id is replaced by the server's row, and the length is unchanged. `total` never changes. Without a requested status or without a cached row, the counters stay. Otherwise one unit moves between `completed` and `pending` exactly when the status changes. |
| OptimisticTodos.UpdateKeepsValid | ToDoApp02-Frontend+Backend/frontend/src/hooks/useTodos.js:58-86 | If the server echoes the requested status, or the old status when none was requested, updating keeps the counters matching the list. |
| OptimisticTodos.UpdateFromServerKeepsValid | ToDoApp02-Frontend+Backend/frontend/src/hooks/useTodos.js:55-86 | The router's `update_todo` reply is the table row with the set fields applied. So when every cached row is a table row, updating with that reply keeps the counters matching the list. |
| OptimisticTodos.StaleCacheBreaksCounters | ToDoApp02-Frontend+Backend/frontend/src/hooks/useTodos.js:63-86 | Suppose the cache holds a row open that the table has completed. A title-only update then brings back the completed row, but the counters do not move, so they disagree with the list. |
| OptimisticTodos.AfterDelete | ToDoApp02-Frontend+Backend/frontend/src/hooks/useTodos.js:97-117 | When the row was cached, `total` and the counter of its status drop by one. Otherwise the counters stay. |
| OptimisticTodos.DeleteKeepsValid | ToDoApp02-Frontend+Backend/frontend/src/hooks/useTodos.js:100-111 | Deleting keeps the counters matching the list. |
| OptimisticTodos.AfterClearCompleted | ToDoApp02-Frontend+Backend/frontend/src/hooks/useTodos.js:123-128 | Only open rows remain, `total` drops by `completed`, `completed` becomes 0 and `pending` is unchanged. |
| OptimisticTodos.ClearCompletedKeepsValid | ToDoApp02-Frontend+Backend/frontend/src/hooks/useTodos.js:120-135 | Clearing the completed rows keeps the counters matching the list. |
| OptimisticTodos.AfterClearAll | ToDoApp02-Frontend+Backend/frontend/src/hooks/useTodos.js:141-146 | The list is empty and every counter is 0, which satisfies the invariant. |
| OptimisticTodos.ChangeFilter | ToDoApp02-Frontend+Backend/frontend/src/hooks/useTodos.js:156-158 | Only the filter changes, so the invariant is preserved. |
| OptimisticTodos.VisibleSelection | ToDoApp02-Frontend+Backend/frontend/src/hooks/useTodos.js:161-170 | Shown are completed rows for `completed`, open rows for `pending`, and the whole list otherwise, always in cached order. |
| InputValidation.ValidateInput | ToDoApp02-Frontend+Backend/frontend/src/utils/helpers.js:46-54 | The result is null iff the value is present, non-empty, at least `minLength` long once trimmed, and at most `maxLength` long raw. Otherwise it is one of the two messages. |
| InputValidation.BlankRejected | ToDoApp02-Frontend+Backend/frontend/src/utils/helpers.js:47-48 | A missing, empty or whitespace-only value gets the minimum-length message whenever `minLength >= 1`. |
| InputValidation.PaddingCountsAgainstMaximum | ToDoApp02-Frontend+Backend/frontend/src/utils/helpers.js:50-51 | The maximum is checked on the raw length, so a value that fits once trimmed but not padded is rejected with the maximum-length message. |
| InputValidation.PaddedValueRejectedByDefault | ToDoApp02-Frontend+Backend/frontend/src/utils/helpers.js:46-51 | With the default bounds, 250 letters padded with six spaces are rejected as too long. |
| InputValidation.MinimumCheckedFirst | ToDoApp02-Frontend+Backend/frontend/src/utils/helpers.js:47-52 | When both bounds fail, the minimum-length message wins. |
| InputValidation.TooShortNamesBound | ToDoApp02-Frontend+Backend/frontend/src/utils/helpers.js:48 | The minimum-length message carries its bound: the digits between prefix and suffix parse back to `minLength`. |
| InputValidation.TooLongNamesBound | ToDoApp02-Frontend+Backend/frontend/src/utils/helpers.js:51 | The maximum-length message carries its bound: the digits between prefix and suffix parse back to `maxLength`. |
| InputValidation.MessagesDiffer | ToDoApp02-Frontend+Backend/frontend/src/utils/helpers.js:47-52 | The two messages differ for any bounds, so the message tells which check failed. |
| TodoRows.ApplyUpdateFields | TodoApp01/backend/app/crud.py:43-45 | A partial update keeps the id and timestamp, assigns each given field and keeps each absent one. The empty update is the identity and updating is idempotent. |
| TodoRows.SetFields | TodoApp01/backend/app/crud.py:43 | `exclude_unset` yields one assignment per field present in the request and none for the others. |
| TodoRows.ApplySetattrs | TodoApp01/backend/app/crud.py:43-45 | The `setattr` loop produces exactly the field-by-field update. |
| TodoRows.SetattrsMeanUpdate | TodoApp01/backend/app/crud.py:43-45 | Making the listed assignments in order equals the field-by-field update. |
| TodoRows.FindRow | TodoApp01/backend/app/crud.py:19-21 | Lookup by id returns a row of the table with that id, or none exactly when no row has it. |
| TodoRows.FindRowAt | TodoApp01/backend/app/crud.py:19-21 | With unique ids, the row found for an id is the row holding it. |
| TodoRows.WithRowChangesOnlyThatId | TodoApp01/backend/app/crud.py:43-48 | Writing back a row changes only the row with its id and keeps length, ids and uniqueness. |
| TodoRows.UpdateRowEffect | TodoApp01/backend/app/crud.py:37-49 | With unique ids, an update changes only the row with that id, exactly as the partial update says. |
| TodoRows.ToggleRowEffect | TodoApp01/backend/app/crud.py:52-61 | With unique ids, toggling flips the status of the row with that id and changes nothing else. |
| TodoRows.ToggleRowTwice | TodoApp01/backend/app/crud.py:52-61 | Toggling twice restores the table. |
| TodoRows.WithoutAbsentRow | TodoApp01/backend/app/crud.py:64-68 | Deleting an absent id changes nothing. |
| TodoRows.WithoutRowAt | TodoApp01/backend/app/crud.py:70-72 | With unique ids, deleting a present id removes exactly that row and keeps the others in order. |
| TodoRows.WithoutRowGone | TodoApp01/backend/app/crud.py:64-72 | After a delete no row has that id, and ids stay unique. |
| TodoRows.DeleteEach | TodoApp01/backend/app/crud.py:80-81 | Deleting the returned rows one by one leaves exactly the rows whose id is none of theirs. |
| TodoRows.DeleteCompletedKeepsOpen | TodoApp01/backend/app/crud.py:75-84 | With unique ids, deleting the completed rows one by one leaves exactly the open rows, in order. |
| TodoRows.DeleteAllEmpties | TodoApp01/backend/app/crud.py:87-96 | Deleting every row a full query returned empties the table. |
| TodoRows.StatusCountsAddUp | ToDoApp02-Frontend+Backend/backend/app/routers/todos.py:46-47 | The completed and pending counts add up to the number of rows. |
| CrudStore.NewestFirstConsistent | TodoApp01/backend/app/crud.py:16 | Ordering by creation time descending is a consistent comparator. |
| CrudStore.ListRowsSelection | TodoApp01/backend/app/crud.py:7-16 | `get_todos` returns each kept row once: open rows for `active`, completed rows for `completed`, all rows otherwise. The result is ordered by creation time descending. |
| CrudStore.TodoTable.GetTodos | TodoApp01/backend/app/crud.py:7-16 | The stored rows the filter keeps, each once, ordered by creation time descending. |
| CrudStore.TodoTable.GetTodo | TodoApp01/backend/app/crud.py:19-21 | None iff no stored row has the id; otherwise a stored row with that id. |
| CrudStore.TodoTable.CreateTodo | TodoApp01/backend/app/crud.py:24-34 | One not-completed row with the given title and description and a fresh id is added. Ids stay unique and titles stay within 1 to 255 characters. |
| CrudStore.TodoTable.UpdateTodo | TodoApp01/backend/app/crud.py:37-49 | An absent id gives none and no change. Otherwise the row gets only the fields present in the update. |
| CrudStore.TodoTable.ToggleTodo | TodoApp01/backend/app/crud.py:52-61 | An absent id gives none. Otherwise only that row's status flips. |
| CrudStore.TodoTable.DeleteTodo | TodoApp01/backend/app/crud.py:64-72 | The result is true iff the id existed. The row is then gone and all others remain. |
| CrudStore.TodoTable.DeleteCompletedTodos | TodoApp01/backend/app/crud.py:75-84 | The count of completed rows is returned, and exactly the open rows remain. |
| CrudStore.TodoTable.DeleteAllTodos | TodoApp01/backend/app/crud.py:87-96 | The prior row count is returned, and the table is empty. |
| TodosRouter.ListTodos | ToDoApp02-Frontend+Backend/backend/app/routers/todos.py:20-59 | Out-of-range `page` or `limit` is rejected. `total` is the size of the filtered set. The page holds `min(limit, max(0, total - (page-1)*limit))` rows. The status counts are global and add up to the table size. |
| TodosRouter.EachRowOnItsPage | ToDoApp02-Frontend+Backend/backend/app/routers/todos.py:42-43 | The j-th filtered row is item `j % limit` of page `j / limit + 1`. |
| TodosRouter.ListedRowsMatch | ToDoApp02-Frontend+Backend/backend/app/routers/todos.py:33-36 | A listing holds only rows of the table: completed ones for `completed`, pending ones for `pending`. |
| TodosRouter.TodoRouter.GetTodos | ToDoApp02-Frontend+Backend/backend/app/routers/todos.py:20-59 | Rejected iff `page` or `limit` is out of range. Otherwise every listed row is a stored row of the requested status, and the two counts add up to the table size. |
| TodosRouter.TodoRouter.GetTodo | ToDoApp02-Frontend+Backend/backend/app/routers/todos.py:81-90 | A 404 iff no row has the id; otherwise that row. |
| TodosRouter.TodoRouter.CreateTodo | ToDoApp02-Frontend+Backend/backend/app/routers/todos.py:61-79 | One row with a fresh id is stored, always not completed. |
| TodosRouter.TodoRouter.UpdateTodo | ToDoApp02-Frontend+Backend/backend/app/routers/todos.py:92-122 | A 404 with no change for an absent id. Otherwise only the fields set in the request are assigned. |
| TodosRouter.TodoRouter.DeleteTodo | ToDoApp02-Frontend+Backend/backend/app/routers/todos.py:124-149 | A 404 with nothing removed for an absent id. Otherwise the row is gone and the reply carries its id. |
| TodosRouter.TodoRouter.ClearCompletedTodos | ToDoApp02-Frontend+Backend/backend/app/routers/todos.py:151-174 | Exactly the completed rows are removed, and their number is reported. |
| TodosRouter.TodoRouter.ClearAllTodos | ToDoApp02-Frontend+Backend/backend/app/routers/todos.py:176-199 | The prior row count is reported, and the table is empty. |
| TodoService.StatusQueriesPartition | ToDoApp05/backend/src/main/java/com/todoapp/repository/TodoRepository.java:17 | `findByCompleted(true)` and `findByCompleted(false)` share no entity and together return `findAll()`. |
| TodoService.PriorityClasses | ToDoApp05/backend/src/main/java/com/todoapp/repository/TodoRepository.java:23 | Every entity is returned by the query for its own priority. Queries for two different priorities share no entity. |
| TodoService.FindByTitleContainingIgnoreCase | ToDoApp05/backend/src/main/java/com/todoapp/repository/TodoRepository.java:26 | Returns exactly the entities whose title contains the query, ignoring case. An empty query returns all. |
| TodoService.UpcomingGrowsWithDate | ToDoApp05/backend/src/main/java/com/todoapp/repository/TodoRepository.java:38-40 | Upcoming entities are open. A later bound returns everything an earlier one does. An open dated entity is returned from its own due date on. |
| TodoService.KeyedValuesCount | ToDoApp05/backend/src/main/java/com/todoapp/repository/TodoRepository.java:32-33 | When each entity is stored under its own id, there are as many entities as ids. |
| TodoService.CountsMatchQueries | ToDoApp05/backend/src/main/java/com/todoapp/repository/TodoRepository.java:29-33 | When each entity is stored under its own id, `countAllTodos` is the size of `findAll` and `countByCompleted` is the size of `findByCompleted`. |
| TodoService.StatusCountsAddUp | ToDoApp05/backend/src/main/java/com/todoapp/service/TodoService.java:168-173 | `countTodosByStatus(null)` equals `countTodosByStatus(true) + countTodosByStatus(false)`. |
| TodoService.WithoutCompletedEffect | ToDoApp05/backend/src/main/java/com/todoapp/service/TodoService.java:129-133 | Deleting completed entities removes all of them and keeps every open one unchanged. The total drops by the completed count. |
| TodoService.OverwrittenFields | ToDoApp05/backend/src/main/java/com/todoapp/service/TodoService.java:89-103 | Title, description and due date are always replaced, even by null. Status and priority are replaced only when given. The id is kept. |
| TodoService.TodoService.GetAllTodos | ToDoApp05/backend/src/main/java/com/todoapp/service/TodoService.java:32-34 | Every stored entity is returned, and under the service invariant there are as many as `countAllTodos` reports. |
| TodoService.TodoService.GetTodosByStatus | ToDoApp05/backend/src/main/java/com/todoapp/service/TodoService.java:47-52 | Everything for null; otherwise exactly the entities with that status. |
| TodoService.TodoService.StatusQueriesSplitAll | ToDoApp05/backend/src/main/java/com/todoapp/service/TodoService.java:47-52 | The null query returns exactly what the `true` and `false` queries return between them, and those two share nothing. |
| TodoService.TodoService.GetTodoById | ToDoApp05/backend/src/main/java/com/todoapp/service/TodoService.java:68-70 | A found entity is one of `getAllTodos`. Under the service invariant, an entity is found iff some stored entity carries the id, and the found one carries it. |
| TodoService.TodoService.SearchTodosByTitle | ToDoApp05/backend/src/main/java/com/todoapp/service/TodoService.java:147-149 | Only stored entities are returned, all of them for an empty query. Lower-casing the query changes nothing. |
| TodoService.TodoService.GetTodosByPriority | ToDoApp05/backend/src/main/java/com/todoapp/service/TodoService.java:154-156 | Returns every stored entity of that priority, and none returned for another priority. |
| TodoService.TodoService.GetUpcomingTodos | ToDoApp05/backend/src/main/java/com/todoapp/service/TodoService.java:161-163 | Only open entities are returned, and each is also returned for any later bound. |
| TodoService.TodoService.CountTodosByStatus | ToDoApp05/backend/src/main/java/com/todoapp/service/TodoService.java:168-173 | For null, the sum of both status counts; otherwise that status's count. Under the service invariant, the count is the size of `getTodosByStatus` for the same argument. |
| TodoService.TodoService.CountAll | ToDoApp05/backend/src/main/java/com/todoapp/service/TodoService.java:178-180 | The sum of the two status counts. Under the service invariant, it is the size of `getAllTodos`. |
| TodoService.TodoService.CreateTodo | ToDoApp05/backend/src/main/java/com/todoapp/service/TodoService.java:75-84 | One new entity: not completed, priority 0 when none is given, title, description and due date copied. |
| TodoService.TodoService.UpdateTodo | ToDoApp05/backend/src/main/java/com/todoapp/service/TodoService.java:89-103 | Empty and no save for an absent id. Otherwise the stored entity is the overwritten one. |
| TodoService.TodoService.ToggleTodoStatus | ToDoApp05/backend/src/main/java/com/todoapp/service/TodoService.java:108-113 | Empty for an absent id. Otherwise only that entity's status flips. |
| TodoService.TodoService.DeleteTodo | ToDoApp05/backend/src/main/java/com/todoapp/service/TodoService.java:118-124 | True iff the id existed. Afterwards it is absent and nothing else is removed. |
| TodoService.TodoService.DeleteCompletedTodos | ToDoApp05/backend/src/main/java/com/todoapp/service/TodoService.java:129-133 | Returns the prior completed count and leaves only the open entities. |
| TodoService.TodoService.DeleteAllTodos | ToDoApp05/backend/src/main/java/com/todoapp/service/TodoService.java:138-142 | Returns the prior total and empties the repository. |

## Left out

- DOM, event binding, notifications, the edit dialog's visibility, and HTML rendering (`createTodoHTML`, `escapeHtml`) are not modelled. Handlers take the form values as parameters, and `Render` returns the list it would draw.
- `localStorage` writes are not modelled, nor the JSON parsing of `loadTodos`. The constructor takes the parsed list. `exportData`/`importData` are not modelled.
- `formatDate` is not modelled: it uses the wall clock and floating point. Due dates are day numbers, and `None` is the empty date input. `new Date(a) - new Date(b)` is modelled as the difference of day numbers.
- A priority outside high/medium/low is not modelled; it would make the comparator return `NaN`.
- TodoAppStore.TodoApp.ToggleTodo: `toggleTodo` mutates an object shared with filtered copies; the model replaces the task by value. Aliasing is not modelled.
- TodoAppStore.TodoApp.SaveEdit: `saveEdit` mutates an object shared with filtered copies; the model replaces the task by value. Aliasing is not modelled.
- Text.ToLower: case mapping covers ASCII letters only.
- Text.Trim: lengths count code points, not the UTF-16 units JavaScript counts.
- OptimisticTodos: the counters are proved to stay right only while every cached row is still the server's row. A cache made stale by another client is not covered: a title-only update of a row whose status changed on the server leaves the counters wrong (`StaleCacheBreaksCounters`).
- useTodos.js: loading and error state are not modelled. A failed request changes nothing, so only the success path is modelled. Stale closure reads are modelled as reads of the current state.
- Python back ends: sessions, commit, rollback and refresh are not modelled. Server 500 paths and `updated_at` are not modelled either.
- A request that explicitly sets `title` or `completed` to null is not modelled; it violates the NOT NULL columns.
- Ids come from a `nextId` counter, standing in for the database's autoincrement.
- The second back end's listing has no ORDER BY; the model returns storage order.
- In the first back end, rows with equal `created_at` keep storage order.
- In the second back end, routing sends `DELETE /completed` and `DELETE /all` to the by-id handler first. That is framework routing and is not modelled; each handler body is modelled directly.
- `getTodosWithPagination` and `getTodosByStatusWithPagination` are not modelled; they rely on Spring `Page`/`PageRequest` internals.
- Java list results are modelled as sets, because no query fixes an order.
- `findByPriority(null)` is not modelled.
- TodoService.FindByTitleContainingIgnoreCase: case folding covers ASCII letters only.
- The JPA entity `com/todoapp/entity/Todo.java` is not part of this model. Its fields are inferred from the setters the service calls.
- The model file `app/models/todo.py` of the second back end is not part of this model.
- Request validation (`@NotBlank`, `@Size`, Pydantic field bounds) is modelled only as the title precondition of `CrudStore.TodoTable.CreateTodo` and `UpdateTodo`.
