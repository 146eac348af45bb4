# Task controller model

A Dafny model of `TasksController`, the REST controller of a small task
tracker. The controller lists, fetches, creates, updates and deletes task
records kept in a database. Here the database table is an in-memory
sequence of records, and the record's identity column is an id counter.

- `Tasks` (tasks.dfy): the `TaskItem` record, the `TaskRequest` body
  with its six client fields, and the `Response` outcomes. `Ok` is 200,
  `NotFound` is 404, and `BadInput` is the 500 the controller returns for
  a missing body or id.
- `Strings` (strings.dfy): the case-sensitive substring test behind the
  name search, and the ordinal lexicographic string order behind the
  sorts. Both are proved from scratch.
- `Ordering` (ordering.dfy): the five orders the list endpoint can pick,
  and an insertion sort proved to establish the chosen order and to be a
  permutation of its input.
- `TaskQuery` (query.dfy): the read side. `Get` is the list pipeline:
  owner filter, optional name search, sort, count, then Skip/Take paging.
  `Lookup` is `GetByID`. Both are functions of the table, so neither can
  change it. The lemmas there say what each write does to later lookups.
- `Controller` (controller.dfy): the class `TasksController`. Its
  `tasks` and `nextId` fields stand for the task table and its identity
  seed. `Post`, `Put` and `Delete` are methods that update them in place.
  `Valid()` says ids are unique, positive and below the seed.

The caller's identity is a plain user-name parameter. The clock read in
`Post` is a `now` parameter. A task's owner is its user's user name, which
is the field the list filter compares.

## Model

| member | source | states |
|---|---|---|
| `Strings.Contains` | Controllers/TasksController.cs:38 | true exactly when the search text occurs at some position of the task name (case-sensitive substring) |
| `Strings.StrLeTotal` | Controllers/TasksController.cs:43-45 | any two names or statuses are comparable in the sort order |
| `Strings.StrLeTransitive` | Controllers/TasksController.cs:43-45 | the string sort order is transitive |
| `Strings.StrLeAntisymmetric` | Controllers/TasksController.cs:43-45 | two strings that each sort at or before the other are equal |
| `Ordering.Insert` | Controllers/TasksController.cs:40-55 | inserting into a sorted sequence keeps it sorted and adds exactly one copy of the element |
| `Ordering.Sort` | Controllers/TasksController.cs:40-55 | the `OrderBy`/`OrderByDescending` result is sorted by the key and is a permutation of its input |
| `Ordering.Le` | Controllers/TasksController.cs:43-53 | the key selectors: name or status compared in the string order, reversed for the descending branches, and id compared numerically; made a total preorder by `Ordering.LeTotal` and `Ordering.LeTransitive` |
| `Ordering.LeTotal` | Controllers/TasksController.cs:43-53 | any two tasks are comparable under every key |
| `Ordering.LeTransitive` | Controllers/TasksController.cs:43-53 | every key's order is transitive |
| `TaskQuery.Selected` | Controllers/TasksController.cs:35-38 | a task is selected exactly when its owner is the caller and, unless search is null or empty (the `!string.IsNullOrEmpty(search)` test of line 36, `SearchApplies`), search occurs somewhere in its name |
| `TaskQuery.SortKeyOf` | Controllers/TasksController.cs:40-55 | the `switch (sortBy)` with its `order == "ascending"` choices; `SortedByRequest` states what each chosen key means for the result |
| `TaskQuery.Skip` | Controllers/TasksController.cs:57 | LINQ `Skip`: the suffix after the first n elements, all of them when n <= 0, none when n >= length |
| `TaskQuery.Take` | Controllers/TasksController.cs:57 | LINQ `Take`: the prefix of min(n, length) elements, none when n <= 0 |
| `TaskQuery.Wrap32` | Controllers/TasksController.cs:57 | the result fits a C# `int`, differs from the exact value by a multiple of 2^32, and equals it when it already fits |
| `TaskQuery.Where` | Controllers/TasksController.cs:35-39 | keeps each element satisfying the predicate with its full multiplicity and drops every other one |
| `TaskQuery.SortedByRequest` | Controllers/TasksController.cs:40-55 | sorted sequences are non-decreasing (ascending) or non-increasing (any other order) by name or status, and ascending by id for any other sortBy |
| `TaskQuery.Query` | Controllers/TasksController.cs:35-55 | the query before paging holds exactly the caller's tasks matching a non-empty search, each as often as in the table, and is sorted by the key `SortKeyOf` picks (what that means per sortBy and order is `SortedByRequest`) |
| `TaskQuery.Page` | Controllers/TasksController.cs:57 | for page >= 1 and pageSize >= 0 the result is the slice from min(len, (page-1)*pageSize) of at most pageSize items, with its exact length |
| `TaskQuery.PageCovers` | Controllers/TasksController.cs:57 | for pageSize > 0, element k of the query is item k % pageSize of page k / pageSize + 1 |
| `TaskQuery.Get` | Controllers/TasksController.cs:26-68 | parameters default to sortBy = order = "", page = 1, pageSize = 10, no search; totalCount is the size of the query before paging, independent of page and pageSize; items are its page; every item is the caller's and matches the search; items are in the requested order |
| `TaskQuery.DefaultListing` | Controllers/TasksController.cs:26-31 | a call with every default returns the caller's first ten tasks of the query in ascending id order, with the full count |
| `TaskQuery.IndexOf` | Controllers/TasksController.cs:74 | the first position holding the id, or none exactly when no record has it |
| `TaskQuery.Lookup` | Controllers/TasksController.cs:72-80 | `Ok` with a stored record of that id exactly when one exists, otherwise `NotFound`; no ownership check |
| `TaskQuery.LookupUnique` | Controllers/TasksController.cs:74 | with unique ids, looking up a stored record's id returns that record |
| `TaskQuery.AddedTaskListedOnlyForOwner` | Controllers/TasksController.cs:35-39 | a newly added task is listed for a user exactly when it is theirs and matches the search |
| `TaskQuery.LookupAfterAppend` | Controllers/TasksController.cs:117 | appending a fresh-id record keeps ids unique; the new id and every old id are then found |
| `TaskQuery.LookupAfterOverwrite` | Controllers/TasksController.cs:129-137 | overwriting a record keeps ids unique; its id now yields the new record and other ids their old ones |
| `TaskQuery.LookupAfterRemove` | Controllers/TasksController.cs:152-155 | removing a record keeps ids unique; its id is no longer found and every other record still is |
| `TaskQuery.PageAsWritten` | Controllers/TasksController.cs:57 | paging with the 32-bit unchecked offset; it agrees with `Page` whenever the offset fits an `int` |
| `TaskQuery.PageOffsetWrapsAround` | Controllers/TasksController.cs:57 | page 65537 of 65536-item pages returns the first page instead of nothing |
| `Tasks.FromRequest` | Controllers/TasksController.cs:106-116 | a new record copies the six request fields verbatim, with the creation time and owner supplied by the server |
| `Tasks.Overwrite` | Controllers/TasksController.cs:132-137 | an update replaces exactly the six request fields and keeps id, owner and creation time |
| `Controller.TasksController.Post` | Controllers/TasksController.cs:98-120 | no body: BadInput and nothing changes; otherwise exactly one record is appended with a fresh positive id, returned, and then found by `GetByID`, with old records unchanged |
| `Controller.TasksController.Put` | Controllers/TasksController.cs:123-143 | missing id or body: BadInput; absent id: NotFound; both leave the table unchanged; otherwise only that record's six fields change, and ids, owners and creation times of all records stay |
| `Controller.TasksController.Delete` | Controllers/TasksController.cs:146-160 | missing id: BadInput; absent id: NotFound; both leave the table unchanged; otherwise exactly that record is removed, its id is no longer found and every other record remains |

## Left out

- HTTP routing, attributes, `IActionResult` and the JSON envelopes are reduced to `Response` and `Listing`. The message strings are dropped; note that `Delete` reuses the text "Task Creation Failed!." for its missing-id error.
- `async`/`await`, `SaveChangesAsync`, change tracking, `Include` and transactions are persistence plumbing. The in-memory table stands in for them, and every action runs to completion on its own.
- Identity resolution (`FindByNameAsync`, `HttpContext.User`) is replaced by a caller user-name parameter. The null dereference when the user cannot be resolved is not modelled.
- `DateTime.Now` is a clock read. `Post` takes the creation time as its `now` argument.
- Database collation is store-dependent. `Contains` is modelled as case-sensitive substring matching and `OrderBy` as ordinal lexicographic order.
- Ordering.Sort: the tie order among equal keys is one fixed choice. Only "sorted by the key and a permutation of the input" is claimed, not the store's tie order.
- TaskQuery.PageAsWritten: a wrapped offset that is negative is given LINQ-to-Objects' meaning (skip nothing); a database may reject a negative OFFSET instead, and that is not modelled.
- TaskQuery.Get: page and pageSize are unbounded and the offset is the exact product (page - 1) * pageSize, so `Get` differs from the controller when that product overflows an `int` (see Findings). It also requires page >= 1 and pageSize >= 0. The controller does not validate these, and the store's behaviour for a negative offset or count is not visible.
- The TaskItem and TaskItemRequest model classes are not part of this model. The date fields are opaque `Date` ticks. All six request fields are treated as non-null strings and dates.
- Ids are unbounded integers. Identity-column exhaustion is not modelled.
- Ownership checks are absent on `GetByID`, `Put` and `Delete` in the controller, and the model does not add them.

## Findings

| source | as written | input that shows it | evidently intended | confidence | as-written member | corrected member |
|---|---|---|---|---|---|---|
| Controllers/TasksController.cs:57 | `(page - 1) * pageSize` is an unchecked 32-bit `int` product, so large pages wrap around | page = 65537, pageSize = 65536: the offset 2^32 wraps to 0 and the first page is returned instead of an empty one | the offset is the mathematical (page - 1) * pageSize, so page n holds items (n-1)*pageSize onward | medium (assumes C#'s default unchecked arithmetic), not executed | `TaskQuery.PageOffsetWrapsAround` | `TaskQuery.Page` |
