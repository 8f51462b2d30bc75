# Todo service model

A Dafny model of the core of a small Spring Boot todo backend: the table of
todos behind `TodoRepository`, the business rules of `TodoServiceImpl`, and
the title validation declared on `TodoResource`.

The table is an immutable value: a map from `todo_id` to the remaining
columns (title, finished flag, creation time) plus the auto-increment counter
that supplies the next key. Each repository statement is a pure function from
a table to the table afterwards and the statement's return value. Each
service operation is a pure function returning the table afterwards together
with either its result or the exception it raises (`ResourceNotFound` with
the key, or `BusinessViolation` naming the broken rule).

Modules, leaf first:

- `Wrappers` (`wrappers.dfy`): `Option` for Java's nullable values and
  `Optional`, `Result` for return-or-raise.
- `TodoEntity` (`todo.dfy`): the `Todo` entity and an opaque `Timestamp`.
  `todoId` and `createdAt` are optional because the entity handed to
  `create` carries neither.
- `TodoRepository` (`todo_repository.dfy`): the six statements, the
  well-formedness predicate `Store.Valid` (every key is positive and below
  the counter), and how each write changes the two counts.
- `TodoService` (`todo_service.dfy`): `findOne`, `findAll`, `create`,
  `finish`, `delete`, the constant `MaxUnfinishedCount = 5`, and the
  properties relating them.
- `TodoLifecycle` (`todo_lifecycle.dfy`): the service as a state machine over
  requests. Over any sequence of requests the cap holds, titles and creation
  times never change, the finished flag is never cleared, and deleted keys
  never return.
- `TodoApi` (`todo_resource.dfy`): the wire resource and the `@NotEmpty` /
  `@Size(max = 30)` constraints on its title.

Clock readings are a parameter: `create` receives `now` instead of calling
`LocalDateTime.now()`.

Two behaviours of the code that the model keeps as written:

- The insert writes the finished flag it is given. Only the service forces
  it to `false`.
- `finish` returns its local copy with the flag set and ignores the update's
  row count. `TodoService.FinishUpdatesOneRow` shows that the count is always
  1 when the service reaches the update.

## Model

| member | source | states |
|---|---|---|
| TodoRepository.FindById | src/main/java/com/example/lesson2/todo/TodoRepository.java:10-11 | The result is present exactly when the key is stored, and it carries that key and that row's title, flag and creation time. |
| TodoRepository.FindAll | src/main/java/com/example/lesson2/todo/TodoRepository.java:13-14 | Every stored row appears exactly once, built from its own row, with as many entries as rows. The model lists them in ascending key order. |
| TodoRepository.FindByIdAgreesWithListing | src/main/java/com/example/lesson2/todo/TodoRepository.java:10-14 | A key is found by `findById` exactly when `findAll` lists it, and both give the same entity. |
| TodoRepository.Create | src/main/java/com/example/lesson2/todo/TodoRepository.java:16-18 | The generated key was not in the table. The row holds exactly the given title, flag and creation time. The entity comes back with only its key changed. No other row changes, and the table stays well formed. |
| TodoRepository.CreateThenFindById | src/test/java/com/example/lesson2/todo/TodoRepositoryTest.java:58-66 | Reading an inserted row back by its generated key gives the inserted entity. |
| TodoRepository.UpdateById | src/main/java/com/example/lesson2/todo/TodoRepository.java:20-21 | Returns 1 for a stored key and 0 otherwise. It sets that row's flag, keeps the row's title and creation time, and changes no other row and no key. |
| TodoRepository.DeleteById | src/main/java/com/example/lesson2/todo/TodoRepository.java:23-24 | Returns 1 for a stored key and 0 otherwise. It removes only that key, and the table shrinks by the returned count. |
| TodoRepository.CountByFinished | src/main/java/com/example/lesson2/todo/TodoRepository.java:26-27 | The count of rows with a given flag never exceeds the number of rows. |
| TodoRepository.CountPartition | src/main/java/com/example/lesson2/todo/TodoRepository.java:26-27 | The unfinished count plus the finished count is the number of rows. |
| TodoRepository.CountAfterCreate | src/main/java/com/example/lesson2/todo/TodoRepository.java:16-18 | An insert adds one to the count of the flag it writes and leaves the other count unchanged. |
| TodoRepository.CountAfterUpdate | src/main/java/com/example/lesson2/todo/TodoRepository.java:20-21 | Updating an unfinished row moves one from the unfinished count to the finished count. Any other update changes neither count. |
| TodoRepository.CountAfterDelete | src/main/java/com/example/lesson2/todo/TodoRepository.java:23-24 | A delete lowers the count of the deleted row's flag by one and changes nothing else. |
| TodoService.FindOne | src/main/java/com/example/lesson2/todo/TodoServiceImpl.java:21-25 | Succeeds exactly when the key is stored, returning that row. Otherwise it raises not-found carrying the key. It reads the table and never writes it. |
| TodoService.FindAll | src/main/java/com/example/lesson2/todo/TodoServiceImpl.java:28-30 | Lists every stored todo exactly once. |
| TodoService.Create | src/main/java/com/example/lesson2/todo/TodoServiceImpl.java:33-47 | With 5 or more unfinished todos it raises the business error and leaves the table unchanged. Otherwise the todo is stored under a fresh key, unfinished and stamped with `now` whatever the input said, keeping its title. No existing row changes. |
| TodoService.CreateThenFindOne | src/main/java/com/example/lesson2/todo/TodoServiceImpl.java:41-46 | A created todo reads back via `findOne` with exactly the fields it was returned with. |
| TodoService.Finish | src/main/java/com/example/lesson2/todo/TodoServiceImpl.java:50-60 | A missing key raises not-found and a finished todo raises the business error, both with the table unchanged. Otherwise it returns the todo finished, sets only that row's flag, and keeps the row's title, its creation time and every other row. |
| TodoService.FinishUpdatesOneRow | src/main/java/com/example/lesson2/todo/TodoServiceImpl.java:57-58 | When `finish` succeeds, the unchecked update matched exactly one row. |
| TodoService.FinishTwiceRejected | src/main/java/com/example/lesson2/todo/TodoServiceImpl.java:52-56 | After a successful `finish`, a second `finish` of the same key raises the business error and changes nothing. |
| TodoService.Delete | src/main/java/com/example/lesson2/todo/TodoServiceImpl.java:63-66 | A missing key raises not-found with the table unchanged. Otherwise exactly that key is removed and the counter is kept. |
| TodoService.DeleteThenFindOne | src/main/java/com/example/lesson2/todo/TodoServiceImpl.java:63-66 | After a successful `delete`, `findOne` of that key raises not-found. |
| TodoService.DeletedKeyNotReused | src/main/java/com/example/lesson2/todo/TodoRepository.java:16-17 | A todo created after a delete never receives the deleted key. |
| TodoService.CreateKeepsCap | src/main/java/com/example/lesson2/todo/TodoServiceImpl.java:34-46 | With at most 5 unfinished todos before, there are at most 5 after `create`. A successful `create` raises the unfinished count by exactly one. |
| TodoService.FinishKeepsCap | src/main/java/com/example/lesson2/todo/TodoServiceImpl.java:50-59 | `finish` keeps the cap, and a successful `finish` lowers the unfinished count by one. |
| TodoService.DeleteKeepsCap | src/main/java/com/example/lesson2/todo/TodoServiceImpl.java:63-66 | `delete` never raises the unfinished count. |
| TodoService.FinishMakesRoom | src/main/java/com/example/lesson2/todo/TodoServiceImpl.java:34-59 | With exactly 5 unfinished todos, `create` is refused. Finishing one of them succeeds, and then the same `create` succeeds. |
| TodoLifecycle.Step | src/main/java/com/example/lesson2/todo/TodoServiceImpl.java:20-66 | Serving any one request keeps the table well formed and never lowers the key counter. |
| TodoLifecycle.Run | src/main/java/com/example/lesson2/todo/TodoServiceImpl.java:20-66 | Serving any sequence of requests keeps the table well formed and never lowers the key counter. |
| TodoLifecycle.StepEvolves | src/main/java/com/example/lesson2/todo/TodoServiceImpl.java:49-66 | No request changes a todo's title or creation time, clears a finished flag, or brings back a deleted key. |
| TodoLifecycle.RunEvolves | src/main/java/com/example/lesson2/todo/TodoServiceImpl.java:49-66 | The same holds over any sequence of requests. |
| TodoLifecycle.StepKeepsCap | src/main/java/com/example/lesson2/todo/TodoServiceImpl.java:34-45 | No request takes the unfinished count above 5 if it started at most 5. |
| TodoLifecycle.RunKeepsCap | src/main/java/com/example/lesson2/todo/TodoServiceImpl.java:34-45 | The cap holds after any sequence of requests that starts within it. |
| TodoLifecycle.ReachableWithinCap | src/main/java/com/example/lesson2/todo/TodoServiceImpl.java:15-45 | Every table the service can reach from an empty one has at most 5 unfinished todos. |
| TodoApi.Violations | src/main/java/com/example/lesson2/todo/TodoResource.java:25-27 | A resource is valid exactly when its title is present with 1 to 30 characters. An absent or empty title breaks the non-empty rule. A title over 30 characters breaks the size rule. |
| TodoApi.EmptyTitleRejected | src/main/java/com/example/lesson2/todo/TodoResource.java:25 | An absent or empty title is rejected, and only for being empty. |
| TodoApi.ShortTitleAccepted | src/main/java/com/example/lesson2/todo/TodoResource.java:25-27 | A title of 1 to 30 characters is accepted. |
| TodoApi.LongTitleRejected | src/main/java/com/example/lesson2/todo/TodoResource.java:26-27 | A title longer than 30 characters is rejected, and only for its size. |
| TodoApi.OnlyTitleValidated | src/main/java/com/example/lesson2/todo/TodoResource.java:23-32 | Validation depends on the title alone. The key, the flag and the creation time are unconstrained. |

## Left out

- HTTP routing, status codes and JSON binding (`TodoController.java`): framework plumbing. Service errors are kept as two distinct kinds and are not mapped to status codes.
- The Dozer mapping between `Todo` and `TodoResource`: it is reflection-based and its library is not part of this model. As a result, validation is not chained to `create`.
- The SQL text and MyBatis behaviour. Each statement is modelled by what it is meant to do. The three `SELECT` statements are misspelled `SELCT` in `TodoRepository.java` lines 10, 13 and 26. As written, a SQL engine would reject them. The model gives them their evident meaning.
- `LocalDateTime.now()` and the `uuuu/MM/dd HH:mm:ss` format: timestamps are opaque values passed in by the caller.
- `@Transactional` and the check-then-act races between concurrent writers: the model is sequential, one request at a time.
- Exception message strings: only the error kind, the missing key and the broken rule are kept.
- TodoRepository.FindAll: the statement has no `ORDER BY`, so the row order is unspecified. The model fixes one allowed order, ascending keys, and its `ListsExactly` contract does not depend on order.
- TodoService.DeletedKeyNotReused: the key generator is assumed never to hand out a key twice, modelled as a counter that never goes down. The table's definition is not part of this model, and some databases can reuse a deleted key (MySQL InnoDB before 8.0 may reissue the highest deleted key after a restart). `Store.Valid` and `TodoLifecycle.Evolves` rest on the same assumption.
- TodoRepository.Create: keys are unbounded integers. The 64-bit `Long` key and its overflow are not modelled.
- TodoApi.Violations: lengths are counted in Unicode characters. Java's `String.length()` counts UTF-16 code units, so a title with characters outside the Basic Multilingual Plane has a different length there.
- A null title reaching the service or the repository is not modelled, because the controller validates the title before the service sees it.
