/** `TodoServiceImpl.java`: the business rules on top of the repository. Each
    operation takes the table and returns the table afterwards together with
    either its result or the exception it raises. */
module TodoService {
  import opened Wrappers
  import opened TodoEntity
  import opened TodoRepository

  /** The most unfinished todos the table may hold when `create` is called. */
  const MaxUnfinishedCount: nat := 5

  /** Which rule a `BusinessException` reports. */
  datatype BusinessRule = UnfinishedLimitReached | AlreadyFinished

  /** The exceptions the service raises: `ResourceNotFoundException` for a
      missing key and `BusinessException` for a broken rule. */
  datatype ServiceError = ResourceNotFound(todoId: int) | BusinessViolation(rule: BusinessRule)

  /** The table after an operation and what the operation returned or raised. */
  datatype Outcome<+T> = Outcome(store: Store, result: Result<T, ServiceError>)

  /** The cap the service maintains: at most `MaxUnfinishedCount` unfinished todos. */
  predicate WithinCap(s: Store) {
    CountByFinished(s, false) <= MaxUnfinishedCount
  }

  /** `findOne`: the stored todo, or `ResourceNotFound` carrying the key. */
  function FindOne(s: Store, id: int): (r: Result<Todo, ServiceError>)
    ensures r.Success? <==> id in s.rows
    ensures r.Success? ==> r.value.todoId == Some(id) && AsRow(r.value) == s.rows[id]
    ensures r.Failure? ==> r.error == ResourceNotFound(id)
  {
    match FindById(s, id)
    case Some(todo) => Success(todo)
    case None => Failure(ResourceNotFound(id))
  }

  /** `findAll`: the repository's listing, unchanged. */
  method FindAll(s: Store) returns (todos: seq<Todo>)
    requires s.Valid()
    ensures ListsExactly(s, todos)
    ensures |todos| == |s.rows|
  {
    todos := TodoRepository.FindAll(s);
  }

  /** `create`: refused once the cap is reached; otherwise the todo is stored
      unfinished, stamped with `now`, under a fresh key. Whatever key, flag or
      creation time the caller supplied is overridden. */
  function Create(s: Store, todo: Todo, now: Timestamp): (o: Outcome<Todo>)
    requires s.Valid()
    ensures o.store.Valid()
    ensures CountByFinished(s, false) >= MaxUnfinishedCount ==>
      o == Outcome(s, Failure(BusinessViolation(UnfinishedLimitReached)))
    ensures CountByFinished(s, false) < MaxUnfinishedCount ==>
      && o.result.Success?
      && o.result.value.todoId.Some?
      && o.result.value.todoId.value !in s.rows
      && o.result.value.todoTitle == todo.todoTitle
      && !o.result.value.finished
      && o.result.value.createdAt == Some(now)
      && o.store.rows == s.rows[o.result.value.todoId.value := Row(todo.todoTitle, false, Some(now))]
  {
    if CountByFinished(s, false) >= MaxUnfinishedCount then
      Outcome(s, Failure(BusinessViolation(UnfinishedLimitReached)))
    else
      var stamped := todo.(createdAt := Some(now), finished := false);
      var inserted := TodoRepository.Create(s, stamped);
      Outcome(inserted.store, Success(inserted.value))
  }

  /** `finish`: a missing key raises `ResourceNotFound`, a finished todo
      raises `AlreadyFinished`; otherwise the row's flag is set and the todo
      comes back finished. The update's row count is not consulted. */
  function Finish(s: Store, id: int): (o: Outcome<Todo>)
    ensures id !in s.rows ==> o == Outcome(s, Failure(ResourceNotFound(id)))
    ensures id in s.rows && s.rows[id].finished ==>
      o == Outcome(s, Failure(BusinessViolation(AlreadyFinished)))
    ensures id in s.rows && !s.rows[id].finished ==>
      && o.result.Success?
      && o.result.value == Todo(Some(id), s.rows[id].title, true, s.rows[id].createdAt)
      && o.store.rows.Keys == s.rows.Keys
      && o.store.rows[id] == Row(s.rows[id].title, true, s.rows[id].createdAt)
      && o.store.rows - {id} == s.rows - {id}
      && o.store.nextId == s.nextId
    ensures s.Valid() ==> o.store.Valid()
  {
    match FindOne(s, id)
    case Failure(e) => Outcome(s, Failure(e))
    case Success(todo) =>
      if todo.finished then
        Outcome(s, Failure(BusinessViolation(AlreadyFinished)))
      else
        var updated := UpdateById(s, id);
        Outcome(updated.store, Success(todo.(finished := true)))
  }

  /** `delete`: a missing key raises `ResourceNotFound` before anything is
      written; otherwise exactly that row goes. */
  function Delete(s: Store, id: int): (o: Outcome<()>)
    ensures id !in s.rows ==> o == Outcome(s, Failure(ResourceNotFound(id)))
    ensures id in s.rows ==>
      && o.result.Success?
      && o.store.rows == s.rows - {id}
      && o.store.nextId == s.nextId
    ensures s.Valid() ==> o.store.Valid()
  {
    match FindOne(s, id)
    case Failure(e) => Outcome(s, Failure(e))
    case Success(_) =>
      var deleted := DeleteById(s, id);
      Outcome(deleted.store, Success(()))
  }

  /** In `finish`, the update always matches exactly the one row it marks. */
  lemma FinishUpdatesOneRow(s: Store, id: int)
    requires Finish(s, id).result.Success?
    ensures UpdateById(s, id).value == 1
  {
  }

  /** A created todo reads back with the fields it was stored with. */
  lemma CreateThenFindOne(s: Store, todo: Todo, now: Timestamp)
    requires s.Valid()
    requires Create(s, todo, now).result.Success?
    ensures var o := Create(s, todo, now);
      FindOne(o.store, o.result.value.todoId.value) == Success(o.result.value)
  {
  }

  /** `finish` is one-way: once it succeeds, finishing the same todo again
      raises `AlreadyFinished` and changes nothing. */
  lemma FinishTwiceRejected(s: Store, id: int)
    requires Finish(s, id).result.Success?
    ensures var after := Finish(s, id).store;
      Finish(after, id) == Outcome(after, Failure(BusinessViolation(AlreadyFinished)))
  {
  }

  /** After a successful `delete`, the key is no longer found. */
  lemma DeleteThenFindOne(s: Store, id: int)
    requires Delete(s, id).result.Success?
    ensures FindOne(Delete(s, id).store, id) == Failure(ResourceNotFound(id))
  {
  }

  /** Keys are never reused: a todo created after a delete never gets the
      deleted todo's key. */
  lemma DeletedKeyNotReused(s: Store, id: int, todo: Todo, now: Timestamp)
    requires s.Valid()
    requires Delete(s, id).result.Success?
    ensures var o := Create(Delete(s, id).store, todo, now);
      o.result.Success? ==> o.result.value.todoId != Some(id)
  {
  }

  /** A successful `create` adds exactly one unfinished todo, so it keeps the
      cap only because it refuses at the cap. */
  lemma {:induction false} CreateKeepsCap(s: Store, todo: Todo, now: Timestamp)
    requires s.Valid() && WithinCap(s)
    ensures WithinCap(Create(s, todo, now).store)
    ensures Create(s, todo, now).result.Success? ==>
      CountByFinished(Create(s, todo, now).store, false) == CountByFinished(s, false) + 1
  {
    if CountByFinished(s, false) < MaxUnfinishedCount {
      CountAfterCreate(s, todo.(createdAt := Some(now), finished := false), false);
    }
  }

  /** A successful `finish` takes one todo off the unfinished count. */
  lemma {:induction false} FinishKeepsCap(s: Store, id: int)
    requires WithinCap(s)
    ensures WithinCap(Finish(s, id).store)
    ensures Finish(s, id).result.Success? ==>
      CountByFinished(Finish(s, id).store, false) == CountByFinished(s, false) - 1
  {
    if id in s.rows && !s.rows[id].finished {
      CountAfterUpdate(s, id, false);
    }
  }

  /** `delete` never raises the unfinished count. */
  lemma {:induction false} DeleteKeepsCap(s: Store, id: int)
    requires WithinCap(s)
    ensures WithinCap(Delete(s, id).store)
    ensures CountByFinished(Delete(s, id).store, false) <= CountByFinished(s, false)
  {
    if id in s.rows {
      CountAfterDelete(s, id, false);
    }
  }

  /** At the cap, `create` is refused; finishing any unfinished todo makes
      room, and the same `create` then succeeds. */
  lemma {:induction false} FinishMakesRoom(s: Store, id: int, todo: Todo, now: Timestamp)
    requires s.Valid()
    requires CountByFinished(s, false) == MaxUnfinishedCount
    requires id in s.rows && !s.rows[id].finished
    ensures Create(s, todo, now).result == Failure(BusinessViolation(UnfinishedLimitReached))
    ensures Finish(s, id).result.Success?
    ensures Create(Finish(s, id).store, todo, now).result.Success?
  {
    FinishKeepsCap(s, id);
  }
}
