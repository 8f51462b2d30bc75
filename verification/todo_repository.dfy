/** The six statements of `TodoRepository.java`, each modelled as a pure
    operation on table `todo`, which is a map from `todo_id` to the remaining
    columns together with the table's auto-increment counter. */
module TodoRepository {
  import opened Wrappers
  import opened TodoEntity

  /** The columns of one row of table `todo` other than its key `todo_id`. */
  datatype Row = Row(title: string, finished: bool, createdAt: Option<Timestamp>)

  /** Table `todo`. `nextId` is the key the auto-increment column hands to the
      next insert. The model assumes the key generator never goes back, so a
      key is never handed out twice, not even after its row is deleted. */
  datatype Store = Store(rows: map<int, Row>, nextId: int) {

    /** Every key is positive and was handed out before `nextId`. */
    predicate Valid() {
      && 1 <= nextId
      && forall id :: id in rows ==> 1 <= id < nextId
    }
  }

  /** The empty table, before any insert. */
  const Empty: Store := Store(map[], 1)

  /** What a statement leaves behind: the table afterwards and the statement's
      return value. */
  datatype Executed<+T> = Executed(store: Store, value: T)

  /** The entity the result mapping builds from row `id`. */
  function AsTodo(id: int, row: Row): Todo {
    Todo(Some(id), row.title, row.finished, row.createdAt)
  }

  /** The columns an insert writes from an entity. */
  function AsRow(todo: Todo): Row {
    Row(todo.todoTitle, todo.finished, todo.createdAt)
  }

  /** `todo` is the entity built from one of the rows of `s`. */
  ghost predicate IsRowOf(s: Store, todo: Todo) {
    todo.todoId.Some? && todo.todoId.value in s.rows
    && todo == AsTodo(todo.todoId.value, s.rows[todo.todoId.value])
  }

  /** `todos` holds the rows of `s` whose keys are `ids`, each exactly once. */
  ghost predicate ListsKeys(s: Store, todos: seq<Todo>, ids: set<int>) {
    && (forall i :: 0 <= i < |todos| ==> IsRowOf(s, todos[i]) && todos[i].todoId.value in ids)
    && (forall id :: id in ids ==> exists i :: 0 <= i < |todos| && todos[i].todoId == Some(id))
    && (forall i, j :: 0 <= i < j < |todos| ==> todos[i].todoId != todos[j].todoId)
  }

  /** `todos` holds every row of `s` exactly once, in no particular order. */
  ghost predicate ListsExactly(s: Store, todos: seq<Todo>) {
    ListsKeys(s, todos, s.rows.Keys)
  }

  /** `SELECT ... WHERE todo_id = #{todoId}`: the matching row, or absent. */
  function FindById(s: Store, id: int): (r: Option<Todo>)
    ensures r.Some? <==> id in s.rows
    ensures r.Some? ==> r.value.todoId == Some(id) && AsRow(r.value) == s.rows[id]
  {
    if id in s.rows then Some(AsTodo(id, s.rows[id])) else None
  }

  /** The key an entity carries, 0 for one that has none yet. */
  function KeyOf(todo: Todo): int {
    if todo.todoId.Some? then todo.todoId.value else 0
  }

  /** Entity keys strictly increase along `todos`. */
  ghost predicate Ascending(todos: seq<Todo>) {
    forall i, j :: 0 <= i < j < |todos| ==> KeyOf(todos[i]) < KeyOf(todos[j])
  }

  /** The keys of `rows` below `bound`. */
  function KeysBelow(rows: map<int, Row>, bound: int): (ids: set<int>)
    ensures ids <= rows.Keys
  {
    set k | k in rows && k < bound
  }

  /** `todos` is the ascending listing of the rows of `s` with keys below
      `bound`. */
  ghost predicate ListedBelow(s: Store, todos: seq<Todo>, bound: int) {
    && ListsKeys(s, todos, KeysBelow(s.rows, bound))
    && |todos| == |KeysBelow(s.rows, bound)|
    && (forall i :: 0 <= i < |todos| ==> KeyOf(todos[i]) < bound)
    && Ascending(todos)
  }

  /** `SELECT ... FROM todo`: every row exactly once. The statement has no
      `ORDER BY`; the model returns the rows in ascending key order, which is
      one of the orders the table may choose. */
  method FindAll(s: Store) returns (todos: seq<Todo>)
    requires s.Valid()
    ensures ListsExactly(s, todos)
    ensures |todos| == |s.rows|
    ensures Ascending(todos)
  {
    todos := [];
    var id := 1;
    while id < s.nextId
      invariant 1 <= id <= s.nextId
      invariant ListedBelow(s, todos, id)
    {
      ListedBelowNext(s, todos, id);
      if id in s.rows {
        todos := todos + [AsTodo(id, s.rows[id])];
      }
      id := id + 1;
    }
    assert KeysBelow(s.rows, id) == s.rows.Keys;
  }

  /** Scanning key `bound` extends the listing by that row, if it exists. */
  lemma ListedBelowNext(s: Store, todos: seq<Todo>, bound: int)
    requires ListedBelow(s, todos, bound)
    ensures ListedBelow(s, if bound in s.rows then todos + [AsTodo(bound, s.rows[bound])] else todos, bound + 1)
  {
    var below := KeysBelow(s.rows, bound);
    if bound in s.rows {
      ListedBelowAppend(s, todos, bound);
    } else {
      assert KeysBelow(s.rows, bound + 1) == below;
    }
  }

  lemma ListedBelowAppend(s: Store, todos: seq<Todo>, bound: int)
    requires ListedBelow(s, todos, bound)
    requires bound in s.rows
    ensures ListedBelow(s, todos + [AsTodo(bound, s.rows[bound])], bound + 1)
  {
    var below := KeysBelow(s.rows, bound);
    var todos' := todos + [AsTodo(bound, s.rows[bound])];
    assert KeysBelow(s.rows, bound + 1) == below + {bound};
    assert bound !in below;
    ListsKeysAppend(s, todos, below, bound);
    assert forall i :: 0 <= i < |todos| ==> todos'[i] == todos[i];
    assert KeyOf(todos'[|todos|]) == bound;
  }

  /** Listing one more row keeps the listing exact. */
  lemma ListsKeysAppend(s: Store, todos: seq<Todo>, ids: set<int>, id: int)
    requires ListsKeys(s, todos, ids)
    requires id in s.rows && id !in ids
    ensures ListsKeys(s, todos + [AsTodo(id, s.rows[id])], ids + {id})
  {
    var todos' := todos + [AsTodo(id, s.rows[id])];
    forall k | k in ids + {id}
      ensures exists i :: 0 <= i < |todos'| && todos'[i].todoId == Some(k)
    {
      if k == id {
        assert todos'[|todos|].todoId == Some(k);
      } else {
        var i :| 0 <= i < |todos| && todos[i].todoId == Some(k);
        assert todos'[i] == todos[i];
      }
    }
  }

  /** `INSERT INTO todo(todo_title, finished, created_at)` with a generated
      key: the row is written exactly as the entity says, and the entity comes
      back carrying the key it was given. */
  function Create(s: Store, todo: Todo): (r: Executed<Todo>)
    requires s.Valid()
    ensures r.store.Valid()
    ensures r.value.todoId.Some? && r.value.todoId.value !in s.rows
    ensures r.value == todo.(todoId := r.value.todoId)
    ensures r.store.rows == s.rows[r.value.todoId.value := AsRow(todo)]
    ensures s.nextId < r.store.nextId
  {
    var id := s.nextId;
    Executed(Store(s.rows[id := AsRow(todo)], id + 1), todo.(todoId := Some(id)))
  }

  /** `UPDATE todo SET finished = true WHERE todo_id = #{todoId}`: returns the
      number of rows it matched. The flag is set whatever it was before. */
  function UpdateById(s: Store, id: int): (r: Executed<nat>)
    ensures r.value == 1 <==> id in s.rows
    ensures r.value == 0 <==> id !in s.rows
    ensures r.store.rows.Keys == s.rows.Keys
    ensures id in s.rows ==>
      && r.store.rows[id].finished
      && r.store.rows[id].title == s.rows[id].title
      && r.store.rows[id].createdAt == s.rows[id].createdAt
    ensures r.store.rows - {id} == s.rows - {id}
    ensures r.store.nextId == s.nextId
    ensures s.Valid() ==> r.store.Valid()
  {
    if id in s.rows then
      Executed(Store(s.rows[id := s.rows[id].(finished := true)], s.nextId), 1)
    else
      Executed(s, 0)
  }

  /** `DELETE FROM todo WHERE todo_id = #{todoId}`: returns the number of rows
      removed. */
  function DeleteById(s: Store, id: int): (r: Executed<nat>)
    ensures r.value == 1 <==> id in s.rows
    ensures r.value == 0 <==> id !in s.rows
    ensures id !in r.store.rows
    ensures r.store.rows - {id} == s.rows - {id}
    ensures |r.store.rows| == |s.rows| - r.value
    ensures r.store.nextId == s.nextId
    ensures s.Valid() ==> r.store.Valid()
  {
    if id in s.rows then
      Executed(Store(s.rows - {id}, s.nextId), 1)
    else
      Executed(s, 0)
  }

  /** The keys of the rows whose flag is `finished`. */
  function WithFlag(rows: map<int, Row>, finished: bool): (ids: set<int>)
    ensures ids <= rows.Keys
    ensures forall id :: id in rows ==> (id in ids <==> rows[id].finished == finished)
  {
    set id | id in rows && rows[id].finished == finished
  }

  /** `SELECT count(*) FROM todo WHERE finished = #{finished}`. */
  function CountByFinished(s: Store, finished: bool): (n: nat)
    ensures n <= |s.rows|
  {
    SubsetCardinality(WithFlag(s.rows, finished), s.rows.Keys);
    |WithFlag(s.rows, finished)|
  }

  lemma SubsetCardinality(a: set<int>, b: set<int>)
    requires a <= b
    ensures |a| <= |b|
  {
    assert b == a + (b - a);
  }

  /** Every row is counted under exactly one of the two flags. */
  lemma {:induction false} CountPartition(s: Store)
    ensures CountByFinished(s, false) + CountByFinished(s, true) == |s.rows|
  {
    var unfinished, done := WithFlag(s.rows, false), WithFlag(s.rows, true);
    assert unfinished + done == s.rows.Keys;
    assert unfinished * done == {};
  }

  /** Writing row `row` under key `id` replaces whatever `id` contributed to
      the count of `finished` with what `row` contributes. */
  lemma WithFlagUpdate(rows: map<int, Row>, id: int, row: Row, finished: bool)
    ensures WithFlag(rows[id := row], finished)
         == (WithFlag(rows, finished) - {id}) + (if row.finished == finished then {id} else {})
  {
  }

  /** Removing key `id` removes it from the count it was in. */
  lemma WithFlagRemove(rows: map<int, Row>, id: int, finished: bool)
    ensures WithFlag(rows - {id}, finished) == WithFlag(rows, finished) - {id}
  {
  }

  /** An insert adds one to the count of the flag it writes and leaves the
      other count alone. */
  lemma CountAfterCreate(s: Store, todo: Todo, finished: bool)
    requires s.Valid()
    ensures CountByFinished(Create(s, todo).store, finished)
         == CountByFinished(s, finished) + (if todo.finished == finished then 1 else 0)
  {
    var id := s.nextId;
    assert id !in WithFlag(s.rows, finished);
    WithFlagUpdate(s.rows, id, AsRow(todo), finished);
    assert WithFlag(s.rows, finished) - {id} == WithFlag(s.rows, finished);
  }

  /** Marking an unfinished row finished moves it from one count to the
      other; marking any other key changes neither count. */
  lemma CountAfterUpdate(s: Store, id: int, finished: bool)
    ensures var moved := id in s.rows && !s.rows[id].finished;
      CountByFinished(UpdateById(s, id).store, finished)
        == CountByFinished(s, finished)
           + (if moved && finished then 1 else 0)
           - (if moved && !finished then 1 else 0)
  {
    if id in s.rows {
      var before := WithFlag(s.rows, finished);
      WithFlagUpdate(s.rows, id, s.rows[id].(finished := true), finished);
      if !s.rows[id].finished && finished {
        assert before - {id} == before;
      } else if !s.rows[id].finished {
        assert (before - {id}) + {id} == before;
      } else if finished {
        assert (before - {id}) + {id} == before;
      } else {
        assert before - {id} == before;
      }
    }
  }

  /** A delete takes its row out of the count of that row's flag. */
  lemma CountAfterDelete(s: Store, id: int, finished: bool)
    ensures CountByFinished(DeleteById(s, id).store, finished)
         == CountByFinished(s, finished)
            - (if id in s.rows && s.rows[id].finished == finished then 1 else 0)
  {
    if id in s.rows {
      var before := WithFlag(s.rows, finished);
      WithFlagRemove(s.rows, id, finished);
      if s.rows[id].finished == finished {
        assert (before - {id}) + {id} == before;
      } else {
        assert before - {id} == before;
      }
    }
  }

  /** Reading a freshly inserted row back gives the inserted entity. */
  lemma CreateThenFindById(s: Store, todo: Todo)
    requires s.Valid()
    ensures var r := Create(s, todo);
      FindById(r.store, r.value.todoId.value) == Some(r.value)
  {
  }

  /** `FindById` and `FindAll` agree: an entity is found by its key exactly
      when it is listed. */
  lemma FindByIdAgreesWithListing(s: Store, todos: seq<Todo>, id: int)
    requires ListsExactly(s, todos)
    ensures FindById(s, id).Some? <==> exists i :: 0 <= i < |todos| && todos[i].todoId == Some(id)
    ensures forall i :: 0 <= i < |todos| && todos[i].todoId == Some(id) ==> FindById(s, id) == Some(todos[i])
  {
  }
}
