/** The service as a state machine: a request applies one service operation
    to the table. Over any sequence of requests the table stays well formed,
    the unfinished cap holds, and each todo only ever moves forward: its title
    and creation time never change, a finished todo never becomes unfinished
    again, and a deleted key never comes back. */
module TodoLifecycle {
  import opened Wrappers
  import opened TodoEntity
  import opened TodoRepository
  import opened TodoService

  /** One call into the service. `now` is the clock reading `create` uses. */
  datatype Request =
    | FindOneRequest(id: int)
    | FindAllRequest
    | CreateRequest(todo: Todo, now: Timestamp)
    | FinishRequest(id: int)
    | DeleteRequest(id: int)

  /** The table after serving one request. Reads leave it as it is. */
  function Step(s: Store, request: Request): (s': Store)
    requires s.Valid()
    ensures s'.Valid()
    ensures s.nextId <= s'.nextId
  {
    match request
    case FindOneRequest(_) => s
    case FindAllRequest => s
    case CreateRequest(todo, now) => TodoService.Create(s, todo, now).store
    case FinishRequest(id) => Finish(s, id).store
    case DeleteRequest(id) => Delete(s, id).store
  }

  /** The table after serving `requests` in order. */
  function Run(s: Store, requests: seq<Request>): (s': Store)
    requires s.Valid()
    ensures s'.Valid()
    ensures s.nextId <= s'.nextId
    decreases |requests|
  {
    if requests == [] then s else Run(Step(s, requests[0]), requests[1..])
  }

  /** A row may only move forward: same title and creation time, and a
      finished flag stays set. */
  predicate RowEvolves(before: Row, after: Row) {
    && after.title == before.title
    && after.createdAt == before.createdAt
    && (before.finished ==> after.finished)
  }

  /** Every key already handed out in `s` that is still present in `s'` was
      present in `s` and its row only moved forward. So a deleted key stays
      deleted: under the assumption that the key generator never goes back
      (see `Store`), no key is reused. */
  ghost predicate Evolves(s: Store, s': Store) {
    && s.nextId <= s'.nextId
    && forall id :: id in s'.rows && id < s.nextId ==>
         id in s.rows && RowEvolves(s.rows[id], s'.rows[id])
  }

  lemma EvolvesTransitive(s0: Store, s1: Store, s2: Store)
    requires Evolves(s0, s1) && Evolves(s1, s2)
    ensures Evolves(s0, s2)
  {
  }

  /** No single request moves a todo backwards. */
  lemma StepEvolves(s: Store, request: Request)
    requires s.Valid()
    ensures Evolves(s, Step(s, request))
  {
  }

  /** No sequence of requests moves a todo backwards. */
  lemma {:induction false} RunEvolves(s: Store, requests: seq<Request>)
    requires s.Valid()
    ensures Evolves(s, Run(s, requests))
    decreases |requests|
  {
    if requests != [] {
      var next := Step(s, requests[0]);
      StepEvolves(s, requests[0]);
      RunEvolves(next, requests[1..]);
      EvolvesTransitive(s, next, Run(next, requests[1..]));
    }
  }

  /** No single request breaks the unfinished cap. */
  lemma {:induction false} StepKeepsCap(s: Store, request: Request)
    requires s.Valid() && WithinCap(s)
    ensures WithinCap(Step(s, request))
  {
    match request
    case FindOneRequest(_) =>
    case FindAllRequest =>
    case CreateRequest(todo, now) => CreateKeepsCap(s, todo, now);
    case FinishRequest(id) => FinishKeepsCap(s, id);
    case DeleteRequest(id) => DeleteKeepsCap(s, id);
  }

  /** Starting within the cap, the table stays within the cap whatever
      requests are served. */
  lemma {:induction false} RunKeepsCap(s: Store, requests: seq<Request>)
    requires s.Valid() && WithinCap(s)
    ensures WithinCap(Run(s, requests))
    decreases |requests|
  {
    if requests != [] {
      StepKeepsCap(s, requests[0]);
      RunKeepsCap(Step(s, requests[0]), requests[1..]);
    }
  }

  /** The empty table is within the cap, so every table the service can
      reach from it is too. */
  lemma {:induction false} ReachableWithinCap(requests: seq<Request>)
    ensures WithinCap(Run(Empty, requests))
  {
    assert WithFlag(Empty.rows, false) == {};
    RunKeepsCap(Empty, requests);
  }
}
