/** `TodoResource.java`: the wire form of a todo and the Bean Validation
    constraints on it. Only the title is constrained. */
module TodoApi {
  import opened Wrappers
  import opened TodoEntity

  /** The longest title `@Size(max = 30)` admits. */
  const MaxTitleLength: nat := 30

  /** A todo as a client sends or receives it. Every field may be absent. */
  datatype TodoResource = TodoResource(
    todoId: Option<int>,
    todoTitle: Option<string>,
    finished: bool,
    createdAt: Option<Timestamp>
  )

  /** The constraint a rejected title breaks. */
  datatype Violation = TitleEmpty | TitleTooLong

  /** `@NotEmpty`: a value is present and has at least one character. */
  predicate NotEmpty(value: Option<string>) {
    value.Some? && |value.value| > 0
  }

  /** `@Size(max)`: an absent value passes; a present one has at most `max`
      characters. */
  predicate SizeAtMost(value: Option<string>, max: nat) {
    value.None? || |value.value| <= max
  }

  /** Every constraint on `resource` that its field values break; validation
      checks all of them and reports each broken one. */
  function Violations(resource: TodoResource): (v: set<Violation>)
    ensures v <= {TitleEmpty, TitleTooLong}
    ensures v == {} <==>
      resource.todoTitle.Some? && 1 <= |resource.todoTitle.value| <= MaxTitleLength
    ensures TitleEmpty in v <==> resource.todoTitle.None? || resource.todoTitle.value == []
    ensures TitleTooLong in v <==>
      resource.todoTitle.Some? && |resource.todoTitle.value| > MaxTitleLength
  {
    (if NotEmpty(resource.todoTitle) then {} else {TitleEmpty})
    + (if SizeAtMost(resource.todoTitle, MaxTitleLength) then {} else {TitleTooLong})
  }

  /** A resource the API accepts. */
  predicate IsValid(resource: TodoResource) {
    Violations(resource) == {}
  }

  /** An absent or empty title is rejected, for `@NotEmpty` alone. */
  lemma EmptyTitleRejected(resource: TodoResource)
    requires resource.todoTitle == None || resource.todoTitle == Some([])
    ensures Violations(resource) == {TitleEmpty}
    ensures !IsValid(resource)
  {
  }

  /** A title of 1 to 30 characters is accepted. */
  lemma ShortTitleAccepted(resource: TodoResource)
    requires resource.todoTitle.Some? && 1 <= |resource.todoTitle.value| <= MaxTitleLength
    ensures IsValid(resource)
  {
  }

  /** A title of more than 30 characters is rejected, for `@Size` alone. */
  lemma LongTitleRejected(resource: TodoResource)
    requires resource.todoTitle.Some? && |resource.todoTitle.value| > MaxTitleLength
    ensures Violations(resource) == {TitleTooLong}
    ensures !IsValid(resource)
  {
  }

  /** Validation reads only the title: the key, the flag and the creation
      time are unconstrained. */
  lemma OnlyTitleValidated(a: TodoResource, b: TodoResource)
    requires a.todoTitle == b.todoTitle
    ensures Violations(a) == Violations(b)
    ensures IsValid(a) <==> IsValid(b)
  {
  }
}
