/** The persisted entity of `Todo.java`. */
module TodoEntity {
  import opened Wrappers

  /** An instant in time. The model never inspects it: creation instants are
      supplied from outside and only compared for equality. */
  type Timestamp(==)

  /** A todo as the service and the repository exchange it. `todoId` and
      `createdAt` are boxed in the source and may be null: a todo handed to
      `create` carries neither, a todo read back from the table carries both. */
  datatype Todo = Todo(
    todoId: Option<int>,
    todoTitle: string,
    finished: bool,
    createdAt: Option<Timestamp>
  )
}
