/** Values exchanged by the todo service: the stored Todo entity, the TodoDto
    that carries requests and replies, the SearchTodoDto list entry, and the
    failures the service raises as NoSuchElementException. */
module Domain {

  type MemberId = nat
  type TodoId = nat
  type CategoryId = nat

  /** A Java reference that may be null. */
  datatype Option<+T> = None | Some(value: T)

  /** The failures of the service, one per message constant it throws with. */
  datatype Error =
    | MemberNotFound     // NOT_FOUND_MEMBER_MSG
    | CategoryNotFound   // NOT_FOUND_CATEGORY_MSG
    | TodoNotFound       // TODO_NOT_FOUND_MSG
    | NoRowToDelete      // the repository's deleteById on an id with no row

  /** Outcome of a service call that returns nothing (Java `void`). */
  datatype Outcome = Pass | Fail(error: Error)

  /** Outcome of a service call that returns a value. */
  datatype Result<+T> = Ok(value: T) | Err(error: Error)

  /** The fields of a todo that `Todo.updateAll` overwrites besides its category. */
  datatype Payload = Payload(title: string, year: int, month: int, day: int, done: bool)

  /** A persisted todo row: it always has an id and an owning member. */
  datatype Todo = Todo(todoId: TodoId, member: MemberId, categoryId: Option<CategoryId>, payload: Payload)

  /** A request or reply; every reference in it may be null. */
  datatype TodoDto = TodoDto(todoId: Option<TodoId>, member: Option<MemberId>,
                             categoryId: Option<CategoryId>, payload: Payload)

  /** The light entry returned for client-side search. */
  datatype SearchTodoDto = SearchTodoDto(todoId: TodoId, title: string, year: int, month: int, day: int,
                                         categoryId: Option<CategoryId>)

  /** `TodoDto.toTodoDto(todo)`: the reply carrying a stored todo. */
  function ToTodoDto(todo: Todo): TodoDto {
    TodoDto(Some(todo.todoId), Some(todo.member), todo.categoryId, todo.payload)
  }

  /** `SearchTodoDto.toSearchTodoDto(todo)`. */
  function ToSearchTodoDto(todo: Todo): SearchTodoDto {
    SearchTodoDto(todo.todoId, todo.payload.title, todo.payload.year, todo.payload.month,
                  todo.payload.day, todo.categoryId)
  }

  /** `todo.updateAll(todoDto)`: the category and the payload come from the
      request; the id and the owning member stay those of the stored row. */
  function UpdateAll(todo: Todo, dto: TodoDto): Todo {
    Todo(todo.todoId, todo.member, dto.categoryId, dto.payload)
  }
}
