/** Client runs of the todo service: each starts a service over an arbitrary
    well-formed table, makes a few calls, and states what the caller sees. */
module Scenarios {
  import opened Domain
  import opened Repositories
  import opened Service

  /** A member cannot file a todo under another member's category: the
      request fails with CategoryNotFound and nothing is stored, while the
      owner's identical request is saved with that category. */
  method ForeignCategoryIsRefused(rows: seq<Todo>, categories: map<CategoryId, MemberId>, nextId: TodoId,
                                  owner: MemberId, other: MemberId, category: CategoryId, payload: Payload)
    returns (byOther: Result<TodoDto>, byOwner: Result<TodoDto>, storedByOther: bool)
    requires IdsUnique(rows) && IdsBelow(rows, nextId)
    requires owner != other && category in categories && categories[category] == owner
    ensures byOther == Err(CategoryNotFound) && !storedByOther
    ensures byOwner.Ok? && byOwner.value.categoryId == Some(category) && byOwner.value.member == Some(owner)
  {
    var service := new TodoService(rows, categories, nextId);
    byOther := service.SaveTodo(TodoDto(None, Some(other), Some(category), payload));
    storedByOther := service.todos != rows;
    byOwner := service.SaveTodo(TodoDto(None, Some(owner), Some(category), payload));
  }

  /** Without a category the category table is not consulted: a todo with a
      member is always saved, even when the category table is empty. */
  method NoCategoryNeedsOnlyMember(rows: seq<Todo>, nextId: TodoId, member: MemberId, payload: Payload)
    returns (saved: Result<TodoDto>)
    requires IdsUnique(rows) && IdsBelow(rows, nextId)
    ensures saved.Ok? && saved.value.categoryId == None && saved.value.todoId == Some(nextId)
  {
    var service := new TodoService(rows, map[], nextId);
    saved := service.SaveTodo(TodoDto(None, Some(member), None, payload));
  }

  /** A member with no todos gets an empty list; after creating one todo the
      list holds exactly one entry, carrying that todo's date. */
  method CreateThenList(rows: seq<Todo>, categories: map<CategoryId, MemberId>, nextId: TodoId,
                        member: MemberId, payload: Payload)
    returns (before: Result<seq<SearchTodoDto>>, after: Result<seq<SearchTodoDto>>)
    requires IdsUnique(rows) && IdsBelow(rows, nextId)
    requires forall t :: t in rows ==> t.member != member
    ensures before == Ok([])
    ensures after.Ok? && |after.value| == 1
    ensures after.value[0].year == payload.year && after.value[0].month == payload.month
            && after.value[0].day == payload.day && after.value[0].todoId == nextId
  {
    var service := new TodoService(rows, categories, nextId);
    FindAllByMemberEmpty(rows, member);
    before := service.FindAllByMember(Some(member));
    var saved := service.SaveTodo(TodoDto(None, Some(member), None, payload));
    FindAllByMemberAppend(rows, Todo(nextId, member, None, payload), member);
    after := service.FindAllByMember(Some(member));
  }

  /** A null member makes saveTodo, deleteTodo and findAllByMember fail with
      MemberNotFound, and the tables are left as they were. */
  method NullMemberFails(rows: seq<Todo>, categories: map<CategoryId, MemberId>, nextId: TodoId, dto: TodoDto)
    returns (saved: Result<TodoDto>, deleted: Outcome, listed: Result<seq<SearchTodoDto>>, untouched: bool)
    requires IdsUnique(rows) && IdsBelow(rows, nextId)
    requires dto.member.None?
    ensures saved == Err(MemberNotFound) && deleted == Fail(MemberNotFound) && listed == Err(MemberNotFound)
    ensures untouched
  {
    var service := new TodoService(rows, categories, nextId);
    saved := service.SaveTodo(dto);
    deleted := service.DeleteTodo(dto);
    listed := service.FindAllByMember(dto.member);
    untouched := service.todos == rows && service.categories == categories && service.nextId == nextId;
  }

  /** Reads and updates are scoped by member: another member's todo is
      reported missing and is not changed. */
  method OtherMembersTodoIsHidden(rows: seq<Todo>, categories: map<CategoryId, MemberId>, nextId: TodoId,
                                  todo: Todo, other: MemberId, request: TodoDto)
    returns (found: Result<TodoDto>, updated: Outcome, untouched: bool)
    requires IdsUnique(rows) && IdsBelow(rows, nextId)
    requires todo in rows && other != todo.member
    requires request.todoId == Some(todo.todoId) && request.member == Some(other)
    ensures found == Err(TodoNotFound) && updated == Fail(TodoNotFound)
    ensures untouched
  {
    var service := new TodoService(rows, categories, nextId);
    found := service.FindDtoByTodoIdAndMember(Some(todo.todoId), Some(other));
    updated := service.UpdateTodo(request);
    untouched := service.todos == rows;
  }

  /** After a todo is deleted, looking it up by its id and member fails. */
  method DeleteThenFind(rows: seq<Todo>, categories: map<CategoryId, MemberId>, nextId: TodoId,
                        todo: Todo)
    returns (deleted: Outcome, found: Result<TodoDto>)
    requires IdsUnique(rows) && IdsBelow(rows, nextId)
    requires todo in rows
    ensures deleted == Pass && found == Err(TodoNotFound)
  {
    var service := new TodoService(rows, categories, nextId);
    deleted := service.DeleteTodo(TodoDto(Some(todo.todoId), Some(todo.member), None, todo.payload));
    found := service.FindDtoByTodoIdAndMember(Some(todo.todoId), Some(todo.member));
  }

  /** Deletion is not scoped by member: any non-null member deletes any
      member's todo by naming its id, and the owner no longer finds it. */
  method AnyMemberDeletes(rows: seq<Todo>, categories: map<CategoryId, MemberId>, nextId: TodoId,
                          todo: Todo, other: MemberId)
    returns (deleted: Outcome, foundByOwner: Result<TodoDto>, remaining: nat)
    requires IdsUnique(rows) && IdsBelow(rows, nextId)
    requires todo in rows && other != todo.member
    ensures deleted == Pass && foundByOwner == Err(TodoNotFound)
    ensures remaining == |rows| - 1
  {
    var service := new TodoService(rows, categories, nextId);
    deleted := service.DeleteTodo(TodoDto(Some(todo.todoId), Some(other), None, todo.payload));
    foundByOwner := service.FindDtoByTodoIdAndMember(Some(todo.todoId), Some(todo.member));
    remaining := |service.todos|;
  }

  /** updateTodo checks the category the todo already has, not the one in
      the request: a member can move a todo into another member's category,
      and the store-wide ownership invariant no longer holds afterwards. */
  method UpdateIntoForeignCategory(rows: seq<Todo>, categories: map<CategoryId, MemberId>, nextId: TodoId,
                                   todo: Todo, category: CategoryId, payload: Payload)
    returns (updated: Outcome, ownedBefore: bool, ownedAfter: bool)
    requires IdsUnique(rows) && IdsBelow(rows, nextId)
    requires CategoriesOwned(rows, categories)
    requires todo in rows
    requires category in categories && categories[category] != todo.member
    ensures updated == Pass && ownedBefore && !ownedAfter
  {
    var service := new TodoService(rows, categories, nextId);
    ownedBefore := CategoriesOwned(service.todos, service.categories);
    updated := service.UpdateTodo(TodoDto(Some(todo.todoId), Some(todo.member), Some(category), payload));
    var k :| 0 <= k < |rows| && rows[k] == todo;
    assert service.todos[k] == Todo(todo.todoId, todo.member, Some(category), payload);
    assert service.todos[k] in service.todos;
    ownedAfter := CategoriesOwned(service.todos, service.categories);
  }
}
