/** The todo service: ownership guards and the todo lifecycle (create, scoped
    find, delete, update, list by member) over the in-memory tables of
    module Repositories. Each call runs as one transaction: it either fails
    before writing anything or performs its one write. */
module Service {
  import opened Domain
  import opened Repositories

  /** `checkMemberIsNotNull`: a null member is reported as MemberNotFound. */
  function CheckMemberIsNotNull(member: Option<MemberId>): (r: Outcome)
    ensures r.Pass? <==> member.Some?
    ensures r.Fail? ==> r.error == MemberNotFound
  {
    if member.None? then Fail(MemberNotFound) else Pass
  }

  /** `checkMemberHasCategoryId`: the category must be one of the member's own. */
  function CheckMemberHasCategoryId(categories: map<CategoryId, MemberId>, categoryId: CategoryId, member: MemberId)
    : (r: Outcome)
    ensures r.Pass? <==> categoryId in categories && categories[categoryId] == member
    ensures r.Fail? ==> r.error == CategoryNotFound
  {
    if OwnsCategory(categories, member, categoryId) then Pass else Fail(CategoryNotFound)
  }

  /** `checkTodoIsSafe`: the todo has a member, and its category, when it has
      one, belongs to that member. The member is checked first; without a
      category the category table is not consulted. */
  function CheckTodoIsSafe(categories: map<CategoryId, MemberId>, member: Option<MemberId>,
                           categoryId: Option<CategoryId>): (r: Outcome)
    ensures r.Pass? <==> member.Some? && (categoryId.Some? ==> OwnsCategory(categories, member.value, categoryId.value))
    ensures member.None? ==> r == Fail(MemberNotFound)
    ensures member.Some? && r.Fail? ==> r == Fail(CategoryNotFound)
    ensures categoryId.None? ==> r == CheckMemberIsNotNull(member)
  {
    var memberCheck := CheckMemberIsNotNull(member);
    if memberCheck.Fail? then memberCheck
    else if categoryId.None? then Pass
    else CheckMemberHasCategoryId(categories, categoryId.value, member.value)
  }

  class TodoService {
    /** The todo table, in repository order. */
    var todos: seq<Todo>
    /** The category table: each category id with the member that owns it. */
    var categories: map<CategoryId, MemberId>
    /** The id the todo table assigns to the next row it saves. */
    var nextId: TodoId

    /** The shape of the todo table: ids are unique and below nextId. */
    predicate Valid()
      reads this
    {
      IdsUnique(todos) && IdsBelow(todos, nextId)
    }

    /** A service over tables already holding rows. */
    constructor (todos: seq<Todo>, categories: map<CategoryId, MemberId>, nextId: TodoId)
      requires IdsUnique(todos) && IdsBelow(todos, nextId)
      ensures Valid()
      ensures this.todos == todos && this.categories == categories && this.nextId == nextId
    {
      this.todos := todos;
      this.categories := categories;
      this.nextId := nextId;
    }

    /** `saveTodo`: a request that passes the guard becomes a new row at the end
        of the table under a fresh id; one that fails it leaves the table as it
        was. Saving keeps the store-wide ownership invariant. */
    method SaveTodo(dto: TodoDto) returns (r: Result<TodoDto>)
      requires Valid()
      modifies this
      ensures Valid() && categories == old(categories)
      ensures r.Ok? <==> CheckTodoIsSafe(categories, dto.member, dto.categoryId).Pass?
      ensures r.Err? ==> Fail(r.error) == CheckTodoIsSafe(categories, dto.member, dto.categoryId)
      ensures r.Err? ==> todos == old(todos) && nextId == old(nextId)
      ensures r.Ok? ==>
                var saved := Todo(old(nextId), dto.member.value, dto.categoryId, dto.payload);
                && todos == old(todos) + [saved]
                && nextId == old(nextId) + 1
                && r.value == ToTodoDto(saved)
                && !HasId(old(todos), saved.todoId)
      ensures CategoriesOwned(old(todos), categories) ==> CategoriesOwned(todos, categories)
    {
      var check := CheckTodoIsSafe(categories, dto.member, dto.categoryId);
      if check.Fail? {
        return Err(check.error);
      }
      var todo := Todo(nextId, dto.member.value, dto.categoryId, dto.payload);
      todos := todos + [todo];
      nextId := nextId + 1;
      r := Ok(ToTodoDto(todo));
    }

    /** `findByTodoIdAndMember`: the row whose id and member both match;
        TodoNotFound exactly when there is none, whether the id is absent or
        owned by another member. */
    method FindByTodoIdAndMember(todoId: Option<TodoId>, member: Option<MemberId>) returns (r: Result<Todo>)
      ensures r.Ok? ==> r.value in todos && todoId == Some(r.value.todoId) && member == Some(r.value.member)
      ensures r.Err? <==> forall t :: t in todos ==> !Matches(t, todoId, member)
      ensures r.Err? ==> r.error == TodoNotFound
    {
      var found := Repositories.FindByTodoIdAndMember(todos, todoId, member);
      if found.None? {
        return Err(TodoNotFound);
      }
      r := Ok(found.value);
    }

    /** `findDtoByTodoIdAndMember`: the scoped lookup, as a reply. */
    method FindDtoByTodoIdAndMember(todoId: Option<TodoId>, member: Option<MemberId>) returns (r: Result<TodoDto>)
      ensures r.Ok? ==> r.value.todoId == todoId && r.value.member == member
      ensures r.Ok? ==> exists t :: t in todos && r.value == ToTodoDto(t)
      ensures r.Err? <==> forall t :: t in todos ==> !Matches(t, todoId, member)
      ensures r.Err? ==> r.error == TodoNotFound
    {
      var found := FindByTodoIdAndMember(todoId, member);
      if found.Err? {
        return Err(found.error);
      }
      r := Ok(ToTodoDto(found.value));
    }

    /** `deleteTodo`: after the member and id checks, the row is removed by its
        id alone, whichever member owns it. The repository's deleteById
        fails on an id that has no row. */
    method DeleteTodo(dto: TodoDto) returns (r: Outcome)
      requires Valid()
      modifies this
      ensures Valid() && categories == old(categories) && nextId == old(nextId)
      ensures dto.member.None? ==> r == Fail(MemberNotFound)
      ensures dto.member.Some? && dto.todoId.None? ==> r == Fail(TodoNotFound)
      ensures dto.member.Some? && dto.todoId.Some? ==>
                r == if HasId(old(todos), dto.todoId.value) then Pass else Fail(NoRowToDelete)
      ensures r.Fail? ==> todos == old(todos)
      ensures r.Pass? ==>
                && todos == DeleteById(old(todos), dto.todoId.value)
                && |todos| == |old(todos)| - 1
                && !HasId(todos, dto.todoId.value)
      ensures CategoriesOwned(old(todos), categories) ==> CategoriesOwned(todos, categories)
    {
      var memberCheck := CheckMemberIsNotNull(dto.member);
      if memberCheck.Fail? {
        return memberCheck;
      }
      if dto.todoId.None? {
        return Fail(TodoNotFound);
      }
      var todoId := dto.todoId.value;
      if !HasId(todos, todoId) {
        return Fail(NoRowToDelete);
      }
      DeleteByIdIdsUnique(todos, todoId);
      DeleteByIdRemovesOne(todos, todoId);
      todos := DeleteById(todos, todoId);
      r := Pass;
    }

    /** `updateTodo`: the row is looked up by (id, member); the guard is run
        on the row as stored, and only then are the request's category and
        payload written over it. The incoming category is never checked. */
    method UpdateTodo(dto: TodoDto) returns (r: Outcome)
      requires Valid()
      modifies this
      ensures Valid() && categories == old(categories) && nextId == old(nextId)
      ensures r.Fail? ==> todos == old(todos)
      ensures r.Fail? ==> r.error == TodoNotFound || r.error == CategoryNotFound
      ensures (forall t :: t in old(todos) ==> !Matches(t, dto.todoId, dto.member)) ==> r == Fail(TodoNotFound)
      ensures forall stored :: stored in old(todos) && Matches(stored, dto.todoId, dto.member) ==>
                && r == CheckTodoIsSafe(categories, Some(stored.member), stored.categoryId)
                && (r.Pass? ==> todos == ReplaceById(old(todos), UpdateAll(stored, dto)))
      ensures r.Pass? ==>
                && |todos| == |old(todos)|
                && forall i :: 0 <= i < |todos| ==>
                     && todos[i].todoId == old(todos)[i].todoId
                     && todos[i].member == old(todos)[i].member
                     && (dto.todoId == Some(todos[i].todoId) ==>
                           todos[i].categoryId == dto.categoryId && todos[i].payload == dto.payload)
                     && (dto.todoId != Some(todos[i].todoId) ==> todos[i] == old(todos)[i])
      ensures CategoriesOwned(old(todos), categories) ==> r != Fail(CategoryNotFound)
      ensures CategoriesOwned(old(todos), categories)
              && (dto.categoryId.Some? && dto.member.Some? ==> OwnsCategory(categories, dto.member.value, dto.categoryId.value))
              ==> CategoriesOwned(todos, categories)
    {
      var found := FindByTodoIdAndMember(dto.todoId, dto.member);
      if found.Err? {
        return Fail(found.error);
      }
      var todo := found.value;
      forall stored | stored in todos && Matches(stored, dto.todoId, dto.member) ensures stored == todo {
        FindByTodoIdAndMemberFindsRow(todos, stored);
        FindByTodoIdAndMemberFindsRow(todos, todo);
      }
      var check := CheckTodoIsSafe(categories, Some(todo.member), todo.categoryId);
      if check.Fail? {
        return check;
      }
      todos := ReplaceById(todos, UpdateAll(todo, dto));
      r := Pass;
    }

    /** `findAllByMember`: one search entry per row of the member, in table
        order; a member with no rows gets an empty list. */
    method FindAllByMember(member: Option<MemberId>) returns (r: Result<seq<SearchTodoDto>>)
      requires Valid()
      ensures r.Err? <==> member.None?
      ensures r.Err? ==> r.error == MemberNotFound
      ensures r.Ok? ==>
                var rows := Repositories.FindAllByMember(todos, member.value);
                && |r.value| == |rows|
                && forall k :: 0 <= k < |rows| ==> r.value[k] == ToSearchTodoDto(rows[k])
      ensures r.Ok? ==> forall t :: t in todos && t.member == member.value ==> ToSearchTodoDto(t) in r.value
      ensures r.Ok? ==> forall e :: e in r.value ==> exists t :: t in todos && t.member == member.value && e == ToSearchTodoDto(t)
      ensures r.Ok? ==> forall i, j :: 0 <= i < j < |r.value| ==> r.value[i].todoId != r.value[j].todoId
    {
      var memberCheck := CheckMemberIsNotNull(member);
      if memberCheck.Fail? {
        return Err(memberCheck.error);
      }
      var rows := Repositories.FindAllByMember(todos, member.value);
      FindAllByMemberIdsUnique(todos, member.value);
      var entries: seq<SearchTodoDto> := [];
      for i := 0 to |rows|
        invariant |entries| == i
        invariant forall k :: 0 <= k < i ==> entries[k] == ToSearchTodoDto(rows[k])
      {
        entries := entries + [ToSearchTodoDto(rows[i])];
      }
      forall t | t in todos && t.member == member.value ensures ToSearchTodoDto(t) in entries {
        var k :| 0 <= k < |rows| && rows[k] == t;
        assert entries[k] == ToSearchTodoDto(t);
      }
      r := Ok(entries);
    }
  }
}
