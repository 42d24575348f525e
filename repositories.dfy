/** In-memory stand-ins for the two Spring Data repositories the todo service
    uses. The todo table is a sequence of rows in repository order; the
    category table maps a category id to the member that owns it. Each query
    the service issues is a function here, with what it finds stated in its
    contract. */
module Repositories {
  import opened Domain

  /** No two rows of the todo table share an id. */
  predicate IdsUnique(rows: seq<Todo>) {
    forall i, j :: 0 <= i < j < |rows| ==> rows[i].todoId != rows[j].todoId
  }

  /** Every id in the todo table is below the next id the table hands out. */
  predicate IdsBelow(rows: seq<Todo>, nextId: TodoId) {
    forall t :: t in rows ==> t.todoId < nextId
  }

  /** The todo table has a row with this id. */
  predicate HasId(rows: seq<Todo>, todoId: TodoId) {
    exists t :: t in rows && t.todoId == todoId
  }

  /** `categoryRepository.findByCategoryIdAndMember(categoryId, member)` finds a row. */
  predicate OwnsCategory(categories: map<CategoryId, MemberId>, member: MemberId, categoryId: CategoryId) {
    categoryId in categories && categories[categoryId] == member
  }

  /** The store-wide invariant: a todo's category, when it has one, belongs
      to the member that owns the todo. */
  predicate CategoriesOwned(rows: seq<Todo>, categories: map<CategoryId, MemberId>) {
    forall t :: t in rows && t.categoryId.Some? ==> OwnsCategory(categories, t.member, t.categoryId.value)
  }

  /** The predicate of the derived query findByTodoIdAndMember. A null
      argument is matched with IS NULL, and no stored row has a null id or
      a null member, so a null argument matches nothing. */
  predicate Matches(t: Todo, todoId: Option<TodoId>, member: Option<MemberId>) {
    todoId == Some(t.todoId) && member == Some(t.member)
  }

  /** `todoRepository.findByTodoIdAndMember(todoId, member)`: the first row
      whose id and member both match, or nothing when no row does. */
  function FindByTodoIdAndMember(rows: seq<Todo>, todoId: Option<TodoId>, member: Option<MemberId>)
    : (r: Option<Todo>)
    ensures r.Some? ==> r.value in rows && Matches(r.value, todoId, member)
    ensures r.None? <==> forall t :: t in rows ==> !Matches(t, todoId, member)
  {
    if rows == [] then None
    else if Matches(rows[0], todoId, member) then Some(rows[0])
    else FindByTodoIdAndMember(rows[1..], todoId, member)
  }

  /** `todoRepository.findAllByMember(member)`: the member's rows, in table order. */
  function FindAllByMember(rows: seq<Todo>, member: MemberId): (r: seq<Todo>)
    ensures forall t :: t in r <==> t in rows && t.member == member
    ensures |r| <= |rows|
  {
    if rows == [] then []
    else
      var rest := FindAllByMember(rows[1..], member);
      if rows[0].member == member then [rows[0]] + rest else rest
  }

  /** The table after `todoRepository.deleteById(todoId)` found a row: every
      row with that id is gone, whoever owns it. */
  function DeleteById(rows: seq<Todo>, todoId: TodoId): (r: seq<Todo>)
    ensures forall t :: t in r <==> t in rows && t.todoId != todoId
    ensures |r| <= |rows|
  {
    if rows == [] then []
    else
      var rest := DeleteById(rows[1..], todoId);
      if rows[0].todoId == todoId then rest else [rows[0]] + rest
  }

  /** The table after the transaction flushes a changed entity: the row with
      the entity's id is replaced, every other row stays where it was. */
  function ReplaceById(rows: seq<Todo>, todo: Todo): (r: seq<Todo>)
    ensures |r| == |rows|
    ensures forall i :: 0 <= i < |rows| ==> r[i] == if rows[i].todoId == todo.todoId then todo else rows[i]
  {
    if rows == [] then []
    else [if rows[0].todoId == todo.todoId then todo else rows[0]] + ReplaceById(rows[1..], todo)
  }

  /** Dropping the first row keeps ids unique (the step every induction
      below takes on the table). */
  lemma IdsUniqueTail(rows: seq<Todo>)
    requires IdsUnique(rows) && rows != []
    ensures IdsUnique(rows[1..])
  {
  }

  /** With unique ids, the scoped lookup finds the one row carrying that id
      and member: the lookup's contract gives a stored row with that id, and
      only one row has it. */
  lemma FindByTodoIdAndMemberFindsRow(rows: seq<Todo>, todo: Todo)
    requires IdsUnique(rows)
    requires todo in rows
    ensures FindByTodoIdAndMember(rows, Some(todo.todoId), Some(todo.member)) == Some(todo)
  {
  }

  /** The member's query keeps unique ids unique: one entry per todo. */
  lemma {:induction false} FindAllByMemberIdsUnique(rows: seq<Todo>, member: MemberId)
    requires IdsUnique(rows)
    ensures IdsUnique(FindAllByMember(rows, member))
  {
    if rows != [] {
      IdsUniqueTail(rows);
      FindAllByMemberIdsUnique(rows[1..], member);
      var rest := FindAllByMember(rows[1..], member);
      if rows[0].member == member {
        forall t | t in rest ensures t.todoId != rows[0].todoId {
          var k :| 0 <= k < |rows[1..]| && rows[1..][k] == t;
          assert rows[k + 1] == t;
        }
        var r := [rows[0]] + rest;
        forall i, j | 0 <= i < j < |r| ensures r[i].todoId != r[j].todoId {
          assert r[j] == rest[j - 1];
          if i > 0 { assert r[i] == rest[i - 1]; }
        }
      }
    }
  }

  /** A member that owns no row gets an empty list, not an error. */
  lemma {:induction false} FindAllByMemberEmpty(rows: seq<Todo>, member: MemberId)
    requires forall t :: t in rows ==> t.member != member
    ensures FindAllByMember(rows, member) == []
  {
    if rows != [] {
      assert rows[0] in rows;
      FindAllByMemberEmpty(rows[1..], member);
    }
  }

  /** Appending a row extends the member's query at its end, and only when
      the row is the member's: the query keeps table order. */
  lemma {:induction false} FindAllByMemberAppend(rows: seq<Todo>, todo: Todo, member: MemberId)
    ensures FindAllByMember(rows + [todo], member)
            == FindAllByMember(rows, member) + (if todo.member == member then [todo] else [])
  {
    if rows == [] {
      assert rows + [todo] == [todo];
    } else {
      assert (rows + [todo])[1..] == rows[1..] + [todo];
      FindAllByMemberAppend(rows[1..], todo, member);
    }
  }

  /** Deleting an id keeps unique ids unique. */
  lemma {:induction false} DeleteByIdIdsUnique(rows: seq<Todo>, todoId: TodoId)
    requires IdsUnique(rows)
    ensures IdsUnique(DeleteById(rows, todoId))
  {
    if rows != [] {
      IdsUniqueTail(rows);
      DeleteByIdIdsUnique(rows[1..], todoId);
      var rest := DeleteById(rows[1..], todoId);
      if rows[0].todoId != todoId {
        forall t | t in rest ensures t.todoId != rows[0].todoId {
          var k :| 0 <= k < |rows[1..]| && rows[1..][k] == t;
          assert rows[k + 1] == t;
        }
        var r := [rows[0]] + rest;
        forall i, j | 0 <= i < j < |r| ensures r[i].todoId != r[j].todoId {
          assert r[j] == rest[j - 1];
          if i > 0 { assert r[i] == rest[i - 1]; }
        }
      }
    }
  }

  /** With unique ids, deleting an id that is present removes exactly one row. */
  lemma {:induction false} DeleteByIdRemovesOne(rows: seq<Todo>, todoId: TodoId)
    requires IdsUnique(rows)
    requires HasId(rows, todoId)
    ensures |DeleteById(rows, todoId)| == |rows| - 1
  {
    IdsUniqueTail(rows);
    if rows[0].todoId == todoId {
      assert DeleteById(rows[1..], todoId) == rows[1..] by {
        DeleteByIdAbsent(rows[1..], todoId);
      }
    } else {
      var t :| t in rows && t.todoId == todoId;
      assert t in rows[1..];
      DeleteByIdRemovesOne(rows[1..], todoId);
    }
  }

  /** Deleting an id the table does not hold changes nothing. */
  lemma {:induction false} DeleteByIdAbsent(rows: seq<Todo>, todoId: TodoId)
    requires !HasId(rows, todoId)
    ensures DeleteById(rows, todoId) == rows
  {
    if rows != [] {
      assert rows[0] in rows;
      DeleteByIdAbsent(rows[1..], todoId);
    }
  }
}
