# BulletBox todo service, modelled in Dafny

BulletBox is a diary and todo-list web backend. Members keep daily todos, and
each todo may be filed under one of the member's categories. This project
models the todo service (`TodoService`). That covers the ownership guards
and the todo lifecycle: create, scoped find, delete, update and list by member.
The two Spring Data repositories behind the service become in-memory tables:

- the todo table is a sequence of rows in repository order. Each row holds an
  id, its owning member, an optional category id and the payload (title, date,
  done flag). Ids are unique and lie below the next id the table hands out;
- the category table maps each category id to the member that owns it.

Java `null` becomes `Option.None`. The service's `NoSuchElementException`s
become an explicit `Err`/`Fail` result that names the message constant.

Modules:

- `Domain` (`domain.dfy`): the entity and DTO values, the errors, and the
  converters `toTodoDto`, `toSearchTodoDto` and `updateAll`.
- `Repositories` (`repositories.dfy`): the queries the service issues, as
  functions with contracts, plus lemmas about them.
- `Service` (`todo_service.dfy`): the guards as functions, and the class
  `TodoService`. Its fields are the two tables and the id counter, and its
  methods change them as the Java methods do.
- `Scenarios` (`scenarios.dfy`): client runs of the service over any
  well-formed table, stating what a caller observes.

The main property is the store-wide invariant `CategoriesOwned`: every todo
with a category refers to a category owned by that todo's member.
`SaveTodo` and `DeleteTodo` preserve it.

Two behaviours of the code are kept as written, not corrected:

- `deleteTodo` checks that a member is given, then deletes by id alone. Any
  member can delete any member's todo (`Scenarios.AnyMemberDeletes`).
- `updateTodo` runs `checkTodoIsSafe` on the todo as stored, then copies the
  request's fields over it. The incoming category id is never checked. A
  member can move their todo into another member's category, which breaks
  `CategoriesOwned` (`Scenarios.UpdateIntoForeignCategory`). When the
  invariant holds beforehand, the guard inside `updateTodo` can never fail.

`Todo.updateAll` itself is not part of this model: `Domain.UpdateAll` assumes
it overwrites the category and every payload field (see "## Left out").

## Model

| member | source | states |
|---|---|---|
| `Service.CheckMemberIsNotNull` | src/main/java/com/hanghae/bulletbox/todo/service/TodoService.java:41-45 | passes exactly when a member is given; otherwise fails with MemberNotFound |
| `Service.CheckMemberHasCategoryId` | src/main/java/com/hanghae/bulletbox/todo/service/TodoService.java:35-38 | passes exactly when the category table maps the id to that member; otherwise fails with CategoryNotFound |
| `Service.CheckTodoIsSafe` | src/main/java/com/hanghae/bulletbox/todo/service/TodoService.java:48-58 | passes exactly when the member is present and any given category belongs to it. A missing member fails first, with MemberNotFound. Any other failure is CategoryNotFound. Without a category only the member check applies |
| `Service.TodoService.constructor` | src/main/java/com/hanghae/bulletbox/todo/service/TodoService.java:25-31 | the service starts over the given well-formed todo table, category table and id counter |
| `Service.TodoService.SaveTodo` | src/main/java/com/hanghae/bulletbox/todo/service/TodoService.java:62-71 | succeeds exactly when the guard passes, and otherwise returns the guard's error with the table unchanged. On success it appends one row under a fresh id and returns that row as a DTO. It preserves unique ids and `CategoriesOwned` |
| `Service.TodoService.FindByTodoIdAndMember` | src/main/java/com/hanghae/bulletbox/todo/service/TodoService.java:74-80 | returns a stored row only if both its id and its member match. It fails with TodoNotFound exactly when no row matches, and it changes nothing |
| `Service.TodoService.FindDtoByTodoIdAndMember` | src/main/java/com/hanghae/bulletbox/todo/service/TodoService.java:83-91 | the reply carries the requested id and member and is the conversion of a stored row. It fails with TodoNotFound exactly when no row matches |
| `Service.TodoService.DeleteTodo` | src/main/java/com/hanghae/bulletbox/todo/service/TodoService.java:94-107 | a null member fails with MemberNotFound and a null id with TodoNotFound; an id with no row fails with NoRowToDelete; in each failure the table is unchanged. Otherwise exactly the row with that id is removed, whoever owns it. Unique ids and `CategoriesOwned` are preserved |
| `Service.TodoService.UpdateTodo` | src/main/java/com/hanghae/bulletbox/todo/service/TodoService.java:110-123 | fails with TodoNotFound when no row matches (id, member). Otherwise the outcome is the guard applied to the stored row. On success only that row changes: it takes the request's category and payload and keeps its id and member. Under `CategoriesOwned` the guard never fails. The invariant is kept when the incoming category is the member's |
| `Service.TodoService.FindAllByMember` | src/main/java/com/hanghae/bulletbox/todo/service/TodoService.java:126-143 | a null member fails with MemberNotFound. Otherwise the result holds one search entry per row of the member, in table order. Every entry comes from such a row, and no two entries share an id |
| `Repositories.FindByTodoIdAndMember` | src/main/java/com/hanghae/bulletbox/todo/service/TodoService.java:76-77 | a found row is in the table and matches both id and member. Nothing is found exactly when no row matches |
| `Repositories.FindAllByMember` | src/main/java/com/hanghae/bulletbox/todo/service/TodoService.java:133 | holds exactly the table's rows owned by the member, and is no longer than the table |
| `Repositories.DeleteById` | src/main/java/com/hanghae/bulletbox/todo/service/TodoService.java:106 | keeps exactly the rows whose id differs from the deleted one, whatever member owns them |
| `Repositories.ReplaceById` | src/main/java/com/hanghae/bulletbox/todo/service/TodoService.java:115-122 | the written-back table has the same length. The row with the entity's id is replaced, and every other row stays at its place |
| `Repositories.FindByTodoIdAndMemberFindsRow` | src/main/java/com/hanghae/bulletbox/todo/service/TodoService.java:75-80 | with unique ids, the scoped lookup of a stored row's id and member returns that very row |
| `Repositories.FindAllByMemberIdsUnique` | src/main/java/com/hanghae/bulletbox/todo/service/TodoService.java:133-142 | the member's rows carry pairwise distinct ids: one entry per todo |
| `Repositories.FindAllByMemberEmpty` | src/main/java/com/hanghae/bulletbox/todo/service/TodoService.java:133-142 | a member that owns no row gets the empty list |
| `Repositories.FindAllByMemberAppend` | src/main/java/com/hanghae/bulletbox/todo/service/TodoService.java:133-142 | appending a row extends the member's list at its end exactly when the row is the member's: the query keeps table order |
| `Repositories.DeleteByIdIdsUnique` | src/main/java/com/hanghae/bulletbox/todo/service/TodoService.java:106 | deleting by id keeps ids unique |
| `Repositories.DeleteByIdRemovesOne` | src/main/java/com/hanghae/bulletbox/todo/service/TodoService.java:106 | with unique ids, deleting an id that is present removes exactly one row |
| `Scenarios.ForeignCategoryIsRefused` | src/main/java/com/hanghae/bulletbox/todo/service/TodoService.java:48-71 | another member's category makes saveTodo fail with CategoryNotFound, and nothing is stored. The owner's same request is saved with that category |
| `Scenarios.NoCategoryNeedsOnlyMember` | src/main/java/com/hanghae/bulletbox/todo/service/TodoService.java:52-57 | without a category, saveTodo succeeds for any member, even with an empty category table, and the todo gets the next id |
| `Scenarios.CreateThenList` | src/main/java/com/hanghae/bulletbox/todo/service/TodoService.java:62-143 | a member with no todos lists an empty sequence. After one create, the list holds exactly one entry with that todo's id and date |
| `Scenarios.NullMemberFails` | src/main/java/com/hanghae/bulletbox/todo/service/TodoService.java:41-45 | with a null member, saveTodo, deleteTodo and findAllByMember all fail with MemberNotFound, and the tables are unchanged |
| `Scenarios.OtherMembersTodoIsHidden` | src/main/java/com/hanghae/bulletbox/todo/service/TodoService.java:74-123 | another member's todo is reported missing by find and update, and the update changes nothing |
| `Scenarios.DeleteThenFind` | src/main/java/com/hanghae/bulletbox/todo/service/TodoService.java:84-107 | deleting a stored todo succeeds, and looking it up afterwards fails with TodoNotFound |
| `Scenarios.AnyMemberDeletes` | src/main/java/com/hanghae/bulletbox/todo/service/TodoService.java:95-107 | a member who does not own a todo still deletes it by id. The owner no longer finds it, and the table shrinks by one |
| `Scenarios.UpdateIntoForeignCategory` | src/main/java/com/hanghae/bulletbox/todo/service/TodoService.java:111-123 | from a table satisfying `CategoriesOwned`, an owner's update into another member's category succeeds and breaks the invariant |

## Left out

- HTTP controllers, the response envelope, Swagger annotations and principal extraction (`DailyController`, `MainController`, `MemberController`). They only delegate to services.
- The email verification flow: it depends on the mail transport and on HTTP session state.
- `TimeStamped` auditing: creation and modification times come from the wall clock through a JPA entity listener.
- `ResponseShowDailyByCategoryDto`: a list holder with no behaviour.
- Daily views, favorite loading, categories and members as services: `DailyService`, `DailyTodoService`, `CategoryService` and `MemberService` are not part of this model. The category table is only read here. Category deletions elsewhere, which could also break `CategoriesOwned`, are not modelled.
- Transactions: each service call is one atomic step. JPA dirty checking is replaced by an explicit write of the changed row (`ReplaceById`). Todo entities are values, so a fetched entity cannot alias a row.
- Id generation: the database's generated key is a counter (`nextId`). What `Todo.toTodo` does with an incoming id is not modelled; a saved todo always gets a fresh id.
- Entities and converters: `Todo`, `TodoDto`, `SearchTodoDto` and `Member` are not part of this model. A member is reduced to its id. The payload is reduced to title, date and done flag. `toTodo`, `toTodoDto`, `toSearchTodoDto`, `toMember` and `updateAll` are total functions on these values.
- Domain.UpdateAll: `Todo.updateAll` is not part of this model. The model assumes it overwrites the category and every payload field unconditionally, keeping id and member. An `updateAll` that skips null fields of the request is not captured.
- Service.TodoService.DeleteTodo: deleting an id with no row fails with `NoRowToDelete` and changes nothing. This follows `deleteById` of Spring Data JPA 2.x, the generation the `javax.persistence` imports point to; that library is not part of this model.
- Repository queries with a null argument match no row. Derived queries compare a null argument with IS NULL, and stored rows never have a null id or member.
