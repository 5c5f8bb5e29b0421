/**
  The todo handlers: `create`, `toggleComplete`, `remove` and `update`.
  A todo belongs to the caller's token identifier; every handler but
  `create` refuses a todo that is missing or belongs to someone else, with
  the same error for both.
 */
module Todos {
  import opened Schema

  datatype TodoStatus = Pending | Completed

  datatype Todo = Todo(
    title: string,
    description: Option<string>,
    status: TodoStatus,
    userId: string,
    createdAt: int,
    completedAt: Option<int>)

  type Todos = map<Id, Todo>

  /** `create`: a pending todo owned by the caller's token identifier. */
  function Create(todos: Todos, auth: Option<Identity>, id: Id, title: string, description: Option<string>,
                  now: int): (r: Result<Todos>)
    requires id !in todos
    ensures r.Ok? <==> auth.Some?
    ensures r.Err? ==> r.error == NotAuthenticated
    ensures r.Ok? ==>
      && r.value.Keys == todos.Keys + {id}
      && (forall k :: k in todos ==> r.value[k] == todos[k])
      && r.value[id] == Todo(title, description, Pending, auth.value.tokenIdentifier, now, None)
  {
    if auth.None? then Err(NotAuthenticated)
    else Ok(todos[id := Todo(title, description, Pending, auth.value.tokenIdentifier, now, None)])
  }

  /** The caller is signed in and the todo exists and is theirs. */
  predicate MayTouch(todos: Todos, auth: Option<Identity>, id: Id) {
    auth.Some? && id in todos && todos[id].userId == auth.value.tokenIdentifier
  }

  function TouchError(auth: Option<Identity>): Error {
    if auth.None? then NotAuthenticated else TodoNotFoundOrUnauthorized
  }

  function Flip(s: TodoStatus): TodoStatus {
    if s == Completed then Pending else Completed
  }

  /** `toggleComplete`: the status flips; the completion time is set exactly when the new status is completed. */
  function ToggleComplete(todos: Todos, auth: Option<Identity>, id: Id, now: int): (r: Result<Todos>)
    ensures r.Ok? <==> MayTouch(todos, auth, id)
    ensures r.Err? ==> r.error == TouchError(auth)
    ensures r.Ok? ==>
      && r.value.Keys == todos.Keys
      && (forall k :: k in todos && k != id ==> r.value[k] == todos[k])
      && r.value[id].status != todos[id].status
      && (r.value[id].completedAt.Some? <==> r.value[id].status == Completed)
      && (r.value[id].status == Completed ==> r.value[id].completedAt == Some(now))
      && r.value[id] == todos[id].(status := r.value[id].status, completedAt := r.value[id].completedAt)
  {
    if !MayTouch(todos, auth, id) then Err(TouchError(auth))
    else
      var status := Flip(todos[id].status);
      Ok(todos[id := todos[id].(status := status, completedAt := if status == Completed then Some(now) else None)])
  }

  /** `remove`: the todo is deleted and nothing else. */
  function Remove(todos: Todos, auth: Option<Identity>, id: Id): (r: Result<Todos>)
    ensures r.Ok? <==> MayTouch(todos, auth, id)
    ensures r.Err? ==> r.error == TouchError(auth)
    ensures r.Ok? ==>
      && r.value.Keys == todos.Keys - {id}
      && (forall k :: k in r.value ==> r.value[k] == todos[k])
  {
    if !MayTouch(todos, auth, id) then Err(TouchError(auth))
    else Ok(todos - {id})
  }

  /** `update`: only the title and the description change; an omitted description is cleared. */
  function Update(todos: Todos, auth: Option<Identity>, id: Id, title: string, description: Option<string>): (r: Result<Todos>)
    ensures r.Ok? <==> MayTouch(todos, auth, id)
    ensures r.Err? ==> r.error == TouchError(auth)
    ensures r.Ok? ==>
      && r.value.Keys == todos.Keys
      && (forall k :: k in todos && k != id ==> r.value[k] == todos[k])
      && r.value[id].title == title && r.value[id].description == description
      && r.value[id].status == todos[id].status && r.value[id].userId == todos[id].userId
      && r.value[id].createdAt == todos[id].createdAt && r.value[id].completedAt == todos[id].completedAt
  {
    if !MayTouch(todos, auth, id) then Err(TouchError(auth))
    else Ok(todos[id := todos[id].(title := title, description := description)])
  }

  // ---------------------------------------------------------------------------
  // Properties across calls

  /** A todo carries a completion time exactly when it is completed. */
  predicate Consistent(t: Todo) {
    t.completedAt.Some? <==> t.status == Completed
  }

  predicate AllConsistent(todos: Todos) {
    forall k :: k in todos ==> Consistent(todos[k])
  }

  /** Every handler keeps every todo consistent. */
  lemma HandlersKeepConsistency(todos: Todos, auth: Option<Identity>, id: Id, newId: Id, title: string,
                                description: Option<string>, now: int)
    requires AllConsistent(todos)
    requires newId !in todos
    ensures var r := Create(todos, auth, newId, title, description, now); r.Ok? ==> AllConsistent(r.value)
    ensures var r := ToggleComplete(todos, auth, id, now); r.Ok? ==> AllConsistent(r.value)
    ensures var r := Remove(todos, auth, id); r.Ok? ==> AllConsistent(r.value)
    ensures var r := Update(todos, auth, id, title, description); r.Ok? ==> AllConsistent(r.value)
  {
  }

  /** Toggling twice restores the status, and for a pending todo the whole record. */
  lemma ToggleTwice(todos: Todos, auth: Option<Identity>, id: Id, now: int, later: int)
    requires MayTouch(todos, auth, id)
    ensures var once := ToggleComplete(todos, auth, id, now);
      var twice := ToggleComplete(once.value, auth, id, later);
      && twice.Ok?
      && twice.value[id].status == todos[id].status
      && (todos[id].status == Pending && todos[id].completedAt == None ==> twice.value == todos)
  {
    var once := ToggleComplete(todos, auth, id, now).value;
    var twice := ToggleComplete(once, auth, id, later).value;
    if todos[id].status == Pending && todos[id].completedAt == None {
      assert twice[id] == todos[id];
      assert twice == todos;
    }
  }

  /** Another user can change nothing: every handler but `create` fails and the todos stay as they were. */
  lemma OthersCannotTouch(todos: Todos, someone: Identity, id: Id, title: string, description: Option<string>, now: int)
    requires id in todos && todos[id].userId != someone.tokenIdentifier
    ensures ToggleComplete(todos, Some(someone), id, now) == Err(TodoNotFoundOrUnauthorized)
    ensures Remove(todos, Some(someone), id) == Err(TodoNotFoundOrUnauthorized)
    ensures Update(todos, Some(someone), id, title, description) == Err(TodoNotFoundOrUnauthorized)
  {
  }

  /** A created todo is the caller's to toggle, update and remove; once removed it is gone for good. */
  lemma CreateThenRemove(todos: Todos, identity: Identity, id: Id, title: string, description: Option<string>,
                         now: int, later: int)
    requires id !in todos
    ensures var created := Create(todos, Some(identity), id, title, description, now).value;
      && MayTouch(created, Some(identity), id)
      && Remove(created, Some(identity), id) == Ok(todos)
      && ToggleComplete(Remove(created, Some(identity), id).value, Some(identity), id, later)
         == Err(TodoNotFoundOrUnauthorized)
  {
    var created := Create(todos, Some(identity), id, title, description, now).value;
    assert created - {id} == todos;
  }
}
