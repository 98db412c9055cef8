/** The records the page keeps: an entry as the remote todo service returns
    it, and the same entry once the page has given it a creation date. */
module Todos {

  /** One entry of the service's list response: `{ id, todo, completed, userId }`. */
  datatype RemoteTodo = RemoteTodo(id: int, text: string, completed: bool, userId: int)

  /** A record of the todo store; `date` is an ISO "YYYY-MM-DD" string. */
  datatype Todo = Todo(id: int, text: string, completed: bool, userId: int, date: string)

  /** The predicate `t => t.id === id` handed to `find`. */
  function IdIs(id: int): Todo -> bool
  {
    (t: Todo) => t.id == id
  }

  /** The predicate `t => t.id !== id` handed to `filter` when deleting. */
  function IdIsNot(id: int): Todo -> bool
  {
    (t: Todo) => t.id != id
  }

  /** No two records share an id. */
  ghost predicate IdsUnique(todos: seq<Todo>)
  {
    forall i, j :: 0 <= i < j < |todos| ==> todos[i].id != todos[j].id
  }

  /** Some record carries `id`. */
  ghost predicate HasId(todos: seq<Todo>, id: int)
  {
    exists i :: 0 <= i < |todos| && todos[i].id == id
  }
}
