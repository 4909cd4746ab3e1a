/** The state of the Home component: the todo list, the flag saying whether
    the initial load from localStorage has happened, and localStorage itself.
    The effect that loads and persists the list is EffectStep; React runs it
    after the first render and again after every render in which `todos`
    changed, which Settle models. */
module Page {
  import opened Todos

  /** The localStorage key the list lives under. */
  const StorageKey: string := "todos"

  /** The list a fresh page would show for the given localStorage content:
      the stored list, or the initial empty list when nothing is stored. */
  function Restored(storage: map<string, seq<Todo>>): seq<Todo> {
    if StorageKey in storage then storage[StorageKey] else []
  }

  class Home {
    var todos: seq<Todo>
    var isLoaded: bool
    /** localStorage, each value already parsed back into a list. A key that
        is missing stands for getItem returning null or an empty string. */
    var storage: map<string, seq<Todo>>

    /** The list shown is the list a reload would show. */
    predicate Persisted()
      reads this
    {
      isLoaded && Restored(storage) == todos
    }

    /** The first render: both pieces of state hold their initial values, and
        localStorage holds whatever earlier sessions left in it. */
    constructor (saved: map<string, seq<Todo>>)
      ensures todos == [] && !isLoaded && storage == saved
    {
      todos := [];
      isLoaded := false;
      storage := saved;
    }

    /** One run of the effect. Both of its tests read the render's value of
        isLoaded, which setIsLoaded does not change, so the run that loads
        never writes. Returns whether it called setTodos, which makes React
        run the effect once more. */
    method EffectStep() returns (setTodosCalled: bool)
      modifies this
      ensures isLoaded
      ensures !old(isLoaded) ==>
        && storage == old(storage)
        && setTodosCalled == (StorageKey in old(storage))
        && todos == (if setTodosCalled then old(storage)[StorageKey] else old(todos))
      ensures old(isLoaded) ==>
        && !setTodosCalled
        && todos == old(todos)
        && storage == old(storage)[StorageKey := todos]
    {
      var wasLoaded := isLoaded;
      setTodosCalled := false;
      if !wasLoaded {
        if StorageKey in storage {
          todos := storage[StorageKey];
          setTodosCalled := true;
        }
        isLoaded := true;
      }
      if wasLoaded {
        storage := storage[StorageKey := todos];
      }
    }

    /** The effect runs until `todos` stops changing: at most twice, since the
        second run finds isLoaded set. Before the load this replaces the list
        with the stored one, if any, and leaves localStorage as it was; after
        the load it writes the whole list under "todos" and touches no other
        key. */
    method Settle()
      modifies this
      ensures isLoaded
      ensures !old(isLoaded) ==>
        && storage == old(storage)
        && todos == (if StorageKey in old(storage) then old(storage)[StorageKey] else old(todos))
      ensures old(isLoaded) ==>
        && todos == old(todos)
        && storage == old(storage)[StorageKey := todos]
        && Persisted()
    {
      var again := EffectStep();
      if again {
        again := EffectStep();
      }
    }

    /** Mounting a page over `saved`: the effect's first run, from the
        constructor's state. The page then shows the stored list and
        localStorage is unchanged. */
    method Mount()
      requires todos == [] && !isLoaded
      modifies this
      ensures todos == Restored(old(storage))
      ensures storage == old(storage)
      ensures Persisted()
    {
      Settle();
    }

    /** createTodo, followed by the effect run its setTodos triggers. The form
        that calls it only opens after the mount effect has run, so the list
        is loaded by then. */
    method CreateTodo(id: int, title: string, description: string)
      requires isLoaded
      modifies this
      ensures todos == Create(old(todos), id, title, description)
      ensures storage == old(storage)[StorageKey := todos]
      ensures Persisted()
    {
      todos := Create(todos, id, title, description);
      Settle();
    }

    /** onToggleCompleted, followed by the effect run its setTodos triggers.
        `map` builds a new array even when no id matches, so the list is
        written back in that case too. The checkbox that calls it is rendered
        only once the list is loaded. */
    method ToggleCompleted(todoId: int, now: string)
      requires isLoaded
      modifies this
      ensures todos == Toggle(old(todos), todoId, now)
      ensures storage == old(storage)[StorageKey := todos]
      ensures Persisted()
    {
      todos := Toggle(todos, todoId, now);
      Settle();
    }

    /** onDeleteTodo, followed by the effect run its setTodos triggers. The
        button that calls it is rendered only once the list is loaded. */
    method DeleteTodo(todoId: int)
      requires isLoaded
      modifies this
      ensures todos == Delete(old(todos), todoId)
      ensures storage == old(storage)[StorageKey := todos]
      ensures Persisted()
    {
      todos := Delete(todos, todoId);
      Settle();
    }
  }

  /** A whole session: open the page over `saved`, create a todo, complete it
      and delete it. Returns what is shown and what localStorage holds under
      "todos" after each step. */
  method Session(saved: map<string, seq<Todo>>, id: int, title: string, description: string, now: string)
    returns (created: seq<Todo>, toggled: seq<Todo>, deleted: seq<Todo>, stored: seq<Todo>)
    ensures created == Restored(saved) + [NewTodo(id, title, description)]
    ensures |toggled| == |created| && toggled[|created| - 1].completed
    ensures toggled[|created| - 1].completionDate == At(now)
    ensures Count(Restored(saved), id) == 0 ==> deleted == Restored(saved)
    ensures stored == deleted
  {
    var page := new Home(saved);
    page.Mount();
    page.CreateTodo(id, title, description);
    created := page.todos;
    page.ToggleCompleted(id, now);
    toggled := page.todos;
    page.DeleteTodo(id);
    deleted := page.todos;
    stored := page.storage[StorageKey];
    if Count(Restored(saved), id) == 0 {
      CountZero(Restored(saved), id);
      CreateThenDeleteUndoes(Restored(saved), id, title, description);
      DeleteAfterToggle(created, id, now);
    }
  }
}
