/** The todo records of the page and the three list transitions the Home
    component performs on them: append a new record, flip the completion of
    every record with a given id, and drop every record with a given id.
    Each transition builds a new list from the old one, so each is a function. */
module Todos {

  /** A record's completionDate. The field is missing from a freshly created
      record, holds an ISO-8601 instant after it is toggled to completed, and
      holds null after it is toggled back. */
  datatype Stamp = Absent | Null | At(iso: string)

  datatype Todo = Todo(
    id: int,
    title: string,
    description: string,
    completed: bool,
    completionDate: Stamp)

  /** The record a form submission produces; `id` is the caller's Date.now(). */
  function NewTodo(id: int, title: string, description: string): Todo {
    Todo(id, title, description, false, Absent)
  }

  /** createTodo: the old list with the new record spread onto its end.
      There is no check on the title: the list operation accepts any input. */
  function Create(todos: seq<Todo>, id: int, title: string, description: string): (r: seq<Todo>)
    ensures |r| == |todos| + 1
    ensures r[..|todos|] == todos
    ensures forall i :: 0 <= i < |todos| ==> r[i] == todos[i]
    ensures r[|todos|].id == id && r[|todos|].title == title && r[|todos|].description == description
    ensures !r[|todos|].completed && r[|todos|].completionDate == Absent
  {
    todos + [NewTodo(id, title, description)]
  }

  /** The callback passed to `map` in onToggleCompleted. */
  function Flip(t: Todo, todoId: int, now: string): Todo {
    if t.id == todoId then
      t.(completed := !t.completed, completionDate := if !t.completed then At(now) else Null)
    else
      t
  }

  /** onToggleCompleted: `map` over the list, flipping every record whose id
      matches. `now` is the caller's `new Date().toISOString()`. */
  function Toggle(todos: seq<Todo>, todoId: int, now: string): (r: seq<Todo>)
    ensures |r| == |todos|
    ensures forall i :: 0 <= i < |todos| && todos[i].id != todoId ==> r[i] == todos[i]
    ensures forall i :: 0 <= i < |todos| && todos[i].id == todoId ==>
      && r[i].id == todoId
      && r[i].title == todos[i].title
      && r[i].description == todos[i].description
      && r[i].completed == !todos[i].completed
      && r[i].completionDate == (if r[i].completed then At(now) else Null)
  {
    if todos == [] then [] else [Flip(todos[0], todoId, now)] + Toggle(todos[1..], todoId, now)
  }

  /** The number of records carrying `todoId`. */
  function Count(todos: seq<Todo>, todoId: int): nat {
    if todos == [] then 0
    else (if todos[0].id == todoId then 1 else 0) + Count(todos[1..], todoId)
  }

  /** onDeleteTodo: `filter` keeping the records whose id differs from `todoId`. */
  function Delete(todos: seq<Todo>, todoId: int): (r: seq<Todo>)
    ensures |r| == |todos| - Count(todos, todoId)
    ensures forall i :: 0 <= i < |r| ==> r[i].id != todoId
  {
    if todos == [] then []
    else if todos[0].id == todoId then Delete(todos[1..], todoId)
    else [todos[0]] + Delete(todos[1..], todoId)
  }

  /** No two records share an id. The source does not guarantee it. */
  predicate UniqueIds(todos: seq<Todo>) {
    forall i, j :: 0 <= i < j < |todos| ==> todos[i].id != todos[j].id
  }

  /** The record's completionDate holds an instant exactly when it is completed. */
  predicate Stamped(t: Todo) {
    t.completed <==> t.completionDate.At?
  }

  predicate AllStamped(todos: seq<Todo>) {
    forall t :: t in todos ==> Stamped(t)
  }

  // ---------------------------------------------------------------------
  // Count

  lemma {:induction false} CountZero(todos: seq<Todo>, todoId: int)
    ensures Count(todos, todoId) == 0 <==> forall t :: t in todos ==> t.id != todoId
  {
    if todos != [] {
      CountZero(todos[1..], todoId);
      assert todos == [todos[0]] + todos[1..];
    }
  }

  lemma {:induction false} CountAppend(a: seq<Todo>, b: seq<Todo>, todoId: int)
    ensures Count(a + b, todoId) == Count(a, todoId) + Count(b, todoId)
  {
    if a == [] {
      assert a + b == b;
    } else {
      assert (a + b)[1..] == a[1..] + b;
      CountAppend(a[1..], b, todoId);
    }
  }

  // ---------------------------------------------------------------------
  // Delete

  /** filter distributes over concatenation: the kept records stay in their
      original relative order. */
  lemma {:induction false} DeleteAppend(a: seq<Todo>, b: seq<Todo>, todoId: int)
    ensures Delete(a + b, todoId) == Delete(a, todoId) + Delete(b, todoId)
  {
    if a == [] {
      assert a + b == b;
    } else {
      var ab := a + b;
      assert ab[0] == a[0] && ab[1..] == a[1..] + b;
      DeleteAppend(a[1..], b, todoId);
      if a[0].id == todoId {
        assert Delete(ab, todoId) == Delete(a[1..] + b, todoId);
      } else {
        assert Delete(ab, todoId) == [a[0]] + Delete(a[1..] + b, todoId);
      }
    }
  }

  /** Every record without the id is kept as many times as it occurs, and
      none with it. */
  lemma {:induction false} DeleteMultiset(todos: seq<Todo>, todoId: int, t: Todo)
    ensures multiset(Delete(todos, todoId))[t] == if t.id == todoId then 0 else multiset(todos)[t]
  {
    if todos != [] {
      DeleteMultiset(todos[1..], todoId, t);
      assert todos == [todos[0]] + todos[1..];
    }
  }

  /** Deleting an id no record carries leaves the list as it was. */
  lemma {:induction false} DeleteUnknown(todos: seq<Todo>, todoId: int)
    requires forall t :: t in todos ==> t.id != todoId
    ensures Delete(todos, todoId) == todos
  {
    if todos != [] {
      assert todos[0] in todos;
      DeleteUnknown(todos[1..], todoId);
    }
  }

  /** Deleting twice is deleting once. */
  lemma DeleteIdempotent(todos: seq<Todo>, todoId: int)
    ensures Delete(Delete(todos, todoId), todoId) == Delete(todos, todoId)
  {
    DeleteUnknown(Delete(todos, todoId), todoId);
  }

  /** With unique ids, no record other than the one at position k carries its id. */
  lemma OthersLackId(todos: seq<Todo>, k: int)
    requires UniqueIds(todos)
    requires 0 <= k < |todos|
    ensures forall t :: t in todos[..k] ==> t.id != todos[k].id
    ensures forall t :: t in todos[k + 1..] ==> t.id != todos[k].id
  {
    forall t | t in todos[..k] ensures t.id != todos[k].id {
      var i :| 0 <= i < k && todos[..k][i] == t;
      assert todos[i] == t;
    }
    forall t | t in todos[k + 1..] ensures t.id != todos[k].id {
      var i :| 0 <= i < |todos| - k - 1 && todos[k + 1..][i] == t;
      assert todos[k + 1 + i] == t;
    }
  }

  /** A record alone is dropped by deleting its own id. */
  lemma DeleteOwn(t: Todo)
    ensures Delete([t], t.id) == []
  {
    assert [t][1..] == [];
  }

  lemma DeleteAround(pre: seq<Todo>, t: Todo, post: seq<Todo>, todoId: int)
    ensures Delete(pre + [t] + post, todoId)
         == Delete(pre, todoId) + Delete([t], todoId) + Delete(post, todoId)
  {
    DeleteAppend(pre + [t], post, todoId);
    DeleteAppend(pre, [t], todoId);
  }

  /** Deleting the id of a record that no other record carries removes just
      that record. */
  lemma DeleteSplit(pre: seq<Todo>, t: Todo, post: seq<Todo>)
    requires forall u :: u in pre ==> u.id != t.id
    requires forall u :: u in post ==> u.id != t.id
    ensures Delete(pre + [t] + post, t.id) == pre + post
  {
    var id := t.id;
    calc {
      Delete(pre + [t] + post, id);
      { DeleteAround(pre, t, post, id); }
      Delete(pre, id) + Delete([t], id) + Delete(post, id);
      { DeleteUnknown(pre, id); DeleteOwn(t); }
      pre + [] + Delete(post, id);
      { DeleteUnknown(post, id); assert pre + [] == pre; }
      pre + post;
    }
  }

  /** When ids are unique, deleting a present id removes exactly that one
      record and keeps the rest in order. */
  lemma DeleteExactlyOne(todos: seq<Todo>, k: int)
    requires UniqueIds(todos)
    requires 0 <= k < |todos|
    ensures Delete(todos, todos[k].id) == todos[..k] + todos[k + 1..]
    ensures |Delete(todos, todos[k].id)| == |todos| - 1
  {
    OthersLackId(todos, k);
    assert todos == todos[..k] + [todos[k]] + todos[k + 1..];
    DeleteSplit(todos[..k], todos[k], todos[k + 1..]);
  }

  // ---------------------------------------------------------------------
  // Create

  /** Deleting the id just created removes the new record (and every older
      record that happens to share that id). */
  lemma DeleteAfterCreate(todos: seq<Todo>, id: int, title: string, description: string)
    ensures Delete(Create(todos, id, title, description), id) == Delete(todos, id)
  {
    var t := NewTodo(id, title, description);
    DeleteAppend(todos, [t], id);
    assert Delete([t], id) == [] by {
      assert [t][1..] == [];
    }
  }

  /** With an id no record carries, deleting it undoes the creation. */
  lemma CreateThenDeleteUndoes(todos: seq<Todo>, id: int, title: string, description: string)
    requires forall t :: t in todos ==> t.id != id
    ensures Delete(Create(todos, id, title, description), id) == todos
  {
    DeleteAfterCreate(todos, id, title, description);
    DeleteUnknown(todos, id);
  }

  /** A fresh id keeps ids unique. */
  lemma CreateKeepsUnique(todos: seq<Todo>, id: int, title: string, description: string)
    requires UniqueIds(todos)
    requires forall t :: t in todos ==> t.id != id
    ensures UniqueIds(Create(todos, id, title, description))
  {
    var r := Create(todos, id, title, description);
    forall i, j | 0 <= i < j < |r| ensures r[i].id != r[j].id {
      if j == |todos| {
        assert todos[i] in todos;
      }
    }
  }

  /** Two creations in the same millisecond get the same id; a later delete of
      that id then removes both records. */
  lemma SameMillisecondCollision(todos: seq<Todo>, id: int, t1: string, d1: string, t2: string, d2: string)
    ensures !UniqueIds(Create(Create(todos, id, t1, d1), id, t2, d2))
    ensures Count(Create(Create(todos, id, t1, d1), id, t2, d2), id) == Count(todos, id) + 2
  {
    var r := Create(Create(todos, id, t1, d1), id, t2, d2);
    assert r[|todos|].id == r[|todos| + 1].id;
    var a, b := NewTodo(id, t1, d1), NewTodo(id, t2, d2);
    assert r == todos + [a] + [b];
    CountAppend(todos + [a], [b], id);
    CountAppend(todos, [a], id);
    assert [a][1..] == [] && [b][1..] == [];
  }

  // ---------------------------------------------------------------------
  // Toggle

  /** Toggling an id no record carries leaves the list as it was. */
  lemma ToggleUnknown(todos: seq<Todo>, todoId: int, now: string)
    requires Count(todos, todoId) == 0
    ensures Toggle(todos, todoId, now) == todos
  {
    CountZero(todos, todoId);
    var r := Toggle(todos, todoId, now);
    forall i | 0 <= i < |todos| ensures r[i] == todos[i] {
      assert todos[i] in todos;
    }
  }

  /** Toggling twice restores every record's completion flag and leaves the
      other records alone; a matching record's completionDate ends as null when
      it started incomplete and as the second instant when it started
      completed, not as its original value. */
  lemma ToggleTwice(todos: seq<Todo>, todoId: int, now1: string, now2: string)
    ensures var r := Toggle(Toggle(todos, todoId, now1), todoId, now2);
      && |r| == |todos|
      && (forall i :: 0 <= i < |todos| ==> r[i].completed == todos[i].completed)
      && (forall i :: 0 <= i < |todos| && todos[i].id != todoId ==> r[i] == todos[i])
      && (forall i :: 0 <= i < |todos| && todos[i].id == todoId ==>
            r[i] == todos[i].(completionDate := if todos[i].completed then At(now2) else Null))
  {
    var m := Toggle(todos, todoId, now1);
    var r := Toggle(m, todoId, now2);
    forall i | 0 <= i < |todos|
      ensures r[i].completed == todos[i].completed
      ensures todos[i].id == todoId ==>
        r[i] == todos[i].(completionDate := if todos[i].completed then At(now2) else Null)
    {
      assert m[i].id == todos[i].id;
    }
  }

  /** A record that was never toggled has no completionDate; toggling it on
      and off leaves null there, so the round trip is not the identity. */
  lemma ToggleTwiceLeavesNull(id: int, title: string, description: string, now1: string, now2: string)
    ensures Toggle(Toggle([NewTodo(id, title, description)], id, now1), id, now2)
         != [NewTodo(id, title, description)]
  {
    var r := Toggle(Toggle([NewTodo(id, title, description)], id, now1), id, now2);
    ToggleTwice([NewTodo(id, title, description)], id, now1, now2);
    assert r[0].completionDate == Null;
  }

  /** When every matching record is incomplete with a null completionDate,
      toggling twice is the identity. */
  lemma ToggleTwiceRestores(todos: seq<Todo>, todoId: int, now1: string, now2: string)
    requires forall t :: t in todos && t.id == todoId ==> !t.completed && t.completionDate == Null
    ensures Toggle(Toggle(todos, todoId, now1), todoId, now2) == todos
  {
    ToggleTwice(todos, todoId, now1, now2);
    var r := Toggle(Toggle(todos, todoId, now1), todoId, now2);
    forall i | 0 <= i < |todos| ensures r[i] == todos[i] {
      assert todos[i] in todos;
    }
  }

  /** Toggle keeps every id in its place, so it keeps ids unique. */
  lemma ToggleKeepsUnique(todos: seq<Todo>, todoId: int, now: string)
    requires UniqueIds(todos)
    ensures UniqueIds(Toggle(todos, todoId, now))
  {
    var r := Toggle(todos, todoId, now);
    forall i, j | 0 <= i < j < |r| ensures r[i].id != r[j].id {
      assert r[i].id == todos[i].id && r[j].id == todos[j].id;
    }
  }

  /** Deleting an id after toggling it is the same as deleting it outright. */
  lemma {:induction false} DeleteAfterToggle(todos: seq<Todo>, todoId: int, now: string)
    ensures Delete(Toggle(todos, todoId, now), todoId) == Delete(todos, todoId)
  {
    if todos != [] {
      DeleteAfterToggle(todos[1..], todoId, now);
      var r := Toggle(todos, todoId, now);
      assert r[1..] == Toggle(todos[1..], todoId, now);
    }
  }

  /** Toggling one id and deleting another commute. */
  lemma {:induction false} ToggleDeleteCommute(todos: seq<Todo>, toggled: int, deleted: int, now: string)
    requires toggled != deleted
    ensures Delete(Toggle(todos, toggled, now), deleted) == Toggle(Delete(todos, deleted), toggled, now)
  {
    if todos != [] {
      ToggleDeleteCommute(todos[1..], toggled, deleted, now);
      var r := Toggle(todos, toggled, now);
      assert r[1..] == Toggle(todos[1..], toggled, now);
      if todos[0].id != deleted {
        var d := Delete(todos, deleted);
        assert d == [todos[0]] + Delete(todos[1..], deleted);
        assert d[1..] == Delete(todos[1..], deleted);
      }
    }
  }

  // ---------------------------------------------------------------------
  // The completion-date invariant

  /** Every record each transition produces has a completionDate exactly when
      it is completed, provided the input list already did. Toggle establishes
      it for the records it touches whatever they held before. */
  lemma TransitionsKeepStamped(todos: seq<Todo>, id: int, title: string, description: string, now: string)
    requires AllStamped(todos)
    ensures AllStamped(Create(todos, id, title, description))
    ensures AllStamped(Toggle(todos, id, now))
    ensures AllStamped(Delete(todos, id))
  {
    var c := Create(todos, id, title, description);
    forall t | t in c ensures Stamped(t) {
      var i :| 0 <= i < |c| && c[i] == t;
      if i < |todos| { assert todos[i] in todos; }
    }
    var g := Toggle(todos, id, now);
    forall t | t in g ensures Stamped(t) {
      var i :| 0 <= i < |g| && g[i] == t;
      assert todos[i] in todos;
    }
    forall t | t in Delete(todos, id) ensures Stamped(t) {
      DeleteMultiset(todos, id, t);
      assert t in multiset(Delete(todos, id));
    }
  }
}
