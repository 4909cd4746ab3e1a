# nextjs-todo: the Home component's todo state, in Dafny

The application is a single page (`Home` in `src/app/page.js`). It keeps a list of todo
records in React state and mirrors that list into the browser's `localStorage` under the
key `"todos"`. This project models the part of that component that has semantics:

- the three list transitions: `createTodo`, `onToggleCompleted` and `onDeleteTodo`;
- the load-then-persist effect, driven by the `isLoaded` flag.

Files:

- `todos.dfy` (module `Todos`) holds the `Todo` record and the transitions as functions,
  since each builds a new array from the old one (spread-append, `map`, `filter`). It also
  holds the lemmas relating them.
- `page.dfy` (module `Page`) holds class `Home`, whose fields are the component's state
  (`todos`, `isLoaded`) and `localStorage`. `EffectStep` is one run of the `useEffect` body.
  `Settle` runs it as React does: after a render and again if it called `setTodos`. The
  mutation methods apply a transition and then settle.

Modelling choices:

- `completionDate` has three states: `Absent` (never toggled), `Null` (toggled back) and
  `At(iso)`. The code produces all three, and the distinction shows in `ToggleTwiceLeavesNull`.
- Ids are not assumed unique. They come from `Date.now()`, so toggle and delete are
  specified for every record with the id. `UniqueIds` is a hypothesis only where a lemma
  needs it.
- `Date.now()` and `new Date().toISOString()` are parameters (`id`, `now`).
- `localStorage` is a `map<string, seq<Todo>>` whose values are already parsed. A missing
  key stands for `getItem` returning `null` or `""`, both of which the `if (savedTodos)`
  test treats as nothing stored.
- Both tests in the effect read the render's `isLoaded`. `setIsLoaded(true)` does not change
  that value, so the run that loads never writes. When something was loaded, the second run
  writes the same list back.

Where the source's own text suggests more than its code does, the model follows the code:

- The only guard on the title is the form's `required` attribute (page.js:116). `createTodo`
  itself does not check the title, so `Create` accepts any title, the empty one included.
- The comment at page.js:66 says "Deletes a single todo", but the `filter` at page.js:68
  removes every record with the id. It removes exactly one only when ids are unique
  (`DeleteExactlyOne`).
- The comment at page.js:52 says toggling sets the completion date. Toggling back writes
  `null` (page.js:59), so toggling twice does not restore the original `completionDate`. A
  never-toggled record ends with `null` instead of no field, and a completed record ends
  with the second timestamp (`ToggleTwice`, `ToggleTwiceLeavesNull`).
- The toggle checkbox and the delete button are rendered only once `isLoaded` is true
  (page.js:185-210). The create form opens only after a click (page.js:178), by which time
  the mount effect has run. So the three mutation methods require `isLoaded`.
- An unparseable stored value is not handled by the code, so it is not modelled.

## Model

| member | source | states |
|---|---|---|
| Todos.Create | src/app/page.js:35-46 | the result is the old list, unchanged and in place, followed by one new record with the given id, title and description, `completed` false and no `completionDate`; no input is rejected |
| Todos.Toggle | src/app/page.js:53-64 | length and order are kept and records with another id are unchanged; every record with the id keeps id, title and description, has `completed` negated, and has `completionDate` set to `now` when now completed and to null otherwise |
| Todos.Delete | src/app/page.js:67-69 | the result's length is the old length minus the number of records with the id, and no record in it has the id; which records are kept, and in what order, is stated by `DeleteMultiset` and `DeleteAppend` |
| Todos.DeleteMultiset | src/app/page.js:68 | every record without the id occurs in the result exactly as often as in the input, and no record with the id occurs |
| Todos.DeleteAppend | src/app/page.js:68 | filtering distributes over concatenation, so kept records stay in their original relative order |
| Todos.DeleteUnknown | src/app/page.js:68 | deleting an id no record carries returns the list unchanged |
| Todos.DeleteIdempotent | src/app/page.js:68 | deleting the same id twice equals deleting it once |
| Todos.DeleteSplit | src/app/page.js:68 | deleting the id of a record no other record carries removes just that record and keeps the rest in order |
| Todos.DeleteExactlyOne | src/app/page.js:68 | with unique ids, deleting the id at position k yields the list without position k, one record shorter |
| Todos.DeleteAfterCreate | src/app/page.js:38-45 | deleting the id just created gives the same list as deleting it from the list before creation |
| Todos.CreateThenDeleteUndoes | src/app/page.js:38-45 | when no record carries the new id, deleting it after creation restores the original list |
| Todos.CreateKeepsUnique | src/app/page.js:39 | creating with an id no record carries keeps ids unique |
| Todos.SameMillisecondCollision | src/app/page.js:39 | two creations with the same `Date.now()` value break id uniqueness and add two records with that id |
| Todos.ToggleUnknown | src/app/page.js:54-63 | toggling an id no record carries returns the list unchanged |
| Todos.ToggleTwice | src/app/page.js:56-60 | toggling twice restores every `completed` flag and leaves other records equal; a matching record's `completionDate` ends as null if it started incomplete and as the second timestamp if it started completed |
| Todos.ToggleTwiceLeavesNull | src/app/page.js:38-43 | a freshly created record toggled on and off is not equal to the original: its missing `completionDate` has become null |
| Todos.ToggleTwiceRestores | src/app/page.js:56-60 | when every matching record is incomplete with a null `completionDate`, toggling twice is the identity |
| Todos.ToggleKeepsUnique | src/app/page.js:54-63 | toggle keeps every id in place, so it keeps ids unique |
| Todos.DeleteAfterToggle | src/app/page.js:53-69 | deleting an id after toggling it equals deleting it outright |
| Todos.ToggleDeleteCommute | src/app/page.js:53-69 | toggling one id and deleting a different id commute |
| Todos.TransitionsKeepStamped | src/app/page.js:38-68 | create, toggle and delete keep the invariant that a record has a completion timestamp exactly when it is completed |
| Page.Home.constructor | src/app/page.js:8-10 | the first render starts with an empty list, `isLoaded` false and `localStorage` as earlier sessions left it |
| Page.Home.EffectStep | src/app/page.js:12-27 | before loading: `localStorage` is not written, the list becomes the stored one when there is one, `isLoaded` becomes true, and the result says whether `setTodos` was called; after loading: the list is unchanged and the whole list is written under `"todos"`, no other key touched |
| Page.Home.Settle | src/app/page.js:12-27 | the effect and its re-run together: before loading they show the stored list, if any, and write the loaded list back, so the parsed value in storage is unchanged; after loading they persist the whole list, so the shown list equals what a reload would show |
| Page.Home.Mount | src/app/page.js:12-20 | mounting shows the stored list, or the empty list when nothing is stored, leaves `localStorage` unchanged and ends persisted |
| Page.Home.CreateTodo | src/app/page.js:30-50 | once loaded, the list becomes `Create` of the old one, the whole list is written under `"todos"` with no other key touched, and the shown list equals what a reload would show |
| Page.Home.ToggleCompleted | src/app/page.js:53-64 | once loaded, the list becomes `Toggle` of the old one and is written under `"todos"`, also when no id matches, and the shown list equals what a reload would show |
| Page.Home.DeleteTodo | src/app/page.js:67-69 | once loaded, the list becomes `Delete` of the old one and is written under `"todos"`, and the shown list equals what a reload would show |
| Page.Session | src/app/page.js:12-69 | mounting over stored data, then creating, completing and deleting a todo with a fresh id shows the stored list plus the new record, then marks it completed with the given timestamp, then returns to the stored list, which is also what `localStorage` holds |

## Left out

- Rendering: the JSX, the headless-ui dialog and transitions, icons and styling (page.js:71-248), and all of src/app/layout.js.
- The `open` modal flag and the form plumbing in `createTodo` (`preventDefault`, `FormData`, `console.log`, `reset`, `setOpen`). These are UI side effects with no list semantics.
- The clock (`Date.now()`, `new Date().toISOString()`). It is replaced by the `id` and `now` parameters, so no property about timestamp values or monotonic ids is stated.
- Toggle: `new Date().toISOString()` is evaluated inside the `map` callback, once per matching record that was incomplete (page.js:59). Records sharing an id can therefore get different instants in the source. The model gives all of them the same `now`.
- `localStorage.getItem` and `setItem` can throw, for example when storage is disabled or the quota is exceeded (page.js:15, 25). The source does not catch this. In the model every read and write succeeds.
- `JSON.stringify`/`JSON.parse`. Stored values are already parsed lists; stringifying and parsing these records returns them unchanged. A stored value that fails to parse, or that parses to something other than a list of records, is not modelled.
- React's scheduler. The effect is run explicitly by `Settle` after each change to `todos`. Strict-mode double invocation and state-update batching are not modelled.
- Other tabs writing the same key concurrently.
