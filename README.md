# TodoApp state model

A Dafny model of the `TodoApp` React component of a client-side todo list.
The component keeps three state cells: `todos` (the ordered list of items,
each with `_id`, `title` and `completed`), `newTodo` (the text typed in the
input) and `loading`. Four async handlers change them after one call each to
the remote item store (`Item.list`, `Item.create`, `Item.update`,
`Item.delete`), and the view shows a completed count and a rounded progress
percentage derived from `todos`.

- `text.dfy` (module `Text`): `String.prototype.trim` over the exact
  ECMAScript whitespace and line-terminator set, with the facts the add
  handler's input check relies on.
- `todos.dfy` (module `Todos`): the item datatype and the pure list
  computations the handlers perform: the `map` that flips one item's flag
  (`Toggled`), the `filter` that drops an item (`Removed`), the completed
  count and the integer-rounded percentage (`Progress`), with lemmas about
  each.
- `todo_app.dfy` (module `TodoComponent`): class `TodoApp`, whose fields are
  the three state cells plus two logs: `requests` (every store call sent)
  and `messages` (every notification shown, as kind and text). Each handler
  is a method that runs as one atomic step against the current state. The
  store's reply to each call is a method parameter of type `Response<T>`:
  `Ok(data)` for `{success: true}`, `NotSuccess` for `{success: false}`,
  `Rejected` for a thrown error.

The model reproduces an asymmetry of the handlers: a notification of failure
is shown only when the store call rejects (the `catch` blocks). A reply with
`success: false` leaves the state as it was and shows nothing.

The percentage is `Math.round(completedCount / totalCount * 100)` and is shown
only when the list is not empty. In integers it is
`(200 * completed + total) / (2 * total)`, which rounds the exact quotient
to the nearest integer, halves up, as `Math.round` does. It is 100 whenever
every item is completed. It is also 100 when at most half a percent of the
items are still open, so a list of 200 or more items can show 100% with one
item open (`Todos.ProgressFull` states the exact condition).

## Model

| member | source | states |
|---|---|---|
| `Text.TrimStart` | project/src/components/TodoApp.jsx:32 | the result is a suffix of the input, everything cut is whitespace, and it does not start with whitespace |
| `Text.TrimEnd` | project/src/components/TodoApp.jsx:32 | the result is a prefix of the input, everything cut is whitespace, and it does not end with whitespace |
| `Text.AsciiWhitespace` | project/src/components/TodoApp.jsx:32 | among ASCII characters, `IsWhitespace` (the set `trim` strips) holds exactly for tab, line feed, vertical tab, form feed, carriage return and space |
| `Text.Trim` | project/src/components/TodoApp.jsx:39 | `newTodo.trim()` is no longer than the input and neither starts nor ends with whitespace |
| `Text.TrimSlice` | project/src/components/TodoApp.jsx:39 | trim keeps one contiguous slice of the input, with only whitespace cut on either side and no whitespace at the slice's ends |
| `Text.TrimEmptyIffBlank` | project/src/components/TodoApp.jsx:32 | `!newTodo.trim()` holds exactly when every character of the input is whitespace |
| `Text.TrimIdempotent` | project/src/components/TodoApp.jsx:39 | trimming an already trimmed title changes nothing |
| `TodoComponent.CreateRequest` | project/src/components/TodoApp.jsx:32-42 | no create payload exactly for blank input; otherwise the payload's title is the trimmed, non-empty input, `completed` is false and `userId` is 1 |
| `TodoComponent.UpdateFields` | project/src/components/TodoApp.jsx:56-59 | the update payload is the passed item with only `completed` negated |
| `TodoComponent.TodoApp.Valid` | project/src/components/TodoApp.jsx:21-45 | the object invariant: the ids of the local items are a subset of the ids the store returned in successful list and create replies |
| `TodoComponent.TodoApp.constructor` | project/src/components/TodoApp.jsx:9-15 | the cells start empty, not loading, and the mount effect's one list call has run; the issued ids are those of a successful reply, else none |
| `TodoComponent.TodoApp.SetNewTodo` | project/src/components/TodoApp.jsx:110 | the input buffer becomes the typed value |
| `TodoComponent.TodoApp.LoadTodos` | project/src/components/TodoApp.jsx:17-29 | one list call; `Ok(data)` sets `todos` to `data`, otherwise `todos` is unchanged; one error only on rejection; `loading` is false afterwards on every path; `Ok(data)` adds the ids of `data` to the ids the store has issued, and every local id is one of them |
| `TodoComponent.TodoApp.AddTodo` | project/src/components/TodoApp.jsx:31-52 | blank input: no call, `todos` and `newTodo` unchanged, one warning; otherwise one create call with the trimmed title, and `Ok(item)` appends `item` and clears the input with one success message, `NotSuccess` changes nothing, `Rejected` adds one error; only `Ok(item)` adds `item`'s id to the issued ids |
| `TodoComponent.TodoApp.ToggleTodo` | project/src/components/TodoApp.jsx:54-69 | one update call with the passed item's flag negated; `Ok` replaces `todos` by `Toggled(todos, id)`; otherwise `todos` is unchanged; one error only on rejection; the issued ids are unchanged |
| `TodoComponent.TodoApp.DeleteTodo` | project/src/components/TodoApp.jsx:71-81 | one delete call; `Ok` replaces `todos` by `Removed(todos, id)` whether or not the store held the id, with one success message; otherwise `todos` is unchanged; one error only on rejection; the issued ids are unchanged |
| `TodoComponent.TodoApp.HandleKeyPress` | project/src/components/TodoApp.jsx:83-87 | Enter behaves exactly as the add handler; any other key changes nothing |
| `Todos.Toggled` | project/src/components/TodoApp.jsx:62-64 | the mapped list has the old list's length |
| `Todos.ToggledAt` | project/src/components/TodoApp.jsx:62-64 | at each position every field but `completed` is kept, and `completed` is the item's own current flag negated exactly where its id matches |
| `Todos.ToggledTwice` | project/src/components/TodoApp.jsx:62-64 | two successful toggles of one id restore the list |
| `Todos.ToggledKeepsIds` | project/src/components/TodoApp.jsx:62-64 | the ids stay in place, so unique ids stay unique |
| `Todos.ToggledAbsent` | project/src/components/TodoApp.jsx:62-64 | toggling an id no item carries leaves the list as it was |
| `Todos.CountId` | project/src/components/TodoApp.jsx:75 | the number of items with an id is zero exactly when no item carries it |
| `Todos.Removed` | project/src/components/TodoApp.jsx:75 | an item is in the result exactly when it was in the list and its id differs |
| `Todos.RemovedConcat` | project/src/components/TodoApp.jsx:75 | filtering distributes over concatenation, so the kept items keep their relative order |
| `Todos.RemovedLength` | project/src/components/TodoApp.jsx:75 | the length drops by the number of items carrying the id |
| `Todos.UniqueCountId` | project/src/components/TodoApp.jsx:75 | with unique ids at most one item matches |
| `Todos.RemovedOne` | project/src/components/TodoApp.jsx:73-76 | with unique ids and the id present the length drops by exactly one; with the id absent the list is unchanged |
| `Todos.RemovedAbsent` | project/src/components/TodoApp.jsx:75 | filtering out an id no item carries leaves the list as it was |
| `Todos.RemovedTwice` | project/src/components/TodoApp.jsx:75 | deleting an id twice is deleting it once |
| `Todos.RemovedKeepsUnique` | project/src/components/TodoApp.jsx:75 | unique ids stay unique after a delete |
| `Todos.CompletedCount` | project/src/components/TodoApp.jsx:89-90 | `completedCount` never exceeds `totalCount` |
| `Todos.CompletedCountExtremes` | project/src/components/TodoApp.jsx:89-90 | `completedCount == totalCount` exactly when every item is completed, and 0 exactly when none is |
| `Todos.CompletedCountAppend` | project/src/components/TodoApp.jsx:45 | appending an item adds its own flag to the count |
| `Todos.CompletedCountToggled` | project/src/components/TodoApp.jsx:62-64 | with unique ids, toggling a present item moves the count by one toward its new flag |
| `Todos.RoundedPercent` | project/src/components/TodoApp.jsx:172 | `r * t` lies within half of `t` from `100 * c`, ties going up: `2tr <= 200c + t < 2tr + 2t` |
| `Todos.Progress` | project/src/components/TodoApp.jsx:168-172 | no figure exactly for an empty list; otherwise a percentage in 0..100 |
| `Todos.RoundedPercentBounds` | project/src/components/TodoApp.jsx:172 | the integer formula lies in 0..100, is within half a point of `100 * c / t`, is 100 exactly when `200 * (t - c) <= t` and 0 exactly when `200 * c < t` |
| `Todos.ProgressRounds` | project/src/components/TodoApp.jsx:168-172 | a percentage is shown exactly for a non-empty list, lies in 0..100, and rounds `100 * completedCount / totalCount` to the nearest integer, halves up |
| `Todos.ProgressFull` | project/src/components/TodoApp.jsx:168-172 | 100% when every item is completed; 100% exactly when at most half a percent of the items are open |
| `Todos.ProgressZero` | project/src/components/TodoApp.jsx:168-172 | 0% exactly when fewer than half a percent are completed, in particular when none is |
| `Todos.ProgressHalf` | project/src/components/TodoApp.jsx:168-172 | two items with one completed show 50% |

## Left out

- Rendering: the JSX, Tailwind classes and antd components are presentation only.
- project/src/App.jsx only wraps the component in a monetization component, which is not part of this model.
- The `Item` store client (`../entities/Item`) is not part of this model; each call's outcome is a parameter, and the server's reply to an update is ignored as the code ignores it.
- Async interleaving: each handler is one atomic step. Lost updates from the stale `todos` captured by `setTodos([...todos, …])`, `todos.map` and `todos.filter` under overlapping calls are not modelled.
- TodoComponent.TodoApp.LoadTodos: `loading` is true only while the list call is pending, which an atomic step cannot show; the contract states only that it is false afterwards.
- Floating point: the progress bar's width style and `Math.round` on a float are replaced by exact integer rounding; rounding errors of the float division are not modelled. In double arithmetic some exact mid-range halves come out just below .5 and round down in the program: 23 of 40 items is 57.49999999999999 and shows 57%, where `Todos.RoundedPercent(23, 40)` is 58; 29 of 200 shows 14% against 15.
- The `useEffect` mount hook is the constructor's one call to `LoadTodos`; React's re-rendering and effect scheduling are not modelled.
