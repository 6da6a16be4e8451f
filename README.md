# To-do list state model

A Dafny model of the state manager of the to-do list app (the `App` React
component). It covers the task list, the filter, the todo being edited, the
three form inputs and the dark-mode flag, plus the handlers that change them:

- add or edit a task;
- toggle its completion;
- delete it;
- load it into the form for editing;
- reorder by drag and drop;
- view the list under a filter;
- choose, store and toggle the theme.

The model has four modules:

- `Js` (js.dfy): the JavaScript built-ins the component depends on, stated as functions on values:
  - `String.prototype.trim`, with the ECMAScript whitespace and line-terminator set;
  - truthiness of an optional string and `x || ''`;
  - `Array.prototype.map`, `filter`, `findIndex` and `splice`, including splice's negative start index.
- `Todos` (todos.dfy): the task record and the pure list transforms the handlers apply, with their lemmas:
  - the map in the edit branch of `addTodo` and in `toggleComplete`;
  - the prepend in `addTodo`;
  - the filters in `deleteTodo` and `filteredTodos`;
  - the remove-then-insert reorder of `handleDrop`.
- `Theme` (theme.dfy): the initial dark-mode flag and the string stored for it.
- `TodoApp` (app.dfy):
  - a class `App` whose fields are the component's state cells and whose methods are its handlers, each an atomic transition;
  - two ghost fields that stand for what the browser's storage holds under `todoapp-tasks-v1` and `todoapp-theme`. `App.Valid()` says storage mirrors the state after every handler and that task ids are pairwise distinct.

`handleDrop` is modelled as the code is written. Both indices are taken from the list before the dragged todo is removed, and the todo is then inserted at the target's original index. So a todo dragged downwards lands just after the target, and one dragged upwards lands just before it. The todo is not placed immediately before the target; it takes the target's original index.

A dragged id that is not in the list is not rejected. `findIndex` gives -1, and `splice(-1, 1)` takes out the last todo, which is then inserted at the target's index. This is also modelled as written (`Todos.ReorderAbsentDraggedMovesLast`).

As in the code, editing or toggling an id that is absent leaves the list unchanged. No "not found" outcome is signalled.

## Model

| member | source | states |
|---|---|---|
| Js.OrEmpty | src/App.jsx:75-76 | `x \|\| ''` gives the string when it is truthy and `''` otherwise (absent or empty) |
| Js.TrimEnd | src/App.jsx:37 | the result is a prefix of the input, everything it drops is whitespace, and it does not end in whitespace |
| Js.Trim | src/App.jsx:37-38 | trim gives the empty string exactly when the input is all whitespace; otherwise the result starts and ends with a non-whitespace character |
| Js.TrimContents | src/App.jsx:37 | the result of trim is a contiguous run of the input, with only whitespace cut off before and after it (`CutAt`) |
| Js.TrimIdempotent | src/App.jsx:37 | trimming a trimmed string changes nothing |
| Js.Map | src/App.jsx:41-45 | map keeps the length and applies the callback at every index |
| Js.Filter | src/App.jsx:69 | filter returns no more elements than its input; FilterCount, FilterMember and FilterIsSubsequence state which ones |
| Js.FilterCount | src/App.jsx:69 | filter keeps each element that passes the test as often as the input has it, and drops every other one |
| Js.FilterMember | src/App.jsx:69 | an element is in the filtered array exactly when it is in the input and passes the test |
| Js.FilterIsSubsequence | src/App.jsx:106-110 | filter keeps the survivors in their original relative order |
| Js.FilterIdempotent | src/App.jsx:69 | filtering twice by the same test is filtering once |
| Js.FilterKeepsAll | src/App.jsx:109 | a test that passes every element returns the input unchanged |
| Js.FindIndex | src/App.jsx:94-95 | findIndex gives -1 exactly when no element matches, and otherwise the first matching index |
| Js.RelativeIndex | src/App.jsx:97 | splice's start index: a negative start counts back from the end, and the result is clamped to the array |
| Js.Splice | src/App.jsx:97-98 | splice removes the clamped delete count and the array's length changes by inserted minus removed |
| Js.SpliceContents | src/App.jsx:97-98 | after splice, the array is the prefix before the start, then the inserted items, then what followed the removed run; the removed run starts at the start index |
| Js.SpliceRemovesOne | src/App.jsx:97 | splice(i, 1) with i from findIndex removes exactly the element at i, or the last element when i is -1 |
| Js.SpliceInsertsOne | src/App.jsx:98 | splice(k, 0, x) puts x at index k and leaves the rest in order |
| Todos.IndexOf | src/App.jsx:94-95 | the index of the first todo with the id, or -1 exactly when no todo has it |
| Todos.IndexOfUnique | src/App.jsx:94-95 | with distinct ids, the lookup finds the one todo that has the id |
| Todos.NewTodo | src/App.jsx:48-54 | a new todo has the given id and the given text, is not completed, and carries the due-date and priority inputs |
| Todos.PrependKeepsUniqueIds | src/App.jsx:48-54 | prepending a todo with a fresh id keeps the ids distinct |
| Todos.Edited | src/App.jsx:43 | the spread record keeps the todo's id and completion and takes the new text, due date and priority |
| Todos.EditTodos | src/App.jsx:41-45 | the edit keeps the length and every todo's id and completion; the todos with the edited id get the new text, due date and priority; every other todo is identical |
| Todos.EditAbsentIsNoOp | src/App.jsx:41-45 | editing an id no todo has leaves the list unchanged |
| Todos.EditRewritesOne | src/App.jsx:41-45 | with distinct ids, the edit rewrites exactly the one todo with that id, in place |
| Todos.EditKeepsUniqueIds | src/App.jsx:41-45 | editing keeps the ids distinct |
| Todos.ToggleTodos | src/App.jsx:63-65 | toggling keeps the length; it flips `completed` exactly on the todos with the id and changes no other field |
| Todos.ToggleTwiceIsIdentity | src/App.jsx:62-66 | toggling the same id twice restores the list |
| Todos.ToggleAbsentIsNoOp | src/App.jsx:62-66 | toggling an absent id leaves the list unchanged |
| Todos.ToggleKeepsUniqueIds | src/App.jsx:62-66 | toggling keeps every id, so ids stay distinct |
| Todos.DeleteTodos | src/App.jsx:69 | after a delete no todo has the id, and the rest are in their original relative order |
| Todos.DeleteKeepsOthers | src/App.jsx:69 | every todo with another id is kept, as often as the list had it |
| Todos.DeleteIdempotent | src/App.jsx:68-70 | deleting the same id twice is deleting it once |
| Todos.DeleteAbsentIsNoOp | src/App.jsx:68-70 | deleting an absent id leaves the list unchanged |
| Todos.DeleteRemovesOne | src/App.jsx:68-70 | with distinct ids, deleting a present id removes exactly the todo at its index |
| Todos.DeleteKeepsUniqueIds | src/App.jsx:68-70 | deleting keeps the ids distinct |
| Todos.FilteredTodos | src/App.jsx:106-110 | the view keeps the todos that pass the filter callback (`Shown`) as an order-preserving subsequence of the list; under 'active' it holds only open todos, under 'completed' only completed ones |
| Todos.FilteredCount | src/App.jsx:106-110 | the view holds every todo the filter shows as often as the list does, and no other todo |
| Todos.FilterAllShowsEverything | src/App.jsx:109 | any filter other than 'active' and 'completed' (such as 'all') shows the list unchanged |
| Todos.ActiveCompletedPartition | src/App.jsx:107-108 | the 'active' and 'completed' views together hold exactly the list's todos, and no todo is in both |
| Todos.MoveTo | src/App.jsx:96-98 | the moved element sits at the target index, the length is kept, and with that element taken out the result reads as the input with it taken out |
| Todos.MoveToPermutes | src/App.jsx:96-98 | moving one element is a permutation |
| Todos.MoveToSource | src/App.jsx:96-98 | each index of the result holds the element from the original index MoveSource gives; the elements between the two indices shift by one |
| Todos.MoveToSide | src/App.jsx:96-98 | moving down leaves the element that was at the target index just before the moved one; moving up leaves it just after |
| Todos.MoveToUndo | src/App.jsx:96-98 | moving the element back restores the sequence |
| Todos.MoveToKeepsUniqueIds | src/App.jsx:96-98 | moving one todo keeps the ids distinct |
| Todos.DragIndex | src/App.jsx:94-97 | the index the dragged todo is removed from: its own index when present, the last index when it is absent |
| Todos.Reorder | src/App.jsx:92-98 | the reorder keeps the length, and dropping a todo on itself changes nothing |
| Todos.ReorderPermutes | src/App.jsx:92-98 | the reorder is a permutation of the list |
| Todos.ReorderPlacesDragged | src/App.jsx:94-98 | with both ids present, the dragged todo sits at the target's original index, and all other todos keep their relative order |
| Todos.ReorderSide | src/App.jsx:94-98 | dragged downwards, the todo lands just after the target; dragged upwards, just before it |
| Todos.ReorderAbsentDraggedMovesLast | src/App.jsx:94-98 | an absent dragged id moves the last todo to the target's index |
| Todos.ReorderKeepsUniqueIds | src/App.jsx:94-98 | the reorder keeps the ids distinct |
| Todos.ReorderUndo | src/App.jsx:94-98 | with distinct ids, dragging the moved todo back onto the todo now at its old index restores the list |
| Todos.SplicesReorder | src/App.jsx:94-98 | the two splices remove exactly one todo and put it back so that the result is the reorder |
| Todos.SplicesMove | src/App.jsx:97-98 | splice(start, 1) with start from findIndex, then splice(to, 0, removed), moves the element at the relative start index to index `to` |
| Theme.InitialDark | src/App.jsx:11-14 | the initial flag is dark when 'dark' is stored; it is light when another non-empty value is stored; with nothing stored it follows the host's preference |
| Theme.ThemeName | src/App.jsx:31 | the stored string is 'dark' exactly when the flag is set, and 'light' otherwise |
| Theme.StoredThemeRestored | src/App.jsx:11-14 | the stored theme string is read back as the same flag, whatever the host prefers |
| TodoApp.App.constructor | src/App.jsx:5-14 | the first state: an empty list, filter 'all', no todo being edited, empty inputs and the initial theme flag; `Valid()` holds, so storage mirrors the state and ids are distinct |
| TodoApp.App.SetTodos | src/App.jsx:25-27 | setTodos with the save effect after it: the list is replaced, storage holds the new list, and `Valid()` is kept |
| TodoApp.App.AddTodo | src/App.jsx:35-60 | blank input changes nothing; editing rewrites the edited todo with the trimmed text (`Js.Trim`) and clears editingId; otherwise the new todo with the trimmed text is prepended; on success the inputs are cleared, ids stay distinct and storage mirrors the list |
| TodoApp.App.ToggleComplete | src/App.jsx:62-66 | the list becomes the toggled list, nothing else changes, and storage mirrors it |
| TodoApp.App.DeleteTodo | src/App.jsx:68-70 | the list becomes the list without the id, nothing else changes, and ids stay distinct |
| TodoApp.App.StartEdit | src/App.jsx:72-77 | the todo's id becomes editingId and its text fills the task input; the due date and priority fill their inputs, or '' when falsy; the list is unchanged |
| TodoApp.App.HandleDrop | src/App.jsx:89-100 | dropping a todo on itself changes nothing; otherwise the list becomes the reorder, ids stay distinct, storage mirrors it, and nothing else changes |
| TodoApp.DropReorder | src/App.jsx:94-98 | the two findIndex lookups and the two splices on a copy yield the reorder |
| TodoApp.App.FilteredTodos | src/App.jsx:106-110 | the view of the current state is the filtered list under the current filter |
| TodoApp.App.SetFilter | src/App.jsx:146 | the filter buttons set the filter |
| TodoApp.App.SetInputs | src/App.jsx:120-132 | the change handlers of the text, due-date and priority inputs; one call sets all three input cells |
| TodoApp.App.ToggleDarkMode | src/App.jsx:165 | the toggle negates the flag, storage holds the new theme string, and nothing else changes |

## Left out

- Rendering, CSS classes and the `data-theme` attribute (src/App.jsx:32, 112-219): presentation only.
- Reading the saved list back at start-up (src/App.jsx:17-22): `JSON.parse` and the browser's storage are not part of this model. The model starts with an empty list.
- Writing to storage (src/App.jsx:25-33): modelled only as the ghost fields `savedTodos` and `savedTheme`, which every handler keeps equal to the state. JSON encoding is not modelled.
- The host's colour-scheme preference (src/App.jsx:13): a boolean parameter of the constructor.
- Drag-event plumbing (src/App.jsx:79-91, 102-104): `dataTransfer`, `classList`, `preventDefault` and `dropEffect`. `HandleDrop` takes the dragged id as read from the event.
- Id generation from the clock and a random number (src/App.jsx:49): the new id is a parameter of `AddTodo`.
- React's state scheduling and re-rendering: each handler is one atomic transition on the fields.
- The 120-character limit (src/App.jsx:123): an attribute of the HTML input that no code path checks.
- TodoApp.App.AddTodo: requires the new id not to be in the list; the clock-and-random id is taken to be fresh.
- TodoApp.App.HandleDrop: requires the target id to be in the list, because drops only happen on rendered todos. It also requires `Valid()`, which it keeps.
- Todos.Reorder: requires the target id to be in the list, for the same reason. A target id missing from the list would give a -1 insertion index, which is not modelled.
