# Task list of the simple to-do app

The app is a single React Native screen (`App.js`) that keeps a list of tasks.
Each task has a `title`, a boolean `status` (false = pending, true = done) and a
`timestamp`. The list is newest first. Its in-memory copy is the `tasks` array. A
persisted copy sits in the device's key-value store under the key `"TASKS"`.
This project models the list layer of that screen in Dafny:

- `TaskList` (`tasklist.dfy`) holds the `Task` record and the value-level meaning
  of each change to the list. `Reverse` is what `Array.prototype.reverse` leaves.
  `Removed` is what `splice(i, 1)` leaves. `WithStatus` is the list after one
  entry's status is overwritten. The lemmas about these functions are here too.
- `App` (`app.dfy`) holds the class `TaskStore`. It models the screen's state:
  - the `tasks` array, as an `array<Task>` whose first `len` slots are the list;
  - the key-value store, as a `map<string, seq<Task>>`.

  Its methods are `getTasks`, `addTask`, `removeTask` and `setStatusTask`, plus
  the two bottom-sheet actions that call them. They work in place, as the
  JavaScript does:
  - `addTask` reverses the array in a swap loop, pushes, and reverses again;
  - `removeTask` shifts the later entries down one slot;
  - `setStatusTask` overwrites one slot.

  Each method's `ensures` ties the new list to the old one through the
  `TaskList` functions. It also states what the store then holds.

Environment effects are parameters:
- the creation time is the `timestamp` argument of `AddTask`;
- `readOk` says whether reading or parsing the stored value succeeded;
- `writeOk` says whether `setItem` succeeded.

In the source every mutation happens before the awaited `setItem`. So the
in-memory list changes even when the write fails. In that case only the store
is left as it was.

Three behaviours of the code are worth stating outright:
- Loading. A read or parse failure leaves the list as it was (`App.js:53-55`).
  At start-up that is the empty list. `GetTasks` models this.
- Removal. Removal is by position, and nothing makes records or timestamps
  unique. `RemovedIsGone` proves the removed task is absent only under unique
  timestamps. `DuplicateSurvivesRemoval` shows an equal record surviving
  otherwise.
- Setting a status. `setStatusTask` writes the value it is given. The negation
  happens in the toggle action (`App.js:32`).

## Model

| member | source | states |
|---|---|---|
| `TaskList.Reverse` | App.js:60 | reversing keeps the length of the list |
| `TaskList.ReverseAt` | App.js:60 | position k of the reversed list holds the element k places from the end |
| `TaskList.ReverseReverse` | App.js:60-63 | `Reverse` is its own inverse: reversing twice gives back the list |
| `TaskList.ReversePushReverse` | App.js:60-63 | reverse, push x, reverse equals putting x in front of the unchanged list (prepend) |
| `TaskList.Removed` | App.js:72 | `splice(i, 1)` shortens the list by one; entries before i stay, entries after i move down one place |
| `TaskList.RemovedMultiset` | App.js:72 | removal takes exactly one copy of entry i out of the list's contents and nothing else |
| `TaskList.RemovedIsGone` | App.js:70-72 | with unique timestamps, the removed task's timestamp appears nowhere in the result |
| `TaskList.DuplicateSurvivesRemoval` | App.js:72 | without uniqueness, a record equal to the removed one can remain in the list |
| `TaskList.WithStatus` | App.js:80 | overwriting entry i's status sets it to the given value; length, order, every title and timestamp and every other entry stay the same |
| `TaskList.SetStatusBack` | App.js:78-80 | setting a status and then setting back the old one restores the list |
| `TaskList.DoneThenPending` | App.js:78-80 | `setStatus(i, true)` then `setStatus(i, false)` equals `setStatus(i, false)`: the record is restored except for its status |
| `App.TaskStore.constructor` | App.js:15 | the screen starts with an empty list; the store is what the device holds |
| `App.TaskStore.GetTasks` | App.js:44-57 | when the read succeeds and the slot holds a value, the list becomes the stored list; otherwise the list is unchanged; the store is never changed |
| `App.TaskStore.Store` | App.js:63-82 | a successful `setItem` makes the `"TASKS"` slot equal to the in-memory list and changes no other key; a failed one changes nothing |
| `App.TaskStore.ReverseInPlace` | App.js:60 | the in-place swap loop leaves the array holding `Reverse` of its old contents |
| `App.TaskStore.Push` | App.js:61 | `push` appends the task at the end and keeps every earlier entry |
| `App.TaskStore.AddTask` | App.js:59-68 | the new task, pending with the given title and timestamp, sits at index 0 and the old list follows in order; the length grows by one; on a successful write the slot holds the new list |
| `App.TaskStore.RemoveTask` | App.js:70-76 | the list becomes `Removed(old list, idx)` through the in-place shift-down loop; on a successful write the slot holds the new list |
| `App.TaskStore.SetStatusTask` | App.js:78-84 | the list becomes `WithStatus(old list, idx, status)`; on a successful write the slot holds the new list |
| `App.TaskStore.ToggleLabel` | App.js:29 | the label is 'Todo' exactly when a valid index is selected and that task is done; otherwise it is 'Done' |
| `App.TaskStore.ToggleAction` | App.js:28-34 | the selected task gets the negated status, and that status is done exactly when the label shown before was 'Done' |
| `App.TaskStore.DeleteAction` | App.js:35-41 | the selected task is removed as by `removeTask` |
| `App.ToggleTwice` | App.js:31-33 | pressing the toggle action twice on one task gives back the list it started from, and after a successful second write the slot holds that list |
| `App.LoadAfterStore` | App.js:47-50 | after a successful write, loading gives back the same list: load(persist(list)) == list |

## Left out

- Rendering is not modelled: `FlatList`, `ListItem`, `Modal`, `Overlay`, `FAB`, the styles and the action colours ('blue'/'green'/'red') are UI (`App.js:91-171`).
- The presentation flags are not modelled: `isLoading`, `formVisible`, `bottomSheetVisible`, and the reset of `formTask` after adding. They do not affect the list.
- `new Date().toISOString()` is a clock read. It is the `timestamp` parameter. Nothing assumes timestamps are unique.
- `AsyncStorage` is asynchronous I/O and `JSON.stringify`/`JSON.parse` are foreign calls. The store holds the task list itself, so serialisation round-trips by construction. A value that fails to parse is folded into `readOk == false`.
- Overlapping handlers (two quick deletes, say) and React's batching of `setTasks` are concurrency and framework behaviour. Each operation runs to completion.
- React does not re-render when `setTasks` gets the same array back, as in `addTask` (`tasks.reverse()` returns the same array, passed back at `App.js:66`), `removeTask` and `setStatusTask`. This is framework behaviour. The model tracks the array's contents, which the in-place mutation has already changed.
- `App.TaskStore.ToggleAction` and `App.TaskStore.DeleteAction` require a selected, in-range index. With `selectedIndex` null or out of range the toggle throws a `TypeError`, and `splice` coerces its argument; neither path is modelled. `ToggleLabel` does handle those cases.
- `App.TaskStore.Push` grows its backing array by reallocation when full. The growth policy is the JavaScript engine's and is not the source's.
