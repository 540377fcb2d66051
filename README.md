# To-do list state, counts and submit guard

A Dafny model of the logic in a single-screen React Native to-do app. The model
covers three parts:

- **The list** (`Todos.dfy`, module `Todos`). The App component's list is an
  ordered sequence of `Todo(id, text, completed)` records. It has three
  transitions:
  - `AddTodo` puts a new, not yet completed record in front.
  - `ToggleTodo` flips `completed` on every record whose id matches.
  - `DeleteTodo` drops every record whose id matches.

  All three are functions from the old list to the new one, as in the source.
  They use spread, `map` and `filter`.
- **The counts** (`Stats.dfy`, module `Stats`). The Stats component shows
  total, completed and pending.
- **The submit guard** (`AddTodoForm.dfy`, module `AddTodoForm`). The AddTodo
  component is a class with one field, `text`. `HandleSubmit` ignores a field
  that is blank after trimming. Otherwise it hands on the trimmed text once and
  clears the field. `SubmitAndAdd` models the App component passing `addTodo`
  as the `onAdd` callback.
- **Trimming** (`TrimString.dfy`, module `TrimString`). This is
  `String.prototype.trim`, the TrimString operation of ECMA-262. The white
  space it strips is the WhiteSpace and LineTerminator code points of
  ECMA-262, sections 12.2 (White Space) and 12.3 (Line Terminators), listed one by one.

Ids are not unique in the code. `addTodo` takes its id from the clock, which
can repeat within one millisecond. Loaded data is not checked either. So toggle
and delete are specified for every matching record. Where a claim needs unique
ids (delete shrinks the list by exactly one; a toggle moves exactly one record
between completed and pending), `DistinctIds` is an explicit precondition.

`addTodo` (components/App.js:41-48) stores its argument as given: it neither
trims nor rejects blank text. The blank check and the trimming happen in the
AddTodo component (components/AddTodo.js:8-9).

## Model

| member | source | states |
|---|---|---|
| `Todos.AddTodo` | components/App.js:41-48 | the result is one longer; its head has the given id, the given text unaltered, and `completed == false`; the old list follows unchanged and in order |
| `Todos.ToggleTodo` | components/App.js:50-54 | same length; every record keeps its id and text; records with the id have `completed` negated; all other records are identical |
| `Todos.DeleteTodo` | components/App.js:56-58 | every record with the id is gone, every other record is kept with its multiplicity, in its original relative order (subsequence); the length drops by the number of records carrying the id |
| `Todos.CountIdZeroIffAbsent` | components/App.js:57 | no record carries an id exactly when the number of records carrying it is zero |
| `Todos.CountIdDistinct` | components/App.js:56-58 | with distinct ids, a present id is carried by exactly one record and an absent one by none |
| `Todos.ToggleTwice` | components/App.js:50-54 | toggling the same id twice gives back the original list |
| `Todos.ToggleAbsent` | components/App.js:52 | toggling an id no record carries leaves the list unchanged |
| `Todos.TogglePreservesDistinct` | components/App.js:51-53 | toggling keeps distinct ids distinct |
| `Todos.DeleteAbsent` | components/App.js:57 | deleting an id no record carries leaves the list unchanged |
| `Todos.DeleteRemovesId` | components/App.js:57 | after a delete no record carries the id |
| `Todos.DeleteIdempotent` | components/App.js:56-58 | deleting the same id twice equals deleting it once |
| `Todos.DeleteShrinksByOne` | components/App.js:57 | with distinct ids, deleting a present id shortens the list by exactly one |
| `Todos.DeleteAppend` | components/App.js:57 | delete commutes with concatenation: it decides record by record and keeps order |
| `Todos.DeleteKeepsMembers` | components/App.js:57 | every record that survives a delete was in the list before |
| `Todos.DeletePreservesDistinct` | components/App.js:57 | deleting keeps distinct ids distinct |
| `Todos.AddThenDelete` | components/App.js:41-58 | adding a record with a fresh id and then deleting that id restores the list |
| `Todos.AddDistinctIff` | components/App.js:42-47 | after an add the ids are distinct exactly when they were distinct before and the new id is fresh |
| `Todos.AddToggleDelete` | components/App.js:41-58 | add, toggle and delete of the same fresh id restore the list |
| `Stats.CompletedCount` | components/Stats.js:6 | the filter-length count of completed records is at most the list length |
| `Stats.ComputeCounts` | components/Stats.js:5-7 | total is the length; completed is the number of positions holding a completed record; completed + pending == total; 0 <= completed <= total and pending >= 0 |
| `Stats.CompletedCountSnoc` | components/Stats.js:6 | appending one record raises the completed count by one exactly when that record is completed |
| `Stats.CompletedCountIsPositionCount` | components/Stats.js:6 | the filter-length count equals the size of the set of completed positions |
| `Stats.EmptyCounts` | components/Stats.js:5-7 | the empty list has all three counts 0 |
| `Stats.CountsAfterAdd` | components/Stats.js:5-7 | after an add, total and pending rise by one and completed is unchanged |
| `Stats.CompletedAfterToggle` | components/Stats.js:6 | with distinct ids, toggling one record changes the completed count by exactly one, down if it was completed and up otherwise |
| `Stats.CountsAfterToggle` | components/Stats.js:5-7 | with distinct ids, a toggle keeps total and moves one record between completed and pending |
| `Stats.CompletedAfterDelete` | components/Stats.js:6 | with distinct ids, deleting a record lowers the completed count by one exactly when that record was completed |
| `Stats.CountsAfterDelete` | components/Stats.js:5-7 | with distinct ids, a delete lowers total by one and lowers exactly one of completed and pending by one |
| `TrimString.SkipLeading` | components/AddTodo.js:8 | the end of the longest white-space run starting at a position: everything skipped is white space, and the character it stops at is not |
| `TrimString.SkipTrailing` | components/AddTodo.js:8 | going back from a position, no further than a lower bound, the start of the longest white-space run: everything skipped is white space, and the character before it is not |
| `TrimString.Trim` | components/AddTodo.js:8-9 | the result is a contiguous piece of the input with only white space stripped from each end; neither of its ends is white space; it is empty exactly when the input is all white space |
| `TrimString.TrimUnique` | components/AddTodo.js:8-9 | any string got by stripping white space from the ends that leaves no white space at either end is the trim result |
| `TrimString.TrimIdempotent` | components/AddTodo.js:8-9 | trimming twice equals trimming once |
| `AddTodoForm.AddTodo.constructor` | components/AddTodo.js:5 | the field starts as the empty string |
| `AddTodoForm.AddTodo.SetText` | components/AddTodo.js:21 | typing replaces the field with the typed string |
| `AddTodoForm.AddTodo.HandleSubmit` | components/AddTodo.js:7-12 | blank after trim: nothing is handed on and the field is unchanged; otherwise the trimmed text is handed on once and the field becomes empty; anything handed on is non-empty, trimmed and a contiguous piece of the field |
| `AddTodoForm.SubmitAndAdd` | components/App.js:65 | a submit either leaves the list unchanged or prepends one record with the fresh id, `completed == false` and non-empty trimmed text, with the old list behind it |
| `AddTodoForm.SubmittedRecordIsWellFormed` | components/AddTodo.js:9 | the record a successful submit adds has non-empty text, is not completed, and trimming its text changes nothing |
| `AddTodoForm.BlankSubmitIgnored` | components/AddTodo.js:8 | the empty string and a string of spaces both trim to the empty string, so they are ignored |
| `AddTodoForm.BuyMilkScenario` | components/AddTodo.js:7-12 | from an empty list, submitting "Buy milk" gives exactly one pending record with that text, and the counts are 1, 0, 1 |

## Left out

- Loading and saving (components/App.js:22-39) are left out. They use
  AsyncStorage and `JSON.parse`/`JSON.stringify`, asynchronous library calls
  the model cannot see. Their errors are only logged. So no load/save
  round trip is modelled.
- The `useEffect` hooks (components/App.js:13-20) are left out. They are React
  scheduling of load and save, including writes that may finish out of order.
- `Date.now()` (components/App.js:43) is a clock read. The new id is a
  parameter of `Todos.AddTodo` instead.
- Handlers read the list from the render in which they were created, and
  `setTodos` replaces it. The model takes the current list as input and returns
  the new one; React's batching of state updates is not modelled.
- The `onAdd` callback is modelled as the value `HandleSubmit` returns: `Some`
  of the argument when it would be called, `None` when it would not.
- Ids are unbounded integers. Loaded data could hold non-integer numbers,
  missing or extra fields, or a non-boolean `completed`; records are assumed to
  have the three fields with their declared types.
- Strings are sequences of Unicode scalar values, while JavaScript strings are
  UTF-16 code units. Every white-space code point that trim strips lies in the
  Basic Multilingual Plane outside the surrogate range, so trimming agrees.
  Lone surrogates cannot be represented.
- components/TodoItem.js, components/TodoList.js, components/Header.js,
  components/index.js and app/index.js hold only rendering, style sheets and
  re-exports, so they are not modelled. The same goes for the `StyleSheet`
  blocks and the `todos.length > 0` gate that hides the counts
  (components/App.js:67).
