# Todo list controller with a remote store

A Dafny model of the state controller of a React todo application that keeps
an in-memory list of todos in step with a remote CRUD store. The model covers
the application component (`src/App.tsx`) and the per-row component
(`src/components/TodoItem.tsx`):

- `Todos.dfy` holds the values. It defines the `Todo` entity, the view
  filters, the outcome of a remote call (`Reply`) and the calls made
  (`Request`). It also defines the list transformations the handlers pass to
  `setTodos`: append, filter by id, and map-replace by id. The toggle-all
  selection, the completed-id snapshot of clear-completed, and the folds that
  apply the replies of a fan-out one after another are here too, with the
  lemmas about them.
- `App.dfy` holds the class `TodoApp`. Its fields are the component's state
  hooks plus a log `sent` of the calls made to the store. Each event handler
  is a method that takes the outcome of each remote call it makes as a
  parameter. The two `Promise.allSettled` fan-outs are loops
  (`SettleDeletes`, `SettleUpdates`) proved against those folds.
- `TodoItem.dfy` holds the row component. It has the rename decision
  (delete, update or nothing), the class `Item` with its edit state and
  handlers, and the loader's is-active predicate.
- `Text.dfy` models JavaScript's `String.prototype.trim` (the ECMA-262
  whitespace and line terminator set) and the decimal rendering of an id in
  a template literal.
- `Seqs.dfy` models the `filter` and `map` of arrays.

Remote calls are inputs. A handler receives `Ok(value)` or `Failed` for each
call it makes. A fan-out receives one reply per call it issues, in list
order, and applies them in that order. The decimal rendering of
`${todo.id}` is modelled as a minus sign for negative ids followed by the
decimal digits with no leading zero, which is how JavaScript renders a safe
integer.

Behaviour of the code worth noting:

- Clear-completed never puts its ids into a busy marker. Each settled delete
  only resets the single busy id to null (`src/App.tsx:139`).
- No handler checks whether an id is already busy before starting a call.
- Toggle and update replace the entries whose id equals the id the server
  returned, not the id that was sent.
- `handleToggle` shows its error but does not re-throw. `handleSubmit`,
  `handleDeleteTodo` and `handleUpdateTodo` do re-throw; their methods
  return `Rejected` on that path.

## Model

| member | source | states |
|---|---|---|
| App.TodoApp.constructor | src/App.tsx:18-27 | the initial state: an empty list, no error, an empty title, the All filter, nothing busy, no temporary todo, and no call made |
| App.TodoApp.ShowError | src/App.tsx:28-31 | the message replaces the shown error |
| App.TodoApp.FetchTodos | src/App.tsx:33-48 | one GetTodos call for the session's user. Success installs the fetched list and leaves the error as it was. Failure keeps the list and shows the load error. Loading ends false |
| App.TodoApp.ResetForm | src/App.tsx:54-58 | clears the title, the temporary todo and the error |
| App.TodoApp.HandleSubmit | src/App.tsx:65-108 | A title that trims to empty makes no call. It leaves the list, the temporary todo, the busy id and the submitting flag untouched, empties the title, and shows the empty-title error. Otherwise the trimmed title is sent as an incomplete todo of the session's user. Success appends exactly the returned todo after the earlier entries and resets the form. Failure leaves the list unchanged, keeps the trimmed title, shows the add error and rejects. On both paths the temporary todo, the busy id and the submitting flag end cleared |
| App.TodoApp.HandleDeleteTodo | src/App.tsx:110-122 | one DeleteTodo call. Success removes exactly the entries with that id. Failure keeps the list, shows the delete error and rejects. The busy id ends null. Unique ids stay unique |
| App.SettleDeletes | src/App.tsx:129-143 | the loop over the delete replies yields the fold `ApplyDeletes` of the list, and reports a failure exactly when some reply failed |
| App.TodoApp.HandleClearCompleted | src/App.tsx:124-144 | one DeleteTodo per id of the completed-id snapshot, in its order (the Completed view's order, by `CompletedIdsInListOrder`). The list becomes `ApplyDeletes` of the snapshot. The delete error shows exactly when some delete failed. The busy id ends null once any call settled. Unique ids stay unique |
| App.TodoApp.HandleToggle | src/App.tsx:146-163 | sends the todo with only `completed` negated and clears the error. Success reconciles the returned todo by its id. Failure keeps the list and shows the update error. The busy id ends null. Unique ids stay unique |
| App.SettleUpdates | src/App.tsx:178-195 | the loop over the update replies yields the fold `ApplyUpdates` of the list and the error `ErrorAfterUpdates`, which is the message of the last failure |
| App.TodoApp.HandleToggleAll | src/App.tsx:165-198 | sends one update per selected todo with the target value and applies the replies in order. With no failure the error is unchanged; otherwise it is the message naming the todo of the last failed update. The busy list ends empty. Unique ids stay unique |
| App.TodoApp.HandleUpdateTodo | src/App.tsx:200-222 | sends the todo's id and completion with the new title and the session's user. Success reconciles the returned todo by its id. Failure keeps the list, shows the update error and rejects. The busy id ends null. Unique ids stay unique |
| App.TodoApp.HandleTitleChange | src/App.tsx:224-227 | the title becomes the typed text and the error is cleared |
| App.TodoApp.HandleFilterChange | src/App.tsx:229-231 | the filter becomes the chosen one |
| Todos.RemoveById | src/App.tsx:114 | the result holds exactly the entries with another id, each as often as in the list, as a subsequence in the original order. It equals the list when the id is absent, and keeps ids unique |
| Todos.ReplaceById | src/App.tsx:155-157 | length kept; the entries with the returned id become it; every other entry stays as it was at its position |
| Todos.ReplaceByIdKeepsIds | src/App.tsx:211-215 | the ids are kept position by position, so unique ids stay unique, and a todo whose id is absent changes nothing |
| Todos.AppendKeepsUnique | src/App.tsx:97 | appending a todo with a new id keeps the ids unique |
| Todos.FilteredTodos | src/App.tsx:233-242 | the view keeps exactly the todos its filter admits, with their multiplicities and in list order; All is the list itself |
| Todos.FilterViewsPartition | src/App.tsx:233-242 | the Active and Completed views together hold every todo exactly once |
| Todos.IsAllCompleted | src/App.tsx:60-61 | all-completed implies has-completed |
| Todos.HasCompleted | src/App.tsx:63 | has-completed holds only on a non-empty list |
| Todos.CompletionFlags | src/App.tsx:60-63 | all-completed holds exactly when the list is non-empty and its Active view is empty. Has-completed holds exactly when the Completed view is non-empty, which is exactly when the clear-completed snapshot is non-empty. Neither holds on an empty list |
| Todos.ToggleAllTargetIff | src/App.tsx:172 | toggle-all sends true exactly when the list is empty or some todo is incomplete |
| Todos.ToggleAllSelection | src/App.tsx:166-173 | When every todo is completed the selection is the whole list and the target is false. Otherwise the target is true and the selection holds exactly the incomplete todos, in order. Every selected todo is flipped by the target |
| Todos.ToggleAllSelectsActiveView | src/App.tsx:166 | when not every todo is completed, the selection is the Active view itself, so each incomplete todo is selected as often as it occurs |
| Todos.ToggleAllPayloads | src/App.tsx:178-183 | one payload per selected todo: that todo with `completed` set to the target |
| Todos.AnyFailedIff | src/App.tsx:136-137 | the fan-out counts as failed exactly when some reply is a failure |
| Todos.ApplyUpdates | src/App.tsx:185-190 | applying update replies keeps the ids of the list position by position |
| Todos.UpdateFailureMessageNamesTodo | src/App.tsx:192 | the per-item message names its todo: different ids give different messages |
| Todos.ErrorAfterUpdates | src/App.tsx:191-193 | with no failure the error is the one shown before the fan-out |
| Todos.LastFailure | src/App.tsx:177-195 | the position of the last failed reply: it failed, every later reply succeeded, and there is one exactly when some reply failed |
| Todos.ErrorAfterUpdatesIsLastFailure | src/App.tsx:191-193 | when some update failed, the error is the message naming the todo of the last failed update |
| Todos.ApplyDeletes | src/App.tsx:129-143 | applying the delete replies in order adds no entry and keeps unique ids unique |
| Todos.ApplyDeletesIsFilter | src/App.tsx:129-143 | deleting one id after another equals one filter by the set of ids whose delete succeeded, keeping the survivors in their order |
| Todos.CompletedIds | src/App.tsx:125-127 | the snapshot holds exactly the ids of completed todos, without repeats when ids are unique |
| Todos.CompletedIdsInListOrder | src/App.tsx:125-127 | the snapshot is the ids of the Completed view, in list order |
| Todos.ClearCompletedKeepsIncomplete | src/App.tsx:124-144 | for a list with unique ids, clear-completed adds no entry and keeps every incomplete todo |
| Todos.ClearCompletedPerItem | src/App.tsx:129-142 | for a list with unique ids, a completed todo leaves the list exactly when its own delete succeeded, and stays when it failed |
| Todos.ClearCompletedAllSucceeded | src/App.tsx:124-144 | for a list with unique ids, when every delete succeeds the list becomes its Active view |
| Todos.EchoedUpdates | src/App.tsx:176-194 | for a list with unique ids whose selected todos are in the list, when each reply echoes its payload or fails, the fan-out sets the value on exactly the todos whose update succeeded and leaves the rest unchanged |
| Todos.ToggleAllOutcome | src/App.tsx:165-198 | For a list with unique ids and replies that each echo their payload or fail: each succeeded todo ends with the target and every other entry is unchanged. A completed todo is never touched unless all were completed |
| Todos.ToggleAllSucceeded | src/App.tsx:165-198 | for a list with unique ids, when every update succeeds and its reply is the payload it was sent, every todo ends with the target value |
| Text.TrimSpec | src/App.tsx:67 | the trim is the slice of the input between a whitespace prefix and a whitespace suffix, and it neither starts nor ends with whitespace |
| Text.TrimIdempotent | src/components/TodoItem.tsx:55-57 | trimming a trimmed text changes nothing |
| Text.TrimEmptyIff | src/App.tsx:72 | the trim is empty exactly when every character is whitespace |
| Text.TrimPadded | src/components/TodoItem.tsx:55 | a text with no whitespace at its ends, with whitespace added on either side, trims back to exactly that text |
| Text.TrimExample | src/App.tsx:67 | `"  buy milk  "` trims to `"buy milk"` |
| Text.NatToDecimal | src/App.tsx:192 | non-empty decimal digits with no leading zero |
| Text.DecimalRoundTrip | src/App.tsx:192 | the id can be read back from its rendering |
| Text.DecimalInjective | src/App.tsx:192 | different ids render differently |
| TodoItem.RenameDecision | src/components/TodoItem.tsx:45-65 | Text that trims to empty deletes this todo. Otherwise a trimmed text that differs from the title updates the todo to that trimmed, non-empty text. A text that trims to the title makes no call |
| TodoItem.BlankRenameDeletes | src/components/TodoItem.tsx:45-47 | whitespace-only text always deletes the todo |
| TodoItem.UnchangedRenameMakesNoCall | src/components/TodoItem.tsx:55 | a non-empty title without whitespace at its ends, with any whitespace added around it, makes no call |
| TodoItem.IsLoaderActive | src/components/TodoItem.tsx:142-144 | with no busy id and no busy list (or an empty one) no loader shows, and the busy id's row always shows its loader |
| TodoItem.ToggleAllShowsLoaders | src/components/TodoItem.tsx:142-144 | for a list with unique ids, during toggle-all a row that is not the single busy one shows its loader exactly when its todo is selected |
| TodoItem.Item.constructor | src/components/TodoItem.tsx:26-28 | the field starts closed with the todo's title |
| TodoItem.Item.ReceiveTodo | src/components/TodoItem.tsx:17-28 | a re-render with the todo the list now holds under the same id replaces the prop and keeps the edit state |
| TodoItem.Item.HandleEdit | src/components/TodoItem.tsx:34-36 | opens the title field |
| TodoItem.Item.HandleChange | src/components/TodoItem.tsx:38-40 | the edited text becomes the typed one |
| TodoItem.Item.HandleRenameSubmit | src/components/TodoItem.tsx:42-74 | makes the call `RenameDecision` picks. The field stays as it was only when a call was made and threw a truthy error; otherwise it closes |
| TodoItem.Item.HandleKeyUp | src/components/TodoItem.tsx:76-83 | Enter submits the rename. Escape closes the field and restores the title without any call. Other keys change nothing |
| TodoItem.Item.HandleBlur | src/components/TodoItem.tsx:85-87 | leaving the field submits the rename |

## Left out

- Rendering is not modelled: JSX, the `TransitionGroup`/`CSSTransition` animation, class names and the `ErrNotification` component are display only.
- `focusInput` and the focus effects are not modelled, because they are DOM side effects.
- The 3-second timer in `showError` that clears the error is not modelled. It is timer driven, so `ShowError` only sets the message.
- The HTTP client in `src/api/todos` is not part of this model. Each call's outcome is a parameter, and `sent` records the calls.
- The type files `src/types/Todo.ts` and `src/types/Filter.ts` are not part of this model. `Todo` and `Filter` are rebuilt from how `src/App.tsx` uses them.
- Interleaving of concurrent calls and React's batching of state updates are not modelled. Replies settle one at a time, in the order the calls were issued.
- Ids are assumed unique but not enforced. The lemmas about clear-completed, toggle-all and the loaders require a list with unique ids. The handlers keep unique ids unique, except `HandleSubmit` and `FetchTodos`, which install whatever the server returns. `AppendKeepsUnique` states when a create keeps them unique.
- Ids are unbounded integers. JavaScript's exponent form for ids of 10^21 or more, and its loss of precision above 2^53, are not modelled.
- The rendering guard on `USER_ID` (`src/App.tsx:244-246`) is not modelled. The constant is non-zero, so the guard never fires.
- App.TodoApp.HandleClearCompleted: records all deletes before applying any reply, as `map` issues them all at once. Only the final list, error and busy id are stated.
- App.TodoApp.HandleToggleAll: the busy list during the fan-out is not stated. The fan-out runs inside `SettleUpdates`, and only the final empty busy list is stated.
- App.TodoApp.FetchTodos: the loading flag is stated only at the end, not while the call is in flight.
- App.TodoApp.HandleDeleteTodo: the busy id set to the todo's id while the delete is in flight (`src/App.tsx:111`) is not stated. Only its null value afterwards is stated.
- App.TodoApp.HandleToggle: the busy id set to the todo's id while the update is in flight (`src/App.tsx:148`) is not stated. Only its null value afterwards is stated.
- App.TodoApp.HandleUpdateTodo: the busy id set to the todo's id while the update is in flight (`src/App.tsx:201`) is not stated. Only its null value afterwards is stated.
- App.TodoApp.HandleSubmit: the temporary todo and the busy id 0 held during the create call are not stated. Only their cleared values afterwards are stated.
- Todos.ToggleAllOutcome: assumes the server answers each update with the payload it was sent. With any other reply, only `ApplyUpdates`'s id preservation and `ReplaceById`'s contract apply.
- TodoItem.Item.HandleRenameSubmit: the edit state of a row removed by a successful delete is still reported. The component unmounts at that point.
