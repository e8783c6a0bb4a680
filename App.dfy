/** The state controller of `src/App.tsx`: the component's state as the
    fields of one object, and each event handler as a method that is handed
    the outcome of the remote call it makes. A handler's effect is the state
    it leaves once its calls have settled. */
module App {
  import opened Todos
  import Text

  /** How the promise a handler returns settles; the handlers that re-throw
      after showing their error settle `Rejected`. */
  datatype Settlement = Resolved | Rejected

  const LOAD_ERROR := "Unable to load todos"
  const EMPTY_TITLE_ERROR := "Title should not be empty"
  const ADD_ERROR := "Unable to add a todo"
  const DELETE_ERROR := "Unable to delete a todo"
  const UPDATE_ERROR := "Unable to update a todo"

  /** The `Promise.allSettled` of clear-completed: the replies of the deletes
      applied to the list one after another, each success removing the
      entries with its id; reports whether any of them failed. */
  method SettleDeletes(todos: seq<Todo>, ids: seq<int>, replies: seq<Reply<()>>)
    returns (remaining: seq<Todo>, failed: bool)
    requires |ids| == |replies|
    ensures remaining == ApplyDeletes(todos, ids, replies)
    ensures failed == AnyFailed(replies)
  {
    remaining, failed := todos, false;
    var i := 0;
    while i < |ids|
      invariant 0 <= i <= |ids|
      invariant remaining == ApplyDeletes(todos, ids[..i], replies[..i])
      invariant failed == AnyFailed(replies[..i])
    {
      ApplyDeletesStep(todos, ids, replies, i);
      AnyFailedStep(replies, i);
      match replies[i] {
        case Ok(_) =>
          remaining := RemoveById(remaining, ids[i]);
        case Failed =>
          failed := true;
      }
      i := i + 1;
    }
    assert ids[..i] == ids && replies[..i] == replies;
  }

  /** The `Promise.allSettled` of toggle-all: the replies of the updates of
      `affected` applied to the list one after another, each success
      reconciling the returned todo by its id and each failure replacing the
      error with the message naming its todo. */
  method SettleUpdates(todos: seq<Todo>, affected: seq<Todo>, replies: seq<Reply<Todo>>, error: string)
    returns (updated: seq<Todo>, lastError: string)
    requires |affected| == |replies|
    ensures updated == ApplyUpdates(todos, replies)
    ensures lastError == ErrorAfterUpdates(error, affected, replies)
  {
    updated, lastError := todos, error;
    var i := 0;
    while i < |affected|
      invariant 0 <= i <= |affected|
      invariant updated == ApplyUpdates(todos, replies[..i])
      invariant lastError == ErrorAfterUpdates(error, affected[..i], replies[..i])
    {
      ApplyUpdatesStep(todos, replies, i);
      ErrorAfterUpdatesStep(error, affected, replies, i);
      match replies[i] {
        case Ok(u) =>
          updated := ReplaceById(updated, u);
        case Failed =>
          lastError := UpdateFailureMessage(affected[i].id);
      }
      i := i + 1;
    }
    assert affected[..i] == affected && replies[..i] == replies;
  }

  class TodoApp {
    var todos: seq<Todo>
    var isLoading: bool
    var error: string
    var title: string
    var filter: Filter
    var activeTodoId: Option<int>
    var isSubmitting: bool
    var tempTodo: Option<Todo>
    var activeTodoList: seq<int>
    /** The calls made to the remote store, oldest first. */
    var sent: seq<Request>

    /** The initial values of the `useState` hooks. */
    constructor ()
      ensures todos == [] && !isLoading && error == "" && title == "" && filter == All
      ensures activeTodoId == None && !isSubmitting && tempTodo == None && activeTodoList == []
      ensures sent == []
    {
      todos := [];
      isLoading := false;
      error := "";
      title := "";
      filter := All;
      activeTodoId := None;
      isSubmitting := false;
      tempTodo := None;
      activeTodoList := [];
      sent := [];
    }

    /** `showError`: the message replaces whatever error was shown. */
    method ShowError(message: string)
      modifies this`error
      ensures error == message
    {
      error := message;
    }

    /** The fetch made when the component mounts. */
    method FetchTodos(reply: Reply<seq<Todo>>)
      modifies this`todos, this`error, this`isLoading, this`sent
      ensures sent == old(sent) + [GetTodos(USER_ID)]
      ensures reply.Ok? ==> todos == reply.value && error == old(error)
      ensures reply.Failed? ==> todos == old(todos) && error == LOAD_ERROR
      ensures !isLoading
    {
      isLoading := true;
      sent := sent + [GetTodos(USER_ID)];
      match reply {
        case Ok(fetchedTodos) =>
          todos := fetchedTodos;
        case Failed =>
          ShowError(LOAD_ERROR);
      }
      isLoading := false;
    }

    /** `resetForm`. */
    method ResetForm()
      modifies this`title, this`tempTodo, this`error
      ensures title == "" && tempTodo == None && error == ""
    {
      title := "";
      tempTodo := None;
      error := "";
    }

    /** `handleTitleChange`: typing replaces the title and hides the error. */
    method HandleTitleChange(value: string)
      modifies this`title, this`error
      ensures title == value && error == ""
    {
      title := value;
      error := "";
    }

    /** `handleFilterChange`. */
    method HandleFilterChange(newFilter: Filter)
      modifies this`filter
      ensures filter == newFilter
    {
      filter := newFilter;
    }

    /** `handleSubmit`. A title that trims to nothing makes no call and
        changes only the title and the error; otherwise the trimmed title is
        sent, a success appends the returned todo, a failure leaves the list
        as it was, and on both paths the temporary todo, the busy id and the
        submitting flag are cleared. */
    method HandleSubmit(reply: Reply<Todo>) returns (s: Settlement)
      modifies this`todos, this`error, this`title, this`tempTodo, this`isSubmitting, this`activeTodoId, this`sent
      ensures Text.Trim(old(title)) == [] ==>
                && s == Resolved && title == "" && error == EMPTY_TITLE_ERROR
                && sent == old(sent) && todos == old(todos) && tempTodo == old(tempTodo)
                && activeTodoId == old(activeTodoId) && isSubmitting == old(isSubmitting)
      ensures Text.Trim(old(title)) != [] ==>
                && sent == old(sent) + [CreateTodo(Text.Trim(old(title)), USER_ID, false)]
                && tempTodo == None && activeTodoId == None && !isSubmitting
      ensures Text.Trim(old(title)) != [] && reply.Ok? ==>
                todos == old(todos) + [reply.value] && title == "" && error == "" && s == Resolved
      ensures Text.Trim(old(title)) != [] && reply.Failed? ==>
                todos == old(todos) && title == Text.Trim(old(title)) && error == ADD_ERROR && s == Rejected
    {
      var trimmedTitle := Text.Trim(title);
      error := "";
      title := trimmedTitle;
      if trimmedTitle == [] {
        ShowError(EMPTY_TITLE_ERROR);
        return Resolved;
      }
      var newTempTodo := Todo(0, trimmedTitle, false, USER_ID);
      tempTodo := Some(newTempTodo);
      isSubmitting := true;
      activeTodoId := Some(newTempTodo.id);
      sent := sent + [CreateTodo(trimmedTitle, USER_ID, false)];
      match reply {
        case Ok(newTodo) =>
          todos := todos + [newTodo];
          ResetForm();
          s := Resolved;
        case Failed =>
          ShowError(ADD_ERROR);
          s := Rejected;
      }
      isSubmitting := false;
      tempTodo := None;
      activeTodoId := None;
    }

    /** `handleDeleteTodo`: a success removes exactly the entries with that id,
        a failure leaves the list alone and re-throws. */
    method HandleDeleteTodo(todoId: int, reply: Reply<()>) returns (s: Settlement)
      modifies this`todos, this`error, this`activeTodoId, this`sent
      ensures sent == old(sent) + [DeleteTodo(todoId)]
      ensures activeTodoId == None
      ensures reply.Ok? ==> todos == RemoveById(old(todos), todoId) && error == old(error) && s == Resolved
      ensures old(UniqueIds(todos)) ==> UniqueIds(todos)
      ensures reply.Failed? ==> todos == old(todos) && error == DELETE_ERROR && s == Rejected
    {
      activeTodoId := Some(todoId);
      sent := sent + [DeleteTodo(todoId)];
      match reply {
        case Ok(_) =>
          todos := RemoveById(todos, todoId);
          s := Resolved;
        case Failed =>
          ShowError(DELETE_ERROR);
          s := Rejected;
      }
      activeTodoId := None;
    }

    /** `handleClearCompleted`: one delete per id completed at the time of the
        call, all of them issued at once, each reply applied to the list as it
        settles; every settled call clears the busy id. */
    method HandleClearCompleted(replies: seq<Reply<()>>)
      requires |replies| == |CompletedIds(todos)|
      modifies this`todos, this`error, this`activeTodoId, this`sent
      ensures sent == old(sent) + DeleteRequests(CompletedIds(old(todos)))
      ensures todos == ApplyDeletes(old(todos), CompletedIds(old(todos)), replies)
      ensures error == if AnyFailed(replies) then DELETE_ERROR else old(error)
      ensures activeTodoId == if replies == [] then old(activeTodoId) else None
      ensures old(UniqueIds(todos)) ==> UniqueIds(todos)
    {
      var completedTodoIds := CompletedIds(todos);
      sent := sent + DeleteRequests(completedTodoIds);
      var remaining, failed := SettleDeletes(todos, completedTodoIds, replies);
      todos := remaining;
      if failed {
        ShowError(DELETE_ERROR);
      }
      if completedTodoIds != [] {
        activeTodoId := None;
      }
    }

    /** `handleToggle`: sends the todo with `completed` negated; a success
        reconciles the returned todo by its id, a failure leaves the list as it
        was. The error is cleared first and nothing is re-thrown. */
    method HandleToggle(todo: Todo, reply: Reply<Todo>)
      modifies this`todos, this`error, this`activeTodoId, this`sent
      ensures sent == old(sent) + [UpdateTodo(todo.(completed := !todo.completed))]
      ensures activeTodoId == None
      ensures reply.Ok? ==> todos == ReplaceById(old(todos), reply.value) && error == ""
      ensures old(UniqueIds(todos)) ==> UniqueIds(todos)
      ensures reply.Failed? ==> todos == old(todos) && error == UPDATE_ERROR
    {
      error := "";
      activeTodoId := Some(todo.id);
      var updatedTodo := todo.(completed := !todo.completed);
      sent := sent + [UpdateTodo(Todo(updatedTodo.id, updatedTodo.title, updatedTodo.completed, updatedTodo.userId))];
      match reply {
        case Ok(updated) =>
          ReplaceByIdKeepsIds(todos, updated);
          todos := ReplaceById(todos, updated);
        case Failed =>
          ShowError(UPDATE_ERROR);
      }
      activeTodoId := None;
    }

    /** `handleToggleAll`: marks the selected ids busy, sends one update per
        selected todo with the target value, applies each reply as it
        settles, and clears the busy list once all have settled. */
    method HandleToggleAll(replies: seq<Reply<Todo>>)
      requires |replies| == |ToggleAllSelection(todos)|
      modifies this`todos, this`error, this`activeTodoList, this`sent
      ensures sent == old(sent) + UpdateRequests(ToggleAllPayloads(old(todos)))
      ensures todos == ApplyUpdates(old(todos), replies)
      ensures error == ErrorAfterUpdates(old(error), ToggleAllSelection(old(todos)), replies)
      ensures !AnyFailed(replies) ==> error == old(error)
      ensures AnyFailed(replies) ==>
                error == UpdateFailureMessage(ToggleAllSelection(old(todos))[LastFailure(replies)].id)
      ensures activeTodoList == []
      ensures old(UniqueIds(todos)) ==> UniqueIds(todos)
    {
      var toggledList := ToggleAllSelection(todos);
      activeTodoList := Ids(toggledList);
      sent := sent + UpdateRequests(ToggleAllPayloads(todos));
      ErrorAfterUpdatesIsLastFailure(error, toggledList, replies);
      var updatedList, lastError := SettleUpdates(todos, toggledList, replies, error);
      todos, error := updatedList, lastError;
      activeTodoList := [];
    }

    /** `handleUpdateTodo`: sends the todo's id and completion with the new
        title and the session's owner; a success reconciles the returned todo
        by its id, a failure leaves the list as it was and re-throws. */
    method HandleUpdateTodo(todo: Todo, newTitle: string, reply: Reply<Todo>) returns (s: Settlement)
      modifies this`todos, this`error, this`activeTodoId, this`sent
      ensures sent == old(sent) + [UpdateTodo(Todo(todo.id, newTitle, todo.completed, USER_ID))]
      ensures activeTodoId == None
      ensures reply.Ok? ==> todos == ReplaceById(old(todos), reply.value) && error == old(error) && s == Resolved
      ensures reply.Failed? ==> todos == old(todos) && error == UPDATE_ERROR && s == Rejected
      ensures old(UniqueIds(todos)) ==> UniqueIds(todos)
    {
      activeTodoId := Some(todo.id);
      sent := sent + [UpdateTodo(Todo(todo.id, newTitle, todo.completed, USER_ID))];
      match reply {
        case Ok(updatedTodo) =>
          ReplaceByIdKeepsIds(todos, updatedTodo);
          todos := ReplaceById(todos, updatedTodo);
          s := Resolved;
        case Failed =>
          ShowError(UPDATE_ERROR);
          s := Rejected;
      }
      activeTodoId := None;
    }
  }
}
