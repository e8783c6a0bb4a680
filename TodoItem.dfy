/** One row of the list, `src/components/TodoItem.tsx`: its local edit state,
    the decision a rename submit takes, and when its loader overlay shows. */
module TodoItem {
  import Text
  import opened Todos

  /** The call a rename submit hands back to the list: `onDelete(todo.id)`,
      `onUpdate(todo, title)`, or none. */
  datatype Delegation = CallDelete(id: int) | CallUpdate(todo: Todo, title: string) | NoCall

  /** How the awaited call ended: it returned, or it threw a value that is
      truthy or falsy. */
  datatype CallOutcome = Returned | Threw(errTruthy: bool)

  /** What a rename submit does with the edited text: a text that trims to
      nothing deletes the todo, a trimmed text that differs from the title
      renames it to that trimmed text, and a text that trims to the current
      title makes no call. */
  function RenameDecision(todo: Todo, newTitle: string): (d: Delegation)
    ensures d.CallDelete? <==> Text.Trim(newTitle) == []
    ensures d.CallDelete? ==> d.id == todo.id
    ensures d.CallUpdate? ==> d.todo == todo && d.title == Text.Trim(newTitle)
    ensures d.CallUpdate? ==> d.title != [] && d.title != todo.title && Text.Trim(d.title) == d.title
    ensures d.NoCall? <==> Text.Trim(newTitle) == todo.title && todo.title != []
  {
    var trimmed := Text.Trim(newTitle);
    if trimmed == [] then CallDelete(todo.id)
    else if trimmed != todo.title then
      Text.TrimIdempotent(newTitle);
      CallUpdate(todo, trimmed)
    else NoCall
  }

  /** Text made only of whitespace always deletes the todo. */
  lemma BlankRenameDeletes(todo: Todo, newTitle: string)
    requires forall i :: 0 <= i < |newTitle| ==> Text.IsWhitespace(newTitle[i])
    ensures RenameDecision(todo, newTitle) == CallDelete(todo.id)
  {
    Text.TrimEmptyIff(newTitle);
  }

  /** Submitting the title unchanged, or with whitespace added around it,
      makes no call when the title itself has no whitespace at its ends. */
  lemma UnchangedRenameMakesNoCall(todo: Todo, before: string, after: string)
    requires todo.title != [] && !Text.IsWhitespace(todo.title[0]) && !Text.IsWhitespace(todo.title[|todo.title| - 1])
    requires forall i :: 0 <= i < |before| ==> Text.IsWhitespace(before[i])
    requires forall i :: 0 <= i < |after| ==> Text.IsWhitespace(after[i])
    ensures RenameDecision(todo, before + todo.title + after) == NoCall
  {
    Text.TrimPadded(before, todo.title, after);
  }

  /** The loader overlay of a row shows while its todo is the busy one, or
      while it is in the busy list of a toggle-all. */
  predicate IsLoaderActive(todoId: int, activeTodoId: Option<int>, activeTodoList: Option<seq<int>>)
    ensures activeTodoId == None && (activeTodoList == None || activeTodoList == Some([])) ==>
              !IsLoaderActive(todoId, activeTodoId, activeTodoList)
    ensures activeTodoId == Some(todoId) ==> IsLoaderActive(todoId, activeTodoId, activeTodoList)
  {
    activeTodoId == Some(todoId) || (activeTodoList.Some? && todoId in activeTodoList.value)
  }

  /** While toggle-all runs (the busy list is the selection's ids), every
      selected row shows its loader and no other row does, unless it is the
      busy one. */
  lemma ToggleAllShowsLoaders(todos: seq<Todo>, activeTodoId: Option<int>, t: Todo)
    requires t in todos && activeTodoId != Some(t.id)
    requires UniqueIds(todos)
    ensures IsLoaderActive(t.id, activeTodoId, Some(Ids(ToggleAllSelection(todos)))) <==> t in ToggleAllSelection(todos)
  {
    var sel := ToggleAllSelection(todos);
    if t in sel {
      var j :| 0 <= j < |sel| && sel[j] == t;
      assert Ids(sel)[j] == t.id;
    }
    if t.id in Ids(sel) {
      var j :| 0 <= j < |sel| && Ids(sel)[j] == t.id;
      assert sel[j] in sel;
      Seqs.SubsequenceMembers(sel, todos);
      SameIdSameTodo(todos, sel[j], t);
    }
  }

  /** The component's own state: the todo it shows (a prop, which the list
      replaces when it re-renders the row), whether the title field is open,
      and the text in it. */
  class Item {
    var todo: Todo
    var isEditing: bool
    var newTitle: string

    /** The initial values of the `useState` hooks. */
    constructor (todo: Todo)
      ensures this.todo == todo && !isEditing && newTitle == todo.title
    {
      this.todo := todo;
      isEditing := false;
      newTitle := todo.title;
    }

    /** A re-render of the row (its key is the todo's id) with the todo the
        list now holds: the prop changes, the edit state is kept. */
    method ReceiveTodo(t: Todo)
      requires t.id == todo.id
      modifies this`todo
      ensures todo == t
    {
      todo := t;
    }

    /** `handleEdit`: a double click opens the title field. */
    method HandleEdit()
      modifies this`isEditing
      ensures isEditing
    {
      isEditing := true;
    }

    /** `handleChange`: typing replaces the edited text. */
    method HandleChange(value: string)
      modifies this`newTitle
      ensures newTitle == value
    {
      newTitle := value;
    }

    /** `handleRenameSubmit`: makes the call `RenameDecision` picks; the field
        closes unless that call threw a truthy error, in which case the edit
        stays open as it was. The edited text is kept either way. */
    method HandleRenameSubmit(outcome: CallOutcome) returns (call: Delegation)
      modifies this`isEditing
      ensures call == RenameDecision(todo, newTitle)
      ensures isEditing <==> old(isEditing) && !call.NoCall? && outcome == Threw(true)
    {
      var errorMsg := false;
      var trimmed := Text.Trim(newTitle);
      if trimmed == [] {
        call := CallDelete(todo.id);
        if outcome.Threw? && outcome.errTruthy {
          errorMsg := true;
        }
      } else if trimmed != todo.title {
        call := CallUpdate(todo, trimmed);
        if outcome.Threw? && outcome.errTruthy {
          errorMsg := true;
        }
      } else {
        call := NoCall;
      }
      if errorMsg {
        return;
      }
      isEditing := false;
    }

    /** `handleKeyUp`: Enter submits the rename, Escape closes the field and
        puts the title back, any other key does nothing. */
    method HandleKeyUp(key: string, outcome: CallOutcome) returns (call: Delegation)
      modifies this`isEditing, this`newTitle
      ensures key == "Enter" ==>
                && call == RenameDecision(todo, old(newTitle)) && newTitle == old(newTitle)
                && (isEditing <==> old(isEditing) && !call.NoCall? && outcome == Threw(true))
      ensures key == "Escape" ==> call == NoCall && !isEditing && newTitle == todo.title
      ensures key != "Enter" && key != "Escape" ==>
                call == NoCall && isEditing == old(isEditing) && newTitle == old(newTitle)
    {
      if key == "Enter" {
        call := HandleRenameSubmit(outcome);
      } else if key == "Escape" {
        isEditing := false;
        newTitle := todo.title;
        call := NoCall;
      } else {
        call := NoCall;
      }
    }

    /** `handleBlur`: leaving the field submits the rename. */
    method HandleBlur(outcome: CallOutcome) returns (call: Delegation)
      modifies this`isEditing
      ensures call == RenameDecision(todo, newTitle)
      ensures isEditing <==> old(isEditing) && !call.NoCall? && outcome == Threw(true)
    {
      call := HandleRenameSubmit(outcome);
    }
  }
}
