/** The todo store of `src/App.tsx` as values: the entity, the view modes, the
    outcomes of remote calls, and the list transformations the handlers hand
    to `setTodos`, with the batch effects of toggle-all and clear-completed. */
module Todos {
  import Seqs
  import Text

  datatype Option<T> = None | Some(value: T)

  /** One task as the remote store returns it. */
  datatype Todo = Todo(id: int, title: string, completed: bool, userId: int)

  /** The view modes of the list. */
  datatype Filter = All | Active | Completed

  /** The owner every request is made for. */
  const USER_ID: int := 1414

  /** The outcome of one remote call: the transport itself is not modelled,
      each call's outcome is an input of the handler that makes it. */
  datatype Reply<T> = Ok(value: T) | Failed

  /** A call made to the remote store, with the payload it carries. */
  datatype Request =
    | GetTodos(userId: int)
    | CreateTodo(title: string, userId: int, completed: bool)
    | UpdateTodo(payload: Todo)
    | DeleteTodo(todoId: int)

  function Ids(todos: seq<Todo>): (ids: seq<int>)
    ensures |ids| == |todos|
    ensures forall i :: 0 <= i < |todos| ==> ids[i] == todos[i].id
  {
    Seqs.Map(todos, (t: Todo) => t.id)
  }

  /** No id occurs twice. */
  predicate Distinct(ids: seq<int>) {
    forall i, j :: 0 <= i < j < |ids| ==> ids[i] != ids[j]
  }

  /** No two entries of the list share an id. */
  predicate UniqueIds(todos: seq<Todo>) {
    Distinct(Ids(todos))
  }

  /** In a list with unique ids, an id names one todo. */
  lemma SameIdSameTodo(todos: seq<Todo>, t: Todo, u: Todo)
    requires UniqueIds(todos) && t in todos && u in todos && t.id == u.id
    ensures t == u
  {
    var i :| 0 <= i < |todos| && todos[i] == t;
    var j :| 0 <= j < |todos| && todos[j] == u;
    assert !(i < j) && !(j < i);
  }

  /** A subsequence of a list with unique ids has unique ids. */
  lemma {:induction false} UniqueSubsequence(a: seq<Todo>, b: seq<Todo>)
    requires Seqs.IsSubsequence(a, b) && UniqueIds(b)
    ensures UniqueIds(a)
    decreases |b|
  {
    if a != [] {
      if a[0] == b[0] && Seqs.IsSubsequence(a[1..], b[1..]) {
        UniqueSubsequence(a[1..], b[1..]);
        Seqs.SubsequenceMembers(a[1..], b[1..]);
        forall i, j | 0 <= i < j < |a| ensures a[i].id != a[j].id {
          if i == 0 {
            assert a[j] == a[1..][j - 1];
            assert a[j] in b[1..];
            var k :| 0 <= k < |b[1..]| && b[1..][k] == a[j];
            assert b[k + 1] == a[j];
          } else {
            assert a[i] == a[1..][i - 1] && a[j] == a[1..][j - 1];
          }
        }
      } else {
        UniqueSubsequence(a, b[1..]);
      }
    }
  }

  // ---------------------------------------------------------------------
  // The list transformations passed to setTodos

  /** Keeps the todos whose id is not in `gone`; with `gone == {id}` it is
      the callback `todo => todo.id !== id`. */
  function NotIn(gone: set<int>): Todo -> bool {
    (t: Todo) => t.id !in gone
  }

  /** `todos.filter(todo => todo.id !== id)`: the delete of one id. */
  function RemoveById(todos: seq<Todo>, id: int): (r: seq<Todo>)
    ensures forall t :: t in r <==> t in todos && t.id != id
    ensures forall t: Todo :: t.id != id ==> multiset(r)[t] == multiset(todos)[t]
    ensures Seqs.IsSubsequence(r, todos)
    ensures (forall t :: t in todos ==> t.id != id) ==> r == todos
    ensures UniqueIds(todos) ==> UniqueIds(r)
  {
    var keep := NotIn({id});
    var r := Seqs.Filter(todos, keep);
    Seqs.FilterIsSubsequence(todos, keep);
    forall t: Todo | t.id != id ensures multiset(r)[t] == multiset(todos)[t] {
      Seqs.FilterKeepsCount(todos, keep, t);
    }
    if UniqueIds(todos) then UniqueSubsequence(r, todos); r else r
  }

  /** `todos.map(t => t.id === u.id ? u : t)`: the reconciliation of one
      server-returned todo; entries with another id are kept as they were. */
  function ReplaceById(todos: seq<Todo>, u: Todo): (r: seq<Todo>)
    ensures |r| == |todos|
    ensures forall i :: 0 <= i < |todos| && todos[i].id != u.id ==> r[i] == todos[i]
    ensures forall i :: 0 <= i < |todos| && todos[i].id == u.id ==> r[i] == u
  {
    Seqs.Map(todos, (t: Todo) => if t.id == u.id then u else t)
  }

  /** Replacing by id keeps the ids, position by position, so it keeps them unique. */
  lemma ReplaceByIdKeepsIds(todos: seq<Todo>, u: Todo)
    ensures Ids(ReplaceById(todos, u)) == Ids(todos)
    ensures UniqueIds(todos) ==> UniqueIds(ReplaceById(todos, u))
    ensures u.id !in Ids(todos) ==> ReplaceById(todos, u) == todos
  {
    var r := ReplaceById(todos, u);
    assert forall i :: 0 <= i < |todos| ==> r[i].id == todos[i].id;
    if u.id !in Ids(todos) {
      assert forall i :: 0 <= i < |todos| ==> todos[i].id != u.id by {
        forall i | 0 <= i < |todos| ensures todos[i].id != u.id {
          assert Ids(todos)[i] == todos[i].id;
        }
      }
    }
  }

  /** Appending a todo whose id is new keeps the ids unique. */
  lemma AppendKeepsUnique(todos: seq<Todo>, t: Todo)
    requires UniqueIds(todos) && t.id !in Ids(todos)
    ensures UniqueIds(todos + [t])
  {
    var r := todos + [t];
    forall i, j | 0 <= i < j < |r| ensures r[i].id != r[j].id {
      if j == |todos| {
        assert Ids(todos)[i] == todos[i].id;
      }
    }
  }

  // ---------------------------------------------------------------------
  // The view and the two flags derived from the list

  /** The branch of the `switch` inside the `filteredTodos` callback. */
  predicate Matches(filter: Filter, t: Todo) {
    match filter
    case Active => !t.completed
    case Completed => t.completed
    case All => true
  }

  /** The callback of `filteredTodos`. */
  function InView(filter: Filter): Todo -> bool {
    (t: Todo) => Matches(filter, t)
  }

  /** `filteredTodos`: the todos the current view shows, in list order. */
  function FilteredTodos(todos: seq<Todo>, filter: Filter): (r: seq<Todo>)
    ensures forall t :: t in r <==> t in todos && Matches(filter, t)
    ensures forall t :: Matches(filter, t) ==> multiset(r)[t] == multiset(todos)[t]
    ensures Seqs.IsSubsequence(r, todos)
    ensures filter == All ==> r == todos
  {
    var r := Seqs.Filter(todos, InView(filter));
    Seqs.FilterIsSubsequence(todos, InView(filter));
    forall t | Matches(filter, t) ensures multiset(r)[t] == multiset(todos)[t] {
      Seqs.FilterKeepsCount(todos, InView(filter), t);
    }
    r
  }

  /** The Active and Completed views split the list between them. */
  lemma FilterViewsPartition(todos: seq<Todo>)
    ensures multiset(FilteredTodos(todos, Active)) + multiset(FilteredTodos(todos, Completed)) == multiset(todos)
    ensures |FilteredTodos(todos, Active)| + |FilteredTodos(todos, Completed)| == |todos|
  {
    Seqs.FilterPartition(todos, InView(Active), InView(Completed));
  }

  /** `isAllCompleted`: a non-empty list with nothing left to do. */
  predicate IsAllCompleted(todos: seq<Todo>)
    ensures IsAllCompleted(todos) ==> HasCompleted(todos)
  {
    assert todos != [] ==> todos[0] in todos;
    |todos| > 0 && forall t :: t in todos ==> t.completed
  }

  /** `hasCompleted`: clear-completed has something to delete. */
  predicate HasCompleted(todos: seq<Todo>)
    ensures HasCompleted(todos) ==> todos != []
  {
    exists t :: t in todos && t.completed
  }

  /** The two flags read off the views: all completed means a non-empty list
      whose Active view is empty, and some completed means a non-empty
      Completed view. */
  lemma CompletionFlags(todos: seq<Todo>)
    ensures IsAllCompleted(todos) <==> |todos| > 0 && FilteredTodos(todos, Active) == []
    ensures HasCompleted(todos) <==> FilteredTodos(todos, Completed) != []
    ensures IsAllCompleted(todos) ==> HasCompleted(todos)
    ensures HasCompleted(todos) <==> CompletedIds(todos) != []
    ensures todos == [] ==> !IsAllCompleted(todos) && !HasCompleted(todos)
  {
    var active := FilteredTodos(todos, Active);
    var done := FilteredTodos(todos, Completed);
    if active != [] {
      assert active[0] in active;
    }
    if done != [] {
      assert done[0] in done;
    }
    if IsAllCompleted(todos) {
      assert todos[0] in todos;
    }
    CompletedIdsInListOrder(todos);
  }

  // ---------------------------------------------------------------------
  // Toggle-all: which todos it sends and with what value

  /** `shouldCompleteAll`: the value toggle-all sends, true exactly when the
      list is empty or some todo is still incomplete. */
  function ToggleAllTarget(todos: seq<Todo>): bool {
    !IsAllCompleted(todos)
  }

  /** Toggle-all completes everything exactly when the list is empty or some
      todo is still incomplete, and otherwise marks everything active. */
  lemma ToggleAllTargetIff(todos: seq<Todo>)
    ensures ToggleAllTarget(todos) <==> todos == [] || exists t :: t in todos && !t.completed
  {
  }

  /** `toggledList`: every todo when all are completed, otherwise exactly the
      incomplete ones; either way each of them is flipped by the target. */
  function ToggleAllSelection(todos: seq<Todo>): (affected: seq<Todo>)
    ensures Seqs.IsSubsequence(affected, todos)
    ensures IsAllCompleted(todos) ==> affected == todos && !ToggleAllTarget(todos)
    ensures !IsAllCompleted(todos) ==>
              ToggleAllTarget(todos) && forall t :: t in affected <==> t in todos && !t.completed
    ensures forall i :: 0 <= i < |affected| ==> affected[i].completed != ToggleAllTarget(todos)
  {
    var toggledList := FilteredTodos(todos, Active);
    if IsAllCompleted(todos) then
      Seqs.SubsequenceRefl(todos);
      todos
    else
      assert forall i :: 0 <= i < |toggledList| ==> toggledList[i] in toggledList;
      toggledList
  }

  /** When not every todo is completed, toggle-all selects the Active view
      itself: each incomplete todo as often as it occurs, in list order. */
  lemma ToggleAllSelectsActiveView(todos: seq<Todo>)
    ensures !IsAllCompleted(todos) ==> ToggleAllSelection(todos) == FilteredTodos(todos, Active)
  {
  }

  /** The update payloads of toggle-all, one per selected todo. */
  function ToggleAllPayloads(todos: seq<Todo>): (payloads: seq<Todo>)
    ensures |payloads| == |ToggleAllSelection(todos)|
    ensures forall i :: 0 <= i < |payloads| ==>
              payloads[i] == ToggleAllSelection(todos)[i].(completed := ToggleAllTarget(todos))
  {
    var target := ToggleAllTarget(todos);
    Seqs.Map(ToggleAllSelection(todos), (t: Todo) => t.(completed := target))
  }

  function UpdateRequests(payloads: seq<Todo>): (rs: seq<Request>)
    ensures |rs| == |payloads|
    ensures forall i :: 0 <= i < |payloads| ==> rs[i] == UpdateTodo(payloads[i])
  {
    Seqs.Map(payloads, (p: Todo) => UpdateTodo(p))
  }

  function DeleteRequests(ids: seq<int>): (rs: seq<Request>)
    ensures |rs| == |ids|
    ensures forall i :: 0 <= i < |ids| ==> rs[i] == DeleteTodo(ids[i])
  {
    Seqs.Map(ids, (id: int) => DeleteTodo(id))
  }

  // ---------------------------------------------------------------------
  // Batch effects: the replies of a fan-out applied in order

  /** The ids whose call succeeded. */
  function SucceededIds<T>(ids: seq<int>, replies: seq<Reply<T>>): (s: set<int>)
    requires |ids| == |replies|
    ensures forall x :: x in s <==> exists i :: 0 <= i < |ids| && ids[i] == x && replies[i].Ok?
    decreases |ids|
  {
    if ids == [] then {}
    else
      var n := |ids| - 1;
      var before := SucceededIds(ids[..n], replies[..n]);
      assert forall i :: 0 <= i < n ==> ids[..n][i] == ids[i] && replies[..n][i] == replies[i];
      before + if replies[n].Ok? then {ids[n]} else {}
  }

  /** Some call of the batch failed. */
  predicate AnyFailed<T>(replies: seq<Reply<T>>)
    decreases |replies|
  {
    replies != [] && (AnyFailed(replies[..|replies| - 1]) || replies[|replies| - 1].Failed?)
  }

  /** `AnyFailed` holds exactly when some reply of the batch is a failure. */
  lemma {:induction false} AnyFailedIff<T>(replies: seq<Reply<T>>)
    ensures AnyFailed(replies) <==> exists i :: 0 <= i < |replies| && replies[i].Failed?
    decreases |replies|
  {
    if replies != [] {
      var n := |replies| - 1;
      AnyFailedIff(replies[..n]);
      if AnyFailed(replies[..n]) {
        var i :| 0 <= i < n && replies[..n][i].Failed?;
        assert replies[i] == replies[..n][i];
      }
      if exists i :: 0 <= i < |replies| && replies[i].Failed? {
        var i :| 0 <= i < |replies| && replies[i].Failed?;
        if i < n {
          assert replies[..n][i] == replies[i];
        }
      }
    }
  }

  /** The list after the update replies of a fan-out have settled one after
      another: each success replaces the entries with the returned id. */
  function ApplyUpdates(todos: seq<Todo>, replies: seq<Reply<Todo>>): (r: seq<Todo>)
    ensures Ids(r) == Ids(todos)
    decreases |replies|
  {
    if replies == [] then todos
    else
      var n := |replies| - 1;
      var before := ApplyUpdates(todos, replies[..n]);
      match replies[n]
      case Ok(u) => ReplaceByIdKeepsIds(before, u); ReplaceById(before, u)
      case Failed => before
  }

  /** `Unable to update todo with ID ${todo.id}`. */
  function UpdateFailureMessage(id: int): string {
    "Unable to update todo with ID " + Text.DecimalString(id)
  }

  /** The per-item message names the todo: different ids give different messages. */
  lemma UpdateFailureMessageNamesTodo(a: int, b: int)
    requires UpdateFailureMessage(a) == UpdateFailureMessage(b)
    ensures a == b
  {
    var prefix := "Unable to update todo with ID ";
    assert UpdateFailureMessage(a)[|prefix|..] == Text.DecimalString(a);
    assert UpdateFailureMessage(b)[|prefix|..] == Text.DecimalString(b);
    Text.DecimalInjective(a, b);
  }

  /** The error after a toggle-all fan-out: the message of the last failure,
      or the error as it was when nothing failed. */
  function ErrorAfterUpdates(error: string, affected: seq<Todo>, replies: seq<Reply<Todo>>): (e: string)
    requires |affected| == |replies|
    ensures !AnyFailed(replies) ==> e == error
    decreases |replies|
  {
    if replies == [] then error
    else
      var n := |replies| - 1;
      if replies[n].Failed? then UpdateFailureMessage(affected[n].id)
      else ErrorAfterUpdates(error, affected[..n], replies[..n])
  }

  /** The position of the last failed reply of a batch, or -1 when none failed. */
  function LastFailure<T>(replies: seq<Reply<T>>): (i: int)
    ensures -1 <= i < |replies|
    ensures i >= 0 <==> AnyFailed(replies)
    ensures i >= 0 ==> replies[i].Failed?
    ensures forall j :: i < j < |replies| ==> replies[j].Ok?
    decreases |replies|
  {
    if replies == [] then -1
    else
      var n := |replies| - 1;
      if replies[n].Failed? then n
      else
        var i := LastFailure(replies[..n]);
        assert forall j :: i < j < n ==> replies[j] == replies[..n][j];
        i
  }

  /** When some update failed, the error is the message naming the todo of
      the last failed update. */
  lemma {:induction false} ErrorAfterUpdatesIsLastFailure(error: string, affected: seq<Todo>, replies: seq<Reply<Todo>>)
    requires |affected| == |replies|
    ensures AnyFailed(replies) ==>
              ErrorAfterUpdates(error, affected, replies) == UpdateFailureMessage(affected[LastFailure(replies)].id)
    decreases |replies|
  {
    if replies != [] {
      var n := |replies| - 1;
      if replies[n].Ok? {
        ErrorAfterUpdatesIsLastFailure(error, affected[..n], replies[..n]);
        if AnyFailed(replies) {
          assert affected[..n][LastFailure(replies)] == affected[LastFailure(replies)];
        }
      }
    }
  }

  /** The list after the delete replies of a fan-out have settled one after
      another: each success removes the entries with its id. */
  function ApplyDeletes(todos: seq<Todo>, ids: seq<int>, replies: seq<Reply<()>>): (r: seq<Todo>)
    requires |ids| == |replies|
    ensures forall t :: t in r ==> t in todos
    ensures UniqueIds(todos) ==> UniqueIds(r)
    decreases |replies|
  {
    if replies == [] then todos
    else
      var n := |replies| - 1;
      var before := ApplyDeletes(todos, ids[..n], replies[..n]);
      if replies[n].Ok? then RemoveById(before, ids[n]) else before
  }

  /** Removing one more id from a list already filtered by `gone` is one
      filter by `gone` with that id added. */
  lemma RemoveAfterFilter(todos: seq<Todo>, gone: set<int>, id: int)
    ensures RemoveById(Seqs.Filter(todos, NotIn(gone)), id) == Seqs.Filter(todos, NotIn(gone + {id}))
  {
    var both := NotIn(gone + {id});
    assert forall i :: 0 <= i < |todos| ==> both(todos[i]) == (NotIn(gone)(todos[i]) && NotIn({id})(todos[i]));
    Seqs.FilterTwice(todos, NotIn(gone), NotIn({id}), both);
  }

  /** Deleting one id after another is one filter by the set of ids whose
      delete succeeded: what survives is every todo whose id was not deleted,
      in its original order. */
  lemma {:induction false} ApplyDeletesIsFilter(todos: seq<Todo>, ids: seq<int>, replies: seq<Reply<()>>)
    requires |ids| == |replies|
    ensures ApplyDeletes(todos, ids, replies) == Seqs.Filter(todos, NotIn(SucceededIds(ids, replies)))
    decreases |replies|
  {
    if replies == [] {
      assert forall i :: 0 <= i < |todos| ==> NotIn({})(todos[i]);
    } else {
      var n := |replies| - 1;
      var gone' := SucceededIds(ids[..n], replies[..n]);
      ApplyDeletesIsFilter(todos, ids[..n], replies[..n]);
      if replies[n].Ok? {
        assert SucceededIds(ids, replies) == gone' + {ids[n]};
        RemoveAfterFilter(todos, gone', ids[n]);
      } else {
        assert SucceededIds(ids, replies) == gone';
      }
    }
  }

  // One more reply of a fan-out, for the loops that apply them in order.

  lemma AnyFailedStep<T>(replies: seq<Reply<T>>, i: nat)
    requires i < |replies|
    ensures AnyFailed(replies[..i + 1]) <==> AnyFailed(replies[..i]) || replies[i].Failed?
  {
    assert replies[..i + 1][..i] == replies[..i];
  }

  lemma ApplyDeletesStep(todos: seq<Todo>, ids: seq<int>, replies: seq<Reply<()>>, i: nat)
    requires |ids| == |replies| && i < |replies|
    ensures ApplyDeletes(todos, ids[..i + 1], replies[..i + 1])
            == if replies[i].Ok? then RemoveById(ApplyDeletes(todos, ids[..i], replies[..i]), ids[i])
               else ApplyDeletes(todos, ids[..i], replies[..i])
  {
    assert ids[..i + 1][..i] == ids[..i];
    assert replies[..i + 1][..i] == replies[..i];
  }

  lemma ApplyUpdatesStep(todos: seq<Todo>, replies: seq<Reply<Todo>>, i: nat)
    requires i < |replies|
    ensures ApplyUpdates(todos, replies[..i + 1])
            == match replies[i]
               case Ok(u) => ReplaceById(ApplyUpdates(todos, replies[..i]), u)
               case Failed => ApplyUpdates(todos, replies[..i])
  {
    assert replies[..i + 1][..i] == replies[..i];
  }

  lemma ErrorAfterUpdatesStep(error: string, affected: seq<Todo>, replies: seq<Reply<Todo>>, i: nat)
    requires |affected| == |replies| && i < |replies|
    ensures ErrorAfterUpdates(error, affected[..i + 1], replies[..i + 1])
            == if replies[i].Failed? then UpdateFailureMessage(affected[i].id)
               else ErrorAfterUpdates(error, affected[..i], replies[..i])
  {
    assert affected[..i + 1][..i] == affected[..i];
    assert replies[..i + 1][..i] == replies[..i];
  }

  /** `completedTodoIds`: the ids of the completed todos at the time of the call. */
  function CompletedIds(todos: seq<Todo>): (ids: seq<int>)
    ensures forall id :: id in ids <==> exists t :: t in todos && t.completed && t.id == id
    ensures UniqueIds(todos) ==> Distinct(ids)
  {
    var done := FilteredTodos(todos, Completed);
    var ids := Ids(done);
    assert forall i :: 0 <= i < |done| ==> ids[i] == done[i].id && done[i] in done;
    assert forall t :: t in done ==> exists i :: 0 <= i < |done| && done[i] == t && ids[i] == t.id;
    if UniqueIds(todos) then UniqueSubsequence(done, todos); ids else ids
  }

  /** The snapshot lists the ids of the Completed view, in list order. */
  lemma CompletedIdsInListOrder(todos: seq<Todo>)
    ensures CompletedIds(todos) == Ids(FilteredTodos(todos, Completed))
  {
  }

  /** Clear-completed never adds an entry and never touches an incomplete todo. */
  lemma ClearCompletedKeepsIncomplete(todos: seq<Todo>, replies: seq<Reply<()>>)
    requires UniqueIds(todos)
    requires |replies| == |CompletedIds(todos)|
    ensures var r := ApplyDeletes(todos, CompletedIds(todos), replies);
            && (forall t :: t in r ==> t in todos)
            && (forall t :: t in todos && !t.completed ==> t in r)
  {
    var ids := CompletedIds(todos);
    var r := ApplyDeletes(todos, ids, replies);
    ApplyDeletesIsFilter(todos, ids, replies);
    assert forall t :: t in r <==> t in todos && t.id !in SucceededIds(ids, replies);
    forall t | t in todos && !t.completed ensures t in r {
      DeletedIdIsCompleted(todos, ids, replies, t);
    }
  }

  /** Clear-completed, item by item: a completed todo leaves the list exactly
      when its own delete succeeded, and stays when that delete failed. */
  lemma ClearCompletedPerItem(todos: seq<Todo>, replies: seq<Reply<()>>)
    requires UniqueIds(todos)
    requires |replies| == |CompletedIds(todos)|
    ensures var ids := CompletedIds(todos);
            var r := ApplyDeletes(todos, ids, replies);
            forall i, t :: 0 <= i < |ids| && t in todos && t.id == ids[i] ==> (t in r <==> replies[i].Failed?)
  {
    var ids := CompletedIds(todos);
    var gone := SucceededIds(ids, replies);
    var r := ApplyDeletes(todos, ids, replies);
    ApplyDeletesIsFilter(todos, ids, replies);
    assert forall t :: t in r <==> t in todos && t.id !in gone;
    forall i, t | 0 <= i < |ids| && t in todos && t.id == ids[i] ensures t in r <==> replies[i].Failed? {
      if t.id in gone {
        var j :| 0 <= j < |ids| && ids[j] == t.id && replies[j].Ok?;
        assert !(i < j) && !(j < i);
      }
    }
  }

  /** A snapshot id that was deleted belongs to a completed todo, so with
      unique ids an incomplete todo's id is never among them. */
  lemma DeletedIdIsCompleted(todos: seq<Todo>, ids: seq<int>, replies: seq<Reply<()>>, t: Todo)
    requires UniqueIds(todos) && ids == CompletedIds(todos) && |replies| == |ids|
    requires t in todos && !t.completed
    ensures t.id !in SucceededIds(ids, replies)
  {
    if t.id in SucceededIds(ids, replies) {
      var j :| 0 <= j < |ids| && ids[j] == t.id && replies[j].Ok?;
      assert ids[j] in ids;
      var u :| u in todos && u.completed && u.id == t.id;
      SameIdSameTodo(todos, t, u);
    }
  }

  /** When every delete succeeds, clear-completed leaves exactly the Active view. */
  lemma ClearCompletedAllSucceeded(todos: seq<Todo>, replies: seq<Reply<()>>)
    requires UniqueIds(todos)
    requires |replies| == |CompletedIds(todos)|
    requires forall i :: 0 <= i < |replies| ==> replies[i].Ok?
    ensures ApplyDeletes(todos, CompletedIds(todos), replies) == FilteredTodos(todos, Active)
  {
    var ids := CompletedIds(todos);
    var gone := SucceededIds(ids, replies);
    ApplyDeletesIsFilter(todos, ids, replies);
    forall i | 0 <= i < |todos| ensures NotIn(gone)(todos[i]) == InView(Active)(todos[i]) {
      AllDeletedIffCompleted(todos, replies, todos[i]);
    }
    Seqs.FilterExt(todos, NotIn(gone), InView(Active));
  }

  /** When every delete succeeds, a todo's id is among the deleted ones
      exactly when the todo is completed. */
  lemma AllDeletedIffCompleted(todos: seq<Todo>, replies: seq<Reply<()>>, t: Todo)
    requires UniqueIds(todos)
    requires |replies| == |CompletedIds(todos)|
    requires forall i :: 0 <= i < |replies| ==> replies[i].Ok?
    requires t in todos
    ensures t.id in SucceededIds(CompletedIds(todos), replies) <==> t.completed
  {
    var ids := CompletedIds(todos);
    if t.completed {
      assert t.id in ids;
      var j :| 0 <= j < |ids| && ids[j] == t.id;
      assert replies[j].Ok?;
    } else {
      DeletedIdIsCompleted(todos, ids, replies, t);
    }
  }

  /** `completed` set to `value` on the entries whose id is in `ids`. */
  function SetCompleted(todos: seq<Todo>, ids: set<int>, value: bool): (r: seq<Todo>)
    ensures |r| == |todos|
    ensures forall i :: 0 <= i < |todos| ==>
              r[i] == if todos[i].id in ids then todos[i].(completed := value) else todos[i]
  {
    Seqs.Map(todos, (t: Todo) => if t.id in ids then t.(completed := value) else t)
  }

  /** When the server answers each update either with the payload it was sent
      or with a failure, the fan-out sets `value` on exactly the todos whose
      update succeeded and leaves every other entry as it was. */
  lemma {:induction false} EchoedUpdates(todos: seq<Todo>, affected: seq<Todo>, value: bool, replies: seq<Reply<Todo>>)
    requires UniqueIds(todos)
    requires |affected| == |replies|
    requires forall i :: 0 <= i < |affected| ==> affected[i] in todos
    requires forall i :: 0 <= i < |replies| ==> replies[i] == Failed || replies[i] == Ok(affected[i].(completed := value))
    ensures ApplyUpdates(todos, replies) == SetCompleted(todos, SucceededIds(Ids(affected), replies), value)
    decreases |replies|
  {
    if replies == [] {
      assert SetCompleted(todos, {}, value) == todos;
    } else {
      var n := |replies| - 1;
      assert Ids(affected[..n]) == Ids(affected)[..n];
      EchoedUpdates(todos, affected[..n], value, replies[..n]);
      var before := SetCompleted(todos, SucceededIds(Ids(affected)[..n], replies[..n]), value);
      var ok := SucceededIds(Ids(affected), replies);
      match replies[n]
      case Failed =>
        assert ok == SucceededIds(Ids(affected)[..n], replies[..n]);
      case Ok(u) =>
        assert ok == SucceededIds(Ids(affected)[..n], replies[..n]) + {u.id};
        var r := ReplaceById(before, u);
        forall i | 0 <= i < |todos| ensures r[i] == SetCompleted(todos, ok, value)[i] {
          if todos[i].id == u.id {
            SameIdSameTodo(todos, todos[i], affected[n]);
          }
        }
    }
  }

  /** Toggle-all with the server echoing its payloads: a completed todo is
      left untouched unless every todo was completed, and each entry whose
      update succeeded ends with the target value. */
  lemma ToggleAllOutcome(todos: seq<Todo>, replies: seq<Reply<Todo>>)
    requires UniqueIds(todos)
    requires |replies| == |ToggleAllSelection(todos)|
    requires forall i :: 0 <= i < |replies| ==> replies[i] == Failed || replies[i] == Ok(ToggleAllPayloads(todos)[i])
    ensures var r := ApplyUpdates(todos, replies);
            var ok := SucceededIds(Ids(ToggleAllSelection(todos)), replies);
            && |r| == |todos|
            && (forall i :: 0 <= i < |todos| && todos[i].id in ok ==> r[i] == todos[i].(completed := ToggleAllTarget(todos)))
            && (forall i :: 0 <= i < |todos| && todos[i].id !in ok ==> r[i] == todos[i])
            && (!IsAllCompleted(todos) ==> forall i :: 0 <= i < |todos| && todos[i].completed ==> r[i] == todos[i])
  {
    var affected := ToggleAllSelection(todos);
    var ok := SucceededIds(Ids(affected), replies);
    Seqs.SubsequenceMembers(affected, todos);
    EchoedUpdates(todos, affected, ToggleAllTarget(todos), replies);
    if !IsAllCompleted(todos) {
      forall i | 0 <= i < |todos| && todos[i].completed ensures todos[i].id !in ok {
        if todos[i].id in ok {
          var j :| 0 <= j < |affected| && Ids(affected)[j] == todos[i].id && replies[j].Ok?;
          assert affected[j] in affected;
          SameIdSameTodo(todos, todos[i], affected[j]);
        }
      }
    }
  }

  /** Toggle-all where every update succeeds with the payload sent: every
      todo ends with the target value, so all completed becomes all active
      and otherwise everything becomes completed. */
  lemma ToggleAllSucceeded(todos: seq<Todo>, replies: seq<Reply<Todo>>)
    requires UniqueIds(todos)
    requires |replies| == |ToggleAllSelection(todos)|
    requires forall i :: 0 <= i < |replies| ==> replies[i] == Ok(ToggleAllPayloads(todos)[i])
    ensures var r := ApplyUpdates(todos, replies);
            && |r| == |todos|
            && forall i :: 0 <= i < |todos| ==> r[i] == todos[i].(completed := ToggleAllTarget(todos))
  {
    var target := ToggleAllTarget(todos);
    var r := ApplyUpdates(todos, replies);
    ToggleAllOutcome(todos, replies);
    forall i | 0 <= i < |todos| && todos[i].completed != target
      ensures todos[i].id in SucceededIds(Ids(ToggleAllSelection(todos)), replies)
    {
      SelectedSucceeds(todos, replies, todos[i]);
    }
  }

  /** With every update answered, each todo the toggle-all flips is among
      the succeeded ones. */
  lemma SelectedSucceeds(todos: seq<Todo>, replies: seq<Reply<Todo>>, t: Todo)
    requires |replies| == |ToggleAllSelection(todos)|
    requires forall i :: 0 <= i < |replies| ==> replies[i].Ok?
    requires t in todos && t.completed != ToggleAllTarget(todos)
    ensures t.id in SucceededIds(Ids(ToggleAllSelection(todos)), replies)
  {
    var affected := ToggleAllSelection(todos);
    assert t in affected;
    var j :| 0 <= j < |affected| && affected[j] == t;
    assert Ids(affected)[j] == t.id && replies[j].Ok?;
  }
}
