/** When what a caller was told about a to-do outlives a crash. Replies are given from memory,
    which may be ahead of the state file after a failed save. */
module Rollback {
  import opened Seqs
  import opened Domain
  import opened State
  import opened History
  import opened Durability
  import opened Guarantees
  import Todos

  /** The reply gives this to-do a version it did not have before. */
  predicate Touches(reply: Reply, id: int) {
    || (reply.TodoAdded? && reply.todo.id == id)
    || (reply.TodoUpdated? && reply.todo.id == id)
  }

  /** The to-do was added or updated in memory and nothing has been saved since. */
  predicate UnsavedTodo(codec: StateCodec, events: seq<Event>, n: nat, id: int)
    requires n <= |events|
  {
    if n == 0 then false
    else
      var c := Run(codec, events, n - 1);
      match events[n - 1]
      case Do(op, saved) =>
        if c.mem.Some? && Apply(c.mem.value, op).saves
        then !saved && (Touches(Apply(c.mem.value, op).reply, id) || UnsavedTodo(codec, events, n - 1, id))
        else UnsavedTodo(codec, events, n - 1, id)
      case Authorize(_, _) => UnsavedTodo(codec, events, n - 1, id)
      case Crash => false
      case Open(_, _) => false
  }

  /** A to-do in memory against the saved ones: there unchanged, or all of that id are older. */
  ghost predicate Tracked(t: Todo, saved: seq<Todo>, unsaved: bool) {
    if unsaved then forall u :: u in saved && u.id == t.id ==> u.version < t.version else t in saved
  }

  ghost predicate AllTracked(todos: seq<Todo>, saved: seq<Todo>, unsaved: int -> bool) {
    forall t :: t in todos ==> Tracked(t, saved, unsaved(t.id))
  }

  function SavedOrFresh(saved: Option<StateData>): StateData {
    if saved.Some? then saved.value else Fresh(0)
  }

  /** One operation whose save fails, seen from one to-do. */
  lemma TrackedAfter(d: StateData, op: Op, t: Todo, saved: StateData, unsaved: int -> bool)
    requires Inv(d) && Inv(saved) && saved.nextTodoId <= d.nextTodoId
    requires AllTracked(d.todos, saved.todos, unsaved)
    requires t in Apply(d, op).data.todos
    ensures Tracked(t, saved.todos, Touches(Apply(d, op).reply, t.id) || unsaved(t.id))
  {
    hide Apply, Inv, Updates;
    TodoStep(d, op, t);
    ReplyNames(d, op);
    SavedIds(saved);
    KnownIds(d, t);
    if Updates(op, Apply(d, op).reply, t.id) {
      var prior :| prior in d.todos && t == Todos.Patched(prior, op.patch, op.now);
      assert Tracked(prior, saved.todos, unsaved(prior.id));
    }
  }

  /** The reply names the to-do an update was for, and a new to-do has a new id. */
  lemma ReplyNames(d: StateData, op: Op)
    ensures var reply := Apply(d, op).reply;
      && (reply.TodoAdded? ==> reply.todo.id == d.nextTodoId)
      && (reply.TodoUpdated? ==> op.UpdateTodo? && reply.todo.id == op.todoId)
      && (forall id :: Updates(op, reply, id) <==> reply.TodoUpdated? && reply.todo.id == id)
  {
  }

  lemma SavedIds(saved: StateData)
    requires Inv(saved)
    ensures forall t, u :: t in saved.todos && u in saved.todos && t.id == u.id ==> t == u
    ensures forall t :: t in saved.todos ==> t.id < saved.nextTodoId
  {
  }

  lemma KnownIds(d: StateData, t: Todo)
    requires Inv(d)
    ensures t in d.todos ==> t.id < d.nextTodoId
  {
  }

  /** Memory and the saved state, to-do by to-do, over any run. */
  ghost predicate InStep(codec: StateCodec, events: seq<Event>, n: nat)
    requires n <= |events|
  {
    var mem, saved := Run(codec, events, n).mem, SavedOrFresh(LastSaved(codec, events, n));
    mem.Some? ==>
      && saved.nextTodoId <= mem.value.nextTodoId
      && AllTracked(mem.value.todos, saved.todos, id => UnsavedTodo(codec, events, n, id))
  }

  lemma StepAfterDo(codec: StateCodec, events: seq<Event>, n: nat)
    requires codec.Lawful() && n < |events| && ValidRun(codec, events, n + 1)
    requires InStep(codec, events, n) && events[n].Do?
    ensures InStep(codec, events, n + 1)
  {
    hide Apply, Inv, OpOk, Touches, Tracked;
    var c := Run(codec, events, n);
    var d, op := c.mem.value, events[n].op;
    FileIsLastSaved(codec, events, n);
    FreshInv(0);
    HeldInv(codec, c.file, LastSaved(codec, events, n));
    ApplyCounts(d, op);
    var effect := Apply(d, op);
    if !effect.saves {
      SaysNothingKeepsState(d, op);
    } else if events[n].saved {
      AllPresent(effect.data.todos, id => UnsavedTodo(codec, events, n + 1, id));
    } else {
      forall t | t in effect.data.todos
        ensures Tracked(t, SavedOrFresh(LastSaved(codec, events, n)).todos, UnsavedTodo(codec, events, n + 1, t.id))
      {
        TrackedAfter(d, op, t, SavedOrFresh(LastSaved(codec, events, n)), id => UnsavedTodo(codec, events, n, id));
      }
    }
  }

  lemma HeldInv(codec: StateCodec, file: Option<Bytes>, saved: Option<StateData>)
    requires FileHolds(codec, file, saved)
    ensures Inv(SavedOrFresh(saved))
  {
    FreshInv(0);
  }

  lemma AllPresent(todos: seq<Todo>, unsaved: int -> bool)
    requires forall id :: !unsaved(id)
    ensures AllTracked(todos, todos, unsaved)
  {
  }

  lemma StepAfterOther(codec: StateCodec, events: seq<Event>, n: nat)
    requires codec.Lawful() && n < |events| && ValidRun(codec, events, n + 1)
    requires InStep(codec, events, n) && !events[n].Do?
    ensures InStep(codec, events, n + 1)
  {
    hide Apply, Inv, OpOk, Load, FileHolds, Tracked;
    var c := Run(codec, events, n);
    match events[n]
    case Authorize(_, _) =>
    case Crash =>
    case Open(readable, now) =>
      FileIsLastSaved(codec, events, n);
      LoadGivesSaved(codec, c.file, LastSaved(codec, events, n), readable, now);
      AllPresent(SavedOrFresh(LastSaved(codec, events, n)).todos, id => UnsavedTodo(codec, events, n + 1, id));
  }

  lemma {:induction false} AlwaysInStep(codec: StateCodec, events: seq<Event>, n: nat)
    requires codec.Lawful() && n <= |events| && ValidRun(codec, events, n)
    ensures InStep(codec, events, n)
  {
    if n == 0 {
    } else {
      hide *;
      ValidRunEarlier(codec, events, n - 1, n);
      AlwaysInStep(codec, events, n - 1);
      if events[n - 1].Do? {
        StepAfterDo(codec, events, n - 1);
      } else {
        StepAfterOther(codec, events, n - 1);
      }
    }
  }

  /** The to-dos after a crash right now and an opening. */
  function TodosAfterCrash(codec: StateCodec, c: Config, now: Time): Option<seq<Todo>> {
    var reopened := Next(codec, Next(codec, c, Crash), Open(true, now)).mem;
    if reopened.Some? then Some(reopened.value.todos) else None
  }

  lemma CrashBringsBack(codec: StateCodec, events: seq<Event>, n: nat, now: Time)
    requires codec.Lawful() && n <= |events| && ValidRun(codec, events, n)
    ensures TodosAfterCrash(codec, Run(codec, events, n), now)
         == Some(SavedOrFresh(LastSaved(codec, events, n)).todos)
  {
    hide Apply, Inv, OpOk, Load, FileHolds;
    FileIsLastSaved(codec, events, n);
    LoadGivesSaved(codec, Run(codec, events, n).file, LastSaved(codec, events, n), true, now);
  }

  /** The version of a to-do in memory - the one a conflict reports - is still there after a
      crash exactly if no addition or update of that to-do is unsaved; so is the whole
      to-do. */
  lemma ReportedVersionSurvives(codec: StateCodec, events: seq<Event>, n: nat, t: Todo, now: Time)
    requires codec.Lawful() && n <= |events| && ValidRun(codec, events, n)
    requires Run(codec, events, n).mem.Some? && t in Run(codec, events, n).mem.value.todos
    ensures TodosAfterCrash(codec, Run(codec, events, n), now).Some?
    ensures var after := TodosAfterCrash(codec, Run(codec, events, n), now).value;
      && ((exists u :: u in after && u.id == t.id && u.version == t.version) <==> !UnsavedTodo(codec, events, n, t.id))
      && (t in after <==> !UnsavedTodo(codec, events, n, t.id))
  {
    hide Apply, Run, LastSaved, UnsavedTodo, TodosAfterCrash;
    AlwaysInStep(codec, events, n);
    CrashBringsBack(codec, events, n, now);
    var after := SavedOrFresh(LastSaved(codec, events, n)).todos;
    assert Tracked(t, after, UnsavedTodo(codec, events, n, t.id));
  }

  /** A witness: after an update whose save failed a caller is told version 2, and after a
      crash the to-do is back at version 1. */
  lemma ReportedVersionCanRollBack(codec: StateCodec, owner: string, now: Time)
    requires codec.Lawful()
    ensures var patch := TodoPatch(Some("b"), None);
      var added := Apply(Fresh(now), AddTodo(owner, "a", 0, now)).data;
      var events := [Open(true, now), Do(AddTodo(owner, "a", 0, now), true),
                     Do(UpdateTodo(owner, 1, 1, patch, now), false), Crash, Open(true, now)];
      && ValidRun(codec, events, |events|)
      && Run(codec, events, 3).mem.Some? && UnsavedTodo(codec, events, 3, 1)
      && Apply(Run(codec, events, 3).mem.value, UpdateTodo(owner, 1, 1, patch, now)).reply
           == TodoConflict(Todo(1, owner, "b", 0, 2, now, now))
      && Run(codec, events, 5).mem == Some(added)
      && added.todos == [Todo(1, owner, "a", 0, 1, now, now)]
  {
    var patch := TodoPatch(Some("b"), None);
    var events := [Open(true, now), Do(AddTodo(owner, "a", 0, now), true),
                   Do(UpdateTodo(owner, 1, 1, patch, now), false), Crash, Open(true, now)];
    var added := Apply(Fresh(now), AddTodo(owner, "a", 0, now)).data;
    assert Run(codec, events, 1) == Config(Some(Fresh(now)), None, {});
    assert Run(codec, events, 2) == Config(Some(added), Some(codec.encode(added)), {});
    var first := Todo(1, owner, "a", 0, 1, now, now);
    assert added.todos == [first];
    var second := Todo(1, owner, "b", 0, 2, now, now);
    assert Todos.Update([first], owner, 1, 1, patch, now) == Todos.Swapped([second], second);
    assert Run(codec, events, 3) == Config(Some(added.(todos := [second])), Some(codec.encode(added)), {});
    FreshInv(now);
    ApplyKeepsInv(Fresh(now), AddTodo(owner, "a", 0, now));
    LoadAfterSave(codec, added, now);
    assert Run(codec, events, 4) == Config(None, Some(codec.encode(added)), {});
    assert Run(codec, events, 5).mem == Some(added);
    assert forall n :: 0 <= n < 5 ==> Enabled(Run(codec, events, n), events[n]);
    ValidSteps(codec, events, 5);
  }

  lemma {:induction false} ValidSteps(codec: StateCodec, events: seq<Event>, n: nat)
    requires n <= |events| && forall k :: 0 <= k < n ==> Enabled(Run(codec, events, k), events[k])
    ensures ValidRun(codec, events, n)
  {
    hide Run, Enabled;
    if n != 0 {
      ValidSteps(codec, events, n - 1);
    }
  }
}
