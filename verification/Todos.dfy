/** To-do items changed by compare-and-swap on their version. */
module Todos {
  import opened Seqs
  import opened Domain

  function Is(owner: string, id: int): Todo -> bool {
    (t: Todo) => t.id == id && t.ownerId == owner
  }

  function OwnedBy(owner: string): Todo -> bool {
    (t: Todo) => t.ownerId == owner
  }

  function IndexOf(todos: seq<Todo>, owner: string, id: int): int {
    FirstIndex(Is(owner, id), todos)
  }

  function Ids(todos: seq<Todo>): seq<int> {
    seq(|todos|, i requires 0 <= i < |todos| => todos[i].id)
  }

  function Patched(t: Todo, patch: TodoPatch, now: Time): Todo {
    t.(text := if patch.text.Some? then patch.text.value else t.text,
       status := if patch.status.Some? then patch.status.value else t.status,
       version := t.version + 1,
       updatedAt := now)
  }

  /** A to-do after a list of patches, each with the time it was applied. */
  function FoldPatches(t: Todo, patches: seq<(TodoPatch, Time)>): Todo {
    if patches == [] then t
    else
      var n := |patches| - 1;
      Patched(FoldPatches(t, patches[..n]), patches[n].0, patches[n].1)
  }

  datatype CasOutcome = NotFound | Conflict(current: Todo) | Swapped(todos: seq<Todo>, todo: Todo)

  function Update(todos: seq<Todo>, owner: string, id: int, version: int, patch: TodoPatch, now: Time)
    : CasOutcome
  {
    var i := IndexOf(todos, owner, id);
    if i < 0 then NotFound
    else if todos[i].version != version then Conflict(todos[i])
    else
      var t := Patched(todos[i], patch, now);
      Swapped(todos[i := t], t)
  }

  function Delete(todos: seq<Todo>, owner: string, id: int, version: int): CasOutcome {
    var i := IndexOf(todos, owner, id);
    if i < 0 then NotFound
    else if todos[i].version != version then Conflict(todos[i])
    else Swapped(RemoveAt(todos, i), todos[i])
  }

  /** Ids are distinct, ascending and below the counter; versions start at 1. */
  ghost predicate TodosInv(todos: seq<Todo>, next: int) {
    && 1 <= next
    && (forall i :: 0 <= i < |todos| ==> 1 <= todos[i].id < next && 1 <= todos[i].version)
    && (forall i, j :: 0 <= i < j < |todos| ==> todos[i].id < todos[j].id)
  }

  /** No later call can match this id at this version: the id was given out already and
      whatever still carries it has moved on. */
  ghost predicate Spent(todos: seq<Todo>, next: int, id: int, version: int) {
    id < next && forall i :: 0 <= i < |todos| && todos[i].id == id ==> version < todos[i].version
  }

  /** An update that went through met exactly the version it named, changed no other item,
      and left that version spent. */
  lemma UpdateSpendsVersion(todos: seq<Todo>, next: int, owner: string, id: int, version: int,
                            patch: TodoPatch, now: Time)
    requires TodosInv(todos, next)
    ensures var u := Update(todos, owner, id, version, patch, now);
      u.Swapped? ==>
        && Spent(u.todos, next, id, version)
        && !Spent(todos, next, id, version)
        && TodosInv(u.todos, next)
        && |u.todos| == |todos|
        && forall i :: 0 <= i < |todos| && todos[i].id != id ==> u.todos[i] == todos[i]
  {
    var i := IndexOf(todos, owner, id);
    if 0 <= i && todos[i].version == version {
      assert todos[i].id == id;
    }
  }

  /** The patch's text and status where it gives one and the old ones where it does not, one
      version on, at this time; nothing else differs. */
  predicate Edited(before: Todo, after: Todo, patch: TodoPatch, now: Time) {
    && after.id == before.id && after.ownerId == before.ownerId && after.createdAt == before.createdAt
    && (patch.text.Some? ==> after.text == patch.text.value)
    && (patch.text == None ==> after.text == before.text)
    && (patch.status.Some? ==> after.status == patch.status.value)
    && (patch.status == None ==> after.status == before.status)
    && after.version == before.version + 1
    && after.updatedAt == now
  }

  /** What an update does to the list: it fails if the user has no such to-do, reports the
      stored one if its version is another, and otherwise edits it in its place. */
  lemma UpdateAppliesPatch(todos: seq<Todo>, next: int, owner: string, id: int, version: int,
                           patch: TodoPatch, now: Time)
    requires TodosInv(todos, next)
    ensures var u := Update(todos, owner, id, version, patch, now);
      && (u.NotFound? <==> !exists t :: t in todos && t.ownerId == owner && t.id == id)
      && (u.Conflict? <==> exists t :: t in todos && t.ownerId == owner && t.id == id && t.version != version)
      && (u.Swapped? <==> exists t :: t in todos && t.ownerId == owner && t.id == id && t.version == version)
      && (u.Conflict? ==> u.current in todos && u.current.ownerId == owner && u.current.id == id)
      && (u.Swapped? ==> exists i :: EditedAt(todos, u.todos, i, u.todo, owner, id, version, patch, now))
  {
    var i := IndexOf(todos, owner, id);
    if 0 <= i {
      assert todos[i] in todos;
      forall t | t in todos && t.ownerId == owner && t.id == id
        ensures t == todos[i]
      {
        var k :| 0 <= k < |todos| && todos[k] == t;
      }
      if todos[i].version == version {
        var u := Update(todos, owner, id, version, patch, now);
        assert EditedAt(todos, u.todos, i, u.todo, owner, id, version, patch, now);
      }
    }
  }

  ghost predicate EditedAt(before: seq<Todo>, after: seq<Todo>, i: int, t: Todo, owner: string, id: int, version: int,
                           patch: TodoPatch, now: Time)
  {
    && 0 <= i < |before| == |after|
    && before[i].ownerId == owner && before[i].id == id && before[i].version == version
    && Edited(before[i], after[i], patch, now)
    && t == after[i]
    && (forall j :: 0 <= j < |before| && j != i ==> after[j] == before[j])
  }

  lemma RemovedContents(todos: seq<Todo>, i: nat)
    requires i < |todos|
    ensures var r := RemoveAt(todos, i);
      && |r| == |todos| - 1
      && (forall j :: 0 <= j < |r| ==> r[j] == todos[if j < i then j else j + 1])
      && (forall j :: 0 <= j < |todos| && j != i ==> todos[j] in r)
  {
    var r := RemoveAt(todos, i);
    forall j | 0 <= j < |todos| && j != i
      ensures todos[j] in r
    {
      assert r[if j < i then j else j - 1] == todos[j];
    }
  }

  /** A deletion that went through met exactly the version it named and removed that item
      alone. */
  lemma DeleteSpendsVersion(todos: seq<Todo>, next: int, owner: string, id: int, version: int)
    requires TodosInv(todos, next)
    ensures var d := Delete(todos, owner, id, version);
      d.Swapped? ==>
        && Spent(d.todos, next, id, version)
        && !Spent(todos, next, id, version)
        && TodosInv(d.todos, next)
        && (forall t :: t in d.todos <==> t in todos && t.id != id)
  {
    var i := IndexOf(todos, owner, id);
    if 0 <= i && todos[i].version == version {
      RemovedContents(todos, i);
      assert todos[i].id == id;
    }
  }

  /** When a deletion goes through, and what it reports otherwise. */
  lemma DeleteOutcome(todos: seq<Todo>, next: int, owner: string, id: int, version: int)
    requires TodosInv(todos, next)
    ensures var d := Delete(todos, owner, id, version);
      && (d.NotFound? <==> !exists t :: t in todos && t.ownerId == owner && t.id == id)
      && (d.Swapped? <==> exists t :: t in todos && t.ownerId == owner && t.id == id && t.version == version)
      && (d.Conflict? ==> d.current in todos && d.current.ownerId == owner && d.current.id == id
                          && d.current.version != version)
  {
    var i := IndexOf(todos, owner, id);
    if 0 <= i {
      assert todos[i] in todos;
      forall t | t in todos && t.ownerId == owner && t.id == id
        ensures t == todos[i]
      {
        var k :| 0 <= k < |todos| && todos[k] == t;
      }
    }
  }

  /** A spent version stays spent under every change to the list. */
  lemma SpentStays(todos: seq<Todo>, next: int, owner: string, id: int, version: int,
                   patch: TodoPatch, now: Time, spentId: int, spentVersion: int)
    requires Spent(todos, next, spentId, spentVersion)
    ensures var u := Update(todos, owner, id, version, patch, now);
      u.Swapped? ==> Spent(u.todos, next, spentId, spentVersion)
    ensures var d := Delete(todos, owner, id, version);
      d.Swapped? ==> Spent(d.todos, next, spentId, spentVersion)
  {
    var i := IndexOf(todos, owner, id);
    if 0 <= i {
      RemovedContents(todos, i);
    }
  }
}
