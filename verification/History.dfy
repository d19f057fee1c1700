/** What a log of operations, applied one after another to a fresh store, leaves behind. */
module History {
  import opened Seqs
  import opened Domain
  import opened State
  import Inbox
  import Todos

  /** The state after the first `p` operations of the log, from a store fresh at `start`. */
  function StateAt(start: Time, log: seq<Op>, p: nat): StateData
    requires p <= |log|
  {
    if p == 0 then Fresh(start) else Apply(StateAt(start, log, p - 1), log[p - 1]).data
  }

  function Replay(start: Time, log: seq<Op>): StateData {
    StateAt(start, log, |log|)
  }

  /** The reply of the operation at position `p` of the log. */
  function ReplyAt(start: Time, log: seq<Op>, p: nat): Reply
    requires p < |log|
  {
    Apply(StateAt(start, log, p), log[p]).reply
  }

  /** The first `p` operations were called as callers of the store do. */
  ghost predicate ValidLog(start: Time, log: seq<Op>, p: nat)
    requires p <= |log|
  {
    p == 0 || (ValidLog(start, log, p - 1) && OpOk(StateAt(start, log, p - 1), log[p - 1]))
  }

  lemma {:induction false} ValidEarlier(start: Time, log: seq<Op>, p: nat, q: nat)
    requires p <= q <= |log| && ValidLog(start, log, q)
    ensures ValidLog(start, log, p)
    decreases q
  {
    hide Apply, OpOk;
    if p < q {
      ValidEarlier(start, log, p, q - 1);
    }
  }

  /** States and validity depend only on the operations before. */
  lemma {:induction false} SharedPrefix(start: Time, a: seq<Op>, b: seq<Op>, p: nat)
    requires p <= |a| && p <= |b|
    requires forall i :: 0 <= i < p ==> a[i] == b[i]
    ensures StateAt(start, a, p) == StateAt(start, b, p)
    ensures ValidLog(start, a, p) == ValidLog(start, b, p)
    ensures forall q :: 0 <= q < p ==> ReplyAt(start, a, q) == ReplyAt(start, b, q)
  {
    hide Apply, OpOk;
    if p != 0 {
      SharedPrefix(start, a, b, p - 1);
    }
  }

  lemma ValidAppend(start: Time, log: seq<Op>, op: Op)
    requires ValidLog(start, log, |log|) && OpOk(Replay(start, log), op)
    ensures ValidLog(start, log + [op], |log| + 1)
    ensures StateAt(start, log + [op], |log|) == Replay(start, log)
    ensures Replay(start, log + [op]) == Apply(Replay(start, log), op).data
    ensures forall p :: 0 <= p < |log| ==> ReplyAt(start, log + [op], p) == ReplyAt(start, log, p)
  {
    hide Apply, OpOk;
    SharedPrefix(start, log + [op], log, |log|);
  }

  lemma {:induction false} InvAt(start: Time, log: seq<Op>, p: nat)
    requires p <= |log| && ValidLog(start, log, p)
    ensures Inv(StateAt(start, log, p))
  {
    hide Apply;
    if p != 0 {
      InvAt(start, log, p - 1);
      ApplyKeepsInv(StateAt(start, log, p - 1), log[p - 1]);
    }
  }

  // ---- Counters ----

  lemma ApplyCounts(d: StateData, op: Op)
    ensures var e := Apply(d, op);
      && d.nextTodoId <= e.data.nextTodoId && d.nextMessageId <= e.data.nextMessageId
      && (e.reply.TodoAdded? ==> e.reply.todo.id == d.nextTodoId < e.data.nextTodoId)
      && (e.reply.MessageAdded? ==> e.reply.message.id == d.nextMessageId < e.data.nextMessageId)
  {
  }

  lemma {:induction false} CountersGrow(start: Time, log: seq<Op>, p: nat, q: nat)
    requires p <= q <= |log|
    ensures StateAt(start, log, p).nextTodoId <= StateAt(start, log, q).nextTodoId
    ensures StateAt(start, log, p).nextMessageId <= StateAt(start, log, q).nextMessageId
    decreases q
  {
    hide Apply;
    if p < q {
      CountersGrow(start, log, p, q - 1);
      ApplyCounts(StateAt(start, log, q - 1), log[q - 1]);
    }
  }

  /** Later additions are given larger ids. */
  lemma AddedIdsGrow(start: Time, log: seq<Op>, p: nat, q: nat)
    requires p < q < |log|
    ensures var a, b := ReplyAt(start, log, p), ReplyAt(start, log, q);
      && (a.TodoAdded? && b.TodoAdded? ==> a.todo.id < b.todo.id)
      && (a.MessageAdded? && b.MessageAdded? ==> a.message.id < b.message.id)
  {
    hide Apply;
    CountersGrow(start, log, p + 1, q);
    ApplyCounts(StateAt(start, log, p), log[p]);
    ApplyCounts(StateAt(start, log, q), log[q]);
  }

  // ---- Compare-and-swap ----

  /** This call changed or deleted the to-do `id` at `version`. */
  predicate Swaps(op: Op, reply: Reply, id: int, version: int) {
    || (op.UpdateTodo? && op.todoId == id && op.version == version && reply.TodoUpdated?)
    || (op.DeleteTodo? && op.todoId == id && op.version == version && reply.TodoDeleted?)
  }

  ghost predicate SpentIn(d: StateData, id: int, version: int) {
    Todos.Spent(d.todos, d.nextTodoId, id, version)
  }

  lemma ApplyKeepsSpent(d: StateData, op: Op, id: int, version: int)
    requires SpentIn(d, id, version)
    ensures SpentIn(Apply(d, op).data, id, version)
  {
    match op
    case UpdateTodo(owner, todoId, v, patch, now) =>
      Todos.SpentStays(d.todos, d.nextTodoId, owner, todoId, v, patch, now, id, version);
    case DeleteTodo(owner, todoId, v) =>
      Todos.SpentStays(d.todos, d.nextTodoId, owner, todoId, v, TodoPatch(None, None), 0, id, version);
    case _ =>
  }

  lemma ApplySpends(d: StateData, op: Op, id: int, version: int)
    requires Inv(d) && Swaps(op, Apply(d, op).reply, id, version)
    ensures !SpentIn(d, id, version)
    ensures SpentIn(Apply(d, op).data, id, version)
  {
    match op
    case UpdateTodo(owner, _, _, patch, now) =>
      Todos.UpdateSpendsVersion(d.todos, d.nextTodoId, owner, id, version, patch, now);
    case DeleteTodo(owner, _, _) =>
      Todos.DeleteSpendsVersion(d.todos, d.nextTodoId, owner, id, version);
  }

  lemma {:induction false} SpentForever(start: Time, log: seq<Op>, p: nat, q: nat, id: int, version: int)
    requires p <= q <= |log|
    requires SpentIn(StateAt(start, log, p), id, version)
    ensures SpentIn(StateAt(start, log, q), id, version)
    decreases q
  {
    hide Apply;
    if p < q {
      SpentForever(start, log, p, q - 1, id, version);
      ApplyKeepsSpent(StateAt(start, log, q - 1), log[q - 1], id, version);
    }
  }

  /** No version of a to-do is swapped twice. */
  lemma SwappedOnce(start: Time, log: seq<Op>, p: nat, q: nat, id: int, version: int)
    requires p < q < |log| && ValidLog(start, log, q)
    requires Swaps(log[p], ReplyAt(start, log, p), id, version)
    ensures !Swaps(log[q], ReplyAt(start, log, q), id, version)
  {
    hide Apply, ValidLog;
    ValidEarlier(start, log, p, q);
    InvAt(start, log, p);
    InvAt(start, log, q);
    ApplySpends(StateAt(start, log, p), log[p], id, version);
    SpentForever(start, log, p + 1, q, id, version);
    if Swaps(log[q], ReplyAt(start, log, q), id, version) {
      ApplySpends(StateAt(start, log, q), log[q], id, version);
    }
  }

  // ---- To-dos as folds of their patches ----

  predicate Updates(op: Op, reply: Reply, id: int) {
    op.UpdateTodo? && op.todoId == id && reply.TodoUpdated?
  }

  /** The patches the first `p` operations applied to to-do `id`, in order, with their times. */
  function Patches(start: Time, log: seq<Op>, id: int, p: nat): seq<(TodoPatch, Time)>
    requires p <= |log|
  {
    if p == 0 then []
    else
      var before := Patches(start, log, id, p - 1);
      var op := log[p - 1];
      if Updates(op, ReplyAt(start, log, p - 1), id) then before + [(op.patch, op.now)] else before
  }

  ghost predicate CreatedBefore(start: Time, log: seq<Op>, t: Todo, p: nat)
    requires p <= |log|
  {
    exists q :: 0 <= q < p && ReplyAt(start, log, q) == TodoAdded(t)
  }

  /** `t` is some to-do the log created, after exactly the patches the log applied to it. */
  ghost predicate IsFold(start: Time, log: seq<Op>, t: Todo, p: nat)
    requires p <= |log|
  {
    exists created: Todo ::
      && CreatedBefore(start, log, created, p)
      && t == Todos.FoldPatches(created, Patches(start, log, t.id, p))
  }

  lemma {:induction false} FoldVersion(created: Todo, patches: seq<(TodoPatch, Time)>)
    ensures var t := Todos.FoldPatches(created, patches);
      t.version == created.version + |patches| && t.id == created.id && t.ownerId == created.ownerId
  {
    if patches != [] {
      FoldVersion(created, patches[..|patches| - 1]);
    }
  }

  /** What one operation can do to the to-do list. */
  lemma TodoStep(d: StateData, op: Op, t: Todo)
    requires Inv(d)
    requires t in Apply(d, op).data.todos
    ensures var reply := Apply(d, op).reply;
      || (t in d.todos && !Updates(op, reply, t.id))
      || (Updates(op, reply, t.id) && exists prior :: prior in d.todos && t == Todos.Patched(prior, op.patch, op.now))
      || reply == TodoAdded(t)
  {
    var after := Apply(d, op).data.todos;
    var k :| 0 <= k < |after| && after[k] == t;
    match op
    case UpdateTodo(owner, id, version, patch, now) =>
      var i := Todos.IndexOf(d.todos, owner, id);
      if k == i {
        assert d.todos[i] in d.todos;
      }
    case DeleteTodo(owner, id, version) =>
      Todos.DeleteSpendsVersion(d.todos, d.nextTodoId, owner, id, version);
    case _ =>
  }

  lemma UpdatesKnownId(d: StateData, op: Op, id: int)
    requires Inv(d) && Updates(op, Apply(d, op).reply, id)
    ensures id < d.nextTodoId
  {
  }

  lemma {:induction false} NoPatchesYet(start: Time, log: seq<Op>, id: int, p: nat)
    requires p <= |log| && ValidLog(start, log, p)
    requires StateAt(start, log, p).nextTodoId <= id
    ensures Patches(start, log, id, p) == []
  {
    hide Apply;
    if p != 0 {
      InvAt(start, log, p - 1);
      CountersGrow(start, log, p - 1, p);
      NoPatchesYet(start, log, id, p - 1);
      if Updates(log[p - 1], ReplyAt(start, log, p - 1), id) {
        UpdatesKnownId(StateAt(start, log, p - 1), log[p - 1], id);
      }
    }
  }

  lemma FoldCreated(start: Time, log: seq<Op>, t: Todo, p: nat)
    requires p < |log| && ValidLog(start, log, p)
    requires ReplyAt(start, log, p) == TodoAdded(t)
    ensures IsFold(start, log, t, p + 1)
  {
    hide Apply;
    ApplyCounts(StateAt(start, log, p), log[p]);
    NoPatchesYet(start, log, t.id, p);
    assert CreatedBefore(start, log, t, p + 1);
    assert t == Todos.FoldPatches(t, []);
  }

  lemma FoldUntouched(start: Time, log: seq<Op>, t: Todo, p: nat)
    requires p < |log| && IsFold(start, log, t, p)
    requires !Updates(log[p], ReplyAt(start, log, p), t.id)
    ensures IsFold(start, log, t, p + 1)
  {
    hide Apply;
    var created: Todo :| CreatedBefore(start, log, created, p)
      && t == Todos.FoldPatches(created, Patches(start, log, t.id, p));
    assert CreatedBefore(start, log, created, p + 1);
  }

  lemma FoldPatched(start: Time, log: seq<Op>, prior: Todo, p: nat)
    requires p < |log| && IsFold(start, log, prior, p)
    requires Updates(log[p], ReplyAt(start, log, p), prior.id)
    ensures IsFold(start, log, Todos.Patched(prior, log[p].patch, log[p].now), p + 1)
  {
    hide Apply;
    var created: Todo :| CreatedBefore(start, log, created, p)
      && prior == Todos.FoldPatches(created, Patches(start, log, prior.id, p));
    assert CreatedBefore(start, log, created, p + 1);
    var all := Patches(start, log, prior.id, p + 1);
    assert all[..|all| - 1] == Patches(start, log, prior.id, p);
  }

  // ---- What a to-do says ----

  /** The text this call gave to-do `id`, if it gave one. */
  function TextGiven(op: Op, reply: Reply, id: int): Option<string> {
    if op.AddTodo? && reply.TodoAdded? && reply.todo.id == id then Some(op.text)
    else if Updates(op, reply, id) then op.patch.text
    else None
  }

  function StatusGiven(op: Op, reply: Reply, id: int): Option<int> {
    if op.AddTodo? && reply.TodoAdded? && reply.todo.id == id then Some(op.status)
    else if Updates(op, reply, id) then op.patch.status
    else None
  }

  /** The text last given to to-do `id` among the first `p` operations. */
  function LatestText(start: Time, log: seq<Op>, id: int, p: nat): Option<string>
    requires p <= |log|
  {
    if p == 0 then None
    else
      var given := TextGiven(log[p - 1], ReplyAt(start, log, p - 1), id);
      if given.Some? then given else LatestText(start, log, id, p - 1)
  }

  function LatestStatus(start: Time, log: seq<Op>, id: int, p: nat): Option<int>
    requires p <= |log|
  {
    if p == 0 then None
    else
      var given := StatusGiven(log[p - 1], ReplyAt(start, log, p - 1), id);
      if given.Some? then given else LatestStatus(start, log, id, p - 1)
  }

  /** This call added the to-do for its owner, at the time it says it was created. */
  predicate AddedBy(op: Op, reply: Reply, t: Todo) {
    op.AddTodo? && reply.TodoAdded? && reply.todo.id == t.id && op.owner == t.ownerId && op.now == t.createdAt
  }

  /** The to-do is somebody's addition, and says what it was last told. */
  ghost predicate SaysLatest(start: Time, log: seq<Op>, t: Todo, p: nat)
    requires p <= |log|
  {
    && LatestText(start, log, t.id, p) == Some(t.text)
    && LatestStatus(start, log, t.id, p) == Some(t.status)
    && exists q :: 0 <= q < p && AddedBy(log[q], ReplyAt(start, log, q), t)
  }

  /** One operation, seen from one to-do after it: what it was given, it says, and otherwise it
      says what it said before. */
  lemma TellStep(d: StateData, op: Op, t: Todo) returns (prior: Todo)
    requires Inv(d)
    requires t in Apply(d, op).data.todos
    ensures var reply := Apply(d, op).reply;
      var text, status := TextGiven(op, reply, t.id), StatusGiven(op, reply, t.id);
      && (text.Some? ==> t.text == text.value)
      && (status.Some? ==> t.status == status.value)
      && (AddedBy(op, reply, t) ==> text.Some? && status.Some?)
      && (!AddedBy(op, reply, t) ==>
            && prior in d.todos
            && prior.id == t.id && prior.ownerId == t.ownerId && prior.createdAt == t.createdAt
            && (text == None ==> t.text == prior.text)
            && (status == None ==> t.status == prior.status))
  {
    TodoStep(d, op, t);
    prior := t;
    if Updates(op, Apply(d, op).reply, t.id) {
      prior :| prior in d.todos && t == Todos.Patched(prior, op.patch, op.now);
    }
  }

  /** Every stored to-do has the text and the status last given to it, by the latest update
      that gave one or else by its addition, and is owned and dated by its addition. */
  lemma {:induction false} TodosSayLatest(start: Time, log: seq<Op>, t: Todo, p: nat)
    requires p <= |log| && ValidLog(start, log, p)
    requires t in StateAt(start, log, p).todos
    ensures SaysLatest(start, log, t, p)
    decreases p
  {
    hide Apply, Inv, TextGiven, StatusGiven, AddedBy;
    InvAt(start, log, p - 1);
    var prior := TellStep(StateAt(start, log, p - 1), log[p - 1], t);
    if AddedBy(log[p - 1], ReplyAt(start, log, p - 1), t) {
    } else {
      TodosSayLatest(start, log, prior, p - 1);
      var q :| 0 <= q < p - 1 && AddedBy(log[q], ReplyAt(start, log, q), prior);
      SameAddition(log[q], ReplyAt(start, log, q), prior, t);
    }
  }

  lemma SameAddition(op: Op, reply: Reply, a: Todo, b: Todo)
    requires AddedBy(op, reply, a) && a.id == b.id && a.ownerId == b.ownerId && a.createdAt == b.createdAt
    ensures AddedBy(op, reply, b)
  {
  }

  /** Every stored to-do is its creation followed by exactly the updates that succeeded on
      it, in order, and says what the latest of them that did gave it. */
  lemma {:induction false} TodosAreFolds(start: Time, log: seq<Op>, t: Todo, p: nat)
    requires p <= |log| && ValidLog(start, log, p)
    requires t in StateAt(start, log, p).todos
    ensures IsFold(start, log, t, p)
    ensures SaysLatest(start, log, t, p)
    decreases p
  {
    hide Apply, IsFold, Inv, SaysLatest;
    TodosSayLatest(start, log, t, p);
    var d := StateAt(start, log, p - 1);
    InvAt(start, log, p - 1);
    TodoStep(d, log[p - 1], t);
    if ReplyAt(start, log, p - 1) == TodoAdded(t) {
      FoldCreated(start, log, t, p - 1);
    } else if Updates(log[p - 1], ReplyAt(start, log, p - 1), t.id) {
      var prior :| prior in d.todos && t == Todos.Patched(prior, log[p - 1].patch, log[p - 1].now);
      TodosAreFolds(start, log, prior, p - 1);
      FoldPatched(start, log, prior, p - 1);
    } else {
      TodosAreFolds(start, log, t, p - 1);
      FoldUntouched(start, log, t, p - 1);
    }
  }

  lemma AddedAtVersionOne(d: StateData, op: Op)
    ensures Apply(d, op).reply.TodoAdded? ==> Apply(d, op).reply.todo.version == 1
  {
  }

  /** A stored to-do's version is one plus the number of updates that succeeded on it. */
  lemma VersionCountsUpdates(start: Time, log: seq<Op>, t: Todo)
    requires ValidLog(start, log, |log|)
    requires t in Replay(start, log).todos
    ensures t.version == 1 + |Patches(start, log, t.id, |log|)|
  {
    hide Apply;
    TodosAreFolds(start, log, t, |log|);
    var created: Todo :| CreatedBefore(start, log, created, |log|)
      && t == Todos.FoldPatches(created, Patches(start, log, t.id, |log|));
    var q :| 0 <= q < |log| && ReplyAt(start, log, q) == TodoAdded(created);
    AddedAtVersionOne(StateAt(start, log, q), log[q]);
    FoldVersion(created, Patches(start, log, t.id, |log|));
  }

  // ---- The inbox as a window on everything ever sent ----

  /** Every message the first `p` operations added, with its current acknowledgement, kept
      for ever. */
  function Sent(log: seq<Op>, p: nat): seq<Message>
    requires p <= |log|
  {
    if p == 0 then [] else Send(Sent(log, p - 1), log[p - 1])
  }

  function Send(sent: seq<Message>, op: Op): seq<Message> {
    match op
    case AddDeviceMessage(owner, deviceId, author, body, priority, now) =>
      sent + [NewMessage(|sent| + 1, owner, deviceId, author, body, priority, now)]
    case AckDeviceMessages(deviceId, ids, now) => Inbox.AckAll(sent, deviceId, ids, now)
    case _ => sent
  }

  /** The stored list is the last hundred of `sent`, and ids count messages. */
  ghost predicate WindowOn(d: StateData, sent: seq<Message>) {
    && d.messages == Recent(Inbox.MAX_MESSAGES, sent)
    && d.nextMessageId == |sent| + 1
    && forall i :: 0 <= i < |sent| ==> sent[i].id == i + 1
  }

  lemma WindowStep(d: StateData, op: Op, sent: seq<Message>)
    requires WindowOn(d, sent)
    ensures WindowOn(Apply(d, op).data, Send(sent, op))
  {
    match op
    case AddDeviceMessage(owner, deviceId, author, body, priority, now) =>
      RecentSnoc(Inbox.MAX_MESSAGES, sent, NewMessage(|sent| + 1, owner, deviceId, author, body, priority, now));
    case AckDeviceMessages(deviceId, ids, now) =>
      assert Recent(Inbox.MAX_MESSAGES, Inbox.AckAll(sent, deviceId, ids, now))
          == Inbox.AckAll(Recent(Inbox.MAX_MESSAGES, sent), deviceId, ids, now);
    case _ =>
  }

  /** The bounded inbox refines a list that forgets nothing. */
  lemma {:induction false} InboxIsWindow(start: Time, log: seq<Op>, p: nat)
    requires p <= |log|
    ensures WindowOn(StateAt(start, log, p), Sent(log, p))
  {
    hide Apply;
    if p != 0 {
      InboxIsWindow(start, log, p - 1);
      WindowStep(StateAt(start, log, p - 1), log[p - 1], Sent(log, p - 1));
    }
  }

  predicate Acknowledges(op: Op, m: Message) {
    op.AckDeviceMessages? && op.deviceId == m.deviceId && m.id in op.ids
  }

  /** Some operation from position `p` up to `q` acknowledges this message. */
  ghost predicate AckedWithin(log: seq<Op>, p: nat, q: nat, m: Message)
    requires p <= q <= |log|
  {
    exists i :: p <= i < q && Acknowledges(log[i], m)
  }

  ghost predicate EntryFollows(sent: seq<Message>, m: Message, acked: bool) {
    && 1 <= m.id <= |sent|
    && (acked ==> sent[m.id - 1].status == Acked)
    && (!acked ==> sent[m.id - 1] == m)
    && sent[m.id - 1].id == m.id && sent[m.id - 1].deviceId == m.deviceId
  }

  /** A pending message's entry never changes but by an acknowledgement. */
  lemma {:induction false} EntryAfter(log: seq<Op>, p: nat, q: nat, m: Message)
    requires p <= q <= |log|
    requires m.status == Pending && EntryFollows(Sent(log, p), m, false)
    ensures EntryFollows(Sent(log, q), m, AckedWithin(log, p, q, m))
    decreases q
  {
    if p < q {
      EntryAfter(log, p, q - 1, m);
      assert AckedWithin(log, p, q, m) <==> AckedWithin(log, p, q - 1, m) || Acknowledges(log[q - 1], m);
    }
  }

  /** A pending entry is in a window exactly when its id is recent enough. */
  lemma InWindow(d: StateData, sent: seq<Message>, m: Message, acked: bool)
    requires WindowOn(d, sent) && EntryFollows(sent, m, acked) && m.status == Pending
    ensures m in Inbox.PendingMessages(d.messages, m.deviceId)
       <==> !acked && d.nextMessageId - m.id <= Inbox.MAX_MESSAGES
  {
    FilterContents(Inbox.PendingFor(m.deviceId), d.messages);
    var hidden := |sent| - |d.messages|;
    assert forall i :: 0 <= i < |d.messages| ==> d.messages[i] == sent[hidden + i];
    if m in d.messages {
      var j :| 0 <= j < |d.messages| && d.messages[j] == m;
      assert sent[hidden + j].id == m.id;
    }
    if hidden < m.id {
      assert d.messages[m.id - 1 - hidden] == sent[m.id - 1];
    }
  }

  /** A pending message is handed to its device, unchanged, exactly until the device
      acknowledges it or a hundred later messages have been added. */
  lemma PendingUntil(start: Time, log: seq<Op>, p: nat, q: nat, m: Message)
    requires p <= q <= |log|
    requires m in Inbox.PendingMessages(StateAt(start, log, p).messages, m.deviceId)
    ensures m in Inbox.PendingMessages(StateAt(start, log, q).messages, m.deviceId)
       <==> !AckedWithin(log, p, q, m)
            && StateAt(start, log, q).nextMessageId - m.id <= Inbox.MAX_MESSAGES
  {
    hide Apply;
    InboxIsWindow(start, log, p);
    InboxIsWindow(start, log, q);
    EntryHere(StateAt(start, log, p), Sent(log, p), m);
    EntryAfter(log, p, q, m);
    InWindow(StateAt(start, log, q), Sent(log, q), m, AckedWithin(log, p, q, m));
  }

  lemma EntryHere(d: StateData, sent: seq<Message>, m: Message)
    requires WindowOn(d, sent)
    requires m in Inbox.PendingMessages(d.messages, m.deviceId)
    ensures m.status == Pending && EntryFollows(sent, m, false)
  {
    FilterContents(Inbox.PendingFor(m.deviceId), d.messages);
    var k :| 0 <= k < |d.messages| && d.messages[k] == m;
    assert sent[|sent| - |d.messages| + k] == m;
  }

  lemma SentIsPending(d: StateData, op: Op, m: Message)
    requires Inv(d) && Apply(d, op).reply == MessageAdded(m)
    ensures m in Inbox.PendingMessages(Apply(d, op).data.messages, m.deviceId)
  {
    var after := Apply(d, op).data.messages;
    assert after[|after| - 1] == m;
    FilterContents(Inbox.PendingFor(m.deviceId), after);
  }

  /** The same, from the moment a message is sent. */
  lemma PendingSinceSent(start: Time, log: seq<Op>, p: nat, m: Message)
    requires p < |log| && ValidLog(start, log, p) && ReplyAt(start, log, p) == MessageAdded(m)
    ensures m in Inbox.PendingMessages(Replay(start, log).messages, m.deviceId)
       <==> !AckedWithin(log, p + 1, |log|, m)
            && Replay(start, log).nextMessageId - m.id <= Inbox.MAX_MESSAGES
  {
    hide Apply, Inv;
    InvAt(start, log, p);
    SentIsPending(StateAt(start, log, p), log[p], m);
    PendingUntil(start, log, p + 1, |log|, m);
  }

  // ---- An acknowledged message is never pending again ----

  ghost predicate EntryAcked(sent: seq<Message>, id: int) {
    1 <= id <= |sent| && sent[id - 1].status == Acked
  }

  lemma {:induction false} EntryStaysAcked(log: seq<Op>, p: nat, q: nat, id: int)
    requires p <= q <= |log| && EntryAcked(Sent(log, p), id)
    ensures EntryAcked(Sent(log, q), id)
    decreases q
  {
    if p < q {
      EntryStaysAcked(log, p, q - 1, id);
    }
  }

  lemma ReportMarksEntry(d: StateData, sent: seq<Message>, deviceId: string, ids: seq<int>, now: Time, id: int)
    requires WindowOn(d, sent)
    requires id in Inbox.AckedIds(d.messages, deviceId, ids)
    ensures EntryAcked(Inbox.AckAll(sent, deviceId, ids, now), id)
  {
    hide Inbox.AckedIds;
    Inbox.ReportedIsStored(d.messages, deviceId, ids, id);
    var i :| 0 <= i < |d.messages| && d.messages[i].deviceId == deviceId && d.messages[i].id == id;
    assert sent[|sent| - |d.messages| + i] == d.messages[i];
  }

  lemma OnlyAcksReport(d: StateData, op: Op)
    requires Apply(d, op).reply.AckReport?
    ensures op.AckDeviceMessages? && Apply(d, op).reply.acked == Inbox.AckedIds(d.messages, op.deviceId, op.ids)
  {
  }

  /** Once a report lists an id as acknowledged, the message stored under it stays
      acknowledged. */
  lemma ReportedStaysAcked(start: Time, log: seq<Op>, p: nat, id: int)
    requires p < |log| && ReplyAt(start, log, p).AckReport? && id in ReplyAt(start, log, p).acked
    ensures forall m :: m in Replay(start, log).messages && m.id == id ==> m.status == Acked
  {
    hide Apply;
    InboxIsWindow(start, log, p);
    OnlyAcksReport(StateAt(start, log, p), log[p]);
    ReportMarksEntry(StateAt(start, log, p), Sent(log, p), log[p].deviceId, log[p].ids, log[p].now, id);
    EntryStaysAcked(log, p + 1, |log|, id);
    InboxIsWindow(start, log, |log|);
    var sent, messages := Sent(log, |log|), Replay(start, log).messages;
    forall m | m in messages && m.id == id
      ensures m.status == Acked
    {
      var i :| 0 <= i < |messages| && messages[i] == m;
      assert sent[|sent| - |messages| + i] == m;
    }
  }
}
