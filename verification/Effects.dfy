/** What each operation writes and reports, field by field: the meaning of `State.Apply`. */
module Effects {
  import opened Seqs
  import opened Domain
  import opened State
  import Devices
  import Inbox
  import Todos

  /** An operation changes its own part of the state and nothing else. */
  lemma TouchesOnly(d: StateData, op: Op)
    ensures var after := Apply(d, op).data;
      && after.weather == d.weather
      && (!op.CreateUser? ==> after.users == d.users)
      && (!op.HelloDevice? && !op.BindDevice? && !op.UpdateDevice? && !op.DeleteDevice? ==> after.devices == d.devices)
      && (!op.AddDeviceMessage? ==> after.nextMessageId == d.nextMessageId)
      && (!op.AddDeviceMessage? && !op.AckDeviceMessages? ==> after.messages == d.messages)
      && (!op.AddTodo? ==> after.nextTodoId == d.nextTodoId)
      && (!op.AddTodo? && !op.UpdateTodo? && !op.DeleteTodo? ==> after.todos == d.todos)
    ensures !Apply(d, op).saves ==> Apply(d, op).data == d
  {
  }

  // ---- Users and devices ----

  lemma CreateUserWrites(d: StateData, id: string, name: string, email: string, tokenHash: string, now: Time)
    ensures var e := Apply(d, CreateUser(id, name, email, tokenHash, now));
      var user := User(id, if name == "" then "user" else name, email, tokenHash, now);
      e.data.users == d.users + [user] && e.reply == UserCreated(user) && e.saves
  {
  }

  /** A hello is refused exactly if the device's id carries another secret; else the device at
      `k` is the known one, seen again, or a new one, and the reply describes it. */
  lemma HelloWrites(d: StateData, id: string, secretHash: string, drawn: string, now: Time) returns (k: nat)
    requires Inv(d) && OpOk(d, HelloDevice(id, secretHash, drawn, now))
    ensures var e := Apply(d, HelloDevice(id, secretHash, drawn, now));
      if Devices.CarriesAnother(d.devices, id, secretHash) then
        e.reply == SecretRefused && !e.saves
      else
        && e.saves && e.reply.Hello?
        && Devices.HelloStored(d.devices, e.data.devices, e.reply.hello, k, id, secretHash, drawn, now)
  {
    Devices.HelloChecksSecret(d.devices, id, secretHash, drawn, now);
    k := Devices.HelloWrites(d.devices, id, secretHash, drawn, now);
  }

  /** Entering a code binds the device that shows it unexpired, whose owner and name are then
      those given; an expired code is refused, any other is unknown. */
  lemma BindWrites(d: StateData, owner: string, code: string, name: string, now: Time) returns (i: nat)
    requires Inv(d) && owner != ""
    ensures var e := Apply(d, BindDevice(owner, code, name, now));
      && (e.reply.DeviceBound? <==> exists id, t :: Devices.CodeLive(d.devices, id, code, t) && now <= t)
      && (code != "" ==>
            && (e.reply == BindRefused <==> exists id, t :: Devices.CodeLive(d.devices, id, code, t) && t < now)
            && (e.reply == CodeUnknown <==> !exists id, t :: Devices.CodeLive(d.devices, id, code, t)))
      && (code == "" ==> e.reply == BindRefused || e.reply == CodeUnknown)
      && (e.saves <==> e.reply.DeviceBound?)
      && (e.saves ==> BindStored(d.devices, e.data.devices, e.reply.device, i, owner, code, name, now))
  {
    if code == "" {
      EmptyCodeRefused(d.devices, owner, name, now);
      NothingShowsEmpty(d.devices);
    } else {
      Devices.BindTakesTheDevice(d.devices, owner, code, name, now);
    }
    i := Devices.BindWrites(d.devices, owner, code, name, now);
  }

  ghost predicate BindStored(before: seq<Device>, after: seq<Device>, device: Device, i: int, owner: string,
                             code: string, name: string, now: Time)
  {
    && Devices.OneChanged(before, after, i)
    && before[i].bindCode == code
    && Devices.TakenOver(before[i], after[i], owner, name, now)
    && device == after[i]
  }

  lemma NothingShowsEmpty(devices: seq<Device>)
    requires Devices.DevicesInv(devices)
    ensures !exists id, t :: Devices.CodeLive(devices, id, "", t)
  {
    assert forall i :: 0 <= i < |devices| ==> Devices.PairingState(devices[i]);
  }

  ghost predicate RenameStored(before: seq<Device>, after: seq<Device>, device: Device, i: int, owner: string,
                               id: string, name: string)
  {
    && Devices.OneChanged(before, after, i)
    && before[i].id == id && before[i].ownerId == owner
    && Devices.RenamedTo(before[i], after[i], name)
    && device == after[i]
  }

  lemma RenameWrites(d: StateData, owner: string, id: string, name: string) returns (i: nat)
    ensures var e := Apply(d, UpdateDevice(owner, id, name));
      && (e.saves <==> Devices.BoundTo(d.devices, owner, id))
      && (!e.saves ==> e.reply == DeviceNotFound)
      && (e.saves ==>
            e.reply.DeviceRenamed? && RenameStored(d.devices, e.data.devices, e.reply.device, i, owner, id, name))
  {
    Devices.ManageFindsOwned(d.devices, owner, id, name);
    i := Devices.RenameWrites(d.devices, owner, id, name);
  }

  lemma DeleteDeviceWrites(d: StateData, owner: string, id: string)
    requires Inv(d)
    ensures var e := Apply(d, DeleteDevice(owner, id));
      && (e.saves <==> Devices.BoundTo(d.devices, owner, id))
      && (!e.saves ==> e.reply == DeviceNotFound)
      && (e.saves ==> e.reply == DeviceDeleted && forall x :: x in e.data.devices <==> x in d.devices && x.id != id)
  {
    Devices.ManageFindsOwned(d.devices, owner, id, "");
    Devices.DeleteKeepsTable(d.devices, owner, id);
  }

  // ---- Messages ----

  /** A message as it is when sent. */
  predicate AsSent(m: Message, owner: string, deviceId: string, author: string, body: string, priority: Priority,
                   now: Time)
  {
    && m.ownerId == owner && m.deviceId == deviceId && m.authorId == author && m.body == body
    && (priority != NoPriority ==> m.priority == priority)
    && (priority == NoPriority ==> m.priority == Normal)
    && m.status == Pending && m.createdAt == now && m.ackedAt == None
  }

  /** The message sent is the one returned and the last one stored; the oldest of a hundred
      gives way to it. */
  lemma AddMessageWrites(d: StateData, owner: string, deviceId: string, author: string, body: string,
                         priority: Priority, now: Time)
    requires Inv(d)
    ensures var e := Apply(d, AddDeviceMessage(owner, deviceId, author, body, priority, now));
      && e.saves && e.reply.MessageAdded?
      && AsSent(e.reply.message, owner, deviceId, author, body, priority, now)
      && e.reply.message.id == d.nextMessageId
      && e.data.nextMessageId == d.nextMessageId + 1
      && e.data.messages == (if |d.messages| < 100 then d.messages else d.messages[1..]) + [e.reply.message]
  {
    var m := Apply(d, AddDeviceMessage(owner, deviceId, author, body, priority, now)).reply.message;
    if |d.messages| == 100 {
      assert (d.messages + [m])[1..] == d.messages[1..] + [m];
    }
  }

  /** An acknowledgement marks the requested messages of the device that were not marked yet,
      with its time, and reports the requested ids stored and those not stored. */
  lemma AckWrites(d: StateData, deviceId: string, ids: seq<int>, now: Time)
    requires Inv(d)
    ensures var e := Apply(d, AckDeviceMessages(deviceId, ids, now));
      && e.saves && e.reply.AckReport?
      && |e.data.messages| == |d.messages|
      && (forall i :: 0 <= i < |d.messages| ==>
            Inbox.MarkedBy(d.messages[i], e.data.messages[i], deviceId, ids, now))
      && (forall i, j :: 0 <= i < j < |e.reply.acked| ==> e.reply.acked[i] < e.reply.acked[j])
      && (forall id :: id in e.reply.acked <==>
            id in ids && exists m :: m in d.messages && m.deviceId == deviceId && m.id == id)
      && (forall id :: id in e.reply.missing <==> id in ids && id !in e.reply.acked)
  {
    Inbox.AckReport(d.messages, d.nextMessageId, deviceId, ids);
    Inbox.AckMarks(d.messages, deviceId, ids, now);
  }

  // ---- To-dos ----

  ghost predicate HasTodo(d: StateData, owner: string, id: int) {
    exists t :: t in d.todos && t.ownerId == owner && t.id == id
  }

  ghost predicate HasTodoAt(d: StateData, owner: string, id: int, version: int) {
    exists t :: t in d.todos && t.ownerId == owner && t.id == id && t.version == version
  }

  /** An update is refused if the user has no such to-do, reports the stored to-do if it is at
      another version, and else edits it in its place and reports it as it is then. */
  lemma UpdateTodoWrites(d: StateData, owner: string, id: int, version: int, patch: TodoPatch, now: Time)
    requires Inv(d)
    ensures var e := Apply(d, UpdateTodo(owner, id, version, patch, now));
      && (e.reply == TodoNotFound <==> !HasTodo(d, owner, id))
      && (e.reply.TodoUpdated? <==> HasTodoAt(d, owner, id, version))
      && (e.reply.TodoConflict? <==> HasTodo(d, owner, id) && !HasTodoAt(d, owner, id, version))
      && (e.reply.TodoConflict? ==>
            e.reply.todo in d.todos && e.reply.todo.ownerId == owner && e.reply.todo.id == id)
      && (e.saves <==> e.reply.TodoUpdated?)
      && (e.saves ==> exists i ::
            Todos.EditedAt(d.todos, e.data.todos, i, e.reply.todo, owner, id, version, patch, now))
  {
    Todos.UpdateAppliesPatch(d.todos, d.nextTodoId, owner, id, version, patch, now);
  }

  lemma DeleteTodoWrites(d: StateData, owner: string, id: int, version: int)
    requires Inv(d)
    ensures var e := Apply(d, DeleteTodo(owner, id, version));
      && (e.reply == TodoNotFound <==> !HasTodo(d, owner, id))
      && (e.reply == TodoDeleted <==> HasTodoAt(d, owner, id, version))
      && (e.reply.TodoConflict? <==> HasTodo(d, owner, id) && !HasTodoAt(d, owner, id, version))
      && (e.reply.TodoConflict? ==>
            e.reply.todo in d.todos && e.reply.todo.ownerId == owner && e.reply.todo.id == id)
      && (e.saves <==> e.reply == TodoDeleted)
      && (e.saves ==> forall t :: t in e.data.todos <==> t in d.todos && t.id != id)
  {
    Todos.DeleteOutcome(d.todos, d.nextTodoId, owner, id, version);
    Todos.DeleteSpendsVersion(d.todos, d.nextTodoId, owner, id, version);
  }
}
