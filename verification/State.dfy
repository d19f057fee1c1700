/** The hub's state: what one state file holds, how it is read back, and the effect of each
    operation that runs under the store's write lock. */
module State {
  import opened Seqs
  import opened Domain
  import BindCodes
  import Devices
  import Inbox
  import Todos

  datatype StateData = StateData(
    nextMessageId: int,
    nextTodoId: int,
    weather: Weather,
    users: seq<User>,
    devices: seq<Device>,
    messages: seq<Message>,
    todos: seq<Todo>)

  function DefaultWeather(now: Time): Weather {
    Weather("unknown", "unknown", now)
  }

  /** The state of a store that has no state file yet. */
  function Fresh(now: Time): StateData {
    StateData(1, 1, DefaultWeather(now), [], [], [], [])
  }

  // ---- Reading a state file back ----

  /** JSON encoding of the whole state; decoding overwrites the fields of a given state. */
  datatype StateCodec = StateCodec(encode: StateData -> Bytes, decode: (StateData, Bytes) -> Result<StateData>) {
    ghost predicate Lawful() {
      && (forall d :: encode(d) != [])
      && (forall d, now :: decode(Fresh(now), encode(d)) == Ok(d))
    }
  }

  function Repaired(m: Message): Message {
    m.(priority := if m.priority == NoPriority then Normal else m.priority,
       status := if m.status == Unset then Pending else m.status)
  }

  function RepairAll(messages: seq<Message>): seq<Message> {
    seq(|messages|, i requires 0 <= i < |messages| => Repaired(messages[i]))
  }

  function Normalize(d: StateData, now: Time): StateData {
    d.(nextMessageId := if d.nextMessageId == 0 then |d.messages| + 1 else d.nextMessageId,
       nextTodoId := if d.nextTodoId == 0 then NextAfter(Todos.Ids(d.todos)) else d.nextTodoId,
       weather := if d.weather.location == "" then DefaultWeather(now) else d.weather,
       messages := RepairAll(d.messages))
  }

  /** Opening the store: a missing or empty file gives a fresh state; a file that cannot be
      read or decoded is an error. */
  function Load(codec: StateCodec, file: Option<Bytes>, readable: bool, now: Time): Result<StateData> {
    if file == None then Ok(Fresh(now))
    else if !readable then Err
    else if file.value == [] then Ok(Fresh(now))
    else match codec.decode(Fresh(now), file.value)
      case Err => Err
      case Ok(d) => Ok(Normalize(d, now))
  }

  /** A message as loaded: what an older file left out is filled in. */
  predicate FilledIn(before: Message, after: Message) {
    && after.priority == (if before.priority == NoPriority then Normal else before.priority)
    && after.status == (if before.status == Unset then Pending else before.status)
    && after.id == before.id && after.ownerId == before.ownerId && after.deviceId == before.deviceId
    && after.authorId == before.authorId && after.body == before.body
    && after.createdAt == before.createdAt && after.ackedAt == before.ackedAt
  }

  /** What a decoded state is repaired to. */
  ghost predicate RepairedTo(before: StateData, after: StateData, now: Time) {
    && after.users == before.users && after.devices == before.devices && after.todos == before.todos
    && |after.messages| == |before.messages|
    && (forall i :: 0 <= i < |before.messages| ==> FilledIn(before.messages[i], after.messages[i]))
    && after.nextMessageId == (if before.nextMessageId == 0 then |before.messages| + 1 else before.nextMessageId)
    && (before.nextTodoId != 0 ==> after.nextTodoId == before.nextTodoId)
    && (before.nextTodoId == 0 ==>
          && 1 <= after.nextTodoId
          && (forall t :: t in before.todos ==> t.id < after.nextTodoId)
          && (after.nextTodoId == 1 || exists t :: t in before.todos && t.id == after.nextTodoId - 1))
    && (before.weather.location != "" ==> after.weather == before.weather)
    && (before.weather.location == "" ==> after.weather == Weather("unknown", "unknown", now))
  }

  lemma NormalizeRepairs(d: StateData, now: Time)
    ensures RepairedTo(d, Normalize(d, now), now)
  {
    var ids := Todos.Ids(d.todos);
    var next := NextAfter(ids);
    forall t | t in d.todos
      ensures t.id < next
    {
      var k :| 0 <= k < |d.todos| && d.todos[k] == t;
      assert ids[k] == t.id;
    }
    if next != 1 {
      var k :| 0 <= k < |ids| && ids[k] == next - 1;
      assert d.todos[k] in d.todos;
    }
  }

  /** Opening fails exactly on a file that cannot be read, or has contents that do not decode;
      without contents the state is empty with counters at 1, with them it is what they decode
      to, repaired. */
  lemma LoadOutcome(codec: StateCodec, file: Option<Bytes>, readable: bool, now: Time)
    ensures var contents := if file.Some? then file.value else [];
      var empty := StateData(1, 1, Weather("unknown", "unknown", now), [], [], [], []);
      && (Load(codec, file, readable, now).Err? <==>
            (file.Some? && !readable) || (contents != [] && codec.decode(empty, contents).Err?))
      && (Load(codec, file, readable, now).Ok? ==>
            var d := Load(codec, file, readable, now).value;
            if contents == [] then d == empty else RepairedTo(codec.decode(empty, contents).value, d, now))
  {
    if file.Some? && codec.decode(Fresh(now), file.value).Ok? {
      NormalizeRepairs(codec.decode(Fresh(now), file.value).value, now);
    }
  }

  // ---- Operations ----

  /** One call of a mutating store method, with the clock reading it takes. Names are as the
      method's trimming leaves them; `drawn` is the code a hello draws if it needs one. */
  datatype Op =
    | CreateUser(id: string, name: string, email: string, tokenHash: string, now: Time)
    | HelloDevice(deviceId: string, secretHash: string, drawn: string, now: Time)
    | BindDevice(owner: string, code: string, name: string, now: Time)
    | UpdateDevice(owner: string, deviceId: string, name: string)
    | DeleteDevice(owner: string, deviceId: string)
    | AddDeviceMessage(owner: string, deviceId: string, author: string, body: string, priority: Priority, now: Time)
    | AckDeviceMessages(deviceId: string, ids: seq<int>, now: Time)
    | AddTodo(owner: string, text: string, status: int, now: Time)
    | UpdateTodo(owner: string, todoId: int, version: int, patch: TodoPatch, now: Time)
    | DeleteTodo(owner: string, todoId: int, version: int)

  /** What the call reports when saving, if it saves at all, succeeds. */
  datatype Reply =
    | UserCreated(user: User)
    | SecretRefused
    | Hello(hello: DeviceHello)
    | CodeUnknown
    | BindRefused
    | DeviceBound(device: Device)
    | DeviceNotFound
    | DeviceRenamed(device: Device)
    | DeviceDeleted
    | MessageAdded(message: Message)
    | AckReport(acked: seq<int>, missing: seq<int>)
    | TodoAdded(todo: Todo)
    | TodoNotFound
    | TodoConflict(todo: Todo)
    | TodoUpdated(todo: Todo)
    | TodoDeleted

  /** The memory after a call, its reply, and whether the call saves the state. */
  datatype Effect = Effect(data: StateData, reply: Reply, saves: bool)

  function NewUser(id: string, name: string, email: string, tokenHash: string, now: Time): User {
    User(id, if name == "" then "user" else name, email, tokenHash, now)
  }

  function NewMessage(id: int, owner: string, deviceId: string, author: string, body: string,
                      priority: Priority, now: Time): Message
  {
    Message(id, owner, deviceId, author, body, if priority == NoPriority then Normal else priority,
            Pending, now, None)
  }

  function NewTodo(id: int, owner: string, text: string, status: int, now: Time): Todo {
    Todo(id, owner, text, status, 1, now, now)
  }

  function Apply(d: StateData, op: Op): Effect {
    match op
    case CreateUser(id, name, email, tokenHash, now) =>
      var u := NewUser(id, name, email, tokenHash, now);
      Effect(d.(users := d.users + [u]), UserCreated(u), true)
    case HelloDevice(id, secretHash, drawn, now) =>
      (match Devices.Hello(d.devices, id, secretHash, drawn, now)
       case Denied => Effect(d, SecretRefused, false)
       case Greeted(devices, hello) => Effect(d.(devices := devices), Hello(hello), true))
    case BindDevice(owner, code, name, now) =>
      (match Devices.Bind(d.devices, owner, code, name, now)
       case CodeUnknown => Effect(d, CodeUnknown, false)
       case Refused => Effect(d, BindRefused, false)
       case Bound(devices, device) => Effect(d.(devices := devices), DeviceBound(device), true))
    case UpdateDevice(owner, id, name) =>
      (match Devices.Rename(d.devices, owner, id, name)
       case NoDevice => Effect(d, DeviceNotFound, false)
       case Managed(devices, device) => Effect(d.(devices := devices), DeviceRenamed(device), true))
    case DeleteDevice(owner, id) =>
      (match Devices.Delete(d.devices, owner, id)
       case NoDevice => Effect(d, DeviceNotFound, false)
       case Managed(devices, _) => Effect(d.(devices := devices), DeviceDeleted, true))
    case AddDeviceMessage(owner, deviceId, author, body, priority, now) =>
      var m := NewMessage(d.nextMessageId, owner, deviceId, author, body, priority, now);
      Effect(d.(nextMessageId := d.nextMessageId + 1,
                messages := Recent(Inbox.MAX_MESSAGES, d.messages + [m])), MessageAdded(m), true)
    case AckDeviceMessages(deviceId, ids, now) =>
      Effect(d.(messages := Inbox.AckAll(d.messages, deviceId, ids, now)),
             AckReport(Inbox.AckedIds(d.messages, deviceId, ids), Inbox.MissingIds(d.messages, deviceId, ids)),
             true)
    case AddTodo(owner, text, status, now) =>
      var t := NewTodo(d.nextTodoId, owner, text, status, now);
      Effect(d.(nextTodoId := d.nextTodoId + 1, todos := d.todos + [t]), TodoAdded(t), true)
    case UpdateTodo(owner, id, version, patch, now) =>
      (match Todos.Update(d.todos, owner, id, version, patch, now)
       case NotFound => Effect(d, TodoNotFound, false)
       case Conflict(t) => Effect(d, TodoConflict(t), false)
       case Swapped(todos, t) => Effect(d.(todos := todos), TodoUpdated(t), true))
    case DeleteTodo(owner, id, version) =>
      (match Todos.Delete(d.todos, owner, id, version)
       case NotFound => Effect(d, TodoNotFound, false)
       case Conflict(t) => Effect(d, TodoConflict(t), false)
       case Swapped(todos, _) => Effect(d.(todos := todos), TodoDeleted, true))
  }

  /** What every caller of the store provides: a user id is never empty, and a code that a
      hello draws is free. */
  predicate OpOk(d: StateData, op: Op) {
    match op
    case HelloDevice(id, secretHash, drawn, now) =>
      Devices.DrawsCode(d.devices, id, secretHash, now) ==> Devices.FreeCode(d.devices, drawn)
    case BindDevice(owner, _, _, _) => owner != ""
    case UpdateDevice(owner, _, _) => owner != ""
    case DeleteDevice(owner, _) => owner != ""
    case _ => true
  }

  /** A hello by the device at `i`, or by an unknown one when `i` is -1, case by case. */
  lemma HelloCases(d: StateData, id: string, secretHash: string, drawn: string, now: Time, i: int)
    requires i == FirstIndex(Devices.IdIs(id), d.devices)
    ensures var op := HelloDevice(id, secretHash, drawn, now);
      if 0 <= i && d.devices[i].secretHash != secretHash then
        OpOk(d, op) && Apply(d, op) == Effect(d, SecretRefused, false)
      else
        var device := if 0 <= i then Devices.Seen(d.devices[i], drawn, now)
                      else Devices.NewDevice(id, secretHash, drawn, now);
        && (OpOk(d, op) <==> (0 <= i && !Devices.NeedsCode(d.devices[i], now)) || Devices.FreeCode(d.devices, drawn))
        && Apply(d, op) == Effect(d.(devices := if 0 <= i then d.devices[i := device] else d.devices + [device]),
                                  Hello(Devices.Greeting(device, now)), true)
  {
  }

  lemma AddMessageCase(d: StateData, owner: string, deviceId: string, author: string, body: string,
                       priority: Priority, now: Time)
    ensures var m := NewMessage(d.nextMessageId, owner, deviceId, author, body, priority, now);
      Apply(d, AddDeviceMessage(owner, deviceId, author, body, priority, now))
        == Effect(d.(nextMessageId := d.nextMessageId + 1,
                     messages := Recent(Inbox.MAX_MESSAGES, d.messages + [m])), MessageAdded(m), true)
  {
  }

  /** The other searches, case by case: `i` is where the search ends, or negative. */
  lemma BindCases(d: StateData, owner: string, code: string, name: string, now: Time, i: int)
    requires i == FirstIndex(Devices.CodeIs(code), d.devices)
    ensures var op := BindDevice(owner, code, name, now);
      if i < 0 then Apply(d, op) == Effect(d, CodeUnknown, false)
      else if d.devices[i].ownerId != "" || Devices.Expired(d.devices[i], now) then
        Apply(d, op) == Effect(d, BindRefused, false)
      else
        var device := Devices.Taken(d.devices[i], owner, name, now);
        Apply(d, op) == Effect(d.(devices := d.devices[i := device]), DeviceBound(device), true)
  {
  }

  lemma RenameCases(d: StateData, owner: string, id: string, name: string, i: int)
    requires i == FirstIndex(Devices.OwnedAs(owner, id), d.devices)
    ensures var op := UpdateDevice(owner, id, name);
      if i < 0 then Apply(d, op) == Effect(d, DeviceNotFound, false)
      else
        var device := d.devices[i].(name := name);
        Apply(d, op) == Effect(d.(devices := d.devices[i := device]), DeviceRenamed(device), true)
  {
  }

  lemma DeleteDeviceCases(d: StateData, owner: string, id: string, i: int)
    requires i == FirstIndex(Devices.OwnedAs(owner, id), d.devices)
    ensures var op := DeleteDevice(owner, id);
      Apply(d, op) == if i < 0 then Effect(d, DeviceNotFound, false)
                      else Effect(d.(devices := RemoveAt(d.devices, i)), DeviceDeleted, true)
  {
  }

  lemma UpdateTodoCases(d: StateData, owner: string, id: int, version: int, patch: TodoPatch, now: Time, i: int)
    requires i == Todos.IndexOf(d.todos, owner, id)
    ensures var op := UpdateTodo(owner, id, version, patch, now);
      if i < 0 then Apply(d, op) == Effect(d, TodoNotFound, false)
      else if d.todos[i].version != version then Apply(d, op) == Effect(d, TodoConflict(d.todos[i]), false)
      else
        var todo := Todos.Patched(d.todos[i], patch, now);
        Apply(d, op) == Effect(d.(todos := d.todos[i := todo]), TodoUpdated(todo), true)
  {
  }

  lemma DeleteTodoCases(d: StateData, owner: string, id: int, version: int, i: int)
    requires i == Todos.IndexOf(d.todos, owner, id)
    ensures var op := DeleteTodo(owner, id, version);
      if i < 0 then Apply(d, op) == Effect(d, TodoNotFound, false)
      else if d.todos[i].version != version then Apply(d, op) == Effect(d, TodoConflict(d.todos[i]), false)
      else Apply(d, op) == Effect(d.(todos := RemoveAt(d.todos, i)), TodoDeleted, true)
  {
  }

  // ---- The store invariant ----

  ghost predicate Inv(d: StateData) {
    && Devices.DevicesInv(d.devices)
    && Inbox.InboxInv(d.messages, d.nextMessageId)
    && Todos.TodosInv(d.todos, d.nextTodoId)
    && d.weather.location != ""
  }

  lemma FreshInv(now: Time)
    ensures Inv(Fresh(now))
  {
  }

  lemma ApplyKeepsInv(d: StateData, op: Op)
    requires Inv(d) && OpOk(d, op)
    ensures Inv(Apply(d, op).data)
  {
    match op
    case HelloDevice(id, secretHash, drawn, now) =>
      Devices.HelloGivesUsableCode(d.devices, id, secretHash, drawn, now);
    case BindDevice(owner, code, name, now) =>
      if code == "" {
        EmptyCodeRefused(d.devices, owner, name, now);
      } else {
        Devices.BindTakesTheDevice(d.devices, owner, code, name, now);
      }
    case UpdateDevice(owner, id, name) => Devices.RenameKeepsTable(d.devices, owner, id, name);
    case DeleteDevice(owner, id) => Devices.DeleteKeepsTable(d.devices, owner, id);
    case UpdateTodo(owner, id, version, patch, now) =>
      Todos.UpdateSpendsVersion(d.todos, d.nextTodoId, owner, id, version, patch, now);
    case DeleteTodo(owner, id, version) =>
      Todos.DeleteSpendsVersion(d.todos, d.nextTodoId, owner, id, version);
    case _ =>
  }

  /** The empty code can only meet a bound device, which is refused. */
  lemma EmptyCodeRefused(devices: seq<Device>, owner: string, name: string, now: Time)
    requires Devices.DevicesInv(devices)
    ensures !Devices.Bind(devices, owner, "", name, now).Bound?
  {
    var i := FirstIndex(Devices.CodeIs(""), devices);
    if 0 <= i {
      assert Devices.PairingState(devices[i]);
    }
  }

  /** A state that satisfies the invariant needs no repair. */
  lemma NormalizeChangesNothing(d: StateData, now: Time)
    requires Inv(d)
    ensures Normalize(d, now) == d
  {
    assert RepairAll(d.messages) == d.messages;
  }

  /** Saving and loading again gives the same state. */
  lemma LoadAfterSave(codec: StateCodec, d: StateData, now: Time)
    requires codec.Lawful() && Inv(d)
    ensures Load(codec, Some(codec.encode(d)), true, now) == Ok(d)
  {
    NormalizeChangesNothing(d, now);
  }

  // ---- Users do not reach into each other's data ----

  /** The user on whose behalf an operation runs, if it is a user's. */
  function Actor(op: Op): Option<string> {
    match op
    case BindDevice(owner, _, _, _) => Some(owner)
    case UpdateDevice(owner, _, _) => Some(owner)
    case DeleteDevice(owner, _) => Some(owner)
    case AddDeviceMessage(owner, _, _, _, _, _) => Some(owner)
    case AddTodo(owner, _, _, _) => Some(owner)
    case UpdateTodo(owner, _, _, _, _) => Some(owner)
    case DeleteTodo(owner, _, _) => Some(owner)
    case _ => None
  }

  function TodosOf(d: StateData, owner: string): seq<Todo> {
    Filter(Todos.OwnedBy(owner), d.todos)
  }

  function DevicesOf(d: StateData, owner: string): seq<Device> {
    Filter(Devices.OwnedBy(owner), d.devices)
  }

  function MessagesOf(d: StateData, owner: string): seq<Message> {
    Reverse(Filter(Inbox.OwnedBy(owner), d.messages))
  }

  /** A step by one user leaves another user's to-dos and devices as they were, and the
      other's newest-first messages lose at most their oldest. */
  lemma NonInterference(d: StateData, op: Op, other: string)
    requires Inv(d) && OpOk(d, op)
    requires Actor(op).Some? && Actor(op).value != other && other != ""
    ensures var after := Apply(d, op).data;
      && TodosOf(after, other) == TodosOf(d, other)
      && DevicesOf(after, other) == DevicesOf(d, other)
      && MessagesOf(after, other) <= MessagesOf(d, other)
      && |MessagesOf(d, other)| - |MessagesOf(after, other)| <= 1
  {
    match op
    case BindDevice(owner, code, name, now) =>
      var i := FirstIndex(Devices.CodeIs(code), d.devices);
      if Apply(d, op).saves {
        FilterUpdateOutside(Devices.OwnedBy(other), d.devices, i, Devices.Taken(d.devices[i], owner, name, now));
      }
    case UpdateDevice(owner, id, name) =>
      var i := FirstIndex(Devices.OwnedAs(owner, id), d.devices);
      if 0 <= i {
        FilterUpdateOutside(Devices.OwnedBy(other), d.devices, i, d.devices[i].(name := name));
      }
    case DeleteDevice(owner, id) =>
      var i := FirstIndex(Devices.OwnedAs(owner, id), d.devices);
      if 0 <= i {
        FilterRemoveOutside(Devices.OwnedBy(other), d.devices, i);
      }
    case AddDeviceMessage(owner, deviceId, author, body, priority, now) =>
      var m := NewMessage(d.nextMessageId, owner, deviceId, author, body, priority, now);
      OthersMessages(d.messages, m, other);
    case AddTodo(owner, text, status, now) =>
      FilterConcat(Todos.OwnedBy(other), d.todos, [NewTodo(d.nextTodoId, owner, text, status, now)]);
    case UpdateTodo(owner, id, version, patch, now) =>
      var i := Todos.IndexOf(d.todos, owner, id);
      if 0 <= i {
        FilterUpdateOutside(Todos.OwnedBy(other), d.todos, i, Todos.Patched(d.todos[i], patch, now));
      }
    case DeleteTodo(owner, id, version) =>
      var i := Todos.IndexOf(d.todos, owner, id);
      if 0 <= i {
        FilterRemoveOutside(Todos.OwnedBy(other), d.todos, i);
      }
  }

  lemma OthersMessages(messages: seq<Message>, m: Message, other: string)
    requires |messages| <= Inbox.MAX_MESSAGES && m.ownerId != other
    ensures var p := Inbox.OwnedBy(other);
      var before := Reverse(Filter(p, messages));
      var after := Reverse(Filter(p, Recent(Inbox.MAX_MESSAGES, messages + [m])));
      after <= before && |before| - |after| <= 1
  {
    var p := Inbox.OwnedBy(other);
    var sent := messages + [m];
    FilterConcat(p, messages, [m]);
    assert Filter(p, [m]) == [];
    assert Filter(p, sent) == Filter(p, messages);
    if |messages| == Inbox.MAX_MESSAGES {
      var kept := Recent(Inbox.MAX_MESSAGES, sent);
      assert sent == [sent[0]] + kept;
      FilterConcat(p, [sent[0]], kept);
      FilterContents(p, [sent[0]]);
      ReverseConcat(Filter(p, [sent[0]]), Filter(p, kept));
      ReverseAt(Filter(p, [sent[0]]));
    }
  }
}
