/** The two message handlers that do more than delegate: acknowledging, with its bounds on
    the request, and sending, where others act between the ownership check and the append. */
module Handlers {
  import opened Seqs
  import opened Domain
  import opened State
  import opened StateFiles
  import opened Store
  import opened Text
  import D = Durability
  import E = Effects
  import DV = Devices
  import IN = Inbox

  datatype HttpStatus = Ok200 | Created201 | BadRequest400 | NotFound404 | StoreError500

  const MAX_ACKS := 100

  predicate AckAllowed(ids: seq<int>) {
    1 <= |ids| <= 100 && forall i :: 0 <= i < |ids| ==> 0 < ids[i]
  }

  /** A request outside the bounds changes nothing; one inside them is the store's. */
  method HandleDeviceAckMessages(store: FileStore, deviceId: string, ids: seq<int>, now: Time, save: SaveOutcome)
    returns (status: HttpStatus, acked: seq<int>, missing: seq<int>)
    requires store.Valid()
    modifies store.state
    ensures store.Valid()
    ensures status == BadRequest400 <==> !AckAllowed(ids)
    ensures !AckAllowed(ids) ==> unchanged(store.state)
    ensures AckAllowed(ids) ==> status == if save == Done then Ok200 else StoreError500
    ensures AckAllowed(ids) ==> store.Did(Op.AckDeviceMessages(deviceId, ids, now), save)
    ensures status == Ok200 ==>
              && acked == IN.AckedIds(old(store.state.messages), deviceId, ids)
              && missing == IN.MissingIds(old(store.state.messages), deviceId, ids)
  {
    hide Inv, Apply;
    if |ids| == 0 {
      return BadRequest400, [], [];
    }
    if |ids| > MAX_ACKS {
      return BadRequest400, [], [];
    }
    var i := 0;
    while i < |ids|
      invariant i <= |ids|
      invariant unchanged(store.state)
      invariant forall j :: 0 <= j < i ==> 0 < ids[j]
    {
      if ids[i] <= 0 {
        return BadRequest400, [], [];
      }
      i := i + 1;
    }
    var err;
    acked, missing, err := store.AckDeviceMessages(deviceId, ids, now, save);
    status := if err then StoreError500 else Ok200;
  }

  /** Another caller's operation, and whether its save succeeds. */
  datatype Call = Call(op: Op, saved: bool)

  /** Memory and file after other callers' operations, one after another. */
  function AfterCalls(codec: StateCodec, c: D.Config, calls: seq<Call>): (after: D.Config)
    ensures c.mem.Some? ==> after.mem.Some?
  {
    if calls == [] then c
    else
      var n := |calls| - 1;
      D.Next(codec, AfterCalls(codec, c, calls[..n]), D.Do(calls[n].op, calls[n].saved))
  }

  ghost predicate AllOk(codec: StateCodec, c: D.Config, calls: seq<Call>)
    requires c.mem.Some?
  {
    forall k :: 0 <= k < |calls| ==> OpOk(AfterCalls(codec, c, calls[..k]).mem.value, calls[k].op)
  }

  function ConfigOf(state: StateFile): D.Config
    reads state
  {
    D.Config(Some(state.Data()), state.file, {})
  }

  /** Other callers' critical sections. */
  method OthersAct(state: StateFile, calls: seq<Call>)
    requires Inv(state.Data()) && AllOk(state.codec, ConfigOf(state), calls)
    modifies state
    ensures Inv(state.Data()) && ConfigOf(state) == AfterCalls(state.codec, old(ConfigOf(state)), calls)
  {
    hide Inv, Apply, OpOk;
    var i := 0;
    while i < |calls|
      invariant i <= |calls|
      invariant Inv(state.Data()) && ConfigOf(state) == AfterCalls(state.codec, old(ConfigOf(state)), calls[..i])
    {
      ApplyKeepsInv(state.Data(), calls[i].op);
      var next := D.Next(state.codec, ConfigOf(state), D.Do(calls[i].op, calls[i].saved));
      assert calls[..i + 1][..i] == calls[..i];
      var d := next.mem.value;
      state.nextMessageId, state.nextTodoId, state.weather := d.nextMessageId, d.nextTodoId, d.weather;
      state.users, state.devices, state.messages, state.todos := d.users, d.devices, d.messages, d.todos;
      state.file := next.file;
      i := i + 1;
    }
    assert calls[..i] == calls;
  }

  method OwnedDevice(store: FileStore, owner: string, deviceId: string) returns (found: bool)
    ensures found <==> D.Owns(store.state.Data(), owner, deviceId)
  {
    var i := 0;
    while i < |store.state.devices|
      invariant i <= |store.state.devices|
      invariant forall j :: 0 <= j < i ==>
                  store.state.devices[j].id != deviceId || store.state.devices[j].ownerId != owner
    {
      if store.state.devices[i].id == deviceId && store.state.devices[i].ownerId == owner {
        assert FirstIndex(DV.OwnedAs(owner, deviceId), store.state.devices) == i;
        return true;
      }
      i := i + 1;
    }
    assert FirstIndex(DV.OwnedAs(owner, deviceId), store.state.devices) < 0;
    return false;
  }

  /** The sender must own the device when it is checked; `between` is what others do before
      the message is appended, and the append does not look again. */
  method HandleCreateDeviceMessage(store: FileStore, user: string, deviceId: string, body: string,
                                   priority: Priority, between: seq<Call>, now: Time, save: SaveOutcome)
    returns (status: HttpStatus, msg: Option<Message>)
    requires store.Valid() && AllOk(store.state.codec, ConfigOf(store.state), between)
    modifies store.state
    ensures store.Valid()
    ensures status == NotFound404 <==> !D.Owns(old(store.state.Data()), user, deviceId)
    ensures status == BadRequest400 <==>
              D.Owns(old(store.state.Data()), user, deviceId)
              && (TrimSpace(body) == "" || priority !in {NoPriority, Normal, High})
    ensures status in {NotFound404, BadRequest400} ==> unchanged(store.state) && msg == None
    ensures status in {Created201, StoreError500} ==>
              var c := AfterCalls(store.state.codec, old(ConfigOf(store.state)), between);
              var effect := Apply(c.mem.value, AddDeviceMessage(user, deviceId, user, TrimSpace(body), priority, now));
              && store.state.Data() == effect.data
              && store.state.file == FileAfter(store.state.codec, c.file, effect, save)
              && (status == Created201 <==> save == Done)
              && (status == Created201 ==> msg.Some? && effect.reply == MessageAdded(msg.value))
    ensures status == Created201 ==>
              && E.AsSent(msg.value, user, deviceId, user, TrimSpace(body), priority, now)
              && store.state.messages != [] && store.state.messages[|store.state.messages| - 1] == msg.value
    ensures status in {NotFound404, BadRequest400, Created201, StoreError500}
  {
    hide Inv, Apply, OpOk, AllOk;
    msg := None;
    var owned := OwnedDevice(store, user, deviceId);
    if !owned {
      return NotFound404, None;
    }
    var text := TrimSpace(body);
    if text == "" {
      return BadRequest400, None;
    }
    var p := if priority == NoPriority then Normal else priority;
    if p != Normal && p != High {
      return BadRequest400, None;
    }
    OthersAct(store.state, between);
    SamePriority(store.state.Data(), user, deviceId, text, priority, now);
    var stored, err := store.AddDeviceMessage(user, deviceId, user, text, p, now, save);
    if err {
      return StoreError500, None;
    }
    return Created201, Some(stored);
  }

  /** Filling in the default priority before the store does makes no difference. */
  lemma SamePriority(d: StateData, user: string, deviceId: string, body: string, priority: Priority, now: Time)
    ensures var p := if priority == NoPriority then Normal else priority;
      Apply(d, AddDeviceMessage(user, deviceId, user, body, p, now))
        == Apply(d, AddDeviceMessage(user, deviceId, user, body, priority, now))
  {
  }
}
