/** The file store. Each method is one critical section under the store's lock; `now` is the
    clock reading it takes, `save` how far its save gets. */
module Store {
  import opened Seqs
  import opened Domain
  import opened State
  import opened StateFiles
  import opened LogFile
  import BC = BindCodes
  import DV = Devices
  import IN = Inbox
  import TD = Todos
  import TL = TelemetryLog
  import TV = TelemetryViews
  import D = Durability
  import E = Effects
  import opened Text

  datatype HelloError = NoError | InvalidSecret | SaveError

  const NO_DEVICE := Device("", "", "", "", "", None, None, None, 0)
  const NO_HELLO := DeviceHello("", false, "", "", 0, 0, None)
  const NO_TELEMETRY := Telemetry(0, "", 0, None, 0, "")
  const NO_TODO := Todo(0, "", "", 0, 0, 0, 0)

  /** A call that did `op` took the step of the run machine for `op`: `Did` below is what one
      event does to memory and file. */
  lemma CallIsStep(codec: StateCodec, c: D.Config, op: Op, save: SaveOutcome)
    requires c.mem.Some?
    ensures var e := Apply(c.mem.value, op);
      D.Next(codec, c, D.Do(op, save == Done)) == D.Config(Some(e.data), FileAfter(codec, c.file, e, save), c.permits)
  {
  }

  /** The outcome of a hello whose search ended at `i`, or found nothing. */
  lemma HelloDone(d: StateData, id: string, secretHash: string, drawn: string, now: Time, i: int) returns (k: nat)
    requires Inv(d) && i == FirstIndex(DV.IdIs(id), d.devices)
    requires (0 <= i && (d.devices[i].secretHash != secretHash || !DV.NeedsCode(d.devices[i], now)))
          || DV.FreeCode(d.devices, drawn)
    ensures var op := Op.HelloDevice(id, secretHash, drawn, now);
      && OpOk(d, op) && Inv(Apply(d, op).data)
      && (if 0 <= i && d.devices[i].secretHash != secretHash
          then Apply(d, op) == Effect(d, SecretRefused, false) && DV.CarriesAnother(d.devices, id, secretHash)
          else
            var device := if 0 <= i then DV.Seen(d.devices[i], drawn, now)
                          else DV.NewDevice(id, secretHash, drawn, now);
            var devices := if 0 <= i then d.devices[i := device] else d.devices + [device];
            && Apply(d, op) == Effect(d.(devices := devices), Hello(DV.Greeting(device, now)), true)
            && !DV.CarriesAnother(d.devices, id, secretHash)
            && DV.HelloStored(d.devices, devices, DV.Greeting(device, now), k, id, secretHash, drawn, now))
  {
    hide Inv, OpOk, Apply, DV.FreeCode, DV.NeedsCode, DV.Seen, DV.NewDevice, DV.Greeting;
    hide DV.HelloStored, DV.CarriesAnother;
    HelloCases(d, id, secretHash, drawn, now, i);
    ApplyKeepsInv(d, Op.HelloDevice(id, secretHash, drawn, now));
    k := E.HelloWrites(d, id, secretHash, drawn, now);
  }

  class FileStore {
    const state: StateFile
    const telemetry: TelemetryFile
    var nextTelemetryId: int

    ghost predicate Valid()
      reads this, state
    {
      Inv(state.Data())
    }

    /** The memory and the file are those of this operation on the old memory. */
    twostate predicate Did(op: Op, save: SaveOutcome)
      reads state
    {
      var e := Apply(old(state.Data()), op);
      state.Data() == e.data && state.file == FileAfter(state.codec, old(state.file), e, save)
    }

    constructor (state: StateFile, telemetry: TelemetryFile, nextTelemetryId: int)
      ensures this.state == state && this.telemetry == telemetry && this.nextTelemetryId == nextTelemetryId
    {
      this.state, this.telemetry, this.nextTelemetryId := state, telemetry, nextTelemetryId;
    }

    /** Opening the two files, whose paths must be given: memory is what the state file holds
        and the counter follows the last 500 telemetry records; either file failing to load
        fails the opening. */
    static method OpenFiles(statePath: string, telemetryPath: string,
                            stateCodec: StateCodec, recordCodec: TL.RecordCodec,
                            stateBytes: Option<Bytes>, logBytes: Option<Bytes>,
                            stateReadable: bool, logReadable: bool, now: Time)
      returns (store: FileStore?)
      ensures var d := Load(stateCodec, stateBytes, stateReadable, now);
        var recent := TL.LoadRecent(recordCodec, logBytes, logReadable, 500);
        && (store != null <==> statePath != "" && telemetryPath != "" && d.Ok? && recent.Ok?)
        && (store != null ==>
              && store.state.Data() == d.value && store.state.file == stateBytes
              && store.telemetry.file == logBytes
              && store.nextTelemetryId == NextAfter(TL.Ids(recent.value)))
    {
      if statePath == "" || telemetryPath == "" {
        return null;
      }
      var state := new StateFile(stateCodec, stateBytes, None, now);
      var telemetry := new TelemetryFile(recordCodec, logBytes);
      var err := state.Load(stateReadable, now);
      if err {
        return null;
      }
      var items;
      items, err := telemetry.LoadRecent(logReadable, TL.MAX_TELEMETRY);
      if err {
        return null;
      }
      var next := NextTelemetryId(items);
      store := new FileStore(state, telemetry, next);
    }

    static method NextTelemetryId(items: Slice) returns (next: int)
      requires items.Valid()
      ensures next == NextAfter(TL.Ids(items.Contents()))
    {
      next := 1;
      var i := 0;
      while i < items.len
        invariant i <= items.len
        invariant next == NextAfter(TL.Ids(items.Contents()[..i]))
      {
        var item := items.buf[i];
        if item.id >= next {
          next := item.id + 1;
        }
        ghost var ids := TL.Ids(items.Contents()[..i + 1]);
        assert ids[..|ids| - 1] == TL.Ids(items.Contents()[..i]);
        i := i + 1;
      }
      assert items.Contents()[..items.len] == items.Contents();
    }

    // ---- Users ----

    method CreateUser(id: string, name: string, email: string, tokenHash: string, now: Time, save: SaveOutcome)
      returns (user: User, err: bool)
      requires Valid()
      modifies state
      ensures var op := Op.CreateUser(id, TrimSpace(name), TrimSpace(email), tokenHash, now);
        Valid() && Did(op, save) && Apply(old(state.Data()), op).reply == UserCreated(user)
      ensures state.users == old(state.users) + [user] && (err <==> save != Done)
      ensures var given := TrimSpace(name);
        user == User(id, if given == "" then "user" else given, TrimSpace(email), tokenHash, now)
    {
      hide Inv, OpOk;
      ApplyKeepsInv(state.Data(), Op.CreateUser(id, TrimSpace(name), TrimSpace(email), tokenHash, now));
      user := User(id, TrimSpace(name), TrimSpace(email), tokenHash, now);
      if user.name == "" {
        user := user.(name := "user");
      }
      state.users := state.users + [user];
      err := state.Save(save);
    }

    // ---- Devices ----

    method BindCodeExists(code: string) returns (found: bool)
      ensures found <==> exists i :: 0 <= i < |state.devices| && state.devices[i].bindCode == code
    {
      var i := 0;
      while i < |state.devices|
        invariant i <= |state.devices|
        invariant forall j :: 0 <= j < i ==> state.devices[j].bindCode != code
      {
        if state.devices[i].bindCode == code {
          return true;
        }
        i := i + 1;
      }
      return false;
    }

    static method RandomDigits(source: nat -> BC.Decimal, at: nat, length: nat) returns (code: string)
      ensures code == BC.Digits(source, at, length)
    {
      var out := new char[length];
      var i := 0;
      while i < length
        invariant i <= length
        invariant out[..i] == BC.Digits(source, at, i)
      {
        out[i] := BC.Digit(source(at + i));
        assert out[..i + 1] == out[..i] + [out[i]];
        i := i + 1;
      }
      assert out[..] == out[..length];
      return out[..];
    }

    /** Draws until a code is free. It returns the first free one, and returns at all as
        long as some draw is free. */
    method UniqueBindCode(source: nat -> BC.Decimal, at: nat) returns (code: string)
      requires exists k: nat :: DV.FreeCode(state.devices, BC.Draw(source, at, k))
      ensures DV.FreeCode(state.devices, code)
      ensures exists k: nat :: code == BC.Draw(source, at, k)
                && forall j: nat :: j < k ==> !DV.FreeCode(state.devices, BC.Draw(source, at, j))
    {
      ghost var last: nat :| DV.FreeCode(state.devices, BC.Draw(source, at, last));
      var n := 0;
      while true
        invariant n <= last
        invariant forall j: nat :: j < n ==> !DV.FreeCode(state.devices, BC.Draw(source, at, j))
        decreases last - n
      {
        code := RandomDigits(source, at + BC.CODE_LENGTH * n, BC.CODE_LENGTH);
        assert code == BC.Draw(source, at, n);
        var taken := BindCodeExists(code);
        if !taken {
          return;
        }
        n := n + 1;
      }
    }

    /** Notes the visit; an unbound device whose code has lapsed is given a new one. */
    method SeeDevice(known: Device, source: nat -> BC.Decimal, at: nat, now: Time)
      returns (device: Device, ghost drawn: string)
      requires DV.NeedsCode(known, now) ==> exists k: nat :: DV.FreeCode(state.devices, BC.Draw(source, at, k))
      ensures device == DV.Seen(known, drawn, now)
      ensures DV.NeedsCode(known, now) ==> DV.FreeCode(state.devices, drawn)
    {
      drawn := "";
      device := known.(lastSeenAt := Some(now));
      if device.ownerId == "" {
        if device.bindCode == "" || device.bindCodeExpiresAt == None || now > device.bindCodeExpiresAt.value {
          var code := UniqueBindCode(source, at);
          drawn := code;
          device := device.(bindCode := code, bindCodeExpiresAt := Some(now + DV.BIND_CODE_TTL));
        }
      }
    }

    /** `drawn` is the code taken from the digit source, when one was needed. */
    method HelloDevice(deviceId: string, secretHash: string, source: nat -> BC.Decimal, at: nat,
                       now: Time, save: SaveOutcome)
      returns (hello: DeviceHello, err: HelloError, ghost drawn: string)
      requires Valid()
      requires DV.DrawsCode(state.devices, deviceId, secretHash, now) ==>
                 exists k: nat :: DV.FreeCode(state.devices, BC.Draw(source, at, k))
      modifies state
      ensures Valid()
      ensures OpOk(old(state.Data()), Op.HelloDevice(deviceId, secretHash, drawn, now))
      ensures Did(Op.HelloDevice(deviceId, secretHash, drawn, now), save)
      ensures match Apply(old(state.Data()), Op.HelloDevice(deviceId, secretHash, drawn, now)).reply
              case Hello(h) => if save == Done then err == NoError && hello == h
                               else err == SaveError && hello == NO_HELLO
              case SecretRefused => err == InvalidSecret && hello == NO_HELLO
              case _ => false
      ensures err == InvalidSecret <==> DV.CarriesAnother(old(state.devices), deviceId, secretHash)
      ensures err == NoError ==> exists k ::
                DV.HelloStored(old(state.devices), state.devices, hello, k, deviceId, secretHash, drawn, now)
    {
      hide Inv, OpOk, Apply, DV.FreeCode, DV.NeedsCode, DV.Seen, DV.Greeting, DV.HelloStored, DV.CarriesAnother;
      ghost var k;
      drawn := "";
      var i := 0;
      while i < |state.devices|
        invariant i <= |state.devices|
        invariant unchanged(state)
        invariant forall j :: 0 <= j < i ==> state.devices[j].id != deviceId
      {
        if state.devices[i].id == deviceId {
          assert FirstIndex(DV.IdIs(deviceId), state.devices) == i;
          if state.devices[i].secretHash != secretHash {
            k := HelloDone(state.Data(), deviceId, secretHash, drawn, now, i);
            return NO_HELLO, InvalidSecret, drawn;
          }
          var device;
          device, drawn := SeeDevice(state.devices[i], source, at, now);
          k := HelloDone(state.Data(), deviceId, secretHash, drawn, now, i);
          state.devices := state.devices[i := device];
          hello, err := SaveAndGreet(device, now, save);
          return;
        }
        i := i + 1;
      }
      assert FirstIndex(DV.IdIs(deviceId), state.devices) == -1;
      var code := UniqueBindCode(source, at);
      drawn := code;
      var device := Device(deviceId, "", "", secretHash, code, Some(now + DV.BIND_CODE_TTL), None, Some(now), now);
      k := HelloDone(state.Data(), deviceId, secretHash, drawn, now, -1);
      state.devices := state.devices + [device];
      hello, err := SaveAndGreet(device, now, save);
    }

    method SaveAndGreet(device: Device, now: Time, save: SaveOutcome) returns (hello: DeviceHello, err: HelloError)
      modifies state
      ensures state.Data() == old(state.Data())
      ensures if save == Done then err == NoError && hello == DV.Greeting(device, now)
              else err == SaveError && hello == NO_HELLO
      ensures state.file == if save == Done then Some(state.codec.encode(state.Data())) else old(state.file)
    {
      var failed := state.Save(save);
      if failed {
        return NO_HELLO, SaveError;
      }
      return DV.Greeting(device, now), NoError;
    }

    method BindDevice(owner: string, bindCode: string, name: string, now: Time, save: SaveOutcome)
      returns (device: Device, found: bool, bound: bool, err: bool)
      requires Valid() && owner != ""
      modifies state
      ensures Valid() && Did(Op.BindDevice(owner, bindCode, TrimSpace(name), now), save)
      ensures match Apply(old(state.Data()), Op.BindDevice(owner, bindCode, TrimSpace(name), now)).reply
              case DeviceBound(d) =>
                found && bound == (save == Done) && err == !bound && device == if bound then d else NO_DEVICE
              case BindRefused => found && !bound && !err && device == NO_DEVICE
              case CodeUnknown => !found && !bound && !err && device == NO_DEVICE
              case _ => false
      ensures bound ==> exists i ::
                E.BindStored(old(state.devices), state.devices, device, i, owner, bindCode, TrimSpace(name), now)
    {
      hide Inv, OpOk, Apply, E.BindStored, DV.CodeLive;
      ghost var k := E.BindWrites(state.Data(), owner, bindCode, TrimSpace(name), now);
      ApplyKeepsInv(state.Data(), Op.BindDevice(owner, bindCode, TrimSpace(name), now));
      var i := 0;
      while i < |state.devices|
        invariant i <= |state.devices|
        invariant unchanged(state)
        invariant forall j :: 0 <= j < i ==> state.devices[j].bindCode != bindCode
      {
        device := state.devices[i];
        if device.bindCode == bindCode {
          assert FirstIndex(DV.CodeIs(bindCode), state.devices) == i;
          BindCases(state.Data(), owner, bindCode, TrimSpace(name), now, i);
          if device.ownerId != "" || device.bindCodeExpiresAt == None || now > device.bindCodeExpiresAt.value {
            return NO_DEVICE, true, false, false;
          }
          device := device.(ownerId := owner, name := TrimSpace(name));
          if device.name == "" {
            device := device.(name := device.id);
          }
          device := device.(bindCode := "", bindCodeExpiresAt := None, boundAt := Some(now));
          state.devices := state.devices[i := device];
          err := state.Save(save);
          if err {
            return NO_DEVICE, true, false, true;
          }
          return device, true, true, false;
        }
        i := i + 1;
      }
      assert FirstIndex(DV.CodeIs(bindCode), state.devices) < 0;
      BindCases(state.Data(), owner, bindCode, TrimSpace(name), now, -1);
      return NO_DEVICE, false, false, false;
    }

    method UpdateDevice(owner: string, deviceId: string, name: string, save: SaveOutcome)
      returns (device: Device, found: bool, err: bool)
      requires Valid() && owner != ""
      modifies state
      ensures Valid() && Did(Op.UpdateDevice(owner, deviceId, TrimSpace(name)), save)
      ensures match Apply(old(state.Data()), Op.UpdateDevice(owner, deviceId, TrimSpace(name))).reply
              case DeviceRenamed(d) => found && err == (save != Done) && device == if err then NO_DEVICE else d
              case DeviceNotFound => !found && !err && device == NO_DEVICE
              case _ => false
      ensures found <==> DV.BoundTo(old(state.devices), owner, deviceId)
      ensures found && !err ==> exists i ::
                E.RenameStored(old(state.devices), state.devices, device, i, owner, deviceId, TrimSpace(name))
    {
      hide Inv, OpOk, Apply, DV.BoundTo, E.RenameStored;
      ghost var k := E.RenameWrites(state.Data(), owner, deviceId, TrimSpace(name));
      ApplyKeepsInv(state.Data(), Op.UpdateDevice(owner, deviceId, TrimSpace(name)));
      var i := 0;
      while i < |state.devices|
        invariant i <= |state.devices|
        invariant unchanged(state)
        invariant forall j :: 0 <= j < i ==> state.devices[j].id != deviceId || state.devices[j].ownerId != owner
      {
        if state.devices[i].id == deviceId && state.devices[i].ownerId == owner {
          assert FirstIndex(DV.OwnedAs(owner, deviceId), state.devices) == i;
          RenameCases(state.Data(), owner, deviceId, TrimSpace(name), i);
          device := state.devices[i].(name := TrimSpace(name));
          state.devices := state.devices[i := device];
          err := state.Save(save);
          return if err then NO_DEVICE else device, true, err;
        }
        i := i + 1;
      }
      assert FirstIndex(DV.OwnedAs(owner, deviceId), state.devices) < 0;
      RenameCases(state.Data(), owner, deviceId, TrimSpace(name), -1);
      return NO_DEVICE, false, false;
    }

    method DeleteDevice(owner: string, deviceId: string, save: SaveOutcome) returns (found: bool, err: bool)
      requires Valid() && owner != ""
      modifies state
      ensures Valid() && Did(Op.DeleteDevice(owner, deviceId), save)
      ensures match Apply(old(state.Data()), Op.DeleteDevice(owner, deviceId)).reply
              case DeviceDeleted => found && err == (save != Done)
              case DeviceNotFound => !found && !err
              case _ => false
      ensures found <==> DV.BoundTo(old(state.devices), owner, deviceId)
    {
      hide Inv, OpOk, Apply, DV.BoundTo;
      ghost var saves := Apply(state.Data(), Op.DeleteDevice(owner, deviceId)).saves;
      assert saves <==> DV.BoundTo(state.devices, owner, deviceId) by {
        E.DeleteDeviceWrites(state.Data(), owner, deviceId);
      }
      ApplyKeepsInv(state.Data(), Op.DeleteDevice(owner, deviceId));
      var i := 0;
      while i < |state.devices|
        invariant i <= |state.devices|
        invariant unchanged(state)
        invariant forall j :: 0 <= j < i ==> state.devices[j].id != deviceId || state.devices[j].ownerId != owner
      {
        if state.devices[i].id == deviceId && state.devices[i].ownerId == owner {
          assert FirstIndex(DV.OwnedAs(owner, deviceId), state.devices) == i;
          DeleteDeviceCases(state.Data(), owner, deviceId, i);
          state.devices := state.devices[..i] + state.devices[i + 1..];
          err := state.Save(save);
          return true, err;
        }
        i := i + 1;
      }
      assert FirstIndex(DV.OwnedAs(owner, deviceId), state.devices) < 0;
      DeleteDeviceCases(state.Data(), owner, deviceId, -1);
      return false, false;
    }

    method Devices(owner: string) returns (out: seq<Device>)
      ensures out == DevicesOf(state.Data(), owner)
    {
      out := [];
      var i := 0;
      while i < |state.devices|
        invariant i <= |state.devices|
        invariant out == Filter(DV.OwnedBy(owner), state.devices[..i])
      {
        FilterSnoc(DV.OwnedBy(owner), state.devices, i);
        if state.devices[i].ownerId == owner {
          out := out + [state.devices[i]];
        }
        i := i + 1;
      }
      assert state.devices[..i] == state.devices;
    }

    method OwnerDeviceIds(owner: string) returns (ids: set<string>)
      ensures ids == TV.DeviceIds(state.devices, owner)
    {
      ids := {};
      var i := 0;
      while i < |state.devices|
        invariant i <= |state.devices|
        invariant ids == set j | 0 <= j < i && state.devices[j].ownerId == owner :: state.devices[j].id
      {
        if state.devices[i].ownerId == owner {
          ids := ids + {state.devices[i].id};
        }
        i := i + 1;
      }
    }

    // ---- Messages ----

    method AddDeviceMessage(owner: string, deviceId: string, author: string, body: string, priority: Priority,
                            now: Time, save: SaveOutcome)
      returns (msg: Message, err: bool)
      requires Valid()
      modifies state
      ensures Valid() && Did(Op.AddDeviceMessage(owner, deviceId, author, body, priority, now), save)
      ensures Apply(old(state.Data()), Op.AddDeviceMessage(owner, deviceId, author, body, priority, now)).reply
           == MessageAdded(msg)
      ensures state.messages != [] && state.messages[|state.messages| - 1] == msg && (err <==> save != Done)
      ensures msg.id == old(state.nextMessageId) && E.AsSent(msg, owner, deviceId, author, body, priority, now)
    {
      hide Inv, OpOk, Apply, E.AsSent;
      AddMessageCase(state.Data(), owner, deviceId, author, body, priority, now);
      ApplyKeepsInv(state.Data(), Op.AddDeviceMessage(owner, deviceId, author, body, priority, now));
      E.AddMessageWrites(state.Data(), owner, deviceId, author, body, priority, now);
      var p := if priority == NoPriority then Normal else priority;
      msg := Message(state.nextMessageId, owner, deviceId, author, body, p, Pending, now, None);
      state.nextMessageId := state.nextMessageId + 1;
      state.messages := state.messages + [msg];
      if |state.messages| > IN.MAX_MESSAGES {
        state.messages := state.messages[|state.messages| - IN.MAX_MESSAGES..];
      }
      assert state.messages[|state.messages| - 1] == msg;
      err := state.Save(save);
    }

    method PendingDeviceMessages(deviceId: string, limit: int) returns (out: seq<Message>)
      ensures out == Limit(limit, IN.PendingMessages(state.messages, deviceId))
    {
      var p := IN.PendingFor(deviceId);
      out := [];
      var i := 0;
      while i < |state.messages|
        invariant i <= |state.messages|
        invariant out == Filter(p, state.messages[..i])
        invariant limit > 0 ==> |out| < limit
      {
        var msg := state.messages[i];
        FilterSnoc(p, state.messages, i);
        if msg.deviceId != deviceId || msg.status != Pending {
          i := i + 1;
          continue;
        }
        out := out + [msg];
        i := i + 1;
        if limit > 0 && |out| >= limit {
          ForwardScan(p, state.messages, i, limit);
          return;
        }
      }
      assert state.messages[..i] == state.messages;
    }

    static method Wanted(messageIds: seq<int>) returns (want: map<int, bool>)
      ensures forall id :: id in want <==> id in messageIds
      ensures forall id :: id in want ==> want[id]
    {
      want := map[];
      var k := 0;
      while k < |messageIds|
        invariant k <= |messageIds|
        invariant forall id :: id in want <==> id in messageIds[..k]
        invariant forall id :: id in want ==> want[id]
      {
        want := want[messageIds[k] := true];
        k := k + 1;
      }
      assert messageIds[..k] == messageIds;
    }

    static method StillWanted(messageIds: seq<int>, want: map<int, bool>, ghost acked: seq<int>)
      returns (missing: seq<int>)
      requires forall id :: id in want ==> want[id]
      requires forall id :: id in want <==> id in messageIds && id !in acked
      ensures missing == Filter(IN.NotIn(acked), messageIds)
    {
      ghost var p := IN.NotIn(acked);
      missing := [];
      var k := 0;
      while k < |messageIds|
        invariant k <= |messageIds|
        invariant missing == Filter(p, messageIds[..k])
      {
        FilterSnoc(p, messageIds, k);
        var id := messageIds[k];
        assert id in messageIds;
        assert p(id) <==> id !in acked;
        if id in want && want[id] {
          missing := missing + [id];
        }
        k := k + 1;
      }
      assert messageIds[..k] == messageIds;
    }

    /** Marks the wanted messages of the device, in place, and takes their ids off the list. */
    method MarkWanted(deviceId: string, ghost messageIds: seq<int>, wanted: map<int, bool>, now: Time)
      returns (acked: seq<int>, want: map<int, bool>)
      requires IN.IdsAscend(state.messages)
      requires forall id :: id in wanted <==> id in messageIds
      modifies state`messages
      ensures state.messages == IN.AckAll(old(state.messages), deviceId, messageIds, now)
      ensures acked == IN.AckedIds(old(state.messages), deviceId, messageIds)
      ensures forall id :: id in want <==> id in messageIds && id !in acked
      ensures forall id :: id in want ==> id in wanted && want[id] == wanted[id]
    {
      ghost var before := state.messages;
      ghost var p := IN.Requested(deviceId, messageIds);
      acked, want := [], wanted;
      var i := 0;
      while i < |state.messages|
        invariant i <= |state.messages| == |before|
        invariant forall j :: 0 <= j < i ==> state.messages[j] == IN.Acknowledge(before[j], deviceId, messageIds, now)
        invariant forall j :: i <= j < |before| ==> state.messages[j] == before[j]
        invariant acked == IN.Ids(Filter(p, before[..i]))
        invariant forall id :: id in acked ==> i < |before| ==> id < before[i].id
        invariant forall id :: id in want ==> id in wanted && want[id] == wanted[id]
        invariant forall id :: id in want <==> id in messageIds && id !in acked
      {
        var msg := state.messages[i];
        FilterSnoc(p, before, i);
        if msg.deviceId != deviceId || msg.id !in want {
          i := i + 1;
          continue;
        }
        if msg.status != Acked {
          state.messages := state.messages[i := msg.(status := Acked, ackedAt := Some(now))];
        }
        acked := acked + [msg.id];
        want := want - {msg.id};
        i := i + 1;
      }
      assert before[..i] == before;
    }

    method AckDeviceMessages(deviceId: string, messageIds: seq<int>, now: Time, save: SaveOutcome)
      returns (acked: seq<int>, missing: seq<int>, err: bool)
      requires Valid()
      modifies state
      ensures Valid() && Did(Op.AckDeviceMessages(deviceId, messageIds, now), save)
      ensures acked == IN.AckedIds(old(state.messages), deviceId, messageIds)
      ensures missing == IN.MissingIds(old(state.messages), deviceId, messageIds)
      ensures err <==> save != Done
    {
      hide Inv, OpOk;
      ApplyKeepsInv(state.Data(), Op.AckDeviceMessages(deviceId, messageIds, now));
      InvAscends(state.Data());
      var want := Wanted(messageIds);
      acked, want := MarkWanted(deviceId, messageIds, want, now);
      missing := StillWanted(messageIds, want, acked);
      err := state.Save(save);
    }

    static lemma InvAscends(d: StateData)
      requires Inv(d)
      ensures IN.IdsAscend(d.messages)
    {
    }

    method DeviceMessages(owner: string, deviceId: string, limit: int) returns (out: seq<Message>)
      ensures out == Limit(limit, Reverse(Filter(IN.Between(owner, deviceId), state.messages)))
    {
      var p := IN.Between(owner, deviceId);
      out := [];
      var i := |state.messages|;
      while i > 0
        invariant 0 <= i <= |state.messages|
        invariant out == Reverse(Filter(p, state.messages[i..]))
        invariant limit > 0 ==> |out| < limit
      {
        i := i - 1;
        BackwardStep(p, state.messages, i);
        var msg := state.messages[i];
        if msg.ownerId != owner || msg.deviceId != deviceId {
          continue;
        }
        out := out + [msg];
        if limit > 0 && |out| >= limit {
          ReverseAt(Filter(p, state.messages[i..]));
          BackwardScan(p, state.messages, i, limit);
          return;
        }
      }
      assert state.messages[0..] == state.messages;
    }

    method OwnerMessages(owner: string) returns (out: seq<Message>)
      ensures out == MessagesOf(state.Data(), owner)
    {
      var p := IN.OwnedBy(owner);
      out := [];
      var i := |state.messages|;
      while i > 0
        invariant 0 <= i <= |state.messages|
        invariant out == Reverse(Filter(p, state.messages[i..]))
      {
        i := i - 1;
        BackwardStep(p, state.messages, i);
        if state.messages[i].ownerId == owner {
          out := out + [state.messages[i]];
        }
      }
      assert state.messages[0..] == state.messages;
    }

    // ---- To-dos ----

    method TodoIndex(owner: string, id: int) returns (index: int)
      ensures index == TD.IndexOf(state.todos, owner, id)
    {
      var i := 0;
      while i < |state.todos|
        invariant i <= |state.todos|
        invariant forall j :: 0 <= j < i ==> state.todos[j].id != id || state.todos[j].ownerId != owner
      {
        if state.todos[i].id == id && state.todos[i].ownerId == owner {
          return i;
        }
        i := i + 1;
      }
      return -1;
    }

    method Todos(owner: string) returns (out: seq<Todo>)
      ensures out == TodosOf(state.Data(), owner)
    {
      out := [];
      var i := 0;
      while i < |state.todos|
        invariant i <= |state.todos|
        invariant out == Filter(TD.OwnedBy(owner), state.todos[..i])
      {
        FilterSnoc(TD.OwnedBy(owner), state.todos, i);
        if state.todos[i].ownerId == owner {
          out := out + [state.todos[i]];
        }
        i := i + 1;
      }
      assert state.todos[..i] == state.todos;
    }

    method AddTodo(owner: string, text: string, status: int, now: Time, save: SaveOutcome)
      returns (todo: Todo, err: bool)
      requires Valid()
      modifies state
      ensures Valid() && Did(Op.AddTodo(owner, text, status, now), save)
      ensures Apply(old(state.Data()), Op.AddTodo(owner, text, status, now)).reply == TodoAdded(todo)
      ensures todo == Todo(old(state.nextTodoId), owner, text, status, 1, now, now)
      ensures state.todos == old(state.todos) + [todo] && (err <==> save != Done)
    {
      hide Inv, OpOk;
      ApplyKeepsInv(state.Data(), Op.AddTodo(owner, text, status, now));
      todo := Todo(state.nextTodoId, owner, text, status, 1, now, now);
      state.nextTodoId := state.nextTodoId + 1;
      state.todos := state.todos + [todo];
      err := state.Save(save);
    }

    method UpdateTodo(owner: string, id: int, version: int, patch: TodoPatch, now: Time, save: SaveOutcome)
      returns (todo: Todo, found: bool, swapped: bool, err: bool)
      requires Valid()
      modifies state
      ensures Valid() && Did(Op.UpdateTodo(owner, id, version, patch, now), save)
      ensures match Apply(old(state.Data()), Op.UpdateTodo(owner, id, version, patch, now)).reply
              case TodoUpdated(t) => found && swapped && todo == t && err == (save != Done)
              case TodoConflict(t) => found && !swapped && todo == t && !err
              case TodoNotFound => !found && !swapped && todo == NO_TODO && !err
              case _ => false
      ensures found <==> E.HasTodo(old(state.Data()), owner, id)
      ensures swapped <==> E.HasTodoAt(old(state.Data()), owner, id, version)
      ensures swapped ==> exists i ::
                TD.EditedAt(old(state.todos), state.todos, i, todo, owner, id, version, patch, now)
    {
      hide Inv, OpOk, Apply, E.HasTodo, E.HasTodoAt, TD.EditedAt;
      E.UpdateTodoWrites(state.Data(), owner, id, version, patch, now);
      ApplyKeepsInv(state.Data(), Op.UpdateTodo(owner, id, version, patch, now));
      var index := TodoIndex(owner, id);
      UpdateTodoCases(state.Data(), owner, id, version, patch, now, index);
      if index < 0 {
        return NO_TODO, false, false, false;
      }
      todo := state.todos[index];
      if todo.version != version {
        return todo, true, false, false;
      }
      if patch.text.Some? {
        todo := todo.(text := patch.text.value);
      }
      if patch.status.Some? {
        todo := todo.(status := patch.status.value);
      }
      todo := todo.(version := todo.version + 1);
      todo := todo.(updatedAt := now);
      state.todos := state.todos[index := todo];
      err := state.Save(save);
      return todo, true, true, err;
    }

    method DeleteTodo(owner: string, id: int, version: int, save: SaveOutcome)
      returns (found: bool, swapped: bool, err: bool)
      requires Valid()
      modifies state
      ensures Valid() && Did(Op.DeleteTodo(owner, id, version), save)
      ensures match Apply(old(state.Data()), Op.DeleteTodo(owner, id, version)).reply
              case TodoDeleted => found && swapped && err == (save != Done)
              case TodoConflict(_) => found && !swapped && !err
              case TodoNotFound => !found && !swapped && !err
              case _ => false
      ensures found <==> E.HasTodo(old(state.Data()), owner, id)
      ensures swapped <==> E.HasTodoAt(old(state.Data()), owner, id, version)
    {
      hide Inv, OpOk, Apply, E.HasTodo, E.HasTodoAt;
      ghost var reply := Apply(state.Data(), Op.DeleteTodo(owner, id, version)).reply;
      assert reply != TodoNotFound <==> E.HasTodo(state.Data(), owner, id) by {
        E.DeleteTodoWrites(state.Data(), owner, id, version);
      }
      assert reply == TodoDeleted <==> E.HasTodoAt(state.Data(), owner, id, version) by {
        E.DeleteTodoWrites(state.Data(), owner, id, version);
      }
      ApplyKeepsInv(state.Data(), Op.DeleteTodo(owner, id, version));
      var index := TodoIndex(owner, id);
      DeleteTodoCases(state.Data(), owner, id, version, index);
      if index < 0 {
        return false, false, false;
      }
      if state.todos[index].version != version {
        return true, false, false;
      }
      state.todos := state.todos[..index] + state.todos[index + 1..];
      err := state.Save(save);
      return true, true, err;
    }

    // ---- Telemetry ----

    method AddTelemetry(item: Telemetry, now: Time, outcome: TL.AppendOutcome) returns (stored: Telemetry, err: bool)
      modifies this, telemetry
      ensures err <==> outcome != TL.Written
      ensures var stamped := TL.Stamp(item, old(nextTelemetryId), now);
        && telemetry.file == TL.AppendTo(telemetry.codec, old(telemetry.file), stamped, outcome)
        && nextTelemetryId == old(nextTelemetryId) + (if err then 0 else 1)
        && stored == if err then NO_TELEMETRY else stamped
      ensures !err ==> TL.StoredAs(stored, item, old(nextTelemetryId), now)
    {
      var t := item.(id := nextTelemetryId, receivedAt := now);
      if t.reportTimestamp == 0 {
        t := t.(reportTimestamp := now);
      }
      if t.app == None {
        t := t.(app := Some(map[]));
      }
      err := telemetry.Append(t, outcome);
      if err {
        return NO_TELEMETRY, true;
      }
      nextTelemetryId := nextTelemetryId + 1;
      return t, false;
    }

    /** The log and its counter, as the run machine of the log sees them. */
    function Log(): TL.Config
      reads this, telemetry
    {
      TL.Config(telemetry.file, Some(nextTelemetryId))
    }

    /** What other writers append while a query holds no lock. */
    method OthersAppend(adds: seq<TL.Event>)
      requires forall i :: 0 <= i < |adds| ==> adds[i].Add?
      modifies this, telemetry
      ensures Log() == TL.NextAll(telemetry.codec, old(Log()), adds)
    {
      var i := 0;
      while i < |adds|
        invariant i <= |adds|
        invariant Log() == TL.NextAll(telemetry.codec, old(Log()), adds[..i])
      {
        var _, _ := AddTelemetry(adds[i].item, adds[i].now, adds[i].outcome);
        assert adds[..i + 1][..i] == adds[..i];
        i := i + 1;
      }
      assert adds[..i] == adds;
    }

    method Telemetry(readable: bool, limit: int) returns (out: seq<Telemetry>)
      ensures out == match TL.LoadRecent(telemetry.codec, telemetry.file, readable, limit)
                     case Ok(records) => Reverse(records)
                     case Err => []
    {
      var items, err := telemetry.LoadRecent(readable, limit);
      if err {
        return [];
      }
      items.Reverse();
      return items.buf[..items.len];
    }

    /** The owner of the first device with the id, or the empty id. */
    method OwnerOfDevice(deviceId: string) returns (deviceOwner: string)
      ensures deviceOwner == TV.OwnerOf(state.devices, deviceId)
    {
      deviceOwner := "";
      var i := 0;
      while i < |state.devices|
        invariant i <= |state.devices|
        invariant forall j :: 0 <= j < i ==> state.devices[j].id != deviceId
        invariant deviceOwner == ""
      {
        if state.devices[i].id == deviceId {
          deviceOwner := state.devices[i].ownerId;
          break;
        }
        i := i + 1;
      }
      assert deviceOwner == TV.OwnerOf(state.devices, deviceId) by {
        assert FirstIndex(DV.IdIs(deviceId), state.devices) == if i < |state.devices| then i else -1;
      }
    }

    /** The owner is looked up under the lock; the log is read after it is released, when
        `between` may have been appended. */
    method DeviceTelemetry(owner: string, deviceId: string, readable: bool, limit: int, between: seq<TL.Event>)
      returns (out: seq<Telemetry>)
      requires forall i :: 0 <= i < |between| ==> between[i].Add?
      modifies this, telemetry
      ensures Log() == TL.NextAll(telemetry.codec, old(Log()), between)
      ensures out == match TL.LoadRecent(telemetry.codec, telemetry.file, readable, 500)
                     case Ok(window) => TV.DeviceView(state.devices, window, owner, deviceId, limit)
                     case Err => []
    {
      var deviceOwner := OwnerOfDevice(deviceId);
      OthersAppend(between);
      ghost var log := Log();
      if deviceOwner != owner {
        return [];
      }
      var items, err := telemetry.LoadRecent(readable, TL.MAX_TELEMETRY);
      if err {
        return [];
      }
      var window := items.buf[..items.len];
      var p := TV.ForDevice(deviceId);
      out := [];
      var i := |window|;
      while i > 0
        invariant 0 <= i <= |window|
        invariant Log() == log
        invariant out == Reverse(Filter(p, window[i..]))
        invariant limit > 0 ==> |out| < limit
      {
        i := i - 1;
        BackwardStep(p, window, i);
        if window[i].deviceId != deviceId {
          continue;
        }
        out := out + [window[i]];
        if limit > 0 && |out| >= limit {
          ReverseAt(Filter(p, window[i..]));
          BackwardScan(p, window, i, limit);
          return;
        }
      }
      assert window[0..] == window;
    }

    static method FilterTelemetryByDevices(items: Slice, ids: set<string>, limit: int) returns (out: Slice)
      requires items.Valid()
      ensures fresh(out) && fresh(out.buf) && out.Valid()
      ensures out.Contents() == TV.DevicesView(items.Contents(), ids, limit)
    {
      var p := TV.ForDevices(ids);
      ghost var window := items.Contents();
      out := new Slice();
      var i := items.len;
      while i > 0
        invariant 0 <= i <= items.len
        invariant fresh(out) && fresh(out.buf) && out.Valid()
        invariant out.Contents() == Reverse(Filter(p, window[i..]))
        invariant limit > 0 ==> out.len < limit
      {
        i := i - 1;
        BackwardStep(p, window, i);
        assert items.buf[i] == window[i];
        if items.buf[i].deviceId !in ids {
          continue;
        }
        out.Append(items.buf[i]);
        if limit > 0 && out.len >= limit {
          ReverseAt(Filter(p, window[i..]));
          BackwardScan(p, window, i, limit);
          return;
        }
      }
      assert window[0..] == window;
    }

    /** Messages and telemetry of one user; a log that cannot be read shows no telemetry. The
        log is read after the lock is released, when `between` may have been appended. */
    method Snapshot(owner: string, readable: bool, between: seq<TL.Event>) returns (snapshot: Domain.Snapshot)
      requires forall i :: 0 <= i < |between| ==> between[i].Add?
      modifies this, telemetry
      ensures Log() == TL.NextAll(telemetry.codec, old(Log()), between)
      ensures snapshot.weather == state.weather
      ensures snapshot.messages == MessagesOf(state.Data(), owner)
      ensures snapshot.todos == TodosOf(state.Data(), owner)
      ensures snapshot.telemetry == match TL.LoadRecent(telemetry.codec, telemetry.file, readable, 500)
                                    case Ok(window) => Filter(TV.ForDevices(TV.DeviceIds(state.devices, owner)), window)
                                    case Err => []
    {
      var deviceIds := OwnerDeviceIds(owner);
      var messages := OwnerMessages(owner);
      var todos := Todos(owner);
      var weather := state.weather;
      OthersAppend(between);
      var items, err := telemetry.LoadRecent(readable, TL.MAX_TELEMETRY);
      if err {
        items := new Slice();
      }
      TV.SnapshotIsFilter(state.devices, items.Contents(), owner);
      var filtered := FilterTelemetryByDevices(items, deviceIds, TL.MAX_TELEMETRY);
      filtered.Reverse();
      snapshot := Domain.Snapshot(weather, messages, todos, filtered.buf[..filtered.len]);
    }
  }
}
