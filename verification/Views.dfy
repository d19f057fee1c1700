/** What each query shows: which entries, in which order, and how many. The positions `at` are
    those of all the entries a query is about; a limit that is not positive is none. */
module Views {
  import opened Seqs
  import opened Domain
  import opened State
  import Devices
  import Inbox
  import Todos
  import TV = TelemetryViews

  /** The user's to-dos, in the order they were added. */
  lemma TodosShown(d: StateData, owner: string) returns (at: seq<nat>)
    ensures forall i: nat :: i in at <==> i < |d.todos| && d.todos[i].ownerId == owner
    ensures Oldest(d.todos, at, 0, TodosOf(d, owner))
  {
    at := QueryPicks(Todos.OwnedBy(owner), d.todos, 0);
  }

  /** The user's devices, in the order they first said hello. */
  lemma DevicesShown(d: StateData, owner: string) returns (at: seq<nat>)
    ensures forall i: nat :: i in at <==> i < |d.devices| && d.devices[i].ownerId == owner
    ensures Oldest(d.devices, at, 0, DevicesOf(d, owner))
  {
    at := QueryPicks(Devices.OwnedBy(owner), d.devices, 0);
  }

  /** All of the user's messages, newest first. */
  lemma MessagesShown(d: StateData, owner: string) returns (at: seq<nat>)
    ensures forall i: nat :: i in at <==> i < |d.messages| && d.messages[i].ownerId == owner
    ensures Newest(d.messages, at, 0, MessagesOf(d, owner))
  {
    at := QueryPicks(Inbox.OwnedBy(owner), d.messages, 0);
  }

  /** The user's messages to one device, newest first, up to the limit. */
  lemma DeviceMessagesShown(d: StateData, owner: string, deviceId: string, limit: int) returns (at: seq<nat>)
    ensures forall i: nat :: i in at <==>
              i < |d.messages| && d.messages[i].ownerId == owner && d.messages[i].deviceId == deviceId
    ensures Newest(d.messages, at, limit, Limit(limit, Reverse(Filter(Inbox.Between(owner, deviceId), d.messages))))
  {
    at := QueryPicks(Inbox.Between(owner, deviceId), d.messages, limit);
  }

  /** What a device fetches: the messages to it that are not acknowledged, oldest first, up to
      the limit. */
  lemma PendingShown(d: StateData, deviceId: string, limit: int) returns (at: seq<nat>)
    ensures forall i: nat :: i in at <==>
              i < |d.messages| && d.messages[i].deviceId == deviceId && d.messages[i].status == Pending
    ensures Oldest(d.messages, at, limit, Limit(limit, Inbox.PendingMessages(d.messages, deviceId)))
  {
    at := QueryPicks(Inbox.PendingFor(deviceId), d.messages, limit);
  }

  lemma OwnedIsFound(devices: seq<Device>, owner: string, id: string)
    requires Devices.DevicesInv(devices) && owner != ""
    ensures TV.OwnerOf(devices, id) == owner <==> Devices.BoundTo(devices, owner, id)
    ensures id in TV.DeviceIds(devices, owner) <==> Devices.BoundTo(devices, owner, id)
  {
    TV.OwnedIsListed(devices, owner, id);
  }

  /** One device's records of the window, newest first, up to the limit - and none unless the
      user owns the device. */
  lemma DeviceTelemetryShown(devices: seq<Device>, window: seq<Telemetry>, owner: string, deviceId: string, limit: int)
    returns (at: seq<nat>)
    requires Devices.DevicesInv(devices) && owner != ""
    ensures forall i: nat :: i in at <==>
              i < |window| && window[i].deviceId == deviceId && Devices.BoundTo(devices, owner, deviceId)
    ensures Newest(window, at, limit, TV.DeviceView(devices, window, owner, deviceId, limit))
  {
    OwnedIsFound(devices, owner, deviceId);
    at := [];
    if Devices.BoundTo(devices, owner, deviceId) {
      at := QueryPicks(TV.ForDevice(deviceId), window, limit);
    }
  }

  /** A snapshot's records: those of the window from the user's devices, oldest first. */
  lemma SnapshotShown(devices: seq<Device>, window: seq<Telemetry>, owner: string) returns (at: seq<nat>)
    requires Devices.DevicesInv(devices) && owner != "" && |window| <= 500
    ensures forall i: nat :: i in at <==> i < |window| && Devices.BoundTo(devices, owner, window[i].deviceId)
    ensures Oldest(window, at, 0, TV.SnapshotView(devices, window, owner))
  {
    TV.SnapshotIsFilter(devices, window, owner);
    at := QueryPicks(TV.ForDevices(TV.DeviceIds(devices, owner)), window, 0);
    forall i: nat | i < |window|
      ensures window[i].deviceId in TV.DeviceIds(devices, owner)
         <==> Devices.BoundTo(devices, owner, window[i].deviceId)
    {
      OwnedIsFound(devices, owner, window[i].deviceId);
    }
  }

  /** What an acknowledgement reports as missing: the request without the ids it acknowledged,
      in the order asked, repeats included. */
  lemma MissingShown(d: StateData, deviceId: string, ids: seq<int>) returns (at: seq<nat>)
    ensures forall i: nat :: i in at <==>
              i < |ids| && !exists m :: m in d.messages && m.deviceId == deviceId && m.id == ids[i]
    ensures Oldest(ids, at, 0, Inbox.MissingIds(d.messages, deviceId, ids))
  {
    var acked := Inbox.AckedIds(d.messages, deviceId, ids);
    at := QueryPicks(Inbox.NotIn(acked), ids, 0);
    FilterContents(Inbox.Requested(deviceId, ids), d.messages);
    Inbox.IdsContents(Filter(Inbox.Requested(deviceId, ids), d.messages));
  }
}
