/** When stored messages belong to the current owner of their device. A message stays when its
    device is deleted, and sending does not look at the owner again, so both can leave a
    message without its owner's device - and nothing else can. */
module Ownership {
  import opened Seqs
  import opened Domain
  import opened State
  import opened Durability
  import opened Guarantees
  import Devices
  import Inbox

  /** This user exists and has the device bound. */
  predicate HasDevice(d: StateData, owner: string, deviceId: string) {
    owner != "" && Owns(d, owner, deviceId)
  }

  /** The sender of every stored message has its device bound. */
  ghost predicate AllOwned(d: StateData) {
    forall i :: 0 <= i < |d.messages| ==> HasDevice(d, d.messages[i].ownerId, d.messages[i].deviceId)
  }

  /** Some stored message is from this user to this device. */
  ghost predicate Stored(messages: seq<Message>, owner: string, deviceId: string) {
    exists i :: 0 <= i < |messages| && messages[i].ownerId == owner && messages[i].deviceId == deviceId
  }

  /** The two ways to leave a message without its owner's device: appending it when the device
      has gone since the check, and deleting a device that has messages from its owner. */
  ghost predicate Orphans(d: StateData, op: Op) {
    match op
    case AddDeviceMessage(owner, deviceId, _, _, _, _) => !HasDevice(d, owner, deviceId)
    case DeleteDevice(owner, deviceId) =>
      && Apply(d, op).reply.DeviceDeleted?
      && Stored(d.messages, owner, deviceId)
    case _ => false
  }

  lemma OwnsByPosition(d: StateData, owner: string, deviceId: string)
    ensures Owns(d, owner, deviceId)
       <==> exists i :: 0 <= i < |d.devices| && Devices.OwnedAs(owner, deviceId)(d.devices[i])
  {
  }

  /** Any operation keeps a user's device, except the user deleting it. */
  lemma OwnershipStep(d: StateData, op: Op, owner: string, deviceId: string)
    requires Inv(d) && OpOk(d, op) && HasDevice(d, owner, deviceId)
    ensures HasDevice(Apply(d, op).data, owner, deviceId)
       <==> !(op.DeleteDevice? && op.owner == owner && op.deviceId == deviceId)
  {
    if op.DeleteDevice? {
      OwnershipAfterDelete(d, op.owner, op.deviceId, owner, deviceId);
    } else {
      var after := Apply(d, op).data;
      var k := FirstIndex(Devices.OwnedAs(owner, deviceId), d.devices);
      assert after.devices[k].id == deviceId && after.devices[k].ownerId == owner;
      OwnsByPosition(after, owner, deviceId);
    }
  }

  lemma OwnershipAfterDelete(d: StateData, user: string, id: string, owner: string, deviceId: string)
    requires Inv(d) && HasDevice(d, owner, deviceId)
    ensures HasDevice(Apply(d, DeleteDevice(user, id)).data, owner, deviceId)
       <==> !(user == owner && id == deviceId)
  {
    var after := Apply(d, DeleteDevice(user, id)).data;
    var i := FirstIndex(Devices.OwnedAs(user, id), d.devices);
    var k := FirstIndex(Devices.OwnedAs(owner, deviceId), d.devices);
    OwnsByPosition(after, owner, deviceId);
    Devices.DeleteKeepsTable(d.devices, user, id);
    if 0 <= i {
      DeletedOthersStay(d.devices, i, k);
      assert forall j :: 0 <= j < |after.devices| ==> after.devices[j] in after.devices;
    }
  }

  lemma DeletedOthersStay(devices: seq<Device>, i: nat, k: nat)
    requires i < |devices| && k < |devices|
    ensures i != k ==> devices[k] in RemoveAt(devices, i)
  {
    if i != k {
      assert RemoveAt(devices, i)[if k < i then k else k - 1] == devices[k];
    }
  }

  /** The senders and devices of the stored messages after an operation. */
  lemma SendersStep(d: StateData, op: Op)
    ensures var after := Apply(d, op).data.messages;
      && (!op.AddDeviceMessage? ==>
            |after| == |d.messages|
            && forall i :: 0 <= i < |after| ==>
                 after[i].ownerId == d.messages[i].ownerId && after[i].deviceId == d.messages[i].deviceId)
      && (op.AddDeviceMessage? ==>
            after != []
            && after[|after| - 1].ownerId == op.owner && after[|after| - 1].deviceId == op.deviceId)
  {
  }

  /** From a state in which every message's sender has its device, an operation leads to one
      exactly if it is neither of the two that orphan. */
  lemma AllOwnedStep(d: StateData, op: Op)
    requires Inv(d) && OpOk(d, op) && AllOwned(d)
    ensures AllOwned(Apply(d, op).data) <==> !Orphans(d, op)
  {
    hide Apply, Inv, OpOk, HasDevice;
    var after := Apply(d, op).data;
    SendersStep(d, op);
    AddKeepsDevices(d, op);
    if !Orphans(d, op) {
      forall k | 0 <= k < |after.messages|
        ensures HasDevice(after, after.messages[k].ownerId, after.messages[k].deviceId)
      {
        MessageStep(d, op, k);
        SenderStays(d, op, after.messages[k].ownerId, after.messages[k].deviceId);
      }
    } else if op.DeleteDevice? {
      var i :| 0 <= i < |d.messages| && d.messages[i].ownerId == op.owner && d.messages[i].deviceId == op.deviceId;
      OwnershipStep(d, op, op.owner, op.deviceId);
      assert !HasDevice(after, after.messages[i].ownerId, after.messages[i].deviceId);
    } else {
      assert !HasDevice(after, op.owner, op.deviceId);
    }
  }

  lemma AddKeepsDevices(d: StateData, op: Op)
    ensures op.AddDeviceMessage? ==>
      forall owner, deviceId :: HasDevice(Apply(d, op).data, owner, deviceId) <==> HasDevice(d, owner, deviceId)
    ensures op.DeleteDevice? && HasDevice(d, op.owner, op.deviceId) ==> Apply(d, op).reply.DeviceDeleted?
  {
  }

  lemma SenderStays(d: StateData, op: Op, owner: string, deviceId: string)
    requires Inv(d) && OpOk(d, op) && AllOwned(d) && !Orphans(d, op)
    requires Stored(d.messages, owner, deviceId)
          || (op.AddDeviceMessage? && owner == op.owner && deviceId == op.deviceId)
    ensures HasDevice(Apply(d, op).data, owner, deviceId)
  {
    hide Apply, Inv, OpOk, HasDevice;
    AddKeepsDevices(d, op);
    if Stored(d.messages, owner, deviceId) {
      var i :| 0 <= i < |d.messages| && d.messages[i].ownerId == owner && d.messages[i].deviceId == deviceId;
      assert HasDevice(d, d.messages[i].ownerId, d.messages[i].deviceId);
      OwnershipStep(d, op, owner, deviceId);
    }
  }

  // ---- Over runs ----

  /** This event orphans a message. */
  ghost predicate OrphansAt(codec: StateCodec, events: seq<Event>, k: nat)
    requires k < |events|
  {
    events[k].Do? && Run(codec, events, k).mem.Some? && Orphans(Run(codec, events, k).mem.value, events[k].op)
  }

  ghost predicate OwnedIn(mem: Option<StateData>) {
    mem.Some? ==> AllOwned(mem.value)
  }

  lemma OwnedStep(codec: StateCodec, events: seq<Event>, n: nat)
    requires codec.Lawful() && n < |events| && ValidRun(codec, events, n + 1)
    requires OwnedIn(Run(codec, events, n).mem) && OwnedIn(LastSaved(codec, events, n))
    ensures OwnedIn(Run(codec, events, n + 1).mem) <==> !OrphansAt(codec, events, n)
    ensures OwnedIn(Run(codec, events, n + 1).mem) ==> OwnedIn(LastSaved(codec, events, n + 1))
  {
    hide Apply, Inv, OpOk, Load, FileHolds, AllOwned, Orphans;
    var c := Run(codec, events, n);
    FileIsLastSaved(codec, events, n);
    match events[n]
    case Do(op, saved) => AllOwnedStep(c.mem.value, op);
    case Open(readable, now) =>
      LoadGivesSaved(codec, c.file, LastSaved(codec, events, n), readable, now);
      FreshOwned(now);
    case _ =>
  }

  lemma FreshOwned(now: Time)
    ensures AllOwned(Fresh(now))
  {
  }

  lemma {:induction false} OwnedWhileNoneOrphaned(codec: StateCodec, events: seq<Event>, n: nat)
    requires codec.Lawful() && n <= |events| && ValidRun(codec, events, n)
    requires forall k :: 0 <= k < n ==> !OrphansAt(codec, events, k)
    ensures OwnedIn(Run(codec, events, n).mem) && OwnedIn(LastSaved(codec, events, n))
  {
    if n == 0 {
    } else {
      hide *;
      ValidRunEarlier(codec, events, n - 1, n);
      OwnedWhileNoneOrphaned(codec, events, n - 1);
      OwnedStep(codec, events, n - 1);
    }
  }

  /** Through failed saves, crashes and reopenings, every stored message belongs to the
      current owner of its device at every moment so far, exactly if no event so far was a
      deletion of a device with messages from its owner or an append whose sender had lost
      the device since the check. */
  lemma MessagesOwnedExactly(codec: StateCodec, events: seq<Event>, n: nat)
    requires codec.Lawful() && n <= |events| && ValidRun(codec, events, n)
    ensures (forall j :: 0 <= j <= n ==> OwnedIn(Run(codec, events, j).mem))
       <==> (forall k :: 0 <= k < n ==> !OrphansAt(codec, events, k))
  {
    hide Run, OrphansAt, OwnedIn, LastSaved, Apply;
    if forall k :: 0 <= k < n ==> !OrphansAt(codec, events, k) {
      forall j | 0 <= j <= n
        ensures OwnedIn(Run(codec, events, j).mem)
      {
        ValidRunEarlier(codec, events, j, n);
        OwnedWhileNoneOrphaned(codec, events, j);
      }
    } else {
      FirstOrphan(codec, events, n);
    }
  }

  lemma {:induction false} FirstOrphan(codec: StateCodec, events: seq<Event>, n: nat)
    requires codec.Lawful() && n <= |events| && ValidRun(codec, events, n)
    requires exists k :: 0 <= k < n && OrphansAt(codec, events, k)
    ensures exists j :: 0 <= j <= n && !OwnedIn(Run(codec, events, j).mem)
  {
    hide Run, OrphansAt, OwnedIn, LastSaved, Apply;
    ValidRunEarlier(codec, events, n - 1, n);
    if exists k :: 0 <= k < n - 1 && OrphansAt(codec, events, k) {
      FirstOrphan(codec, events, n - 1);
    } else {
      OwnedWhileNoneOrphaned(codec, events, n - 1);
      OwnedStep(codec, events, n - 1);
    }
  }

  /** What an orphaning deletion leads to: after another user binds the device again, it is
      still handed everything that was pending, the former owner's messages included. */
  lemma PendingOutlivesOwner(d: StateData, m: Message, newOwner: string, secretHash: string, code: string,
                             name: string, now: Time)
    requires Inv(d) && m in Inbox.PendingMessages(d.messages, m.deviceId)
    requires newOwner != "" && newOwner != m.ownerId
    requires Owns(d, m.ownerId, m.deviceId)
    requires Devices.FreeCode(d.devices, code)
    ensures var d1 := Apply(d, DeleteDevice(m.ownerId, m.deviceId)).data;
      var d2 := Apply(d1, HelloDevice(m.deviceId, secretHash, code, now)).data;
      var d3 := Apply(d2, BindDevice(newOwner, code, name, now)).data;
      && Owns(d3, newOwner, m.deviceId)
      && Inbox.PendingMessages(d3.messages, m.deviceId) == Inbox.PendingMessages(d.messages, m.deviceId)
  {
    hide Devices.Hello, Devices.Bind, Devices.Delete, Devices.DevicesInv, FirstIndex;
    Devices.Rebinding(d.devices, m.ownerId, m.deviceId, newOwner, secretHash, code, name, now);
  }
}
