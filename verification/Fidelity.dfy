/** What callers stored is what is there later, over every run: messages as sent, users as
    created, and the secret a device registered with. */
module Fidelity {
  import opened Seqs
  import opened Domain
  import opened State
  import opened History
  import opened Durability
  import opened Guarantees
  import Devices
  import Effects
  import Inbox

  // ---- The secret of a device ----

  /** Whether a device with this id is known, and with which secret. */
  ghost predicate Registered(devices: seq<Device>, id: string, secret: Option<string>) {
    match secret
    case None => forall i :: 0 <= i < |devices| ==> devices[i].id != id
    case Some(s) => Devices.Carries(devices, id, s) && !Devices.CarriesAnother(devices, id, s)
  }

  /** The first hello of an unknown device registers its secret; deleting the device forgets
      it. */
  function SecretNext(op: Op, reply: Reply, id: string, secret: Option<string>): Option<string> {
    if op.HelloDevice? && op.deviceId == id && secret == None then Some(op.secretHash)
    else if op.DeleteDevice? && op.deviceId == id && reply.DeviceDeleted? then None
    else secret
  }

  /** The secret of a device by the first `p` operations: that of its first hello since it was
      last deleted. */
  function SecretOf(start: Time, log: seq<Op>, id: string, p: nat): Option<string>
    requires p <= |log|
  {
    if p == 0 then None
    else SecretNext(log[p - 1], ReplyAt(start, log, p - 1), id, SecretOf(start, log, id, p - 1))
  }

  lemma RegisteredAfterHello(before: seq<Device>, after: seq<Device>, hello: DeviceHello, k: nat, caller: string,
                             secretHash: string, drawn: string, now: Time, id: string, secret: Option<string>)
    requires Devices.HelloStored(before, after, hello, k, caller, secretHash, drawn, now)
    requires Registered(before, id, secret) && !Devices.CarriesAnother(before, caller, secretHash)
    ensures Registered(after, id, if caller == id && secret == None then Some(secretHash) else secret)
  {
    if secret.Some? {
      var i :| 0 <= i < |before| && before[i].id == id && before[i].secretHash == secret.value;
      assert after[i].id == id && after[i].secretHash == secret.value;
    } else if caller == id {
      assert after[k].id == id && after[k].secretHash == secretHash;
    }
  }

  lemma SameSecrets(before: seq<Device>, after: seq<Device>, id: string, secret: Option<string>)
    requires Registered(before, id, secret)
    requires |after| == |before|
    requires forall i :: 0 <= i < |before| ==>
      after[i].id == before[i].id && after[i].secretHash == before[i].secretHash
    ensures Registered(after, id, secret)
  {
    if secret.Some? {
      var i :| 0 <= i < |before| && before[i].id == id && before[i].secretHash == secret.value;
      assert after[i].id == id && after[i].secretHash == secret.value;
    }
  }

  lemma RegisteredAfterDelete(before: seq<Device>, after: seq<Device>, target: string, id: string,
                              secret: Option<string>)
    requires forall x :: x in after <==> x in before && x.id != target
    requires Registered(before, id, secret)
    ensures Registered(after, id, if target == id then None else secret)
  {
    assert forall i :: 0 <= i < |after| ==> after[i] in after;
    if target != id && secret.Some? {
      var i :| 0 <= i < |before| && before[i].id == id && before[i].secretHash == secret.value;
      assert before[i] in after;
      var j :| 0 <= j < |after| && after[j] == before[i];
    }
  }

  lemma RegisteredStep(d: StateData, op: Op, id: string, secret: Option<string>)
    requires Inv(d) && OpOk(d, op) && Registered(d.devices, id, secret)
    ensures Registered(Apply(d, op).data.devices, id, SecretNext(op, Apply(d, op).reply, id, secret))
  {
    Effects.TouchesOnly(d, op);
    hide Apply, Inv, OpOk, Registered, Devices.CarriesAnother, Devices.CodeLive, Devices.HelloStored;
    var before, after := d.devices, Apply(d, op).data.devices;
    match op
    case HelloDevice(caller, secretHash, drawn, now) =>
      var k := Effects.HelloWrites(d, caller, secretHash, drawn, now);
      if Apply(d, op).saves {
        var hello := Apply(d, op).reply.hello;
        RegisteredAfterHello(before, after, hello, k, caller, secretHash, drawn, now, id, secret);
      } else {
        RefusedIsRegistered(before, caller, secretHash, id, secret);
      }
    case BindDevice(_, _, _, _) =>
      KeepsSecrets(d, op);
      SameSecrets(before, after, id, secret);
    case UpdateDevice(_, _, _) =>
      KeepsSecrets(d, op);
      SameSecrets(before, after, id, secret);
    case DeleteDevice(owner, target) =>
      Effects.DeleteDeviceWrites(d, owner, target);
      if Apply(d, op).saves {
        RegisteredAfterDelete(before, after, target, id, secret);
      }
    case _ =>
  }

  lemma RefusedIsRegistered(devices: seq<Device>, caller: string, secretHash: string, id: string,
                            secret: Option<string>)
    requires Devices.CarriesAnother(devices, caller, secretHash) && Registered(devices, id, secret)
    ensures caller == id ==> secret.Some?
  {
  }

  lemma KeepsSecrets(d: StateData, op: Op)
    requires Inv(d) && OpOk(d, op) && (op.BindDevice? || op.UpdateDevice?)
    ensures var after := Apply(d, op).data.devices;
      |after| == |d.devices|
      && forall i :: 0 <= i < |after| ==>
           after[i].id == d.devices[i].id && after[i].secretHash == d.devices[i].secretHash
  {
    Effects.TouchesOnly(d, op);
    if op.BindDevice? {
      var i := Effects.BindWrites(d, op.owner, op.code, op.name, op.now);
    } else {
      var i := Effects.RenameWrites(d, op.owner, op.deviceId, op.name);
    }
    hide Apply, Inv, Devices.CodeLive;
  }

  lemma {:induction false} RegisteredInLog(start: Time, log: seq<Op>, id: string, p: nat)
    requires p <= |log| && ValidLog(start, log, p)
    ensures Registered(StateAt(start, log, p).devices, id, SecretOf(start, log, id, p))
  {
    hide Apply, Inv, OpOk;
    if p != 0 {
      hide Registered;
      InvAt(start, log, p - 1);
      RegisteredInLog(start, log, id, p - 1);
      RegisteredStep(StateAt(start, log, p - 1), log[p - 1], id, SecretOf(start, log, id, p - 1));
    }
  }

  lemma RefusedByRegistered(d: StateData, id: string, secret: Option<string>, tried: string, drawn: string, now: Time)
    requires Inv(d) && OpOk(d, HelloDevice(id, tried, drawn, now)) && Registered(d.devices, id, secret)
    ensures Apply(d, HelloDevice(id, tried, drawn, now)).reply == SecretRefused
       <==> secret.Some? && secret.value != tried
  {
    var k := Effects.HelloWrites(d, id, tried, drawn, now);
    hide Apply, Inv, OpOk;
  }

  /** At any moment of any run, a hello is refused exactly if the device is known - by a hello
      that has happened since it was last deleted, and that no crash undid - and the first such
      hello gave another secret. */
  lemma HelloRefusedExactly(codec: StateCodec, events: seq<Event>, n: nat, id: string, tried: string, drawn: string,
                            now: Time)
    requires codec.Lawful() && n <= |events| && ValidRun(codec, events, n)
    requires Run(codec, events, n).mem.Some?
    requires OpOk(Run(codec, events, n).mem.value, HelloDevice(id, tried, drawn, now))
    ensures var s := StoryOf(codec, events, n);
      var secret := SecretOf(s.start, s.log, id, |s.log|);
      secret.Some? && secret.value != tried <==>
        Apply(Run(codec, events, n).mem.value, HelloDevice(id, tried, drawn, now)).reply == SecretRefused
  {
    DurableLinearization(codec, events, n);
    hide Apply, Inv, OpOk, Run, StoryOf, OpsMatch, AcksMatch, LossesMatch, Registered, SecretOf;
    var s := StoryOf(codec, events, n);
    InvAt(s.start, s.log, |s.log|);
    RegisteredInLog(s.start, s.log, id, |s.log|);
    RefusedByRegistered(Replay(s.start, s.log), id, SecretOf(s.start, s.log, id, |s.log|), tried, drawn, now);
  }

  /** This event deletes the device. */
  predicate DeletesAt(codec: StateCodec, events: seq<Event>, k: nat, id: string)
    requires k < |events|
  {
    && events[k].Do? && events[k].op.DeleteDevice? && events[k].op.deviceId == id
    && Run(codec, events, k).mem.Some?
    && Apply(Run(codec, events, k).mem.value, events[k].op).reply.DeviceDeleted?
  }

  /** The secret is registered in memory, if the process is up, and in the saved state. */
  ghost predicate SecretHeld(codec: StateCodec, events: seq<Event>, n: nat, id: string, secret: string)
    requires n <= |events|
  {
    var mem, saved := Run(codec, events, n).mem, LastSaved(codec, events, n);
    && (mem.Some? ==> Registered(mem.value.devices, id, Some(secret)))
    && saved.Some? && Registered(saved.value.devices, id, Some(secret))
  }

  lemma SecretHeldStep(codec: StateCodec, events: seq<Event>, n: nat, id: string, secret: string)
    requires codec.Lawful() && n < |events| && ValidRun(codec, events, n + 1)
    requires SecretHeld(codec, events, n, id, secret) && !DeletesAt(codec, events, n, id)
    ensures SecretHeld(codec, events, n + 1, id, secret)
  {
    hide Apply, Inv, Load, FileHolds, OpOk, Registered;
    FileIsLastSaved(codec, events, n);
    var c := Run(codec, events, n);
    match events[n]
    case Do(op, saved) => RegisteredStep(c.mem.value, op, id, Some(secret));
    case Open(readable, now) => LoadGivesSaved(codec, c.file, LastSaved(codec, events, n), readable, now);
    case _ =>
  }

  lemma {:induction false} SecretStaysHeld(codec: StateCodec, events: seq<Event>, m: nat, n: nat, id: string,
                                           secret: string)
    requires codec.Lawful() && m <= n <= |events| && ValidRun(codec, events, n)
    requires SecretHeld(codec, events, m, id, secret)
    requires forall k :: m <= k < n ==> !DeletesAt(codec, events, k, id)
    ensures SecretHeld(codec, events, n, id, secret)
    decreases n
  {
    hide *;
    if m < n {
      ValidRunEarlier(codec, events, n - 1, n);
      SecretStaysHeld(codec, events, m, n - 1, id, secret);
      SecretHeldStep(codec, events, n - 1, id, secret);
    }
  }

  lemma GreetedIsRegistered(d: StateData, op: Op)
    requires Inv(d) && OpOk(d, op) && op.HelloDevice? && Apply(d, op).saves
    ensures Registered(Apply(d, op).data.devices, op.deviceId, Some(op.secretHash))
  {
    var after := Apply(d, op).data;
    var k := Effects.HelloWrites(d, op.deviceId, op.secretHash, op.drawn, op.now);
    ApplyKeepsInv(d, op);
    InvDevices(after);
    hide Apply, Inv, OpOk;
    assert after.devices[k].id == op.deviceId && after.devices[k].secretHash == op.secretHash;
    Devices.OneWithId(after.devices, k);
  }

  lemma InvDevices(d: StateData)
    requires Inv(d)
    ensures Devices.DevicesInv(d.devices)
  {
  }

  lemma AckedHelloHoldsSecret(codec: StateCodec, events: seq<Event>, e: nat)
    requires codec.Lawful() && e < |events| && ValidRun(codec, events, e + 1)
    requires AckedEvent(codec, events, e) && events[e].op.HelloDevice?
    ensures SecretHeld(codec, events, e + 1, events[e].op.deviceId, events[e].op.secretHash)
  {
    hide Apply, Inv, OpOk, Registered;
    FileIsLastSaved(codec, events, e);
    GreetedIsRegistered(Run(codec, events, e).mem.value, events[e].op);
  }

  /** The secret of an acknowledged hello keeps working, and no other does, until the device is
      deleted - through failed saves, crashes and reopenings. */
  lemma SecretKeepsWorking(codec: StateCodec, events: seq<Event>, n: nat, k: nat, tried: string, drawn: string,
                           now: Time)
    requires codec.Lawful() && n <= |events| && ValidRun(codec, events, n)
    requires k < |Acks(codec, events, n)| && Acks(codec, events, n)[k].op.HelloDevice?
    requires forall e :: Acks(codec, events, n)[k].event < e < n ==>
      !DeletesAt(codec, events, e, Acks(codec, events, n)[k].op.deviceId)
    requires Run(codec, events, n).mem.Some?
    requires OpOk(Run(codec, events, n).mem.value,
                  HelloDevice(Acks(codec, events, n)[k].op.deviceId, tried, drawn, now))
    ensures var op := Acks(codec, events, n)[k].op;
      tried != op.secretHash <==>
        Apply(Run(codec, events, n).mem.value, HelloDevice(op.deviceId, tried, drawn, now)).reply == SecretRefused
  {
    hide *;
    AckIsEvent(codec, events, n, k);
    var a := Acks(codec, events, n)[k];
    ValidRunEarlier(codec, events, a.event + 1, n);
    AckedHelloHoldsSecret(codec, events, a.event);
    SecretStaysHeld(codec, events, a.event + 1, n, a.op.deviceId, a.op.secretHash);
    HeldSecretWorks(codec, events, n, a.op.deviceId, a.op.secretHash, tried, drawn, now);
  }

  lemma HeldSecretWorks(codec: StateCodec, events: seq<Event>, n: nat, id: string, secret: string, tried: string,
                        drawn: string, now: Time)
    requires codec.Lawful() && n <= |events| && ValidRun(codec, events, n)
    requires Run(codec, events, n).mem.Some? && SecretHeld(codec, events, n, id, secret)
    requires OpOk(Run(codec, events, n).mem.value, HelloDevice(id, tried, drawn, now))
    ensures Apply(Run(codec, events, n).mem.value, HelloDevice(id, tried, drawn, now)).reply == SecretRefused
       <==> tried != secret
  {
    hide Apply, Inv, OpOk, FileHolds, Registered, Load;
    FileIsLastSaved(codec, events, n);
    RefusedByRegistered(Run(codec, events, n).mem.value, id, Some(secret), tried, drawn, now);
  }

  // ---- Messages ----

  /** The same message, up to its acknowledgement. */
  predicate SameLetter(a: Message, b: Message) {
    && a.id == b.id && a.ownerId == b.ownerId && a.deviceId == b.deviceId && a.authorId == b.authorId
    && a.body == b.body && a.priority == b.priority && a.createdAt == b.createdAt
  }

  lemma {:induction false} EntryKeepsLetter(log: seq<Op>, p: nat, q: nat, i: nat)
    requires p <= q <= |log| && i < |Sent(log, p)|
    ensures i < |Sent(log, q)| && SameLetter(Sent(log, p)[i], Sent(log, q)[i])
    decreases q
  {
    if p < q {
      EntryKeepsLetter(log, p, q - 1, i);
      if log[q - 1].AckDeviceMessages? {
        Inbox.AckMarks(Sent(log, q - 1), log[q - 1].deviceId, log[q - 1].ids, log[q - 1].now);
      }
    }
  }

  lemma EntryOfStored(d: StateData, sent: seq<Message>, m: Message)
    requires WindowOn(d, sent) && m in d.messages
    ensures 1 <= m.id <= |sent| && sent[m.id - 1] == m
  {
    var k :| 0 <= k < |d.messages| && d.messages[k] == m;
    assert sent[|sent| - |d.messages| + k] == m;
  }

  /** Any stored message with the id of an earlier one is that one. */
  lemma StoredLetter(start: Time, log: seq<Op>, p: nat, m: Message, x: Message)
    requires p < |log| && ValidLog(start, log, p) && ReplyAt(start, log, p) == MessageAdded(m)
    requires x in Replay(start, log).messages && x.id == m.id
    ensures SameLetter(m, x)
  {
    hide Apply, Inv, WindowOn, Effects.AsSent, SameLetter, ValidLog;
    InvAt(start, log, p);
    AddedIsStored(StateAt(start, log, p), log[p], m);
    InboxIsWindow(start, log, p + 1);
    EntryOfStored(StateAt(start, log, p + 1), Sent(log, p + 1), m);
    EntryKeepsLetter(log, p + 1, |log|, m.id - 1);
    InboxIsWindow(start, log, |log|);
    EntryOfStored(Replay(start, log), Sent(log, |log|), x);
    hide Sent, StateAt;
  }

  lemma AddedIsStored(d: StateData, op: Op, m: Message)
    requires Inv(d) && Apply(d, op).reply == MessageAdded(m)
    ensures op.AddDeviceMessage? && m in Apply(d, op).data.messages
    ensures op.AddDeviceMessage? ==>
      Effects.AsSent(m, op.owner, op.deviceId, op.author, op.body, op.priority, op.now)
  {
    if op.AddDeviceMessage? {
      Effects.AddMessageWrites(d, op.owner, op.deviceId, op.author, op.body, op.priority, op.now);
    }
  }

  /** A message whose sending was acknowledged carries the body, author and priority it was
      sent with. It is fetched so, exactly until it is acknowledged or a hundred later messages
      exist; and whatever is ever stored under its id afterwards is this message, changed at
      most by an acknowledgement. */
  lemma SentArrivesAsSent(codec: StateCodec, events: seq<Event>, n: nat, k: nat)
    requires codec.Lawful() && n <= |events| && ValidRun(codec, events, n)
    requires k < |Acks(codec, events, n)| && Acks(codec, events, n)[k].op.AddDeviceMessage?
    requires Run(codec, events, n).mem.Some?
    ensures var a, d := Acks(codec, events, n)[k], Run(codec, events, n).mem.value;
      && a.reply.MessageAdded?
      && var m := a.reply.message;
      && Effects.AsSent(m, a.op.owner, a.op.deviceId, a.op.author, a.op.body, a.op.priority, a.op.now)
      && (d.nextMessageId - m.id <= 100 && !AckedSince(codec, events, a.event, n, m) <==>
            m in Inbox.PendingMessages(d.messages, a.op.deviceId))
      && (forall x :: x in d.messages && x.id == m.id ==> SameLetter(m, x))
  {
    DurableLinearization(codec, events, n);
    var s := StoryOf(codec, events, n);
    var p := s.at[k];
    assert Acks(codec, events, n)[k] == AckAt(s, p);
    hide Apply, Run, StoryOf, Acks, ValidLog, ValidRun, Inv, LossesMatch, AckedSince, OpsMatch;
    hide Effects.AsSent, SameLetter;
    ValidEarlier(s.start, s.log, p, |s.log|);
    InvAt(s.start, s.log, p);
    AddingReplies(StateAt(s.start, s.log, p), s.log[p]);
    var m := ReplyAt(s.start, s.log, p).message;
    AddedIsStored(StateAt(s.start, s.log, p), s.log[p], m);
    SentStaysFetchable(codec, events, n, k, m);
    forall x | x in Run(codec, events, n).mem.value.messages && x.id == m.id
      ensures SameLetter(m, x)
    {
      StoredLetter(s.start, s.log, p, m, x);
    }
  }

  lemma AddingReplies(d: StateData, op: Op)
    requires Inv(d) && op.AddDeviceMessage?
    ensures Apply(d, op).reply.MessageAdded? && Apply(d, op).reply.message.deviceId == op.deviceId
  {
  }

  // ---- Users ----

  lemma UsersOnlyAppended(d: StateData, op: Op)
    ensures d.users <= Apply(d, op).data.users
    ensures op.CreateUser? ==>
      Apply(d, op).data.users
        == d.users + [User(op.id, if op.name == "" then "user" else op.name, op.email, op.tokenHash, op.now)]
  {
    Effects.TouchesOnly(d, op);
    if op.CreateUser? {
      Effects.CreateUserWrites(d, op.id, op.name, op.email, op.tokenHash, op.now);
    }
  }

  lemma {:induction false} UsersGrow(start: Time, log: seq<Op>, p: nat, q: nat)
    requires p <= q <= |log|
    ensures StateAt(start, log, p).users <= StateAt(start, log, q).users
    decreases q
  {
    hide Apply;
    if p < q {
      UsersGrow(start, log, p, q - 1);
      UsersOnlyAppended(StateAt(start, log, q - 1), log[q - 1]);
    }
  }

  /** A user whose creation was acknowledged stays, exactly as created. */
  lemma CreatedUserStays(codec: StateCodec, events: seq<Event>, n: nat, k: nat)
    requires codec.Lawful() && n <= |events| && ValidRun(codec, events, n)
    requires k < |Acks(codec, events, n)| && Acks(codec, events, n)[k].op.CreateUser?
    requires Run(codec, events, n).mem.Some?
    ensures var op := Acks(codec, events, n)[k].op;
      User(op.id, if op.name == "" then "user" else op.name, op.email, op.tokenHash, op.now)
        in Run(codec, events, n).mem.value.users
  {
    DurableLinearization(codec, events, n);
    var s := StoryOf(codec, events, n);
    var p := s.at[k];
    assert Acks(codec, events, n)[k] == AckAt(s, p);
    hide Apply, Run, StoryOf, Acks, ValidLog, ValidRun, Inv, LossesMatch, OpsMatch;
    UsersOnlyAppended(StateAt(s.start, s.log, p), s.log[p]);
    UsersGrow(s.start, s.log, p + 1, |s.log|);
    var op, after := s.log[p], StateAt(s.start, s.log, p + 1).users;
    assert after[|after| - 1]
        == User(op.id, if op.name == "" then "user" else op.name, op.email, op.tokenHash, op.now);
  }
}
