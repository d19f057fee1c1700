/** What holds over every run of the store, through failed saves, crashes and reopenings. */
module Guarantees {
  import opened Seqs
  import opened Domain
  import opened State
  import opened History
  import opened Durability
  import Devices
  import Inbox
  import Todos

  // ---- Every reachable memory ----

  /** Memory is always the end of a crash-free story, so every store invariant holds of it,
      normalizing would change nothing, its to-dos are folds of the surviving updates and its
      inbox is a window on all surviving messages. */
  lemma ReachableMemory(codec: StateCodec, events: seq<Event>, n: nat)
    requires codec.Lawful() && n <= |events| && ValidRun(codec, events, n)
    requires Run(codec, events, n).mem.Some?
    ensures var d, s := Run(codec, events, n).mem.value, StoryOf(codec, events, n);
      && d == Replay(s.start, s.log)
      && Inv(d)
      && (forall now :: Normalize(d, now) == d)
      && WindowOn(d, Sent(s.log, |s.log|))
      && (forall t :: t in d.todos ==>
            && IsFold(s.start, s.log, t, |s.log|)
            && SaysLatest(s.start, s.log, t, |s.log|)
            && t.version == 1 + |Patches(s.start, s.log, t.id, |s.log|)|)
  {
    DurableLinearization(codec, events, n);
    hide Apply, Normalize, Inv, Run, Acks, WindowOn, IsFold, SaysLatest, OpOk;
    hide StoryOf, OpsMatch, AcksMatch, LossesMatch;
    var d, s := Run(codec, events, n).mem.value, StoryOf(codec, events, n);
    InvAt(s.start, s.log, |s.log|);
    InboxIsWindow(s.start, s.log, |s.log|);
    forall now
      ensures Normalize(d, now) == d
    {
      NormalizeChangesNothing(d, now);
    }
    forall t | t in d.todos
      ensures IsFold(s.start, s.log, t, |s.log|) && SaysLatest(s.start, s.log, t, |s.log|)
      ensures t.version == 1 + |Patches(s.start, s.log, t.id, |s.log|)|
    {
      TodosAreFolds(s.start, s.log, t, |s.log|);
      VersionCountsUpdates(s.start, s.log, t);
    }
  }

  // ---- Identifiers and versions ----

  /** Acknowledged to-do and message ids strictly increase, so none is ever given out twice,
      although a crash can roll the counters back. */
  lemma AckedIdsIncrease(codec: StateCodec, events: seq<Event>, i: nat, j: nat)
    requires codec.Lawful() && ValidRun(codec, events, |events|)
    requires i < j < |Acks(codec, events, |events|)|
    ensures var a, b := Acks(codec, events, |events|)[i].reply, Acks(codec, events, |events|)[j].reply;
      && (a.TodoAdded? && b.TodoAdded? ==> a.todo.id < b.todo.id)
      && (a.MessageAdded? && b.MessageAdded? ==> a.message.id < b.message.id)
  {
    DurableLinearization(codec, events, |events|);
    hide Apply, Run, Acks, OpOk, StoryOf, OpsMatch, StateMatches, LossesMatch;
    var s := StoryOf(codec, events, |events|);
    AddedIdsGrow(s.start, s.log, s.at[i], s.at[j]);
  }

  /** At most one acknowledged update or deletion ever succeeds for a to-do and a version. */
  lemma AckedSwapIsUnique(codec: StateCodec, events: seq<Event>, i: nat, j: nat, id: int, version: int)
    requires codec.Lawful() && ValidRun(codec, events, |events|)
    requires i < j < |Acks(codec, events, |events|)|
    ensures var a, b := Acks(codec, events, |events|)[i], Acks(codec, events, |events|)[j];
      !(Swaps(a.op, a.reply, id, version) && Swaps(b.op, b.reply, id, version))
  {
    DurableLinearization(codec, events, |events|);
    hide Apply, Run, Acks, OpOk, StoryOf, OpsMatch, ValidLog, ValidRun, LossesMatch;
    var s := StoryOf(codec, events, |events|);
    ValidEarlier(s.start, s.log, s.at[j], |s.log|);
    var a, b := Acks(codec, events, |events|)[i], Acks(codec, events, |events|)[j];
    assert a == AckAt(s, s.at[i]) && b == AckAt(s, s.at[j]);
    if Swaps(a.op, a.reply, id, version) {
      SwappedOnce(s.start, s.log, s.at[i], s.at[j], id, version);
    }
  }

  // ---- Crash and reopen ----

  /** The memory right after the last save that succeeded. */
  function LastSaved(codec: StateCodec, events: seq<Event>, n: nat): Option<StateData>
    requires n <= |events|
  {
    if n == 0 then None
    else
      var c := Run(codec, events, n - 1);
      if Acknowledged(c, events[n - 1]) then Some(Apply(c.mem.value, events[n - 1].op).data)
      else LastSaved(codec, events, n - 1)
  }

  ghost predicate FileHolds(codec: StateCodec, file: Option<Bytes>, d: Option<StateData>) {
    match d
    case None => file == None
    case Some(data) => file == Some(codec.encode(data)) && Inv(data)
  }

  lemma {:induction false} FileIsLastSaved(codec: StateCodec, events: seq<Event>, n: nat)
    requires codec.Lawful() && n <= |events| && ValidRun(codec, events, n)
    ensures FileHolds(codec, Run(codec, events, n).file, LastSaved(codec, events, n))
    ensures Run(codec, events, n).mem.Some? ==> Inv(Run(codec, events, n).mem.value)
  {
    hide Apply, Inv, OpOk, Load;
    if n == 0 {
    } else {
      FileIsLastSaved(codec, events, n - 1);
      var c := Run(codec, events, n - 1);
      match events[n - 1]
      case Do(op, saved) => ApplyKeepsInv(c.mem.value, op);
      case Open(readable, now) => LoadGivesSaved(codec, c.file, LastSaved(codec, events, n - 1), readable, now);
      case _ =>
    }
  }

  lemma LoadGivesSaved(codec: StateCodec, file: Option<Bytes>, saved: Option<StateData>, readable: bool, now: Time)
    requires codec.Lawful() && FileHolds(codec, file, saved)
    ensures var r := Load(codec, file, readable, now);
      && (readable ==> r == Ok(if saved.Some? then saved.value else Fresh(now)))
      && (r.Ok? ==> Inv(r.value))
      && (r.Ok? ==> r == Ok(if saved.Some? then saved.value else Fresh(now)))
  {
    FreshInv(now);
    if saved.Some? {
      LoadAfterSave(codec, saved.value, now);
    }
  }

  /** Opening a readable file never fails: it brings back exactly the memory of the last
      successful save, or a fresh state when nothing was saved. */
  lemma ReopenRestores(codec: StateCodec, events: seq<Event>, now: Time)
    requires codec.Lawful() && ValidRun(codec, events, |events|)
    requires Run(codec, events, |events|).mem == None
    ensures var saved := LastSaved(codec, events, |events|);
      Next(codec, Run(codec, events, |events|), Open(true, now)).mem
        == Some(if saved.Some? then saved.value else Fresh(now))
  {
    hide Apply, Inv, Load, FileHolds;
    FileIsLastSaved(codec, events, |events|);
    LoadGivesSaved(codec, Run(codec, events, |events|).file, LastSaved(codec, events, |events|), true, now);
  }

  /** Whether memory was changed by an operation whose save failed and no later save has
      covered the change. */
  predicate HasUnsaved(codec: StateCodec, events: seq<Event>, n: nat)
    requires n <= |events|
  {
    if n == 0 then false
    else
      var c := Run(codec, events, n - 1);
      match events[n - 1]
      case Do(op, saved) =>
        if c.mem.Some? && Apply(c.mem.value, op).saves
        then !saved && (Apply(c.mem.value, op).data != c.mem.value || HasUnsaved(codec, events, n - 1))
        else HasUnsaved(codec, events, n - 1)
      case Authorize(_, _) => HasUnsaved(codec, events, n - 1)
      case Crash => false
      case Open(_, _) => false
  }

  lemma SaysNothingKeepsState(d: StateData, op: Op)
    ensures !Apply(d, op).saves ==> Apply(d, op).data == d
  {
  }

  /** Memory is what a crash would bring back. */
  ghost predicate MemoryIsSaved(codec: StateCodec, events: seq<Event>, n: nat)
    requires n <= |events| && Run(codec, events, n).mem.Some?
  {
    var d, saved := Run(codec, events, n).mem.value, LastSaved(codec, events, n);
    d == if saved.Some? then saved.value else Fresh(d.weather.updatedAt)
  }

  /** It is while every change to memory has been covered by a save. */
  lemma {:induction false} SavedMemorySurvives(codec: StateCodec, events: seq<Event>, n: nat)
    requires codec.Lawful() && n <= |events| && ValidRun(codec, events, n)
    requires Run(codec, events, n).mem.Some? && !HasUnsaved(codec, events, n)
    ensures MemoryIsSaved(codec, events, n)
  {
    hide *;
    if n == 0 {
      ProcessNotStarted(codec, events);
    } else {
      ValidRunEarlier(codec, events, n - 1, n);
      if Run(codec, events, n - 1).mem.Some? && !HasUnsaved(codec, events, n - 1) {
        SavedMemorySurvives(codec, events, n - 1);
      }
      SavedStep(codec, events, n - 1);
    }
  }

  lemma ProcessNotStarted(codec: StateCodec, events: seq<Event>)
    ensures Run(codec, events, 0).mem == None
  {
  }

  lemma SavedStep(codec: StateCodec, events: seq<Event>, n: nat)
    requires codec.Lawful() && n < |events| && ValidRun(codec, events, n + 1)
    requires Run(codec, events, n).mem.Some? && !HasUnsaved(codec, events, n) ==> MemoryIsSaved(codec, events, n)
    requires Run(codec, events, n + 1).mem.Some? && !HasUnsaved(codec, events, n + 1)
    ensures MemoryIsSaved(codec, events, n + 1)
  {
    hide Apply, Inv, Load, FileHolds, OpOk, MemoryIsSaved, LastSaved;
    match events[n]
    case Do(op, saved) =>
      SaysNothingKeepsState(Run(codec, events, n).mem.value, op);
      SavedAfterDo(codec, events, n);
    case Authorize(_, _) => SavedAfterOther(codec, events, n);
    case Open(_, _) => SavedAfterOther(codec, events, n);
    case Crash =>
  }

  lemma SavedAfterDo(codec: StateCodec, events: seq<Event>, n: nat)
    requires n < |events| && events[n].Do? && Run(codec, events, n).mem.Some?
    requires var effect := Apply(Run(codec, events, n).mem.value, events[n].op);
      || (effect.saves && events[n].saved)
      || (effect.data == Run(codec, events, n).mem.value && MemoryIsSaved(codec, events, n))
    ensures MemoryIsSaved(codec, events, n + 1)
  {
    hide Apply;
  }

  lemma SavedAfterOther(codec: StateCodec, events: seq<Event>, n: nat)
    requires codec.Lawful() && n < |events| && ValidRun(codec, events, n + 1)
    requires Run(codec, events, n + 1).mem.Some?
    requires events[n].Authorize? ==> Run(codec, events, n).mem.Some? && MemoryIsSaved(codec, events, n)
    requires events[n].Authorize? || events[n].Open?
    ensures MemoryIsSaved(codec, events, n + 1)
  {
    hide Apply, Inv, Load, FileHolds, OpOk;
    FileIsLastSaved(codec, events, n);
    if events[n].Open? {
      LoadGivesSaved(codec, Run(codec, events, n).file, LastSaved(codec, events, n), events[n].readable, events[n].now);
    }
  }

  // ---- An acknowledged message stays fetchable ----

  predicate AcksIt(e: Event, m: Message) {
    e.Do? && Acknowledges(e.op, m)
  }

  /** Some event after `sent` acknowledged this message and was not undone by a crash. */
  ghost predicate AckedSince(codec: StateCodec, events: seq<Event>, sent: nat, n: nat, m: Message)
    requires n <= |events|
  {
    exists e :: sent < e < n && AcksIt(events[e], m) && !Lost(codec, events, e, n)
  }

  lemma AckedInStory(codec: StateCodec, s: Story, events: seq<Event>, n: nat, p: nat, m: Message)
    requires n <= |events| && OpsMatch(s, events, n) && LossesMatch(codec, s, events, n) && p < |s.log|
    ensures AckedWithin(s.log, p + 1, |s.log|, m) <==> AckedSince(codec, events, s.from[p], n, m)
  {
    hide Lost, Unsaved;
    if AckedWithin(s.log, p + 1, |s.log|, m) {
      var q :| p < q < |s.log| && Acknowledges(s.log[q], m);
      var e := s.from[q];
      assert e in s.from && AcksIt(events[e], m);
    }
    if AckedSince(codec, events, s.from[p], n, m) {
      var e :| s.from[p] < e < n && AcksIt(events[e], m) && !Lost(codec, events, e, n);
      var q :| 0 <= q < |s.from| && s.from[q] == e;
      assert p < q;
      assert Acknowledges(s.log[q], m);
    }
  }

  /** A message whose sending was acknowledged is handed to its device exactly until an
      acknowledgement naming its device and id takes effect, or a hundred later messages
      exist - through any failed saves, crashes and reopenings. */
  lemma SentStaysFetchable(codec: StateCodec, events: seq<Event>, n: nat, k: nat, m: Message)
    requires codec.Lawful() && n <= |events| && ValidRun(codec, events, n)
    requires k < |Acks(codec, events, n)| && Acks(codec, events, n)[k].reply == MessageAdded(m)
    requires Run(codec, events, n).mem.Some?
    ensures var d := Run(codec, events, n).mem.value;
      m in Inbox.PendingMessages(d.messages, m.deviceId)
      <==> d.nextMessageId - m.id <= Inbox.MAX_MESSAGES
           && !AckedSince(codec, events, Acks(codec, events, n)[k].event, n, m)
  {
    DurableLinearization(codec, events, n);
    hide Apply, Run, StoryOf, Acks, ValidLog, ValidRun, Acknowledges, AckedWithin, AcksIt, LossesMatch, AckedSince;
    var s := StoryOf(codec, events, n);
    var p := s.at[k];
    ValidEarlier(s.start, s.log, p, |s.log|);
    assert Acks(codec, events, n)[k] == AckAt(s, p);
    AckedInStory(codec, s, events, n, p, m);
    PendingSinceSent(s.start, s.log, p, m);
  }

  /** A message that an acknowledged report listed as acknowledged is never pending again,
      at any later moment of the run. */
  lemma AckedNeverPending(codec: StateCodec, events: seq<Event>, n: nat, k: nat, id: int)
    requires codec.Lawful() && n <= |events| && ValidRun(codec, events, n)
    requires k < |Acks(codec, events, n)|
    requires Acks(codec, events, n)[k].reply.AckReport? && id in Acks(codec, events, n)[k].reply.acked
    requires Run(codec, events, n).mem.Some?
    ensures forall m :: m in Run(codec, events, n).mem.value.messages && m.id == id ==> m.status == Acked
  {
    DurableLinearization(codec, events, n);
    hide Apply, Run, StoryOf, Acks, ValidLog, ValidRun, LossesMatch;
    var s := StoryOf(codec, events, n);
    assert Acks(codec, events, n)[k] == AckAt(s, s.at[k]);
    ReportedStaysAcked(s.start, s.log, s.at[k], id);
  }

  /** The id of a message that a crash undid is given out again. If the device fetched the
      first message, a late acknowledgement of it takes the second one, which the device has
      never seen, off the pending list. */
  lemma StaleAckHidesMessage(codec: StateCodec, c: Config, owner: string, deviceId: string,
                             body1: string, body2: string, now: Time)
    requires codec.Lawful() && c.mem.Some? && Inv(c.mem.value)
    requires c.file == Some(codec.encode(c.mem.value))
    requires owner != "" && Owns(c.mem.value, owner, deviceId) && (owner, deviceId) in c.permits
    ensures var add1 := AddDeviceMessage(owner, deviceId, owner, body1, Normal, now);
      var add2 := AddDeviceMessage(owner, deviceId, owner, body2, Normal, now);
      var m1, m2 := Apply(c.mem.value, add1).reply.message, Apply(c.mem.value, add2).reply.message;
      var fetched := Next(codec, c, Do(add1, false));
      var reopened := Next(codec, Next(codec, fetched, Crash), Open(true, now));
      var checked := Next(codec, reopened, Authorize(owner, deviceId));
      var sent := Next(codec, checked, Do(add2, true));
      var late := Do(AckDeviceMessages(deviceId, [m1.id], now), true);
      && Enabled(c, Do(add1, false)) && Enabled(reopened, Authorize(owner, deviceId))
      && Enabled(checked, Do(add2, true)) && Acknowledged(checked, Do(add2, true)) && Enabled(sent, late)
      && reopened.mem == c.mem && m2.id == m1.id
      && m1 in Inbox.PendingMessages(fetched.mem.value.messages, deviceId)
      && m2 in Inbox.PendingMessages(sent.mem.value.messages, deviceId)
      && m2 !in Inbox.PendingMessages(Next(codec, sent, late).mem.value.messages, deviceId)
  {
    var d := c.mem.value;
    var add1 := AddDeviceMessage(owner, deviceId, owner, body1, Normal, now);
    var add2 := AddDeviceMessage(owner, deviceId, owner, body2, Normal, now);
    var m1, m2 := Apply(d, add1).reply.message, Apply(d, add2).reply.message;
    SentIsPending(d, add1, m1);
    SentIsPending(d, add2, m2);
    LoadAfterSave(codec, d, now);
    AckedNotPending(Apply(d, add2).data.messages, deviceId, m2, now);
  }

  lemma AckedNotPending(messages: seq<Message>, deviceId: string, m: Message, now: Time)
    requires m.deviceId == deviceId && m.status == Pending
    ensures m !in Inbox.PendingMessages(Inbox.AckAll(messages, deviceId, [m.id], now), deviceId)
  {
    var after := Inbox.AckAll(messages, deviceId, [m.id], now);
    FilterContents(Inbox.PendingFor(deviceId), after);
    forall i | 0 <= i < |after|
      ensures after[i] != m
    {
      assert after[i] == Inbox.Acknowledge(messages[i], deviceId, [m.id], now);
    }
  }

  // ---- A shown code stays usable ----

  ghost predicate CodeLiveIn(d: StateData, id: string, code: string, expires: Time) {
    Devices.CodeLive(d.devices, id, code, expires)
  }

  /** No bind enters this code, and the device itself says no hello after the expiry. */
  predicate Quiet(e: Event, id: string, code: string, expires: Time) {
    e.Do? ==>
      && (e.op.BindDevice? ==> e.op.code != code)
      && (e.op.HelloDevice? && e.op.deviceId == id ==> e.op.now <= expires)
  }

  lemma ApplyKeepsLiveCode(d: StateData, op: Op, saved: bool, id: string, code: string, expires: Time)
    requires Inv(d) && OpOk(d, op)
    requires CodeLiveIn(d, id, code, expires) && Quiet(Do(op, saved), id, code, expires)
    ensures CodeLiveIn(Apply(d, op).data, id, code, expires)
  {
    match op
    case HelloDevice(caller, secretHash, drawn, now) =>
      Devices.HelloKeepsLiveCode(d.devices, caller, secretHash, drawn, now, id, code, expires);
    case BindDevice(owner, entered, name, now) =>
      Devices.BindKeepsLiveCode(d.devices, owner, entered, name, now, id, code, expires);
    case UpdateDevice(owner, target, name) =>
      Devices.ManageKeepsLiveCode(d.devices, owner, target, name, id, code, expires);
    case DeleteDevice(owner, target) =>
      Devices.ManageKeepsLiveCode(d.devices, owner, target, "", id, code, expires);
    case _ =>
  }

  /** The code is live in memory, if the process is up, and in the saved state. */
  ghost predicate CodeHeld(codec: StateCodec, events: seq<Event>, n: nat, id: string, code: string, expires: Time)
    requires n <= |events|
  {
    var mem, saved := Run(codec, events, n).mem, LastSaved(codec, events, n);
    && (mem.Some? ==> CodeLiveIn(mem.value, id, code, expires))
    && saved.Some? && CodeLiveIn(saved.value, id, code, expires)
  }

  lemma CodeHeldStep(codec: StateCodec, events: seq<Event>, n: nat, id: string, code: string, expires: Time)
    requires codec.Lawful() && n < |events| && ValidRun(codec, events, n + 1)
    requires CodeHeld(codec, events, n, id, code, expires)
    requires Quiet(events[n], id, code, expires)
    ensures CodeHeld(codec, events, n + 1, id, code, expires)
  {
    hide Apply, Inv, Load, FileHolds, OpOk, CodeLiveIn, Quiet;
    FileIsLastSaved(codec, events, n);
    var c := Run(codec, events, n);
    match events[n]
    case Do(op, saved) => ApplyKeepsLiveCode(c.mem.value, op, saved, id, code, expires);
    case Open(readable, now) => LoadGivesSaved(codec, c.file, LastSaved(codec, events, n), readable, now);
    case _ =>
  }

  lemma {:induction false} CodeStaysHeld(codec: StateCodec, events: seq<Event>, m: nat, n: nat,
                                         id: string, code: string, expires: Time)
    requires codec.Lawful() && m <= n <= |events| && ValidRun(codec, events, n)
    requires CodeHeld(codec, events, m, id, code, expires)
    requires forall k :: m <= k < n ==> Quiet(events[k], id, code, expires)
    ensures CodeHeld(codec, events, n, id, code, expires)
    decreases n
  {
    hide *;
    if m < n {
      ValidRunEarlier(codec, events, n - 1, n);
      CodeStaysHeld(codec, events, m, n - 1, id, code, expires);
      CodeHeldStep(codec, events, n - 1, id, code, expires);
    }
  }

  /** The expiry the device with this id carries. */
  function ExpiryOf(d: StateData, id: string): Time {
    var i := FirstIndex(Devices.IdIs(id), d.devices);
    if 0 <= i && d.devices[i].bindCodeExpiresAt.Some? then d.devices[i].bindCodeExpiresAt.value else 0
  }

  lemma HelloShowsLiveCode(d: StateData, op: Op)
    requires Inv(d) && OpOk(d, op) && op.HelloDevice?
    requires Apply(d, op).reply.Hello? && !Apply(d, op).reply.hello.bound
    ensures var after, hello := Apply(d, op).data, Apply(d, op).reply.hello;
      && Apply(d, op).saves
      && op.now <= ExpiryOf(after, op.deviceId)
      && CodeLiveIn(after, op.deviceId, hello.bindCode, ExpiryOf(after, op.deviceId))
  {
    Devices.HelloGivesUsableCode(d.devices, op.deviceId, op.secretHash, op.drawn, op.now);
    var after, hello := Apply(d, op).data, Apply(d, op).reply.hello;
    var e :| op.now <= e && Devices.CodeLive(after.devices, op.deviceId, hello.bindCode, e);
    var j :| 0 <= j < |after.devices| && Devices.ShowsCode(after.devices[j], op.deviceId, hello.bindCode, e);
    var i := FirstIndex(Devices.IdIs(op.deviceId), after.devices);
    var distinct := Devices.Distinct(after.devices[i], after.devices[j]);
  }

  /** The bind of a code that is live: exactly that device, and no other is touched. */
  ghost predicate BindsOnly(d: StateData, owner: string, id: string, code: string, name: string, now: Time) {
    var effect := Apply(d, BindDevice(owner, code, name, now));
    && effect.reply.DeviceBound?
    && effect.reply.device.id == id && effect.reply.device.ownerId == owner
    && exists i :: Devices.OneChanged(d.devices, effect.data.devices, i)
                && d.devices[i].id == id && effect.data.devices[i] == effect.reply.device
  }

  lemma LiveCodeBinds(d: StateData, owner: string, id: string, code: string, name: string, now: Time, expires: Time)
    requires Inv(d) && CodeLiveIn(d, id, code, expires)
    requires owner != "" && now <= expires
    ensures BindsOnly(d, owner, id, code, name, now)
  {
    Devices.BindLiveCode(d.devices, owner, id, code, expires, name, now);
  }

  /** The expiry the device carries right after event `e`. */
  function ExpiryAfter(codec: StateCodec, events: seq<Event>, e: nat, id: string): Time {
    if e < |events| && Run(codec, events, e + 1).mem.Some? then ExpiryOf(Run(codec, events, e + 1).mem.value, id) else 0
  }

  lemma {:induction false} AckIsEvent(codec: StateCodec, events: seq<Event>, n: nat, k: nat)
    requires n <= |events| && k < |Acks(codec, events, n)|
    ensures var a := Acks(codec, events, n)[k];
      && a.event < n && AckedEvent(codec, events, a.event)
      && a.op == events[a.event].op && a.reply == Apply(Run(codec, events, a.event).mem.value, a.op).reply
  {
    hide Apply, Run;
    if k < |Acks(codec, events, n - 1)| {
      AckIsEvent(codec, events, n - 1, k);
    }
  }

  /** After an acknowledged hello that showed a code, the code is held until the expiry. */
  lemma AckedHelloHoldsCode(codec: StateCodec, events: seq<Event>, e: nat)
    requires codec.Lawful() && e < |events| && ValidRun(codec, events, e + 1)
    requires AckedEvent(codec, events, e) && events[e].op.HelloDevice?
    requires var r := Apply(Run(codec, events, e).mem.value, events[e].op).reply; r.Hello? && !r.hello.bound
    ensures var id := events[e].op.deviceId;
      var code := Apply(Run(codec, events, e).mem.value, events[e].op).reply.hello.bindCode;
      && events[e].op.now <= ExpiryAfter(codec, events, e, id)
      && CodeHeld(codec, events, e + 1, id, code, ExpiryAfter(codec, events, e, id))
  {
    hide Apply, Inv, Load, FileHolds, OpOk, CodeLiveIn, ExpiryOf;
    FileIsLastSaved(codec, events, e);
    HelloShowsLiveCode(Run(codec, events, e).mem.value, events[e].op);
  }

  /** A code returned by an acknowledged hello binds its device, and only it, until it
      expires or a bind enters it - through any other hellos, binds, renames, deletions,
      failed saves, crashes and reopenings in between. */
  lemma ShownCodeStaysUsable(codec: StateCodec, events: seq<Event>, n: nat, k: nat, owner: string, name: string,
                             now: Time)
    requires codec.Lawful() && n <= |events| && ValidRun(codec, events, n)
    requires k < |Acks(codec, events, n)|
    requires Acks(codec, events, n)[k].reply.Hello? && Acks(codec, events, n)[k].op.HelloDevice?
    requires var a := Acks(codec, events, n)[k];
      var id, code := a.op.deviceId, a.reply.hello.bindCode;
      var expires := ExpiryAfter(codec, events, a.event, id);
      && !a.reply.hello.bound
      && (forall e :: a.event < e < n ==> Quiet(events[e], id, code, expires))
      && now <= expires
    requires Run(codec, events, n).mem.Some? && owner != ""
    ensures var a := Acks(codec, events, n)[k];
      && a.op.now <= ExpiryAfter(codec, events, a.event, a.op.deviceId)
      && BindsOnly(Run(codec, events, n).mem.value, owner, a.op.deviceId, a.reply.hello.bindCode, name, now)
  {
    hide *;
    AckIsEvent(codec, events, n, k);
    var a := Acks(codec, events, n)[k];
    var id, code, expires := a.op.deviceId, a.reply.hello.bindCode, ExpiryAfter(codec, events, a.event, a.op.deviceId);
    ValidRunEarlier(codec, events, a.event + 1, n);
    AckedHelloHoldsCode(codec, events, a.event);
    CodeStaysHeld(codec, events, a.event + 1, n, id, code, expires);
    HeldCodeBinds(codec, events, n, owner, id, code, name, now, expires);
  }

  lemma HeldCodeBinds(codec: StateCodec, events: seq<Event>, n: nat, owner: string, id: string, code: string,
                      name: string, now: Time, expires: Time)
    requires codec.Lawful() && n <= |events| && ValidRun(codec, events, n)
    requires Run(codec, events, n).mem.Some? && owner != "" && now <= expires
    requires CodeHeld(codec, events, n, id, code, expires)
    ensures BindsOnly(Run(codec, events, n).mem.value, owner, id, code, name, now)
  {
    hide Apply, Inv, Load, FileHolds, OpOk, CodeLiveIn, BindsOnly;
    FileIsLastSaved(codec, events, n);
    LiveCodeBinds(Run(codec, events, n).mem.value, owner, id, code, name, now, expires);
  }

  // ---- Where messages come from ----

  /** At some moment up to the `n`-th event, memory held this device bound to this user. */
  ghost predicate OnceBound(codec: StateCodec, events: seq<Event>, n: nat, owner: string, deviceId: string)
    requires n <= |events|
  {
    exists j :: 0 <= j <= n && BoundAt(Run(codec, events, j), owner, deviceId)
  }

  ghost predicate BoundAt(c: Config, owner: string, deviceId: string) {
    && c.mem.Some? && owner != ""
    && exists i :: 0 <= i < |c.mem.value.devices|
                && c.mem.value.devices[i].id == deviceId && c.mem.value.devices[i].ownerId == owner
                && c.mem.value.devices[i].boundAt.Some?
  }

  ghost predicate AllSourced(codec: StateCodec, events: seq<Event>, n: nat, messages: seq<Message>)
    requires n <= |events|
  {
    forall i :: 0 <= i < |messages| ==> OnceBound(codec, events, n, messages[i].ownerId, messages[i].deviceId)
  }

  lemma OnceBoundLater(codec: StateCodec, events: seq<Event>, n: nat, owner: string, deviceId: string)
    requires n < |events| && OnceBound(codec, events, n, owner, deviceId)
    ensures OnceBound(codec, events, n + 1, owner, deviceId)
  {
    var j :| 0 <= j <= n && BoundAt(Run(codec, events, j), owner, deviceId);
  }

  /** Every message after an operation was there before, for the same pair, or is the one
      the operation added. */
  lemma MessageStep(d: StateData, op: Op, k: nat)
    requires k < |Apply(d, op).data.messages|
    ensures var m := Apply(d, op).data.messages[k];
      || (op.AddDeviceMessage? && m.ownerId == op.owner && m.deviceId == op.deviceId)
      || exists i :: 0 <= i < |d.messages| && d.messages[i].ownerId == m.ownerId && d.messages[i].deviceId == m.deviceId
  {
    var m := Apply(d, op).data.messages[k];
    match op
    case AddDeviceMessage(owner, deviceId, author, body, priority, now) =>
      var all := d.messages + [NewMessage(d.nextMessageId, owner, deviceId, author, body, priority, now)];
      assert exists i :: 0 <= i < |all| && all[i] == m;
    case AckDeviceMessages(_, _, _) =>
      assert d.messages[k].ownerId == m.ownerId && d.messages[k].deviceId == m.deviceId;
    case _ =>
      assert d.messages[k] == m;
  }

  lemma SourcedStep(codec: StateCodec, events: seq<Event>, n: nat, d: StateData, op: Op)
    requires n < |events| && AllSourced(codec, events, n, d.messages)
    requires op.AddDeviceMessage? ==> OnceBound(codec, events, n, op.owner, op.deviceId)
    ensures AllSourced(codec, events, n + 1, Apply(d, op).data.messages)
  {
    hide Apply, OnceBound;
    var messages := Apply(d, op).data.messages;
    forall k | 0 <= k < |messages|
      ensures OnceBound(codec, events, n + 1, messages[k].ownerId, messages[k].deviceId)
    {
      MessageStep(d, op, k);
      OnceBoundLater(codec, events, n, messages[k].ownerId, messages[k].deviceId);
    }
  }

  lemma SourcedLater(codec: StateCodec, events: seq<Event>, n: nat, messages: seq<Message>)
    requires n < |events| && AllSourced(codec, events, n, messages)
    ensures AllSourced(codec, events, n + 1, messages)
  {
    hide OnceBound;
    forall i | 0 <= i < |messages|
      ensures OnceBound(codec, events, n + 1, messages[i].ownerId, messages[i].deviceId)
    {
      OnceBoundLater(codec, events, n, messages[i].ownerId, messages[i].deviceId);
    }
  }

  ghost predicate PermitsSourced(codec: StateCodec, events: seq<Event>, n: nat)
    requires n <= |events|
  {
    forall p :: p in Run(codec, events, n).permits ==> OnceBound(codec, events, n, p.0, p.1)
  }

  lemma PermitsStep(codec: StateCodec, events: seq<Event>, n: nat)
    requires codec.Lawful() && n < |events| && ValidRun(codec, events, n + 1)
    requires PermitsSourced(codec, events, n)
    ensures PermitsSourced(codec, events, n + 1)
  {
    hide Apply, Load, OpOk, OnceBound, Inv;
    var c := Run(codec, events, n);
    forall p | p in Run(codec, events, n + 1).permits
      ensures OnceBound(codec, events, n + 1, p.0, p.1)
    {
      if p in c.permits {
        OnceBoundLater(codec, events, n, p.0, p.1);
      } else {
        FileIsLastSaved(codec, events, n);
        AuthorizedIsBound(c, p.0, p.1);
        BoundNow(codec, events, n, p.0, p.1);
        OnceBoundLater(codec, events, n, p.0, p.1);
      }
    }
  }

  lemma BoundNow(codec: StateCodec, events: seq<Event>, n: nat, owner: string, deviceId: string)
    requires n <= |events| && BoundAt(Run(codec, events, n), owner, deviceId)
    ensures OnceBound(codec, events, n, owner, deviceId)
  {
  }

  lemma AuthorizedIsBound(c: Config, owner: string, deviceId: string)
    requires c.mem.Some? && Inv(c.mem.value) && owner != "" && Owns(c.mem.value, owner, deviceId)
    ensures BoundAt(c, owner, deviceId)
  {
    var devices := c.mem.value.devices;
    assert Devices.PairingState(devices[FirstIndex(Devices.OwnedAs(owner, deviceId), devices)]);
  }

  /** Every stored message, in memory or in the state file, was addressed by a user to a
      device that was theirs at some earlier moment - although the ownership check and the
      append are separate steps between which the device may be deleted or bound anew. */
  lemma {:induction false} MessagesAreSourced(codec: StateCodec, events: seq<Event>, n: nat)
    requires codec.Lawful() && n <= |events| && ValidRun(codec, events, n)
    ensures PermitsSourced(codec, events, n)
    ensures Run(codec, events, n).mem.Some? ==> AllSourced(codec, events, n, Run(codec, events, n).mem.value.messages)
    ensures LastSaved(codec, events, n).Some? ==>
      AllSourced(codec, events, n, LastSaved(codec, events, n).value.messages)
  {
    hide Apply, Load, OpOk, OnceBound, AllSourced, Inv, FileHolds;
    if n == 0 {
    } else {
      MessagesAreSourced(codec, events, n - 1);
      PermitsStep(codec, events, n - 1);
      var c, saved := Run(codec, events, n - 1), LastSaved(codec, events, n - 1);
      if saved.Some? {
        SourcedLater(codec, events, n - 1, saved.value.messages);
      }
      match events[n - 1]
      case Do(op, _) => SourcedStep(codec, events, n - 1, c.mem.value, op);
      case Authorize(_, _) => SourcedLater(codec, events, n - 1, c.mem.value.messages);
      case Crash =>
      case Open(readable, now) =>
        FileIsLastSaved(codec, events, n - 1);
        LoadGivesSaved(codec, c.file, saved, readable, now);
        NothingToSource(codec, events, n);
    }
  }

  lemma NothingToSource(codec: StateCodec, events: seq<Event>, n: nat)
    requires n <= |events|
    ensures AllSourced(codec, events, n, [])
  {
  }
}
