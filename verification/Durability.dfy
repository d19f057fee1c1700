/** The store as a machine over whole runs: the process's memory, the state file, and the
    events that change them. Each operation changes memory first and then saves, and the
    save may fail; a crash loses the memory; opening the store again reads the file. */
module Durability {
  import opened Seqs
  import opened Domain
  import opened State
  import opened History
  import Devices
  import Inbox

  /** Memory is absent while the process is down. `permits` are the requests to send a
      message that have passed the ownership check and not yet reached the store. */
  datatype Config = Config(
    mem: Option<StateData>,
    file: Option<Bytes>,
    permits: set<(string, string)>)

  datatype Event =
    | Do(op: Op, saved: bool)
    | Authorize(owner: string, deviceId: string)
    | Crash
    | Open(readable: bool, now: Time)

  const INITIAL := Config(None, None, {})

  predicate Owns(d: StateData, owner: string, deviceId: string) {
    0 <= FirstIndex(Devices.OwnedAs(owner, deviceId), d.devices)
  }

  function Next(codec: StateCodec, c: Config, e: Event): Config {
    match e
    case Do(op, saved) =>
      if c.mem == None then c
      else
        var effect := Apply(c.mem.value, op);
        c.(mem := Some(effect.data),
           file := if effect.saves && saved then Some(codec.encode(effect.data)) else c.file)
    case Authorize(owner, deviceId) =>
      if c.mem.Some? && Owns(c.mem.value, owner, deviceId)
      then c.(permits := c.permits + {(owner, deviceId)})
      else c
    case Crash => c.(mem := None, permits := {})
    case Open(readable, now) =>
      (match Load(codec, c.file, readable, now)
       case Ok(d) => c.(mem := Some(d))
       case Err => c)
  }

  predicate Enabled(c: Config, e: Event) {
    match e
    case Do(op, _) =>
      && c.mem.Some? && OpOk(c.mem.value, op)
      && (op.AddDeviceMessage? ==> (op.owner, op.deviceId) in c.permits)
    case Authorize(owner, _) => c.mem.Some? && owner != ""
    case Crash => true
    case Open(_, _) => c.mem == None
  }

  /** The configuration after the first `n` events. */
  function Run(codec: StateCodec, events: seq<Event>, n: nat): Config
    requires n <= |events|
  {
    if n == 0 then INITIAL else Next(codec, Run(codec, events, n - 1), events[n - 1])
  }

  /** Each of the first `n` events was possible when it happened. */
  ghost predicate ValidRun(codec: StateCodec, events: seq<Event>, n: nat)
    requires n <= |events|
  {
    n == 0 || (ValidRun(codec, events, n - 1) && Enabled(Run(codec, events, n - 1), events[n - 1]))
  }

  lemma {:induction false} ValidRunEarlier(codec: StateCodec, events: seq<Event>, m: nat, n: nat)
    requires m <= n <= |events| && ValidRun(codec, events, n)
    ensures ValidRun(codec, events, m)
    decreases n
  {
    hide Run, Enabled;
    if m < n {
      ValidRunEarlier(codec, events, m, n - 1);
    }
  }

  /** A call that changed the state and returned without an error: the event it was, the
      operation and its reply. */
  datatype Ack = Ack(event: nat, op: Op, reply: Reply)

  predicate Acknowledged(c: Config, e: Event) {
    e.Do? && e.saved && c.mem.Some? && Apply(c.mem.value, e.op).saves
  }

  predicate AckedEvent(codec: StateCodec, events: seq<Event>, n: nat)
    requires n < |events|
  {
    Acknowledged(Run(codec, events, n), events[n])
  }

  /** The acknowledged changes among the first `n` events, in order. */
  function Acks(codec: StateCodec, events: seq<Event>, n: nat): seq<Ack>
    requires n <= |events|
  {
    if n == 0 then []
    else
      var before := Acks(codec, events, n - 1);
      if AckedEvent(codec, events, n - 1)
      then before + [Ack(n - 1, events[n - 1].op, Apply(Run(codec, events, n - 1).mem.value, events[n - 1].op).reply)]
      else before
  }

  // ---- Durable linearization ----

  /** A crash-free story of a run: a store fresh at `start` applied `log`, whose operation
      `q` was event `from[q]`; the state file is the state after the first `durable`
      operations; acknowledged change `k` is the operation at position `at[k]`. */
  datatype Story = Story(start: Time, log: seq<Op>, from: seq<nat>, durable: nat, at: seq<nat>)

  /** How the story goes on: an operation joins the log and a save makes all of it durable;
      a crash cuts the log to its durable part; opening without a file starts afresh. */
  function Advance(s: Story, c: Config, e: Event, n: nat): Story
    requires s.durable <= |s.log| && s.durable <= |s.from|
  {
    match e
    case Do(op, _) =>
      var t := s.(log := s.log + [op], from := s.from + [n]);
      if Acknowledged(c, e) then t.(durable := |t.log|, at := s.at + [|s.log|]) else t
    case Authorize(_, _) => s
    case Crash => s.(log := s.log[..s.durable], from := s.from[..s.durable])
    case Open(_, now) => if s.durable == 0 then Story(now, [], [], 0, []) else s
  }

  function StoryOf(codec: StateCodec, events: seq<Event>, n: nat): (s: Story)
    requires n <= |events|
    ensures s.durable <= |s.log| == |s.from|
  {
    if n == 0 then Story(0, [], [], 0, [])
    else Advance(StoryOf(codec, events, n - 1), Run(codec, events, n - 1), events[n - 1], n - 1)
  }

  /** Memory is the end of the story; the file is the end of its durable part. */
  ghost predicate StateMatches(codec: StateCodec, s: Story, c: Config) {
    && ValidLog(s.start, s.log, |s.log|)
    && s.durable <= |s.log|
    && (if c.mem.Some? then c.mem.value == Replay(s.start, s.log) else |s.log| == s.durable)
    && (if s.durable == 0 then c.file == None
        else c.file == Some(codec.encode(StateAt(s.start, s.log, s.durable))))
  }

  /** The log's operations are events of the run, in the order they happened. */
  ghost predicate OpsMatch(s: Story, events: seq<Event>, n: nat)
    requires n <= |events|
  {
    && |s.from| == |s.log|
    && Ascending(s.from)
    && (forall q :: 0 <= q < |s.from| ==> s.from[q] < n && events[s.from[q]].Do? && events[s.from[q]].op == s.log[q])
  }

  /** Each acknowledged change is in the durable part, with the reply it has there. */
  ghost predicate AcksMatch(s: Story, acks: seq<Ack>) {
    && s.durable <= |s.log| == |s.from|
    && |s.at| == |acks| <= s.durable && Ascending(s.at)
    && (forall k :: 0 <= k < |acks| ==> s.at[k] < s.durable)
    && (forall k :: 0 <= k < |acks| ==> acks[k] == AckAt(s, s.at[k]))
  }

  function AckAt(s: Story, p: nat): Ack
    requires p < |s.log| && p < |s.from|
  {
    Ack(s.from[p], s.log[p], ReplyAt(s.start, s.log, p))
  }

  /** A crash came after this event, and no acknowledged change between the two. */
  ghost predicate Lost(codec: StateCodec, events: seq<Event>, e: nat, n: nat)
    requires n <= |events|
  {
    exists crash :: e < crash < n && events[crash].Crash? && Unsaved(codec, events, e, crash)
  }

  ghost predicate Unsaved(codec: StateCodec, events: seq<Event>, e: nat, n: nat)
    requires n <= |events|
  {
    forall k :: e <= k < n ==> !AckedEvent(codec, events, k)
  }

  /** An operation is missing from the log exactly if a crash undid it before it was saved;
      it is durable exactly if an acknowledged change came with it or after it. */
  ghost predicate LossesMatch(codec: StateCodec, s: Story, events: seq<Event>, n: nat)
    requires n <= |events|
  {
    && (forall q :: 0 <= q < |s.from| && s.from[q] < n ==> (s.durable <= q <==> Unsaved(codec, events, s.from[q], n)))
    && (forall e :: 0 <= e < n && events[e].Do? ==> (e in s.from <==> !Lost(codec, events, e, n)))
  }

  ghost predicate Explains(codec: StateCodec, s: Story, events: seq<Event>, n: nat)
    requires n <= |events|
  {
    && StateMatches(codec, s, Run(codec, events, n))
    && OpsMatch(s, events, n)
    && AcksMatch(s, Acks(codec, events, n))
    && LossesMatch(codec, s, events, n)
  }

  lemma AdvanceState(codec: StateCodec, s: Story, c: Config, e: Event, n: nat)
    requires codec.Lawful() && Enabled(c, e) && s.durable <= |s.from|
    requires StateMatches(codec, s, c)
    ensures StateMatches(codec, Advance(s, c, e, n), Next(codec, c, e))
    ensures e.Open? && e.readable ==> Next(codec, c, e).mem.Some?
  {
    hide Apply, OpOk, Normalize, ValidLog, StateAt;
    var t := Advance(s, c, e, n);
    match e
    case Do(op, saved) =>
      ValidAppend(s.start, s.log, op);
      SharedPrefix(s.start, t.log, s.log, s.durable);
    case Authorize(_, _) =>
    case Crash =>
      ValidEarlier(s.start, s.log, s.durable, |s.log|);
      SharedPrefix(s.start, t.log, s.log, s.durable);
    case Open(readable, now) =>
      if s.durable == 0 {
        NothingLogged(now);
      } else {
        InvAt(s.start, s.log, |s.log|);
        LoadAfterSave(codec, Replay(s.start, s.log), now);
      }
  }

  lemma NothingLogged(start: Time)
    ensures ValidLog(start, [], 0) && Replay(start, []) == Fresh(start)
  {
  }

  lemma AdvanceAcks(codec: StateCodec, s: Story, events: seq<Event>, n: nat)
    requires n < |events| && Enabled(Run(codec, events, n), events[n])
    requires AcksMatch(s, Acks(codec, events, n)) && StateMatches(codec, s, Run(codec, events, n))
    ensures AcksMatch(Advance(s, Run(codec, events, n), events[n], n), Acks(codec, events, n + 1))
  {
    hide Apply, OpOk, ValidLog, StateAt, Run;
    var acks := Acks(codec, events, n);
    var t := Advance(s, Run(codec, events, n), events[n], n);
    match events[n]
    case Do(op, saved) =>
      ValidAppend(s.start, s.log, op);
      forall k | 0 <= k < |acks|
        ensures AckAt(t, s.at[k]) == acks[k]
      {
        assert acks[k] == AckAt(s, s.at[k]);
      }
    case Authorize(_, _) =>
    case Crash =>
      SharedPrefix(s.start, s.log[..s.durable], s.log, s.durable);
      forall k | 0 <= k < |acks|
        ensures AckAt(t, s.at[k]) == acks[k]
      {
        assert acks[k] == AckAt(s, s.at[k]);
      }
    case Open(_, _) =>
  }

  lemma AdvanceOps(codec: StateCodec, s: Story, events: seq<Event>, n: nat)
    requires n < |events| && s.durable <= |s.log|
    requires OpsMatch(s, events, n)
    ensures OpsMatch(Advance(s, Run(codec, events, n), events[n], n), events, n + 1)
  {
    hide Apply, Run;
  }

  /** The operations not yet durable are those that stay unsaved. */
  lemma AdvanceUnsaved(codec: StateCodec, s: Story, events: seq<Event>, n: nat)
    requires n < |events| && s.durable <= |s.log|
    requires OpsMatch(s, events, n) && LossesMatch(codec, s, events, n)
    requires events[n].Open? && s.durable == 0 ==> s.from == []
    ensures var t := Advance(s, Run(codec, events, n), events[n], n);
      forall q :: 0 <= q < |t.from| ==> (t.durable <= q <==> Unsaved(codec, events, t.from[q], n + 1))
  {
    hide Apply, Run, ValidLog, StateAt, OpOk, Lost, Unsaved, Acknowledged;
    var c := Run(codec, events, n);
    var t := Advance(s, c, events[n], n);
    forall q | 0 <= q < |t.from|
      ensures t.durable <= q <==> Unsaved(codec, events, t.from[q], n + 1)
    {
      UnsavedStep(codec, events, t.from[q], n);
      if q < |s.from| {
        assert s.durable <= q <==> Unsaved(codec, events, s.from[q], n);
      }
      AckedIsDo(c, events[n]);
    }
  }

  lemma AckedIsDo(c: Config, e: Event)
    ensures Acknowledged(c, e) ==> e.Do?
  {
  }

  lemma UnsavedStep(codec: StateCodec, events: seq<Event>, e: nat, n: nat)
    requires e <= n < |events|
    ensures Unsaved(codec, events, e, n + 1)
       <==> Unsaved(codec, events, e, n) && !Acknowledged(Run(codec, events, n), events[n])
    ensures Unsaved(codec, events, n, n)
  {
    hide Run, Acknowledged;
    if Unsaved(codec, events, e, n + 1) {
      assert !AckedEvent(codec, events, n);
    }
  }

  lemma LostStep(codec: StateCodec, events: seq<Event>, e: nat, n: nat)
    requires e <= n < |events|
    ensures Lost(codec, events, e, n + 1)
       <==> Lost(codec, events, e, n) || (e < n && events[n].Crash? && Unsaved(codec, events, e, n))
  {
    hide Unsaved;
    if Lost(codec, events, e, n) {
      var crash :| e < crash < n && events[crash].Crash? && Unsaved(codec, events, e, crash);
    }
  }

  lemma AdvanceLosses(codec: StateCodec, s: Story, events: seq<Event>, n: nat)
    requires n < |events| && s.durable <= |s.log|
    requires OpsMatch(s, events, n) && LossesMatch(codec, s, events, n)
    requires events[n].Open? && s.durable == 0 ==> s.from == []
    ensures LossesMatch(codec, Advance(s, Run(codec, events, n), events[n], n), events, n + 1)
  {
    hide Apply, Run, ValidLog, StateAt, OpOk, Unsaved, AckedEvent, Acknowledged, Lost;
    AdvanceUnsaved(codec, s, events, n);
    var t := Advance(s, Run(codec, events, n), events[n], n);
    forall e | 0 <= e < n + 1 && events[e].Do?
      ensures e in t.from <==> !Lost(codec, events, e, n + 1)
    {
      LostStep(codec, events, e, n);
      if e == n {
        assert t.from[|s.from|] == e;
        NotLostYet(codec, events, e);
      } else {
        KeptStep(codec, s, events, e, n);
      }
    }
  }

  lemma NotLostYet(codec: StateCodec, events: seq<Event>, n: nat)
    requires n <= |events|
    ensures !Lost(codec, events, n, n)
  {
  }

  /** A crash takes exactly the unsaved operations out of the log; nothing else takes any. */
  lemma KeptStep(codec: StateCodec, s: Story, events: seq<Event>, e: nat, n: nat)
    requires e < n < |events| && s.durable <= |s.log|
    requires OpsMatch(s, events, n) && LossesMatch(codec, s, events, n)
    requires events[n].Open? && s.durable == 0 ==> s.from == []
    ensures var t := Advance(s, Run(codec, events, n), events[n], n);
      e in t.from <==> e in s.from && !(events[n].Crash? && Unsaved(codec, events, e, n))
  {
    hide Apply, Run, ValidLog, StateAt, OpOk, Unsaved, AckedEvent, Acknowledged, Lost;
    var t := Advance(s, Run(codec, events, n), events[n], n);
    if e in s.from {
      var q :| 0 <= q < |s.from| && s.from[q] == e;
      assert s.durable <= q <==> Unsaved(codec, events, e, n);
      if q < |t.from| {
        assert t.from[q] == e;
      } else {
        assert forall k :: 0 <= k < |t.from| ==> t.from[k] == s.from[k] < e;
      }
    }
  }

  /** Every run has a crash-free story. Memory is the state after the story's log and the
      state file the state after its durable part; the log is what was executed, in order,
      without what a crash undid before it was saved; and every acknowledged change is in
      the durable part, in order, with the reply it has there. */
  lemma {:induction false} DurableLinearization(codec: StateCodec, events: seq<Event>, n: nat)
    requires codec.Lawful() && n <= |events| && ValidRun(codec, events, n)
    ensures Explains(codec, StoryOf(codec, events, n), events, n)
  {
    hide *;
    if n == 0 {
      NothingYet(codec, events);
    } else {
      ValidRunEarlier(codec, events, n - 1, n);
      DurableLinearization(codec, events, n - 1);
      Advances(codec, events, n - 1);
    }
  }

  lemma NothingYet(codec: StateCodec, events: seq<Event>)
    ensures Explains(codec, StoryOf(codec, events, 0), events, 0)
  {
    hide Apply, OpOk;
  }

  lemma Advances(codec: StateCodec, events: seq<Event>, n: nat)
    requires codec.Lawful() && n < |events| && ValidRun(codec, events, n + 1)
    requires Explains(codec, StoryOf(codec, events, n), events, n)
    ensures Explains(codec, StoryOf(codec, events, n + 1), events, n + 1)
  {
    hide Apply, Advance, Next, OpsMatch, AcksMatch, LossesMatch, Acks, ValidLog, StateAt, OpOk;
    var s := StoryOf(codec, events, n);
    AdvanceState(codec, s, Run(codec, events, n), events[n], n);
    AdvanceOps(codec, s, events, n);
    AdvanceAcks(codec, s, events, n);
    AdvanceLosses(codec, s, events, n);
  }

  /** What was durable stays: same start, same first operations, same acknowledgements. */
  ghost predicate Extends(s: Story, t: Story) {
    && s.durable <= |s.log| == |s.from|
    && s.durable <= t.durable <= |t.log| == |t.from|
    && s.log[..s.durable] == t.log[..s.durable]
    && s.from[..s.durable] == t.from[..s.durable]
    && (0 < s.durable ==> s.start == t.start)
    && s.at <= t.at
  }

  lemma ExtendsTransitive(s: Story, t: Story, u: Story)
    requires Extends(s, t) && Extends(t, u)
    ensures Extends(s, u)
  {
    assert t.log[..t.durable][..s.durable] == u.log[..t.durable][..s.durable];
    assert t.log[..s.durable] == t.log[..t.durable][..s.durable];
    assert u.log[..s.durable] == u.log[..t.durable][..s.durable];
    assert t.from[..s.durable] == t.from[..t.durable][..s.durable];
    assert u.from[..s.durable] == u.from[..t.durable][..s.durable];
  }

  lemma AdvanceExtends(codec: StateCodec, s: Story, events: seq<Event>, n: nat)
    requires n < |events| && s.durable <= |s.log| == |s.from|
    requires AcksMatch(s, Acks(codec, events, n))
    ensures Extends(s, Advance(s, Run(codec, events, n), events[n], n))
  {
    hide Apply, Run, Acks;
    var t := Advance(s, Run(codec, events, n), events[n], n);
    assert s.log[..s.durable] == t.log[..s.durable];
    assert s.from[..s.durable] == t.from[..s.durable];
  }

  /** Nothing acknowledged is lost: the story of a longer run starts with everything that
      was durable in the story of a shorter one. */
  lemma {:induction false} DurablePrefixGrows(codec: StateCodec, events: seq<Event>, m: nat, n: nat)
    requires codec.Lawful() && m <= n <= |events| && ValidRun(codec, events, n)
    ensures Extends(StoryOf(codec, events, m), StoryOf(codec, events, n))
    decreases n
  {
    hide Apply, Advance, Run, Acks, StateMatches, OpsMatch, AcksMatch, LossesMatch, ValidRun;
    if m < n {
      ValidRunEarlier(codec, events, n - 1, n);
      DurablePrefixGrows(codec, events, m, n - 1);
      DurableLinearization(codec, events, n - 1);
      AdvanceExtends(codec, StoryOf(codec, events, n - 1), events, n - 1);
      ExtendsTransitive(StoryOf(codec, events, m), StoryOf(codec, events, n - 1), StoryOf(codec, events, n));
    }
  }
}
