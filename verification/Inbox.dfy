/** The bounded message list: a sliding window of the last 100 messages, each pending until
    its device acknowledges it. */
module Inbox {
  import opened Seqs
  import opened Domain

  const MAX_MESSAGES := 100

  function OwnedBy(owner: string): Message -> bool {
    (m: Message) => m.ownerId == owner
  }

  function Between(owner: string, deviceId: string): Message -> bool {
    (m: Message) => m.ownerId == owner && m.deviceId == deviceId
  }

  function PendingFor(deviceId: string): Message -> bool {
    (m: Message) => m.deviceId == deviceId && m.status == Pending
  }

  function Requested(deviceId: string, ids: seq<int>): Message -> bool {
    (m: Message) => m.deviceId == deviceId && m.id in ids
  }

  function Acknowledge(m: Message, deviceId: string, ids: seq<int>, now: Time): Message {
    if Requested(deviceId, ids)(m) && m.status != Acked
    then m.(status := Acked, ackedAt := Some(now))
    else m
  }

  function AckAll(messages: seq<Message>, deviceId: string, ids: seq<int>, now: Time): seq<Message> {
    seq(|messages|, i requires 0 <= i < |messages| => Acknowledge(messages[i], deviceId, ids, now))
  }

  function Ids(messages: seq<Message>): seq<int> {
    seq(|messages|, i requires 0 <= i < |messages| => messages[i].id)
  }

  function AckedIds(messages: seq<Message>, deviceId: string, ids: seq<int>): seq<int> {
    Ids(Filter(Requested(deviceId, ids), messages))
  }

  function NotIn(ids: seq<int>): int -> bool {
    (id: int) => id !in ids
  }

  function MissingIds(messages: seq<Message>, deviceId: string, ids: seq<int>): seq<int> {
    Filter(NotIn(AckedIds(messages, deviceId, ids)), ids)
  }

  function PendingMessages(messages: seq<Message>, deviceId: string): seq<Message> {
    Filter(PendingFor(deviceId), messages)
  }

  function Statuses(messages: seq<Message>): seq<Status> {
    seq(|messages|, i requires 0 <= i < |messages| => messages[i].status)
  }

  /** At most 100 messages, whose ids are the last ones the counter gave out, none missing. */
  ghost predicate InboxInv(messages: seq<Message>, next: int) {
    && |messages| <= MAX_MESSAGES
    && |messages| < next
    && (forall i :: 0 <= i < |messages| ==> messages[i].id == next - |messages| + i)
    && (forall i :: 0 <= i < |messages| ==> Settled(messages[i]))
  }

  /** Pending without an ack time, or acked with one. */
  predicate Settled(m: Message) {
    && m.priority != NoPriority
    && m.status in {Pending, Acked}
    && (m.status == Acked <==> m.ackedAt.Some?)
  }

  ghost predicate IdsAscend(messages: seq<Message>) {
    forall i, j :: 0 <= i < j < |messages| ==> messages[i].id < messages[j].id
  }

  lemma {:induction false} FilterAscends(p: Message -> bool, messages: seq<Message>)
    requires IdsAscend(messages)
    ensures IdsAscend(Filter(p, messages))
  {
    if messages != [] {
      FilterAscends(p, messages[1..]);
      FilterContents(p, messages[1..]);
      forall m | m in Filter(p, messages[1..])
        ensures messages[0].id < m.id
      {
        var k :| 0 <= k < |messages| - 1 && messages[1..][k] == m;
        assert messages[k + 1] == m;
      }
    }
  }

  lemma IdsContents(messages: seq<Message>)
    ensures forall id :: id in Ids(messages) <==> exists m :: m in messages && m.id == id
  {
    forall id
      ensures id in Ids(messages) <==> exists m :: m in messages && m.id == id
    {
      if id in Ids(messages) {
        var k :| 0 <= k < |messages| && Ids(messages)[k] == id;
        assert messages[k] in messages;
      }
      if m :| m in messages && m.id == id {
        var k :| 0 <= k < |messages| && messages[k] == m;
        assert Ids(messages)[k] == id;
      }
    }
  }

  /** What a device learns from an acknowledgement: the acknowledged list holds each
      requested id stored for this device once, in ascending order; the missing list is
      exactly the rest of the request, in request order, repeats kept. */
  lemma AckReport(messages: seq<Message>, next: int, deviceId: string, ids: seq<int>)
    requires InboxInv(messages, next)
    ensures var acked := AckedIds(messages, deviceId, ids);
      && (forall i, j :: 0 <= i < j < |acked| ==> acked[i] < acked[j])
      && (forall id :: id in acked <==>
            id in ids && exists m :: m in messages && m.deviceId == deviceId && m.id == id)
      && (forall id :: id in MissingIds(messages, deviceId, ids) <==> id in ids && id !in acked)
      && (forall id :: id !in acked ==>
            multiset(MissingIds(messages, deviceId, ids))[id] == multiset(ids)[id])
  {
    var p := Requested(deviceId, ids);
    var chosen := Filter(p, messages);
    FilterAscends(p, messages);
    FilterContents(p, messages);
    IdsContents(chosen);
    var acked := AckedIds(messages, deviceId, ids);
    FilterContents(NotIn(acked), ids);
    forall id | id in ids && exists m :: m in messages && m.deviceId == deviceId && m.id == id
      ensures id in acked
    {
      var m :| m in messages && m.deviceId == deviceId && m.id == id;
      assert m in chosen;
    }
    forall id | id !in acked
      ensures multiset(MissingIds(messages, deviceId, ids))[id] == multiset(ids)[id]
    {
      FilterMultiplicity(NotIn(acked), ids, id);
    }
  }

  lemma ReportedIsStored(messages: seq<Message>, deviceId: string, ids: seq<int>, id: int)
    requires id in AckedIds(messages, deviceId, ids)
    ensures id in ids && exists i :: 0 <= i < |messages| && messages[i].deviceId == deviceId && messages[i].id == id
  {
    var p := Requested(deviceId, ids);
    IdsContents(Filter(p, messages));
    FilterContents(p, messages);
  }

  lemma {:induction false} FilterMultiplicity(p: int -> bool, ids: seq<int>, id: int)
    requires p(id)
    ensures multiset(Filter(p, ids))[id] == multiset(ids)[id]
  {
    if ids != [] {
      assert ids == [ids[0]] + ids[1..];
      FilterMultiplicity(p, ids[1..], id);
    }
  }

  /** A requested message of the device that is not acknowledged yet becomes so, at this time;
      any other stays as it was. */
  predicate MarkedBy(before: Message, after: Message, deviceId: string, ids: seq<int>, now: Time) {
    if before.deviceId == deviceId && before.id in ids && before.status != Acked
    then
      && after.status == Acked && after.ackedAt == Some(now)
      && after.id == before.id && after.ownerId == before.ownerId && after.deviceId == before.deviceId
      && after.authorId == before.authorId && after.body == before.body && after.priority == before.priority
      && after.createdAt == before.createdAt
    else after == before
  }

  lemma AckMarks(messages: seq<Message>, deviceId: string, ids: seq<int>, now: Time)
    ensures var after := AckAll(messages, deviceId, ids, now);
      |after| == |messages|
      && forall i :: 0 <= i < |messages| ==> MarkedBy(messages[i], after[i], deviceId, ids, now)
  {
  }

  /** Asking again is answered alike, and changes nothing: no status reverts and the first
      acknowledgement time stands. */
  lemma AckTwice(messages: seq<Message>, deviceId: string, ids: seq<int>, now: Time, later: Time)
    ensures var once := AckAll(messages, deviceId, ids, now);
      && AckAll(once, deviceId, ids, later) == once
      && AckedIds(once, deviceId, ids) == AckedIds(messages, deviceId, ids)
      && MissingIds(once, deviceId, ids) == MissingIds(messages, deviceId, ids)
  {
    AckKeepsRequests(messages, deviceId, ids, now, deviceId, ids);
  }

  /** An acknowledgement does not change what any other request will report. */
  lemma {:induction false} AckKeepsRequests(messages: seq<Message>, deviceId: string, ids: seq<int>, now: Time,
                                            otherDevice: string, otherIds: seq<int>)
    ensures AckedIds(AckAll(messages, deviceId, ids, now), otherDevice, otherIds)
         == AckedIds(messages, otherDevice, otherIds)
    decreases |messages|
  {
    if messages != [] {
      var once := AckAll(messages, deviceId, ids, now);
      assert once[1..] == AckAll(messages[1..], deviceId, ids, now);
      AckKeepsRequests(messages[1..], deviceId, ids, now, otherDevice, otherIds);
      var p := Requested(otherDevice, otherIds);
      assert p(once[0]) == p(messages[0]);
      IdsCons(p, once);
      IdsCons(p, messages);
    }
  }

  lemma IdsCons(p: Message -> bool, messages: seq<Message>)
    requires messages != []
    ensures Ids(Filter(p, messages))
         == (if p(messages[0]) then [messages[0].id] else []) + Ids(Filter(p, messages[1..]))
  {
  }

  /** Two acknowledgements give the same statuses in either order. */
  lemma AcksCommute(messages: seq<Message>, d1: string, ids1: seq<int>, t1: Time,
                    d2: string, ids2: seq<int>, t2: Time)
    ensures Statuses(AckAll(AckAll(messages, d1, ids1, t1), d2, ids2, t2))
         == Statuses(AckAll(AckAll(messages, d2, ids2, t2), d1, ids1, t1))
  {
  }

  // ---- Draining an inbox ----

  function Batch(messages: seq<Message>, deviceId: string, size: int): seq<Message> {
    Limit(size, PendingMessages(messages, deviceId))
  }

  ghost function Concat(batches: seq<seq<Message>>): seq<Message> {
    if batches == [] then [] else batches[0] + Concat(batches[1..])
  }

  /** Acknowledging a fetched batch removes exactly that batch from what is pending. */
  lemma AckRemovesBatch(messages: seq<Message>, deviceId: string, k: nat, now: Time)
    requires IdsAscend(messages)
    requires k <= |PendingMessages(messages, deviceId)|
    ensures var pending := PendingMessages(messages, deviceId);
      var after := AckAll(messages, deviceId, Ids(pending[..k]), now);
      IdsAscend(after) && PendingMessages(after, deviceId) == pending[k..]
  {
    var pending := PendingMessages(messages, deviceId);
    var ids := Ids(pending[..k]);
    FilterAscends(PendingFor(deviceId), messages);
    IdsContents(pending[..k]);
    FilterContents(PendingFor(deviceId), messages);
    forall j | 0 <= j < |pending|
      ensures pending[j].id in ids <==> j < k
    {
      if j < k {
        assert pending[..k][j] in pending[..k];
      }
    }
    AckSelects(messages, deviceId, ids, now);
    SplitByIds(pending, ids, k);
  }

  function Unlisted(ids: seq<int>): Message -> bool {
    (m: Message) => m.id !in ids
  }

  lemma {:induction false} AckSelects(messages: seq<Message>, deviceId: string, ids: seq<int>, now: Time)
    ensures PendingMessages(AckAll(messages, deviceId, ids, now), deviceId)
         == Filter(Unlisted(ids), PendingMessages(messages, deviceId))
  {
    if messages != [] {
      var after := AckAll(messages, deviceId, ids, now);
      assert after[1..] == AckAll(messages[1..], deviceId, ids, now);
      AckSelects(messages[1..], deviceId, ids, now);
      var head := if PendingFor(deviceId)(messages[0]) then [messages[0]] else [];
      FilterConcat(Unlisted(ids), head, PendingMessages(messages[1..], deviceId));
    }
  }

  lemma SplitByIds(pending: seq<Message>, ids: seq<int>, k: nat)
    requires k <= |pending|
    requires forall j :: 0 <= j < |pending| ==> (pending[j].id in ids <==> j < k)
    ensures Filter(Unlisted(ids), pending) == pending[k..]
  {
    assert pending == pending[..k] + pending[k..];
    FilterConcat(Unlisted(ids), pending[..k], pending[k..]);
    FilterNone(Unlisted(ids), pending[..k]);
    FilterAll(Unlisted(ids), pending[k..]);
  }

  /** The batches a device sees when it keeps fetching up to `size` pending messages and
      acknowledging them, with nothing sent meanwhile; round `r` is acknowledged at
      `clock(r)`, counting from `round`. */
  ghost function Drain(messages: seq<Message>, deviceId: string, size: int, clock: nat -> Time, round: nat)
    : seq<seq<Message>>
    requires IdsAscend(messages) && 1 <= size
    decreases |PendingMessages(messages, deviceId)|
  {
    var batch := Batch(messages, deviceId, size);
    if batch == [] then []
    else
      assert batch == PendingMessages(messages, deviceId)[..|batch|];
      AckRemovesBatch(messages, deviceId, |batch|, clock(round));
      [batch] + Drain(AckAll(messages, deviceId, Ids(batch), clock(round)), deviceId, size, clock, round + 1)
  }

  /** Fetching at most `size` and acknowledging drains the inbox in the least number of
      rounds, delivering every pending message once, in id order. */
  lemma {:induction false} DrainDelivers(messages: seq<Message>, deviceId: string, size: int, clock: nat -> Time,
                                         round: nat)
    requires 1 <= size && IdsAscend(messages)
    ensures var pending := PendingMessages(messages, deviceId);
      var rounds := Drain(messages, deviceId, size, clock, round);
      && Concat(rounds) == pending
      && (|rounds| - 1) * size < |pending|
      && |pending| <= |rounds| * size
      && forall i :: 0 <= i < |rounds| ==> 1 <= |rounds[i]| <= size
    decreases |PendingMessages(messages, deviceId)|
  {
    var batch := Batch(messages, deviceId, size);
    if batch != [] {
      var n := |batch|;
      assert batch == PendingMessages(messages, deviceId)[..n];
      AckRemovesBatch(messages, deviceId, n, clock(round));
      var after := AckAll(messages, deviceId, Ids(batch), clock(round));
      DrainDelivers(after, deviceId, size, clock, round + 1);
      RoundsStep(|PendingMessages(messages, deviceId)|, n, |Drain(after, deviceId, size, clock, round + 1)|, size);
    }
  }

  /** Arithmetic of one round: a full batch, or the last one. */
  lemma RoundsStep(pending: nat, batch: nat, rounds: nat, size: int)
    requires 1 <= size && 1 <= batch <= pending
    requires batch == size || (batch == pending < size)
    requires (rounds - 1) * size < pending - batch <= rounds * size
    ensures (rounds + 1 - 1) * size < pending <= (rounds + 1) * size
  {
    assert (rounds + 1) * size == rounds * size + size;
    assert (rounds - 1) * size == rounds * size - size;
    if batch < size {
      AtMostOnce(rounds, size);
    }
  }

  lemma AtMostOnce(rounds: nat, size: int)
    requires 1 <= size && rounds * size < size
    ensures rounds == 0
  {
  }
}
