/** Batch uploads of telemetry: each item is a separate critical section, so other writers'
    records may come in between. */
module Service {
  import opened Seqs
  import opened Domain
  import opened Store
  import TL = TelemetryLog

  /** One attempt to append a record, by the batch (`mine`) or by another writer. */
  datatype Attempt = Attempt(item: Telemetry, now: Time, outcome: TL.AppendOutcome, mine: bool)

  /** The records some attempts append when the first gets id `next`. */
  function Logged(next: int, attempts: seq<Attempt>): seq<Telemetry> {
    if attempts == [] then []
    else
      var n := |attempts| - 1;
      var before := Logged(next, attempts[..n]);
      if attempts[n].outcome == TL.Written
      then before + [TL.Stamp(attempts[n].item, next + |before|, attempts[n].now)]
      else before
  }

  /** For each of those records, whether the batch wrote it. */
  function Flags(attempts: seq<Attempt>): seq<bool> {
    if attempts == [] then []
    else
      var n := |attempts| - 1;
      if attempts[n].outcome == TL.Written then Flags(attempts[..n]) + [attempts[n].mine] else Flags(attempts[..n])
  }

  /** Those of the records that the batch wrote. */
  function OwnLogged(next: int, attempts: seq<Attempt>): seq<Telemetry> {
    if attempts == [] then []
    else
      var n := |attempts| - 1;
      var a := attempts[n];
      if a.outcome == TL.Written && a.mine
      then OwnLogged(next, attempts[..n]) + [TL.Stamp(a.item, next + |Logged(next, attempts[..n])|, a.now)]
      else OwnLogged(next, attempts[..n])
  }

  /** A batch and what it meets: its items, the clock and the fate of each append, and the
      attempts others make just before each. */
  datatype Batch = Batch(
    items: seq<Telemetry>,
    clock: nat -> Time,
    outcome: nat -> TL.AppendOutcome,
    others: nat -> seq<Attempt>)
  {
    ghost predicate OthersAreOthers() {
      forall i: nat, j :: 0 <= j < |others(i)| ==> !others(i)[j].mine
    }

    function Own(i: nat): Attempt
      requires i < |items|
    {
      Attempt(items[i], clock(i), outcome(i), true)
    }

    /** All attempts up to and including the batch's own `k`-th. */
    function Schedule(k: nat): seq<Attempt>
      requires k <= |items|
    {
      if k == 0 then [] else Schedule(k - 1) + others(k - 1) + [Own(k - 1)]
    }
  }

  /** The log and the counter when these attempts have run since the log was `base` and the
      counter `next`. */
  ghost predicate After(store: FileStore, base: Bytes, next: int, attempts: seq<Attempt>)
    reads store, store.telemetry
  {
    var records := Logged(next, attempts);
    && TL.Contents(store.telemetry.file) == base + TL.Frame(store.telemetry.codec, records)
    && store.nextTelemetryId == next + |records|
  }

  lemma LoggedSnoc(next: int, attempts: seq<Attempt>, a: Attempt)
    ensures Logged(next, attempts + [a])
         == Logged(next, attempts) + (if a.outcome == TL.Written
                                      then [TL.Stamp(a.item, next + |Logged(next, attempts)|, a.now)] else [])
    ensures Flags(attempts + [a]) == Flags(attempts) + (if a.outcome == TL.Written then [a.mine] else [])
    ensures OwnLogged(next, attempts + [a])
         == OwnLogged(next, attempts) + (if a.outcome == TL.Written && a.mine
                                         then [TL.Stamp(a.item, next + |Logged(next, attempts)|, a.now)] else [])
  {
    hide TL.Stamp;
    var all := attempts + [a];
    assert all[..|all| - 1] == attempts && all[|all| - 1] == a;
  }

  lemma {:induction false} LoggedPrefix(next: int, attempts: seq<Attempt>, more: seq<Attempt>)
    ensures Logged(next, attempts) <= Logged(next, attempts + more)
    ensures Flags(attempts) <= Flags(attempts + more)
    ensures |Logged(next, attempts)| == |Flags(attempts)|
    decreases |attempts| + |more|
  {
    if more != [] {
      var n := |more| - 1;
      LoggedPrefix(next, attempts, more[..n]);
      LoggedSnoc(next, attempts + more[..n], more[n]);
      assert attempts + more == attempts + more[..n] + [more[n]];
    } else {
      assert attempts + more == attempts;
      if attempts != [] {
        LoggedPrefix(next, attempts[..|attempts| - 1], []);
      }
    }
  }

  /** Others' attempts add no record of the batch. */
  lemma {:induction false} OthersAddNoFlag(next: int, attempts: seq<Attempt>, more: seq<Attempt>)
    requires forall j :: 0 <= j < |more| ==> !more[j].mine
    ensures forall p :: |Flags(attempts)| <= p < |Flags(attempts + more)| ==> !Flags(attempts + more)[p]
    ensures OwnLogged(next, attempts + more) == OwnLogged(next, attempts)
    decreases |more|
  {
    if more != [] {
      var n := |more| - 1;
      OthersAddNoFlag(next, attempts, more[..n]);
      LoggedSnoc(next, attempts + more[..n], more[n]);
      assert attempts + more == attempts + more[..n] + [more[n]];
    } else {
      assert attempts + more == attempts;
    }
  }

  /** Where the batch's records are, as they were returned: item `j` is at position `at[j]`,
      stamped with the id of that position, and no other position is the batch's. */
  ghost predicate Located(b: Batch, next: int, attempts: seq<Attempt>, at: seq<nat>)
    requires |at| <= |b.items|
  {
    IsLocated(b, next, Logged(next, attempts), Flags(attempts), OwnLogged(next, attempts), at)
  }

  ghost predicate IsLocated(b: Batch, next: int, records: seq<Telemetry>, flags: seq<bool>, own: seq<Telemetry>,
                            at: seq<nat>)
    requires |at| <= |b.items|
  {
    && Ascending(at)
    && |flags| == |records| && |own| == |at|
    && (forall j :: 0 <= j < |at| ==> at[j] < |records| && flags[at[j]])
    && (forall j :: 0 <= j < |at| ==> own[j] == records[at[j]] == TL.Stamp(b.items[j], next + at[j], b.clock(j)))
    && (forall p :: 0 <= p < |flags| && flags[p] ==> p in at)
  }

  lemma LocatedOthers(b: Batch, next: int, attempts: seq<Attempt>, more: seq<Attempt>, at: seq<nat>)
    requires |at| <= |b.items| && Located(b, next, attempts, at)
    requires forall j :: 0 <= j < |more| ==> !more[j].mine
    ensures Located(b, next, attempts + more, at)
  {
    LoggedPrefix(next, attempts, more);
    LoggedPrefix(next, attempts + more, []);
    assert attempts + more + [] == attempts + more;
    OthersAddNoFlag(next, attempts, more);
    var flags := Flags(attempts + more);
    forall p | 0 <= p < |flags| && flags[p]
      ensures p in at
    {
      assert p < |Flags(attempts)|;
      assert Flags(attempts)[p];
    }
  }

  lemma OneMoreLocated(b: Batch, next: int, records: seq<Telemetry>, flags: seq<bool>, own: seq<Telemetry>,
                       at: seq<nat>)
    requires |at| < |b.items| && IsLocated(b, next, records, flags, own, at)
    ensures var r := TL.Stamp(b.items[|at|], next + |records|, b.clock(|at|));
      IsLocated(b, next, records + [r], flags + [true], own + [r], at + [|records|])
  {
    hide TL.Stamp;
    var all, longer := flags + [true], at + [|records|];
    forall p | 0 <= p < |all| && all[p]
      ensures p in longer
    {
      if p < |flags| {
        assert flags[p];
      } else {
        assert longer[|at|] == p;
      }
    }
  }

  lemma LocatedOwn(b: Batch, next: int, attempts: seq<Attempt>, at: seq<nat>)
    requires |at| < |b.items| && Located(b, next, attempts, at)
    ensures Located(b, next, attempts + [b.Own(|at|)],
                    if b.outcome(|at|) == TL.Written then at + [|Logged(next, attempts)|] else at)
  {
    LoggedSnoc(next, attempts, b.Own(|at|));
    hide TL.Stamp, Logged, Flags, OwnLogged, IsLocated;
    if b.outcome(|at|) == TL.Written {
      OneMoreLocated(b, next, Logged(next, attempts), Flags(attempts), OwnLogged(next, attempts), at);
    } else {
      assert Logged(next, attempts) + [] == Logged(next, attempts);
      assert Flags(attempts) + [] == Flags(attempts);
      assert OwnLogged(next, attempts) + [] == OwnLogged(next, attempts);
    }
  }

  /** Whatever others append in between: after its first `k` appends succeed, the batch's
      items are in the log in request order, and nothing else of the batch is; if its next
      append fails, it leaves exactly those. */
  lemma {:induction false} BatchInLog(b: Batch, next: int, k: nat) returns (at: seq<nat>)
    requires b.OthersAreOthers() && k <= |b.items|
    requires forall j :: 0 <= j < k ==> b.outcome(j) == TL.Written
    ensures |at| == k && Located(b, next, b.Schedule(k), at)
    ensures k < |b.items| && b.outcome(k) != TL.Written ==> Located(b, next, b.Schedule(k + 1), at)
  {
    hide Located;
    if k == 0 {
      at := NothingLocated(b, next);
    } else {
      at := BatchInLog(b, next, k - 1);
      LocatedOthers(b, next, b.Schedule(k - 1), b.others(k - 1), at);
      LocatedOwn(b, next, b.Schedule(k - 1) + b.others(k - 1), at);
      at := at + [|Logged(next, b.Schedule(k - 1) + b.others(k - 1))|];
    }
    if k < |b.items| {
      LocatedOthers(b, next, b.Schedule(k), b.others(k), at);
      LocatedOwn(b, next, b.Schedule(k) + b.others(k), at);
    }
  }

  lemma NothingLocated(b: Batch, next: int) returns (at: seq<nat>)
    ensures at == [] && Located(b, next, [], at)
  {
    at := [];
  }

  /** The batch's records carry increasing ids, in request order. */
  lemma LocatedIdsIncrease(b: Batch, next: int, attempts: seq<Attempt>, at: seq<nat>, i: nat, j: nat)
    requires |at| <= |b.items| && Located(b, next, attempts, at) && i < j < |at|
    ensures Logged(next, attempts)[at[i]].id < Logged(next, attempts)[at[j]].id
  {
    hide Logged, Flags, OwnLogged;
  }

  /** Those records are the batch's items as given, and are what the batch returns. */
  lemma BatchAsGiven(b: Batch, next: int, k: nat) returns (at: seq<nat>)
    requires b.OthersAreOthers() && k <= |b.items|
    requires forall j :: 0 <= j < k ==> b.outcome(j) == TL.Written
    ensures var records, own := Logged(next, b.Schedule(k)), OwnLogged(next, b.Schedule(k));
      && |at| == |own| == k && Picked(records, at, own)
      && forall j :: 0 <= j < k ==> TL.StoredAs(own[j], b.items[j], next + at[j], b.clock(j))
  {
    at := BatchInLog(b, next, k);
    hide Logged, Flags, OwnLogged, TL.Stamp, TL.StoredAs;
    forall j | 0 <= j < k
      ensures TL.StoredAs(OwnLogged(next, b.Schedule(k))[j], b.items[j], next + at[j], b.clock(j))
    {
      TL.StampStores(b.items[j], next + at[j], b.clock(j));
    }
  }

  lemma StoredIds(b: Batch, own: seq<Telemetry>, next: int, at: seq<nat>)
    requires |own| == |at| == |b.items|
    requires forall j :: 0 <= j < |own| ==> TL.StoredAs(own[j], b.items[j], next + at[j], b.clock(j))
    ensures forall j :: 0 <= j < |own| ==> TL.StoredAs(own[j], b.items[j], own[j].id, b.clock(j))
  {
  }

  lemma OwnRound(b: Batch, next: int, attempts: seq<Attempt>, i: nat)
    requires b.OthersAreOthers() && i < |b.items|
    ensures var before := attempts + b.others(i);
      OwnLogged(next, before + [b.Own(i)])
        == OwnLogged(next, attempts)
           + (if b.outcome(i) == TL.Written
              then [TL.Stamp(b.items[i], next + |Logged(next, before)|, b.clock(i))] else [])
  {
    OthersAddNoFlag(next, attempts, b.others(i));
    LoggedSnoc(next, attempts + b.others(i), b.Own(i));
  }

  lemma BatchStarts(b: Batch, store: FileStore)
    ensures After(store, TL.Contents(store.telemetry.file), store.nextTelemetryId, b.Schedule(0))
    ensures OwnLogged(store.nextTelemetryId, b.Schedule(0)) == []
  {
  }

  lemma ScheduleStep(b: Batch, k: nat)
    requires k < |b.items|
    ensures b.Schedule(k + 1) == b.Schedule(k) + b.others(k) + [b.Own(k)]
  {
  }

  class TelemetryService {
    const store: FileStore

    constructor (store: FileStore)
      ensures this.store == store
    {
      this.store := store;
    }

    /** One attempt by anyone. */
    method TryAppend(a: Attempt, ghost base: Bytes, ghost next: int, ghost before: seq<Attempt>)
      returns (stored: Telemetry, err: bool)
      requires After(store, base, next, before)
      modifies store, store.telemetry
      ensures After(store, base, next, before + [a])
      ensures err <==> a.outcome != TL.Written
      ensures !err ==> stored == TL.Stamp(a.item, next + |Logged(next, before)|, a.now)
    {
      hide TL.Stamp, TL.Frame, Logged, Flags, OwnLogged;
      stored, err := store.AddTelemetry(a.item, a.now, a.outcome);
      LoggedSnoc(next, before, a);
      ghost var records := Logged(next, before);
      if err {
        assert records + [] == records;
      } else {
        ghost var codec := store.telemetry.codec;
        TL.FrameSnoc(codec, records, stored);
        assert base + TL.Frame(codec, records) + TL.Line(codec, stored)
            == base + (TL.Frame(codec, records) + TL.Line(codec, stored));
      }
    }

    /** Whatever other writers append between two of this service's critical sections. */
    method Interfere(others: seq<Attempt>, ghost base: Bytes, ghost next: int, ghost before: seq<Attempt>)
      requires After(store, base, next, before)
      modifies store, store.telemetry
      ensures After(store, base, next, before + others)
    {
      hide After;
      var i := 0;
      assert before + others[..0] == before;
      while i < |others|
        invariant i <= |others|
        invariant After(store, base, next, before + others[..i])
      {
        var _, _ := TryAppend(others[i], base, next, before + others[..i]);
        assert before + others[..i] + [others[i]] == before + others[..i + 1];
        i := i + 1;
      }
      assert others[..i] == others;
    }

    /** Others act, then the batch appends its item `i`. */
    method Round(b: Batch, i: nat, ghost base: Bytes, ghost next: int, ghost done: seq<Attempt>)
      returns (stored: Telemetry, err: bool)
      requires i < |b.items| && b.OthersAreOthers() && After(store, base, next, done)
      modifies store, store.telemetry
      ensures After(store, base, next, done + b.others(i) + [b.Own(i)])
      ensures err <==> b.outcome(i) != TL.Written
      ensures OwnLogged(next, done + b.others(i) + [b.Own(i)]) == OwnLogged(next, done) + (if err then [] else [stored])
    {
      hide After, Logged, OwnLogged, TL.Stamp;
      Interfere(b.others(i), base, next, done);
      stored, err := TryAppend(b.Own(i), base, next, done + b.others(i));
      OwnRound(b, next, done, i);
    }

    /** `rounds` of the batch's appends were attempted: all of them, or up to the first that
        failed. A successful batch returns its records as they are in the log. */
    method CreateBatch(b: Batch) returns (out: seq<Telemetry>, err: bool, ghost rounds: nat)
      requires b.OthersAreOthers()
      modifies store, store.telemetry
      ensures rounds <= |b.items|
      ensures After(store, TL.Contents(old(store.telemetry.file)), old(store.nextTelemetryId), b.Schedule(rounds))
      ensures err ==> out == [] && 0 < rounds && b.outcome(rounds - 1) != TL.Written
      ensures forall j :: 0 <= j < (if err then rounds - 1 else rounds) ==> b.outcome(j) == TL.Written
      ensures !err ==> rounds == |b.items| && out == OwnLogged(old(store.nextTelemetryId), b.Schedule(rounds))
      ensures !err ==>
                |out| == |b.items|
                && forall j :: 0 <= j < |out| ==> TL.StoredAs(out[j], b.items[j], out[j].id, b.clock(j))
    {
      hide *;
      ghost var base, next := TL.Contents(store.telemetry.file), store.nextTelemetryId;
      BatchStarts(b, store);
      out, rounds := [], 0;
      var i := 0;
      while i < |b.items|
        invariant i == rounds <= |b.items|
        invariant After(store, base, next, b.Schedule(i))
        invariant forall j :: 0 <= j < i ==> b.outcome(j) == TL.Written
        invariant out == OwnLogged(next, b.Schedule(i))
      {
        var stored, failed := Round(b, i, base, next, b.Schedule(i));
        ScheduleStep(b, i);
        rounds := i + 1;
        if failed {
          return [], true, rounds;
        }
        out := out + [stored];
        i := i + 1;
      }
      ghost var at := BatchAsGiven(b, next, rounds);
      StoredIds(b, out, next, at);
      return out, false, rounds;
    }
  }
}
