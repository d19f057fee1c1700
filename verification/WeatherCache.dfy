/** The weather cache. A caller reads the clock, then takes the lock and is served; between
    the two, any number of other callers may be served. */
module WeatherCache {
  import opened Seqs
  import opened Domain

  const DEFAULT_TTL: Time := 600_000_000_000

  /** `expiresAt` 0 is Go's zero time: nothing cached yet. */
  datatype Entry = Entry(value: Weather, expiresAt: Time)

  datatype Reply = Hit(value: Weather) | Refreshed(value: Weather) | Failed

  const EMPTY := Entry(Weather("", "", 0), 0)

  /** One critical section, for a caller whose clock read `now`; `fetched` is what the
      provider answers if it is asked. */
  function Serve(ttl: Time, entry: Entry, now: Time, fetched: Result<Weather>): (Entry, Reply) {
    if entry.expiresAt != 0 && now < entry.expiresAt then (entry, Hit(entry.value))
    else match fetched
      case Err => (entry, Failed)
      case Ok(value) => (Entry(value, now + ttl), Refreshed(value))
  }

  class Cache {
    const ttl: Time
    var value: Weather
    var expiresAt: Time

    function State(): Entry
      reads this
    {
      Entry(value, expiresAt)
    }

    constructor (ttl: Time)
      ensures this.ttl == if ttl <= 0 then DEFAULT_TTL else ttl
      ensures 0 < this.ttl && State() == EMPTY && expiresAt == 0
      ensures ttl <= 0 ==> this.ttl == 600_000_000_000
    {
      this.ttl := if ttl <= 0 then DEFAULT_TTL else ttl;
      value := EMPTY.value;
      expiresAt := 0;
    }

    method Current(now: Time, fetched: Result<Weather>) returns (r: Result<Weather>)
      modifies this
      ensures State() == Serve(ttl, old(State()), now, fetched).0
      ensures match Serve(ttl, old(State()), now, fetched).1
              case Hit(v) => r == Ok(v) && State() == old(State())
              case Refreshed(v) => r == Ok(v) && r == fetched
              case Failed => r == Err && State() == old(State())
      ensures old(expiresAt) != 0 && now < old(expiresAt) ==> r == Ok(old(value)) && State() == old(State())
      ensures old(expiresAt) == 0 || old(expiresAt) <= now ==>
                && r == fetched
                && (r.Ok? ==> value == r.value && expiresAt == now + ttl)
                && (r.Err? ==> State() == old(State()))
    {
      if expiresAt != 0 && now < expiresAt {
        return Ok(value);
      }
      if fetched == Err {
        return Err;
      }
      value := fetched.value;
      expiresAt := now + ttl;
      return fetched;
    }
  }

  // ---- Interleavings ----

  /** Callers are named; each reads the clock and later enters the critical section. */
  datatype Event =
    | ReadClock(caller: nat, now: Time)
    | Enter(caller: nat, fetched: Result<Weather>)

  datatype Config = Config(entry: Entry, waiting: map<nat, Time>)

  function Next(ttl: Time, c: Config, e: Event): Config {
    match e
    case ReadClock(caller, now) => c.(waiting := c.waiting[caller := now])
    case Enter(caller, fetched) =>
      if caller in c.waiting
      then Config(Serve(ttl, c.entry, c.waiting[caller], fetched).0, c.waiting - {caller})
      else c
  }

  function Run(ttl: Time, events: seq<Event>, n: nat): Config
    requires n <= |events|
  {
    if n == 0 then Config(EMPTY, map[]) else Next(ttl, Run(ttl, events, n - 1), events[n - 1])
  }

  /** What the `n`-th event is answered, if it serves a caller. */
  function ReplyTo(ttl: Time, events: seq<Event>, n: nat): Option<Reply>
    requires n < |events|
  {
    var c := Run(ttl, events, n);
    match events[n]
    case ReadClock(_, _) => None
    case Enter(caller, fetched) =>
      if caller in c.waiting then Some(Serve(ttl, c.entry, c.waiting[caller], fetched).1) else None
  }

  /** The reading with which a caller would enter now: its latest, unless it has entered since. */
  function ReadingOf(events: seq<Event>, n: nat, caller: nat): Option<Time>
    requires n <= |events|
  {
    if n == 0 then None
    else
      match events[n - 1]
      case ReadClock(c, now) => if c == caller then Some(now) else ReadingOf(events, n - 1, caller)
      case Enter(c, _) => if c == caller then None else ReadingOf(events, n - 1, caller)
  }

  lemma {:induction false} WaitingIsReading(ttl: Time, events: seq<Event>, n: nat, caller: nat)
    requires n <= |events|
    ensures var waiting := Run(ttl, events, n).waiting;
      ReadingOf(events, n, caller) == if caller in waiting then Some(waiting[caller]) else None
  {
    if n != 0 {
      WaitingIsReading(ttl, events, n - 1, caller);
    }
  }

  /** A refresh: the clock reading of the caller that made it, and the value fetched. */
  datatype Refresh = Refresh(stamp: Time, value: Weather)

  function Refreshes(ttl: Time, events: seq<Event>, n: nat): seq<Refresh>
    requires n <= |events|
  {
    if n == 0 then []
    else
      var before := Refreshes(ttl, events, n - 1);
      match ReplyTo(ttl, events, n - 1)
      case Some(Refreshed(v)) => before + [Refresh(Run(ttl, events, n - 1).waiting[events[n - 1].caller], v)]
      case _ => before
  }

  /** `j - i` refreshes after refresh `i`, at least `j - i` lifetimes have passed. */
  ghost predicate Spaced(ttl: Time, refreshes: seq<Refresh>) {
    forall i, j :: 0 <= i <= j < |refreshes| ==>
      refreshes[i].stamp + (j - i) * ttl <= refreshes[j].stamp
  }

  function Last(refreshes: seq<Refresh>): Refresh
    requires refreshes != []
  {
    refreshes[|refreshes| - 1]
  }

  /** The refresh does not expire on the zero time, which would look like an empty cache. */
  predicate Visible(ttl: Time, r: Refresh) {
    r.stamp + ttl != 0
  }

  ghost predicate EarlierVisible(ttl: Time, refreshes: seq<Refresh>) {
    forall i :: 0 <= i < |refreshes| - 1 ==> Visible(ttl, refreshes[i])
  }

  lemma EarlierOf(ttl: Time, refreshes: seq<Refresh>, r: Refresh)
    requires EarlierVisible(ttl, refreshes + [r])
    ensures EarlierVisible(ttl, refreshes)
    ensures refreshes != [] ==> Visible(ttl, Last(refreshes))
  {
    var all := refreshes + [r];
    forall i | 0 <= i < |refreshes|
      ensures Visible(ttl, refreshes[i])
    {
      assert Visible(ttl, all[i]);
    }
  }

  /** The cache holds the latest refresh. */
  predicate HoldsLast(ttl: Time, entry: Entry, refreshes: seq<Refresh>) {
    if refreshes == [] then entry.expiresAt == 0
    else entry == Entry(Last(refreshes).value, Last(refreshes).stamp + ttl)
  }

  lemma SpacedSnoc(ttl: Time, refreshes: seq<Refresh>, r: Refresh)
    requires Spaced(ttl, refreshes)
    requires refreshes != [] ==> refreshes[|refreshes| - 1].stamp + ttl <= r.stamp
    ensures Spaced(ttl, refreshes + [r])
  {
    var all := refreshes + [r];
    var n := |refreshes|;
    forall i, j | 0 <= i <= j < |all|
      ensures all[i].stamp + (j - i) * ttl <= all[j].stamp
    {
      if i < j == n {
        assert refreshes[i].stamp + (n - 1 - i) * ttl <= refreshes[n - 1].stamp;
        assert (n - i) * ttl == (n - 1 - i) * ttl + ttl;
      }
    }
  }

  /** Under every interleaving and all clock readings, the cache holds the latest refresh. */
  lemma {:induction false} EntryIsLatest(ttl: Time, events: seq<Event>, n: nat)
    requires n <= |events|
    ensures HoldsLast(ttl, Run(ttl, events, n).entry, Refreshes(ttl, events, n))
  {
    if n != 0 {
      EntryIsLatest(ttl, events, n - 1);
    }
  }

  /** A refresh comes a lifetime after the latest one, unless that one expired on the zero
      time. */
  lemma NextRefresh(ttl: Time, events: seq<Event>, n: nat)
    requires n < |events| && ReplyTo(ttl, events, n).Some? && ReplyTo(ttl, events, n).value.Refreshed?
    ensures var before, after := Refreshes(ttl, events, n), Refreshes(ttl, events, n + 1);
      && after == before + [Refresh(Run(ttl, events, n).waiting[events[n].caller], ReplyTo(ttl, events, n).value.value)]
      && (before != [] && Visible(ttl, Last(before)) ==> Last(before).stamp + ttl <= Last(after).stamp)
  {
    EntryIsLatest(ttl, events, n);
  }

  /** Under every interleaving and all clock readings, refreshes are at least one lifetime
      apart as long as none but the latest of them expired on the zero time. */
  lemma {:induction false} RefreshesAreSpaced(ttl: Time, events: seq<Event>, n: nat)
    requires 0 < ttl && n <= |events|
    requires EarlierVisible(ttl, Refreshes(ttl, events, n))
    ensures Spaced(ttl, Refreshes(ttl, events, n))
  {
    if n != 0 {
      var before, after := Refreshes(ttl, events, n - 1), Refreshes(ttl, events, n);
      match ReplyTo(ttl, events, n - 1)
      case Some(Refreshed(v)) =>
        NextRefresh(ttl, events, n - 1);
        EarlierOf(ttl, before, Last(after));
        RefreshesAreSpaced(ttl, events, n - 1);
        SpacedSnoc(ttl, before, Last(after));
      case _ =>
        RefreshesAreSpaced(ttl, events, n - 1);
    }
  }

  lemma {:induction false} SamePrefix(ttl: Time, a: seq<Event>, b: seq<Event>, n: nat)
    requires n <= |a| && n <= |b| && a[..n] == b[..n]
    ensures Run(ttl, a, n) == Run(ttl, b, n)
    ensures Refreshes(ttl, a, n) == Refreshes(ttl, b, n)
  {
    if n != 0 {
      assert a[..n - 1] == a[..n][..n - 1] && b[..n - 1] == b[..n][..n - 1];
      assert a[n - 1] == a[..n][n - 1] && b[n - 1] == b[..n][n - 1];
      SamePrefix(ttl, a, b, n - 1);
    }
  }

  /** One more caller reads the clock and is served at once. */
  function OneMore(events: seq<Event>, caller: nat, now: Time, fetched: Result<Weather>): seq<Event> {
    events + [ReadClock(caller, now), Enter(caller, fetched)]
  }

  lemma OneMoreServed(ttl: Time, events: seq<Event>, caller: nat, now: Time, fetched: Result<Weather>)
    ensures var n, more := |events|, OneMore(events, caller, now, fetched);
      var reply := Serve(ttl, Run(ttl, events, n).entry, now, fetched).1;
      Refreshes(ttl, more, n + 2)
        == Refreshes(ttl, events, n) + (if reply.Refreshed? then [Refresh(now, reply.value)] else [])
  {
    var n, more := |events|, OneMore(events, caller, now, fetched);
    SamePrefix(ttl, more, events, n);
    assert Run(ttl, more, n + 1) == Next(ttl, Run(ttl, events, n), ReadClock(caller, now));
    assert Refreshes(ttl, more, n + 1) == Refreshes(ttl, events, n);
    assert ReplyTo(ttl, more, n + 1) == Some(Serve(ttl, Run(ttl, events, n).entry, now, fetched).1);
  }

  /** Where the bound fails: after a refresh that expired on the zero time, a caller whose
      clock still reads the same instant refreshes again. */
  lemma BoundFailsAtZero(ttl: Time, events: seq<Event>, caller: nat, w: Weather)
    requires 0 < ttl && Refreshes(ttl, events, |events|) != []
    requires !Visible(ttl, Last(Refreshes(ttl, events, |events|)))
    ensures var more := OneMore(events, caller, -ttl, Ok(w));
      !Spaced(ttl, Refreshes(ttl, more, |more|))
  {
    var n, more := |events|, OneMore(events, caller, -ttl, Ok(w));
    EntryIsLatest(ttl, events, n);
    OneMoreServed(ttl, events, caller, -ttl, Ok(w));
    var before, after := Refreshes(ttl, events, n), Refreshes(ttl, more, |more|);
    var k := |before| - 1;
    assert after[k].stamp == -ttl == after[k + 1].stamp;
    assert after[k].stamp + (k + 1 - k) * ttl > after[k + 1].stamp;
  }

  /** The exact condition, over runs: whatever one more caller reads and fetches, refreshes
      stay a lifetime apart exactly if the latest one did not expire on the zero time. */
  lemma SpacingContinues(ttl: Time, events: seq<Event>)
    requires 0 < ttl && Refreshes(ttl, events, |events|) != []
    requires Spaced(ttl, Refreshes(ttl, events, |events|))
    ensures StaysSpaced(ttl, events) <==> Visible(ttl, Last(Refreshes(ttl, events, |events|)))
  {
    var n := |events|;
    var before := Refreshes(ttl, events, n);
    EntryIsLatest(ttl, events, n);
    if Visible(ttl, Last(before)) {
      forall caller: nat, now, fetched
        ensures SpacedWith(ttl, events, caller, now, fetched)
      {
        OneMoreServed(ttl, events, caller, now, fetched);
        var reply := Serve(ttl, Run(ttl, events, n).entry, now, fetched).1;
        if reply.Refreshed? {
          SpacedSnoc(ttl, before, Refresh(now, reply.value));
        } else {
          assert before + [] == before;
        }
      }
    } else {
      BoundFailsAtZero(ttl, events, 0, EMPTY.value);
      assert !SpacedWith(ttl, events, 0, -ttl, Ok(EMPTY.value));
    }
  }

  ghost predicate StaysSpaced(ttl: Time, events: seq<Event>) {
    forall caller: nat, now: Time, fetched: Result<Weather> :: SpacedWith(ttl, events, caller, now, fetched)
  }

  ghost predicate SpacedWith(ttl: Time, events: seq<Event>, caller: nat, now: Time, fetched: Result<Weather>) {
    Spaced(ttl, Refreshes(ttl, OneMore(events, caller, now, fetched), |events| + 2))
  }

  /** The answer to a caller, exactly, under every interleaving: the latest refresh if the
      caller's reading is before that one's expiry, and the expiry is not the zero time; else
      what the provider gives, and an error only if the provider fails. */
  lemma AnswerIsExact(ttl: Time, events: seq<Event>, n: nat)
    requires n < |events| && events[n].Enter?
    ensures var reading, fetched := ReadingOf(events, n, events[n].caller), events[n].fetched;
      var before, after := Refreshes(ttl, events, n), Refreshes(ttl, events, n + 1);
      if reading == None then
        ReplyTo(ttl, events, n) == None && after == before
      else if before != [] && Visible(ttl, Last(before)) && reading.value < Last(before).stamp + ttl then
        ReplyTo(ttl, events, n) == Some(Hit(Last(before).value)) && after == before
      else if fetched.Ok? then
        && ReplyTo(ttl, events, n) == Some(Refreshed(fetched.value))
        && after == before + [Refresh(reading.value, fetched.value)]
      else
        ReplyTo(ttl, events, n) == Some(Failed) && after == before
  {
    WaitingIsReading(ttl, events, n, events[n].caller);
    EntryIsLatest(ttl, events, n);
  }

  /** Every hit returns the latest refresh, made less than a lifetime before the caller's
      clock reading; a failed fetch changes nothing. */
  lemma HitsAreFresh(ttl: Time, events: seq<Event>, n: nat)
    requires n < |events|
    ensures var refreshes := Refreshes(ttl, events, n);
      match ReplyTo(ttl, events, n)
      case Some(Hit(v)) =>
        && refreshes != []
        && v == Last(refreshes).value
        && Run(ttl, events, n).waiting[events[n].caller] < Last(refreshes).stamp + ttl
      case Some(Failed) => Run(ttl, events, n + 1).entry == Run(ttl, events, n).entry
      case _ => true
  {
    EntryIsLatest(ttl, events, n);
  }

  /** A refresh moves the expiry at least a lifetime on, unless the one it replaces was the
      zero time; nothing else moves it. */
  lemma ExpiryIncreases(ttl: Time, events: seq<Event>, n: nat)
    requires n < |events| && Refreshes(ttl, events, n) != []
    ensures var before, after := Run(ttl, events, n).entry.expiresAt, Run(ttl, events, n + 1).entry.expiresAt;
      if ReplyTo(ttl, events, n).Some? && ReplyTo(ttl, events, n).value.Refreshed?
      then Visible(ttl, Last(Refreshes(ttl, events, n))) ==> before + ttl <= after
      else before == after
  {
    EntryIsLatest(ttl, events, n);
  }

  /** A refresh is protected for its whole lifetime exactly when its expiry is not the zero
      time: the one stamp that is not protected is one lifetime before it. */
  lemma ProtectedUnlessZero(ttl: Time, stamp: Time, value: Weather)
    requires 0 < ttl
    ensures Protected(ttl, Entry(value, stamp + ttl)) <==> stamp + ttl != 0
  {
    if stamp + ttl == 0 {
      assert !Hits(ttl, Entry(value, stamp + ttl), -1, Err);
    }
  }

  /** Until it expires, the entry answers every caller without a fetch. */
  ghost predicate Protected(ttl: Time, entry: Entry) {
    forall now, fetched :: now < entry.expiresAt ==> Hits(ttl, entry, now, fetched)
  }

  predicate Hits(ttl: Time, entry: Entry, now: Time, fetched: Result<Weather>) {
    Serve(ttl, entry, now, fetched).1 == Hit(entry.value)
  }
}
