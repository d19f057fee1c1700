/** The telemetry log: one encoded record per line, appended for ever, read back through a
    bounded window from which the id counter is rebuilt. */
module TelemetryLog {
  import opened Seqs
  import opened Domain

  const MAX_TELEMETRY := 500
  const MAX_LINE: nat := 1_048_576
  const NEWLINE: Byte := 10
  const RETURN: Byte := 13

  /** JSON encoding of one record. An encoding is one non-empty line, and decodes to the
      record. How long a line gets depends on the record. */
  datatype RecordCodec = RecordCodec(encode: Telemetry -> Bytes, decode: Bytes -> Result<Telemetry>) {
    ghost predicate Lawful() {
      forall t :: IsLine(encode(t)) && decode(encode(t)) == Ok(t)
    }

    predicate Fits(t: Telemetry) {
      |encode(t)| < 1_048_576
    }

    predicate AllFit(records: seq<Telemetry>) {
      forall i :: 0 <= i < |records| ==> Fits(records[i])
    }
  }

  predicate IsLine(b: Bytes) {
    b != [] && NEWLINE !in b && b[|b| - 1] != RETURN
  }

  // ---- Lines ----

  /** Where the first newline is, or the length when there is none. */
  function LineEnd(b: Bytes): (n: nat)
    ensures n <= |b|
    ensures forall i :: 0 <= i < n ==> b[i] != NEWLINE
    ensures n < |b| ==> b[n] == NEWLINE
  {
    if b == [] || b[0] == NEWLINE then 0 else 1 + LineEnd(b[1..])
  }

  function WithoutReturn(line: Bytes): Bytes {
    if line != [] && line[|line| - 1] == RETURN then line[..|line| - 1] else line
  }

  function AfterLine(b: Bytes): (rest: Bytes)
    ensures b != [] ==> |rest| < |b|
  {
    var n := LineEnd(b);
    if n < |b| then b[n + 1..] else []
  }

  /** All records of a log, or an error at the first line that is too long or does not
      decode. Empty lines are skipped. */
  function Parse(codec: RecordCodec, b: Bytes): Result<seq<Telemetry>>
    decreases |b|
  {
    if b == [] then Ok([])
    else if MAX_LINE <= LineEnd(b) then Err
    else
      var line := WithoutReturn(b[..LineEnd(b)]);
      if line == [] then Parse(codec, AfterLine(b))
      else match codec.decode(line)
        case Err => Err
        case Ok(item) => Prepend([item], Parse(codec, AfterLine(b)))
  }

  function Prepend(items: seq<Telemetry>, r: Result<seq<Telemetry>>): Result<seq<Telemetry>> {
    match r
    case Err => Err
    case Ok(rest) => Ok(items + rest)
  }

  /** One line of a scan that has read `done` so far. */
  lemma ScanLine(codec: RecordCodec, done: seq<Telemetry>, b: Bytes)
    requires b != []
    ensures var r := Prepend(done, Parse(codec, b));
      if MAX_LINE <= LineEnd(b) then r == Err
      else
        var line := WithoutReturn(b[..LineEnd(b)]);
        if line == [] then r == Prepend(done, Parse(codec, AfterLine(b)))
        else if codec.decode(line).Err? then r == Err
        else r == Prepend(done + [codec.decode(line).value], Parse(codec, AfterLine(b)))
  {
    var rest := Parse(codec, AfterLine(b));
    var line := WithoutReturn(b[..LineEnd(b)]);
    if LineEnd(b) < MAX_LINE && line != [] && codec.decode(line).Ok? && rest.Ok? {
      var t := codec.decode(line).value;
      assert done + ([t] + rest.value) == done + [t] + rest.value;
    }
  }

  lemma ScanEnds(codec: RecordCodec, done: seq<Telemetry>, b: Bytes)
    ensures Prepend(done, Parse(codec, [])) == Ok(done)
    ensures Prepend([], Parse(codec, b)) == Parse(codec, b)
  {
    assert done + [] == done;
    var r := Parse(codec, b);
    if r.Ok? {
      assert [] + r.value == r.value;
    }
  }

  /** Reading the log: an absent file is an empty log. */
  function LoadRecent(codec: RecordCodec, file: Option<Bytes>, readable: bool, limit: int)
    : Result<seq<Telemetry>>
  {
    if file == None then Ok([])
    else if !readable then Err
    else match Parse(codec, file.value)
      case Err => Err
      case Ok(items) => Ok(Recent(limit, items))
  }

  function Line(codec: RecordCodec, t: Telemetry): Bytes {
    codec.encode(t) + [NEWLINE]
  }

  /** The bytes of a log holding these records. */
  function Frame(codec: RecordCodec, records: seq<Telemetry>): Bytes {
    if records == [] then [] else Line(codec, records[0]) + Frame(codec, records[1..])
  }

  lemma {:induction false} FrameSnoc(codec: RecordCodec, records: seq<Telemetry>, t: Telemetry)
    ensures Frame(codec, records + [t]) == Frame(codec, records) + Line(codec, t)
  {
    if records == [] {
      assert [t][1..] == [];
    } else {
      assert (records + [t])[1..] == records[1..] + [t];
      FrameSnoc(codec, records[1..], t);
      assert Line(codec, records[0]) + (Frame(codec, records[1..]) + Line(codec, t))
          == Line(codec, records[0]) + Frame(codec, records[1..]) + Line(codec, t);
    }
  }

  lemma FirstLine(codec: RecordCodec, t: Telemetry, rest: Bytes)
    requires codec.Lawful()
    ensures var b := Line(codec, t) + rest;
      && b != []
      && LineEnd(b) == |codec.encode(t)|
      && WithoutReturn(b[..LineEnd(b)]) == codec.encode(t)
      && AfterLine(b) == rest
  {
    var line := codec.encode(t);
    var b := Line(codec, t) + rest;
    assert IsLine(line);
    assert b[|line|] == NEWLINE;
    assert forall i :: 0 <= i < |line| ==> b[i] == line[i];
    assert b[..|line|] == line;
    assert b[|line| + 1..] == rest;
  }

  /** Framing and reading back: a log of appended records parses to exactly those records,
      provided every line is short enough for the scanner, and to an error otherwise. */
  lemma {:induction false} ParseOfFrame(codec: RecordCodec, records: seq<Telemetry>)
    requires codec.Lawful()
    ensures Parse(codec, Frame(codec, records)) == if codec.AllFit(records) then Ok(records) else Err
  {
    if records != [] {
      var rest := records[1..];
      FirstLine(codec, records[0], Frame(codec, rest));
      ParseOfFrame(codec, rest);
      assert codec.AllFit(records) <==> codec.Fits(records[0]) && codec.AllFit(rest) by {
        assert forall i :: 0 <= i < |rest| ==> rest[i] == records[i + 1];
      }
      if codec.Fits(records[0]) {
        assert codec.decode(codec.encode(records[0])) == Ok(records[0]);
        assert records == [records[0]] + rest;
      }
    }
  }

  // ---- Any text file, not only one the log wrote ----

  /** A line of a file: blank, a record, or anything else that does not decode; each may end
      in a carriage return. */
  datatype Piece = Blank(cr: bool) | Record(t: Telemetry, cr: bool) | Garbage(bytes: Bytes, cr: bool)

  ghost predicate IsPiece(codec: RecordCodec, p: Piece) {
    p.Garbage? ==> IsLine(p.bytes) && codec.decode(p.bytes).Err?
  }

  function Body(codec: RecordCodec, p: Piece): Bytes {
    (match p
     case Blank(_) => []
     case Record(t, _) => codec.encode(t)
     case Garbage(bytes, _) => bytes)
    + (if p.cr then [RETURN] else [])
  }

  /** A file with these lines, whose last one ends in a newline or at the end of the file. */
  function TextOf(codec: RecordCodec, pieces: seq<Piece>, ended: bool): Bytes {
    if pieces == [] then []
    else if |pieces| == 1 && !ended then Body(codec, pieces[0])
    else Body(codec, pieces[0]) + [NEWLINE] + TextOf(codec, pieces[1..], ended)
  }

  predicate Readable(codec: RecordCodec, p: Piece) {
    !p.Garbage? && |Body(codec, p)| < 1_048_576
  }

  function RecordsOf(pieces: seq<Piece>): seq<Telemetry> {
    if pieces == [] then []
    else (if pieces[0].Record? then [pieces[0].t] else []) + RecordsOf(pieces[1..])
  }

  /** The first line of a file whose first line has this body. */
  lemma LineWithBody(body: Bytes, rest: Bytes, ended: bool)
    requires NEWLINE !in body && (ended || rest == [])
    ensures var b := body + (if ended then [NEWLINE] + rest else []);
      LineEnd(b) == |body| && b[..LineEnd(b)] == body && AfterLine(b) == rest
  {
    var b := body + (if ended then [NEWLINE] + rest else []);
    assert forall i :: 0 <= i < |body| ==> b[i] == body[i] && body[i] in body;
    if ended {
      assert b[|body|] == NEWLINE && b[|body| + 1..] == rest;
    }
  }

  lemma BodyOfPiece(codec: RecordCodec, p: Piece)
    requires codec.Lawful() && IsPiece(codec, p)
    ensures var body := Body(codec, p);
      && NEWLINE !in body
      && match p
         case Blank(_) => WithoutReturn(body) == []
         case Record(t, _) => WithoutReturn(body) == codec.encode(t) != []
         case Garbage(bytes, _) => WithoutReturn(body) == bytes != []
  {
    assert p.Record? ==> IsLine(codec.encode(p.t));
    var body := Body(codec, p);
    if p.cr {
      assert body[..|body| - 1] == Body(codec, p.(cr := false)) + [];
    }
  }

  /** One line of such a file. */
  lemma ParsePiece(codec: RecordCodec, p: Piece, rest: Bytes, ended: bool)
    requires codec.Lawful() && IsPiece(codec, p) && (ended || rest == [])
    ensures Parse(codec, Body(codec, p) + (if ended then [NEWLINE] + rest else []))
         == if Readable(codec, p) then Prepend(if p.Record? then [p.t] else [], Parse(codec, rest)) else Err
  {
    BodyOfPiece(codec, p);
    LineWithBody(Body(codec, p), rest, ended);
    assert p.Record? ==> codec.decode(codec.encode(p.t)) == Ok(p.t);
    hide LineEnd, WithoutReturn, AfterLine, Body, RecordCodec.Lawful, IsPiece;
    var b := Body(codec, p) + (if ended then [NEWLINE] + rest else []);
    ScanEnds(codec, [], rest);
    if b == [] {
      assert !ended && p.Blank?;
    }
  }

  /** Reading any file: its records in order - blank lines, carriage returns and a missing
      last newline do not matter - unless some line is too long or does not decode. */
  lemma {:induction false} ParseOfText(codec: RecordCodec, pieces: seq<Piece>, ended: bool)
    requires codec.Lawful() && forall i :: 0 <= i < |pieces| ==> IsPiece(codec, pieces[i])
    ensures Parse(codec, TextOf(codec, pieces, ended))
         == if forall i :: 0 <= i < |pieces| ==> Readable(codec, pieces[i]) then Ok(RecordsOf(pieces)) else Err
  {
    hide Parse, Readable, IsPiece, Body;
    if pieces != [] {
      var rest := pieces[1..];
      assert forall i :: 0 <= i < |rest| ==> rest[i] == pieces[i + 1];
      ParseOfText(codec, rest, ended);
      AllOfFirst(codec, pieces);
      FirstOfText(codec, pieces, ended);
    } else {
      ScanEnds(codec, [], []);
    }
  }

  lemma FirstOfText(codec: RecordCodec, pieces: seq<Piece>, ended: bool)
    requires codec.Lawful() && pieces != [] && IsPiece(codec, pieces[0])
    ensures Parse(codec, TextOf(codec, pieces, ended))
         == if Readable(codec, pieces[0])
            then Prepend(if pieces[0].Record? then [pieces[0].t] else [],
                         Parse(codec, TextOf(codec, pieces[1..], ended)))
            else Err
  {
    hide Parse, Readable, IsPiece, Body;
    var last := |pieces| == 1 && !ended;
    var rest := TextOf(codec, pieces[1..], ended);
    ParsePiece(codec, pieces[0], if last then [] else rest, !last);
    assert Body(codec, pieces[0]) + (if last then [] else [NEWLINE] + rest) == TextOf(codec, pieces, ended);
  }

  lemma AllOfFirst(codec: RecordCodec, pieces: seq<Piece>)
    requires pieces != []
    ensures (forall i :: 0 <= i < |pieces| ==> Readable(codec, pieces[i]))
       <==> Readable(codec, pieces[0]) && forall i :: 0 <= i < |pieces| - 1 ==> Readable(codec, pieces[1..][i])
  {
    hide Readable;
    assert forall i :: 1 <= i < |pieces| ==> pieces[i] == pieces[1..][i - 1];
  }

  // ---- The id counter ----

  function Ids(records: seq<Telemetry>): seq<int> {
    seq(|records|, i requires 0 <= i < |records| => records[i].id)
  }

  /** The counter rebuilt from a bounded window equals the one rebuilt from the whole log,
      as long as ids ascend. */
  lemma WindowCounter(records: seq<Telemetry>, limit: int)
    requires forall i, j :: 0 <= i < j < |records| ==> records[i].id < records[j].id
    ensures NextAfter(Ids(Recent(limit, records))) == NextAfter(Ids(records))
  {
    var window := Recent(limit, records);
    var all, some := Ids(records), Ids(window);
    if records != [] {
      var n := |records| - 1;
      assert all[n] == records[n].id == some[|window| - 1];
      assert forall k :: 0 <= k < |all| ==> all[k] <= all[n];
      assert forall k :: 0 <= k < |some| ==> some[k] <= all[n];
    }
  }

  // ---- Runs of the log, with failed appends and restarts ----

  /** How far an append gets: the file is not opened, opened (and created) but not written,
      or one whole line is written. */
  datatype AppendOutcome = NotOpened | NothingWritten | Written

  datatype Event =
    | Add(item: Telemetry, now: Time, outcome: AppendOutcome)
    | Restart(readable: bool)

  /** The log file and the counter; the counter is absent when the store could not open. */
  datatype Config = Config(file: Option<Bytes>, next: Option<int>)

  /** A record as stored: server id and time, and defaults for what the report left out. */
  function Stamp(item: Telemetry, id: int, now: Time): Telemetry {
    item.(id := id,
          receivedAt := now,
          reportTimestamp := if item.reportTimestamp == 0 then now else item.reportTimestamp,
          app := if item.app == None then Some(map[]) else item.app)
  }

  function Contents(file: Option<Bytes>): Bytes {
    if file.Some? then file.value else []
  }

  function AppendTo(codec: RecordCodec, file: Option<Bytes>, t: Telemetry, outcome: AppendOutcome): Option<Bytes> {
    match outcome
    case NotOpened => file
    case NothingWritten => Some(Contents(file))
    case Written => Some(Contents(file) + Line(codec, t))
  }

  function Next(codec: RecordCodec, c: Config, e: Event): Config {
    match e
    case Add(item, now, outcome) =>
      if c.next == None then c
      else Config(AppendTo(codec, c.file, Stamp(item, c.next.value, now), outcome),
                  if outcome == Written then Some(c.next.value + 1) else c.next)
    case Restart(readable) =>
      (match LoadRecent(codec, c.file, readable, MAX_TELEMETRY)
       case Ok(items) => c.(next := Some(NextAfter(Ids(items))))
       case Err => c.(next := None))
  }

  /** The log after these events, one after another. */
  function NextAll(codec: RecordCodec, c: Config, events: seq<Event>): Config {
    if events == [] then c
    else Next(codec, NextAll(codec, c, events[..|events| - 1]), events[|events| - 1])
  }

  function Run(codec: RecordCodec, events: seq<Event>, n: nat): Config
    requires n <= |events|
  {
    if n == 0 then Config(None, None) else Next(codec, Run(codec, events, n - 1), events[n - 1])
  }

  /** The records whose append succeeded, in order, as they were returned. */
  function Appended(codec: RecordCodec, events: seq<Event>, n: nat): seq<Telemetry>
    requires n <= |events|
  {
    if n == 0 then []
    else
      var before := Appended(codec, events, n - 1);
      var c := Run(codec, events, n - 1);
      if events[n - 1].Add? && events[n - 1].outcome == Written && c.next.Some?
      then before + [Stamp(events[n - 1].item, c.next.value, events[n - 1].now)]
      else before
  }

  /** A record as the store keeps it for a report: nothing reported is changed, and what the
      report left out is filled in. */
  predicate StoredAs(r: Telemetry, item: Telemetry, id: int, now: Time) {
    && r.deviceId == item.deviceId && r.report == item.report
    && r.id == id && r.receivedAt == now
    && (item.reportTimestamp != 0 ==> r.reportTimestamp == item.reportTimestamp)
    && (item.reportTimestamp == 0 ==> r.reportTimestamp == now)
    && (item.app.Some? ==> r.app == item.app)
    && (item.app == None ==> r.app == Some(map[]))
  }

  lemma StampStores(item: Telemetry, id: int, now: Time)
    ensures StoredAs(Stamp(item, id, now), item, id, now)
  {
  }

  /** The additions that were written, in order. */
  function Additions(codec: RecordCodec, events: seq<Event>, n: nat): seq<Event>
    requires n <= |events|
  {
    if n == 0 then []
    else
      var before := Additions(codec, events, n - 1);
      var e := events[n - 1];
      if e.Add? && e.outcome == Written && Run(codec, events, n - 1).next.Some? then before + [e] else before
  }

  /** Record for record what was given, numbered from `first`. */
  ghost predicate StoredInOrder(records: seq<Telemetry>, adds: seq<Event>, first: int) {
    |records| == |adds|
    && forall i :: 0 <= i < |records| ==> adds[i].Add? && StoredAs(records[i], adds[i].item, first + i, adds[i].now)
  }

  /** The file frames exactly these records, numbered from 1 without gaps, and the counter
      follows the last one. */
  ghost predicate Holds(codec: RecordCodec, c: Config, records: seq<Telemetry>) {
    && Contents(c.file) == Frame(codec, records)
    && (forall i :: 0 <= i < |records| ==> records[i].id == i + 1)
    && (c.next.Some? ==> c.next.value == |records| + 1)
  }

  lemma RestartRebuilds(codec: RecordCodec, c: Config, records: seq<Telemetry>, readable: bool)
    requires codec.Lawful() && Holds(codec, c, records)
    ensures Holds(codec, Next(codec, c, Restart(readable)), records)
  {
    ParseOfFrame(codec, records);
    CounterOfRun(records, MAX_TELEMETRY);
  }

  lemma CounterOfRun(records: seq<Telemetry>, limit: int)
    requires forall i :: 0 <= i < |records| ==> records[i].id == i + 1
    ensures NextAfter(Ids(Recent(limit, records))) == |records| + 1
  {
    WindowCounter(records, limit);
    var all := Ids(records);
    if records != [] {
      assert all[|all| - 1] == |records|;
    }
  }

  /** In every run with failed appends and restarts, the file holds exactly the records
      returned as stored; they are the reports whose append was written, in order, as they
      were given, and their ids are 1, 2, 3, ... */
  lemma {:induction false} LogHoldsAppended(codec: RecordCodec, events: seq<Event>, n: nat)
    requires codec.Lawful() && n <= |events|
    ensures Holds(codec, Run(codec, events, n), Appended(codec, events, n))
    ensures StoredInOrder(Appended(codec, events, n), Additions(codec, events, n), 1)
  {
    if n != 0 {
      LogHoldsAppended(codec, events, n - 1);
      var c, records := Run(codec, events, n - 1), Appended(codec, events, n - 1);
      match events[n - 1]
      case Add(item, now, outcome) =>
        if c.next.Some? {
          FrameSnoc(codec, records, Stamp(item, c.next.value, now));
          StampStores(item, c.next.value, now);
        }
      case Restart(readable) => RestartRebuilds(codec, c, records, readable);
    }
  }

  /** Reading with any limit after any run returns the last `limit` records appended (all of
      them without a limit) exactly when every line fits the scanner; a single longer line
      makes every later read, and so every later restart, fail. */
  lemma ReadAfterRun(codec: RecordCodec, events: seq<Event>, limit: int)
    requires codec.Lawful()
    ensures var c, records := Run(codec, events, |events|), Appended(codec, events, |events|);
      && LoadRecent(codec, c.file, true, limit)
           == (if codec.AllFit(records) then Ok(Recent(limit, records)) else Err)
      && (Next(codec, c, Restart(true)).next.Some? <==> codec.AllFit(records))
  {
    LogHoldsAppended(codec, events, |events|);
    ParseOfFrame(codec, Appended(codec, events, |events|));
  }

  /** What such a read returns, record for record: the last `limit` reports written, each with
      its place in the whole log as id. */
  lemma ReadsWhatWasGiven(codec: RecordCodec, events: seq<Event>, limit: int)
    requires codec.Lawful() && codec.AllFit(Appended(codec, events, |events|))
    ensures var adds := Additions(codec, events, |events|);
      var last := Recent(limit, adds);
      var read := LoadRecent(codec, Run(codec, events, |events|).file, true, limit);
      read.Ok? && StoredInOrder(read.value, last, |adds| - |last| + 1)
  {
    hide *;
    ReadAfterRun(codec, events, limit);
    LogHoldsAppended(codec, events, |events|);
    LastStored(Appended(codec, events, |events|), Additions(codec, events, |events|), limit);
  }

  lemma LastStored(records: seq<Telemetry>, adds: seq<Event>, limit: int)
    requires StoredInOrder(records, adds, 1)
    ensures var last := Recent(limit, adds);
      StoredInOrder(Recent(limit, records), last, |adds| - |last| + 1)
  {
    hide StoredAs;
    if 0 < limit < |adds| {
      var from := |adds| - limit;
      forall k | 0 <= k < limit
        ensures adds[from..][k].Add?
        ensures StoredAs(records[from..][k], adds[from..][k].item, from + 1 + k, adds[from..][k].now)
      {
        assert records[from..][k] == records[from + k] && adds[from..][k] == adds[from + k];
      }
    }
  }
}
