/** The telemetry log on disk, and the growable slice its records are read into. */
module LogFile {
  import opened Seqs
  import opened Domain
  import TL = TelemetryLog

  /** A slice: the first `len` elements of a backing array. */
  class Slice {
    var buf: array<Telemetry>
    var len: nat

    ghost predicate Valid()
      reads this
    {
      len <= buf.Length
    }

    ghost function Contents(): seq<Telemetry>
      requires Valid()
      reads this, buf
    {
      buf[..len]
    }

    constructor ()
      ensures Valid() && fresh(buf) && Contents() == []
    {
      buf := new Telemetry[0];
      len := 0;
    }

    method Append(t: Telemetry)
      requires Valid()
      modifies this, buf
      ensures Valid() && (buf == old(buf) || fresh(buf))
      ensures Contents() == old(Contents()) + [t]
    {
      if len == buf.Length {
        var bigger := new Telemetry[2 * len + 1];
        forall i | 0 <= i < len {
          bigger[i] := buf[i];
        }
        buf := bigger;
      }
      buf[len] := t;
      len := len + 1;
    }

    /** Moves the last `limit` elements to the front, in place, and cuts off the rest. */
    method KeepLast(limit: nat)
      requires Valid() && limit <= len
      modifies this, buf
      ensures Valid() && buf == old(buf)
      ensures Contents() == old(Contents())[old(len) - limit..]
    {
      ghost var was := Contents();
      var shift := len - limit;
      var i := 0;
      while i < limit
        invariant i <= limit
        invariant Valid() && buf == old(buf) && len == old(len)
        invariant buf[..i] == was[shift..shift + i]
        invariant buf[i..len] == was[i..]
      {
        assert buf[i + shift] == buf[i..len][shift] == was[i + shift];
        buf[i] := buf[i + shift];
        assert buf[i + 1..len] == was[i..][1..];
        i := i + 1;
      }
      len := limit;
    }

    /** Swaps from both ends inwards. */
    method Reverse()
      requires Valid()
      modifies buf
      ensures Valid() && Contents() == Seqs.Reverse(old(Contents()))
    {
      hide Seqs.Reverse;
      var i, j := 0, len - 1;
      while i < j
        invariant 0 <= i <= j + 1 <= len && i + j == len - 1
        invariant Valid() && buf == old(buf) && len == old(len)
        invariant forall k :: 0 <= k < i || j < k < len ==> buf[k] == old(buf[len - 1 - k])
        invariant forall k :: i <= k <= j ==> buf[k] == old(buf[k])
      {
        buf[i], buf[j] := buf[j], buf[i];
        i, j := i + 1, j - 1;
      }
      ReverseAt(old(Contents()));
    }
  }

  class TelemetryFile {
    const codec: TL.RecordCodec
    var file: Option<Bytes>

    constructor (codec: TL.RecordCodec, file: Option<Bytes>)
      ensures this.codec == codec && this.file == file
    {
      this.codec := codec;
      this.file := file;
    }

    /** Scans the log line by line, keeping the last `limit` records in a window. */
    method LoadRecent(readable: bool, limit: int) returns (items: Slice, err: bool)
      ensures fresh(items) && fresh(items.buf) && items.Valid()
      ensures match TL.LoadRecent(codec, file, readable, limit)
              case Ok(records) => !err && items.Contents() == records
              case Err => err && items.Contents() == []
    {
      hide TL.Parse, TL.Prepend, TL.LineEnd, TL.WithoutReturn;
      items := new Slice();
      if file == None {
        return items, false;
      }
      if !readable {
        return items, true;
      }
      var rest := file.value;
      ghost var done := [];
      TL.ScanEnds(codec, done, rest);
      while rest != []
        invariant fresh(items) && fresh(items.buf) && items.Valid()
        invariant items.Contents() == Recent(limit, done)
        invariant TL.Parse(codec, file.value) == TL.Prepend(done, TL.Parse(codec, rest))
        decreases |rest|
      {
        TL.ScanLine(codec, done, rest);
        if TL.MAX_LINE <= TL.LineEnd(rest) {
          items := new Slice();
          return items, true;
        }
        var line := TL.WithoutReturn(rest[..TL.LineEnd(rest)]);
        rest := TL.AfterLine(rest);
        if line == [] {
          continue;
        }
        var decoded := codec.decode(line);
        if decoded == Err {
          items := new Slice();
          return items, true;
        }
        items.Append(decoded.value);
        if limit > 0 && items.len > limit {
          items.KeepLast(limit);
        }
        RecentSnoc(limit, done, decoded.value);
        done := done + [decoded.value];
      }
      TL.ScanEnds(codec, done, rest);
      return items, false;
    }

    /** Appends one line, or fails before writing any of it. */
    method Append(t: Telemetry, outcome: TL.AppendOutcome) returns (err: bool)
      modifies this
      ensures err <==> outcome != TL.Written
      ensures file == TL.AppendTo(codec, old(file), t, outcome)
      ensures TL.Contents(file) == TL.Contents(old(file)) + (if err then [] else codec.encode(t) + [10])
      ensures outcome == TL.NotOpened ==> file == old(file)
    {
      if outcome == TL.NotOpened {
        return true;
      }
      if file == None {
        file := Some([]);
      }
      if outcome == TL.NothingWritten {
        return true;
      }
      file := Some(file.value + TL.Line(codec, t));
      return false;
    }
  }
}
