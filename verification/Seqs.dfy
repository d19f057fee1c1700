/** Optional values, results, and the sequence vocabulary shared by the store's queries:
    filtering, reversing, and the two ways a query is cut to a limit. */
module Seqs {

  datatype Option<+T> = None | Some(value: T)

  datatype Result<+T> = Ok(value: T) | Err

  /** The elements of `s` that satisfy `p`, in order. */
  function Filter<T>(p: T -> bool, s: seq<T>): seq<T> {
    if s == [] then [] else (if p(s[0]) then [s[0]] else []) + Filter(p, s[1..])
  }

  function Reverse<T>(s: seq<T>): seq<T> {
    if s == [] then [] else Reverse(s[1..]) + [s[0]]
  }

  /** The first `limit` elements; a limit that is not positive means no limit. */
  function Limit<T>(limit: int, s: seq<T>): seq<T> {
    if limit <= 0 || |s| <= limit then s else s[..limit]
  }

  /** The last `limit` elements; a limit that is not positive means no limit. */
  function Recent<T>(limit: int, s: seq<T>): seq<T> {
    if limit <= 0 || |s| <= limit then s else s[|s| - limit..]
  }

  /** Both cut to a limit that is positive, and cut nothing else. */
  lemma CutToLimit<T>(limit: int, s: seq<T>)
    ensures var n := if 0 < limit < |s| then limit else |s|;
      Limit(limit, s) == s[..n] && Recent(limit, s) == s[|s| - n..]
  {
  }

  function RemoveAt<T>(s: seq<T>, i: nat): seq<T>
    requires i < |s|
  {
    s[..i] + s[i + 1..]
  }

  /** Where the first element satisfying `p` is, or -1. */
  function FirstIndex<T>(p: T -> bool, s: seq<T>): (i: int)
    ensures -1 <= i < |s|
    ensures 0 <= i ==> p(s[i])
    ensures forall j :: 0 <= j < |s| && (i < 0 || j < i) ==> !p(s[j])
  {
    if s == [] then -1
    else if p(s[0]) then 0
    else
      var r := FirstIndex(p, s[1..]);
      assert forall j :: 1 <= j < |s| ==> s[j] == s[1..][j - 1];
      if r < 0 then -1 else r + 1
  }

  /** The least counter value that is at least 1 and above every id in use. */
  function NextAfter(ids: seq<int>): (next: int)
    ensures 1 <= next
    ensures forall k :: 0 <= k < |ids| ==> ids[k] < next
    ensures next == 1 || next - 1 in ids
  {
    if ids == [] then 1
    else
      var before := NextAfter(ids[..|ids| - 1]);
      var last := ids[|ids| - 1];
      assert forall k :: 0 <= k < |ids| - 1 ==> ids[k] == ids[..|ids| - 1][k];
      if last >= before then last + 1 else before
  }

  /** Positions picked out of a longer sequence, left to right. */
  ghost predicate Ascending(at: seq<nat>) {
    forall i, j :: 0 <= i < j < |at| ==> at[i] < at[j]
  }

  /** `out` holds the elements of `s` at these positions, in order. */
  ghost predicate Picked<T>(s: seq<T>, at: seq<nat>, out: seq<T>) {
    && Ascending(at)
    && |at| == |out|
    && (forall k :: 0 <= k < |at| ==> at[k] < |s| && out[k] == s[at[k]])
  }

  /** A filter picks the elements that satisfy `p`, each where it stands, and no other. */
  lemma {:induction false} FilterPicks<T>(p: T -> bool, s: seq<T>) returns (at: seq<nat>)
    ensures Picked(s, at, Filter(p, s))
    ensures forall i: nat :: i in at <==> i < |s| && p(s[i])
  {
    at := [];
    if s != [] {
      var n := |s| - 1;
      at := FilterPicks(p, s[..n]);
      assert s[..n + 1] == s;
      FilterSnoc(p, s, n);
      if p(s[n]) {
        at := at + [n];
      }
    }
  }

  /** `out` is the elements at these positions from the first on, as many as the limit lets
      through. */
  ghost predicate Oldest<T>(s: seq<T>, at: seq<nat>, limit: int, out: seq<T>) {
    && Ascending(at)
    && |out| == (if 0 < limit < |at| then limit else |at|)
    && (forall k :: 0 <= k < |out| ==> at[k] < |s| && out[k] == s[at[k]])
  }

  /** The same from the last one back. */
  ghost predicate Newest<T>(s: seq<T>, at: seq<nat>, limit: int, out: seq<T>) {
    && Ascending(at)
    && |out| == (if 0 < limit < |at| then limit else |at|)
    && (forall k :: 0 <= k < |out| ==> at[|at| - 1 - k] < |s| && out[k] == s[at[|at| - 1 - k]])
  }

  /** A query that scans forwards or backwards, filters, and stops at a limit. */
  lemma QueryPicks<T>(p: T -> bool, s: seq<T>, limit: int) returns (at: seq<nat>)
    ensures forall i: nat :: i in at <==> i < |s| && p(s[i])
    ensures Oldest(s, at, limit, Limit(limit, Filter(p, s)))
    ensures Newest(s, at, limit, Limit(limit, Reverse(Filter(p, s))))
  {
    at := FilterPicks(p, s);
    ReverseAt(Filter(p, s));
  }

  lemma {:induction false} FilterConcat<T>(p: T -> bool, a: seq<T>, b: seq<T>)
    ensures Filter(p, a + b) == Filter(p, a) + Filter(p, b)
  {
    if a == [] {
      assert a + b == b;
    } else {
      assert (a + b)[1..] == a[1..] + b;
      FilterConcat(p, a[1..], b);
      var head := if p(a[0]) then [a[0]] else [];
      var fa, fb := Filter(p, a[1..]), Filter(p, b);
      assert Filter(p, a + b) == head + (fa + fb);
      assert head + (fa + fb) == head + fa + fb;
    }
  }

  lemma FilterSnoc<T>(p: T -> bool, s: seq<T>, n: nat)
    requires n < |s|
    ensures Filter(p, s[..n + 1]) == Filter(p, s[..n]) + (if p(s[n]) then [s[n]] else [])
  {
    assert s[..n + 1] == s[..n] + [s[n]];
    FilterConcat(p, s[..n], [s[n]]);
  }

  lemma {:induction false} FilterContents<T>(p: T -> bool, s: seq<T>)
    ensures forall x :: x in Filter(p, s) <==> x in s && p(x)
    ensures |Filter(p, s)| <= |s|
  {
    if s != [] {
      FilterContents(p, s[1..]);
      assert s == [s[0]] + s[1..];
    }
  }

  lemma {:induction false} FilterNone<T>(p: T -> bool, s: seq<T>)
    requires forall i :: 0 <= i < |s| ==> !p(s[i])
    ensures Filter(p, s) == []
  {
    if s != [] {
      FilterNone(p, s[1..]);
    }
  }

  lemma {:induction false} FilterAll<T>(p: T -> bool, s: seq<T>)
    requires forall i :: 0 <= i < |s| ==> p(s[i])
    ensures Filter(p, s) == s
  {
    if s != [] {
      FilterAll(p, s[1..]);
    }
  }

  /** Replacing an element by one the filter treats alike keeps the other selected ones. */
  lemma FilterUpdateOutside<T>(p: T -> bool, s: seq<T>, i: nat, x: T)
    requires i < |s| && !p(s[i]) && !p(x)
    ensures Filter(p, s[i := x]) == Filter(p, s)
  {
    var u := s[i := x];
    assert s == s[..i + 1] + s[i + 1..];
    assert u == u[..i + 1] + s[i + 1..];
    FilterConcat(p, s[..i + 1], s[i + 1..]);
    FilterConcat(p, u[..i + 1], s[i + 1..]);
    FilterSnoc(p, s, i);
    FilterSnoc(p, u, i);
    assert u[..i] == s[..i];
  }

  lemma FilterRemoveOutside<T>(p: T -> bool, s: seq<T>, i: nat)
    requires i < |s| && !p(s[i])
    ensures Filter(p, RemoveAt(s, i)) == Filter(p, s)
  {
    var front, back := s[..i + 1], s[i + 1..];
    assert s == front + back;
    FilterConcat(p, front, back);
    FilterSnoc(p, s, i);
    assert Filter(p, front) == Filter(p, s[..i]);
    FilterConcat(p, s[..i], back);
  }

  lemma {:induction false} ReverseConcat<T>(a: seq<T>, b: seq<T>)
    ensures Reverse(a + b) == Reverse(b) + Reverse(a)
  {
    if a == [] {
      assert a + b == b;
    } else {
      assert (a + b)[1..] == a[1..] + b;
      ReverseConcat(a[1..], b);
    }
  }

  lemma {:induction false} ReverseAt<T>(s: seq<T>)
    ensures |Reverse(s)| == |s|
    ensures forall k :: 0 <= k < |s| ==> Reverse(s)[k] == s[|s| - 1 - k]
  {
    if s != [] {
      ReverseAt(s[1..]);
    }
  }

  lemma ReverseTwice<T>(s: seq<T>)
    ensures Reverse(Reverse(s)) == s
  {
    ReverseAt(s);
    ReverseAt(Reverse(s));
  }

  lemma {:induction false} FilterReverse<T>(p: T -> bool, s: seq<T>)
    ensures Filter(p, Reverse(s)) == Reverse(Filter(p, s))
  {
    if s != [] {
      FilterReverse(p, s[1..]);
      FilterConcat(p, Reverse(s[1..]), [s[0]]);
      ReverseConcat(if p(s[0]) then [s[0]] else [], Filter(p, s[1..]));
    }
  }

  lemma {:induction false} FilterFilter<T>(p: T -> bool, q: T -> bool, s: seq<T>)
    requires forall x :: x in s && q(x) ==> p(x)
    ensures Filter(q, Filter(p, s)) == Filter(q, s)
  {
    if s != [] {
      FilterFilter(p, q, s[1..]);
      FilterConcat(q, if p(s[0]) then [s[0]] else [], Filter(p, s[1..]));
    }
  }

  /** What a backward scan that stops at `limit` has collected is the limited result. */
  lemma BackwardScan<T>(p: T -> bool, s: seq<T>, i: nat, limit: int)
    requires i <= |s|
    requires 0 < limit && |Filter(p, s[i..])| == limit
    ensures Reverse(Filter(p, s[i..])) == Limit(limit, Reverse(Filter(p, s)))
  {
    assert s == s[..i] + s[i..];
    FilterConcat(p, s[..i], s[i..]);
    ReverseConcat(Filter(p, s[..i]), Filter(p, s[i..]));
    ReverseAt(Filter(p, s[i..]));
  }

  /** One more element seen by a backward scan. */
  lemma BackwardStep<T>(p: T -> bool, s: seq<T>, i: nat)
    requires i < |s|
    ensures Reverse(Filter(p, s[i..]))
         == Reverse(Filter(p, s[i + 1..])) + (if p(s[i]) then [s[i]] else [])
  {
    assert s[i..][1..] == s[i + 1..];
    ReverseConcat(if p(s[i]) then [s[i]] else [], Filter(p, s[i + 1..]));
  }

  /** What a forward scan that stops at `limit` has collected is the limited result. */
  lemma ForwardScan<T>(p: T -> bool, s: seq<T>, i: nat, limit: int)
    requires i <= |s|
    requires 0 < limit && |Filter(p, s[..i])| == limit
    ensures Filter(p, s[..i]) == Limit(limit, Filter(p, s))
  {
    assert s == s[..i] + s[i..];
    FilterConcat(p, s[..i], s[i..]);
  }

  /** A window kept while appending is the window over everything appended. */
  lemma RecentSnoc<T>(limit: int, s: seq<T>, x: T)
    ensures Recent(limit, Recent(limit, s) + [x]) == Recent(limit, s + [x])
  {
    if 0 < limit < |s| {
      assert (s + [x])[|s| + 1 - limit..] == s[|s| - limit..][1..] + [x];
      assert (s[|s| - limit..] + [x])[1..] == s[|s| - limit..][1..] + [x];
    }
  }
}
