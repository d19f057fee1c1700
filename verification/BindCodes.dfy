/** The space of six-digit pairing codes, the random digits they are drawn from, and the
    counting argument that lets the rejection loop end. */
module BindCodes {
  import opened Seqs

  const CODE_LENGTH: nat := 6
  const CODE_COUNT: nat := 1_000_000

  newtype Decimal = d: int | 0 <= d < 10

  predicate AllDigits(s: string) {
    forall i :: 0 <= i < |s| ==> '0' <= s[i] <= '9'
  }

  predicate IsCode(s: string) {
    |s| == CODE_LENGTH && AllDigits(s)
  }

  function Digit(d: Decimal): (c: char)
    ensures '0' <= c <= '9' && (c - '0') as int == d as int
  {
    '0' + d as char
  }

  // ---- Draws from the random digit source ----

  /** `length` digits of the source, from position `at` on. */
  function Digits(source: nat -> Decimal, at: nat, length: nat): (s: string)
    ensures |s| == length && AllDigits(s)
  {
    if length == 0 then ""
    else Digits(source, at, length - 1) + [Digit(source(at + length - 1))]
  }

  /** The `k`-th code drawn when drawing starts at position `at`. */
  function Draw(source: nat -> Decimal, at: nat, k: nat): (s: string)
    ensures IsCode(s)
  {
    Digits(source, at + CODE_LENGTH * k, CODE_LENGTH)
  }

  /** A drawn code is the source's next digits, read in order. */
  lemma {:induction false} DigitsRead(source: nat -> Decimal, at: nat, length: nat, i: nat)
    requires i < length
    ensures Digits(source, at, length)[i] - '0' == source(at + i) as char
  {
    if i < length - 1 {
      DigitsRead(source, at, length - 1, i);
    }
  }

  ghost predicate SomeDrawFree(source: nat -> Decimal, at: nat, held: set<string>) {
    exists k: nat :: Draw(source, at, k) !in held
  }

  ghost predicate DrawsEveryCode(source: nat -> Decimal, at: nat) {
    forall c :: IsCode(c) ==> exists k: nat :: Draw(source, at, k) == c
  }

  // ---- Counting the codes ----

  function Pow10(k: nat): nat {
    if k == 0 then 1 else 10 * Pow10(k - 1)
  }

  /** `n` written with exactly `k` decimal digits. */
  function Written(k: nat, n: nat): (s: string)
    ensures |s| == k && AllDigits(s)
  {
    if k == 0 then "" else Written(k - 1, n / 10) + [Digit((n % 10) as Decimal)]
  }

  function Value(s: string): nat
    requires AllDigits(s)
  {
    if s == "" then 0 else 10 * Value(s[..|s| - 1]) + (s[|s| - 1] - '0') as nat
  }

  lemma {:induction false} ValueOfWritten(k: nat, n: nat)
    requires n < Pow10(k)
    ensures Value(Written(k, n)) == n
  {
    if k != 0 {
      ValueOfWritten(k - 1, n / 10);
      var s := Written(k, n);
      assert s[..|s| - 1] == Written(k - 1, n / 10);
    }
  }

  lemma LastDigit(front: nat, digit: nat)
    requires digit < 10
    ensures (10 * front + digit) / 10 == front && (10 * front + digit) % 10 == digit
  {
  }

  lemma {:induction false} WrittenOfValue(s: string)
    requires AllDigits(s)
    ensures Value(s) < Pow10(|s|)
    ensures Written(|s|, Value(s)) == s
  {
    if s != "" {
      var front := s[..|s| - 1];
      WrittenOfValue(front);
      assert s == front + [s[|s| - 1]];
      LastDigit(Value(front), (s[|s| - 1] - '0') as nat);
    }
  }

  ghost function WrittenBelow(n: nat): set<string> {
    set i: nat | i < n :: Written(CODE_LENGTH, i)
  }

  lemma {:induction false} CountWritten(n: nat)
    requires n <= Pow10(CODE_LENGTH)
    ensures |WrittenBelow(n)| == n
  {
    if n == 0 {
      assert WrittenBelow(0) == {};
    } else {
      CountWritten(n - 1);
      var last := Written(CODE_LENGTH, n - 1);
      assert WrittenBelow(n) == WrittenBelow(n - 1) + {last};
      ValueOfWritten(CODE_LENGTH, n - 1);
      if last in WrittenBelow(n - 1) {
        var i: nat :| i < n - 1 && Written(CODE_LENGTH, i) == last;
        ValueOfWritten(CODE_LENGTH, i);
        assert false;
      }
    }
  }

  lemma CountPowers()
    ensures Pow10(CODE_LENGTH) == CODE_COUNT
  {
    assert Pow10(2) == 100;
    assert Pow10(4) == 10_000;
  }

  /** The six-digit strings are exactly the written numbers below a million. */
  lemma AllCodes()
    ensures |WrittenBelow(1_000_000)| == 1_000_000 == CODE_COUNT
    ensures forall c :: IsCode(c) <==> c in WrittenBelow(1_000_000)
    ensures forall c :: IsCode(c) <==> |c| == 6 && AllDigits(c)
  {
    CountPowers();
    CountWritten(CODE_COUNT);
    forall c | IsCode(c)
      ensures c in WrittenBelow(CODE_COUNT)
    {
      WrittenOfValue(c);
      assert Value(c) < CODE_COUNT;
    }
  }

  /** Digits that count up from zero, six at a time, go through every code. */
  lemma CountingDrawsAll()
    ensures DrawsEveryCode(Counting(), 0)
  {
    forall c | IsCode(c)
      ensures exists k: nat :: Draw(Counting(), 0, k) == c
    {
      WrittenOfValue(c);
      CountPowers();
      CountingDraws(Value(c));
    }
  }

  function Counting(): nat -> Decimal {
    (i: nat) => (Written(CODE_LENGTH, i / CODE_LENGTH)[i % CODE_LENGTH] - '0') as int as Decimal
  }

  lemma Position(n: nat, i: nat)
    requires i < 6
    ensures (6 * n + i) / 6 == n && (6 * n + i) % 6 == i
  {
  }

  lemma CountingDraws(n: nat)
    ensures Draw(Counting(), 0, n) == Written(CODE_LENGTH, n)
  {
    hide Digits, Written;
    forall i | 0 <= i < CODE_LENGTH
      ensures Draw(Counting(), 0, n)[i] == Written(CODE_LENGTH, n)[i]
    {
      DigitsRead(Counting(), CODE_LENGTH * n, CODE_LENGTH, i);
      Position(n, i);
    }
  }

  lemma SubsetSize<T>(a: set<T>, b: set<T>)
    requires a <= b
    ensures |a| <= |b|
    ensures |a| == |b| ==> a == b
  {
    assert b == a + (b - a);
    assert |b| == |a| + |b - a|;
  }

  /** A code is free exactly while fewer than a million are held. */
  lemma FreeCodeExists(held: set<string>)
    requires forall c :: c in held ==> IsCode(c)
    ensures (exists c :: IsCode(c) && c !in held) <==> |held| < CODE_COUNT
  {
    AllCodes();
    SubsetSize(held, WrittenBelow(CODE_COUNT));
    if |held| < CODE_COUNT {
      var rest := WrittenBelow(CODE_COUNT) - held;
      assert WrittenBelow(CODE_COUNT) == held + rest;
      assert rest != {};
      var c :| c in rest;
      assert IsCode(c);
    }
  }

  /** The rejection loop meets a free code if the digits go through every code and fewer
      than a million are held; with all of them held it never does. */
  lemma RejectionEnds(source: nat -> Decimal, at: nat, held: set<string>)
    requires forall c :: c in held ==> IsCode(c)
    requires DrawsEveryCode(source, at)
    ensures SomeDrawFree(source, at, held) <==> |held| < CODE_COUNT
  {
    FreeCodeExists(held);
    if |held| < CODE_COUNT {
      var c :| IsCode(c) && c !in held;
      var k: nat :| Draw(source, at, k) == c;
      assert SomeDrawFree(source, at, held);
    }
  }
}
