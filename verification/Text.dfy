/** Trimming, as Go's `strings.TrimSpace` does it. */
module Text {

  /** The characters with Unicode's White_Space property. */
  predicate IsSpace(c: char) {
    var n := c as int;
    || 9 <= n <= 13 || n == 32 || n == 0x85 || n == 0xA0
    || n == 0x1680 || 0x2000 <= n <= 0x200A || n == 0x2028 || n == 0x2029
    || n == 0x202F || n == 0x205F || n == 0x3000
  }

  predicate AllSpace(s: string) {
    forall i :: 0 <= i < |s| ==> IsSpace(s[i])
  }

  function TrimLeft(s: string): string {
    if s != "" && IsSpace(s[0]) then TrimLeft(s[1..]) else s
  }

  function TrimRight(s: string): string {
    if s != "" && IsSpace(s[|s| - 1]) then TrimRight(s[..|s| - 1]) else s
  }

  function TrimSpace(s: string): string {
    TrimRight(TrimLeft(s))
  }

  /** Trimming on the left cuts `k` characters, all white space, and leaves none in front. */
  lemma {:induction false} TrimLeftCuts(s: string) returns (k: nat)
    ensures k <= |s| && AllSpace(s[..k]) && TrimLeft(s) == s[k..]
    ensures k < |s| ==> !IsSpace(s[k])
  {
    k := 0;
    if s != "" && IsSpace(s[0]) {
      var rest := TrimLeftCuts(s[1..]);
      assert forall i :: 1 <= i < rest + 1 ==> s[i] == s[1..][..rest][i - 1];
      k := rest + 1;
    }
  }

  /** Trimming on the right leaves `k` characters; all that follow are white space and the
      last of them is not. */
  lemma {:induction false} TrimRightCuts(s: string) returns (k: nat)
    ensures k <= |s| && AllSpace(s[k..]) && TrimRight(s) == s[..k]
    ensures k > 0 ==> !IsSpace(s[k - 1])
  {
    k := |s|;
    if s != "" && IsSpace(s[|s| - 1]) {
      var front := s[..|s| - 1];
      k := TrimRightCuts(front);
      assert forall i :: k <= i < |front| ==> s[i] == front[k..][i - k];
    }
  }

  /** Trimming keeps exactly the part from the first to the last character that is not
      white space; only white space is cut. */
  lemma TrimSpaceCuts(s: string) returns (i: nat, j: nat)
    ensures i <= j <= |s| && TrimSpace(s) == s[i..j]
    ensures AllSpace(s[..i]) && AllSpace(s[j..])
    ensures i < j ==> !IsSpace(s[i]) && !IsSpace(s[j - 1])
  {
    i := TrimLeftCuts(s);
    var rest := s[i..];
    var k := TrimRightCuts(rest);
    j := i + k;
    assert rest[k..] == s[j..] && rest[..k] == s[i..j];
  }
}
