/** Go's string primitives on sequences of characters. */
module Strings {

  /** Every non-overlapping occurrence, from the left, of `from` becomes `to`. */
  function ReplaceAll(s: string, from: string, to: string): string
    requires from != ""
    decreases |s|
  {
    if |s| < |from| then s
    else if from <= s then to + ReplaceAll(s[|from|..], from, to)
    else [s[0]] + ReplaceAll(s[1..], from, to)
  }

  predicate StartsWith(s: string, c: char) {
    s != "" && s[0] == c
  }

  /** A one-character pattern is replaced independently in each part. */
  lemma {:induction false} ReplaceDistributes(a: string, b: string, c: char, to: string)
    ensures ReplaceAll(a + b, [c], to) == ReplaceAll(a, [c], to) + ReplaceAll(b, [c], to)
  {
    if a == "" {
      assert a + b == b;
    } else {
      assert (a + b)[1..] == a[1..] + b;
      ReplaceDistributes(a[1..], b, c, to);
    }
  }

  lemma ReplaceSelf(c: char, to: string)
    ensures ReplaceAll([c], [c], to) == to
  {
    assert [c][1..] == "";
  }

  /** Without an occurrence nothing changes. */
  lemma {:induction false} ReplaceAbsent(s: string, c: char, to: string)
    requires c !in s
    ensures ReplaceAll(s, [c], to) == s
  {
    if s != "" {
      assert s == [s[0]] + s[1..];
      ReplaceAbsent(s[1..], c, to);
    }
  }

  /** A character that `to` lacks is gone after replacing it. */
  lemma {:induction false} ReplaceRemoves(s: string, c: char, to: string)
    requires c !in to
    ensures c !in ReplaceAll(s, [c], to)
  {
    if s != "" {
      ReplaceRemoves(s[1..], c, to);
    }
  }

  /** Replacing one character brings in no character that neither side has. */
  lemma {:induction false} ReplaceIntroducesNothing(s: string, c: char, to: string, x: char)
    requires x !in s && x !in to
    ensures x !in ReplaceAll(s, [c], to)
  {
    if s != "" {
      ReplaceIntroducesNothing(s[1..], c, to, x);
    }
  }

  // ----- trimming -----

  /** Unicode's White_Space property. */
  predicate IsSpace(c: char) {
    var n := c as int;
    || 0x09 <= n <= 0x0d || n == 0x20 || n == 0x85 || n == 0xa0 || n == 0x1680 || 0x2000 <= n <= 0x200a
    || 0x2028 <= n <= 0x2029 || n == 0x202f || n == 0x205f || n == 0x3000
  }

  function TrimLeft(s: string): string {
    if s != "" && IsSpace(s[0]) then TrimLeft(s[1..]) else s
  }

  function TrimRight(s: string): string {
    if s != "" && IsSpace(s[|s| - 1]) then TrimRight(s[..|s| - 1]) else s
  }

  function TrimSpace(s: string): string {
    TrimRight(TrimLeft(s))
  }

  ghost predicate IsTrimmed(s: string) {
    s != "" ==> !IsSpace(s[0]) && !IsSpace(s[|s| - 1])
  }

  /** `t` is `s` without some white space at its two ends. */
  ghost predicate IsTrimOf(s: string, t: string) {
    exists i, j :: 0 <= i <= j <= |s| && t == s[i..j] && AllSpace(s[..i]) && AllSpace(s[j..])
  }

  ghost predicate AllSpace(s: string) {
    forall c :: c in s ==> IsSpace(c)
  }

  lemma {:induction false} TrimLeftDrops(s: string) returns (i: nat)
    ensures i <= |s| && TrimLeft(s) == s[i..] && AllSpace(s[..i])
    ensures TrimLeft(s) != "" ==> !IsSpace(TrimLeft(s)[0])
  {
    i := 0;
    if s != "" && IsSpace(s[0]) {
      var k := TrimLeftDrops(s[1..]);
      i := k + 1;
      assert s[1..][k..] == s[i..] && s[..i] == [s[0]] + s[1..][..k];
    }
  }

  lemma {:induction false} TrimRightDrops(s: string) returns (j: nat)
    ensures j <= |s| && TrimRight(s) == s[..j] && AllSpace(s[j..])
    ensures TrimRight(s) != "" ==> !IsSpace(TrimRight(s)[|TrimRight(s)| - 1])
  {
    j := |s|;
    if s != "" && IsSpace(s[|s| - 1]) {
      var n := |s| - 1;
      j := TrimRightDrops(s[..n]);
      assert s[..n][..j] == s[..j] && s[j..] == s[..n][j..] + [s[n]];
    }
  }

  /** Exactly the surrounding white space goes. */
  lemma TrimIsExact(s: string)
    ensures IsTrimmed(TrimSpace(s)) && IsTrimOf(s, TrimSpace(s))
  {
    var t := TrimLeft(s);
    var i := TrimLeftDrops(s);
    var j := TrimRightDrops(t);
    assert t[..j] == s[i..i + j] && t[j..] == s[i + j..];
  }

  /** Among it spaces, tabs and line breaks. */
  lemma TrimDropsBlank(c: char, s: string)
    requires c == ' ' || c == '\t' || c == '\n' || c == '\r'
    ensures TrimSpace([c] + s) == TrimSpace(s) && TrimSpace(s + [c]) == TrimSpace(s)
  {
    assert ([c] + s)[1..] == s;
    TrimLeftOfAppended(s, c);
  }

  lemma {:induction false} TrimLeftOfAppended(s: string, c: char)
    requires IsSpace(c)
    ensures TrimRight(TrimLeft(s + [c])) == TrimRight(TrimLeft(s))
  {
    if s == "" {
      assert TrimLeft([c]) == TrimLeft([c][1..]) == "";
    } else if IsSpace(s[0]) {
      assert (s + [c])[1..] == s[1..] + [c];
      TrimLeftOfAppended(s[1..], c);
    } else {
      assert (s + [c])[..|s|] == s;
    }
  }

  lemma TrimmedStays(s: string)
    requires IsTrimmed(s)
    ensures TrimSpace(s) == s
  {
  }
}
