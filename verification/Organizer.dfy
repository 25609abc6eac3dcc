/** Destination file names: seven tokens are replaced one after the other, then characters
    that file systems refuse are removed. */
module Organizer {
  import opened Strings

  datatype EpisodeInfo = EpisodeInfo(
    seriesTitle: string, season: int, episode: int, episodeTitle: string,
    quality: string, group: string, airDate: string)

  // ----- two-digit numbers -----

  function Digit(d: nat): char
    requires d < 10
  {
    '0' + d as char
  }

  function Digits(n: nat): string {
    if n < 10 then [Digit(n)] else Digits(n / 10) + [Digit(n % 10)]
  }

  /** Sprintf("%02d"): the sign counts towards the width. */
  function Pad2(n: int): string {
    if n < 0 then "-" + Digits(-n) else if n < 10 then "0" + Digits(n) else Digits(n)
  }

  function ParseDigits(s: string): int {
    if s == "" then 0 else ParseDigits(s[..|s| - 1]) * 10 + (s[|s| - 1] as int - '0' as int)
  }

  function ParseNumber(s: string): int {
    if StartsWith(s, '-') then -ParseDigits(s[1..]) else ParseDigits(s)
  }

  lemma {:induction false} DigitsParse(n: nat)
    ensures ParseDigits(Digits(n)) == n && Digits(n) != ""
    ensures forall c :: c in Digits(n) ==> '0' <= c <= '9'
  {
    if n >= 10 {
      DigitsParse(n / 10);
      assert Digits(n)[..|Digits(n)| - 1] == Digits(n / 10);
    } else {
      assert Digits(n)[..0] == "";
    }
  }

  lemma {:induction false} LeadingZero(s: string)
    ensures ParseDigits("0" + s) == ParseDigits(s)
  {
    if s != "" {
      LeadingZero(s[..|s| - 1]);
      assert ("0" + s)[..|s|] == "0" + s[..|s| - 1];
    } else {
      assert "0"[..0] == "";
    }
  }

  lemma {:induction false} NoLeadingZero(n: nat)
    requires n > 0
    ensures Digits(n) != "" && Digits(n)[0] != '0' && (n < 10 ==> |Digits(n)| == 1) && (10 <= n < 100 ==> |Digits(n)| == 2)
  {
    if n >= 10 {
      NoLeadingZero(n / 10);
    }
  }

  /** The padding is one zero, and only where one digit would stand alone. */
  lemma Pad2IsShort(n: int)
    ensures 0 <= n < 100 ==> |Pad2(n)| == 2
    ensures n >= 100 ==> Pad2(n) != "" && Pad2(n)[0] != '0'
    ensures n < 0 ==> |Pad2(n)| >= 2 && Pad2(n)[0] == '-' && Pad2(n)[1] != '0'
  {
    if n != 0 {
      NoLeadingZero(if n < 0 then -n else n);
    }
  }

  lemma DigitsParseNumber(n: nat)
    ensures ParseNumber(Digits(n)) == n && (n >= 10 ==> |Digits(n)| >= 2)
  {
    DigitsParse(n);
    DigitsParse(n / 10);
    assert Digits(n)[0] in Digits(n);
  }

  lemma SignedParses(n: int)
    requires n > 0
    ensures ParseNumber("-" + Digits(n)) == -n && |Digits(n)| >= 1 && '{' !in "-" + Digits(n)
  {
    DigitsParse(n);
    assert ("-" + Digits(n))[1..] == Digits(n);
  }

  lemma PaddedParses(n: nat)
    requires n < 10
    ensures ParseNumber("0" + Digits(n)) == n && |Digits(n)| == 1 && '{' !in "0" + Digits(n)
  {
    DigitsParse(n);
    LeadingZero(Digits(n));
  }

  lemma UnpaddedParses(n: nat)
    requires n >= 10
    ensures ParseNumber(Digits(n)) == n && |Digits(n)| >= 2 && '{' !in Digits(n)
  {
    DigitsParse(n);
    DigitsParseNumber(n);
  }

  /** The padded number is at least two characters and reads back as the number. */
  lemma Pad2Parses(n: int)
    ensures ParseNumber(Pad2(n)) == n && |Pad2(n)| >= 2
    ensures '{' !in Pad2(n)
  {
    if n < 0 {
      SignedParses(-n);
    } else if n < 10 {
      PaddedParses(n);
    } else {
      UnpaddedParses(n);
    }
  }

  // ----- tokens -----

  const NAMES: seq<string> :=
    ["Series Title", "season:00", "episode:00", "Episode Title", "Quality Full", "Release Group", "Air-Date"]

  function Braced(name: string): string {
    "{" + name + "}"
  }

  function Token(k: nat): string
    requires k < 7
  {
    Braced(NAMES[k])
  }

  function Value(info: EpisodeInfo, k: nat): string
    requires k < 7
  {
    if k == 0 then info.seriesTitle
    else if k == 1 then Pad2(info.season)
    else if k == 2 then Pad2(info.episode)
    else if k == 3 then info.episodeTitle
    else if k == 4 then info.quality
    else if k == 5 then info.group
    else info.airDate
  }

  /** The first `k` replacement passes. */
  function Replaced(format: string, info: EpisodeInfo, k: nat): string
    requires k <= 7
  {
    if k == 0 then format else ReplaceAll(Replaced(format, info, k - 1), Token(k - 1), Value(info, k - 1))
  }

  // ----- the specification: one simultaneous substitution -----

  datatype Part = Literal(text: string) | Hole(k: nat)

  /** A format whose tokens below `k` have been filled in. */
  function Filled(parts: seq<Part>, info: EpisodeInfo, k: nat): string
    requires AreParts(parts)
  {
    if parts == [] then "" else assert IsPart(parts[0]); FilledPart(parts[0], info, k) + Filled(parts[1..], info, k)
  }

  function FilledPart(part: Part, info: EpisodeInfo, k: nat): string
    requires IsPart(part)
  {
    match part
    case Literal(text) => text
    case Hole(j) => if j < k then Value(info, j) else Token(j)
  }

  /** Literal text in which no token starts. */
  predicate IsPart(part: Part) {
    match part
    case Literal(text) => TokenFree(text, 0)
    case Hole(k) => k < 7
  }

  predicate AreParts(parts: seq<Part>) {
    forall p :: p in parts ==> IsPart(p)
  }

  // ----- where a token can start -----

  /** At some position of `text` the token, or as much of it as there is room for. */
  predicate Starts(text: string, token: string) {
    text != "" && (token <= text || text <= token || Starts(text[1..], token))
  }

  /** None of the tokens from `k` on starts in `text`, whatever may follow it. */
  predicate TokenFree(text: string, k: nat) {
    forall i :: k <= i < 7 ==> !Starts(text, Token(i))
  }

  /** In the values filled in by the first `n` passes but one no later token starts. */
  predicate HasSafeValues(info: EpisodeInfo, n: nat)
    requires n <= 7
  {
    forall j :: 0 <= j < n - 1 ==> TokenFree(Value(info, j), j + 1)
  }

  lemma {:induction false} PlainHasNoToken(a: string, name: string)
    requires '{' !in a
    ensures !Starts(a, Braced(name))
  {
    if a != "" {
      assert Braced(name)[0] == '{' && a[0] != '{';
      PlainHasNoToken(a[1..], name);
    }
  }

  lemma PlainIsTokenFree(a: string, k: nat)
    requires '{' !in a
    ensures TokenFree(a, k)
  {
    forall i | k <= i < 7 ensures !Starts(a, Token(i)) {
      PlainHasNoToken(a, NAMES[i]);
    }
  }

  /** A token that does not start here leaves the first character in place. */
  lemma SkipOne(a: string, rest: string, token: string, to: string)
    requires token != "" && a != "" && !(token <= a) && !(a <= token) && |a + rest| >= |token|
    ensures ReplaceAll(a + rest, token, to) == [a[0]] + ReplaceAll(a[1..] + rest, token, to)
  {
    if token <= a + rest {
      PrefixReaches(a, rest, token);
    }
    assert (a + rest)[0] == a[0] && (a + rest)[1..] == a[1..] + rest;
  }

  /** Text in which the token does not start is passed over. */
  lemma {:induction false} SkipText(a: string, rest: string, token: string, to: string)
    requires token != "" && !Starts(a, token)
    ensures ReplaceAll(a + rest, token, to) == a + ReplaceAll(rest, token, to)
  {
    if a == "" {
      assert a + rest == rest;
    } else if |a + rest| >= |token| {
      SkipOne(a, rest, token, to);
      SkipText(a[1..], rest, token, to);
      Reassemble(a, ReplaceAll(rest, token, to));
    }
  }

  lemma Reassemble(a: string, b: string)
    requires a != ""
    ensures [a[0]] + (a[1..] + b) == a + b
  {
  }

  lemma PrefixReaches(a: string, rest: string, token: string)
    requires token <= a + rest
    ensures token <= a || a <= token
  {
    if |token| <= |a| {
      assert token == (a + rest)[..|token|] == a[..|token|];
    } else {
      assert a == (a + rest)[..|a|] == token[..|a|];
    }
  }

  lemma ReplaceToken(rest: string, name: string, to: string)
    ensures ReplaceAll(Braced(name) + rest, Braced(name), to) == to + ReplaceAll(rest, Braced(name), to)
  {
    var token := Braced(name);
    assert (token + rest)[|token|..] == rest && token <= token + rest;
  }

  /** One token is the beginning of another only if they are the same. */
  lemma PrefixIsSame(other: string, rest: string, name: string)
    requires '}' !in other && '}' !in name && Braced(name) <= Braced(other) + rest
    ensures other == name
  {
    var s, token, n, m := Braced(other) + rest, Braced(name), |name|, |other|;
    assert s[m + 1] == '}' && token[n + 1] == '}';
    assert forall i :: 0 <= i < n && i < m ==> name[i] == token[i + 1] && other[i] == s[i + 1];
  }

  /** A token does not start in another one. */
  lemma TokenNotInOther(other: string, name: string)
    requires other != name && '}' !in other && '}' !in name && '{' !in other
    ensures !Starts(Braced(other), Braced(name))
  {
    var o, token := Braced(other), Braced(name);
    assert o[1..] == other + "}";
    PlainHasNoToken(other + "}", name);
    if token <= o {
      assert o == o + "";
      PrefixIsSame(other, "", name);
    }
    if o <= token {
      assert token == token + "";
      PrefixIsSame(name, "", other);
    }
  }

  // ----- each pass fills in one token -----

  lemma NamesHaveNoBraces(j: nat, k: nat)
    requires j < 7 && k < 7
    ensures '{' !in NAMES[k] && '}' !in NAMES[k]
    ensures NAMES[j] == NAMES[k] ==> j == k
  {
    NameHasNoBraces(k);
    if NAMES[j] == NAMES[k] {
      NamesDiffer(j, k);
    }
  }

  lemma NameHasNoBraces(k: nat)
    requires k < 7
    ensures '{' !in NAMES[k] && '}' !in NAMES[k]
  {
    assert k == 0 ==> NAMES[k] == "Series Title";
    assert k == 1 ==> NAMES[k] == "season:00";
    assert k == 2 ==> NAMES[k] == "episode:00";
    assert k == 3 ==> NAMES[k] == "Episode Title";
    assert k == 4 ==> NAMES[k] == "Quality Full";
    assert k == 5 ==> NAMES[k] == "Release Group";
    assert k == 6 ==> NAMES[k] == "Air-Date";
  }

  /** Two characters tell the names apart. */
  lemma NamesDiffer(j: nat, k: nat)
    requires j < 7 && k < 7 && NAMES[j][0] == NAMES[k][0] && NAMES[j][1] == NAMES[k][1]
    ensures j == k
  {
    assert NAMES[0][..2] == "Se" && NAMES[1][..2] == "se" && NAMES[2][..2] == "ep" && NAMES[3][..2] == "Ep";
    assert NAMES[4][..2] == "Qu" && NAMES[5][..2] == "Re" && NAMES[6][..2] == "Ai";
  }

  lemma PassOnPart(part: Part, rest: string, info: EpisodeInfo, k: nat)
    requires IsPart(part) && k < 7 && HasSafeValues(info, k + 1)
    ensures ReplaceAll(FilledPart(part, info, k) + rest, Token(k), Value(info, k))
         == FilledPart(part, info, k + 1) + ReplaceAll(rest, Token(k), Value(info, k))
  {
    match part
    case Literal(text) => SkipText(text, rest, Token(k), Value(info, k));
    case Hole(j) =>
      if j < k {
        SkipText(Value(info, j), rest, Token(k), Value(info, k));
      } else if j == k {
        ReplaceToken(rest, NAMES[k], Value(info, k));
      } else {
        NamesHaveNoBraces(j, k);
        NamesHaveNoBraces(k, j);
        TokenNotInOther(NAMES[j], NAMES[k]);
        SkipText(Token(j), rest, Token(k), Value(info, k));
      }
  }

  lemma {:induction false} PassFillsOne(parts: seq<Part>, info: EpisodeInfo, k: nat)
    requires AreParts(parts) && 0 < k <= 7 && HasSafeValues(info, k)
    ensures ReplaceAll(Filled(parts, info, k - 1), Token(k - 1), Value(info, k - 1)) == Filled(parts, info, k)
  {
    if parts != [] {
      assert IsPart(parts[0]);
      PassFillsOne(parts[1..], info, k);
      PassOnPart(parts[0], Filled(parts[1..], info, k - 1), info, k - 1);
    }
  }

  /** If no later token starts in a value, the passes one after the other are one
      simultaneous substitution, in every format. */
  lemma {:induction false} PassesAreSimultaneous(parts: seq<Part>, info: EpisodeInfo, k: nat)
    requires AreParts(parts) && k <= 7 && HasSafeValues(info, k)
    ensures Replaced(Filled(parts, info, 0), info, k) == Filled(parts, info, k)
  {
    if k > 0 {
      PassesAreSimultaneous(parts, info, k - 1);
      PassFillsOne(parts, info, k);
    }
  }

  // ----- and only then: counting opening braces -----

  function Braces(s: string): nat {
    if s == "" then 0 else (if s[0] == '{' then 1 else 0) + Braces(s[1..])
  }

  lemma {:induction false} BracesAdd(a: string, b: string)
    ensures Braces(a + b) == Braces(a) + Braces(b)
  {
    if a == "" {
      assert a + b == b;
    } else {
      assert (a + b)[1..] == a[1..] + b;
      BracesAdd(a[1..], b);
    }
  }

  lemma {:induction false} PlainHasNoBraces(s: string)
    ensures Braces(s) == 0 <==> '{' !in s
  {
    if s != "" {
      PlainHasNoBraces(s[1..]);
      assert s == [s[0]] + s[1..];
    }
  }

  predicate Contains(s: string, token: string) {
    token <= s || (s != "" && Contains(s[1..], token))
  }

  /** Replacing a token by a brace-free value changes nothing or lowers the count, and
      does lower it where the token occurs. */
  lemma {:induction false} ReplaceLowers(s: string, name: string, to: string)
    requires '{' !in to
    ensures ReplaceAll(s, Braced(name), to) == s || Braces(ReplaceAll(s, Braced(name), to)) < Braces(s)
    ensures Contains(s, Braced(name)) ==> Braces(ReplaceAll(s, Braced(name), to)) < Braces(s)
    decreases |s|
  {
    var token := Braced(name);
    if |s| < |token| {
      ShortLacks(s, token);
    } else if token <= s {
      var rest := s[|token|..];
      assert s == token + rest;
      ReplaceLowers(rest, name, to);
      BracesAdd(token, rest);
      BracesAdd(to, ReplaceAll(rest, token, to));
      PlainHasNoBraces(to);
      PlainHasNoBraces(token);
      assert token[0] == '{';
    } else {
      ReplaceLowers(s[1..], name, to);
      var after := ReplaceAll(s[1..], token, to);
      BracesAdd([s[0]], after);
      BracesAdd([s[0]], s[1..]);
      assert s == [s[0]] + s[1..];
    }
  }

  lemma {:induction false} ShortLacks(s: string, token: string)
    requires |s| < |token|
    ensures !Contains(s, token)
  {
    if s != "" {
      ShortLacks(s[1..], token);
    }
  }

  ghost predicate PlainFrom(info: EpisodeInfo, n: nat) {
    forall m :: n <= m < 7 ==> '{' !in Value(info, m)
  }

  /** The text is the same or has fewer braces, and surely fewer if `strict`. */
  ghost predicate Lowered(before: string, after: string, strict: bool) {
    Braces(after) < Braces(before) || (after == before && !strict)
  }

  lemma ReplaceLowersMore(before: string, mid: string, name: string, to: string, strict: bool, now: bool)
    requires '{' !in to && Lowered(before, mid, strict) && (now ==> Contains(before, Braced(name)))
    ensures Lowered(before, ReplaceAll(mid, Braced(name), to), strict || now)
  {
    ReplaceLowers(mid, name, to);
  }

  /** Passes from `n` on with brace-free values: a text in which one of their tokens
      occurs ends with fewer braces. */
  lemma {:induction false} PassesLower(format: string, info: EpisodeInfo, n: nat, m: nat, k: nat)
    requires n <= m <= 7 && n <= k < 7 && PlainFrom(info, n) && Contains(Replaced(format, info, n), Token(k))
    ensures Lowered(Replaced(format, info, n), Replaced(format, info, m), k < m)
    decreases m
  {
    if n < m {
      PassesLower(format, info, n, m - 1, k);
      ReplaceLowersMore(Replaced(format, info, n), Replaced(format, info, m - 1), NAMES[m - 1], Value(info, m - 1),
                        k < m - 1, k == m - 1);
    }
  }

  /** A token that starts in a value can be completed by brace-free text after it. */
  lemma {:induction false} CompleteToken(v: string, name: string) returns (tail: string)
    requires Starts(v, Braced(name)) && '{' !in name
    ensures '{' !in tail && Contains(v + tail, Braced(name))
  {
    var token := Braced(name);
    if token <= v {
      tail := "";
      assert v + tail == v;
    } else if v <= token {
      tail := token[|v|..];
      assert v + tail == token;
      assert forall i :: 0 <= i < |tail| ==> tail[i] == (name + "}")[|v| - 1 + i];
    } else {
      tail := CompleteToken(v[1..], name);
      assert (v + tail)[1..] == v[1..] + tail;
    }
  }

  /** A value in which a later token starts is substituted again in some format. */
  lemma UnsafeValueFails(info: EpisodeInfo, j: nat) returns (parts: seq<Part>)
    requires j < 7 && OthersPlain(info, j) && !TokenFree(Value(info, j), j + 1)
    ensures AreParts(parts) && Replaced(Filled(parts, info, 0), info, 7) != Filled(parts, info, 7)
  {
    var v := Value(info, j);
    var k :| j + 1 <= k < 7 && Starts(v, Token(k));
    NamesHaveNoBraces(k, k);
    var tail := CompleteToken(v, NAMES[k]);
    PlainIsTokenFree(tail, 0);
    parts := [Hole(j), Literal(tail)];
    assert AreParts(parts);
    FilledPair(j, tail, info);
    OthersPlainAreSafe(info, j);
    PassesAreSimultaneous(parts, info, j + 1);
    PassesLower(Filled(parts, info, 0), info, j + 1, 7, k);
  }

  lemma FilledPair(j: nat, tail: string, info: EpisodeInfo)
    requires j < 7 && TokenFree(tail, 0)
    ensures AreParts([Hole(j), Literal(tail)])
    ensures Filled([Hole(j), Literal(tail)], info, j + 1) == Value(info, j) + tail
    ensures Filled([Hole(j), Literal(tail)], info, 7) == Value(info, j) + tail
  {
    var parts := [Hole(j), Literal(tail)];
    assert AreParts(parts) && AreParts(parts[1..]) && AreParts(parts[1..][1..]);
    assert parts[1..] == [Literal(tail)] && parts[1..][1..] == [];
    forall k | j < k <= 7 ensures Filled(parts, info, k) == Value(info, j) + tail {
      assert Filled(parts[1..][1..], info, k) == "";
      assert Filled(parts[1..], info, k) == tail + "" == tail;
      assert FilledPart(parts[0], info, k) == Value(info, j);
    }
  }

  ghost predicate OthersPlain(info: EpisodeInfo, j: nat) {
    forall m :: 0 <= m < 7 && m != j ==> '{' !in Value(info, m)
  }

  lemma OthersPlainAreSafe(info: EpisodeInfo, j: nat)
    requires j < 7 && OthersPlain(info, j)
    ensures HasSafeValues(info, j + 1)
    ensures TokenFree(Value(info, j), j + 1) ==> HasSafeValues(info, 7)
  {
    forall m | 0 <= m < 7 && m != j ensures TokenFree(Value(info, m), m + 1) {
      PlainIsTokenFree(Value(info, m), m + 1);
    }
  }

  /** Brace-free text will do; padded numbers are brace-free anyway. */
  lemma PlainValuesAreSafe(info: EpisodeInfo)
    requires '{' !in info.seriesTitle && '{' !in info.episodeTitle && '{' !in info.quality && '{' !in info.group
    requires '{' !in info.airDate
    ensures HasSafeValues(info, 7) && forall j: nat :: OthersPlain(info, j)
  {
    Pad2Parses(info.season);
    Pad2Parses(info.episode);
    forall m | 0 <= m < 7 ensures TokenFree(Value(info, m), m + 1) {
      PlainIsTokenFree(Value(info, m), m + 1);
    }
  }

  ghost predicate IsSimultaneous(parts: seq<Part>, info: EpisodeInfo)
    requires AreParts(parts)
  {
    Replaced(Filled(parts, info, 0), info, 7) == Filled(parts, info, 7)
  }

  /** The exact condition on a value, the other values being free of opening braces: the
      passes are one simultaneous substitution in every format if and only if no later
      token starts in it. */
  lemma SimultaneousIff(info: EpisodeInfo, j: nat)
    requires j < 7 && OthersPlain(info, j)
    ensures (forall parts :: AreParts(parts) ==> IsSimultaneous(parts, info)) <==> TokenFree(Value(info, j), j + 1)
  {
    if TokenFree(Value(info, j), j + 1) {
      OthersPlainAreSafe(info, j);
      forall parts | AreParts(parts) ensures IsSimultaneous(parts, info) {
        PassesAreSimultaneous(parts, info, 7);
      }
    } else {
      var parts := UnsafeValueFails(info, j);
      assert !IsSimultaneous(parts, info);
    }
  }

  /** For one, a series named like the fourth token has its name replaced by the
      episode's title. */
  lemma TitleIsSubstitutedAgain(info: EpisodeInfo)
    requires info.seriesTitle == Token(3) && '{' !in info.episodeTitle
    ensures Replaced(Token(0), info, 7) == info.episodeTitle
    ensures Filled([Hole(0)], info, 0) == Token(0) && Filled([Hole(0)], info, 7) == Token(3)
  {
    ReplaceWhole(NAMES[0], info.seriesTitle);
    assert Replaced(Token(0), info, 1) == Token(3);
    OtherTokenStays(3, 1, Pad2(info.season));
    assert Replaced(Token(0), info, 2) == Token(3);
    OtherTokenStays(3, 2, Pad2(info.episode));
    assert Replaced(Token(0), info, 3) == Token(3);
    ReplaceWhole(NAMES[3], info.episodeTitle);
    assert Replaced(Token(0), info, 4) == info.episodeTitle;
    PlainStays(info.episodeTitle, NAMES[4], info.quality);
    PlainStays(info.episodeTitle, NAMES[5], info.group);
    PlainStays(info.episodeTitle, NAMES[6], info.airDate);
    assert Replaced(Token(0), info, 5) == info.episodeTitle;
    assert Replaced(Token(0), info, 6) == info.episodeTitle;
    assert [Hole(0)][1..] == [];
  }

  lemma ReplaceWhole(name: string, to: string)
    ensures ReplaceAll(Braced(name), Braced(name), to) == to
  {
    ReplaceToken("", name, to);
    assert Braced(name) + "" == Braced(name) && to + "" == to;
  }

  lemma OtherTokenStays(j: nat, k: nat, to: string)
    requires j < 7 && k < 7 && j != k
    ensures ReplaceAll(Token(j), Token(k), to) == Token(j)
  {
    NamesHaveNoBraces(j, k);
    NamesHaveNoBraces(k, j);
    TokenNotInOther(NAMES[j], NAMES[k]);
    SkipText(Token(j), "", Token(k), to);
    assert Token(j) + "" == Token(j);
  }

  lemma PlainStays(s: string, name: string, to: string)
    requires '{' !in s
    ensures ReplaceAll(s, Braced(name), to) == s
  {
    PlainHasNoToken(s, name);
    SkipText(s, "", Braced(name), to);
    assert s + "" == s;
  }

  // ----- what the tokens stand for -----

  lemma TokenTexts()
    ensures Token(0) == "{Series Title}" && Token(1) == "{season:00}" && Token(2) == "{episode:00}"
    ensures Token(3) == "{Episode Title}" && Token(4) == "{Quality Full}" && Token(5) == "{Release Group}"
    ensures Token(6) == "{Air-Date}"
  {
    assert Braced("Series Title") == "{Series Title}";
    assert Braced("season:00") == "{season:00}";
    assert Braced("episode:00") == "{episode:00}";
    assert Braced("Episode Title") == "{Episode Title}";
    assert Braced("Quality Full") == "{Quality Full}";
    assert Braced("Release Group") == "{Release Group}";
    assert Braced("Air-Date") == "{Air-Date}";
  }

  lemma TokenAlone(info: EpisodeInfo, k: nat)
    requires k < 7 && HasSafeValues(info, 7)
    ensures Replaced(Token(k), info, 7) == Value(info, k)
  {
    var parts := [Hole(k)];
    assert AreParts(parts) && AreParts(parts[1..]) && parts[1..] == [];
    forall n: nat | n <= 7 ensures Filled(parts, info, n) == FilledPart(Hole(k), info, n) {
      assert Filled(parts[1..], info, n) == "";
      assert FilledPart(parts[0], info, n) + "" == FilledPart(Hole(k), info, n);
    }
    PassesAreSimultaneous(parts, info, 7);
  }

  /** Each token, on its own, becomes the column it names, numbers in two digits. */
  lemma TokensMean(info: EpisodeInfo)
    requires HasSafeValues(info, 7)
    ensures Replaced("{Series Title}", info, 7) == info.seriesTitle
    ensures Replaced("{season:00}", info, 7) == Pad2(info.season)
    ensures Replaced("{episode:00}", info, 7) == Pad2(info.episode)
    ensures Replaced("{Episode Title}", info, 7) == info.episodeTitle
    ensures Replaced("{Quality Full}", info, 7) == info.quality
    ensures Replaced("{Release Group}", info, 7) == info.group
    ensures Replaced("{Air-Date}", info, 7) == info.airDate
  {
    TokenTexts();
    TokenAlone(info, 0);
    TokenAlone(info, 1);
    TokenAlone(info, 2);
    TokenAlone(info, 3);
    TokenAlone(info, 4);
    TokenAlone(info, 5);
    TokenAlone(info, 6);
  }

  /** The standard naming format around the given texts. */
  function DefaultWith(series: string, season: string, episode: string, title: string, quality: string): string {
    (series + " - S" + season + "E") + (episode + " - " + title + " [" + (quality + "]"))
  }

  const DEFAULT_FORMAT := DefaultWith("{Series Title}", "{season:00}", "{episode:00}", "{Episode Title}", "{Quality Full}")

  lemma {:induction false} FilledAppend(a: seq<Part>, b: seq<Part>, info: EpisodeInfo, k: nat)
    requires AreParts(a) && AreParts(b)
    ensures AreParts(a + b) && Filled(a + b, info, k) == Filled(a, info, k) + Filled(b, info, k)
    decreases |a|
  {
    if a == [] {
      assert a + b == b;
    } else {
      assert (a + b)[1..] == a[1..] + b;
      FilledAppend(a[1..], b, info, k);
    }
  }

  lemma FilledThree(j: nat, text: string, l: nat, info: EpisodeInfo, k: nat)
    requires j < 7 && '{' !in text && l < 7
    ensures AreParts([Hole(j), Literal(text), Hole(l)])
    ensures Filled([Hole(j), Literal(text), Hole(l)], info, k)
         == FilledPart(Hole(j), info, k) + text + FilledPart(Hole(l), info, k)
  {
    PlainIsTokenFree(text, 0);
    var parts := [Hole(j), Literal(text), Hole(l)];
    assert AreParts(parts) && AreParts(parts[1..]) && AreParts(parts[1..][1..]) && AreParts(parts[1..][1..][1..]);
    assert parts[1..] == [Literal(text), Hole(l)] && parts[1..][1..] == [Hole(l)] && parts[1..][1..][1..] == [];
    assert Filled(parts[1..][1..], info, k) == FilledPart(Hole(l), info, k) + "";
    assert Filled(parts[1..], info, k) == text + FilledPart(Hole(l), info, k);
  }

  lemma FilledText(text: string, info: EpisodeInfo, k: nat)
    requires '{' !in text
    ensures AreParts([Literal(text)]) && Filled([Literal(text)], info, k) == text
  {
    PlainIsTokenFree(text, 0);
    assert [Literal(text)][1..] == [];
    assert text + "" == text;
  }

  lemma FilledHole(j: nat, info: EpisodeInfo, k: nat)
    requires j < 7
    ensures AreParts([Hole(j)]) && Filled([Hole(j)], info, k) == FilledPart(Hole(j), info, k)
  {
    assert [Hole(j)][1..] == [];
    assert FilledPart(Hole(j), info, k) + "" == FilledPart(Hole(j), info, k);
  }

  function DefaultParts(): seq<Part> {
    ([Hole(0), Literal(" - S"), Hole(1)] + [Literal("E")])
    + ([Hole(2), Literal(" - "), Hole(3)] + [Literal(" [")] + ([Hole(4)] + [Literal("]")]))
  }

  lemma DefaultPartsFill(info: EpisodeInfo, k: nat)
    ensures AreParts(DefaultParts())
    ensures Filled(DefaultParts(), info, k)
         == DefaultWith(FilledPart(Hole(0), info, k), FilledPart(Hole(1), info, k), FilledPart(Hole(2), info, k),
                        FilledPart(Hole(3), info, k), FilledPart(Hole(4), info, k))
  {
    FilledThree(0, " - S", 1, info, k);
    FilledThree(2, " - ", 3, info, k);
    FilledText("E", info, k);
    FilledText(" [", info, k);
    FilledText("]", info, k);
    FilledHole(4, info, k);
    var first, second := [Hole(0), Literal(" - S"), Hole(1)], [Hole(2), Literal(" - "), Hole(3)];
    FilledAppend(first, [Literal("E")], info, k);
    FilledAppend(second, [Literal(" [")], info, k);
    FilledAppend([Hole(4)], [Literal("]")], info, k);
    FilledAppend(second + [Literal(" [")], [Hole(4)] + [Literal("]")], info, k);
    FilledAppend(first + [Literal("E")], second + [Literal(" [")] + ([Hole(4)] + [Literal("]")]), info, k);
  }

  /** The default format gives the series' title, season, episode, the episode's title and
      the quality in the places of their tokens. */
  lemma DefaultFormatMeans(info: EpisodeInfo)
    requires HasSafeValues(info, 7)
    ensures Replaced(DEFAULT_FORMAT, info, 7)
         == DefaultWith(info.seriesTitle, Pad2(info.season), Pad2(info.episode), info.episodeTitle, info.quality)
  {
    DefaultPartsFill(info, 0);
    TokenTexts();
    assert Filled(DefaultParts(), info, 0) == DEFAULT_FORMAT;
    PassesAreSimultaneous(DefaultParts(), info, 7);
    DefaultPartsFill(info, 7);
  }

  // ----- cleaning -----

  const ILLEGAL := "/\\:*?\"<>|"

  /** `s` without the characters of `cs`. */
  function Without(s: string, cs: string): string {
    if s == "" then "" else (if s[0] in cs then "" else [s[0]]) + Without(s[1..], cs)
  }

  lemma {:induction false} WithoutLacks(s: string, cs: string, c: char)
    ensures c in Without(s, cs) <==> c in s && c !in cs
  {
    if s != "" {
      WithoutLacks(s[1..], cs, c);
      assert s == [s[0]] + s[1..];
    }
  }

  lemma {:induction false} WithoutNothing(s: string, cs: string)
    requires forall c :: c in s ==> c !in cs
    ensures Without(s, cs) == s
  {
    if s != "" {
      assert s == [s[0]] + s[1..];
      WithoutNothing(s[1..], cs);
    }
  }

  /** Removing one more character. */
  lemma {:induction false} RemoveOne(s: string, cs: string, c: char)
    ensures ReplaceAll(Without(s, cs), [c], "") == Without(s, cs + [c])
  {
    if s != "" {
      var head := if s[0] in cs then "" else [s[0]];
      RemoveOne(s[1..], cs, c);
      ReplaceDistributes(head, Without(s[1..], cs), c, "");
      if s[0] !in cs {
        if s[0] == c { ReplaceSelf(c, ""); } else { ReplaceAbsent([s[0]], c, ""); }
      }
    }
  }

  function Cleaned(s: string): string {
    TrimSpace(Without(s, ILLEGAL))
  }

  /** A clean name has none of the nine characters and no surrounding white space, and
      cleaning changes exactly the names that are not clean. */
  lemma CleanedIsClean(s: string)
    ensures forall c :: c in Cleaned(s) ==> c in s && c !in ILLEGAL
    ensures var t := Cleaned(s);
      && '/' !in t && '\\' !in t && ':' !in t && '*' !in t && '?' !in t && '"' !in t && '<' !in t && '>' !in t && '|' !in t
    ensures IsTrimmed(Cleaned(s))
    ensures Cleaned(s) == s <==> IsTrimmed(s) && forall c :: c in s ==> c !in ILLEGAL
  {
    var t := Without(s, ILLEGAL);
    forall c
      ensures c in t <==> c in s && c !in ILLEGAL
    {
      WithoutLacks(s, ILLEGAL, c);
    }
    TrimIsExact(t);
    assert forall c :: c in Cleaned(s) ==> c in t;
    if IsTrimmed(s) && forall c :: c in s ==> c !in ILLEGAL {
      WithoutNothing(s, ILLEGAL);
      TrimmedStays(s);
    }
  }

  method CleanFilename(name: string) returns (clean: string)
    ensures clean == Cleaned(name)
  {
    clean := name;
    WithoutNothing(name, "");
    for i := 0 to |ILLEGAL|
      invariant clean == Without(name, ILLEGAL[..i])
    {
      RemoveOne(name, ILLEGAL[..i], ILLEGAL[i]);
      assert ILLEGAL[..i] + [ILLEGAL[i]] == ILLEGAL[..i + 1];
      clean := ReplaceAll(clean, [ILLEGAL[i]], "");
    }
    assert ILLEGAL[..|ILLEGAL|] == ILLEGAL;
    clean := TrimSpace(clean);
  }

  /** The built name is legal; if no later token starts in a value, it is the cleaned
      simultaneous substitution. */
  method BuildFilename(format: string, info: EpisodeInfo) returns (name: string)
    ensures IsTrimmed(name) && forall c :: c in name ==> c !in ILLEGAL
    ensures forall parts :: AreParts(parts) && HasSafeValues(info, 7) && format == Filled(parts, info, 0) ==>
      name == Cleaned(Filled(parts, info, 7))
    ensures name == Cleaned(Replaced(format, info, 7))
  {
    var result := format;
    result := ReplaceAll(result, Token(0), info.seriesTitle);
    assert result == Replaced(format, info, 1);
    result := ReplaceAll(result, Token(1), Pad2(info.season));
    assert result == Replaced(format, info, 2);
    result := ReplaceAll(result, Token(2), Pad2(info.episode));
    assert result == Replaced(format, info, 3);
    result := ReplaceAll(result, Token(3), info.episodeTitle);
    assert result == Replaced(format, info, 4);
    result := ReplaceAll(result, Token(4), info.quality);
    assert result == Replaced(format, info, 5);
    result := ReplaceAll(result, Token(5), info.group);
    assert result == Replaced(format, info, 6);
    result := ReplaceAll(result, Token(6), info.airDate);
    assert result == Replaced(format, info, 7);
    name := CleanFilename(result);
    CleanedIsClean(result);
    forall parts | AreParts(parts) && HasSafeValues(info, 7) && format == Filled(parts, info, 0)
      ensures result == Filled(parts, info, 7)
    {
      PassesAreSimultaneous(parts, info, 7);
    }
  }
}
