/** The two title canonicalisations: the release parser's cleanTitle and the scene
    mapping's normalize. */
module Titles {
  import opened Strings
  import opened Options

  // ----- cleanTitle -----

  predicate HasDoubleSpace(s: string) {
    exists i {:trigger s[i]} :: 0 <= i < |s| - 1 && s[i] == ' ' && s[i + 1] == ' '
  }

  /** Runs of spaces become one space. */
  function Collapse(s: string): string {
    if s == "" then ""
    else if s[0] == ' ' && StartsWith(s[1..], ' ') then Collapse(s[1..])
    else [s[0]] + Collapse(s[1..])
  }

  function Spaced(s: string): string {
    ReplaceAll(ReplaceAll(s, ".", " "), "_", " ")
  }

  /** Dots and underscores become spaces, one for one; nothing else changes. */
  lemma SpacedPointwise(s: string, i: nat)
    ensures |Spaced(s)| == |s|
    ensures i < |s| ==> Spaced(s)[i] == if s[i] == '.' || s[i] == '_' then ' ' else s[i]
  {
    var dotless := ReplaceAll(s, ".", " ");
    ReplacePointwise(s, '.', ' ', i);
    ReplacePointwise(dotless, '_', ' ', i);
  }

  lemma {:induction false} ReplacePointwise(s: string, c: char, d: char, i: nat)
    ensures |ReplaceAll(s, [c], [d])| == |s|
    ensures i < |s| ==> ReplaceAll(s, [c], [d])[i] == if s[i] == c then d else s[i]
  {
    if s != "" {
      ReplacePointwise(s[1..], c, d, if i > 0 then i - 1 else 0);
    }
  }

  /** What cleanTitle should give: dots and underscores as spaces, no surrounding white
      space, no runs of spaces. */
  function Clean(s: string): string {
    Collapse(TrimSpace(Spaced(s)))
  }

  lemma DoubleSpaceStep(s: string)
    requires s != ""
    ensures HasDoubleSpace(s) <==> (s[0] == ' ' && StartsWith(s[1..], ' ')) || HasDoubleSpace(s[1..])
  {
    var t := s[1..];
    if HasDoubleSpace(t) {
      var i :| 0 <= i < |t| - 1 && t[i] == ' ' && t[i + 1] == ' ';
      assert s[i + 1] == ' ' && s[i + 1 + 1] == ' ';
    }
    if HasDoubleSpace(s) {
      var i :| 0 <= i < |s| - 1 && s[i] == ' ' && s[i + 1] == ' ';
      if i > 0 {
        assert t[i - 1] == ' ' && t[i - 1 + 1] == ' ';
      }
    }
  }

  /** Collapsing keeps the ends of a text and never lengthens it. */
  lemma {:induction false} CollapseKeepsEnds(s: string)
    ensures |Collapse(s)| <= |s|
    ensures s != "" ==> Collapse(s) != "" && Collapse(s)[0] == s[0] && Collapse(s)[|Collapse(s)| - 1] == s[|s| - 1]
  {
    if s != "" {
      CollapseKeepsEnds(s[1..]);
    }
  }

  /** Collapsing removes double spaces, and changes only text that has them. */
  lemma {:induction false} CollapseIsSingle(s: string)
    ensures !HasDoubleSpace(Collapse(s))
    ensures Collapse(s) == s <==> !HasDoubleSpace(s)
  {
    if s != "" {
      var t := s[1..];
      CollapseIsSingle(t);
      DoubleSpaceStep(s);
      CollapseKeepsEnds(t);
      if !(s[0] == ' ' && StartsWith(t, ' ')) {
        DoubleSpaceStep(Collapse(s));
        assert Collapse(s)[1..] == Collapse(t);
        assert s == [s[0]] + t;
      }
    }
  }

  lemma {:induction false} CollapseIntroducesNothing(s: string, c: char)
    requires c !in s
    ensures c !in Collapse(s)
  {
    if s != "" {
      CollapseIntroducesNothing(s[1..], c);
    }
  }

  /** One round of the loop: what is left to collapse stays the same. */
  lemma {:induction false} HalveKeepsCollapse(s: string)
    ensures Collapse(ReplaceAll(s, "  ", " ")) == Collapse(s)
    ensures StartsWith(ReplaceAll(s, "  ", " "), ' ') <==> StartsWith(s, ' ')
    ensures |ReplaceAll(s, "  ", " ")| <= |s|
    ensures HasDoubleSpace(s) ==> |ReplaceAll(s, "  ", " ")| < |s|
    decreases |s|
  {
    if |s| >= 2 {
      if "  " <= s {
        var t := s[2..];
        HalveKeepsCollapse(t);
        var u := ReplaceAll(t, "  ", " ");
        assert ReplaceAll(s, "  ", " ") == " " + u;
        assert (" " + u)[1..] == u && s[1..][1..] == t;
        assert Collapse(s) == Collapse(s[1..]);
      } else {
        var t := s[1..];
        HalveKeepsCollapse(t);
        DoubleSpaceStep(s);
        var u := ReplaceAll(t, "  ", " ");
        assert ([s[0]] + u)[1..] == u;
        assert !(s[0] == ' ' && StartsWith(t, ' '));
      }
    }
  }

  method CleanTitle(title: string) returns (s: string)
    ensures s == Clean(title)
  {
    s := ReplaceAll(title, ".", " ");
    s := ReplaceAll(s, "_", " ");
    s := TrimSpace(s);
    while HasDoubleSpace(s)
      invariant Collapse(s) == Clean(title)
      decreases |s|
    {
      HalveKeepsCollapse(s);
      s := ReplaceAll(s, "  ", " ");
    }
    CollapseIsSingle(s);
  }

  ghost predicate IsCanonical(s: string) {
    '.' !in s && '_' !in s && !HasDoubleSpace(s) && IsTrimmed(s)
  }

  lemma TrimIntroducesNothing(s: string, c: char)
    requires c !in s
    ensures c !in TrimSpace(s)
  {
    TrimIsExact(s);
  }

  /** A cleaned title has no dot, underscore, double space or surrounding white space; the
      titles that cleaning leaves alone are exactly those; so cleaning is idempotent. */
  lemma CleanIsCanonical(s: string)
    ensures IsCanonical(Clean(s))
    ensures Clean(s) == s <==> IsCanonical(s)
    ensures Clean(Clean(s)) == Clean(s)
  {
    CleanGivesCanonical(s);
    if IsCanonical(s) {
      CanonicalIsFixed(s);
    }
    CanonicalIsFixed(Clean(s));
  }

  lemma SpacedHasNoDots(s: string)
    ensures '.' !in Spaced(s) && '_' !in Spaced(s)
  {
    var a := ReplaceAll(s, ".", " ");
    ReplaceRemoves(s, '.', " ");
    ReplaceIntroducesNothing(a, '_', " ", '.');
    ReplaceRemoves(a, '_', " ");
  }

  lemma CollapseKeeps(t: string)
    requires IsTrimmed(t) && '.' !in t && '_' !in t
    ensures IsCanonical(Collapse(t))
  {
    CollapseIntroducesNothing(t, '.');
    CollapseIntroducesNothing(t, '_');
    CollapseIsSingle(t);
    CollapseKeepsEnds(t);
  }

  lemma CleanGivesCanonical(s: string)
    ensures IsCanonical(Clean(s))
  {
    var u := Spaced(s);
    SpacedHasNoDots(s);
    TrimIntroducesNothing(u, '.');
    TrimIntroducesNothing(u, '_');
    assert IsTrimmed(TrimSpace(u)) by {
      TrimIsExact(u);
    }
    CollapseKeeps(TrimSpace(u));
  }

  lemma CanonicalIsFixed(s: string)
    requires IsCanonical(s)
    ensures Clean(s) == s
  {
    ReplaceAbsent(s, '.', " ");
    ReplaceAbsent(s, '_', " ");
    TrimmedStays(s);
    CollapseIsSingle(s);
  }

  // ----- normalize -----

  predicate IsAlnum(c: char) {
    'A' <= c <= 'Z' || 'a' <= c <= 'z' || '0' <= c <= '9'
  }

  function Lower(c: char): char {
    if 'A' <= c <= 'Z' then (c as int + 32) as char else c
  }

  /** The lower-cased ASCII alphanumeric runs of a text; `word` is the run being read. */
  function Words(s: string, word: string): seq<string> {
    if s == "" then Finish(word)
    else if IsAlnum(s[0]) then Words(s[1..], word + [Lower(s[0])])
    else Finish(word) + Words(s[1..], "")
  }

  function Finish(word: string): seq<string> {
    if word == "" then [] else [word]
  }

  /** Words, each followed by a space. */
  function Terminated(words: seq<string>): string {
    if words == [] then "" else Terminated(words[..|words| - 1]) + words[|words| - 1] + " "
  }

  /** Words with single spaces between them. */
  function Joined(words: seq<string>): string {
    if words == [] then "" else Terminated(words[..|words| - 1]) + words[|words| - 1]
  }

  lemma TerminatedStep(words: seq<string>, word: string)
    ensures Terminated(words + [word]) == Terminated(words) + word + " "
    ensures Joined(words + [word]) == Terminated(words) + word
  {
    assert (words + [word])[..|words|] == words;
  }

  /** A separator ends the run before it. */
  lemma WordsAtSeparator(done: seq<string>, word: string, t: string)
    requires t != "" && !IsAlnum(t[0])
    ensures done + Words(t, word) == (done + Finish(word)) + Words(t[1..], "")
    ensures Terminated(done + Finish(word)) == Terminated(done) + word + if word == "" then "" else " "
  {
    if word == "" {
      assert done + Finish(word) == done;
    } else {
      TerminatedStep(done, word);
    }
  }

  lemma WordsAtEnd(done: seq<string>, word: string)
    requires forall c :: c in word ==> IsAlnum(c)
    ensures var out := Terminated(done) + word;
      Joined(done + Words("", word)) == if out != "" && out[|out| - 1] == ' ' then out[..|out| - 1] else out
  {
    if word == "" {
      assert done + Words("", word) == done;
      assert done != [] ==> Terminated(done) == Joined(done) + " ";
    } else {
      TerminatedStep(done, word);
      assert word[|word| - 1] in word;
    }
  }

  /** What the loop has done: words `done` written out, `word` begun, `rest` to read. */
  ghost predicate IsReading(s: string, rest: string, done: seq<string>, word: string, out: string) {
    && Words(s, "") == done + Words(rest, word) && out == Terminated(done) + word
    && forall c :: c in word ==> IsAlnum(c)
  }

  lemma ReadAlnum(s: string, rest: string, done: seq<string>, word: string, out: string)
    requires IsReading(s, rest, done, word, out) && rest != "" && IsAlnum(rest[0])
    ensures IsReading(s, rest[1..], done, word + [Lower(rest[0])], out + [Lower(rest[0])])
  {
    assert Terminated(done) + (word + [Lower(rest[0])]) == out + [Lower(rest[0])];
  }

  lemma ReadSeparator(s: string, rest: string, done: seq<string>, word: string, out: string)
    requires IsReading(s, rest, done, word, out) && rest != "" && !IsAlnum(rest[0])
    ensures IsReading(s, rest[1..], done + Finish(word), "", out + if word == "" then "" else " ")
  {
    WordsAtSeparator(done, word, rest);
  }

  lemma ReadEnd(s: string, done: seq<string>, word: string, out: string)
    requires IsReading(s, "", done, word, out)
    ensures Normal(s) == if out != "" && out[|out| - 1] == ' ' then out[..|out| - 1] else out
  {
    WordsAtEnd(done, word);
  }

  /** The loop computes the joined words. */
  method Normalize(s: string) returns (out: string)
    ensures out == Normal(s)
  {
    out := "";
    var lastSep := true;
    ghost var done: seq<string>, word := [], "";
    assert s[0..] == s;
    for i := 0 to |s|
      invariant IsReading(s, s[i..], done, word, out) && (lastSep <==> word == "")
    {
      var c := s[i];
      assert s[i..][0] == c && s[i..][1..] == s[i + 1..];
      if IsAlnum(c) {
        ReadAlnum(s, s[i..], done, word, out);
        word := word + [Lower(c)];
        out := out + [Lower(c)];
        lastSep := false;
      } else {
        ReadSeparator(s, s[i..], done, word, out);
        if !lastSep {
          out := out + [' '];
          lastSep := true;
        }
        done, word := done + Finish(word), "";
      }
    }
    assert s[|s|..] == "";
    ReadEnd(s, done, word, out);
    if |out| > 0 && out[|out| - 1] == ' ' {
      out := out[..|out| - 1];
    }
  }

  ghost predicate IsWord(w: string) {
    w != "" && forall c :: c in w ==> IsAlnum(c) && Lower(c) == c
  }

  ghost predicate AreWords(words: seq<string>) {
    forall w :: w in words ==> IsWord(w)
  }

  lemma {:induction false} WordsAreWords(s: string, word: string)
    requires word != "" ==> IsWord(word)
    ensures AreWords(Words(s, word))
  {
    if s != "" {
      if IsAlnum(s[0]) {
        WordsAreWords(s[1..], word + [Lower(s[0])]);
      } else {
        WordsAreWords(s[1..], "");
      }
    }
  }

  /** Reading a word, then what follows it. */
  lemma {:induction false} WordsTakesOne(w: string, rest: string, word: string)
    requires forall c :: c in w ==> IsAlnum(c) && Lower(c) == c
    ensures Words(w + rest, word) == Words(rest, word + w)
  {
    if w == "" {
      assert w + rest == rest && word + w == word;
    } else {
      assert (w + rest)[1..] == w[1..] + rest;
      WordsTakesOne(w[1..], rest, word + [w[0]]);
      assert word + [w[0]] + w[1..] == word + w;
    }
  }

  lemma {:induction false} WordsOfTerminated(words: seq<string>, rest: string)
    requires AreWords(words)
    ensures Words(Terminated(words) + rest, "") == words + Words(rest, "")
  {
    if words == [] {
      assert Terminated(words) + rest == rest;
    } else {
      var n := |words| - 1;
      var w, before := words[n], words[..n];
      assert IsWord(w);
      assert Terminated(words) + rest == Terminated(before) + (w + (" " + rest));
      WordsOfTerminated(before, w + (" " + rest));
      WordsTakesOne(w, " " + rest, "");
      assert (" " + rest)[1..] == rest && "" + w == w;
      assert before + ([w] + Words(rest, "")) == words + Words(rest, "");
    }
  }

  lemma WordsOfOne(w: string)
    requires IsWord(w)
    ensures Words(w, "") == [w]
  {
    WordsTakesOne(w, "", "");
    assert w + "" == w && "" + w == w;
  }

  /** Joined words read back as themselves. */
  lemma WordsOfJoined(words: seq<string>)
    requires AreWords(words)
    ensures Words(Joined(words), "") == words
  {
    if words != [] {
      var n := |words| - 1;
      var front, w := words[..n], words[n];
      assert words == front + [w];
      assert IsWord(w) && AreWords(front);
      WordsOfTerminated(front, w);
      WordsOfOne(w);
    }
  }

  function Normal(s: string): string {
    Joined(Words(s, ""))
  }

  /** Two texts agree exactly when their runs are the same sequence, and normalising what
      is normal changes nothing. */
  lemma NormalAgreesIff(s: string, t: string)
    ensures Normal(s) == Normal(t) <==> Words(s, "") == Words(t, "")
    ensures Normal(Normal(s)) == Normal(s)
  {
    WordsAreWords(s, "");
    WordsAreWords(t, "");
    WordsOfJoined(Words(s, ""));
    WordsOfJoined(Words(t, ""));
  }

  // ----- which titles clean alike -----

  /** The words of a text between its spaces; `word` is the one being read. */
  function Fields(s: string, word: string): seq<string> {
    if s == "" then Finish(word)
    else if s[0] == ' ' then Finish(word) + Fields(s[1..], "")
    else Fields(s[1..], word + [s[0]])
  }

  /** The words of a title: dots and underscores separate them like spaces, and white
      space around the title is not part of any. */
  function TitleWords(s: string): seq<string> {
    Fields(TrimSpace(Spaced(s)), "")
  }

  lemma {:induction false} FieldsOfCollapse(s: string, word: string)
    ensures Fields(Collapse(s), word) == Fields(s, word)
    decreases |s|
  {
    if s != "" {
      if s[0] == ' ' && StartsWith(s[1..], ' ') {
        FieldsOfCollapse(s[1..], word);
      } else {
        assert Collapse(s)[1..] == Collapse(s[1..]);
        FieldsOfCollapse(s[1..], if s[0] == ' ' then "" else word + [s[0]]);
      }
    }
  }

  lemma {:induction false} TerminatedCons(word: string, words: seq<string>)
    ensures Terminated([word] + words) == word + " " + Terminated(words)
  {
    if words == [] {
      TerminatedStep([], word);
      assert [word] + words == [] + [word];
    } else {
      var n := |words| - 1;
      var front, last := words[..n], words[n];
      TerminatedCons(word, front);
      assert words == front + [last] && [word] + words == ([word] + front) + [last];
      TerminatedStep([word] + front, last);
      TerminatedStep(front, last);
      Regroup(word + " ", Terminated(front), last, " ");
    }
  }

  lemma Regroup(a: string, b: string, c: string, d: string)
    ensures a + b + c + d == a + (b + c + d) && a + b + c == a + (b + c)
  {
  }

  lemma JoinedCons(word: string, words: seq<string>)
    requires words != []
    ensures Joined([word] + words) == word + " " + Joined(words)
  {
    var n := |words| - 1;
    var front, last := words[..n], words[n];
    assert words == front + [last] && [word] + words == ([word] + front) + [last];
    TerminatedStep([word] + front, last);
    TerminatedStep(front, last);
    TerminatedCons(word, front);
    Regroup(word + " ", Terminated(front), last, "");
  }

  ghost predicate IsSingleSpaced(s: string) {
    !HasDoubleSpace(s) && (s != "" ==> s[|s| - 1] != ' ')
  }

  lemma SingleSpacedRest(s: string)
    requires s != "" && IsSingleSpaced(s)
    ensures IsSingleSpaced(s[1..])
    ensures s[0] == ' ' ==> s[1..] != "" && !StartsWith(s[1..], ' ')
  {
    DoubleSpaceStep(s);
  }

  lemma JoinedAtSpace(s: string, word: string)
    requires word != "" && StartsWith(s, ' ') && s[1..] != "" && Joined(Fields(s[1..], "")) == s[1..]
    ensures Joined(Fields(s, word)) == word + s
  {
    JoinedCons(word, Fields(s[1..], ""));
    assert word + " " + s[1..] == word + s;
  }

  /** A text without double or outer spaces is its words joined. */
  lemma {:induction false} JoinedFields(s: string, word: string)
    requires IsSingleSpaced(s) && (word == "" ==> !StartsWith(s, ' '))
    ensures Joined(Fields(s, word)) == word + s
    decreases |s|
  {
    if s == "" {
      JoinedFinish(word);
      assert word + s == word;
    } else {
      SingleSpacedRest(s);
      if s[0] == ' ' {
        JoinedFields(s[1..], "");
        assert "" + s[1..] == s[1..];
        JoinedAtSpace(s, word);
      } else {
        JoinedFields(s[1..], word + [s[0]]);
        assert word + [s[0]] + s[1..] == word + s;
      }
    }
  }

  lemma JoinedFinish(word: string)
    ensures Joined(Finish(word)) == word
  {
    if word != "" {
      JoinedOfOne(word);
    }
  }

  lemma CleanIsJoined(s: string)
    ensures Clean(s) == Joined(TitleWords(s)) && Fields(Clean(s), "") == TitleWords(s)
  {
    var c := Clean(s);
    CleanIsCanonical(s);
    FieldsOfCollapse(TrimSpace(Spaced(s)), "");
    JoinedFields(c, "");
    assert "" + c == c;
  }

  /** Two titles clean alike exactly when their words are the same sequence. */
  lemma CleanAgreesIff(s: string, t: string)
    ensures Clean(s) == Clean(t) <==> TitleWords(s) == TitleWords(t)
  {
    CleanIsJoined(s);
    CleanIsJoined(t);
  }

  // ----- what normalising does, without reference to runs -----

  ghost predicate IsAsciiWord(s: string) {
    forall c :: c in s ==> 'a' <= c <= 'z' || 'A' <= c <= 'Z' || '0' <= c <= '9'
  }

  function LowerAll(s: string): string {
    seq(|s|, i requires 0 <= i < |s| => Lower(s[i]))
  }

  lemma {:induction false} WordsOfAscii(s: string, word: string)
    requires IsAsciiWord(s)
    ensures Words(s, word) == Finish(word + LowerAll(s))
  {
    if s == "" {
      assert word + LowerAll(s) == word;
    } else {
      assert s[0] in s && forall c :: c in s[1..] ==> c in s;
      WordsOfAscii(s[1..], word + [Lower(s[0])]);
      assert word + [Lower(s[0])] + LowerAll(s[1..]) == word + LowerAll(s);
    }
  }

  /** ASCII letters and digits are kept one for one, capitals as their small letters. */
  lemma NormalOfWord(s: string, i: nat)
    requires IsAsciiWord(s)
    ensures |Normal(s)| == |s|
    ensures i < |s| ==> Normal(s)[i] as int == s[i] as int + if 'A' <= s[i] <= 'Z' then 'a' as int - 'A' as int else 0
  {
    WordsOfAscii(s, "");
    assert "" + LowerAll(s) == LowerAll(s);
    JoinedFinish(LowerAll(s));
  }

  lemma {:induction false} WordsSplit(a: string, c: char, b: string, word: string)
    requires !IsAlnum(c)
    ensures Words(a + [c] + b, word) == Words(a, word) + Words(b, "")
  {
    if a == "" {
      assert (a + [c] + b)[1..] == b && (a + [c] + b)[0] == c;
    } else {
      assert (a + [c] + b)[1..] == a[1..] + [c] + b;
      if IsAlnum(a[0]) {
        WordsSplit(a[1..], c, b, word + [Lower(a[0])]);
      } else {
        WordsSplit(a[1..], c, b, "");
      }
    }
  }

  lemma {:induction false} JoinedConcat(x: seq<string>, y: seq<string>)
    requires x != [] && y != []
    ensures Joined(x + y) == Joined(x) + " " + Joined(y)
  {
    var w, rest := x[0], x[1..];
    assert x == [w] + rest && x + y == [w] + (rest + y);
    JoinedCons(w, rest + y);
    if rest == [] {
      assert rest + y == y && x == [w];
      JoinedOfOne(w);
    } else {
      JoinedConcat(rest, y);
      JoinedCons(w, rest);
    }
  }

  lemma JoinedOfOne(w: string)
    ensures Joined([w]) == w
  {
    TerminatedStep([], w);
    assert [] + [w] == [w];
  }

  lemma JoinedIsEmptyIff(words: seq<string>)
    requires AreWords(words)
    ensures Joined(words) == "" <==> words == []
  {
    if words != [] {
      assert IsWord(words[|words| - 1]);
    }
  }

  /** Any other character separates: what is on its two sides is normalised on its own, with
      one space between if there is something on both. */
  lemma NormalAtSeparator(a: string, c: char, b: string)
    requires !('a' <= c <= 'z') && !('A' <= c <= 'Z') && !('0' <= c <= '9')
    ensures Normal(a + [c] + b)
         == if Normal(a) == "" then Normal(b) else if Normal(b) == "" then Normal(a) else Normal(a) + " " + Normal(b)
  {
    var x, y := Words(a, ""), Words(b, "");
    WordsSplit(a, c, b, "");
    WordsAreWords(a, "");
    WordsAreWords(b, "");
    JoinedIsEmptyIff(x);
    JoinedIsEmptyIff(y);
    if x == [] {
      assert x + y == y;
    } else if y == [] {
      assert x + y == x;
    } else {
      JoinedConcat(x, y);
    }
  }

  // ----- the scene-title lookup -----

  datatype Mapping = Mapping(parseTerm: string, tvdbId: int)

  predicate Matches(m: Mapping, title: string) {
    m.parseTerm != "" && Words(m.parseTerm, "") == Words(title, "")
  }

  predicate IsFirstMatch(mappings: seq<Mapping>, i: nat, title: string) {
    i < |mappings| && Matches(mappings[i], title) && forall j :: 0 <= j < i ==> !Matches(mappings[j], title)
  }

  /** The first mapping whose term has the title's words. */
  method LookupTvdbIDByTitle(mappings: seq<Mapping>, title: string) returns (result: Option<int>)
    ensures result.None? <==> forall m :: m in mappings ==> !Matches(m, title)
    ensures result.Some? ==> exists i: nat :: IsFirstMatch(mappings, i, title) && mappings[i].tvdbId == result.value
  {
    for i := 0 to |mappings|
      invariant forall j :: 0 <= j < i ==> !Matches(mappings[j], title)
    {
      var m := mappings[i];
      if m.parseTerm != "" {
        var a := Normalize(m.parseTerm);
        var b := Normalize(title);
        NormalAgreesIff(m.parseTerm, title);
        if a == b {
          assert IsFirstMatch(mappings, i, title);
          return Some(m.tvdbId);
        }
      }
    }
    return None;
  }
}
