/** The iCalendar feed's text escaping and line folding, against the decoder of section
    3.3.11 and the unfolding of section 3.1 of RFC 5545.  A string is its octets. */
module ICalendar {
  import opened Strings
  import opened Options

  // ----- escaping -----

  /** The five replacement passes, in their order. */
  function Escape(s: string): string {
    var s1 := ReplaceAll(s, "\\", "\\\\");
    var s2 := ReplaceAll(s1, ";", "\\;");
    var s3 := ReplaceAll(s2, ",", "\\,");
    var s4 := ReplaceAll(s3, "\r\n", "\\n");
    ReplaceAll(s4, "\n", "\\n")
  }

  /** The same encoding written as one pass over the text. */
  function Encode(s: string): string {
    if s == "" then ""
    else if s[0] == '\r' && StartsWith(s[1..], '\n') then "\\n" + Encode(s[2..])
    else EncodeChar(s[0]) + Encode(s[1..])
  }

  function EncodeChar(c: char): string {
    if c == '\n' then "\\n" else if c in "\\;," then ['\\', c] else [c]
  }

  /** Section 3.3.11 of RFC 5545: a backslash introduces one of five escapes; a bare comma,
      semicolon or line feed is not text. */
  function Decode(s: string): Option<string> {
    if s == "" then Some("")
    else if s[0] in ";,\n" then None
    else if s[0] != '\\' then Prepend(s[0], Decode(s[1..]))
    else if |s| == 1 then None
    else if s[1] in "\\;," then Prepend(s[1], Decode(s[2..]))
    else if s[1] in "nN" then Prepend('\n', Decode(s[2..]))
    else None
  }

  function Prepend(c: char, rest: Option<string>): Option<string> {
    if rest.Some? then Some([c] + rest.value) else None
  }

  /** CRLF becomes LF; everything else stays. */
  function NormalizeNewlines(s: string): string {
    if s == "" then ""
    else if s[0] == '\r' && StartsWith(s[1..], '\n') then "\n" + NormalizeNewlines(s[2..])
    else [s[0]] + NormalizeNewlines(s[1..])
  }

  /** The three passes before newlines are treated. */
  function EscapeSpecials(s: string): string {
    ReplaceAll(ReplaceAll(ReplaceAll(s, "\\", "\\\\"), ";", "\\;"), ",", "\\,")
  }

  function SpecialChar(c: char): string {
    if c in "\\;," then ['\\', c] else [c]
  }

  lemma EscapeSpecialsOne(c: char)
    ensures EscapeSpecials([c]) == SpecialChar(c)
  {
    if c == '\\' {
      ReplaceSelf(c, "\\\\");
      ReplaceAbsent("\\\\", ';', "\\;");
      ReplaceAbsent("\\\\", ',', "\\,");
    } else {
      ReplaceAbsent([c], '\\', "\\\\");
      if c == ';' {
        ReplaceSelf(c, "\\;");
        ReplaceAbsent("\\;", ',', "\\,");
      } else {
        ReplaceAbsent([c], ';', "\\;");
        if c == ',' {
          ReplaceSelf(c, "\\,");
        } else {
          ReplaceAbsent([c], ',', "\\,");
        }
      }
    }
  }

  lemma EscapeSpecialsStep(c: char, t: string)
    ensures EscapeSpecials([c] + t) == SpecialChar(c) + EscapeSpecials(t)
  {
    var a1, b1 := ReplaceAll([c], "\\", "\\\\"), ReplaceAll(t, "\\", "\\\\");
    var a2, b2 := ReplaceAll(a1, ";", "\\;"), ReplaceAll(b1, ";", "\\;");
    ReplaceDistributes([c], t, '\\', "\\\\");
    ReplaceDistributes(a1, b1, ';', "\\;");
    ReplaceDistributes(a2, b2, ',', "\\,");
    EscapeSpecialsOne(c);
  }

  /** The newline passes over the result of the first three. */
  function EscapeNewlines(s: string): string {
    ReplaceAll(ReplaceAll(s, "\r\n", "\\n"), "\n", "\\n")
  }

  lemma EscapeNewlinesCrlf(t: string)
    ensures EscapeNewlines("\r\n" + t) == "\\n" + EscapeNewlines(t)
  {
    var u := ReplaceAll(t, "\r\n", "\\n");
    assert ("\r\n" + t)[2..] == t;
    assert ReplaceAll("\r\n" + t, "\r\n", "\\n") == "\\n" + u;
    ReplaceDistributes("\\n", u, '\n', "\\n");
    ReplaceAbsent("\\n", '\n', "\\n");
  }

  lemma EscapeNewlinesChar(c: char, t: string)
    requires !(c == '\r' && StartsWith(t, '\n'))
    ensures EscapeNewlines([c] + t) == (if c == '\n' then "\\n" else [c]) + EscapeNewlines(t)
  {
    var u := ReplaceAll(t, "\r\n", "\\n");
    assert ([c] + t)[0] == c && ([c] + t)[1..] == t;
    assert ReplaceAll([c] + t, "\r\n", "\\n") == [c] + u by {
      if |t| > 0 {
        assert ([c] + t)[1] == t[0];
        assert "\r\n"[0] == '\r' && "\r\n"[1] == '\n';
      } else {
        assert u == "" && [c] + t == [c];
      }
    }
    ReplaceDistributes([c], u, '\n', "\\n");
  }

  lemma EscapeStep(c: char, t: string)
    requires !(c == '\r' && StartsWith(t, '\n'))
    ensures EscapeNewlines(SpecialChar(c) + EscapeSpecials(t)) == EncodeChar(c) + EscapeNewlines(EscapeSpecials(t))
  {
    if c in "\\;," {
      EscapeSpecial(c, EscapeSpecials(t));
    } else {
      SpecialsKeepHead(t);
      EscapeNewlinesChar(c, EscapeSpecials(t));
    }
  }

  lemma EscapeSpecial(c: char, u: string)
    requires c in "\\;,"
    ensures EscapeNewlines(['\\', c] + u) == ['\\', c] + EscapeNewlines(u)
  {
    EscapeNewlinesChar(c, u);
    EscapeNewlinesChar('\\', [c] + u);
    assert ['\\', c] + u == ['\\'] + ([c] + u);
    assert ['\\'] + ([c] + EscapeNewlines(u)) == ['\\', c] + EscapeNewlines(u);
  }

  lemma SpecialsKeepHead(t: string)
    ensures StartsWith(EscapeSpecials(t), '\n') <==> StartsWith(t, '\n')
  {
    if t == "" {
      assert EscapeSpecials(t) == "";
    } else {
      assert t == [t[0]] + t[1..];
      EscapeSpecialsStep(t[0], t[1..]);
    }
  }

  lemma EscapeCrlf(t: string)
    ensures Escape("\r\n" + t) == "\\n" + Escape(t)
  {
    assert "\r\n" + t == ['\r'] + (['\n'] + t);
    EscapeSpecialsStep('\r', ['\n'] + t);
    EscapeSpecialsStep('\n', t);
    assert EscapeSpecials("\r\n" + t) == "\r\n" + EscapeSpecials(t);
    EscapeNewlinesCrlf(EscapeSpecials(t));
  }

  lemma EscapeChar(c: char, t: string)
    requires !(c == '\r' && StartsWith(t, '\n'))
    ensures Escape([c] + t) == EncodeChar(c) + Escape(t)
  {
    EscapeSpecialsStep(c, t);
    EscapeStep(c, t);
  }

  /** Five passes or one: the encodings are the same. */
  lemma {:induction false} EscapeIsOnePass(s: string)
    ensures Escape(s) == Encode(s)
    decreases |s|
  {
    if s == "" {
      assert EscapeSpecials(s) == "";
    } else if s[0] == '\r' && StartsWith(s[1..], '\n') {
      EscapeIsOnePass(s[2..]);
      assert s == "\r\n" + s[2..];
      EscapeCrlf(s[2..]);
    } else {
      EscapeIsOnePass(s[1..]);
      assert s == [s[0]] + s[1..];
      EscapeChar(s[0], s[1..]);
    }
  }

  lemma DecodeChar(c: char, t: string)
    ensures Decode(EncodeChar(c) + t) == Prepend(c, Decode(t))
  {
    var e := EncodeChar(c);
    assert (e + t)[|e|..] == t;
  }

  lemma {:induction false} DecodeEncode(s: string)
    ensures Decode(Encode(s)) == Some(NormalizeNewlines(s))
    decreases |s|
  {
    if s == "" {
    } else if s[0] == '\r' && StartsWith(s[1..], '\n') {
      DecodeEncode(s[2..]);
      DecodeChar('\n', Encode(s[2..]));
    } else {
      DecodeEncode(s[1..]);
      DecodeChar(s[0], Encode(s[1..]));
    }
  }

  /** Escaped text decodes to what was escaped, with CRLF read as LF.  That it decodes at
      all says that no line feed and no unescaped comma or semicolon is left. */
  lemma EscapeRoundTrip(s: string)
    ensures Decode(Escape(s)) == Some(NormalizeNewlines(s))
    ensures '\n' !in Escape(s)
  {
    EscapeIsOnePass(s);
    DecodeEncode(s);
    DecodableIsOneLine(Encode(s));
  }

  /** Two texts escape alike exactly when they differ only in CRLF against LF. */
  lemma EscapeAgreesIff(s: string, t: string)
    ensures Escape(s) == Escape(t) <==> NormalizeNewlines(s) == NormalizeNewlines(t)
  {
    EscapeRoundTrip(s);
    EscapeRoundTrip(t);
    EncodeOfNormal(s);
    EncodeOfNormal(t);
    EscapeIsOnePass(s);
    EscapeIsOnePass(t);
  }

  /** The encoding does not tell CRLF from LF. */
  lemma {:induction false} EncodeOfNormal(s: string)
    ensures Encode(s) == EncodeNormal(NormalizeNewlines(s))
    decreases |s|
  {
    if s == "" {
    } else if s[0] == '\r' && StartsWith(s[1..], '\n') {
      EncodeOfNormal(s[2..]);
      assert NormalizeNewlines(s)[1..] == NormalizeNewlines(s[2..]);
    } else {
      EncodeOfNormal(s[1..]);
      assert NormalizeNewlines(s)[1..] == NormalizeNewlines(s[1..]);
    }
  }

  function EncodeNormal(s: string): string {
    if s == "" then "" else EncodeChar(s[0]) + EncodeNormal(s[1..])
  }

  /** Decodable text is one line, so an escaped value can be written as one. */
  lemma {:induction false} DecodableIsOneLine(s: string)
    requires Decode(s).Some?
    ensures '\n' !in s
    decreases |s|
  {
    if s != "" {
      if s[0] != '\\' {
        DecodableIsOneLine(s[1..]);
      } else {
        DecodableIsOneLine(s[2..]);
        assert s == [s[0], s[1]] + s[2..];
      }
    }
  }

  // ----- folding -----

  const LIMIT := 75

  function ChunkEnd(line: string, i: nat): (end: nat)
    requires i < |line|
    ensures i < end <= |line|
  {
    if i + LIMIT > |line| then |line| else i + LIMIT
  }

  /** The physical lines from octet `i` on; a continuation starts with a space. */
  function Physical(line: string, i: nat): seq<string>
    requires i <= |line|
    decreases |line| - i
  {
    if i == |line| then []
    else [(if i > 0 then " " else "") + line[i..ChunkEnd(line, i)]] + Physical(line, ChunkEnd(line, i))
  }

  /** Lines, each ended by CRLF. */
  function Join(lines: seq<string>): string {
    if lines == [] then "" else lines[0] + "\r\n" + Join(lines[1..])
  }

  function FoldAll(lines: seq<string>): string {
    if lines == [] then "" else Join(Physical(lines[0], 0)) + FoldAll(lines[1..])
  }

  lemma JoinCons(line: string, rest: seq<string>, before: string)
    ensures before + (line + "\r\n") + Join(rest) == before + Join([line] + rest)
  {
    assert ([line] + rest)[1..] == rest;
    assert Join([line] + rest) == (line + "\r\n") + Join(rest);
  }

  lemma JoinStep(line: string, i: nat, before: string)
    requires i < |line|
    ensures var chunk := (if i > 0 then " " else "") + line[i..ChunkEnd(line, i)] + "\r\n";
      before + chunk + Join(Physical(line, ChunkEnd(line, i))) == before + Join(Physical(line, i))
  {
    JoinCons((if i > 0 then " " else "") + line[i..ChunkEnd(line, i)], Physical(line, ChunkEnd(line, i)), before);
  }

  /** The feed's string builder. */
  class Feed {
    var text: string

    constructor ()
      ensures text == ""
    {
      text := "";
    }

    method WriteLine(line: string)
      modifies this
      ensures text == old(text) + Join(Physical(line, 0))
    {
      var i := 0;
      while i < |line|
        invariant i <= |line|
        invariant text + Join(Physical(line, i)) == old(text) + Join(Physical(line, 0))
      {
        var end := i + LIMIT;
        if end > |line| {
          end := |line|;
        }
        ghost var before := text;
        if i > 0 {
          text := text + " ";
        }
        text := text + line[i..end];
        text := text + "\r\n";
        ghost var chunk := (if i > 0 then " " else "") + line[i..end] + "\r\n";
        assert text == before + chunk;
        JoinStep(line, i, before);
        i := end;
      }
    }

    /** A feed of content lines, written from the start, reads back as those lines. */
    method WriteLines(lines: seq<string>)
      modifies this
      ensures text == old(text) + FoldAll(lines)
      ensures old(text) == "" && (forall l :: l in lines ==> IsContentLine(l)) ==> Lines(Unfold(text), "") == lines
    {
      for n := 0 to |lines|
        invariant text + FoldAll(lines[n..]) == old(text) + FoldAll(lines)
      {
        ghost var before := text;
        assert lines[n..][1..] == lines[n + 1..];
        WriteLine(lines[n]);
        assert text + FoldAll(lines[n + 1..]) == before + FoldAll(lines[n..]);
      }
      assert lines[|lines|..] == [] && text + "" == text;
      if old(text) == "" && forall l :: l in lines ==> IsContentLine(l) {
        assert "" + FoldAll(lines) == FoldAll(lines);
        FoldRoundTrip(lines);
      }
    }
  }

  // ----- reading it back -----

  /** Section 3.1 of RFC 5545: a line break followed by one white space character is
      removed. */
  function Unfold(s: string): string {
    if s == "" then ""
    else if IsFold(s) then Unfold(s[3..])
    else [s[0]] + Unfold(s[1..])
  }

  predicate IsFold(s: string) {
    |s| >= 3 && s[0] == '\r' && s[1] == '\n' && IsBlank(s[2])
  }

  predicate IsBlank(c: char) {
    c == ' ' || c == '\t'
  }

  /** The lines of a text, split at CRLF; `acc` is the line read so far. */
  function Lines(s: string, acc: string): seq<string> {
    if s == "" then if acc == "" then [] else [acc]
    else if s[0] == '\r' && StartsWith(s[1..], '\n') then [acc] + Lines(s[2..], "")
    else Lines(s[1..], acc + [s[0]])
  }

  ghost predicate IsContentLine(line: string) {
    line != "" && '\n' !in line && !IsBlank(line[0])
  }

  /** What precedes a line break is split off as one line. */
  lemma {:induction false} LinesTakesOne(a: string, rest: string, acc: string)
    requires '\n' !in a
    ensures Lines(a + "\r\n" + rest, acc) == [acc + a] + Lines(rest, "")
    decreases |a|
  {
    var s := a + "\r\n" + rest;
    if a == "" {
      assert s[1..] == "\n" + rest && s[2..] == rest && acc + a == acc;
    } else {
      assert s[1..] == a[1..] + "\r\n" + rest;
      assert !StartsWith(s[1..], '\n');
      LinesTakesOne(a[1..], rest, acc + [a[0]]);
      assert acc + [a[0]] + a[1..] == acc + a;
    }
  }

  lemma {:induction false} LinesOfJoin(lines: seq<string>)
    requires forall l :: l in lines ==> '\n' !in l
    ensures Lines(Join(lines), "") == lines
  {
    if lines != [] {
      LinesOfJoin(lines[1..]);
      LinesTakesOne(lines[0], Join(lines[1..]), "");
      assert "" + lines[0] == lines[0];
    }
  }

  /** A line-feed-free stretch before a line break is not touched by unfolding. */
  lemma {:induction false} UnfoldKeeps(a: string, rest: string)
    requires '\n' !in a && !StartsWith(rest, '\n')
    ensures Unfold(a + rest) == a + Unfold(rest)
  {
    if a == "" {
      assert a + rest == rest;
    } else {
      assert (a + rest)[1..] == a[1..] + rest;
      UnfoldKeeps(a[1..], rest);
    }
  }

  /** What follows a folded line: nothing, or something that is not a continuation. */
  ghost predicate EndsLogicalLine(rest: string) {
    rest != "" ==> !IsBlank(rest[0]) && rest[0] != '\n'
  }

  function LineFrom(line: string, i: nat): string
    requires i <= |line|
  {
    (if i > 0 then " " else "") + line[i..]
  }

  lemma LineFromChunk(line: string, i: nat, end: nat, rest: string)
    requires i < end <= |line|
    ensures (if i > 0 then " " else "") + line[i..end] + (line[end..] + rest) == LineFrom(line, i) + rest
    ensures end > 0 ==> (LineFrom(line, end) + rest)[1..] == line[end..] + rest
  {
    assert line[i..end] + line[end..] == line[i..];
  }

  /** The physical lines of one line unfold to that line. */
  lemma {:induction false} UnfoldLine(line: string, i: nat, rest: string)
    requires i < |line| && '\n' !in line && EndsLogicalLine(rest)
    ensures Unfold(Join(Physical(line, i)) + rest) == LineFrom(line, i) + ("\r\n" + Unfold(rest))
    decreases |line| - i
  {
    var end := ChunkEnd(line, i);
    var chunk := (if i > 0 then " " else "") + line[i..end];
    var tail := Join(Physical(line, end)) + rest;
    assert Join(Physical(line, i)) + rest == chunk + ("\r\n" + tail);
    UnfoldKeeps(chunk, "\r\n" + tail);
    if end == |line| {
      assert tail == rest && chunk == LineFrom(line, i);
      UnfoldBreak(rest);
    } else {
      UnfoldLine(line, end, rest);
      PhysicalStartsWithSpace(line, end);
      UnfoldContinuation(tail);
      LineFromChunk(line, i, end, "\r\n" + Unfold(rest));
      assert Unfold("\r\n" + tail) == line[end..] + ("\r\n" + Unfold(rest));
    }
  }

  lemma UnfoldBreak(rest: string)
    requires EndsLogicalLine(rest)
    ensures Unfold("\r\n" + rest) == "\r\n" + Unfold(rest)
  {
    var s := "\r\n" + rest;
    assert s[1..] == "\n" + rest && s[1..][1..] == rest;
    assert !IsFold(s) && !IsFold(s[1..]);
  }

  lemma UnfoldContinuation(tail: string)
    requires StartsWith(tail, ' ')
    ensures Unfold(tail) != "" && Unfold("\r\n" + tail) == Unfold(tail)[1..]
  {
    var s := "\r\n" + tail;
    assert s[2] == ' ' && s[3..] == tail[1..];
    assert Unfold(tail)[1..] == Unfold(tail[1..]);
  }

  lemma PhysicalStartsWithSpace(line: string, i: nat)
    requires 0 < i < |line|
    ensures StartsWith(Join(Physical(line, i)), ' ')
  {
    assert Physical(line, i)[0][0] == ' ';
  }

  /** Unfolding a folded feed leaves one CRLF-ended line for each line written. */
  lemma {:induction false} UnfoldAll(lines: seq<string>)
    requires forall l :: l in lines ==> IsContentLine(l)
    ensures Unfold(FoldAll(lines)) == Join(lines)
  {
    if lines != [] {
      assert IsContentLine(lines[0]);
      UnfoldAll(lines[1..]);
      FoldEndsLine(lines[1..]);
      UnfoldLine(lines[0], 0, FoldAll(lines[1..]));
      assert "" + lines[0][0..] == lines[0];
    }
  }

  lemma FoldEndsLine(lines: seq<string>)
    requires forall l :: l in lines ==> IsContentLine(l)
    ensures EndsLogicalLine(FoldAll(lines))
  {
    if lines != [] {
      var l := lines[0];
      assert IsContentLine(l);
      assert Physical(l, 0)[0][0] == l[0];
      assert Join(Physical(l, 0))[0] == l[0];
    }
  }

  /** Folding loses nothing: unfold and split, and the written lines are back. */
  lemma FoldRoundTrip(lines: seq<string>)
    requires forall l :: l in lines ==> IsContentLine(l)
    ensures Lines(Unfold(FoldAll(lines)), "") == lines
  {
    UnfoldAll(lines);
    LinesOfJoin(lines);
  }

  function NonEmpty(lines: seq<string>): seq<string> {
    if lines == [] then []
    else (if lines[0] == "" then [] else [lines[0]]) + NonEmpty(lines[1..])
  }

  lemma {:induction false} EmptyLinesVanish(lines: seq<string>)
    ensures FoldAll(lines) == FoldAll(NonEmpty(lines))
    ensures forall l :: l in NonEmpty(lines) <==> l in lines && l != ""
    ensures |NonEmpty(lines)| <= |lines|
    ensures NonEmpty(lines) == lines <==> "" !in lines
  {
    if lines != [] {
      EmptyLinesVanish(lines[1..]);
      assert lines == [lines[0]] + lines[1..];
      if lines[0] == "" {
        assert NonEmpty(lines) == NonEmpty(lines[1..]);
        assert Join(Physical("", 0)) == "";
      } else {
        assert NonEmpty(lines)[1..] == NonEmpty(lines[1..]);
      }
    }
  }

  /** An empty line is written as nothing at all, so the round trip is exact if and only
      if no line is empty. */
  lemma FoldRoundTripIff(lines: seq<string>)
    requires forall l :: l in lines && l != "" ==> IsContentLine(l)
    ensures Lines(Unfold(FoldAll(lines)), "") == lines <==> "" !in lines
  {
    EmptyLinesVanish(lines);
    FoldRoundTrip(NonEmpty(lines));
  }

  // ----- line length -----

  lemma {:induction false} PhysicalIsOneLine(line: string, i: nat)
    requires i <= |line| && '\n' !in line
    ensures forall p :: p in Physical(line, i) ==> '\n' !in p
    decreases |line| - i
  {
    if i < |line| {
      PhysicalIsOneLine(line, ChunkEnd(line, i));
    }
  }

  /** Split at its line breaks, what is written for a line is its physical lines. */
  lemma LinesOfFold(line: string)
    requires '\n' !in line
    ensures Lines(Join(Physical(line, 0)), "") == Physical(line, 0)
  {
    PhysicalIsOneLine(line, 0);
    LinesOfJoin(Physical(line, 0));
  }

  ghost predicate SomeLonger(lines: seq<string>, n: nat) {
    exists k :: 0 <= k < |lines| && |lines[k]| > n
  }

  lemma SomeLongerCons(line: string, rest: seq<string>, n: nat)
    ensures SomeLonger([line] + rest, n) <==> |line| > n || SomeLonger(rest, n)
  {
    var all := [line] + rest;
    assert all[0] == line;
    assert forall k :: 0 <= k < |rest| ==> rest[k] == all[k + 1];
  }

  lemma {:induction false} ContinuationsTooLongIff(line: string, i: nat)
    requires 0 < i <= |line|
    ensures SomeLonger(Physical(line, i), LIMIT) <==> |line| >= i + LIMIT
    ensures !SomeLonger(Physical(line, i), LIMIT + 1)
    decreases |line| - i
  {
    if i < |line| {
      var end := ChunkEnd(line, i);
      ContinuationsTooLongIff(line, end);
      SomeLongerCons(" " + line[i..end], Physical(line, end), LIMIT);
      SomeLongerCons(" " + line[i..end], Physical(line, end), LIMIT + 1);
    }
  }

  /** A physical line is never longer than 76 octets, and one is longer than the 75 that
      section 3.1 of RFC 5545 asks for exactly when the line has 150 octets or more: the
      leading space of a continuation is not counted. */
  lemma TooLongIff(line: string)
    ensures SomeLonger(Physical(line, 0), 75) <==> |line| >= 150
    ensures !SomeLonger(Physical(line, 0), 76)
  {
    if line != "" {
      var end := ChunkEnd(line, 0);
      ContinuationsTooLongIff(line, end);
      SomeLongerCons("" + line[0..end], Physical(line, end), 75);
      SomeLongerCons("" + line[0..end], Physical(line, end), 76);
    }
  }
}
