/** Scrubbing leaked prompt lines from a reply, and redaction after it. */
module Guardrails {
  import opened Text

  /** A character as a case-insensitive pattern of lower-case ASCII letters sees it: besides the capitals,
      dotted I, dotless i, long s and the Kelvin sign match a letter. */
  function Fold(c: char): char {
    if 'A' <= c <= 'Z' then ((c as int) + 32) as char
    else if c == '\U{0130}' || c == '\U{0131}' then 'i'
    else if c == '\U{017F}' then 's'
    else if c == '\U{212A}' then 'k'
    else c
  }

  function FoldText(s: string): (f: string)
    ensures |f| == |s| && forall i :: 0 <= i < |s| ==> f[i] == Fold(s[i])
  {
    seq(|s|, i requires 0 <= i < |s| => Fold(s[i]))
  }

  const SIGNATURES := ["you are 'uchenab assistant'", "_system_prompt", "system prompt", "my instructions are"]
  const FALLBACK := "Maazrat, main is waqt " + "is sawal ka jawab " + "nahi de sakta."

  /** Some leak signature occurs in s, in any case. */
  predicate Leaky(s: string) {
    exists i | 0 <= i < |SIGNATURES| :: Contains(FoldText(s), SIGNATURES[i])
  }

  predicate IsBreak(c: char) {
    var n := c as int;
    0x0a <= n <= 0x0d || 0x1c <= n <= 0x1e || n == 0x85 || n == 0x2028 || n == 0x2029
  }

  /** The position of the first line break at or after i, or the end. */
  function LineEnd(s: string, i: nat): (e: nat)
    requires i <= |s|
    ensures i <= e <= |s| && (e < |s| ==> IsBreak(s[e])) && forall j :: i <= j < e ==> !IsBreak(s[j])
    decreases |s| - i
  {
    if i == |s| || IsBreak(s[i]) then i else LineEnd(s, i + 1)
  }

  /** The length of the line break at e: carriage return and line feed are one break. */
  function Width(s: string, e: nat): (n: nat)
    requires e < |s|
    ensures e + n <= |s|
  {
    if s[e] == '\r' && e + 1 < |s| && s[e + 1] == '\n' then 2 else 1
  }

  /** What follows the line break at e. */
  function AfterBreak(s: string, e: nat): (rest: string)
    requires e < |s|
    ensures |rest| < |s|
  {
    s[e + Width(s, e)..]
  }

  /** Python's str.splitlines. */
  function SplitLines(s: string): seq<string>
    decreases |s|
  {
    if s == "" then []
    else
      var e := LineEnd(s, 0);
      if e == |s| then [s] else [s[..e]] + SplitLines(AfterBreak(s, e))
  }

  function Safe(lines: seq<string>): seq<string> {
    if lines == [] then [] else (if Leaky(lines[0]) then [] else [lines[0]]) + Safe(lines[1..])
  }

  function ScrubLeaks(text: string): string {
    if !Leaky(text) then text
    else
      var cleaned := Strip(JoinWith(Safe(SplitLines(text)), "\n"));
      if cleaned != "" then cleaned else FALLBACK
  }

  lemma FoldAppend(a: string, b: string)
    ensures FoldText(a + b) == FoldText(a) + FoldText(b)
  {
  }

  lemma AtPart(a: string, b: string, c: string, sig: string, i: nat)
    requires At(b, sig, i)
    ensures At(a + b + c, sig, |a| + i)
  {
    assert (a + b + c)[|a| + i..|a| + i + |sig|] == b[i..i + |sig|];
  }

  /** An occurrence that does not reach over the character c, which sig does not have, lies on one side of it. */
  lemma AtSide(a: string, c: char, b: string, sig: string, i: nat)
    requires c !in sig && At(a + [c] + b, sig, i)
    ensures Contains(a, sig) || Contains(b, sig)
  {
    var s := a + [c] + b;
    if i + |sig| <= |a| {
      assert a[i..i + |sig|] == s[i..i + |sig|];
      assert At(a, sig, i);
    } else if i > |a| {
      assert b[i - |a| - 1..i - |a| - 1 + |sig|] == s[i..i + |sig|];
      assert At(b, sig, i - |a| - 1);
    } else {
      AtChar(s, sig, i, |a| - i);
    }
  }

  lemma ContainsGlued(a: string, c: char, b: string, sig: string)
    requires c !in sig
    ensures Contains(a + [c] + b, sig) <==> Contains(a, sig) || Contains(b, sig)
  {
    var s := a + [c] + b;
    if Contains(a, sig) {
      var i: nat :| i <= |a| && At(a, sig, i);
      AtPart("", a, [c] + b, sig, i);
      assert "" + a + ([c] + b) == s;
    }
    if Contains(b, sig) {
      var i: nat :| i <= |b| && At(b, sig, i);
      AtPart(a + [c], b, "", sig, i);
      assert a + [c] + b + "" == s;
    }
    if Contains(s, sig) {
      var i: nat :| i <= |s| && At(s, sig, i);
      AtSide(a, c, b, sig, i);
    }
  }

  /** A line break or a bracket: no signature has one, and no character folds to it but itself. */
  predicate Fence(c: char) {
    IsBreak(c) || c == '[' || c == ']'
  }

  lemma FenceAbsent(c: char, i: nat)
    requires Fence(c) && i < |SIGNATURES|
    ensures c !in SIGNATURES[i] && Fold(c) == c
  {
    if i == 0 {
      assert c !in "you are 'uchenab assistant'";
    } else if i == 1 {
      assert c !in "_system_prompt";
    } else if i == 2 {
      assert c !in "system prompt";
    } else {
      assert c !in "my instructions are";
    }
  }

  /** A leak does not reach over a fence. */
  lemma LeakyGlued(a: string, c: char, b: string)
    requires Fence(c)
    ensures Leaky(a + [c] + b) <==> Leaky(a) || Leaky(b)
  {
    forall i | 0 <= i < |SIGNATURES|
      ensures Contains(FoldText(a + [c] + b), SIGNATURES[i])
              <==> Contains(FoldText(a), SIGNATURES[i]) || Contains(FoldText(b), SIGNATURES[i])
    {
      FenceAbsent(c, i);
      ContainsGlued(FoldText(a), c, FoldText(b), SIGNATURES[i]);
      FoldAppend(a + [c], b);
      FoldAppend(a, [c]);
      assert FoldText([c]) == [c];
    }
  }

  /** A part of a clean text is clean. */
  lemma PartClean(a: string, b: string, c: string)
    requires !Leaky(a + b + c)
    ensures !Leaky(b)
  {
    if Leaky(b) {
      var i :| 0 <= i < |SIGNATURES| && Contains(FoldText(b), SIGNATURES[i]);
      var j: nat :| j <= |FoldText(b)| && At(FoldText(b), SIGNATURES[i], j);
      AtPart(FoldText(a), FoldText(b), FoldText(c), SIGNATURES[i], j);
      FoldAppend(a + b, c);
      FoldAppend(a, b);
    }
  }

  lemma LetterPresent(s: string, c: char, sig: string)
    requires c in sig && Contains(s, sig)
    ensures c in s
  {
    var i: nat :| i <= |s| && At(s, sig, i);
    var j :| 0 <= j < |sig| && sig[j] == c;
    AtChar(s, sig, i, j);
  }

  /** A text without one of a signature's letters does not contain it. */
  lemma LetterMissing(s: string, c: char, sig: string)
    requires c in sig && c !in s
    ensures !Contains(s, sig)
  {
    if Contains(s, sig) { LetterPresent(s, c, sig); }
  }

  /** A letter of each signature that the fallback message does not have. */
  function Missing(i: nat): char {
    if i == 1 then '_' else 'y'
  }

  lemma MissingPresent(i: nat)
    requires i < |SIGNATURES|
    ensures Missing(i) in SIGNATURES[i]
  {
    assert SIGNATURES[0][0] == 'y' && SIGNATURES[1][0] == '_' && SIGNATURES[2][1] == 'y' && SIGNATURES[3][1] == 'y';
  }

  lemma FallbackLetters(c: char)
    requires c == 'y' || c == 'Y' || c == '_'
    ensures c !in FALLBACK
  {
    assert c !in "Maazrat, main is waqt ";
    assert c !in "is sawal ka jawab ";
    assert c !in "nahi de sakta.";
  }

  lemma NotFolded(s: string)
    requires 'y' !in s && 'Y' !in s && '_' !in s
    ensures 'y' !in FoldText(s) && '_' !in FoldText(s)
  {
  }

  lemma MissingAbsent(i: nat)
    ensures Missing(i) !in FoldText(FALLBACK)
  {
    FallbackLetters('y');
    FallbackLetters('Y');
    FallbackLetters('_');
    NotFolded(FALLBACK);
  }

  /** Neither the empty text nor the fallback message leaks. */
  lemma FallbackClean()
    ensures !Leaky(FALLBACK) && !Leaky("")
  {
    forall i | 0 <= i < |SIGNATURES|
      ensures !Contains(FoldText(FALLBACK), SIGNATURES[i]) && !Contains(FoldText(""), SIGNATURES[i])
    {
      MissingPresent(i);
      MissingAbsent(i);
      LetterMissing(FoldText(FALLBACK), Missing(i), SIGNATURES[i]);
      LetterMissing(FoldText(""), Missing(i), SIGNATURES[i]);
    }
  }

  /** Joined lines leak exactly when one of them does. */
  lemma {:induction false} JoinedLeaky(lines: seq<string>)
    ensures Leaky(JoinWith(lines, "\n")) <==> exists line :: line in lines && Leaky(line)
  {
    FallbackClean();
    if |lines| > 1 {
      JoinedLeaky(lines[1..]);
      LeakyGlued(lines[0], '\n', JoinWith(lines[1..], "\n"));
      assert forall line :: line in lines <==> line == lines[0] || line in lines[1..];
    } else if |lines| == 1 {
      assert lines[0] in lines;
    }
  }

  lemma {:induction false} SafeLines(lines: seq<string>)
    ensures forall line :: line in Safe(lines) <==> line in lines && !Leaky(line)
  {
    if lines != [] {
      SafeLines(lines[1..]);
      assert forall line :: line in lines <==> line == lines[0] || line in lines[1..];
    }
  }

  /** Whatever the reply, no leak signature is left in what scrubbing returns, and it returns a reply as it is
      exactly when that has none. */
  lemma ScrubbedClean(text: string)
    ensures !Leaky(ScrubLeaks(text))
    ensures ScrubLeaks(text) == text <==> !Leaky(text)
  {
    FallbackClean();
    var safe := Safe(SplitLines(text));
    SafeLines(SplitLines(text));
    JoinedLeaky(safe);
    var left, right := StripSplits(JoinWith(safe, "\n"));
    PartClean(left, Strip(JoinWith(safe, "\n")), right);
  }

  /** What splitlines takes apart at a break. */
  lemma BreakSplits(s: string, e: nat)
    requires e < |s| && IsBreak(s[e])
    ensures s == s[..e] + [s[e]] + AfterBreak(s, e)
         || s == s[..e] + ['\r'] + ("" + ['\n'] + AfterBreak(s, e))
  {
  }

  /** A text leaks exactly when one of its lines does, so a leaking text always loses a line. */
  lemma {:induction false} LeakyLine(text: string)
    ensures Leaky(text) <==> exists line :: line in SplitLines(text) && Leaky(line)
    decreases |text|
  {
    FallbackClean();
    if text != "" {
      var e := LineEnd(text, 0);
      if e == |text| {
        assert text in SplitLines(text);
      } else {
        var first, rest := text[..e], AfterBreak(text, e);
        LeakyLine(rest);
        BreakSplits(text, e);
        LeakyGlued(first, text[e], rest);
        LeakyGlued("", '\n', rest);
        LeakyGlued(first, '\r', "" + ['\n'] + rest);
        assert forall line :: line in SplitLines(text) <==> line == first || line in SplitLines(rest);
      }
    }
  }

  lemma {:induction false} InkJoined(lines: seq<string>)
    ensures Ink(JoinWith(lines, "\n")) == Ink(Concat(lines))
  {
    if |lines| == 1 {
      ConcatOne(lines[0]);
      assert lines == [lines[0]];
    } else if |lines| > 1 {
      InkJoined(lines[1..]);
      InkAppend(lines[0] + "\n", JoinWith(lines[1..], "\n"));
      InkAppend(lines[0], "\n");
      InkBlank("\n");
      InkAppend(lines[0], Concat(lines[1..]));
    }
  }

  lemma BreakBlank(s: string, e: nat)
    requires e < |s| && IsBreak(s[e])
    ensures Blank(s[e..e + Width(s, e)])
  {
  }

  lemma InkAfterBreak(s: string, e: nat)
    requires e < |s| && IsBreak(s[e])
    ensures Ink(s) == Ink(s[..e]) + Ink(AfterBreak(s, e))
  {
    BreakBlank(s, e);
    InkAround(s, e, e + Width(s, e));
  }

  /** Splitting into lines drops only white space. */
  lemma {:induction false} InkLines(text: string)
    ensures Ink(Concat(SplitLines(text))) == Ink(text)
    decreases |text|
  {
    if text != "" {
      var e := LineEnd(text, 0);
      if e == |text| {
        ConcatOne(text);
      } else {
        InkLines(AfterBreak(text, e));
        InkAfterBreak(text, e);
        InkConcat(text[..e], SplitLines(AfterBreak(text, e)));
      }
    }
  }

  /** The lines that leak. */
  function Leaking(lines: seq<string>): seq<string> {
    if lines == [] then []
    else if Leaky(lines[0]) then [lines[0]] + Leaking(lines[1..])
    else Leaking(lines[1..])
  }

  /** The ink of the lines, as often as it comes. */
  function InkBag(lines: seq<string>): multiset<char> {
    if lines == [] then multiset{} else multiset(Ink(lines[0])) + InkBag(lines[1..])
  }

  lemma {:induction false} BagOfInk(lines: seq<string>)
    ensures multiset(Ink(Concat(lines))) == InkBag(lines)
  {
    if lines != [] {
      BagOfInk(lines[1..]);
      InkAppend(lines[0], Concat(lines[1..]));
    }
  }

  lemma BagCons(first: string, rest: seq<string>)
    ensures InkBag([first] + rest) == multiset(Ink(first)) + InkBag(rest)
  {
    assert ([first] + rest)[1..] == rest;
  }

  lemma BagMoves(bag: multiset<char>, a: multiset<char>, b: multiset<char>, more: multiset<char>)
    requires bag == a + b
    ensures more + bag == (more + a) + b == a + (more + b)
  {
  }

  lemma {:induction false} InkParted(lines: seq<string>)
    ensures InkBag(lines) == InkBag(Safe(lines)) + InkBag(Leaking(lines))
  {
    if lines == [] {
      assert Safe(lines) == [] && Leaking(lines) == [];
    } else {
      var first, rest := lines[0], lines[1..];
      InkParted(rest);
      BagMoves(InkBag(rest), InkBag(Safe(rest)), InkBag(Leaking(rest)), multiset(Ink(first)));
      if Leaky(first) {
        assert Safe(lines) == Safe(rest) && Leaking(lines) == [first] + Leaking(rest);
        BagCons(first, Leaking(rest));
      } else {
        assert Safe(lines) == [first] + Safe(rest) && Leaking(lines) == Leaking(rest);
        BagCons(first, Safe(rest));
      }
    }
  }

  /** Scrubbing keeps the ink of every line that does not leak, in order: of the text's own ink it drops that of
      the leaking lines and no other. Only when nothing is left does the fallback message take its place. */
  lemma ScrubKeeps(text: string)
    requires Leaky(text)
    ensures var kept := Ink(Concat(Safe(SplitLines(text))));
      && Ink(ScrubLeaks(text)) == (if kept != "" then kept else Ink(FALLBACK))
      && multiset(Ink(text)) == multiset(kept) + InkBag(Leaking(SplitLines(text)))
  {
    var joined := JoinWith(Safe(SplitLines(text)), "\n");
    InkLines(text);
    InkParted(SplitLines(text));
    BagOfInk(SplitLines(text));
    BagOfInk(Safe(SplitLines(text)));
    InkJoined(Safe(SplitLines(text)));
    InkStrip(joined);
    var left, right := StripSplits(joined);
    if Strip(joined) != "" { assert Ink(Strip(joined)) != ""; }
  }

  // ---- What the definitions above come to, letter by letter.

  /** c is the lower-case letter or the sign l, in any case. */
  predicate Spells(c: char, l: char) {
    || c == l || ('A' <= c <= 'Z' && c as int + 32 == l as int)
    || (l == 'i' && c in "\U{130}\U{131}") || (l == 's' && c == '\U{17F}') || (l == 'k' && c == '\U{212A}')
  }

  predicate SpeltAt(s: string, words: string, i: nat) {
    i + |words| <= |s| && forall j :: 0 <= j < |words| ==> Spells(s[i + j], words[j])
  }

  ghost predicate Spelt(s: string, words: string) {
    exists i: nat :: SpeltAt(s, words, i)
  }

  /** Lower-case letters, spaces, underscores and quotes. */
  predicate Plain(words: string) {
    forall j :: 0 <= j < |words| ==> 'a' <= words[j] <= 'z' || words[j] in " _'"
  }

  lemma FoldSpells(c: char, l: char)
    requires 'a' <= l <= 'z' || l in " _'"
    ensures Fold(c) == l <==> Spells(c, l)
  {
  }

  lemma SpeltContains(s: string, words: string)
    requires Plain(words)
    ensures Contains(FoldText(s), words) <==> Spelt(s, words)
  {
    forall i: nat ensures At(FoldText(s), words, i) <==> SpeltAt(s, words, i) { SpeltHere(s, words, i); }
    if Spelt(s, words) {
      var i: nat :| SpeltAt(s, words, i);
      assert i <= |FoldText(s)| && At(FoldText(s), words, i);
    }
  }

  lemma SpeltHere(s: string, words: string, i: nat)
    requires Plain(words)
    ensures At(FoldText(s), words, i) <==> SpeltAt(s, words, i)
  {
    if i + |words| <= |s| {
      var f := FoldText(s);
      forall j | 0 <= j < |words| ensures f[i..i + |words|][j] == words[j] <==> Spells(s[i + j], words[j]) {
        FoldSpells(s[i + j], words[j]);
      }
      if SpeltAt(s, words, i) { assert f[i..i + |words|] == words; }
    }
  }

  /** A text leaks exactly when it spells one of the four signatures, in any case. */
  lemma LeakyExactly(s: string)
    ensures Leaky(s) <==>
              || Spelt(s, "you are 'uchenab assistant'") || Spelt(s, "_system_prompt")
              || Spelt(s, "system prompt") || Spelt(s, "my instructions are")
  {
    SignatureSpelt(s, 0);
    SignatureSpelt(s, 1);
    SignatureSpelt(s, 2);
    SignatureSpelt(s, 3);
    assert Leaky(s) <==> exists i | 0 <= i < 4 :: Contains(FoldText(s), SIGNATURES[i]);
  }

  lemma SignatureSpelt(s: string, i: nat)
    requires i < |SIGNATURES|
    ensures Contains(FoldText(s), SIGNATURES[i]) <==> Spelt(s, SIGNATURES[i])
  {
    SignaturePlain(i);
    SpeltContains(s, SIGNATURES[i]);
  }

  lemma SignaturePlain(i: nat)
    requires i < |SIGNATURES|
    ensures Plain(SIGNATURES[i])
  {
    if i == 0 {
      assert Plain("you are 'uchenab assistant'");
    } else if i == 1 {
      assert Plain("_system_prompt");
    } else if i == 2 {
      assert Plain("system prompt");
    } else {
      assert Plain("my instructions are");
    }
  }

  /** The lines with their ends, one after the other. */
  function Lay(lines: seq<string>, ends: seq<string>): string
    requires |lines| == |ends|
  {
    if lines == [] then "" else lines[0] + ends[0] + Lay(lines[1..], ends[1..])
  }

  const BREAKS := "\n\U{0B}\U{0C}\r\U{1C}\U{1D}\U{1E}\U{85}\U{2028}\U{2029}"

  /** A line without line breaks, and its end: one of them, or "\r\n", or nothing after an unempty last line. */
  predicate IsLine(line: string, end: string, last: bool) {
    && (forall c :: c in line ==> c !in BREAKS)
    && ((|end| == 1 && end[0] in BREAKS) || end == "\r\n" || (end == "" && last && line != ""))
  }

  /** The lines of the text: laid end to end they are the text, and no break is taken for two. */
  ghost predicate AreLines(text: string, lines: seq<string>, ends: seq<string>) {
    && |lines| == |ends| && Lay(lines, ends) == text
    && (forall i :: 0 <= i < |lines| ==> IsLine(lines[i], ends[i], i == |lines| - 1))
    && (forall i :: 0 < i < |lines| && ends[i - 1] == "\r" ==> lines[i] != "" || ends[i] != "\n")
  }

  lemma {:induction false} SplitLinesExactly(text: string) returns (ends: seq<string>)
    ensures AreLines(text, SplitLines(text), ends)
    decreases |text|
  {
    ends := [];
    if text != "" {
      var e := LineEnd(text, 0);
      if e == |text| {
        ends := [""];
        assert Lay([text], [""]) == text + "" + Lay([], []);
      } else {
        var rest := AfterBreak(text, e);
        var later := SplitLinesExactly(rest);
        ends := [text[e..e + Width(text, e)]] + later;
        LinesCons(text, e, later);
      }
    }
  }

  lemma LinesCons(text: string, e: nat, later: seq<string>)
    requires e < |text| && IsBreak(text[e]) && forall i :: 0 <= i < e ==> !IsBreak(text[i])
    requires AreLines(AfterBreak(text, e), SplitLines(AfterBreak(text, e)), later)
    ensures AreLines(text, [text[..e]] + SplitLines(AfterBreak(text, e)), [text[e..e + Width(text, e)]] + later)
  {
    var first, end, rest := text[..e], text[e..e + Width(text, e)], AfterBreak(text, e);
    ThreeParts(text, e, e + Width(text, e));
    FirstLine(text, e);
    if Width(text, e) == 1 && text[e] == '\r' { NoLineFeed(rest, SplitLines(rest), later); }
    AreLinesCons(first, end, rest, SplitLines(rest), later);
  }

  lemma FirstLine(text: string, e: nat)
    requires e < |text| && IsBreak(text[e]) && forall i :: 0 <= i < e ==> !IsBreak(text[i])
    ensures IsLine(text[..e], text[e..e + Width(text, e)], false)
  {
    assert text[e..e + Width(text, e)] == if Width(text, e) == 2 then "\r\n" else [text[e]];
  }

  lemma NoLineFeed(rest: string, lines: seq<string>, ends: seq<string>)
    requires AreLines(rest, lines, ends) && (rest != "" ==> rest[0] != '\n')
    ensures lines != [] ==> lines[0] != "" || ends[0] != "\n"
  {
  }

  lemma AreLinesCons(first: string, end: string, rest: string, lines: seq<string>, ends: seq<string>)
    requires AreLines(rest, lines, ends) && IsLine(first, end, false)
    requires end == "\r" && lines != [] ==> lines[0] != "" || ends[0] != "\n"
    ensures AreLines(first + end + rest, [first] + lines, [end] + ends)
  {
    var all, allEnds := [first] + lines, [end] + ends;
    assert all[1..] == lines && allEnds[1..] == ends;
    forall i | 0 <= i < |all| ensures IsLine(all[i], allEnds[i], i == |all| - 1) {
      if i > 0 { assert all[i] == lines[i - 1] && allEnds[i] == ends[i - 1]; }
    }
    forall i | 0 < i < |all| && allEnds[i - 1] == "\r" ensures all[i] != "" || allEnds[i] != "\n" {
      assert all[i] == lines[i - 1] && allEnds[i] == ends[i - 1];
      if i > 1 { assert allEnds[i - 1] == ends[i - 2]; }
    }
  }

  /** What the scrubbing of a leaking text gives: the lines that do not leak, joined by line feeds and stripped, or
      the message if that is empty. */
  lemma ScrubExactly(text: string)
    requires Leaky(text)
    ensures var kept := Strip(JoinWith(Filter(SplitLines(text), line => !Leaky(line)), "\n"));
      ScrubLeaks(text)
      == if kept != "" then kept
         else "Maazrat, main is waqt " + "is sawal ka jawab " + "nahi de sakta."
  {
    SafeExactly(SplitLines(text));
  }

  lemma {:induction false} SafeExactly(lines: seq<string>)
    ensures Safe(lines) == Filter(lines, line => !Leaky(line))
  {
    if lines != [] { SafeExactly(lines[1..]); }
  }

  datatype Match = Match(start: nat, end: nat)

  /** The matches of one pattern, as re.sub finds them: in order, apart, and inside the text. */
  predicate Matches(s: string, found: seq<Match>) {
    && (forall i :: 0 <= i < |found| ==> found[i].start <= found[i].end <= |s|)
    && (forall i :: 0 < i < |found| ==> found[i - 1].end <= found[i].start)
  }

  /** s from position at on, with every match replaced by the bracketed tag. */
  function Substitute(s: string, at: nat, found: seq<Match>, tag: string): string
    requires Matches(s, found) && at <= |s| && (found != [] ==> at <= found[0].start)
    decreases |found|
  {
    if found == [] then s[at..]
    else s[at..found[0].start] + ['['] + tag + [']'] + Substitute(s, found[0].end, found[1..], tag)
  }

  /** What lies between the matches, from position at on. */
  function Outside(s: string, at: nat, found: seq<Match>): (parts: seq<string>)
    requires Matches(s, found) && at <= |s| && (found != [] ==> at <= found[0].start)
    ensures |parts| == |found| + 1
  {
    seq(|found| + 1, i requires 0 <= i <= |found| =>
      s[(if i == 0 then at else found[i - 1].end)..(if i == |found| then |s| else found[i].start)])
  }

  /** The matched texts. */
  function Inside(s: string, found: seq<Match>): (matched: seq<string>)
    requires Matches(s, found)
    ensures |matched| == |found|
  {
    seq(|found|, i requires 0 <= i < |found| => s[found[i].start..found[i].end])
  }

  lemma TailMatches(s: string, found: seq<Match>)
    requires Matches(s, found) && found != []
    ensures Matches(s, found[1..]) && (|found| > 1 ==> found[0].end <= found[1..][0].start)
    ensures Inside(s, found)[1..] == Inside(s, found[1..])
  {
    var tail := found[1..];
    assert forall i :: 0 <= i < |tail| ==> tail[i] == found[i + 1];
    assert forall i :: 0 < i < |tail| ==> tail[i - 1] == found[i];
  }

  lemma OutsideCons(s: string, at: nat, found: seq<Match>)
    requires Matches(s, found) && found != [] && at <= found[0].start
    ensures Matches(s, found[1..]) && (|found| > 1 ==> found[0].end <= found[1..][0].start)
    ensures Outside(s, at, found) == [s[at..found[0].start]] + Outside(s, found[0].end, found[1..])
  {
    TailMatches(s, found);
  }

  /** The text is what lies outside its matches with the matches between. */
  lemma {:induction false} OutsideInside(s: string, at: nat, found: seq<Match>)
    requires Matches(s, found) && at <= |s| && (found != [] ==> at <= found[0].start)
    ensures Lay(Outside(s, at, found), Inside(s, found) + [""]) == s[at..]
    decreases |found|
  {
    if found == [] {
      NoneOutside(s, at);
    } else {
      OutsideCons(s, at, found);
      TailMatches(s, found);
      OutsideInside(s, found[0].end, found[1..]);
      InsideCons(s, at, found);
    }
  }

  /** The substitution is the same with one bracketed tag in the place of each match: the rest stays, in order, and
      nothing of a match does. */
  lemma {:induction false} SubstituteExactly(s: string, at: nat, found: seq<Match>, tag: string)
    requires Matches(s, found) && at <= |s| && (found != [] ==> at <= found[0].start)
    ensures Substitute(s, at, found, tag) == JoinWith(Outside(s, at, found), "[" + tag + "]")
    decreases |found|
  {
    if found == [] {
      NoneOutside(s, at);
    } else {
      OutsideCons(s, at, found);
      SubstituteExactly(s, found[0].end, found[1..], tag);
      JoinWithCons(s[at..found[0].start], Outside(s, found[0].end, found[1..]), "[" + tag + "]");
      Bracketed(s[at..found[0].start], tag, Substitute(s, found[0].end, found[1..], tag));
    }
  }

  lemma Bracketed(head: string, tag: string, rest: string)
    ensures head + ['['] + tag + [']'] + rest == head + ("[" + tag + "]") + rest
  {
    assert "[" + tag + "]" == ['['] + tag + [']'];
  }

  lemma NoneOutside(s: string, at: nat)
    requires at <= |s|
    ensures Outside(s, at, []) == [s[at..]] && Inside(s, []) == [] && Lay([s[at..]], [""]) == s[at..]
  {
    var one := [s[at..]];
    assert s[at..|s|] == s[at..];
    assert one[1..] == [] && [""][1..] == [];
    assert s[at..] + "" + "" == s[at..];
  }

  lemma InsideCons(s: string, at: nat, found: seq<Match>)
    requires Matches(s, found) && found != [] && at <= found[0].start
    requires Matches(s, found[1..]) && (|found| > 1 ==> found[0].end <= found[1..][0].start)
    requires Outside(s, at, found) == [s[at..found[0].start]] + Outside(s, found[0].end, found[1..])
    requires Inside(s, found)[1..] == Inside(s, found[1..])
    requires Lay(Outside(s, found[0].end, found[1..]), Inside(s, found[1..]) + [""]) == s[found[0].end..]
    ensures Lay(Outside(s, at, found), Inside(s, found) + [""]) == s[at..]
  {
    var matched := s[found[0].start..found[0].end];
    LayCons(s[at..found[0].start], Outside(s, found[0].end, found[1..]), matched, Inside(s, found[1..]) + [""]);
    assert Inside(s, found) + [""] == [matched] + (Inside(s, found[1..]) + [""]);
    assert s[at..] == s[at..found[0].start] + matched + s[found[0].end..];
  }

  lemma LayCons(line: string, lines: seq<string>, end: string, ends: seq<string>)
    requires |lines| == |ends|
    ensures Lay([line] + lines, [end] + ends) == line + end + Lay(lines, ends)
  {
    assert ([line] + lines)[1..] == lines && ([end] + ends)[1..] == ends;
  }

  /** Any bracketed substitution keeps a clean text clean. */
  lemma {:induction false} SubstituteClean(s: string, at: nat, found: seq<Match>, tag: string)
    requires Matches(s, found) && at <= |s| && (found != [] ==> at <= found[0].start)
    requires !Leaky(s) && !Leaky(tag)
    ensures !Leaky(Substitute(s, at, found, tag))
    decreases |found|
  {
    if found == [] {
      assert s == s[..at] + s[at..] + "";
      PartClean(s[..at], s[at..], "");
    } else {
      var i, rest := found[0].start, Substitute(s, found[0].end, found[1..], tag);
      var head := s[at..i];
      SubstituteClean(s, found[0].end, found[1..], tag);
      assert s == s[..at] + head + s[i..];
      PartClean(s[..at], head, s[i..]);
      LeakyGlued(tag, ']', rest);
      LeakyGlued(head, '[', tag + [']'] + rest);
      assert Substitute(s, at, found, tag) == head + ['['] + (tag + [']'] + rest);
    }
  }

  /** A pattern with its bracketed replacement. What it matches is left open. */
  datatype Pattern = Pattern(matches: string -> seq<Match>, tag: string)

  const TAGS := ["REDACTED-CNIC", "REDACTED-CARD", "REDACTED-KEY", "REDACTED-TOKEN"]

  /** The replacements are the source's, one a pattern, and each pattern finds matches as re.sub does. */
  ghost predicate ArePatterns(patterns: seq<Pattern>) {
    && |patterns| == |TAGS|
    && forall i :: 0 <= i < |TAGS| ==> patterns[i].tag == TAGS[i] && forall s :: Matches(s, patterns[i].matches(s))
  }

  /** The text after the first n patterns. */
  ghost function Redacted(text: string, patterns: seq<Pattern>, n: nat): string
    requires ArePatterns(patterns) && n <= |TAGS|
  {
    if n == 0 then text
    else
      var out, p := Redacted(text, patterns, n - 1), patterns[n - 1];
      Substitute(out, 0, p.matches(out), p.tag)
  }

  lemma RedactedStep(text: string, patterns: seq<Pattern>, n: nat)
    requires ArePatterns(patterns) && n < |TAGS|
    ensures var before := Redacted(text, patterns, n);
      Redacted(text, patterns, n + 1)
      == JoinWith(Outside(before, 0, patterns[n].matches(before)), "[" + TAGS[n] + "]")
  {
    var before := Redacted(text, patterns, n);
    SubstituteExactly(before, 0, patterns[n].matches(before), TAGS[n]);
  }

  /** In each of the four passes every match gives way to that pattern's replacement. */
  lemma RedactedExactly(text: string, patterns: seq<Pattern>, out: seq<string>)
    requires ArePatterns(patterns) && |out| == 5
    requires forall n :: 0 <= n <= 4 ==> out[n] == Redacted(text, patterns, n)
    ensures out[0] == text
    ensures out[1] == JoinWith(Outside(out[0], 0, patterns[0].matches(out[0])), "[REDACTED-CNIC]")
    ensures out[2] == JoinWith(Outside(out[1], 0, patterns[1].matches(out[1])), "[REDACTED-CARD]")
    ensures out[3] == JoinWith(Outside(out[2], 0, patterns[2].matches(out[2])), "[REDACTED-KEY]")
    ensures out[4] == JoinWith(Outside(out[3], 0, patterns[3].matches(out[3])), "[REDACTED-TOKEN]")
  {
    RedactedStep(text, patterns, 0);
    RedactedStep(text, patterns, 1);
    RedactedStep(text, patterns, 2);
    RedactedStep(text, patterns, 3);
    TagsBracketed();
  }

  lemma TagsBracketed()
    ensures "[" + TAGS[0] + "]" == "[REDACTED-CNIC]" && "[" + TAGS[1] + "]" == "[REDACTED-CARD]"
    ensures "[" + TAGS[2] + "]" == "[REDACTED-KEY]" && "[" + TAGS[3] + "]" == "[REDACTED-TOKEN]"
  {
  }

  /** Every signature has an s, and no replacement folds to one. */
  lemma TagClean(i: nat)
    requires i < |TAGS|
    ensures !Leaky(TAGS[i])
  {
    forall j | 0 <= j < |SIGNATURES| ensures !Contains(FoldText(TAGS[i]), SIGNATURES[j]) {
      TagLetters(i);
      SignatureLetter(j);
      LetterMissing(FoldText(TAGS[i]), 's', SIGNATURES[j]);
    }
  }

  lemma TagLetters(i: nat)
    requires i < |TAGS|
    ensures 's' !in FoldText(TAGS[i])
  {
    assert 's' !in TAGS[i] && 'S' !in TAGS[i] && '\U{017F}' !in TAGS[i];
  }

  lemma SignatureLetter(j: nat)
    requires j < |SIGNATURES|
    ensures 's' in SIGNATURES[j]
  {
    assert SIGNATURES[0][18] == 's' && SIGNATURES[1][1] == 's' && SIGNATURES[2][0] == 's' && SIGNATURES[3][5] == 's';
  }

  /** Redaction after scrubbing brings no leak back, whatever the patterns match. */
  lemma {:induction false} RedactedClean(text: string, patterns: seq<Pattern>, n: nat)
    requires ArePatterns(patterns) && n <= |TAGS| && !Leaky(text)
    ensures !Leaky(Redacted(text, patterns, n))
  {
    if n > 0 {
      RedactedClean(text, patterns, n - 1);
      TagClean(n - 1);
      var out := Redacted(text, patterns, n - 1);
      SubstituteClean(out, 0, patterns[n - 1].matches(out), TAGS[n - 1]);
    }
  }

  method RedactPii(text: string, patterns: seq<Pattern>) returns (out: string)
    requires ArePatterns(patterns)
    ensures out == Redacted(text, patterns, |TAGS|)
    ensures !Leaky(text) ==> !Leaky(out)
  {
    out := text;
    for i := 0 to |patterns|
      invariant out == Redacted(text, patterns, i)
    {
      out := Substitute(out, 0, patterns[i].matches(out), patterns[i].tag);
    }
    if !Leaky(text) { RedactedClean(text, patterns, |TAGS|); }
  }

  predicate Devanagari(s: string) {
    exists c :: c in s && '\U{0900}' <= c <= '\U{097F}'
  }

  /** The language model's reply takes the place of the text: it was asked, it answered, and its answer,
      stripped, is not empty and has no Devanagari. */
  predicate Converts(out: string, reply: Option<string>) {
    Devanagari(out) && reply.Some? && Strip(reply.value) != "" && !Devanagari(Strip(reply.value))
  }

  /** The output pipeline. A leak is left exactly when the guardrails are off and the text has one, or they are
      on and the language model's own reply, which is not scrubbed again, takes the text's place and brings one. */
  method ApplyOutput(text: string, enabled: bool, patterns: seq<Pattern>, enforce: bool, reply: Option<string>)
    returns (out: string)
    requires ArePatterns(patterns)
    ensures var redacted := Redacted(ScrubLeaks(text), patterns, |TAGS|);
      && (out == if !enabled then text
                 else if enforce && Converts(redacted, reply) then Strip(reply.value) else redacted)
      && (Leaky(out) <==>
            if enabled then enforce && Converts(redacted, reply) && Leaky(Strip(reply.value)) else Leaky(text))
      && (Converts(redacted, reply) <==>
            && (exists c :: c in redacted && '\U{0900}' <= c <= '\U{097F}')
            && reply.Some? && !Blank(reply.value)
            && (forall c :: c in Strip(reply.value) ==> !('\U{0900}' <= c <= '\U{097F}')))
  {
    if reply.Some? { BlankStrip(reply.value); }
    if !enabled { return text; }
    out := ScrubLeaks(text);
    ScrubbedClean(text);
    out := RedactPii(out, patterns);
    if enforce && Converts(out, reply) {
      out := Strip(reply.value);
    }
  }
}
