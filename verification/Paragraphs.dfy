/** The paragraph split of the simple chunker, re.split(r"\n\s*\n", content), and its inverse. */
module Paragraphs {
  import opened Text

  /** The first position from i on that does not hold white space, or the length of s. */
  function RunEnd(s: string, i: nat): (e: nat)
    requires i <= |s|
    ensures i <= e <= |s| && (forall k :: i <= k < e ==> IsSpace(s[k])) && (e < |s| ==> !IsSpace(s[e]))
    decreases |s| - i
  {
    if i < |s| && IsSpace(s[i]) then RunEnd(s, i + 1) else i
  }

  /** The last newline among positions lo .. hi - 1. */
  function LastNewline(s: string, lo: nat, hi: nat): (r: Option<nat>)
    requires hi <= |s|
    ensures r.Some? ==> lo <= r.value < hi && s[r.value] == '\n' && forall j :: r.value < j < hi ==> s[j] != '\n'
    ensures r.None? ==> forall j :: lo <= j < hi ==> s[j] != '\n'
    decreases hi
  {
    if hi <= lo then None else if s[hi - 1] == '\n' then Some(hi - 1) else LastNewline(s, lo, hi - 1)
  }

  /** Two newlines with only white space between them, at i and j. */
  predicate Gap(s: string, i: nat, j: nat) {
    i < j < |s| && s[i] == '\n' && s[j] == '\n' && forall k :: i < k < j ==> IsSpace(s[k])
  }

  lemma GapBeforeRunEnd(s: string, i: nat, j: nat)
    requires Gap(s, i, j)
    ensures j < RunEnd(s, i + 1)
  {
  }

  /** Where the greedy match of \n\s*\n at i ends, if there is one. */
  function MatchEnd(s: string, i: nat): (r: Option<nat>)
    requires i < |s|
    ensures r.Some? ==> r.value >= 1 && Gap(s, i, r.value - 1) && forall j: nat :: r.value <= j ==> !Gap(s, i, j)
    ensures r.None? ==> forall j: nat :: !Gap(s, i, j)
  {
    if s[i] != '\n' then None
    else
      var run := RunEnd(s, i + 1);
      assert forall j: nat :: Gap(s, i, j) ==> j < run by {
        forall j: nat | Gap(s, i, j) ensures j < run { GapBeforeRunEnd(s, i, j); }
      }
      match LastNewline(s, i + 1, run)
      case None => None
      case Some(j) =>
        Some(j + 1)
  }

  /** The leftmost match at or after i, as its two ends. */
  function FindGap(s: string, i: nat): (r: Option<(nat, nat)>)
    requires i <= |s|
    ensures r.Some? ==> var (a, b) := r.value;
              && i <= a < b - 1 < |s| && Gap(s, a, b - 1)
              && (forall k: nat, j: nat :: i <= k < a ==> !Gap(s, k, j))
              && (forall j: nat :: b <= j ==> !Gap(s, a, j))
    ensures r.None? ==> forall k: nat, j: nat :: i <= k ==> !Gap(s, k, j)
    decreases |s| - i
  {
    if i == |s| then None
    else match MatchEnd(s, i)
      case Some(b) => Some((i, b))
      case None => FindGap(s, i + 1)
  }

  /** re.split: the text before, between and after the matches. */
  function SplitGaps(s: string): (parts: seq<string>)
    ensures |parts| >= 1
    decreases |s|
  {
    match FindGap(s, 0)
    case None => [s]
    case Some((a, b)) => [s[..a]] + SplitGaps(s[b..])
  }

  ghost predicate NoGap(s: string) {
    forall i: nat, j: nat :: !Gap(s, i, j)
  }

  /** A paragraph as the chunker keeps it: not empty, stripped, and not divisible further. */
  ghost predicate Clean(p: string) {
    p != "" && Tight(p) && NoGap(p)
  }

  /** The parts, stripped, without the empty ones. */
  function KeepStripped(parts: seq<string>): seq<string> {
    if parts == [] then []
    else (if Strip(parts[0]) == "" then [] else [Strip(parts[0])]) + KeepStripped(parts[1..])
  }

  function ParagraphsOf(content: string): seq<string> {
    KeepStripped(SplitGaps(content))
  }

  /** Every paragraph is clean. */
  lemma ParagraphsClean(content: string)
    ensures forall p :: p in ParagraphsOf(content) ==> Clean(p)
  {
    PartsNoGap(content);
    KeptClean(SplitGaps(content));
  }

  lemma {:induction false} PartsNoGap(s: string)
    ensures forall p :: p in SplitGaps(s) ==> NoGap(p)
    decreases |s|
  {
    FirstNoGap(s);
    var gap := FindGap(s, 0);
    if gap.Some? { PartsNoGap(s[gap.value.1..]); }
  }

  lemma FirstNoGap(s: string)
    ensures NoGap(SplitGaps(s)[0])
  {
    var p := SplitGaps(s)[0];
    assert s == "" + p + s[|p|..];
    forall i: nat, j: nat ensures !Gap(p, i, j) {
      if Gap(p, i, j) { GapWithin(p, "", s[|p|..], i, j); }
    }
  }

  /** A gap stays one inside a longer string. */
  lemma GapWithin(s: string, before: string, after: string, i: nat, j: nat)
    requires Gap(s, i, j)
    ensures Gap(before + s + after, |before| + i, |before| + j)
  {
  }

  lemma {:induction false} KeptClean(parts: seq<string>)
    requires forall p :: p in parts ==> NoGap(p)
    ensures forall p :: p in KeepStripped(parts) ==> Clean(p)
  {
    if parts != [] {
      KeptClean(parts[1..]);
      StrippedClean(parts[0]);
    }
  }

  lemma StrippedClean(s: string)
    requires NoGap(s)
    ensures Strip(s) != "" ==> Clean(Strip(s))
  {
    var p := Strip(s);
    var left, right := StripSplits(s);
    assert s == left + p + right;
    forall i: nat, j: nat ensures !Gap(p, i, j) {
      if Gap(p, i, j) { GapWithin(p, left, right, i, j); }
    }
  }

  /** Joining clean paragraphs with blank lines and splitting again gives the same paragraphs. */
  lemma {:induction false} SplitJoin(paras: seq<string>)
    requires paras != [] && forall p :: p in paras ==> Clean(p)
    ensures SplitGaps(JoinBlank(paras)) == paras
    decreases |paras|
  {
    var s, p := JoinBlank(paras), paras[0];
    assert Clean(p);
    if |paras| > 1 {
      var rest := JoinBlank(paras[1..]);
      SplitJoin(paras[1..]);
      JoinStarts(paras[1..]);
      JoinGap(p, rest);
      assert s[..|p|] == p && s[|p| + 2..] == rest;
    } else {
      assert FindGap(s, 0).None?;
    }
  }

  lemma JoinStarts(paras: seq<string>)
    requires paras != [] && forall p :: p in paras ==> Clean(p)
    ensures JoinBlank(paras) != "" && !IsSpace(JoinBlank(paras)[0])
  {
    assert Clean(paras[0]);
    assert JoinBlank(paras)[0] == paras[0][0];
  }

  /** The first gap of p, blank line, rest is the blank line. */
  lemma JoinGap(p: string, rest: string)
    requires Clean(p) && rest != "" && !IsSpace(rest[0])
    ensures FindGap(p + "\n\n" + rest, 0) == Some((|p|, |p| + 2))
  {
    var s := p + "\n\n" + rest;
    forall k: nat, j: nat | k < |p| ensures !Gap(s, k, j) { NoGapBefore(p, rest, k, j); }
    assert Gap(s, |p|, |p| + 1);
    forall j: nat | j >= |p| + 2 ensures !Gap(s, |p|, j) { NoGapBeyond(p, rest, j); }
    FindGapUnique(s, |p|, |p| + 2);
  }

  lemma FindGapUnique(s: string, a: nat, b: nat)
    requires a + 1 < b && Gap(s, a, b - 1)
    requires forall k: nat, j: nat :: k < a ==> !Gap(s, k, j)
    requires forall j: nat :: b <= j ==> !Gap(s, a, j)
    ensures FindGap(s, 0) == Some((a, b))
  {
    var (x, y) := FindGap(s, 0).value;
    assert Gap(s, x, y - 1);
  }

  lemma NoGapBefore(p: string, rest: string, k: nat, j: nat)
    requires Clean(p) && k < |p|
    ensures !Gap(p + "\n\n" + rest, k, j)
  {
    var s := p + "\n\n" + rest;
    assert !Gap(p, k, j) && !IsSpace(s[|p| - 1]);
    assert forall i :: 0 <= i < |p| ==> s[i] == p[i];
  }

  lemma NoGapBeyond(p: string, rest: string, j: nat)
    requires rest != "" && !IsSpace(rest[0]) && j >= |p| + 2
    ensures !Gap(p + "\n\n" + rest, |p|, j)
  {
    var s := p + "\n\n" + rest;
    assert !IsSpace(s[|p| + 2]);
  }

  lemma {:induction false} KeepClean(paras: seq<string>)
    requires forall p :: p in paras ==> Clean(p)
    ensures KeepStripped(paras) == paras
  {
    if paras != [] {
      var p := paras[0];
      assert Clean(p);
      StripUnique("", p, "");
      assert "" + p + "" == p;
      KeepClean(paras[1..]);
    }
  }

  /** Split undoes join: the paragraphs of joined paragraphs are those paragraphs. */
  lemma ParagraphsRoundTrip(paras: seq<string>)
    requires forall p :: p in paras ==> Clean(p)
    ensures ParagraphsOf(JoinBlank(paras)) == paras
  {
    if paras != [] {
      SplitJoin(paras);
      KeepClean(paras);
    } else {
      EmptyParagraphs();
    }
  }

  lemma EmptyParagraphs()
    ensures ParagraphsOf("") == []
  {
    assert SplitGaps("") == [""];
    StripUnique("", "", "");
    assert "" + "" + "" == "";
    assert KeepStripped([""]) == [] + KeepStripped([""][1..]);
  }

  /** The paragraphs hold every character of the content that is not white space, in order. */
  lemma ParagraphsKeepInk(content: string)
    ensures Ink(JoinBlank(ParagraphsOf(content))) == Ink(content)
  {
    SplitKeepsInk(content);
    KeptInk(SplitGaps(content));
    JoinInk(ParagraphsOf(content));
  }

  lemma {:induction false} SplitKeepsInk(s: string)
    ensures Ink(Concat(SplitGaps(s))) == Ink(s)
    decreases |s|
  {
    var gap := FindGap(s, 0);
    if gap.Some? {
      var (a, b) := gap.value;
      SplitKeepsInk(s[b..]);
      InkConcat(s[..a], SplitGaps(s[b..]));
      InkAround(s, a, b);
    } else {
      ConcatOne(s);
    }
  }

  lemma {:induction false} KeptInk(parts: seq<string>)
    ensures Ink(Concat(KeepStripped(parts))) == Ink(Concat(parts))
  {
    if parts != [] {
      KeptInk(parts[1..]);
      InkStrip(parts[0]);
      InkAppend(parts[0], Concat(parts[1..]));
      var first := if Strip(parts[0]) == "" then [] else [Strip(parts[0])];
      ConcatAppend(first, KeepStripped(parts[1..]));
      ConcatOne(Strip(parts[0]));
      InkAppend(Concat(first), Concat(KeepStripped(parts[1..])));
    }
  }

  lemma {:induction false} JoinInk(parts: seq<string>)
    ensures Ink(JoinBlank(parts)) == Ink(Concat(parts))
  {
    if |parts| == 1 {
      ConcatOne(parts[0]);
      assert parts == [parts[0]];
    } else if parts != [] {
      var rest := JoinBlank(parts[1..]);
      JoinInk(parts[1..]);
      InkAppend(parts[0] + "\n\n", rest);
      InkAppend(parts[0], "\n\n");
      InkBlank("\n\n");
      InkAppend(parts[0], Concat(parts[1..]));
    }
  }
}
