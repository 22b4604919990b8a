/** Strings as the Python source handles them: whitespace, strip, find, split on a
    substring and join with a blank line. */
module Text {

  datatype Option<+T> = None | Some(value: T)

  /** The characters that both str.strip and the regular-expression class \s treat as white space. */
  predicate IsSpace(c: char) {
    var n := c as int;
    || 0x09 <= n <= 0x0d || 0x1c <= n <= 0x20 || n == 0x85 || n == 0xa0 || n == 0x1680
    || 0x2000 <= n <= 0x200a || n == 0x2028 || n == 0x2029 || n == 0x202f || n == 0x205f || n == 0x3000
  }

  /** They are 29 in all. */
  lemma SpaceExactly(c: char)
    ensures IsSpace(c) <==>
              c in "\t\n\U{0B}\U{0C}\r\U{1C}\U{1D}\U{1E}\U{1F} \U{85}\U{A0}\U{1680}\U{2000}\U{2001}\U{2002}\U{2003}"
                 + "\U{2004}\U{2005}\U{2006}\U{2007}\U{2008}\U{2009}\U{200A}\U{2028}\U{2029}\U{202F}\U{205F}\U{3000}"
  {
  }

  predicate Blank(s: string) {
    forall i :: 0 <= i < |s| ==> IsSpace(s[i])
  }

  /** No white space at either end. */
  predicate Tight(s: string) {
    s != "" ==> !IsSpace(s[0]) && !IsSpace(s[|s| - 1])
  }

  function LStrip(s: string): string {
    if s != "" && IsSpace(s[0]) then LStrip(s[1..]) else s
  }

  function RStrip(s: string): string {
    if s != "" && IsSpace(s[|s| - 1]) then RStrip(s[..|s| - 1]) else s
  }

  /** Python's str.strip. */
  function Strip(s: string): string {
    RStrip(LStrip(s))
  }

  lemma {:induction false} LStripSplits(s: string)
    ensures var r, n := LStrip(s), |s| - |LStrip(s)|;
            && 0 <= n && r == s[n..] && Blank(s[..n]) && (r != "" ==> !IsSpace(r[0]))
  {
    if s != "" && IsSpace(s[0]) { LStripSplits(s[1..]); }
  }

  lemma {:induction false} RStripSplits(s: string)
    ensures var r, n := RStrip(s), |RStrip(s)|;
            && n <= |s| && r == s[..n] && Blank(s[n..]) && (r != "" ==> !IsSpace(r[n - 1]))
  {
    if s != "" && IsSpace(s[|s| - 1]) {
      var t := s[..|s| - 1];
      RStripSplits(t);
      assert s[|RStrip(s)|..] == t[|RStrip(s)|..] + [s[|s| - 1]];
    }
  }

  /** Stripping removes white space from the two ends and nothing else. */
  lemma StripSplits(s: string) returns (left: string, right: string)
    ensures s == left + Strip(s) + right && Blank(left) && Blank(right) && Tight(Strip(s))
  {
    var l := LStrip(s);
    var r := RStrip(l);
    LStripSplits(s);
    RStripSplits(l);
    var n, m := |s| - |l|, |r|;
    left, right := s[..n], l[m..];
    SplitThree(s, l, r, n, m);
  }

  lemma SplitThree(s: string, l: string, r: string, n: nat, m: nat)
    requires n <= |s| && l == s[n..] && m <= |l| && r == l[..m]
    ensures s == s[..n] + r + l[m..]
  {
  }

  /** A tight core between blank ends is what Strip returns. */
  lemma StripUnique(left: string, core: string, right: string)
    requires Blank(left) && Blank(right) && Tight(core)
    ensures Strip(left + core + right) == core
  {
    var a, b := StripSplits(left + core + right);
    CoreUnique(left, core, right, a, Strip(left + core + right), b);
  }

  lemma StripTight(s: string)
    requires Tight(s)
    ensures Strip(s) == s
  {
    StripUnique("", s, "");
    assert "" + s + "" == s;
  }

  lemma BlankCore(a: string, r: string, b: string)
    requires Blank(a) && Blank(b) && Tight(r)
    ensures Blank(a + r + b) <==> r == ""
  {
    if r != "" { assert (a + r + b)[|a|] == r[0]; }
  }

  lemma BlankStrip(s: string)
    ensures Strip(s) == "" <==> Blank(s)
  {
    var left, right := StripSplits(s);
    BlankCore(left, Strip(s), right);
  }

  lemma CoreUnique(left: string, core: string, right: string, a: string, r: string, b: string)
    requires Blank(left) && Blank(right) && Tight(core) && Blank(a) && Blank(b) && Tight(r)
    requires left + core + right == a + r + b
    ensures r == core
  {
    var s := left + core + right;
    BlankCore(left, core, right);
    BlankCore(a, r, b);
    if core != "" {
      assert s[|left|] == core[0] && s[|a|] == r[0];
      assert forall i :: 0 <= i < |left| ==> s[i] == left[i];
      assert forall i :: 0 <= i < |a| ==> s[i] == a[i];
      assert |a| == |left|;
      assert s[|left| + |core| - 1] == core[|core| - 1] && s[|a| + |r| - 1] == r[|r| - 1];
      assert forall i :: 0 <= i < |right| ==> s[|left| + |core| + i] == right[i];
      assert forall i :: 0 <= i < |b| ==> s[|a| + |r| + i] == b[i];
      assert |r| == |core|;
      assert core == s[|left|..|left| + |core|] && r == s[|a|..|a| + |r|];
    }
  }

  /** Python's s[from:to] for a start that is not negative: a negative end counts from the end of s. */
  function Slice(s: string, from: nat, to: int): string {
    var end := if to < 0 then |s| + to else if to < |s| then to else |s|;
    if from < end then s[from..end] else ""
  }

  /** needle occurs in hay at position i. */
  predicate At(hay: string, needle: string, i: nat) {
    i + |needle| <= |hay| && hay[i..i + |needle|] == needle
  }

  lemma AtChar(hay: string, needle: string, i: nat, j: nat)
    requires At(hay, needle, i) && j < |needle|
    ensures hay[i + j] == needle[j]
  {
    assert hay[i..i + |needle|][j] == hay[i + j];
  }

  predicate Contains(hay: string, needle: string) {
    exists i: nat | i <= |hay| :: At(hay, needle, i)
  }

  /** Python's str.find(needle, from): the leftmost occurrence that is not before from. */
  function Find(hay: string, needle: string, from: nat): (r: Option<nat>)
    ensures r.Some? ==> from <= r.value && At(hay, needle, r.value)
                        && forall j: nat :: from <= j < r.value ==> !At(hay, needle, j)
    ensures r.None? ==> forall j: nat :: from <= j ==> !At(hay, needle, j)
    decreases |hay| + 1 - from
  {
    if from + |needle| > |hay| then None
    else if At(hay, needle, from) then Some(from)
    else Find(hay, needle, from + 1)
  }

  /** A leftmost occurrence is what Find gives. */
  lemma FindLeftmost(hay: string, needle: string, i: nat)
    requires At(hay, needle, i) && forall j: nat :: j < i ==> !At(hay, needle, j)
    ensures Find(hay, needle, 0) == Some(i)
  {
  }

  /** Python's str.split(sep) for a non-empty separator. */
  function SplitOn(s: string, sep: string): (parts: seq<string>)
    requires sep != ""
    ensures |parts| >= 1
    decreases |s|
  {
    match Find(s, sep, 0)
    case None => [s]
    case Some(i) => [s[..i]] + SplitOn(s[i + |sep|..], sep)
  }

  lemma SplitFirst(s: string, sep: string, i: nat)
    requires sep != "" && Find(s, sep, 0) == Some(i)
    ensures SplitOn(s, sep) == [s[..i]] + SplitOn(s[i + |sep|..], sep)
  {
  }

  /** sep.join(parts) */
  function JoinWith(parts: seq<string>, sep: string): string {
    if parts == [] then "" else if |parts| == 1 then parts[0]
    else parts[0] + sep + JoinWith(parts[1..], sep)
  }

  lemma JoinWithCons(first: string, rest: seq<string>, sep: string)
    requires rest != []
    ensures JoinWith([first] + rest, sep) == first + sep + JoinWith(rest, sep)
  {
    assert ([first] + rest)[1..] == rest;
  }

  lemma CutAround(s: string, sep: string, i: nat)
    requires At(s, sep, i)
    ensures s == s[..i] + sep + s[i + |sep|..]
  {
    ThreeParts(s, i, i + |sep|);
  }

  lemma NotBefore(s: string, sep: string, i: nat)
    requires sep != "" && Find(s, sep, 0) == Some(i)
    ensures !Contains(s[..i], sep)
  {
    forall j: nat ensures !At(s[..i], sep, j) {
      if j + |sep| <= i {
        assert s[..i][j..j + |sep|] == s[j..j + |sep|];
        assert !At(s, sep, j);
      }
    }
  }

  /** Joining the parts with the separator gives back the text, and no part has the separator. */
  lemma {:induction false} SplitOnExactly(s: string, sep: string)
    requires sep != ""
    ensures JoinWith(SplitOn(s, sep), sep) == s
    ensures forall i :: 0 <= i < |SplitOn(s, sep)| ==> !Contains(SplitOn(s, sep)[i], sep)
    decreases |s|
  {
    match Find(s, sep, 0)
    case None =>
    case Some(i) =>
      SplitFirst(s, sep, i);
      SplitOnExactly(s[i + |sep|..], sep);
      JoinWithCons(s[..i], SplitOn(s[i + |sep|..], sep), sep);
      CutAround(s, sep, i);
      NotBefore(s, sep, i);
  }

  /** part and the separator make no other occurrence of it than the last. */
  predicate Apart(part: string, sep: string) {
    Find(part + sep, sep, 0) == Some(|part|)
  }

  lemma ApartFound(part: string, sep: string, rest: string)
    requires sep != "" && Apart(part, sep)
    ensures Find(part + sep + rest, sep, 0) == Some(|part|)
  {
    var s := part + sep + rest;
    assert s[|part|..|part| + |sep|] == sep;
    forall j: nat | j < |part| ensures !At(s, sep, j) {
      assert s[j..j + |sep|] == (part + sep)[j..j + |sep|];
      assert !At(part + sep, sep, j);
    }
    FindLeftmost(s, sep, |part|);
  }

  /** Splitting undoes joining when the parts keep apart. */
  lemma {:induction false} SplitOnJoin(parts: seq<string>, sep: string)
    requires sep != "" && parts != [] && forall i :: 0 <= i < |parts| ==> Apart(parts[i], sep)
    ensures SplitOn(JoinWith(parts, sep), sep) == parts
  {
    if |parts| == 1 {
      forall j: nat ensures !At(parts[0], sep, j) {
        if j + |sep| <= |parts[0]| {
          assert (parts[0] + sep)[j..j + |sep|] == parts[0][j..j + |sep|];
          assert !At(parts[0] + sep, sep, j);
        }
      }
    } else {
      var first, rest := parts[0], JoinWith(parts[1..], sep);
      SplitOnJoin(parts[1..], sep);
      ApartFound(first, sep, rest);
      SplitFirst(first + sep + rest, sep, |first|);
      var s := first + sep + rest;
      assert s[..|first|] == first && s[|first| + |sep|..] == rest;
      assert parts == [first] + parts[1..];
    }
  }

  /** The texts that keep holds of, in order: Python's [t for t in texts if keep(t)]. */
  function Filter(texts: seq<string>, keep: string -> bool): seq<string> {
    if texts == [] then []
    else if keep(texts[0]) then [texts[0]] + Filter(texts[1..], keep)
    else Filter(texts[1..], keep)
  }

  lemma {:induction false} FilterSnoc(texts: seq<string>, keep: string -> bool, next: string)
    ensures Filter(texts + [next], keep) == Filter(texts, keep) + if keep(next) then [next] else []
  {
    if texts != [] {
      FilterSnoc(texts[1..], keep, next);
      assert (texts + [next])[1..] == texts[1..] + [next];
    }
  }

  lemma {:induction false} FilterAll(texts: seq<string>, keep: string -> bool)
    ensures (forall i :: 0 <= i < |texts| ==> keep(texts[i])) ==> Filter(texts, keep) == texts
    ensures forall t :: t in Filter(texts, keep) <==> t in texts && keep(t)
  {
    if texts != [] {
      var rest := texts[1..];
      FilterAll(rest, keep);
      assert texts == [texts[0]] + rest;
      assert forall i :: 0 <= i < |rest| ==> rest[i] == texts[i + 1];
    }
  }

  /** "\n\n".join(parts) */
  function JoinBlank(parts: seq<string>): string {
    if parts == [] then "" else if |parts| == 1 then parts[0]
    else parts[0] + "\n\n" + JoinBlank(parts[1..])
  }

  lemma {:induction false} JoinAppend(a: seq<string>, b: seq<string>)
    requires a != [] && b != []
    ensures JoinBlank(a + b) == JoinBlank(a) + "\n\n" + JoinBlank(b)
  {
    if |a| == 1 {
      assert (a + b)[1..] == b;
    } else {
      assert (a + b)[1..] == a[1..] + b;
      JoinAppend(a[1..], b);
    }
  }

  /** "".join(parts) */
  function Concat(parts: seq<string>): string {
    if parts == [] then "" else parts[0] + Concat(parts[1..])
  }

  lemma ConcatOne(part: string)
    ensures Concat([part]) == part
  {
    assert Concat([part]) == part + Concat([]);
  }

  lemma {:induction false} ConcatAppend(a: seq<string>, b: seq<string>)
    ensures Concat(a + b) == Concat(a) + Concat(b)
  {
    if a == [] {
      assert a + b == b;
    } else {
      assert (a + b)[1..] == a[1..] + b;
      ConcatAppend(a[1..], b);
    }
  }

  lemma ConcatCons(first: string, rest: seq<string>)
    ensures Concat([first] + rest) == first + Concat(rest)
  {
    ConcatAppend([first], rest);
    ConcatOne(first);
  }

  /** The characters of s that are not white space, in order. */
  function Ink(s: string): string {
    if s == "" then "" else (if IsSpace(s[0]) then "" else [s[0]]) + Ink(s[1..])
  }

  lemma {:induction false} InkAppend(a: string, b: string)
    ensures Ink(a + b) == Ink(a) + Ink(b)
  {
    if a == "" {
      assert a + b == b;
    } else {
      assert (a + b)[1..] == a[1..] + b;
      InkAppend(a[1..], b);
    }
  }

  lemma {:induction false} InkBlank(s: string)
    requires Blank(s)
    ensures Ink(s) == ""
  {
    if s != "" { InkBlank(s[1..]); }
  }

  lemma InkThree(a: string, b: string, c: string)
    requires Blank(b)
    ensures Ink(a + b + c) == Ink(a) + Ink(c)
  {
    InkAppend(a + b, c);
    InkAppend(a, b);
    InkBlank(b);
  }

  lemma ThreeParts(s: string, a: nat, b: nat)
    requires a <= b <= |s|
    ensures s == s[..a] + s[a..b] + s[b..]
  {
  }

  lemma InkAround(s: string, a: nat, b: nat)
    requires a <= b <= |s| && Blank(s[a..b])
    ensures Ink(s) == Ink(s[..a]) + Ink(s[b..])
  {
    ThreeParts(s, a, b);
    InkThree(s[..a], s[a..b], s[b..]);
  }

  lemma InkConcat(first: string, rest: seq<string>)
    ensures Ink(Concat([first] + rest)) == Ink(first) + Ink(Concat(rest))
  {
    ConcatCons(first, rest);
    InkAppend(first, Concat(rest));
  }

  lemma InkStrip(s: string)
    ensures Ink(Strip(s)) == Ink(s)
  {
    var left, right := StripSplits(s);
    InkAppend(left + Strip(s), right);
    InkAppend(left, Strip(s));
    InkBlank(left);
    InkBlank(right);
  }
}
