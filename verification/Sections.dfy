/** The sections of a document, and the parts of a section that is too long. The patterns, the test for tables
    and the language model's replies are left open. */
module Sections {
  import opened Text
  import opened Chunks
  import opened Splitter

  const SEPARATOR := "---CHUNK---"
  const PATTERNS := 6
  const MAX_LLM_CONTENT_SIZE := 20000

  /** A split that keeps its separators, by the lengths of its parts: whatever is left over is the last part. */
  function Parts(s: string, lengths: seq<nat>): seq<string> {
    if lengths == [] then [s]
    else
      var n := if lengths[0] < |s| then lengths[0] else |s|;
      [s[..n]] + Parts(s[n..], lengths[1..])
  }

  /** "".join of the texts' ink. */
  function InkOf(texts: seq<string>): string {
    Ink(Concat(texts))
  }

  lemma InkOfAppend(a: seq<string>, b: seq<string>)
    ensures InkOf(a + b) == InkOf(a) + InkOf(b)
  {
    ConcatAppend(a, b);
    InkAppend(Concat(a), Concat(b));
  }

  lemma InkOfOne(s: string)
    ensures InkOf([s]) == Ink(s)
  {
    ConcatOne(s);
  }

  lemma {:induction false} InkBlankExactly(s: string)
    ensures Ink(s) == "" <==> Blank(s)
  {
    if s != "" {
      InkBlankExactly(s[1..]);
      assert s == [s[0]] + s[1..];
    }
  }

  ghost predicate AllInked(texts: seq<string>) {
    forall i :: 0 <= i < |texts| ==> !Blank(texts[i])
  }

  /** The parts that are not blank. */
  function Inked(parts: seq<string>): seq<string> {
    if parts == [] then []
    else if Strip(parts[0]) != "" then [parts[0]] + Inked(parts[1..])
    else Inked(parts[1..])
  }

  lemma {:induction false} InkedExactly(parts: seq<string>)
    ensures Inked(parts) == Filter(parts, part => !Blank(part))
  {
    if parts != [] {
      BlankStrip(parts[0]);
      InkedExactly(parts[1..]);
    }
  }

  lemma InkOfCons(first: string, rest: seq<string>)
    ensures InkOf([first] + rest) == Ink(first) + InkOf(rest)
  {
    InkConcat(first, rest);
  }

  lemma {:induction false} InkedKeeps(parts: seq<string>)
    ensures InkOf(Inked(parts)) == InkOf(parts)
  {
    if parts != [] {
      InkedKeeps(parts[1..]);
      BlankStrip(parts[0]);
      InkBlankExactly(parts[0]);
      InkOfCons(parts[0], parts[1..]);
      InkOfCons(parts[0], Inked(parts[1..]));
      assert parts == [parts[0]] + parts[1..];
    }
  }

  lemma {:induction false} InkedAll(parts: seq<string>)
    ensures AllInked(Inked(parts))
  {
    if parts != [] {
      InkedAll(parts[1..]);
      BlankStrip(parts[0]);
    }
  }

  lemma {:induction false} PartsKeep(s: string, lengths: seq<nat>)
    ensures InkOf(Parts(s, lengths)) == Ink(s)
  {
    if lengths == [] {
      InkOfOne(s);
    } else {
      var n := if lengths[0] < |s| then lengths[0] else |s|;
      PartsKeep(s[n..], lengths[1..]);
      InkOfCons(s[..n], Parts(s[n..], lengths[1..]));
      InkAppend(s[..n], s[n..]);
      assert s == s[..n] + s[n..];
    }
  }

  /** Any way of cutting a text into parts is a split. */
  lemma {:induction false} PartsOfLengths(parts: seq<string>)
    requires parts != []
    ensures Parts(Concat(parts), LengthsOf(parts[..|parts| - 1])) == parts
  {
    if |parts| == 1 {
      ConcatOne(parts[0]);
      assert parts == [parts[0]];
    } else {
      var first, rest := parts[0], parts[1..];
      PartsOfLengths(rest);
      var all := Concat(parts);
      assert all[..|first|] == first && all[|first|..] == Concat(rest);
      assert parts[..|parts| - 1][1..] == rest[..|rest| - 1];
      assert parts == [first] + rest;
    }
  }

  function LengthsOf(parts: seq<string>): seq<nat> {
    if parts == [] then [] else [|parts[0]|] + LengthsOf(parts[1..])
  }

  /** Every text split by pattern p, in order, without the blank parts. split(p, s) are the lengths of the parts
      that pattern p makes of s. */
  function SplitAll(texts: seq<string>, p: nat, split: (nat, string) -> seq<nat>): seq<string> {
    if texts == [] then []
    else
      var last := texts[|texts| - 1];
      SplitAll(texts[..|texts| - 1], p, split) + Inked(Parts(last, split(p, last)))
  }

  /** The sections after the first n patterns. */
  function Structure(content: string, split: (nat, string) -> seq<nat>, n: nat): seq<string> {
    if n == 0 then [content] else SplitAll(Structure(content, split, n - 1), n - 1, split)
  }

  method SplitOnStructure(content: string, split: (nat, string) -> seq<nat>) returns (sections: seq<string>)
    ensures sections == Structure(content, split, 6)
  {
    sections := [content];
    for p := 0 to PATTERNS
      invariant sections == Structure(content, split, p)
    {
      sections := SplitBy(sections, p, split);
    }
  }

  /** The inner loop, for one pattern. */
  method SplitBy(sections: seq<string>, p: nat, split: (nat, string) -> seq<nat>) returns (newSections: seq<string>)
    ensures newSections == SplitAll(sections, p, split)
  {
    newSections := [];
    for i := 0 to |sections|
      invariant newSections == SplitAll(sections[..i], p, split)
    {
      assert sections[..i + 1][..i] == sections[..i];
      newSections := newSections + Inked(Parts(sections[i], split(p, sections[i])));
    }
    assert sections[..|sections|] == sections;
  }

  /** The texts have this ink in all, and none is blank. */
  ghost predicate Keeps(texts: seq<string>, ink: string) {
    InkOf(texts) == ink && AllInked(texts)
  }

  lemma PartsKept(text: string, lengths: seq<nat>)
    ensures Keeps(Inked(Parts(text, lengths)), Ink(text))
  {
    PartsKeep(text, lengths);
    InkedKeeps(Parts(text, lengths));
    InkedAll(Parts(text, lengths));
  }

  lemma KeepsAppend(a: seq<string>, b: seq<string>, init: seq<string>, last: string)
    requires Keeps(a, InkOf(init)) && Keeps(b, Ink(last))
    ensures Keeps(a + b, InkOf(init + [last]))
  {
    InkOfAppend(a, b);
    InkOfAppend(init, [last]);
    InkOfOne(last);
  }

  lemma {:induction false} SplitAllKeeps(texts: seq<string>, p: nat, split: (nat, string) -> seq<nat>)
    ensures Keeps(SplitAll(texts, p, split), InkOf(texts))
  {
    if texts != [] {
      var init, last := texts[..|texts| - 1], texts[|texts| - 1];
      SplitAllKeeps(init, p, split);
      PartsKept(last, split(p, last));
      KeepsAppend(SplitAll(init, p, split), Inked(Parts(last, split(p, last))), init, last);
      assert texts == init + [last];
    }
  }

  lemma SplitKeeps(before: seq<string>, after: seq<string>, p: nat, split: (nat, string) -> seq<nat>, ink: string)
    requires InkOf(before) == ink && after == SplitAll(before, p, split)
    ensures Keeps(after, ink)
  {
    SplitAllKeeps(before, p, split);
  }

  lemma StructureNext(content: string, split: (nat, string) -> seq<nat>, n: nat, ink: string)
    requires n > 0 && InkOf(Structure(content, split, n - 1)) == ink
    ensures Keeps(Structure(content, split, n), ink)
  {
    SplitKeeps(Structure(content, split, n - 1), Structure(content, split, n), n - 1, split, ink);
  }

  lemma StructureStart(content: string, split: (nat, string) -> seq<nat>)
    ensures InkOf(Structure(content, split, 0)) == Ink(content)
  {
    InkOfOne(content);
  }

  /** The sections of a document keep its ink: only white space is dropped, and no section is blank. */
  lemma {:induction false} StructureKeeps(content: string, split: (nat, string) -> seq<nat>, n: nat)
    requires n > 0
    ensures Keeps(Structure(content, split, n), Ink(content))
  {
    if n == 1 {
      StructureStart(content, split);
    } else {
      StructureKeeps(content, split, n - 1);
    }
    StructureNext(content, split, n, Ink(content));
  }

  /** The longest chunk there can be. */
  function Ceiling(cfg: ChunkingConfig): int {
    if cfg.maxChunkSize > cfg.chunkSize + 1 then cfg.maxChunkSize else cfg.chunkSize + 1
  }

  ghost predicate Under(texts: seq<string>, bound: int) {
    forall i :: 0 <= i < |texts| ==> |texts[i]| <= bound
  }

  lemma UnderAppend(a: seq<string>, b: seq<string>, bound: int)
    ensures Under(a + b, bound) <==> Under(a, bound) && Under(b, bound)
  {
    var all := a + b;
    assert (forall i :: 0 <= i < |a| ==> a[i] == all[i]) && forall i :: 0 <= i < |b| ==> b[i] == all[|a| + i];
  }

  lemma {:induction false} PiecesUnder(text: string, spans: seq<Span>, bound: int)
    requires bound >= 0 && forall i :: 0 <= i < |spans| ==> 0 < spans[i].end - spans[i].start <= bound
    ensures Under(Pieces(text, spans), bound)
  {
    if spans != [] { PiecesUnder(text, spans[1..], bound); }
  }

  /** The window splitter's chunks, of which there is one list; none if it does not end. */
  ghost function Windows(text: string, cfg: ChunkingConfig): (chunks: seq<string>)
    requires cfg.Accepted()
    ensures Halts(text, cfg) ==> SplitsInto(text, cfg, chunks)
  {
    if Halts(text, cfg) then
      SplitExists(text, cfg);
      var chunks :| SplitsInto(text, cfg, chunks);
      chunks
    else []
  }

  lemma WindowsUnique(text: string, cfg: ChunkingConfig, chunks: seq<string>)
    requires cfg.Accepted() && Halts(text, cfg) && SplitsInto(text, cfg, chunks)
    ensures chunks == Windows(text, cfg)
  {
    var windows := Windows(text, cfg);
    var a: seq<Span> :| IsSplit(text, cfg, 0, a) && chunks == Pieces(text, a);
    var b: seq<Span> :| IsSplit(text, cfg, 0, b) && windows == Pieces(text, b);
    SplitUnique(text, cfg, 0, a, b);
  }

  /** For a positive chunk size they stay under it but for one character; and an unempty text has one. */
  lemma WindowsUnder(text: string, cfg: ChunkingConfig)
    requires cfg.Accepted()
    ensures cfg.chunkSize >= 1 ==> Under(Windows(text, cfg), cfg.chunkSize + 1)
    ensures Halts(text, cfg) ==> (Windows(text, cfg) == [] <==> text == "")
  {
    if Halts(text, cfg) {
      var windows := Windows(text, cfg);
      var spans: seq<Span> :| IsSplit(text, cfg, 0, spans) && windows == Pieces(text, spans);
      if cfg.chunkSize >= 1 {
        WindowSizes(text, cfg, spans);
        PiecesUnder(text, spans, cfg.chunkSize + 1);
      }
    }
  }

  predicate InBounds(chunk: string, cfg: ChunkingConfig) {
    cfg.minChunkSize <= |chunk| <= cfg.maxChunkSize
  }

  /** The reply's parts, stripped, that are in bounds. */
  function Valid(parts: seq<string>, cfg: ChunkingConfig): seq<string> {
    if parts == [] then []
    else
      var last := Strip(parts[|parts| - 1]);
      Valid(parts[..|parts| - 1], cfg) + if InBounds(last, cfg) then [last] else []
  }

  lemma {:induction false} ValidUnder(parts: seq<string>, cfg: ChunkingConfig)
    ensures Under(Valid(parts, cfg), cfg.maxChunkSize)
  {
    if parts != [] { ValidUnder(parts[..|parts| - 1], cfg); }
  }

  /** The model's valid parts, if it is asked and gives any. */
  function ModelParts(section: string, cfg: ChunkingConfig, tabular: bool, reply: Option<string>): seq<string> {
    if !tabular && |section| <= MAX_LLM_CONTENT_SIZE && reply.Some?
    then Valid(SplitOn(reply.value, SEPARATOR), cfg)
    else []
  }

  function Stripped(texts: seq<string>): (stripped: seq<string>)
    ensures |stripped| == |texts| && forall i :: 0 <= i < |texts| ==> stripped[i] == Strip(texts[i])
  {
    seq(|texts|, i requires 0 <= i < |texts| => Strip(texts[i]))
  }

  lemma {:induction false} ValidExactly(parts: seq<string>, cfg: ChunkingConfig)
    ensures Valid(parts, cfg) == Filter(Stripped(parts), p => cfg.minChunkSize <= |p| <= cfg.maxChunkSize)
  {
    if parts != [] {
      var init, last := parts[..|parts| - 1], Strip(parts[|parts| - 1]);
      ValidExactly(init, cfg);
      FilterSnoc(Stripped(init), p => cfg.minChunkSize <= |p| <= cfg.maxChunkSize, last);
      assert Stripped(parts) == Stripped(init) + [last];
    }
  }

  /** What the model has for a section: of any reply to one that is no table and at most 20000 characters long, the
      parts between its separators, stripped, that are in bounds, in order; and else nothing. */
  lemma ModelPartsExactly(section: string, cfg: ChunkingConfig, tabular: bool, reply: Option<string>)
    returns (parts: seq<string>)
    ensures !tabular && |section| <= 20000 && reply.Some? ==>
              && JoinWith(parts, "---CHUNK---") == reply.value
              && (forall i :: 0 <= i < |parts| ==> !Contains(parts[i], "---CHUNK---"))
              && ModelParts(section, cfg, tabular, reply)
                 == Filter(Stripped(parts), p => cfg.minChunkSize <= |p| <= cfg.maxChunkSize)
    ensures tabular || |section| > 20000 || reply.None? ==> ModelParts(section, cfg, tabular, reply) == []
  {
    parts := [];
    if reply.Some? {
      parts := SplitOn(reply.value, SEPARATOR);
      SplitOnExactly(reply.value, SEPARATOR);
      ValidExactly(parts, cfg);
    }
  }

  /** A model that keeps to its instructions has its chunks used as they are. */
  lemma ReplyObeyed(section: string, cfg: ChunkingConfig, chunks: seq<string>)
    requires cfg.Accepted() && |section| <= 20000 && chunks != []
    requires forall i :: 0 <= i < |chunks| ==>
               Tight(chunks[i]) && Apart(chunks[i], SEPARATOR) && cfg.minChunkSize <= |chunks[i]| <= cfg.maxChunkSize
    ensures LongParts(section, cfg, false, Some(JoinWith(chunks, "---CHUNK---"))) == chunks
  {
    var reply := JoinWith(chunks, SEPARATOR);
    SplitOnJoin(chunks, SEPARATOR);
    ValidAll(chunks, cfg);
    ReplyUsed(section, cfg, reply, chunks);
  }

  lemma ReplyUsed(section: string, cfg: ChunkingConfig, reply: string, chunks: seq<string>)
    requires cfg.Accepted() && |section| <= 20000 && chunks != []
    requires Valid(SplitOn(reply, SEPARATOR), cfg) == chunks
    ensures LongParts(section, cfg, false, Some(reply)) == chunks
  {
  }

  lemma {:induction false} ValidAll(chunks: seq<string>, cfg: ChunkingConfig)
    requires forall i :: 0 <= i < |chunks| ==>
               Tight(chunks[i]) && cfg.minChunkSize <= |chunks[i]| <= cfg.maxChunkSize
    ensures Valid(chunks, cfg) == chunks
  {
    if chunks != [] {
      var init, last := chunks[..|chunks| - 1], chunks[|chunks| - 1];
      ValidAll(init, cfg);
      StripTight(last);
      assert chunks == init + [last];
    }
  }

  /** A long section's chunks: those parts, or else the windows. */
  ghost function LongParts(section: string, cfg: ChunkingConfig, tabular: bool, reply: Option<string>): seq<string>
    requires cfg.Accepted()
  {
    var parts := ModelParts(section, cfg, tabular, reply);
    if parts != [] then parts else Windows(section, cfg)
  }

  /** The section's splitting ends: either the model has parts for it, or its windows come to an end. */
  ghost predicate LongEnds(section: string, cfg: ChunkingConfig, tabular: bool, reply: Option<string>)
    requires cfg.Accepted()
  {
    ModelParts(section, cfg, tabular, reply) != [] || Halts(section, cfg)
  }

  /** Whatever the model answers, and if it does not, they stay under the ceiling, and there is one. */
  lemma LongUnder(section: string, cfg: ChunkingConfig, tabular: bool, reply: Option<string>)
    requires cfg.Accepted()
    ensures cfg.chunkSize >= 1 ==> Under(LongParts(section, cfg, tabular, reply), Ceiling(cfg))
    ensures section != "" && LongEnds(section, cfg, tabular, reply) ==> LongParts(section, cfg, tabular, reply) != []
  {
    WindowsUnder(section, cfg);
    if reply.Some? { ValidUnder(SplitOn(reply.value, SEPARATOR), cfg); }
  }

  method SplitLongSection(section: string, cfg: ChunkingConfig, tabular: bool, reply: Option<string>)
    returns (chunks: seq<string>)
    requires cfg.Accepted() && LongEnds(section, cfg, tabular, reply)
    ensures chunks == LongParts(section, cfg, tabular, reply)
  {
    if !tabular && |section| <= MAX_LLM_CONTENT_SIZE && reply.Some? {
      var parts := SplitOn(reply.value, SEPARATOR);
      chunks := [];
      for i := 0 to |parts|
        invariant chunks == Valid(parts[..i], cfg)
      {
        assert parts[..i + 1][..i] == parts[..i];
        if InBounds(Strip(parts[i]), cfg) { chunks := chunks + [Strip(parts[i])]; }
      }
      assert parts[..|parts|] == parts;
      if chunks != [] { return; }
    }
    chunks := SimpleSplit(section, cfg);
    WindowsUnique(section, cfg, chunks);
  }
}
