/** The overlapping window splitter. */
module Splitter {
  import opened Text
  import opened Chunks

  /** A window; its end may come before its start, or before the text, when the chunk size is not positive. */
  datatype Span = Span(start: nat, end: int)

  predicate IsStop(c: char) {
    c == '.' || c == '!' || c == '?' || c == '\n'
  }

  /** The last sentence end among the positions lo + 1 .. hi. */
  function LastStop(text: string, lo: nat, hi: int): (r: Option<nat>)
    requires hi < |text|
    ensures r.Some? ==> lo < r.value <= hi && IsStop(text[r.value])
                        && forall i :: r.value < i <= hi ==> !IsStop(text[i])
    ensures r.None? ==> forall i :: lo < i <= hi ==> !IsStop(text[i])
  {
    if hi <= lo then None else if IsStop(text[hi]) then Some(hi) else LastStop(text, lo, hi - 1)
  }

  /** Where the window that opens at start is closed, when it does not reach the end of the text. */
  function CutAt(text: string, cfg: ChunkingConfig, start: nat): int
    requires cfg.Accepted() && start + cfg.chunkSize < |text|
  {
    match LastStop(text, start + cfg.Reach(), start + cfg.chunkSize)
    case Some(i) => i + 1
    case None => start + cfg.chunkSize
  }

  function Piece(text: string, span: Span): string {
    Slice(text, span.start, span.end)
  }

  function Pieces(text: string, spans: seq<Span>): (pieces: seq<string>)
    ensures |pieces| == |spans|
  {
    if spans == [] then [] else [Piece(text, spans[0])] + Pieces(text, spans[1..])
  }

  /** What it means for spans to be a split of text from position start on: each window but the last
      closes just after the last sentence end beyond the reach, or else at its full size, the next one
      opens chunkOverlap earlier, and the last one reaches the end of the text, or the next would not open in it. */
  ghost predicate IsSplit(text: string, cfg: ChunkingConfig, start: nat, spans: seq<Span>)
    requires cfg.Accepted()
  {
    && (spans == [] <==> start >= |text|)
    && (spans != [] ==> spans[0].start == start)
    && (forall i :: 0 <= i < |spans| ==> Closes(text, cfg, spans[i]))
    && (forall i :: 0 < i < |spans| ==> spans[i].start == spans[i - 1].end - cfg.chunkOverlap)
    && (forall i :: 0 <= i < |spans| ==> (i == |spans| - 1 <==> Final(text, cfg, spans[i])))
  }

  predicate Final(text: string, cfg: ChunkingConfig, span: Span) {
    span.start + cfg.chunkSize >= |text| || span.end - cfg.chunkOverlap >= |text|
  }

  ghost predicate Closes(text: string, cfg: ChunkingConfig, span: Span)
    requires cfg.Accepted()
  {
    var hi := span.start + cfg.chunkSize;
    && span.start < |text| && span.end <= |text|
    && (hi >= |text| ==> span.end == |text|)
    && (hi < |text| ==>
          || (cfg.Reach() + 1 < span.end - span.start <= cfg.chunkSize + 1 && IsStop(text[span.end - 1])
              && forall i :: span.end <= i <= hi ==> !IsStop(text[i]))
          || (span.end == hi && forall i :: span.start + cfg.Reach() < i <= hi ==> !IsStop(text[i])))
  }

  /** The split is determined by the description above. */
  lemma {:induction false} SplitUnique(text: string, cfg: ChunkingConfig, start: nat, a: seq<Span>, b: seq<Span>)
    requires cfg.Accepted() && IsSplit(text, cfg, start, a) && IsSplit(text, cfg, start, b)
    ensures a == b
    decreases |a|
  {
    if a != [] {
      WindowUnique(text, cfg, a[0], b[0]);
      assert |a| == 1 <==> Final(text, cfg, a[0]);
      if |a| > 1 {
        assert a[1].start == b[1].start;
        TailSplit(text, cfg, start, a);
        TailSplit(text, cfg, start, b);
        SplitUnique(text, cfg, a[1].start, a[1..], b[1..]);
        assert a == [a[0]] + a[1..] && b == [b[0]] + b[1..];
      } else {
        assert a == [a[0]] && b == [b[0]];
      }
    }
  }

  lemma WindowUnique(text: string, cfg: ChunkingConfig, a: Span, b: Span)
    requires cfg.Accepted() && Closes(text, cfg, a) && Closes(text, cfg, b) && a.start == b.start
    ensures a == b
  {
  }

  lemma TailSplit(text: string, cfg: ChunkingConfig, start: nat, spans: seq<Span>)
    requires cfg.Accepted() && IsSplit(text, cfg, start, spans) && |spans| > 1
    ensures IsSplit(text, cfg, spans[1].start, spans[1..])
  {
    var tail := spans[1..];
    assert Closes(text, cfg, spans[1]);
    forall i | 0 <= i < |tail| ensures Closes(text, cfg, tail[i]) {
      assert tail[i] == spans[i + 1];
    }
  }

  /** A window that the text outlasts ends just after the last of the four sentence ends that lie beyond its reach
      and within its full size, or at its full size when there is none. */
  lemma WindowEndsExactly(text: string, cfg: ChunkingConfig, start: nat, spans: seq<Span>, i: nat)
    requires cfg.Accepted() && IsSplit(text, cfg, start, spans) && i < |spans|
    requires spans[i].start + cfg.chunkSize < |text|
    ensures var from, full, end := spans[i].start, spans[i].start + cfg.chunkSize, spans[i].end;
      || (&& from + cfg.minChunkSize < end - 1 <= full && full - 200 < end - 1 && text[end - 1] in ".!?\n"
          && forall p :: end <= p <= full ==> text[p] !in ".!?\n")
      || (&& end == full
          && forall p :: from + cfg.minChunkSize < p <= full && full - 200 < p ==> text[p] !in ".!?\n")
  {
    assert Closes(text, cfg, spans[i]);
  }

  /** Whichever of the four it is, the one sentence end of a text that is longer than a chunk ends the first chunk
      if it is beyond the reach. */
  lemma StopEndsFirst(text: string, cfg: ChunkingConfig, p: nat, chunks: seq<string>)
    requires cfg.Accepted() && SplitsInto(text, cfg, chunks)
    requires cfg.minChunkSize < p <= cfg.chunkSize < |text| && cfg.chunkSize - 200 < p
    requires text[p] == '.' || text[p] == '!' || text[p] == '?' || text[p] == '\n'
    requires forall i :: 0 <= i < |text| && i != p ==> text[i] !in ".!?\n"
    ensures chunks != [] && chunks[0] == text[..p + 1]
  {
    var spans: seq<Span> :| IsSplit(text, cfg, 0, spans) && chunks == Pieces(text, spans);
    WindowEndsExactly(text, cfg, 0, spans, 0);
    assert chunks[0] == Slice(text, 0, spans[0].end);
  }

  /** chunks are the pieces of the split of text. */
  ghost predicate SplitsInto(text: string, cfg: ChunkingConfig, chunks: seq<string>)
    requires cfg.Accepted()
  {
    SplitsFrom(text, cfg, 0, chunks)
  }

  ghost predicate SplitsFrom(text: string, cfg: ChunkingConfig, start: nat, chunks: seq<string>)
    requires cfg.Accepted()
  {
    exists spans :: IsSplit(text, cfg, start, spans) && chunks == Pieces(text, spans)
  }

  /** The loop, run for at most fuel windows with no assumption on the configuration's overlap, comes to
      its end. A start before the text (Python would read it from the other end) does not count as one. */
  predicate HaltsWithin(text: string, cfg: ChunkingConfig, start: int, fuel: nat)
    requires cfg.Accepted()
    decreases fuel
  {
    start >= 0 &&
    (start >= |text| || start + cfg.chunkSize >= |text| ||
     (fuel > 0 && HaltsWithin(text, cfg, CutAt(text, cfg, start) - cfg.chunkOverlap, fuel - 1)))
  }

  ghost predicate Halts(text: string, cfg: ChunkingConfig)
    requires cfg.Accepted()
  {
    exists fuel: nat :: HaltsWithin(text, cfg, 0, fuel)
  }

  /** What the loop still adds when it is at start and ends within fuel windows. */
  function Cuts(text: string, cfg: ChunkingConfig, start: int, fuel: nat): seq<string>
    requires cfg.Accepted() && HaltsWithin(text, cfg, start, fuel)
    decreases fuel
  {
    if start >= |text| then []
    else if start + cfg.chunkSize >= |text| then [text[start..]]
    else
      var cut := CutAt(text, cfg, start);
      [Slice(text, start, cut)] + Cuts(text, cfg, cut - cfg.chunkOverlap, fuel - 1)
  }

  /** The loop, at start, ends within fuel windows and still adds later. */
  ghost predicate Adds(text: string, cfg: ChunkingConfig, start: int, fuel: nat, later: seq<string>)
    requires cfg.Accepted()
  {
    HaltsWithin(text, cfg, start, fuel) && later == Cuts(text, cfg, start, fuel)
  }

  /** The chunks made so far and what the loop still adds are all chunks. */
  ghost predicate Cutting(text: string, cfg: ChunkingConfig, start: int, fuel: nat, chunks: seq<string>,
                          all: seq<string>)
    requires cfg.Accepted()
  {
    exists later :: Adds(text, cfg, start, fuel, later) && chunks + later == all
  }

  lemma AddsNext(text: string, cfg: ChunkingConfig, start: nat, fuel: nat, later: seq<string>)
    returns (rest: seq<string>)
    requires cfg.Accepted() && Adds(text, cfg, start, fuel, later)
    requires start < |text| && start + cfg.chunkSize < |text|
    ensures fuel > 0 && CutAt(text, cfg, start) >= cfg.chunkOverlap
    ensures Adds(text, cfg, CutAt(text, cfg, start) - cfg.chunkOverlap, fuel - 1, rest)
    ensures later == [Slice(text, start, CutAt(text, cfg, start))] + rest
  {
    CutsUnfold(text, cfg, start, fuel);
    rest := Cuts(text, cfg, CutAt(text, cfg, start) - cfg.chunkOverlap, fuel - 1);
  }

  lemma OneMore(done: seq<string>, next: string, rest: seq<string>)
    ensures done + ([next] + rest) == done + [next] + rest
  {
  }

  lemma CuttingNext(text: string, cfg: ChunkingConfig, start: nat, fuel: nat, chunks: seq<string>, all: seq<string>)
    requires cfg.Accepted() && Cutting(text, cfg, start, fuel, chunks, all)
    requires start < |text| && start + cfg.chunkSize < |text|
    ensures var cut := CutAt(text, cfg, start);
      && fuel > 0 && cut >= cfg.chunkOverlap
      && Cutting(text, cfg, cut - cfg.chunkOverlap, fuel - 1, chunks + [Slice(text, start, cut)], all)
  {
    var later :| Adds(text, cfg, start, fuel, later) && chunks + later == all;
    var rest := AddsNext(text, cfg, start, fuel, later);
    OneMore(chunks, Slice(text, start, CutAt(text, cfg, start)), rest);
  }

  lemma CuttingDone(text: string, cfg: ChunkingConfig, start: nat, fuel: nat, chunks: seq<string>, all: seq<string>)
    requires cfg.Accepted() && Cutting(text, cfg, start, fuel, chunks, all)
    ensures start >= |text| ==> all == chunks
    ensures start < |text| <= start + cfg.chunkSize ==> all == chunks + [text[start..]]
  {
  }

  /** The splitting loop, on any text on which it ends. */
  method SimpleSplit(text: string, cfg: ChunkingConfig) returns (chunks: seq<string>)
    requires cfg.Accepted() && Halts(text, cfg)
    ensures SplitsInto(text, cfg, chunks)
  {
    chunks := [];
    var start: nat := 0;
    ghost var fuel: nat :| HaltsWithin(text, cfg, 0, fuel);
    ghost var all := Cuts(text, cfg, 0, fuel);
    CutsSplit(text, cfg, 0, fuel);
    assert Adds(text, cfg, 0, fuel, all);
    while start < |text|
      invariant Cutting(text, cfg, start, fuel, chunks, all)
      decreases fuel
    {
      var end := start + cfg.chunkSize;
      if end >= |text| {
        CuttingDone(text, cfg, start, fuel, chunks, all);
        return chunks + [text[start..]];
      }
      var chunkEnd := WindowEnd(text, cfg, start);
      CuttingNext(text, cfg, start, fuel, chunks, all);
      chunks := chunks + [Slice(text, start, chunkEnd)];
      start := chunkEnd - cfg.chunkOverlap;
      fuel := fuel - 1;
    }
    CuttingDone(text, cfg, start, fuel, chunks, all);
  }

  /** What the loop adds when it is not in its last window. */
  lemma CutsUnfold(text: string, cfg: ChunkingConfig, start: nat, fuel: nat)
    requires cfg.Accepted() && HaltsWithin(text, cfg, start, fuel)
    requires start < |text| && start + cfg.chunkSize < |text|
    ensures var cut := CutAt(text, cfg, start);
      && fuel > 0 && cut >= cfg.chunkOverlap && HaltsWithin(text, cfg, cut - cfg.chunkOverlap, fuel - 1)
      && Cuts(text, cfg, start, fuel)
         == [Slice(text, start, cut)] + Cuts(text, cfg, cut - cfg.chunkOverlap, fuel - 1)
  {
  }

  /** What the loop adds from start on are the pieces of a split. */
  lemma {:induction false} CutsSplit(text: string, cfg: ChunkingConfig, start: nat, fuel: nat)
    requires cfg.Accepted() && HaltsWithin(text, cfg, start, fuel)
    ensures SplitsFrom(text, cfg, start, Cuts(text, cfg, start, fuel))
    decreases fuel
  {
    if start >= |text| {
      NoSplit(text, cfg, start);
    } else if start + cfg.chunkSize >= |text| {
      LastSplit(text, cfg, start);
    } else {
      var next := CutAt(text, cfg, start) - cfg.chunkOverlap;
      CutsUnfold(text, cfg, start, fuel);
      CutsSplit(text, cfg, next, fuel - 1);
      MoreSplit(text, cfg, start, Cuts(text, cfg, next, fuel - 1), Cuts(text, cfg, start, fuel));
    }
  }

  lemma MoreSplit(text: string, cfg: ChunkingConfig, start: nat, later: seq<string>, all: seq<string>)
    requires cfg.Accepted() && start < |text| && start + cfg.chunkSize < |text|
    requires CutAt(text, cfg, start) >= cfg.chunkOverlap
    requires SplitsFrom(text, cfg, CutAt(text, cfg, start) - cfg.chunkOverlap, later)
    requires all == [Slice(text, start, CutAt(text, cfg, start))] + later
    ensures SplitsFrom(text, cfg, start, all)
  {
    CutFirst(text, cfg, start, CutAt(text, cfg, start), later);
  }

  lemma NoSplit(text: string, cfg: ChunkingConfig, start: nat)
    requires cfg.Accepted() && start >= |text|
    ensures SplitsFrom(text, cfg, start, [])
  {
    assert IsSplit(text, cfg, start, []);
  }

  lemma LastSplit(text: string, cfg: ChunkingConfig, start: nat)
    requires cfg.Accepted() && start < |text| <= start + cfg.chunkSize
    ensures SplitsFrom(text, cfg, start, [text[start..]])
  {
    var spans := [Span(start, |text|)];
    assert spans[1..] == [] && Slice(text, start, |text|) == text[start..];
    assert Pieces(text, spans) == [text[start..]];
    assert IsSplit(text, cfg, start, spans);
  }

  lemma CutFirst(text: string, cfg: ChunkingConfig, start: nat, cut: int, later: seq<string>)
    requires cfg.Accepted() && start < |text| && start + cfg.chunkSize < |text| && cut == CutAt(text, cfg, start)
    requires cut >= cfg.chunkOverlap && SplitsFrom(text, cfg, cut - cfg.chunkOverlap, later)
    ensures SplitsFrom(text, cfg, start, [Slice(text, start, cut)] + later)
  {
    var rest: seq<Span> :| IsSplit(text, cfg, cut - cfg.chunkOverlap, rest) && later == Pieces(text, rest);
    var spans := [Span(start, cut)] + rest;
    CutCloses(text, cfg, start);
    FirstSplit(text, cfg, Span(start, cut), rest);
    assert spans[1..] == rest;
    assert Pieces(text, spans) == [Slice(text, start, cut)] + later;
  }

  lemma CutCloses(text: string, cfg: ChunkingConfig, start: nat)
    requires cfg.Accepted() && start < |text| && start + cfg.chunkSize < |text|
    ensures Closes(text, cfg, Span(start, CutAt(text, cfg, start)))
  {
  }

  lemma FirstSplit(text: string, cfg: ChunkingConfig, first: Span, rest: seq<Span>)
    requires cfg.Accepted() && Closes(text, cfg, first) && first.start + cfg.chunkSize < |text|
    requires first.end >= cfg.chunkOverlap && IsSplit(text, cfg, first.end - cfg.chunkOverlap, rest)
    ensures IsSplit(text, cfg, first.start, [first] + rest)
  {
    var spans := [first] + rest;
    forall i | 0 <= i < |spans|
      ensures Closes(text, cfg, spans[i]) && (i == |spans| - 1 <==> Final(text, cfg, spans[i]))
    {
      if i > 0 { assert spans[i] == rest[i - 1] && Closes(text, cfg, rest[i - 1]); }
    }
    forall i | 0 < i < |spans| ensures spans[i].start == spans[i - 1].end - cfg.chunkOverlap {
      assert spans[i] == rest[i - 1];
      if i > 1 { assert spans[i - 1] == rest[i - 2]; }
    }
  }

  /** The search, backwards from the full window, for a sentence end to close it at. */
  method WindowEnd(text: string, cfg: ChunkingConfig, start: nat) returns (chunkEnd: int)
    requires cfg.Accepted() && start < |text| && start + cfg.chunkSize < |text|
    ensures chunkEnd == CutAt(text, cfg, start)
  {
    var end := start + cfg.chunkSize;
    var low := if start + cfg.minChunkSize > end - 200 then start + cfg.minChunkSize else end - 200;
    chunkEnd := end;
    var i := end;
    while i > low
      invariant i <= end && chunkEnd == end && (i >= low || i == end)
      invariant forall j :: i < j <= end && low < j ==> !IsStop(text[j])
    {
      if IsStop(text[i]) {
        chunkEnd := i + 1;
        break;
      }
      i := i - 1;
    }
  }

  /** The first chunk, then every later chunk without its first overlap characters. */
  function Rebuild(chunks: seq<string>, overlap: nat): string {
    if chunks == [] then "" else chunks[0] + RebuildTail(chunks[1..], overlap)
  }

  function RebuildTail(chunks: seq<string>, overlap: nat): string {
    if chunks == [] then ""
    else (if overlap <= |chunks[0]| then chunks[0][overlap..] else "") + RebuildTail(chunks[1..], overlap)
  }

  /** Dropping each overlap gives back the text, so no character is lost. */
  lemma SplitRebuilds(text: string, cfg: ChunkingConfig, chunks: seq<string>)
    requires cfg.Progresses() && 0 <= cfg.chunkOverlap && SplitsInto(text, cfg, chunks)
    ensures Rebuild(chunks, cfg.chunkOverlap) == text
  {
    var spans: seq<Span> :| IsSplit(text, cfg, 0, spans) && chunks == Pieces(text, spans);
    if text != "" {
      TailRebuilds(text, cfg, 0, spans);
      FirstRebuilds(text, spans, cfg.chunkOverlap);
    }
  }

  lemma FirstRebuilds(text: string, spans: seq<Span>, overlap: nat)
    requires spans != [] && spans[0].start == 0 < spans[0].end <= |text|
    requires RebuildTail(Pieces(text, spans[1..]), overlap) == text[spans[0].end..]
    ensures Rebuild(Pieces(text, spans), overlap) == text
  {
    var first, rest := Piece(text, spans[0]), Pieces(text, spans[1..]);
    assert Pieces(text, spans) == [first] + rest && ([first] + rest)[1..] == rest;
    PieceDropped(text, 0, spans[0].end, 0);
    assert first[0..] == first && text[0..] == text;
  }

  lemma {:induction false} TailRebuilds(text: string, cfg: ChunkingConfig, start: nat, spans: seq<Span>)
    requires cfg.Progresses() && 0 <= cfg.chunkOverlap && IsSplit(text, cfg, start, spans) && spans != []
    ensures start < spans[0].end <= |text|
    ensures RebuildTail(Pieces(text, spans[1..]), cfg.chunkOverlap) == text[spans[0].end..]
    decreases |spans|
  {
    assert Closes(text, cfg, spans[0]);
    if |spans| > 1 {
      var overlap, e0, tail := cfg.chunkOverlap, spans[0].end, spans[1..];
      TailSplit(text, cfg, start, spans);
      TailRebuilds(text, cfg, spans[1].start, tail);
      assert Closes(text, cfg, spans[1]);
      OverlapCovered(text, cfg, spans[0], spans[1]);
      OverlapDropped(text, tail, overlap, e0);
    }
  }

  lemma OverlapDropped(text: string, tail: seq<Span>, overlap: nat, e0: nat)
    requires tail != [] && tail[0].start + overlap == e0 <= tail[0].end <= |text|
    requires RebuildTail(Pieces(text, tail[1..]), overlap) == text[tail[0].end..]
    ensures RebuildTail(Pieces(text, tail), overlap) == text[e0..]
  {
    var first, rest := Piece(text, tail[0]), Pieces(text, tail[1..]);
    assert Pieces(text, tail) == [first] + rest && ([first] + rest)[1..] == rest;
    PieceDropped(text, tail[0].start, tail[0].end, overlap);
  }

  lemma PieceDropped(text: string, start: nat, end: nat, overlap: nat)
    requires start + overlap <= end <= |text|
    ensures var piece := Slice(text, start, end);
      overlap <= |piece| && piece[overlap..] + text[end..] == text[start + overlap..]
  {
    assert Slice(text, start, end) == text[start..end];
  }

  function Letters(n: nat): (text: string)
    ensures |text| == n && forall i :: 0 <= i < n ==> !IsStop(text[i])
  {
    seq(n, _ => 'a')
  }

  /** With a negative overlap a text one character longer than the chunk size loses that character. */
  lemma GapLoses(cfg: ChunkingConfig)
    requires cfg.Accepted() && cfg.chunkOverlap < 0
    ensures var text, chunks := Letters((if cfg.chunkSize > 0 then cfg.chunkSize else 0) + 1),
                                [Letters(if cfg.chunkSize > 0 then cfg.chunkSize else 0)];
      SplitsInto(text, cfg, chunks) && Rebuild(chunks, 0) != text
  {
    var n := if cfg.chunkSize > 0 then cfg.chunkSize else 0;
    var text, spans := Letters(n + 1), [Span(0, cfg.chunkSize)];
    assert IsSplit(text, cfg, 0, spans);
    assert Pieces(text, spans) == [Letters(n)] by {
      assert Piece(text, spans[0]) == Letters(n);
      assert Pieces(text, spans[1..]) == [];
    }
    assert |Rebuild([Letters(n)], 0)| == n;
  }

  /** A configuration on which every loop ends lets every text be rebuilt exactly when its overlap is not
      negative. */
  lemma RebuildsExactly(cfg: ChunkingConfig)
    requires cfg.Progresses()
    ensures (forall text, chunks :: SplitsInto(text, cfg, chunks) ==>
              Rebuild(chunks, if cfg.chunkOverlap > 0 then cfg.chunkOverlap else 0) == text)
            <==> cfg.chunkOverlap >= 0
  {
    if cfg.chunkOverlap >= 0 {
      forall text, chunks | SplitsInto(text, cfg, chunks) ensures Rebuild(chunks, cfg.chunkOverlap) == text {
        SplitRebuilds(text, cfg, chunks);
      }
    } else {
      GapLoses(cfg);
    }
  }

  /** A window reaches past the whole overlap it shares with the one before. */
  lemma OverlapCovered(text: string, cfg: ChunkingConfig, a: Span, b: Span)
    requires cfg.Progresses() && 0 <= cfg.chunkOverlap && Closes(text, cfg, a) && Closes(text, cfg, b)
    requires b.start == a.end - cfg.chunkOverlap
    ensures a.end <= b.end
  {
  }

  /** For a positive chunk size no window is empty, or longer than chunkSize + 1. */
  lemma WindowSizes(text: string, cfg: ChunkingConfig, spans: seq<Span>)
    requires cfg.Accepted() && cfg.chunkSize >= 1 && IsSplit(text, cfg, 0, spans)
    ensures forall i :: 0 <= i < |spans| ==> 0 < spans[i].end - spans[i].start <= cfg.chunkSize + 1
  {
    forall i | 0 <= i < |spans| ensures 0 < spans[i].end - spans[i].start <= cfg.chunkSize + 1 {
      assert Closes(text, cfg, spans[i]);
    }
  }

  /** The sizes of the windows, and their number: at most (|text| - 1) / Stride + 1. */
  lemma SplitBounds(text: string, cfg: ChunkingConfig, spans: seq<Span>)
    requires cfg.Progresses() && IsSplit(text, cfg, 0, spans)
    ensures cfg.chunkSize >= 1 ==>
              forall i :: 0 <= i < |spans| ==> 0 < spans[i].end - spans[i].start <= cfg.chunkSize + 1
    ensures cfg.Stride() > 0 && (spans != [] ==> |spans| <= (|text| - 1) / cfg.Stride() + 1)
  {
    if cfg.chunkSize >= 1 { WindowSizes(text, cfg, spans); }
    if spans != [] {
      SplitStrides(text, cfg, 0, spans);
      QuotientBound(|spans| - 1, cfg.Stride(), |text| - 1);
    }
  }

  /** Each window opens at least a stride after the one before. */
  lemma {:induction false} SplitStrides(text: string, cfg: ChunkingConfig, start: nat, spans: seq<Span>)
    requires cfg.Progresses() && IsSplit(text, cfg, start, spans) && spans != []
    ensures (|spans| - 1) * cfg.Stride() <= |text| - 1 - start
    decreases |spans|
  {
    if |spans| > 1 {
      TailSplit(text, cfg, start, spans);
      SplitStrides(text, cfg, spans[1].start, spans[1..]);
      StrideStep(text, cfg, spans[0], spans[1]);
      OneStride(|spans| - 1, cfg.Stride());
    }
  }

  lemma StrideStep(text: string, cfg: ChunkingConfig, a: Span, b: Span)
    requires cfg.Progresses() && Closes(text, cfg, a) && !Final(text, cfg, a) && b.start == a.end - cfg.chunkOverlap
    ensures b.start >= a.start + cfg.Stride()
  {
  }

  lemma OneStride(n: int, d: int)
    ensures n * d == (n - 1) * d + d
  {
  }

  lemma QuotientBound(n: int, d: int, x: int)
    requires d > 0 && n * d <= x
    ensures n <= x / d
  {
    var q := x / d;
    assert x == q * d + x % d;
    if n > q { MulMono(q + 1, n, d); }
  }

  lemma MulMono(a: int, b: int, d: nat)
    requires a <= b
    ensures a * d <= b * d
  {
  }

  /** An accepted configuration splits every text in finitely many windows exactly when its overlap is
      below Reach + 2. */
  lemma HaltsExactly(cfg: ChunkingConfig)
    requires cfg.chunkOverlap < cfg.chunkSize && cfg.minChunkSize > 0
    ensures (forall text :: Halts(text, cfg)) <==> cfg.chunkOverlap < cfg.Reach() + 2
  {
    if cfg.chunkOverlap < cfg.Reach() + 2 {
      forall text ensures Halts(text, cfg) {
        ProgressHalts(text, cfg, 0);
        assert HaltsWithin(text, cfg, 0, |text|);
      }
    } else {
      var text := StuckText(cfg);
      forall fuel: nat ensures !HaltsWithin(text, cfg, 0, fuel) {
        StuckForever(cfg, fuel);
      }
      assert !Halts(text, cfg);
    }
  }

  lemma {:induction false} ProgressHalts(text: string, cfg: ChunkingConfig, start: nat)
    requires cfg.Progresses()
    ensures HaltsWithin(text, cfg, start, if start < |text| then |text| - start else 0)
    decreases |text| - start
  {
    if start < |text| && start + cfg.chunkSize < |text| {
      var next := CutAt(text, cfg, start) - cfg.chunkOverlap;
      ProgressHalts(text, cfg, next);
      MoreFuel(text, cfg, next, if next < |text| then |text| - next else 0, |text| - start - 1);
    }
  }

  lemma {:induction false} MoreFuel(text: string, cfg: ChunkingConfig, start: int, few: nat, many: nat)
    requires cfg.Accepted() && few <= many
    requires HaltsWithin(text, cfg, start, few)
    ensures HaltsWithin(text, cfg, start, many)
    decreases few
  {
    if start < |text| && start + cfg.chunkSize < |text| {
      MoreFuel(text, cfg, CutAt(text, cfg, start) - cfg.chunkOverlap, few - 1, many - 1);
    }
  }

  /** A text on which the loop ends has a split. */
  lemma SplitExists(text: string, cfg: ChunkingConfig)
    requires cfg.Accepted() && Halts(text, cfg)
    ensures exists chunks :: SplitsInto(text, cfg, chunks)
  {
    var fuel: nat :| HaltsWithin(text, cfg, 0, fuel);
    CutsSplit(text, cfg, 0, fuel);
    assert SplitsInto(text, cfg, Cuts(text, cfg, 0, fuel));
  }

  /** A text whose first window is as short as can be: one sentence end just beyond the reach, or none if a full
      window is no longer. */
  function ShortFirst(cfg: ChunkingConfig): (text: string)
    requires cfg.Accepted()
    ensures |text| > cfg.chunkSize && |text| > cfg.chunkSize + 1 - cfg.chunkOverlap
    ensures forall i :: 0 <= i < |text| ==>
              (IsStop(text[i]) <==> i == cfg.Reach() + 1 && cfg.Reach() + 1 < cfg.chunkSize)
  {
    seq((if cfg.chunkSize > 0 then cfg.chunkSize else 0) + (if cfg.chunkOverlap > 0 then cfg.chunkOverlap
                                                            else -cfg.chunkOverlap) + 2,
        i => if i == cfg.Reach() + 1 && cfg.Reach() + 1 < cfg.chunkSize then '.' else 'a')
  }

  /** The stride is reached, so no greater distance between starts would do. */
  lemma StrideReached(cfg: ChunkingConfig) returns (spans: seq<Span>)
    requires cfg.Progresses()
    ensures IsSplit(ShortFirst(cfg), cfg, 0, spans) && |spans| > 1 && spans[1].start - spans[0].start == cfg.Stride()
  {
    var text := ShortFirst(cfg);
    ProgressHalts(text, cfg, 0);
    SplitExists(text, cfg);
    var chunks :| SplitsInto(text, cfg, chunks);
    spans :| IsSplit(text, cfg, 0, spans) && chunks == Pieces(text, spans);
    assert Closes(text, cfg, spans[0]);
    if cfg.Reach() + 1 < cfg.chunkSize { assert IsStop(text[cfg.Reach() + 1]); }
  }

  /** One sentence end, placed so that the first window is cut at exactly the overlap. */
  function StuckText(cfg: ChunkingConfig): (text: string)
    requires cfg.Accepted() && cfg.chunkOverlap >= cfg.Reach() + 2
    ensures |text| == cfg.chunkSize + 1
    ensures forall i :: 0 <= i < |text| ==> (IsStop(text[i]) <==> i == cfg.chunkOverlap - 1)
  {
    seq(cfg.chunkSize + 1, i => if i == cfg.chunkOverlap - 1 then '.' else 'a')
  }

  lemma {:induction false} StuckForever(cfg: ChunkingConfig, fuel: nat)
    requires cfg.Accepted() && cfg.chunkOverlap >= cfg.Reach() + 2
    ensures !HaltsWithin(StuckText(cfg), cfg, 0, fuel)
  {
    assert IsStop(StuckText(cfg)[cfg.chunkOverlap - 1]);
    assert CutAt(StuckText(cfg), cfg, 0) == cfg.chunkOverlap;
    if fuel > 0 { StuckForever(cfg, fuel - 1); }
  }

  /** The defaults halt on every text; 300/102/100 is accepted too, and does not. An overlap of the chunk size, or a
      minimum of nothing, is not accepted. */
  lemma DefaultsHalt()
    ensures !ChunkingConfig(300, 300, 2000, 100).Accepted() && !ChunkingConfig(300, 100, 2000, 0).Accepted()
    ensures DEFAULTS.Progresses() && forall text :: Halts(text, DEFAULTS)
    ensures var cfg := ChunkingConfig(300, 102, 2000, 100); cfg.Accepted() && exists text :: !Halts(text, cfg)
  {
    HaltsExactly(DEFAULTS);
    HaltsExactly(ChunkingConfig(300, 102, 2000, 100));
  }
}
