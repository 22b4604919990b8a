/** Where the semantic chunker records each chunk to lie, against where it really lies. */
module Offsets {
  import opened Text
  import opened Chunks
  import opened Splitter

  /** The position from which the search for chunk i sets out. */
  function Resume(objects: seq<DocumentChunk>, i: nat): int
    requires i <= |objects|
  {
    if i == 0 then 0 else objects[i - 1].endChar
  }

  /** objects records chunks: each at its leftmost occurrence after the one before, or, if it does not
      occur there, just after the one before. */
  ghost predicate Records(text: string, chunks: seq<string>, objects: seq<DocumentChunk>) {
    && |objects| == |chunks|
    && (forall i :: 0 <= i < |objects| ==> RecordedAt(text, chunks, objects, i))
  }

  ghost predicate RecordedAt(text: string, chunks: seq<string>, objects: seq<DocumentChunk>, i: nat)
    requires i < |objects| <= |chunks|
  {
    Placed(text, chunks[i], i, |chunks|, Resume(objects, i), objects[i])
  }

  ghost predicate Placed(text: string, chunk: string, i: nat, total: nat, from: int, o: DocumentChunk) {
    && o == MakeChunk(Strip(chunk), i, o.startChar, o.startChar + |chunk|, total)
    && Leftmost(text, chunk, from, o.startChar)
  }

  /** start is where chunk first occurs from position from on, or from if it does not. */
  ghost predicate Leftmost(text: string, chunk: string, from: int, start: int) {
    && 0 <= from <= start
    && (start == from || At(text, chunk, start))
    && forall j: nat :: from <= j && At(text, chunk, j) ==> start <= j
  }

  method CreateChunkObjects(chunks: seq<string>, text: string) returns (objects: seq<DocumentChunk>)
    ensures Records(text, chunks, objects)
    ensures forall i :: 0 <= i < |objects| ==> Describes(objects[i], Strip(chunks[i]), i, |chunks|)
  {
    objects := [];
    var currentPos: nat := 0;
    for i := 0 to |chunks|
      invariant |objects| == i && currentPos == Resume(objects, i)
      invariant forall k :: 0 <= k < i ==> RecordedAt(text, chunks, objects, k)
    {
      var startPos := match Find(text, chunks[i], currentPos) case Some(p) => p case None => currentPos;
      var endPos := startPos + |chunks[i]|;
      var next := MakeChunk(Strip(chunks[i]), i, startPos, endPos, |chunks|);
      RecordedExtend(text, chunks, objects, next);
      objects := objects + [next];
      currentPos := endPos;
    }
    forall i | 0 <= i < |objects| ensures Describes(objects[i], Strip(chunks[i]), i, |chunks|) {
      assert RecordedAt(text, chunks, objects, i);
    }
  }

  lemma RecordedExtend(text: string, chunks: seq<string>, objects: seq<DocumentChunk>, next: DocumentChunk)
    requires |objects| < |chunks| && forall k :: 0 <= k < |objects| ==> RecordedAt(text, chunks, objects, k)
    requires Placed(text, chunks[|objects|], |objects|, |chunks|, Resume(objects, |objects|), next)
    ensures forall k :: 0 <= k <= |objects| ==> RecordedAt(text, chunks, objects + [next], k)
  {
    forall k | 0 <= k <= |objects| ensures RecordedAt(text, chunks, objects + [next], k) {
      assert Resume(objects + [next], k) == Resume(objects, k);
      if k < |objects| {
        assert RecordedAt(text, chunks, objects, k);
      }
    }
  }

  lemma RecordedStep(text: string, chunks: seq<string>, objects: seq<DocumentChunk>, i: nat)
    requires Records(text, chunks, objects) && i < |objects|
    ensures Leftmost(text, chunks[i], Resume(objects, i), objects[i].startChar)
    ensures objects[i].content == Strip(chunks[i]) && objects[i].endChar == objects[i].startChar + |chunks[i]|
  {
    assert RecordedAt(text, chunks, objects, i);
  }

  /** Recorded spans follow one another without overlap, whatever the chunks are. */
  lemma {:induction false} RecordedApart(text: string, chunks: seq<string>, objects: seq<DocumentChunk>, i: nat, j: nat)
    requires Records(text, chunks, objects) && i < j < |objects|
    ensures 0 <= objects[i].startChar <= objects[i].endChar <= objects[j].startChar
    decreases j
  {
    RecordedStep(text, chunks, objects, i);
    RecordedStep(text, chunks, objects, j);
    RecordedStep(text, chunks, objects, j - 1);
    if i + 1 < j {
      RecordedApart(text, chunks, objects, i, j - 1);
    }
  }

  /** The record of chunk i starts at least i overlaps beyond the chunk. */
  lemma {:induction false} RecordedDrift(
    text: string, cfg: ChunkingConfig, spans: seq<Span>, objects: seq<DocumentChunk>, i: nat)
    requires cfg.Accepted() && 0 <= cfg.chunkOverlap && IsSplit(text, cfg, 0, spans) && i < |spans|
    requires Records(text, Pieces(text, spans), objects)
    ensures objects[i].startChar >= spans[i].start + i * cfg.chunkOverlap
  {
    var pieces := Pieces(text, spans);
    RecordedStep(text, pieces, objects, i);
    if i > 0 {
      RecordedDrift(text, cfg, spans, objects, i - 1);
      RecordedStep(text, pieces, objects, i - 1);
      PieceAt(text, spans, i - 1);
      assert Closes(text, cfg, spans[i - 1]);
      DriftAdds(i, cfg.chunkOverlap, objects[i - 1].startChar, objects[i].startChar, spans[i - 1], spans[i]);
    }
  }

  lemma DriftAdds(i: int, overlap: int, recorded: int, next: int, a: Span, b: Span)
    requires b.start == a.end - overlap && recorded >= a.start + (i - 1) * overlap
    requires next >= recorded + (a.end - a.start)
    ensures next >= b.start + i * overlap
  {
    assert i * overlap == (i - 1) * overlap + overlap;
  }

  lemma {:induction false} PieceAt(text: string, spans: seq<Span>, i: nat)
    requires i < |spans|
    ensures Pieces(text, spans)[i] == Piece(text, spans[i])
  {
    if i > 0 { PieceAt(text, spans[1..], i - 1); }
  }

  ghost predicate TrueOffsets(spans: seq<Span>, objects: seq<DocumentChunk>) {
    |objects| == |spans| &&
    forall i :: 0 <= i < |spans| ==> objects[i].startChar == spans[i].start && objects[i].endChar == spans[i].end
  }

  lemma TrueByCount(text: string, cfg: ChunkingConfig, spans: seq<Span>, objects: seq<DocumentChunk>)
    requires cfg.Accepted() && 0 <= cfg.chunkOverlap && IsSplit(text, cfg, 0, spans)
    requires Records(text, Pieces(text, spans), objects)
    ensures TrueOffsets(spans, objects) <==> cfg.chunkOverlap == 0 || |spans| <= 1
  {
    if cfg.chunkOverlap == 0 || |spans| <= 1 {
      forall i | 0 <= i < |spans|
        ensures objects[i].startChar == spans[i].start && objects[i].endChar == spans[i].end
      {
        NoDrift(text, cfg, spans, objects, i);
      }
    } else {
      RecordedDrift(text, cfg, spans, objects, 1);
    }
  }

  /** With an overlap, a text is one window exactly when it fits the chunk size. */
  lemma OneWindow(text: string, cfg: ChunkingConfig, spans: seq<Span>)
    requires cfg.Accepted() && 0 < cfg.chunkOverlap && IsSplit(text, cfg, 0, spans)
    ensures |spans| <= 1 <==> |text| <= cfg.chunkSize
  {
    if spans != [] { assert Closes(text, cfg, spans[0]); }
  }

  /** For an overlap that is not negative the recorded offsets are the true ones exactly when there is none, or the
      text fits one chunk. */
  lemma RecordedExactly(text: string, cfg: ChunkingConfig, spans: seq<Span>, objects: seq<DocumentChunk>)
    requires cfg.Accepted() && 0 <= cfg.chunkOverlap && IsSplit(text, cfg, 0, spans)
    requires Records(text, Pieces(text, spans), objects)
    ensures TrueOffsets(spans, objects) <==> cfg.chunkOverlap == 0 || |text| <= cfg.chunkSize
  {
    TrueByCount(text, cfg, spans, objects);
    if cfg.chunkOverlap > 0 { OneWindow(text, cfg, spans); }
  }

  lemma {:induction false} NoDrift(
    text: string, cfg: ChunkingConfig, spans: seq<Span>, objects: seq<DocumentChunk>, i: nat)
    requires cfg.Accepted() && 0 <= cfg.chunkOverlap && IsSplit(text, cfg, 0, spans) && i < |spans|
    requires Records(text, Pieces(text, spans), objects)
    requires cfg.chunkOverlap == 0 || |spans| <= 1
    ensures objects[i].startChar == spans[i].start && objects[i].endChar == spans[i].end
  {
    var pieces := Pieces(text, spans);
    PieceAt(text, spans, i);
    RecordedStep(text, pieces, objects, i);
    assert Closes(text, cfg, spans[i]);
    if i > 0 { NoDrift(text, cfg, spans, objects, i - 1); }
    FoundAtOnce(text, pieces[i], spans[i], Resume(objects, i), objects[i].startChar);
  }

  lemma FoundAtOnce(text: string, piece: string, span: Span, from: int, start: int)
    requires from == span.start <= span.end <= |text| && piece == Piece(text, span)
    requires Leftmost(text, piece, from, start)
    ensures start == span.start && start + |piece| == span.end
  {
    assert At(text, piece, span.start);
  }

  /** With no overlap the records tile the document and slice back to the chunks as they were cut. */
  lemma RecordedTile(text: string, cfg: ChunkingConfig, spans: seq<Span>, objects: seq<DocumentChunk>)
    requires cfg.Accepted() && cfg.chunkOverlap == 0 && IsSplit(text, cfg, 0, spans) && text != ""
    requires Records(text, Pieces(text, spans), objects)
    ensures objects != [] && objects[0].startChar == 0 && objects[|objects| - 1].endChar == |text|
    ensures forall i :: 0 < i < |objects| ==> objects[i].startChar == objects[i - 1].endChar
    ensures forall i :: 0 <= i < |objects| ==>
              0 <= objects[i].startChar < objects[i].endChar <= |text|
              && Pieces(text, spans)[i] == text[objects[i].startChar..objects[i].endChar]
              && objects[i].content == Strip(text[objects[i].startChar..objects[i].endChar])
  {
    TrueByCount(text, cfg, spans, objects);
    forall i | 0 <= i < |objects|
      ensures 0 <= objects[i].startChar < objects[i].endChar <= |text|
              && Pieces(text, spans)[i] == text[objects[i].startChar..objects[i].endChar]
              && objects[i].content == Strip(text[objects[i].startChar..objects[i].endChar])
    {
      PieceAt(text, spans, i);
      RecordedStep(text, Pieces(text, spans), objects, i);
      assert Closes(text, cfg, spans[i]);
    }
  }

  // ---- Which configurations record the truth on every text.

  ghost predicate RecordsTruly(cfg: ChunkingConfig)
    requires cfg.Accepted()
  {
    forall text, spans, objects :: IsSplit(text, cfg, 0, spans) && Records(text, Pieces(text, spans), objects) ==>
                                     TrueOffsets(spans, objects)
  }

  /** Whatever the chunks, there is a record of the first n of them. */
  lemma {:induction false} RecordsExist(text: string, chunks: seq<string>, n: nat) returns (objects: seq<DocumentChunk>)
    requires n <= |chunks|
    ensures |objects| == n && forall k :: 0 <= k < n ==> RecordedAt(text, chunks, objects, k)
  {
    objects := [];
    if n > 0 {
      objects := RecordsExist(text, chunks, n - 1);
      if n > 1 { assert RecordedAt(text, chunks, objects, n - 2); }
      var from: nat := Resume(objects, n - 1);
      var start := match Find(text, chunks[n - 1], from) case Some(p) => p case None => from;
      var next := MakeChunk(Strip(chunks[n - 1]), n - 1, start, start + |chunks[n - 1]|, |chunks|);
      RecordedExtend(text, chunks, objects, next);
      objects := objects + [next];
    }
  }

  lemma LettersCut(n: nat, cfg: ChunkingConfig, span: Span)
    requires cfg.Accepted() && Closes(Letters(n), cfg, span) && span.start + cfg.chunkSize < n
    ensures span.end == span.start + cfg.chunkSize
  {
  }

  /** A text of letters that a configuration with an overlap or a gap splits in two. */
  function Telling(cfg: ChunkingConfig): (text: string)
    requires cfg.Accepted()
  {
    if cfg.chunkOverlap > 0 then Letters(cfg.chunkSize + 1)
    else Letters((if cfg.chunkSize > 0 then cfg.chunkSize else 0) - cfg.chunkOverlap + 1)
  }

  /** A record of a split of it. */
  lemma TellingRecord(cfg: ChunkingConfig) returns (spans: seq<Span>, objects: seq<DocumentChunk>)
    requires cfg.Accepted() && cfg.chunkOverlap != 0
    ensures IsSplit(Telling(cfg), cfg, 0, spans) && Records(Telling(cfg), Pieces(Telling(cfg), spans), objects)
  {
    var text := Telling(cfg);
    if cfg.chunkOverlap > 0 {
      assert HaltsWithin(text, cfg, CutAt(text, cfg, 0) - cfg.chunkOverlap, 0);
      assert HaltsWithin(text, cfg, 0, 1);
    } else {
      HaltsExactly(cfg);
    }
    SplitExists(text, cfg);
    var chunks :| SplitsInto(text, cfg, chunks);
    spans :| IsSplit(text, cfg, 0, spans) && chunks == Pieces(text, spans);
    objects := RecordsExist(text, chunks, |chunks|);
  }

  lemma GapSpans(cfg: ChunkingConfig, spans: seq<Span>)
    requires cfg.Accepted() && cfg.chunkOverlap < 0 && IsSplit(Telling(cfg), cfg, 0, spans)
    ensures spans != [] && spans[0] == Span(0, cfg.chunkSize)
    ensures cfg.chunkSize >= 0 ==>
              && |spans| > 1 && spans[1].start == cfg.chunkSize - cfg.chunkOverlap
              && |Piece(Telling(cfg), spans[1])| <= 1
  {
    assert Closes(Telling(cfg), cfg, spans[0]);
    LettersCut(|Telling(cfg)|, cfg, spans[0]);
    if cfg.chunkSize >= 0 { assert Closes(Telling(cfg), cfg, spans[1]); }
  }

  /** With a gap between the windows, letters are found before the place they come from. */
  lemma GapMisplaced(cfg: ChunkingConfig, spans: seq<Span>, objects: seq<DocumentChunk>)
    requires cfg.Accepted() && cfg.chunkOverlap < 0
    requires IsSplit(Telling(cfg), cfg, 0, spans) && Records(Telling(cfg), Pieces(Telling(cfg), spans), objects)
    ensures !TrueOffsets(spans, objects)
  {
    GapSpans(cfg, spans);
    RecordedStep(Telling(cfg), Pieces(Telling(cfg), spans), objects, 0);
    if cfg.chunkSize >= 0 { SecondMisplaced(cfg, spans, objects); }
  }

  lemma SecondMisplaced(cfg: ChunkingConfig, spans: seq<Span>, objects: seq<DocumentChunk>)
    requires cfg.Accepted() && cfg.chunkOverlap < 0 <= cfg.chunkSize
    requires IsSplit(Telling(cfg), cfg, 0, spans) && Records(Telling(cfg), Pieces(Telling(cfg), spans), objects)
    ensures !TrueOffsets(spans, objects)
  {
    GapSpans(cfg, spans);
    var text := Telling(cfg);
    RecordedStep(text, Pieces(text, spans), objects, 1);
    PieceAt(text, spans, 1);
    OneAt(|text|, Pieces(text, spans)[1], spans[1], cfg.chunkSize);
  }

  /** A piece of at most one letter occurs everywhere among letters. */
  lemma OneAt(n: nat, piece: string, span: Span, k: nat)
    requires piece == Piece(Letters(n), span) && |piece| <= 1 && k < n
    ensures At(Letters(n), piece, k)
  {
    if piece != "" { assert piece[0] == 'a'; }
  }

  /** An accepted configuration records the true offsets on every text exactly when its overlap is 0. */
  lemma RecordsTrulyExactly(cfg: ChunkingConfig)
    requires cfg.Accepted()
    ensures RecordsTruly(cfg) <==> cfg.chunkOverlap == 0
  {
    if cfg.chunkOverlap == 0 {
      forall text, spans, objects | IsSplit(text, cfg, 0, spans) && Records(text, Pieces(text, spans), objects)
        ensures TrueOffsets(spans, objects)
      {
        RecordedExactly(text, cfg, spans, objects);
      }
    } else {
      var spans, objects := TellingRecord(cfg);
      if cfg.chunkOverlap > 0 {
        RecordedExactly(Telling(cfg), cfg, spans, objects);
      } else {
        GapMisplaced(cfg, spans, objects);
      }
    }
  }

  /** Under the defaults, 1001 letters make two windows; the second starts at 800 and is recorded beyond 1000. */
  lemma DefaultsMisplace(spans: seq<Span>, objects: seq<DocumentChunk>)
    requires IsSplit(Letters(1001), DEFAULTS, 0, spans) && Records(Letters(1001), Pieces(Letters(1001), spans), objects)
    ensures |spans| == 2 && spans[1].start == 800 && objects[1].startChar >= 1000
  {
    assert Closes(Letters(1001), DEFAULTS, spans[0]);
    LettersCut(1001, DEFAULTS, spans[0]);
    RecordedDrift(Letters(1001), DEFAULTS, spans, objects, 1);
  }
}
