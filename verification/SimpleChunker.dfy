/** The simple chunker's loop, and what re-chunking a chunked document does. */
module SimpleChunker {
  import opened Text
  import opened Chunks
  import opened Paragraphs
  import opened Packer

  function GroupsOf(content: string, cfg: ChunkingConfig): seq<seq<string>> {
    Pack([], ParagraphsOf(content), cfg.chunkSize)
  }

  /** How far the recorded position moves after a chunk. */
  function Advance(length: nat, cfg: ChunkingConfig): nat {
    if length > cfg.chunkOverlap then length - cfg.chunkOverlap else 0
  }

  /** chunks are the joined groups, each recorded to start Advance beyond the one before. */
  predicate Lists(chunks: seq<DocumentChunk>, groups: seq<seq<string>>, cfg: ChunkingConfig, total: nat) {
    && |chunks| == |groups|
    && (forall i :: 0 <= i < |chunks| ==> Entry(chunks, groups, cfg, total, i))
  }

  predicate Entry(chunks: seq<DocumentChunk>, groups: seq<seq<string>>, cfg: ChunkingConfig, total: nat, i: nat)
    requires i < |chunks| == |groups|
  {
    var text, start := JoinBlank(groups[i]), StartOf(chunks, groups, cfg, i);
    chunks[i] == MakeChunk(text, i, start, start + |text|, total)
  }

  /** Where chunk i is recorded to start. */
  function StartOf(chunks: seq<DocumentChunk>, groups: seq<seq<string>>, cfg: ChunkingConfig, i: nat): int
    requires i <= |chunks| == |groups|
  {
    if i == 0 then 0 else chunks[i - 1].startChar + Advance(|JoinBlank(groups[i - 1])|, cfg)
  }

  /** The groups made so far, then what the loop makes of the rest. */
  ghost predicate Packing(
    groups: seq<seq<string>>, current: seq<string>, rest: seq<string>, content: string, cfg: ChunkingConfig)
  {
    groups + Pack(current, rest, cfg.chunkSize) == GroupsOf(content, cfg)
  }

  method ChunkDocument(content: string, cfg: ChunkingConfig) returns (chunks: seq<DocumentChunk>)
    ensures Lists(chunks, GroupsOf(content, cfg), cfg, |chunks|)
  {
    if Strip(content) == "" {
      BlankContent(content);
      return [];
    }
    var paragraphs := SplitGaps(content);
    chunks := [];
    var currentChunk := "";
    var currentPos := 0;
    var chunkIndex := 0;
    ghost var groups: seq<seq<string>>, current: seq<string> := [], [];
    assert paragraphs[0..] == paragraphs;
    PartsNoGap(content);
    for i := 0 to |paragraphs|
      invariant Packing(groups, current, KeepStripped(paragraphs[i..]), content, cfg)
      invariant Lists(chunks, groups, cfg, 0) && chunkIndex == |chunks|
      invariant currentPos == StartOf(chunks, groups, cfg, chunkIndex)
      invariant currentChunk == JoinBlank(current) && (current != [] <==> currentChunk != "")
      invariant forall p :: p in current ==> Clean(p)
    {
      var paragraph := Strip(paragraphs[i]);
      KeepStep(paragraphs, i);
      if paragraph == "" {
        continue;
      }
      StrippedClean(paragraphs[i]);
      PackStep(groups, current, paragraph, KeepStripped(paragraphs[i + 1..]), content, cfg);
      var potentialChunk := if currentChunk != "" then currentChunk + "\n\n" + paragraph else paragraph;
      if |potentialChunk| <= cfg.chunkSize {
        currentChunk := potentialChunk;
        current := current + [paragraph];
      } else {
        if currentChunk != "" {
          ListsAppend(chunks, groups, cfg, current, currentPos);
          chunks := chunks + [CreateChunk(currentChunk, chunkIndex, currentPos)];
          groups := groups + [current];
          currentPos := currentPos + Advance(|currentChunk|, cfg);
          chunkIndex := chunkIndex + 1;
        }
        currentChunk := paragraph;
        current := [paragraph];
      }
    }
    assert KeepStripped(paragraphs[|paragraphs|..]) == [];
    PackDone(groups, current, content, cfg);
    if currentChunk != "" {
      ListsAppend(chunks, groups, cfg, current, currentPos);
      chunks := chunks + [CreateChunk(currentChunk, chunkIndex, currentPos)];
      groups := groups + [current];
    }
    chunks := SetTotals(chunks, groups, cfg);
  }

  function CreateChunk(text: string, index: nat, pos: int): DocumentChunk {
    MakeChunk(Strip(text), index, pos, pos + |text|, 0)
  }

  method SetTotals(chunks: seq<DocumentChunk>, ghost groups: seq<seq<string>>, cfg: ChunkingConfig)
    returns (counted: seq<DocumentChunk>)
    requires Lists(chunks, groups, cfg, 0)
    ensures Lists(counted, groups, cfg, |counted|)
  {
    counted := chunks;
    for i := 0 to |chunks|
      invariant |counted| == |chunks|
      invariant forall k :: 0 <= k < i ==> counted[k] == chunks[k].(totalChunks := |chunks|)
      invariant forall k :: i <= k < |chunks| ==> counted[k] == chunks[k]
    {
      counted := counted[i := counted[i].(totalChunks := |chunks|)];
    }
    forall i | 0 <= i < |chunks| ensures Entry(counted, groups, cfg, |chunks|, i) {
      assert Entry(chunks, groups, cfg, 0, i);
      assert StartOf(counted, groups, cfg, i) == StartOf(chunks, groups, cfg, i);
    }
  }

  lemma PackDone(groups: seq<seq<string>>, current: seq<string>, content: string, cfg: ChunkingConfig)
    requires Packing(groups, current, [], content, cfg)
    ensures (if current == [] then groups else groups + [current]) == GroupsOf(content, cfg)
  {
  }

  lemma KeepStep(parts: seq<string>, i: nat)
    requires i < |parts|
    ensures var p, later := Strip(parts[i]), KeepStripped(parts[i + 1..]);
            KeepStripped(parts[i..]) == if p == "" then later else [p] + later
  {
    assert parts[i..][1..] == parts[i + 1..];
  }

  /** One paragraph more: it joins the open group, or closes it. */
  lemma PackStep(groups: seq<seq<string>>, current: seq<string>, p: string, later: seq<string>,
                 content: string, cfg: ChunkingConfig)
    requires Packing(groups, current, [p] + later, content, cfg)
    ensures current != [] ==> JoinBlank(current + [p]) == JoinBlank(current) + "\n\n" + p
    ensures current == [] || |JoinBlank(current + [p])| <= cfg.chunkSize
            ==> Packing(groups, current + [p], later, content, cfg)
    ensures current != [] && |JoinBlank(current + [p])| > cfg.chunkSize
            ==> Packing(groups + [current], [p], later, content, cfg)
  {
    assert ([p] + later)[1..] == later;
    if current != [] {
      JoinLonger(current, p);
      assert groups + ([current] + Pack([p], later, cfg.chunkSize))
          == groups + [current] + Pack([p], later, cfg.chunkSize);
    } else {
      assert current + [p] == [p];
    }
  }

  lemma ListsAppend(chunks: seq<DocumentChunk>, groups: seq<seq<string>>, cfg: ChunkingConfig,
                    current: seq<string>, pos: int)
    requires Lists(chunks, groups, cfg, 0) && pos == StartOf(chunks, groups, cfg, |chunks|)
    requires forall p :: p in current ==> Clean(p)
    ensures var chunks', groups' := chunks + [CreateChunk(JoinBlank(current), |chunks|, pos)], groups + [current];
            && Lists(chunks', groups', cfg, 0)
            && StartOf(chunks', groups', cfg, |chunks'|) == pos + Advance(|JoinBlank(current)|, cfg)
  {
    JoinStripped(current);
    ListsExtend(chunks, groups, cfg, current, CreateChunk(JoinBlank(current), |chunks|, pos));
  }

  lemma ListsExtend(chunks: seq<DocumentChunk>, groups: seq<seq<string>>, cfg: ChunkingConfig,
                    current: seq<string>, next: DocumentChunk)
    requires Lists(chunks, groups, cfg, 0)
    requires var text, start := JoinBlank(current), StartOf(chunks, groups, cfg, |chunks|);
             next == MakeChunk(text, |chunks|, start, start + |text|, 0)
    ensures Lists(chunks + [next], groups + [current], cfg, 0)
  {
    var chunks', groups' := chunks + [next], groups + [current];
    forall i | 0 <= i < |chunks'| ensures Entry(chunks', groups', cfg, 0, i) {
      assert StartOf(chunks', groups', cfg, i) == StartOf(chunks, groups, cfg, i);
      if i < |chunks| { assert Entry(chunks, groups, cfg, 0, i); }
    }
  }

  lemma JoinStripped(paras: seq<string>)
    requires forall p :: p in paras ==> Clean(p)
    ensures Strip(JoinBlank(paras)) == JoinBlank(paras)
  {
    JoinTight(paras);
    StripUnique("", JoinBlank(paras), "");
    assert "" + JoinBlank(paras) + "" == JoinBlank(paras);
  }

  lemma BlankContent(content: string)
    requires Strip(content) == ""
    ensures ParagraphsOf(content) == []
  {
    InkStrip(content);
    ParagraphsKeepInk(content);
    ParagraphsClean(content);
    var paras := ParagraphsOf(content);
    if paras != [] { JoinStarts(paras); }
  }

  function Contents(chunks: seq<DocumentChunk>): (texts: seq<string>)
    ensures |texts| == |chunks|
    ensures forall i :: 0 <= i < |chunks| ==> texts[i] == chunks[i].content
  {
    if chunks == [] then [] else [chunks[0].content] + Contents(chunks[1..])
  }

  lemma {:induction false} JoinTight(paras: seq<string>)
    requires forall p :: p in paras ==> Clean(p)
    ensures Tight(JoinBlank(paras))
  {
    if |paras| > 1 {
      assert forall p :: p in paras[1..] ==> p in paras;
      assert Clean(paras[0]);
      JoinTight(paras[1..]);
      JoinStarts(paras[1..]);
    } else if paras != [] {
      assert Clean(paras[0]);
    }
  }

  lemma {:induction false} JoinAllAt(groups: seq<seq<string>>, i: nat)
    requires i < |groups|
    ensures JoinAll(groups)[i] == JoinBlank(groups[i])
  {
    if i > 0 { JoinAllAt(groups[1..], i - 1); }
  }

  /** Stripping a chunk changes nothing: its content is the joined group. */
  lemma ContentsAreGroups(content: string, cfg: ChunkingConfig, chunks: seq<DocumentChunk>)
    requires Lists(chunks, GroupsOf(content, cfg), cfg, |chunks|)
    ensures Contents(chunks) == JoinAll(GroupsOf(content, cfg))
  {
    var groups := GroupsOf(content, cfg);
    forall i | 0 <= i < |chunks| ensures Contents(chunks)[i] == JoinAll(groups)[i] {
      JoinAllAt(groups, i);
      assert Entry(chunks, groups, cfg, |chunks|, i);
    }
  }

  /** Chunk i is the joined group i; the first is recorded at 0, and a later one an overlap before the end of the
      one before, or at the start of that if it is no longer than the overlap. */
  lemma PositionsExactly(content: string, cfg: ChunkingConfig, chunks: seq<DocumentChunk>, i: nat)
    requires Lists(chunks, GroupsOf(content, cfg), cfg, |chunks|) && i < |chunks|
    ensures Describes(chunks[i], JoinBlank(GroupsOf(content, cfg)[i]), i, |chunks|)
    ensures chunks[i].endChar - chunks[i].startChar == |chunks[i].content|
    ensures i == 0 ==> chunks[i].startChar == 0
    ensures i > 0 ==>
              if |chunks[i - 1].content| > cfg.chunkOverlap
              then chunks[i].startChar == chunks[i - 1].endChar - cfg.chunkOverlap
              else chunks[i].startChar == chunks[i - 1].startChar
  {
    assert Entry(chunks, GroupsOf(content, cfg), cfg, |chunks|, i);
    if i > 0 { assert Entry(chunks, GroupsOf(content, cfg), cfg, |chunks|, i - 1); }
  }

  /** The chunks joined by blank lines are the paragraphs joined by blank lines, and split into the same
      paragraphs again. */
  lemma ChunkingRoundTrip(content: string, cfg: ChunkingConfig, chunks: seq<DocumentChunk>)
    requires Lists(chunks, GroupsOf(content, cfg), cfg, |chunks|)
    ensures JoinBlank(Contents(chunks)) == JoinBlank(ParagraphsOf(content))
    ensures ParagraphsOf(JoinBlank(Contents(chunks))) == ParagraphsOf(content)
  {
    var groups := GroupsOf(content, cfg);
    ContentsAreGroups(content, cfg, chunks);
    PackGroups([], ParagraphsOf(content), cfg.chunkSize);
    assert [] + ParagraphsOf(content) == ParagraphsOf(content);
    assert forall g :: g in groups ==> Fits(g, cfg.chunkSize) && g != [];
    JoinJoined(groups);
    ParagraphsClean(content);
    ParagraphsRoundTrip(ParagraphsOf(content));
  }

  /** Chunking what was chunked gives the same chunks, indices and recorded positions. */
  lemma RechunkingFixed(content: string, cfg: ChunkingConfig, chunks: seq<DocumentChunk>, again: seq<DocumentChunk>)
    requires Lists(chunks, GroupsOf(content, cfg), cfg, |chunks|)
    requires Lists(again, GroupsOf(JoinBlank(Contents(chunks)), cfg), cfg, |again|)
    ensures again == chunks
  {
    ChunkingRoundTrip(content, cfg, chunks);
    ListsUnique(chunks, again, GroupsOf(content, cfg), cfg);
  }

  lemma ListsUnique(a: seq<DocumentChunk>, b: seq<DocumentChunk>, groups: seq<seq<string>>, cfg: ChunkingConfig)
    requires Lists(a, groups, cfg, |a|) && Lists(b, groups, cfg, |b|)
    ensures a == b
  {
    forall i | 0 <= i < |a| ensures a[i] == b[i] { SameEntry(a, b, groups, cfg, i); }
  }

  lemma {:induction false} SameEntry(
    a: seq<DocumentChunk>, b: seq<DocumentChunk>, groups: seq<seq<string>>, cfg: ChunkingConfig, i: nat)
    requires Lists(a, groups, cfg, |a|) && Lists(b, groups, cfg, |b|) && i < |a|
    ensures a[i] == b[i]
  {
    if i > 0 { SameEntry(a, b, groups, cfg, i - 1); }
    assert Entry(a, groups, cfg, |a|, i) && Entry(b, groups, cfg, |b|, i);
  }

  /** Chunking drops white space between paragraphs and nothing else. */
  lemma ChunkingKeepsInk(content: string, cfg: ChunkingConfig, chunks: seq<DocumentChunk>)
    requires Lists(chunks, GroupsOf(content, cfg), cfg, |chunks|)
    ensures Ink(JoinBlank(Contents(chunks))) == Ink(content)
  {
    ChunkingRoundTrip(content, cfg, chunks);
    ParagraphsKeepInk(content);
  }

  lemma {:induction false} FlattenHas(groups: seq<seq<string>>, i: nat)
    requires i < |groups|
    ensures forall p :: p in groups[i] ==> p in Flatten(groups)
  {
    if i > 0 {
      FlattenHas(groups[1..], i - 1);
    }
  }

  /** The chunks are as few as any grouping of the paragraphs into chunks that fit allows. */
  lemma ChunkingOptimal(content: string, cfg: ChunkingConfig, chunks: seq<DocumentChunk>, rival: seq<seq<string>>)
    requires Lists(chunks, GroupsOf(content, cfg), cfg, |chunks|)
    requires IsGrouping(ParagraphsOf(content), rival, cfg.chunkSize)
    ensures |chunks| <= |rival|
    ensures forall i :: 0 <= i < |chunks| ==>
              |chunks[i].content| <= cfg.chunkSize || chunks[i].content in ParagraphsOf(content)
  {
    var groups := GroupsOf(content, cfg);
    PackingOptimal(ParagraphsOf(content), rival, cfg.chunkSize);
    ContentsAreGroups(content, cfg, chunks);
    forall i | 0 <= i < |chunks|
      ensures |chunks[i].content| <= cfg.chunkSize || chunks[i].content in ParagraphsOf(content)
    {
      JoinAllAt(groups, i);
      FlattenHas(groups, i);
      assert groups[i] in groups && Fits(groups[i], cfg.chunkSize);
    }
  }
}
