/** The structure-aware chunker: sections grouped greedily, short groups dropped, and the window splitter where
    that does not apply. */
module SemanticChunker {
  import opened Text
  import opened Chunks
  import opened Splitter
  import opened Offsets
  import opened Sections
  import opened Packer

  const MAX_SIZE_FOR_SEMANTIC := 500000

  predicate Short(group: string, min: int) {
    |Strip(group)| < min
  }

  ghost predicate NoneShort(groups: seq<string>, min: int) {
    forall i :: 0 <= i < |groups| ==> !Short(groups[i], min)
  }

  lemma NoneShortCons(first: string, rest: seq<string>, min: int)
    ensures NoneShort([first] + rest, min) <==> !Short(first, min) && NoneShort(rest, min)
  {
    var all := [first] + rest;
    assert all[0] == first && forall i :: 0 <= i < |rest| ==> rest[i] == all[i + 1];
  }

  /** The groups that are long enough to be kept. */
  function Kept(groups: seq<string>, min: int): seq<string> {
    if groups == [] then []
    else if !Short(groups[0], min) then [groups[0]] + Kept(groups[1..], min)
    else Kept(groups[1..], min)
  }

  lemma {:induction false} KeptUnder(groups: seq<string>, min: int, bound: int)
    requires Under(groups, bound)
    ensures Under(Kept(groups, min), bound)
  {
    if groups != [] {
      var rest := groups[1..];
      assert |groups[0]| <= bound;
      assert forall i :: 0 <= i < |rest| ==> rest[i] == groups[i + 1];
      KeptUnder(rest, min, bound);
    }
  }

  lemma {:induction false} KeptLong(groups: seq<string>, min: int)
    ensures NoneShort(Kept(groups, min), min)
  {
    if groups != [] {
      KeptLong(groups[1..], min);
      NoneShortCons(groups[0], Kept(groups[1..], min), min);
    }
  }

  /** Dropping a group that is not blank loses text. */
  lemma {:induction false} KeptLossless(groups: seq<string>, min: int)
    requires AllInked(groups)
    ensures InkOf(Kept(groups, min)) == InkOf(groups) <==> NoneShort(groups, min)
    ensures !NoneShort(groups, min) ==> |InkOf(Kept(groups, min))| < |InkOf(groups)|
  {
    if groups != [] {
      var g, rest := groups[0], groups[1..];
      KeptLossless(rest, min);
      InkBlankExactly(g);
      InkOfCons(g, rest);
      InkOfCons(g, Kept(rest, min));
      assert groups == [g] + rest;
      NoneShortCons(g, rest, min);
      Cancel(Ink(g), InkOf(Kept(rest, min)), InkOf(rest));
    }
  }

  /** Kept are the groups with at least min characters between their white space, in order. */
  lemma {:induction false} KeptExactly(groups: seq<string>, min: int)
    ensures Kept(groups, min) == Filter(groups, g => |Strip(g)| >= min)
  {
    if groups != [] { KeptExactly(groups[1..], min); }
  }

  ghost predicate AllShort(groups: seq<string>, min: int) {
    forall i :: 0 <= i < |groups| ==> Short(groups[i], min)
  }

  lemma {:induction false} KeptNone(groups: seq<string>, min: int)
    ensures Kept(groups, min) == [] <==> AllShort(groups, min)
  {
    if groups != [] {
      var rest := groups[1..];
      KeptNone(rest, min);
      assert forall i :: 0 <= i < |rest| ==> rest[i] == groups[i + 1];
    }
  }

  lemma Cancel(a: string, b: string, c: string)
    ensures a + b == a + c <==> b == c
  {
    if a + b == a + c {
      assert b == (a + b)[|a|..] && c == (a + c)[|a|..];
    }
  }

  /** current and section, joined by a blank line unless current is empty. */
  function Potential(current: string, section: string): string {
    if current != "" then current + "\n\n" + section else section
  }

  function Closed(current: string): seq<string> {
    if current != "" then [Strip(current)] else []
  }

  /** The groups that the loop makes of the sections still to come, of which the first has index at, with
      current open. tabular is the test for tables, replies(i) the model's answer on section i, if it comes. */
  ghost function GroupsFrom(current: string, rest: seq<string>, at: nat, cfg: ChunkingConfig,
                            tabular: string -> bool, replies: nat -> Option<string>): seq<string>
    requires cfg.Accepted()
    decreases |rest|
  {
    if rest == [] then Closed(current)
    else
      var section, later := rest[0], rest[1..];
      if |Potential(current, section)| <= cfg.chunkSize
      then GroupsFrom(Potential(current, section), later, at + 1, cfg, tabular, replies)
      else if |section| > cfg.maxChunkSize
      then Closed(current) + LongParts(section, cfg, tabular(section), replies(at))
           + GroupsFrom("", later, at + 1, cfg, tabular, replies)
      else Closed(current) + GroupsFrom(section, later, at + 1, cfg, tabular, replies)
  }

  ghost function Groups(sections: seq<string>, cfg: ChunkingConfig, tabular: string -> bool,
                        replies: nat -> Option<string>): seq<string>
    requires cfg.Accepted()
  {
    GroupsFrom("", sections, 0, cfg, tabular, replies)
  }

  lemma StripShorter(s: string)
    ensures |Strip(s)| <= |s|
  {
    var left, right := StripSplits(s);
  }

  /** For every reply of the language model, the groups stay under the ceiling. */
  lemma {:induction false} GroupsUnder(current: string, rest: seq<string>, at: nat, cfg: ChunkingConfig,
                                       tabular: string -> bool, replies: nat -> Option<string>)
    requires cfg.Accepted() && cfg.chunkSize >= 1 && |current| <= Ceiling(cfg)
    ensures Under(GroupsFrom(current, rest, at, cfg, tabular, replies), Ceiling(cfg))
    decreases |rest|
  {
    StripShorter(current);
    if rest != [] {
      var section, later := rest[0], rest[1..];
      if |Potential(current, section)| <= cfg.chunkSize {
        GroupsUnder(Potential(current, section), later, at + 1, cfg, tabular, replies);
      } else if |section| > cfg.maxChunkSize {
        var parts, groups := LongParts(section, cfg, tabular(section), replies(at)),
                             GroupsFrom("", later, at + 1, cfg, tabular, replies);
        LongUnder(section, cfg, tabular(section), replies(at));
        GroupsUnder("", later, at + 1, cfg, tabular, replies);
        UnderAppend(Closed(current), parts, Ceiling(cfg));
        UnderAppend(Closed(current) + parts, groups, Ceiling(cfg));
      } else {
        GroupsUnder(section, later, at + 1, cfg, tabular, replies);
        UnderAppend(Closed(current), GroupsFrom(section, later, at + 1, cfg, tabular, replies), Ceiling(cfg));
      }
    }
  }

  lemma PotentialInk(current: string, section: string)
    ensures Ink(Potential(current, section)) == Ink(current) + Ink(section)
  {
    if current != "" { InkThree(current, "\n\n", section); }
  }

  /** An open group is empty or has ink. */
  predicate Open(current: string) {
    current == "" || !Blank(current)
  }

  lemma PotentialOpen(current: string, section: string)
    requires !Blank(section)
    ensures Open(Potential(current, section))
  {
    PotentialInk(current, section);
    InkBlankExactly(section);
    InkBlankExactly(Potential(current, section));
  }

  lemma ClosedInk(current: string)
    requires Open(current)
    ensures InkOf(Closed(current)) == Ink(current) && AllInked(Closed(current))
  {
    InkStrip(current);
    InkOfOne(Strip(current));
    InkBlankExactly(current);
    InkBlankExactly(Strip(current));
  }

  /** When no section is over-long, grouping keeps all ink and makes no blank group. */
  lemma {:induction false} GroupsKeep(current: string, rest: seq<string>, at: nat, cfg: ChunkingConfig,
                                      tabular: string -> bool, replies: nat -> Option<string>)
    requires cfg.Accepted() && Open(current) && AllInked(rest) && Under(rest, cfg.maxChunkSize)
    ensures InkOf(GroupsFrom(current, rest, at, cfg, tabular, replies)) == Ink(current) + InkOf(rest)
    ensures AllInked(GroupsFrom(current, rest, at, cfg, tabular, replies))
    decreases |rest|
  {
    ClosedInk(current);
    if rest != [] {
      var section, later := rest[0], rest[1..];
      assert rest == [section] + later && forall i :: 0 <= i < |later| ==> later[i] == rest[i + 1];
      InkOfCons(section, later);
      if |Potential(current, section)| <= cfg.chunkSize {
        PotentialOpen(current, section);
        PotentialInk(current, section);
        GroupsKeep(Potential(current, section), later, at + 1, cfg, tabular, replies);
        Reassociate(Ink(current), Ink(section), InkOf(later));
      } else {
        GroupsKeep(section, later, at + 1, cfg, tabular, replies);
        InkOfAppend(Closed(current), GroupsFrom(section, later, at + 1, cfg, tabular, replies));
      }
    }
  }

  lemma Reassociate(a: string, b: string, c: string)
    ensures a + (b + c) == a + b + c
  {
  }

  /** When no section is over-long the groups depend on the sections and sizes only. */
  lemma {:induction false} GroupsPlain(current: string, rest: seq<string>, at: nat, cfg: ChunkingConfig,
                                       tabular: string -> bool, replies: nat -> Option<string>,
                                       test: string -> bool, answers: nat -> Option<string>)
    requires cfg.Accepted() && Under(rest, cfg.maxChunkSize)
    ensures GroupsFrom(current, rest, at, cfg, tabular, replies)
         == GroupsFrom(current, rest, at, cfg, test, answers)
    decreases |rest|
  {
    if rest != [] {
      var section, later := rest[0], rest[1..];
      assert |section| <= cfg.maxChunkSize && forall i :: 0 <= i < |later| ==> later[i] == rest[i + 1];
      if |Potential(current, section)| <= cfg.chunkSize {
        GroupsPlain(Potential(current, section), later, at + 1, cfg, tabular, replies, test, answers);
      } else {
        GroupsPlain(section, later, at + 1, cfg, tabular, replies, test, answers);
      }
    }
  }

  /** The groups made so far, then what the loop makes of the sections from index at on. */
  ghost predicate Grouping(all: seq<string>, current: string, at: nat, sections: seq<string>, cfg: ChunkingConfig,
                           tabular: string -> bool, replies: nat -> Option<string>)
    requires cfg.Accepted() && at <= |sections|
  {
    all + GroupsFrom(current, sections[at..], at, cfg, tabular, replies) == Groups(sections, cfg, tabular, replies)
  }

  /** No over-long section sends the loop into a window split without end. */
  ghost predicate SectionsEnd(sections: seq<string>, cfg: ChunkingConfig, tabular: string -> bool,
                              replies: nat -> Option<string>)
    requires cfg.Accepted()
  {
    forall i :: 0 <= i < |sections| && |sections[i]| > cfg.maxChunkSize ==>
                  LongEnds(sections[i], cfg, tabular(sections[i]), replies(i))
  }

  /** The grouping loop and the filter: short groups are dropped. */
  method SemanticChunk(sections: seq<string>, cfg: ChunkingConfig, tabular: string -> bool,
                       replies: nat -> Option<string>)
    returns (chunks: seq<string>)
    requires cfg.Accepted() && SectionsEnd(sections, cfg, tabular, replies)
    ensures chunks == Kept(Groups(sections, cfg, tabular, replies), cfg.minChunkSize)
  {
    var all: seq<string> := [];
    var current := "";
    assert sections[0..] == sections;
    for i := 0 to |sections|
      invariant Grouping(all, current, i, sections, cfg, tabular, replies)
    {
      var section := sections[i];
      GroupStep(all, current, i, sections, cfg, tabular, replies);
      var potential := Potential(current, section);
      if |potential| <= cfg.chunkSize {
        current := potential;
      } else {
        if current != "" {
          all := all + [Strip(current)];
          current := "";
        }
        if |section| > cfg.maxChunkSize {
          var parts := SplitLongSection(section, cfg, tabular(section), replies(i));
          all := all + parts;
        } else {
          current := section;
        }
      }
    }
    GroupsDone(all, current, sections, cfg, tabular, replies);
    if current != "" { all := all + [Strip(current)]; }
    chunks := Kept(all, cfg.minChunkSize);
  }

  lemma GroupsDone(all: seq<string>, current: string, sections: seq<string>, cfg: ChunkingConfig,
                   tabular: string -> bool, replies: nat -> Option<string>)
    requires cfg.Accepted() && Grouping(all, current, |sections|, sections, cfg, tabular, replies)
    ensures (if current != "" then all + [Strip(current)] else all) == Groups(sections, cfg, tabular, replies)
  {
    assert sections[|sections|..] == [];
    assert all + [] == all;
  }

  /** One section more: it joins the open group, or closes it and is split, or opens a group. */
  lemma GroupStep(all: seq<string>, current: string, i: nat, sections: seq<string>, cfg: ChunkingConfig,
                  tabular: string -> bool, replies: nat -> Option<string>)
    requires cfg.Accepted() && i < |sections| && Grouping(all, current, i, sections, cfg, tabular, replies)
    ensures var section, closed := sections[i], if current != "" then all + [Strip(current)] else all;
      if |Potential(current, section)| <= cfg.chunkSize
      then Grouping(all, Potential(current, section), i + 1, sections, cfg, tabular, replies)
      else if |section| > cfg.maxChunkSize
      then Grouping(closed + LongParts(section, cfg, tabular(section), replies(i)), "", i + 1, sections, cfg,
                    tabular, replies)
      else Grouping(closed, section, i + 1, sections, cfg, tabular, replies)
  {
    var section, later := sections[i], sections[i + 1..];
    GroupsUnfold(current, i, sections, cfg, tabular, replies);
    if |Potential(current, section)| > cfg.chunkSize {
      ClosedAppended(all, current);
      if |section| > cfg.maxChunkSize {
        AppendThree(all, Closed(current), LongParts(section, cfg, tabular(section), replies(i)),
                    GroupsFrom("", later, i + 1, cfg, tabular, replies));
      } else {
        AppendThree(all, Closed(current), [], GroupsFrom(section, later, i + 1, cfg, tabular, replies));
      }
    }
  }

  lemma ClosedAppended(all: seq<string>, current: string)
    ensures (if current != "" then all + [Strip(current)] else all) == all + Closed(current)
  {
  }

  lemma GroupsUnfold(current: string, i: nat, sections: seq<string>, cfg: ChunkingConfig,
                     tabular: string -> bool, replies: nat -> Option<string>)
    requires cfg.Accepted() && i < |sections|
    ensures var section, later := sections[i], sections[i + 1..];
      GroupsFrom(current, sections[i..], i, cfg, tabular, replies)
      == if |Potential(current, section)| <= cfg.chunkSize
         then GroupsFrom(Potential(current, section), later, i + 1, cfg, tabular, replies)
         else if |section| > cfg.maxChunkSize
         then Closed(current) + LongParts(section, cfg, tabular(section), replies(i))
              + GroupsFrom("", later, i + 1, cfg, tabular, replies)
         else Closed(current) + GroupsFrom(section, later, i + 1, cfg, tabular, replies)
  {
    assert sections[i..][1..] == sections[i + 1..];
  }

  lemma AppendThree(a: seq<string>, b: seq<string>, c: seq<string>, d: seq<string>)
    ensures a + (b + c + d) == a + b + c + d == a + (b + c) + d && a + b + [] == a + b && b + [] == b
  {
  }

  /** For every reply of the language model, each chunk has at least minChunkSize characters between its white
      space and, for a positive chunk size, at most the ceiling in all. */
  lemma ChunksInBounds(sections: seq<string>, cfg: ChunkingConfig, tabular: string -> bool,
                       replies: nat -> Option<string>)
    requires cfg.Accepted()
    ensures var chunks := Kept(Groups(sections, cfg, tabular, replies), cfg.minChunkSize);
      && chunks == Filter(Groups(sections, cfg, tabular, replies), g => |Strip(g)| >= cfg.minChunkSize)
      && (forall i :: 0 <= i < |chunks| ==> |Strip(chunks[i])| >= cfg.minChunkSize)
      && (cfg.chunkSize >= 1 ==>
            forall i :: 0 <= i < |chunks| ==> |chunks[i]| <= cfg.maxChunkSize || |chunks[i]| <= cfg.chunkSize + 1)
      && (cfg.chunkSize >= 1 ==> Under(chunks, Ceiling(cfg)))
  {
    KeptLong(Groups(sections, cfg, tabular, replies), cfg.minChunkSize);
    KeptExactly(Groups(sections, cfg, tabular, replies), cfg.minChunkSize);
    if cfg.chunkSize >= 1 {
      GroupsUnder("", sections, 0, cfg, tabular, replies);
      KeptUnder(Groups(sections, cfg, tabular, replies), cfg.minChunkSize, Ceiling(cfg));
    }
  }

  /** When no section is over-long, semantic chunking loses nothing exactly when the sections do not group into
      a short group. */
  lemma LosslessExactly(sections: seq<string>, cfg: ChunkingConfig, tabular: string -> bool,
                        replies: nat -> Option<string>)
    requires cfg.Accepted() && AllInked(sections) && Under(sections, cfg.maxChunkSize)
    ensures InkOf(Kept(Groups(sections, cfg, tabular, replies), cfg.minChunkSize)) == InkOf(sections)
            <==> NoneShort(Groups(sections, cfg, tabular, replies), cfg.minChunkSize)
  {
    GroupsKeep("", sections, 0, cfg, tabular, replies);
    KeptLossless(Groups(sections, cfg, tabular, replies), cfg.minChunkSize);
  }

  lemma JoinOne(section: string)
    ensures JoinBlank([section]) == section
  {
  }

  lemma {:induction false} JoinFull(run: seq<string>)
    requires run != [] && AllInked(run)
    ensures JoinBlank(run) != ""
  {
    if |run| > 1 { assert run == [run[0]] + run[1..]; }
  }

  lemma ClosesRun(run: seq<string>, groups: seq<seq<string>>)
    requires JoinBlank(run) != ""
    ensures Stripped(JoinAll([run] + groups)) == Closed(JoinBlank(run)) + Stripped(JoinAll(groups))
  {
    assert ([run] + groups)[1..] == groups;
  }

  /** With a run of sections open, the loop groups as the greedy packing does. */
  lemma {:induction false} GroupsPack(run: seq<string>, rest: seq<string>, at: nat, cfg: ChunkingConfig,
                                      tabular: string -> bool, replies: nat -> Option<string>)
    requires cfg.Accepted() && AllInked(run) && AllInked(rest) && Under(rest, cfg.maxChunkSize)
    ensures GroupsFrom(JoinBlank(run), rest, at, cfg, tabular, replies)
         == Stripped(JoinAll(Pack(run, rest, cfg.chunkSize)))
    decreases |rest|
  {
    if run != [] { JoinFull(run); }
    if rest == [] {
      if run != [] { ClosesRun(run, []); }
    } else {
      var section, later := rest[0], rest[1..];
      assert |section| <= cfg.maxChunkSize && forall i :: 0 <= i < |later| ==> later[i] == rest[i + 1];
      JoinOne(section);
      if run == [] {
        GroupsPack([section], later, at + 1, cfg, tabular, replies);
      } else if |JoinBlank(run)| + 2 + |section| <= cfg.chunkSize {
        JoinLonger(run, section);
        GroupsPack(run + [section], later, at + 1, cfg, tabular, replies);
      } else {
        GroupsPack([section], later, at + 1, cfg, tabular, replies);
        ClosesRun(run, Pack([section], later, cfg.chunkSize));
      }
    }
  }

  /** When no section is over-long, the groups are runs of the sections joined by blank lines, each a section by
      itself or within the chunk size, and there are no fewer in any such grouping. */
  lemma GroupsOptimal(sections: seq<string>, cfg: ChunkingConfig, tabular: string -> bool,
                      replies: nat -> Option<string>, rival: seq<seq<string>>)
    returns (runs: seq<seq<string>>)
    requires cfg.Accepted() && AllInked(sections) && Under(sections, cfg.maxChunkSize)
    requires IsGrouping(sections, rival, cfg.chunkSize)
    ensures IsGrouping(sections, runs, cfg.chunkSize) && |runs| <= |rival|
    ensures Groups(sections, cfg, tabular, replies) == Stripped(JoinAll(runs))
  {
    runs := Pack([], sections, cfg.chunkSize);
    GroupsPack([], sections, 0, cfg, tabular, replies);
    PackingOptimal(sections, rival, cfg.chunkSize);
  }

  lemma LettersInk(n: nat)
    requires n > 0
    ensures !Blank(Letters(n)) && Tight(Letters(n))
  {
    assert !IsSpace('a') && Letters(n)[0] == 'a';
  }

  /** Under the defaults a greeting before a section that fills a chunk by itself is dropped. */
  lemma GreetingDropped(tabular: string -> bool, replies: nat -> Option<string>)
    ensures Groups(["Hi", Letters(1500)], DEFAULTS, tabular, replies) == ["Hi", Letters(1500)]
    ensures Kept(["Hi", Letters(1500)], DEFAULTS.minChunkSize) == [Letters(1500)]
  {
    var greeting, long := "Hi", Letters(1500);
    LettersInk(1500);
    StripTight(greeting);
    StripTight(long);
    var both, one := [greeting, long], [long];
    assert both[1..] == one && one[1..] == [];
    assert GroupsFrom(long, [], 2, DEFAULTS, tabular, replies) == [long];
    assert GroupsFrom(greeting, one, 1, DEFAULTS, tabular, replies) == [greeting] + [long];
    KeptSecond(greeting, long, 100);
  }

  lemma KeptSecond(short: string, long: string, min: int)
    requires Short(short, min) && !Short(long, min)
    ensures Kept([short, long], min) == [long]
  {
    assert [short, long][1..] == [long];
    assert Kept([long], min) == [long] + Kept([], min);
  }

  /** Whether the semantic pass is tried: not on tables, not on very large documents, not on ones that fit. */
  predicate Tries(content: string, cfg: ChunkingConfig, semantic: bool, tabular: string -> bool) {
    !tabular(content) && semantic && cfg.chunkSize < |content| < MAX_SIZE_FOR_SEMANTIC
  }

  /** What the semantic pass finds. */
  ghost function Found(content: string, cfg: ChunkingConfig, split: (nat, string) -> seq<nat>,
                       tabular: string -> bool, replies: nat -> Option<string>): seq<string>
    requires cfg.Accepted()
  {
    Kept(Groups(Structure(content, split, PATTERNS), cfg, tabular, replies), cfg.minChunkSize)
  }

  /** The texts of a document's chunks: those of the semantic pass, when it came back in time with any, and
      else the window splitter's. */
  ghost function ChunksOf(content: string, cfg: ChunkingConfig, semantic: bool, split: (nat, string) -> seq<nat>,
                          tabular: string -> bool, replies: nat -> Option<string>, timely: bool): seq<string>
    requires cfg.Accepted()
  {
    var found := Found(content, cfg, split, tabular, replies);
    if Strip(content) == "" then []
    else if Tries(content, cfg, semantic, tabular) && timely && found != [] then found
    else Windows(content, cfg)
  }

  /** No window split that chunking the document comes to is without end. */
  ghost predicate DocumentEnds(content: string, cfg: ChunkingConfig, semantic: bool, split: (nat, string) -> seq<nat>,
                               tabular: string -> bool, replies: nat -> Option<string>, timely: bool)
    requires cfg.Accepted()
  {
    var tried := Tries(content, cfg, semantic, tabular) && timely;
    Strip(content) != "" ==>
      && (tried ==> SectionsEnd(Structure(content, split, PATTERNS), cfg, tabular, replies))
      && ((tried && Found(content, cfg, split, tabular, replies) != []) || Halts(content, cfg))
  }

  /** On a configuration on which every window split ends this is every document. */
  lemma ProgressEnds(content: string, cfg: ChunkingConfig, semantic: bool, split: (nat, string) -> seq<nat>,
                     tabular: string -> bool, replies: nat -> Option<string>, timely: bool)
    requires cfg.Progresses()
    ensures DocumentEnds(content, cfg, semantic, split, tabular, replies, timely)
  {
    HaltsExactly(cfg);
  }

  method ChunkDocument(content: string, cfg: ChunkingConfig, semantic: bool, split: (nat, string) -> seq<nat>,
                       tabular: string -> bool, replies: nat -> Option<string>, timely: bool)
    returns (objects: seq<DocumentChunk>)
    requires cfg.Accepted() && DocumentEnds(content, cfg, semantic, split, tabular, replies, timely)
    ensures Records(content, ChunksOf(content, cfg, semantic, split, tabular, replies, timely), objects)
    ensures Blank(content) ==> objects == []
    ensures !Blank(content) && (tabular(content) || !semantic || |content| <= cfg.chunkSize || |content| >= 500000
                                || !timely || Found(content, cfg, split, tabular, replies) == []) ==>
              Records(content, Windows(content, cfg), objects)
    ensures !Blank(content) && !tabular(content) && semantic && cfg.chunkSize < |content| < 500000 && timely
            && Found(content, cfg, split, tabular, replies) != [] ==>
              Records(content, Found(content, cfg, split, tabular, replies), objects)
  {
    BlankStrip(content);
    if Strip(content) == "" { return []; }
    if Tries(content, cfg, semantic, tabular) && timely {
      var sections := SplitOnStructure(content, split);
      var found := SemanticChunk(sections, cfg, tabular, replies);
      if found != [] {
        objects := CreateChunkObjects(found, content);
        return;
      }
    }
    var simple := SimpleSplit(content, cfg);
    WindowsUnique(content, cfg, simple);
    objects := CreateChunkObjects(simple, content);
  }

  /** A document gets no chunk exactly when it is blank, and for a positive chunk size no chunk is over the
      ceiling, whatever the patterns, the model and the clock do. */
  lemma ChunksOfBounds(content: string, cfg: ChunkingConfig, semantic: bool, split: (nat, string) -> seq<nat>,
                       tabular: string -> bool, replies: nat -> Option<string>, timely: bool)
    requires cfg.Accepted() && DocumentEnds(content, cfg, semantic, split, tabular, replies, timely)
    ensures var chunks := ChunksOf(content, cfg, semantic, split, tabular, replies, timely);
      && (chunks == [] <==> Blank(content))
      && (cfg.chunkSize >= 1 ==>
            forall i :: 0 <= i < |chunks| ==> |chunks[i]| <= cfg.maxChunkSize || |chunks[i]| <= cfg.chunkSize + 1)
      && (cfg.chunkSize >= 1 ==> Under(chunks, Ceiling(cfg)))
  {
    BlankStrip(content);
    WindowsUnder(content, cfg);
    ChunksInBounds(Structure(content, split, PATTERNS), cfg, tabular, replies);
  }

  // ---- Which documents lose text.

  predicate IsTail(tail: string, chunk: string) {
    |tail| <= |chunk| && chunk[|chunk| - |tail|..] == tail
  }

  ghost predicate AreTails(tails: seq<string>, chunks: seq<string>) {
    |tails| == |chunks| && forall i :: 0 <= i < |tails| ==> IsTail(tails[i], chunks[i])
  }

  /** The chunks have all ink of the content in order, once what they repeat at their beginnings is dropped. */
  ghost predicate Lossless(chunks: seq<string>, content: string) {
    exists tails :: AreTails(tails, chunks) && InkOf(tails) == Ink(content)
  }

  lemma AreTailsCons(tail: string, tails: seq<string>, chunk: string, chunks: seq<string>)
    ensures AreTails([tail] + tails, [chunk] + chunks) <==> IsTail(tail, chunk) && AreTails(tails, chunks)
  {
    var a, b := [tail] + tails, [chunk] + chunks;
    assert a[0] == tail && b[0] == chunk;
    assert forall i :: 0 <= i < |tails| ==> tails[i] == a[i + 1];
    assert forall i :: 0 <= i < |chunks| ==> chunks[i] == b[i + 1];
  }

  lemma {:induction false} TailsShorter(tails: seq<string>, chunks: seq<string>)
    requires AreTails(tails, chunks)
    ensures |InkOf(tails)| <= |InkOf(chunks)|
  {
    if tails != [] {
      var t, c := tails[0], chunks[0];
      assert tails == [t] + tails[1..] && chunks == [c] + chunks[1..];
      AreTailsCons(t, tails[1..], c, chunks[1..]);
      TailsShorter(tails[1..], chunks[1..]);
      InkOfCons(t, tails[1..]);
      InkOfCons(c, chunks[1..]);
      InkAppend(c[..|c| - |t|], t);
      assert c == c[..|c| - |t|] + t;
    }
  }

  function After(chunk: string, overlap: nat): string {
    if overlap <= |chunk| then chunk[overlap..] else ""
  }

  /** Every chunk without its first overlap characters. */
  function Dropped(chunks: seq<string>, overlap: nat): seq<string> {
    if chunks == [] then [] else [After(chunks[0], overlap)] + Dropped(chunks[1..], overlap)
  }

  lemma {:induction false} DroppedTails(chunks: seq<string>, overlap: nat)
    ensures AreTails(Dropped(chunks, overlap), chunks)
  {
    if chunks != [] {
      DroppedTails(chunks[1..], overlap);
      AreTailsCons(After(chunks[0], overlap), Dropped(chunks[1..], overlap), chunks[0], chunks[1..]);
      assert chunks == [chunks[0]] + chunks[1..];
    }
  }

  lemma {:induction false} DroppedRebuild(chunks: seq<string>, overlap: nat)
    ensures Concat(Dropped(chunks, overlap)) == RebuildTail(chunks, overlap)
  {
    if chunks != [] {
      DroppedRebuild(chunks[1..], overlap);
      ConcatCons(After(chunks[0], overlap), Dropped(chunks[1..], overlap));
    }
  }

  lemma WindowsLossless(content: string, cfg: ChunkingConfig)
    requires cfg.Progresses() && cfg.chunkOverlap >= 0
    ensures Lossless(Windows(content, cfg), content)
  {
    HaltsExactly(cfg);
    var chunks := Windows(content, cfg);
    SplitRebuilds(content, cfg, chunks);
    RebuiltLossless(content, chunks, cfg.chunkOverlap);
  }

  lemma RebuiltLossless(content: string, chunks: seq<string>, overlap: nat)
    requires Rebuild(chunks, overlap) == content
    ensures Lossless(chunks, content)
  {
    var tails := chunks;
    if chunks != [] {
      var first, rest := chunks[0], chunks[1..];
      tails := [first] + Dropped(rest, overlap);
      DroppedTails(rest, overlap);
      DroppedRebuild(rest, overlap);
      AreTailsCons(first, Dropped(rest, overlap), first, rest);
      ConcatCons(first, Dropped(rest, overlap));
      assert chunks == [first] + rest;
    }
    assert AreTails(tails, chunks) && Concat(tails) == content;
  }

  lemma WholeLossless(chunks: seq<string>, content: string)
    ensures InkOf(chunks) == Ink(content) ==> Lossless(chunks, content)
    ensures |InkOf(chunks)| < |Ink(content)| ==> !Lossless(chunks, content)
  {
    assert AreTails(chunks, chunks);
    forall tails | AreTails(tails, chunks) ensures |InkOf(tails)| <= |InkOf(chunks)| { TailsShorter(tails, chunks); }
  }

  /** The kept groups lose text when some group is short, and there are none when all are. */
  lemma FoundLossless(content: string, cfg: ChunkingConfig, split: (nat, string) -> seq<nat>,
                      tabular: string -> bool, replies: nat -> Option<string>)
    requires cfg.Accepted() && Under(Structure(content, split, PATTERNS), cfg.maxChunkSize)
    ensures var groups := Groups(Structure(content, split, PATTERNS), cfg, tabular, replies);
      && (Found(content, cfg, split, tabular, replies) == [] <==> AllShort(groups, cfg.minChunkSize))
      && (Lossless(Found(content, cfg, split, tabular, replies), content) <==> NoneShort(groups, cfg.minChunkSize))
  {
    var sections := Structure(content, split, PATTERNS);
    var groups := Groups(sections, cfg, tabular, replies);
    StructureKeeps(content, split, PATTERNS);
    GroupsKeep("", sections, 0, cfg, tabular, replies);
    KeptLossless(groups, cfg.minChunkSize);
    KeptNone(groups, cfg.minChunkSize);
    WholeLossless(Kept(groups, cfg.minChunkSize), content);
  }

  /** A document loses text exactly when the semantic pass is tried and comes back in time, and some of its
      groups, but not all of them, are short: when all are, the window splitter takes over. */
  lemma DocumentLossless(content: string, cfg: ChunkingConfig, semantic: bool, split: (nat, string) -> seq<nat>,
                         tabular: string -> bool, replies: nat -> Option<string>, timely: bool)
    requires cfg.Progresses() && cfg.chunkOverlap >= 0
    requires Under(Structure(content, split, PATTERNS), cfg.maxChunkSize)
    ensures var groups := Groups(Structure(content, split, PATTERNS), cfg, tabular, replies);
      Lossless(ChunksOf(content, cfg, semantic, split, tabular, replies, timely), content)
      <==> tabular(content) || !semantic || |content| <= cfg.chunkSize || |content| >= 500000 || !timely
           || NoneShort(groups, cfg.minChunkSize) || AllShort(groups, cfg.minChunkSize)
  {
    var tried := !tabular(content) && semantic && cfg.chunkSize < |content| < 500000 && timely;
    ChunksCases(content, cfg, semantic, split, tabular, replies, timely);
    FoundLossless(content, cfg, split, tabular, replies);
    if Blank(content) {
      BlankGroups(content, cfg, split, tabular, replies);
      BlankLossless(content);
    } else if !(tried && Found(content, cfg, split, tabular, replies) != []) {
      WindowsLossless(content, cfg);
    }
  }

  lemma ChunksCases(content: string, cfg: ChunkingConfig, semantic: bool, split: (nat, string) -> seq<nat>,
                    tabular: string -> bool, replies: nat -> Option<string>, timely: bool)
    requires cfg.Accepted()
    ensures var tried := !tabular(content) && semantic && cfg.chunkSize < |content| < 500000 && timely;
      ChunksOf(content, cfg, semantic, split, tabular, replies, timely)
      == if Blank(content) then []
         else if tried && Found(content, cfg, split, tabular, replies) != []
         then Found(content, cfg, split, tabular, replies)
         else Windows(content, cfg)
  {
    BlankStrip(content);
  }

  lemma BlankLossless(content: string)
    requires Blank(content)
    ensures Lossless([], content)
  {
    InkBlankExactly(content);
    WholeLossless([], content);
  }

  lemma BlankGroups(content: string, cfg: ChunkingConfig, split: (nat, string) -> seq<nat>,
                    tabular: string -> bool, replies: nat -> Option<string>)
    requires cfg.Accepted() && Under(Structure(content, split, PATTERNS), cfg.maxChunkSize)
    ensures Blank(content) ==>
              NoneShort(Groups(Structure(content, split, PATTERNS), cfg, tabular, replies), cfg.minChunkSize)
  {
    var sections := Structure(content, split, PATTERNS);
    StructureKeeps(content, split, PATTERNS);
    GroupsKeep("", sections, 0, cfg, tabular, replies);
    if Blank(content) { InkBlankExactly(content); }
    KeptLossless(Groups(sections, cfg, tabular, replies), cfg.minChunkSize);
  }
}
