/** Ingesting whole buckets: the counters, and what a pass over the objects does document by document. */
module BucketIngest {
  import opened Text
  import opened Ingest
  import opened IngestRuns
  import opened IngestService

  /** A listed object; its content is missing when it could not be downloaded or nothing was parsed from it. */
  datatype Item = Item(key: string, content: Option<string>)
  {
    predicate Readable() {
      content.Some? && content.value != ""
    }
  }

  datatype Result = Result(source: string, status: Status)

  datatype Stats = Stats(inserted: nat, updated: nat, skipped: nat, failed: nat, results: seq<Result>)

  const NO_STATS := Stats(0, 0, 0, 0, [])

  function Count(results: seq<Result>, status: Status): nat {
    if results == [] then 0
    else Count(results[..|results| - 1], status) + if results[|results| - 1].status == status then 1 else 0
  }

  /** Each counter counts the results of its kind. */
  ghost predicate Tallied(s: Stats) {
    && s.inserted == Count(s.results, Inserted) && s.updated == Count(s.results, Updated)
    && s.skipped == Count(s.results, Skipped) && s.failed == Count(s.results, Failed)
  }

  /** The counters add up to the number of results. */
  lemma TalliedAdd(s: Stats)
    requires Tallied(s)
    ensures s.inserted + s.updated + s.skipped + s.failed == |s.results|
  {
    CountsAdd(s.results);
  }

  /** Nothing is counted twice or not at all. */
  lemma {:induction false} CountsAdd(results: seq<Result>)
    ensures Count(results, Inserted) + Count(results, Updated) + Count(results, Skipped) + Count(results, Failed)
         == |results|
  {
    if results != [] { CountsAdd(results[..|results| - 1]); }
  }

  lemma {:induction false} CountAppend(a: seq<Result>, b: seq<Result>, status: Status)
    ensures Count(a + b, status) == Count(a, status) + Count(b, status)
  {
    if b == [] {
      assert a + b == a;
    } else {
      assert (a + b)[..|a + b| - 1] == a + b[..|b| - 1];
      CountAppend(a, b[..|b| - 1], status);
    }
  }

  lemma TalliedAppend(a: Stats, b: Stats, both: Stats)
    requires Tallied(a) && Tallied(b)
    requires both == Stats(a.inserted + b.inserted, a.updated + b.updated, a.skipped + b.skipped, a.failed + b.failed,
                           a.results + b.results)
    ensures Tallied(both)
  {
    forall status { CountAppend(a.results, b.results, status); }
  }

  function Tally(s: Stats, result: Result): (t: Stats)
    ensures t.results == s.results + [result] && (Tallied(s) ==> Tallied(t))
  {
    assert (s.results + [result])[..|s.results|] == s.results;
    var t := s.(results := s.results + [result]);
    match result.status
    case Inserted => t.(inserted := s.inserted + 1)
    case Updated => t.(updated := s.updated + 1)
    case Skipped => t.(skipped := s.skipped + 1)
    case Failed => t.(failed := s.failed + 1)
  }

  /** The status an item gets without faults, by what its source already holds. */
  function StatusFor(expected: map<string, string>, item: Item): Status {
    if !item.Readable() then Failed
    else if item.key !in expected then Inserted
    else if expected[item.key] == item.content.value then Skipped
    else Updated
  }

  function Learn(expected: map<string, string>, item: Item): map<string, string> {
    if item.Readable() then expected[item.key := item.content.value] else expected
  }

  /** What each source holds after the items, and the result of each of them, without faults. */
  function Learned(expected: map<string, string>, items: seq<Item>): map<string, string> {
    if items == [] then expected else Learn(Learned(expected, items[..|items| - 1]), items[|items| - 1])
  }

  function Results(expected: map<string, string>, items: seq<Item>): (results: seq<Result>)
    ensures |results| == |items|
  {
    if items == [] then []
    else
      var init, last := items[..|items| - 1], items[|items| - 1];
      Results(expected, init) + [Result(last.key, StatusFor(Learned(expected, init), last))]
  }

  lemma StatusByPlan(env: Env, db: Db, expected: map<string, string>, item: Item, found: Option<nat>, status: Status)
    requires env.Injective() && Holds(env, db, expected) && item.Readable() && LooksUp(db, item.key, found)
    requires status != Failed
    requires var plan := Plan(env, db, item.key, item.content.value, found);
      && (status == Skipped ==> plan == []) && (status == Inserted ==> found.None?)
      && (status == Updated ==> found.Some? && plan != [])
    ensures status == StatusFor(expected, item)
  {
    if item.key in expected { assert HasSource(db.docs, item.key); }
  }

  /** No database call fails. */
  ghost predicate Smooth(fate: (nat, Step) -> Fate) {
    forall i, step :: fate(i, step) == Works
  }

  method IngestItem(db: Database, env: Env, item: Item, fate: Step -> Fate, ghost expected: map<string, string>)
    returns (result: Result)
    requires env.Injective() && Sound(env, db.State())
    modifies db
    ensures Sound(env, db.State()) && Answer(result, item)
    ensures Holds(env, old(db.State()), expected) && (forall step :: fate(step) == Works) ==> (
              result.status == StatusFor(expected, item) && Holds(env, db.State(), Learn(expected, item)))
  {
    if !item.Readable() { return Result(item.key, Failed); }
    ghost var before := db.State();
    var status, found, n := db.IngestDocument(env, item.key, item.content.value, fate);
    result := Result(item.key, status);
    if Holds(env, before, expected) && forall step :: fate(step) == Works {
      StatusByPlan(env, before, expected, item, found, status);
      IngestHolds(env, before, item.key, item.content.value, found, db.State(), expected);
    }
  }

  /** The result is the item's; without content it failed. */
  predicate Answer(result: Result, item: Item) {
    && result.source == item.key
    && (item.content == None || item.content == Some("") ==> result.status == Failed)
  }

  /** One result an item, in their order. */
  predicate Answers(results: seq<Result>, items: seq<Item>) {
    |results| == |items| && forall i :: 0 <= i < |items| ==> Answer(results[i], items[i])
  }

  /** Without faults only what has no content fails. */
  lemma {:induction false} FailedExactly(expected: map<string, string>, items: seq<Item>)
    ensures forall i :: 0 <= i < |items| ==>
              (Results(expected, items)[i].status == Failed <==>
               items[i].content == None || items[i].content == Some(""))
  {
    if items != [] { FailedExactly(expected, items[..|items| - 1]); }
  }

  lemma AnswersAppend(a: seq<Result>, b: seq<Result>, c: seq<Item>, d: seq<Item>)
    requires Answers(a, c) && Answers(b, d)
    ensures Answers(a + b, c + d)
  {
  }

  /** A pass over the items that ended in db with these statistics: smooth if no call failed. */
  ghost predicate Passed(env: Env, db: Db, stats: Stats, expected: map<string, string>, items: seq<Item>,
                         smooth: bool) {
    && Tallied(stats) && Sound(env, db) && Answers(stats.results, items)
    && (smooth ==> stats.results == Results(expected, items) && Holds(env, db, Learned(expected, items)))
  }

  lemma PassedNext(env: Env, before: Db, db: Db, stats: Stats, result: Result, expected: map<string, string>,
                   items: seq<Item>, item: Item, smooth: bool)
    requires Passed(env, before, stats, expected, items, smooth) && Sound(env, db) && Answer(result, item)
    requires smooth ==> result.status == StatusFor(Learned(expected, items), item)
                        && Holds(env, db, Learn(Learned(expected, items), item))
    ensures Passed(env, db, Tally(stats, result), expected, items + [item], smooth)
  {
    assert (items + [item])[..|items|] == items;
    AnswersAppend(stats.results, [result], items, [item]);
  }

  /** One bucket. A failed object is counted and the pass goes on. */
  method IngestFromS3(db: Database, env: Env, accessible: bool, items: seq<Item>, fate: (nat, Step) -> Fate,
                      ghost expected: map<string, string>)
    returns (stats: Stats)
    requires env.Injective() && Sound(env, db.State())
    modifies db
    ensures Tallied(stats) && Sound(env, db.State())
    ensures Answers(stats.results, if accessible then items else [])
    ensures accessible && Holds(env, old(db.State()), expected) && Smooth(fate) ==> (
              stats.results == Results(expected, items) && Holds(env, db.State(), Learned(expected, items)))
    ensures !accessible ==> db.State() == old(db.State())
  {
    stats := NO_STATS;
    if !accessible { return; }
    ghost var smooth := Holds(env, db.State(), expected) && Smooth(fate);
    assert items[..0] == [];
    for i := 0 to |items|
      invariant Passed(env, db.State(), stats, expected, items[..i], smooth)
    {
      ghost var before := db.State();
      var result := IngestItem(db, env, items[i], step => fate(i, step), Learned(expected, items[..i]));
      PassedNext(env, before, db.State(), stats, result, expected, items[..i], items[i], smooth);
      assert items[..i + 1] == items[..i] + [items[i]];
      stats := Tally(stats, result);
    }
    assert items[..|items|] == items;
  }

  /** Both buckets, their counters added and their results one after the other. */
  method IngestAllS3Buckets(db: Database, env: Env, accessible: bool, private_: seq<Item>, public_: seq<Item>,
                            fate: (nat, Step) -> Fate, ghost expected: map<string, string>)
    returns (stats: Stats)
    requires env.Injective() && Sound(env, db.State())
    modifies db
    ensures Tallied(stats) && Sound(env, db.State())
    ensures Answers(stats.results, if accessible then private_ + public_ else [])
    ensures accessible && Holds(env, old(db.State()), expected) && Smooth(fate) ==> (
              stats.results == Results(expected, private_ + public_)
              && Holds(env, db.State(), Learned(expected, private_ + public_)))
  {
    var a := IngestFromS3(db, env, accessible, private_, fate, expected);
    var b := IngestFromS3(db, env, accessible, public_, (i: nat, step) => fate(|private_| + i, step),
                          Learned(expected, private_));
    stats := Stats(a.inserted + b.inserted, a.updated + b.updated, a.skipped + b.skipped, a.failed + b.failed,
                   a.results + b.results);
    TalliedAppend(a, b, stats);
    PassesAppend(expected, private_, public_);
    if accessible { AnswersAppend(a.results, b.results, private_, public_); }
  }

  lemma {:induction false} PassesAppend(expected: map<string, string>, a: seq<Item>, b: seq<Item>)
    ensures Learned(expected, a + b) == Learned(Learned(expected, a), b)
    ensures Results(expected, a + b) == Results(expected, a) + Results(Learned(expected, a), b)
  {
    if b == [] {
      assert a + b == a;
    } else {
      assert (a + b)[..|a + b| - 1] == a + b[..|b| - 1];
      PassesAppend(expected, a, b[..|b| - 1]);
    }
  }

  predicate Agree(a: Item, b: Item) {
    a.Readable() && b.Readable() && a.key == b.key ==> a.content == b.content
  }

  /** No two readable items give one source different contents. */
  ghost predicate Consistent(items: seq<Item>) {
    forall i, j :: 0 <= i < |items| && 0 <= j < |items| ==> Agree(items[i], items[j])
  }

  /** Nothing new is found: every item is skipped, or could not be read. */
  ghost predicate Settled(expected: map<string, string>, items: seq<Item>) {
    forall i :: 0 <= i < |items| ==> Results(expected, items)[i].status in {Skipped, Failed}
  }

  /** Every readable item's content is what its source holds. */
  ghost predicate Known(expected: map<string, string>, items: seq<Item>) {
    forall i :: 0 <= i < |items| && items[i].Readable() ==>
                  items[i].key in expected && expected[items[i].key] == items[i].content.value
  }

  lemma SettledSnoc(expected: map<string, string>, init: seq<Item>, last: Item)
    ensures Settled(expected, init + [last]) <==>
            Settled(expected, init) && StatusFor(Learned(expected, init), last) in {Skipped, Failed}
  {
    var rs, all := Results(expected, init), Results(expected, init + [last]);
    assert (init + [last])[..|init|] == init;
    assert all == rs + [Result(last.key, StatusFor(Learned(expected, init), last))];
    assert all[|init|].status == StatusFor(Learned(expected, init), last);
    assert forall i :: 0 <= i < |init| ==> rs[i] == all[i];
  }

  lemma KnownSnoc(expected: map<string, string>, init: seq<Item>, last: Item)
    ensures Known(expected, init + [last]) <==> Known(expected, init) && Known(expected, [last])
  {
    var all := init + [last];
    assert all[|init|] == last && [last][0] == last && forall i :: 0 <= i < |init| ==> init[i] == all[i];
  }

  /** A pass over known items, and only such a pass, skips all it can read; it changes nothing. */
  lemma {:induction false} SettledKnown(expected: map<string, string>, items: seq<Item>)
    ensures Settled(expected, items) <==> Known(expected, items)
    ensures Known(expected, items) ==> Learned(expected, items) == expected
  {
    if items != [] {
      var init, last := items[..|items| - 1], items[|items| - 1];
      SettledKnown(expected, init);
      assert items == init + [last];
      SettledSnoc(expected, init, last);
      KnownSnoc(expected, init, last);
      assert [last][0] == last;
    }
  }

  /** After a pass over consistent items each of them is known. */
  lemma {:induction false} LearnedKnown(expected: map<string, string>, items: seq<Item>, n: nat)
    requires Consistent(items) && n <= |items|
    ensures Known(Learned(expected, items[..n]), items[..n])
  {
    if n > 0 {
      LearnedKnown(expected, items, n - 1);
      var before := Learned(expected, items[..n - 1]);
      assert items[..n][..n - 1] == items[..n - 1];
      forall i | 0 <= i < n && items[i].Readable()
        ensures var e := Learn(before, items[n - 1]); items[i].key in e && e[items[i].key] == items[i].content.value
      {
        if i < n - 1 { assert items[..n - 1][i] == items[i]; }
      }
    }
  }

  /** A second pass over the same objects finds nothing new exactly when no key comes with two contents, as one
      that is in both buckets may. */
  lemma SecondPassSettled(expected: map<string, string>, items: seq<Item>)
    ensures Settled(Learned(expected, items), items) <==> Consistent(items)
  {
    SettledKnown(Learned(expected, items), items);
    if Consistent(items) {
      LearnedKnown(expected, items, |items|);
      assert items[..|items|] == items;
    }
  }
}
