/** Reciprocal rank fusion of the vector leg and the keyword leg. */
module Fusion {
  import opened Text

  /** A retrieved row: the chunk it names and the similarity its leg reports (0.0 when it reports none). */
  datatype Hit = Hit(chunkId: string, similarity: real)

  /** A fused row: the hit it was built from, and the fields fusion adds. */
  datatype Row = Row(base: Hit, cosine: real, vectorRank: Option<nat>, bm25Rank: Option<nat>, score: real)

  ghost predicate Distinct<T>(s: seq<T>) {
    forall i, j :: 0 <= i < j < |s| ==> s[i] != s[j]
  }

  /** The leg lists id. */
  predicate Has(leg: seq<Hit>, id: string) {
    exists i :: 0 <= i < |leg| && leg[i].chunkId == id
  }

  predicate Listed(vector: seq<Hit>, bm25: seq<Hit>, id: string) {
    Has(vector, id) || Has(bm25, id)
  }

  /** What a hit at this rank (from 0) adds to its chunk's score. */
  function Gain(rank: nat, k: nat): real
    requires k >= 1
  {
    1.0 / (rank + k) as real
  }

  /** The sum of the gains of all positions at which the leg lists id. */
  function LegScore(leg: seq<Hit>, id: string, k: nat): real
    requires k >= 1
  {
    if leg == [] then 0.0
    else
      var last := |leg| - 1;
      LegScore(leg[..last], id, k) + if leg[last].chunkId == id then Gain(last, k) else 0.0
  }

  function Score(vector: seq<Hit>, bm25: seq<Hit>, id: string, k: nat): real
    requires k >= 1
  {
    LegScore(vector, id, k) + LegScore(bm25, id, k)
  }

  /** The first position at which hits names id, or |hits|. */
  function FirstPos(hits: seq<Hit>, id: string): (p: nat)
    ensures p <= |hits|
  {
    if hits == [] then 0
    else
      var last := |hits| - 1;
      var p := FirstPos(hits[..last], id);
      if p < last then p else if hits[last].chunkId == id then last else |hits|
  }

  /** The last position at which the leg names id. */
  function LastRank(leg: seq<Hit>, id: string): (r: Option<nat>)
    ensures r.Some? ==> r.value < |leg|
  {
    if leg == [] then None
    else
      var last := |leg| - 1;
      if leg[last].chunkId == id then Some(last) else LastRank(leg[..last], id)
  }

  lemma {:induction false} FirstPosFinds(hits: seq<Hit>, id: string)
    ensures var p := FirstPos(hits, id);
      && (p < |hits| <==> Has(hits, id)) && (p < |hits| ==> hits[p].chunkId == id)
      && forall i :: 0 <= i < p ==> hits[i].chunkId != id
  {
    if hits != [] {
      var init := hits[..|hits| - 1];
      FirstPosFinds(init, id);
      assert forall i :: 0 <= i < |init| ==> init[i] == hits[i];
    }
  }

  lemma {:induction false} LastRankFinds(leg: seq<Hit>, id: string)
    ensures var r := LastRank(leg, id);
      && (r.Some? <==> Has(leg, id)) && (r.Some? ==> leg[r.value].chunkId == id)
      && (r.Some? ==> forall i :: r.value < i < |leg| ==> leg[i].chunkId != id)
  {
    if leg != [] {
      var init := leg[..|leg| - 1];
      LastRankFinds(init, id);
      assert forall i :: 0 <= i < |init| ==> init[i] == leg[i];
    }
  }

  /** x goes before y: a higher score, or the same score and an earlier first appearance, vector leg first. */
  predicate Outranks(vector: seq<Hit>, bm25: seq<Hit>, k: nat, x: string, y: string)
    requires k >= 1
  {
    || Score(vector, bm25, x, k) > Score(vector, bm25, y, k)
    || (Score(vector, bm25, x, k) == Score(vector, bm25, y, k)
        && FirstPos(vector + bm25, x) < FirstPos(vector + bm25, y))
  }

  /** All ids of both legs, once each, in order of Outranks. */
  ghost predicate IsRanking(vector: seq<Hit>, bm25: seq<Hit>, k: nat, ranking: seq<string>)
    requires k >= 1
  {
    && Distinct(ranking)
    && (forall id :: id in ranking <==> Listed(vector, bm25, id))
    && (forall i, j :: 0 <= i < j < |ranking| ==> Outranks(vector, bm25, k, ranking[i], ranking[j]))
  }

  /** The row that stands for id: its last vector hit with that hit's similarity as the cosine, or else its
      first keyword hit with cosine 0. */
  ghost predicate IsRow(vector: seq<Hit>, bm25: seq<Hit>, id: string, row: Row) {
    var v, b := LastRank(vector, id), LastRank(bm25, id);
    && Listed(vector, bm25, id)
    && row.bm25Rank == (if b.Some? then Some(b.value + 1) else None)
    && (v.Some? ==> row.vectorRank == Some(v.value + 1) && row.base == vector[v.value]
                    && row.cosine == row.base.similarity)
    && (v.None? ==> row.vectorRank == None && row.cosine == 0.0
                    && FirstPos(bm25, id) < |bm25| && row.base == bm25[FirstPos(bm25, id)])
  }

  /** How many of n entries the slice [:limit] keeps; a negative limit drops from the end. */
  function Kept(limit: int, n: nat): (m: nat)
    ensures m <= n
  {
    if limit >= 0 then (if limit < n then limit else n)
    else if n + limit > 0 then n + limit else 0
  }

  /** The fused rows: the rows of the best ids of the ranking, with their scores. */
  ghost predicate IsFusion(vector: seq<Hit>, bm25: seq<Hit>, limit: int, k: nat, ranking: seq<string>, rows: seq<Row>)
    requires k >= 1
  {
    && IsRanking(vector, bm25, k, ranking)
    && |rows| == Kept(limit, |ranking|)
    && forall i :: 0 <= i < |rows| ==> IsScoredRow(vector, bm25, k, ranking[i], rows[i])
  }

  ghost predicate IsScoredRow(vector: seq<Hit>, bm25: seq<Hit>, k: nat, id: string, row: Row)
    requires k >= 1
  {
    IsRow(vector, bm25, id, row) && row.score == Score(vector, bm25, id, k)
  }

  /** The dictionaries of the two loops: scores, rows, and the order in which keys first came in, which is
      the order in which a Python dict lists them. */
  datatype Dicts = Dicts(scores: map<string, real>, rows: map<string, Row>, keys: seq<string>)

  /** One hit: its gain is added to the score of cid, and row becomes its row. */
  function Enter(d: Dicts, cid: string, gain: real, row: Row): Dicts {
    Dicts(d.scores[cid := (if cid in d.scores then d.scores[cid] else 0.0) + gain],
          d.rows[cid := row],
          if cid in d.scores then d.keys else d.keys + [cid])
  }

  function EnterVector(d: Dicts, hit: Hit, rank: nat, k: nat): Dicts
    requires k >= 1
  {
    Enter(d, hit.chunkId, Gain(rank, k), Row(hit, hit.similarity, Some(rank + 1), None, 0.0))
  }

  function EnterBm25(d: Dicts, hit: Hit, rank: nat, k: nat): Dicts
    requires k >= 1
  {
    var row := if hit.chunkId in d.rows then d.rows[hit.chunkId] else Row(hit, 0.0, None, None, 0.0);
    Enter(d, hit.chunkId, Gain(rank, k), row.(bm25Rank := Some(rank + 1)))
  }

  /** The dictionaries after the vector leg, and after both. */
  function VectorDicts(leg: seq<Hit>, k: nat): Dicts
    requires k >= 1
  {
    if leg == [] then Dicts(map[], map[], [])
    else EnterVector(VectorDicts(leg[..|leg| - 1], k), leg[|leg| - 1], |leg| - 1, k)
  }

  function BothDicts(vector: seq<Hit>, bm25: seq<Hit>, k: nat): Dicts
    requires k >= 1
  {
    if bm25 == [] then VectorDicts(vector, k)
    else EnterBm25(BothDicts(vector, bm25[..|bm25| - 1], k), bm25[|bm25| - 1], |bm25| - 1, k)
  }

  /** rows are the fused rows of the legs' ranking. */
  ghost predicate IsFused(vector: seq<Hit>, bm25: seq<Hit>, limit: int, k: nat, rows: seq<Row>)
    requires k >= 1
  {
    exists ranking :: IsFusion(vector, bm25, limit, k, ranking, rows)
  }

  /** The two accumulating loops, then the sort and the slice. */
  method Fuse(vector: seq<Hit>, bm25: seq<Hit>, limit: int, k: nat) returns (output: seq<Row>)
    requires k >= 1
    ensures IsFused(vector, bm25, limit, k, output)
  {
    var d := Dicts(map[], map[], []);
    for rank := 0 to |vector|
      invariant d == VectorDicts(vector[..rank], k)
    {
      assert vector[..rank + 1][..rank] == vector[..rank];
      d := EnterVector(d, vector[rank], rank, k);
    }
    assert vector[..|vector|] == vector;
    for rank := 0 to |bm25|
      invariant d == BothDicts(vector, bm25[..rank], k)
    {
      assert bm25[..rank + 1][..rank] == bm25[..rank];
      d := EnterBm25(d, bm25[rank], rank, k);
    }
    assert bm25[..|bm25|] == bm25;
    output := TopRows(vector, bm25, limit, k, d);
  }

  /** The rows of the given ids, their scores put in. */
  function FinalRows(d: Dicts, ids: seq<string>): (rows: seq<Row>)
    requires AllScored(ids, d.scores) && AllRowed(ids, d.rows)
  {
    seq(|ids|, i requires 0 <= i < |ids| => assert ids[i] in ids; FinalRow(d, ids[i]))
  }

  /** The sort by score, the slice, and the rows of the ids it keeps. */
  method TopRows(ghost vector: seq<Hit>, ghost bm25: seq<Hit>, limit: int, ghost k: nat, d: Dicts)
    returns (output: seq<Row>)
    requires k >= 1 && d == BothDicts(vector, bm25, k)
    ensures IsFused(vector, bm25, limit, k, output)
  {
    SortRanks(vector, bm25, k);
    var sorted := SortDescending(d.keys, d.scores);
    SortRowed(vector, bm25, k);
    output := [];
    for i := 0 to Kept(limit, |sorted|)
      invariant |output| == i
      invariant forall j :: 0 <= j < i ==> output[j] == FinalRows(d, sorted)[j]
    {
      assert sorted[i] in sorted;
      output := output + [FinalRow(d, sorted[i])];
    }
    assert output == FinalRows(d, sorted)[..Kept(limit, |sorted|)];
    SortFuses(vector, bm25, limit, k);
  }

  lemma HasStep(leg: seq<Hit>, hit: Hit, id: string)
    ensures Has(leg + [hit], id) <==> Has(leg, id) || hit.chunkId == id
  {
    var longer := leg + [hit];
    if Has(leg, id) {
      var i :| 0 <= i < |leg| && leg[i].chunkId == id;
      assert longer[i] == leg[i];
    }
    assert longer[|leg|] == hit;
  }

  lemma LegStep(leg: seq<Hit>, hit: Hit, id: string, k: nat)
    requires k >= 1
    ensures LegScore(leg + [hit], id, k) == LegScore(leg, id, k) + if hit.chunkId == id then Gain(|leg|, k) else 0.0
    ensures LastRank(leg + [hit], id) == if hit.chunkId == id then Some(|leg|) else LastRank(leg, id)
  {
    assert (leg + [hit])[..|leg|] == leg;
  }

  lemma FirstStep(leg: seq<Hit>, hit: Hit, id: string)
    ensures Has(leg, id) ==> FirstPos(leg + [hit], id) == FirstPos(leg, id) < |leg|
    ensures !Has(leg, id) && hit.chunkId == id ==> FirstPos(leg + [hit], id) == |leg|
  {
    assert (leg + [hit])[..|leg|] == leg;
    FirstPosFinds(leg, id);
  }

  /** What the dictionaries hold for one id after the vector leg. */
  lemma {:induction false} VectorAt(leg: seq<Hit>, k: nat, id: string)
    requires k >= 1
    ensures var d := VectorDicts(leg, k);
      && (id in d.scores <==> Has(leg, id)) && (id in d.rows <==> Has(leg, id))
      && (if Has(leg, id) then d.scores[id] == LegScore(leg, id, k) && IsRow(leg, [], id, d.rows[id])
          else LegScore(leg, id, k) == 0.0)
  {
    if leg != [] {
      var init, hit := leg[..|leg| - 1], leg[|leg| - 1];
      assert leg == init + [hit];
      VectorAt(init, k, id);
      HasStep(init, hit, id);
      LegStep(init, hit, id, k);
    }
  }

  /** What they hold for one id after both legs. */
  lemma {:induction false} BothScores(vector: seq<Hit>, bm25: seq<Hit>, k: nat, id: string)
    requires k >= 1
    ensures var d := BothDicts(vector, bm25, k);
      && (id in d.scores <==> Listed(vector, bm25, id))
      && Score(vector, bm25, id, k) == if id in d.scores then d.scores[id] else 0.0
  {
    if bm25 == [] {
      VectorAt(vector, k, id);
    } else {
      var init, hit := bm25[..|bm25| - 1], bm25[|bm25| - 1];
      assert bm25 == init + [hit];
      BothScores(vector, init, k, id);
      HasStep(init, hit, id);
      LegStep(init, hit, id, k);
    }
  }

  lemma {:induction false} BothRows(vector: seq<Hit>, bm25: seq<Hit>, k: nat, id: string)
    requires k >= 1
    ensures var d := BothDicts(vector, bm25, k);
      (id in d.rows <==> Listed(vector, bm25, id)) && (id in d.rows ==> IsRow(vector, bm25, id, d.rows[id]))
  {
    if bm25 == [] {
      VectorAt(vector, k, id);
    } else {
      var init, hit := bm25[..|bm25| - 1], bm25[|bm25| - 1];
      assert bm25 == init + [hit];
      BothRows(vector, init, k, id);
      HasStep(init, hit, id);
      LegStep(init, hit, id, k);
      FirstStep(init, hit, id);
      LastRankFinds(vector, id);
    }
  }

  /** The row of id with its score put in. */
  function FinalRow(d: Dicts, id: string): Row
    requires id in d.rows && id in d.scores
  {
    d.rows[id].(score := d.scores[id])
  }

  lemma RowScored(vector: seq<Hit>, bm25: seq<Hit>, k: nat, id: string)
    requires k >= 1 && Listed(vector, bm25, id)
    ensures var d := BothDicts(vector, bm25, k);
      id in d.rows && id in d.scores && IsScoredRow(vector, bm25, k, id, FinalRow(d, id))
  {
    BothScores(vector, bm25, k, id);
    BothRows(vector, bm25, k, id);
  }

  predicate AllRowed(s: seq<string>, rows: map<string, Row>) {
    forall y :: y in s ==> y in rows
  }

  ghost predicate InFirstOrder(hits: seq<Hit>, d: Dicts) {
    && (forall id :: id in d.scores <==> id in d.keys)
    && (forall id :: id in d.scores <==> Has(hits, id))
    && Arriving(hits, d.keys)
  }

  /** Each key came in later than those before it. */
  ghost predicate Arriving(hits: seq<Hit>, keys: seq<string>) {
    forall i, j :: 0 <= i < j < |keys| ==> FirstPos(hits, keys[i]) < FirstPos(hits, keys[j])
  }

  lemma {:induction false} VectorKeys(leg: seq<Hit>, k: nat)
    requires k >= 1
    ensures InFirstOrder(leg, VectorDicts(leg, k))
  {
    if leg != [] {
      var init, hit := leg[..|leg| - 1], leg[|leg| - 1];
      assert leg == init + [hit];
      VectorKeys(init, k);
      OrderStep(init, hit, VectorDicts(init, k), VectorDicts(leg, k));
    }
  }

  lemma {:induction false} BothKeys(vector: seq<Hit>, bm25: seq<Hit>, k: nat)
    requires k >= 1
    ensures InFirstOrder(vector + bm25, BothDicts(vector, bm25, k))
  {
    if bm25 == [] {
      VectorKeys(vector, k);
      assert vector + bm25 == vector;
    } else {
      var init, hit := bm25[..|bm25| - 1], bm25[|bm25| - 1];
      assert vector + bm25 == vector + init + [hit];
      BothKeys(vector, init, k);
      OrderStep(vector + init, hit, BothDicts(vector, init, k), BothDicts(vector, bm25, k));
    }
  }

  /** A key is appended when, and only when, its id comes in for the first time. */
  lemma OrderStep(hits: seq<Hit>, hit: Hit, d: Dicts, d': Dicts)
    requires InFirstOrder(hits, d)
    requires d'.scores.Keys == d.scores.Keys + {hit.chunkId}
    requires d'.keys == if hit.chunkId in d.scores then d.keys else d.keys + [hit.chunkId]
    ensures InFirstOrder(hits + [hit], d')
  {
    forall id ensures id in d'.scores <==> Has(hits + [hit], id) { HasStep(hits, hit, id); }
    forall i, j | 0 <= i < j < |d'.keys|
      ensures FirstPos(hits + [hit], d'.keys[i]) < FirstPos(hits + [hit], d'.keys[j])
    {
      assert d'.keys[i] == d.keys[i] && d.keys[i] in d.scores;
      assert j < |d.keys| ==> d'.keys[j] == d.keys[j] && d.keys[j] in d.scores;
      FirstStep(hits, hit, d'.keys[i]);
      FirstStep(hits, hit, d'.keys[j]);
    }
  }

  predicate AllScored(s: seq<string>, scores: map<string, real>) {
    forall y :: y in s ==> y in scores
  }

  /** sorted(keys, key=score, reverse=True): Python's sort is stable, in reverse too. */
  function SortDescending(keys: seq<string>, scores: map<string, real>): (sorted: seq<string>)
    requires AllScored(keys, scores)
    ensures AllScored(sorted, scores)
  {
    if keys == [] then []
    else Insert(SortDescending(keys[..|keys| - 1], scores), keys[|keys| - 1], scores)
  }

  /** x goes after every entry that scores at least as high. */
  function Insert(sorted: seq<string>, x: string, scores: map<string, real>): (longer: seq<string>)
    requires x in scores && AllScored(sorted, scores)
    ensures AllScored(longer, scores)
  {
    var last := |sorted| - 1;
    if sorted == [] then [x]
    else if scores[sorted[last]] >= scores[x] then sorted + [x]
    else Insert(sorted[..last], x, scores) + [sorted[last]]
  }

  lemma {:induction false} InsertMembers(sorted: seq<string>, x: string, scores: map<string, real>, y: string)
    requires x in scores && AllScored(sorted, scores)
    ensures y in Insert(sorted, x, scores) <==> y in sorted || y == x
  {
    if sorted != [] {
      var init, last := sorted[..|sorted| - 1], sorted[|sorted| - 1];
      InsertMembers(init, x, scores, y);
      assert sorted == init + [last];
    }
  }

  lemma {:induction false} SortMembers(keys: seq<string>, scores: map<string, real>, y: string)
    requires AllScored(keys, scores)
    ensures y in SortDescending(keys, scores) <==> y in keys
  {
    if keys != [] {
      var init, last := keys[..|keys| - 1], keys[|keys| - 1];
      SortMembers(init, scores, y);
      InsertMembers(SortDescending(init, scores), last, scores, y);
      assert keys == init + [last];
    }
  }

  /** x may stand before y: it scores higher, or the same and came in earlier. */
  ghost predicate Before(hits: seq<Hit>, scores: map<string, real>, x: string, y: string) {
    x in scores && y in scores &&
    (scores[x] > scores[y] || (scores[x] == scores[y] && FirstPos(hits, x) < FirstPos(hits, y)))
  }

  ghost predicate Ordered(hits: seq<Hit>, scores: map<string, real>, s: seq<string>) {
    forall i, j :: 0 <= i < j < |s| ==> Before(hits, scores, s[i], s[j])
  }

  /** Every entry of s may stand before x. */
  ghost predicate AllBefore(hits: seq<Hit>, scores: map<string, real>, s: seq<string>, x: string) {
    forall y :: y in s ==> Before(hits, scores, y, x)
  }

  /** Every entry of s came in earlier than x. */
  ghost predicate AllEarlier(hits: seq<Hit>, s: seq<string>, x: string) {
    forall y :: y in s ==> FirstPos(hits, y) < FirstPos(hits, x)
  }

  lemma OrderedSnoc(hits: seq<Hit>, scores: map<string, real>, s: seq<string>, x: string)
    ensures Ordered(hits, scores, s + [x]) <==> Ordered(hits, scores, s) && AllBefore(hits, scores, s, x)
  {
    var longer := s + [x];
    assert longer[|s|] == x && forall i :: 0 <= i < |s| ==> longer[i] == s[i];
    if Ordered(hits, scores, longer) {
      forall y | y in s ensures Before(hits, scores, y, x) {
        var i :| 0 <= i < |s| && s[i] == y;
        assert Before(hits, scores, longer[i], longer[|s|]);
      }
      forall i, j | 0 <= i < j < |s| ensures Before(hits, scores, s[i], s[j]) {
        assert Before(hits, scores, longer[i], longer[j]);
      }
    }
  }

  lemma ArrivingSnoc(hits: seq<Hit>, keys: seq<string>, x: string)
    requires Arriving(hits, keys + [x])
    ensures Arriving(hits, keys) && AllEarlier(hits, keys, x)
  {
    var longer := keys + [x];
    forall y | y in keys ensures FirstPos(hits, y) < FirstPos(hits, x) {
      var i :| 0 <= i < |keys| && keys[i] == y;
      assert longer[i] == y && longer[|keys|] == x;
    }
    forall i, j | 0 <= i < j < |keys| ensures FirstPos(hits, keys[i]) < FirstPos(hits, keys[j]) {
      assert longer[i] == keys[i] && longer[j] == keys[j];
    }
  }

  lemma {:induction false} InsertOrdered(hits: seq<Hit>, scores: map<string, real>, sorted: seq<string>, x: string)
    requires x in scores && AllScored(sorted, scores)
    requires Ordered(hits, scores, sorted) && AllEarlier(hits, sorted, x)
    ensures Ordered(hits, scores, Insert(sorted, x, scores))
  {
    if sorted == [] {
    } else {
      var init, last := sorted[..|sorted| - 1], sorted[|sorted| - 1];
      assert sorted == init + [last];
      OrderedSnoc(hits, scores, init, last);
      if scores[last] < scores[x] {
        InsertOrdered(hits, scores, init, x);
        forall y | y in Insert(init, x, scores) ensures Before(hits, scores, y, last) {
          InsertMembers(init, x, scores, y);
        }
        OrderedSnoc(hits, scores, Insert(init, x, scores), last);
      } else {
        forall y | y in sorted ensures Before(hits, scores, y, x) {
          assert y == last || Before(hits, scores, y, last);
        }
        OrderedSnoc(hits, scores, sorted, x);
      }
    }
  }

  lemma {:induction false} SortOrdered(hits: seq<Hit>, scores: map<string, real>, keys: seq<string>)
    requires AllScored(keys, scores) && Arriving(hits, keys)
    ensures Ordered(hits, scores, SortDescending(keys, scores))
  {
    if keys != [] {
      var init, x := keys[..|keys| - 1], keys[|keys| - 1];
      assert keys == init + [x];
      ArrivingSnoc(hits, init, x);
      SortOrdered(hits, scores, init);
      var sorted := SortDescending(init, scores);
      forall y | y in sorted ensures FirstPos(hits, y) < FirstPos(hits, x) { SortMembers(init, scores, y); }
      InsertOrdered(hits, scores, sorted, x);
    }
  }

  /** Sorting the keys by score ranks the ids. */
  lemma SortRanks(vector: seq<Hit>, bm25: seq<Hit>, k: nat)
    requires k >= 1
    ensures var d := BothDicts(vector, bm25, k);
      AllScored(d.keys, d.scores) && IsRanking(vector, bm25, k, SortDescending(d.keys, d.scores))
  {
    var d := BothDicts(vector, bm25, k);
    BothKeys(vector, bm25, k);
    var sorted := SortDescending(d.keys, d.scores);
    SortOrdered(vector + bm25, d.scores, d.keys);
    forall id ensures id in sorted <==> Listed(vector, bm25, id) {
      SortMembers(d.keys, d.scores, id);
      BothScores(vector, bm25, k, id);
    }
    forall i, j | 0 <= i < j < |sorted|
      ensures sorted[i] != sorted[j] && Outranks(vector, bm25, k, sorted[i], sorted[j])
    {
      assert Before(vector + bm25, d.scores, sorted[i], sorted[j]);
      BothScores(vector, bm25, k, sorted[i]);
      BothScores(vector, bm25, k, sorted[j]);
    }
  }

  /** Every sorted id has a row. */
  lemma SortRowed(vector: seq<Hit>, bm25: seq<Hit>, k: nat)
    requires k >= 1
    ensures var d := BothDicts(vector, bm25, k);
      AllScored(d.keys, d.scores) && AllRowed(SortDescending(d.keys, d.scores), d.rows)
  {
    var d := BothDicts(vector, bm25, k);
    SortRanks(vector, bm25, k);
    forall id | id in SortDescending(d.keys, d.scores) ensures id in d.rows { RowScored(vector, bm25, k, id); }
  }

  /** The ids sorted by score, and the rows of those kept, are a fusion. */
  lemma SortFuses(vector: seq<Hit>, bm25: seq<Hit>, limit: int, k: nat)
    requires k >= 1
    ensures var d := BothDicts(vector, bm25, k);
      && AllScored(d.keys, d.scores) && AllRowed(SortDescending(d.keys, d.scores), d.rows)
      && var sorted := SortDescending(d.keys, d.scores);
         IsFusion(vector, bm25, limit, k, sorted, FinalRows(d, sorted)[..Kept(limit, |sorted|)])
  {
    SortRanks(vector, bm25, k);
    SortRowed(vector, bm25, k);
    var d := BothDicts(vector, bm25, k);
    var sorted := SortDescending(d.keys, d.scores);
    forall i | 0 <= i < |sorted| ensures IsScoredRow(vector, bm25, k, sorted[i], FinalRows(d, sorted)[i]) {
      assert sorted[i] in sorted;
      RowScored(vector, bm25, k, sorted[i]);
    }
  }

  /** The fusion of two legs is the only one. */
  lemma FusedUnique(vector: seq<Hit>, bm25: seq<Hit>, limit: int, k: nat, a: seq<Row>, b: seq<Row>,
                    ranking: seq<string>)
    requires k >= 1 && IsFusion(vector, bm25, limit, k, ranking, a) && IsFusion(vector, bm25, limit, k, ranking, b)
    ensures a == b
  {
    forall i | 0 <= i < |a| ensures a[i] == b[i] {
      assert IsScoredRow(vector, bm25, k, ranking[i], a[i]) && IsScoredRow(vector, bm25, k, ranking[i], b[i]);
    }
  }
}
