/** What reciprocal rank fusion promises about its ranking. */
module Ranking {
  import opened Fusion

  /** No two rankings of the same legs differ, so IsFusion determines its rows' order. */
  lemma RankingUnique(vector: seq<Hit>, bm25: seq<Hit>, k: nat, a: seq<string>, b: seq<string>)
    requires k >= 1 && IsRanking(vector, bm25, k, a) && IsRanking(vector, bm25, k, b)
    ensures a == b
  {
    SetSize(a);
    SetSize(b);
    assert (set x | x in a) == (set x | x in b);
    RankingPrefix(vector, bm25, k, a, b, |a|);
  }

  lemma {:induction false} RankingPrefix(
    vector: seq<Hit>, bm25: seq<Hit>, k: nat, a: seq<string>, b: seq<string>, n: nat)
    requires k >= 1 && IsRanking(vector, bm25, k, a) && IsRanking(vector, bm25, k, b) && n <= |a| == |b|
    ensures forall i :: 0 <= i < n ==> a[i] == b[i]
  {
    if n > 0 {
      RankingPrefix(vector, bm25, k, a, b, n - 1);
      assert a[n - 1] in b && b[n - 1] in a;
      var j :| 0 <= j < |b| && b[j] == a[n - 1];
      var l :| 0 <= l < |a| && a[l] == b[n - 1];
      NextSame(vector, bm25, k, a, b, n - 1, j, l);
    }
  }

  lemma NextSame(vector: seq<Hit>, bm25: seq<Hit>, k: nat, a: seq<string>, b: seq<string>, n: nat, j: nat, l: nat)
    requires k >= 1 && IsRanking(vector, bm25, k, a) && IsRanking(vector, bm25, k, b) && n < |a| == |b|
    requires forall i :: 0 <= i < n ==> a[i] == b[i]
    requires j < |b| && b[j] == a[n] && l < |a| && a[l] == b[n]
    ensures a[n] == b[n]
  {
  }

  lemma {:induction false} SetSize(s: seq<string>)
    requires Distinct(s)
    ensures |set x | x in s| == |s|
  {
    if s != [] {
      var init, last := s[..|s| - 1], s[|s| - 1];
      SetSize(init);
      assert s == init + [last];
      assert (set x | x in s) == (set x | x in init) + {last};
    }
  }

  /** The rows are for min(limit, n) different ids, best score first, and no dropped id scores more than a
      kept one. */
  lemma BestKept(vector: seq<Hit>, bm25: seq<Hit>, limit: int, k: nat, ranking: seq<string>, rows: seq<Row>)
    requires k >= 1 && IsFusion(vector, bm25, limit, k, ranking, rows)
    ensures var n := |set id | id in ranking|;
      |rows| == if limit >= n then n else if limit >= 0 then limit else if n + limit >= 0 then n + limit else 0
    ensures forall i, j :: 0 <= i < j < |rows| ==> rows[i].score >= rows[j].score
    ensures forall i, j :: 0 <= i < |rows| <= j < |ranking| ==>
              rows[i].score >= Score(vector, bm25, ranking[j], k)
  {
    SetSize(ranking);
    assert forall i, j :: 0 <= i < j < |ranking| ==> Outranks(vector, bm25, k, ranking[i], ranking[j]);
    assert forall i :: 0 <= i < |rows| ==> IsScoredRow(vector, bm25, k, ranking[i], rows[i]);
  }

  /** No id twice in the leg. */
  ghost predicate NoRepeats(leg: seq<Hit>) {
    forall i, j :: 0 <= i < j < |leg| ==> leg[i].chunkId != leg[j].chunkId
  }

  lemma GainOrder(i: nat, j: nat, k: nat)
    requires k >= 1 && i <= j
    ensures 0.0 < Gain(j, k) <= Gain(i, k) <= Gain(0, k)
    ensures i < j ==> Gain(j, k) < Gain(i, k)
  {
    Reciprocals((i + k) as real, (j + k) as real, Gain(i, k), Gain(j, k));
    Reciprocals(k as real, (i + k) as real, Gain(0, k), Gain(i, k));
  }

  /** Reciprocals come in the opposite order. */
  lemma Reciprocals(a: real, b: real, x: real, y: real)
    requires 0.0 < a <= b && x == 1.0 / a && y == 1.0 / b
    ensures 0.0 < y <= x && (a < b ==> y < x)
  {
    assert x * a == 1.0 && y * b == 1.0;
    Scales(y, a, b);
    if x <= y { Scales(a, x, y); }
  }

  lemma Scales(c: real, a: real, b: real)
    requires a <= b
    ensures c > 0.0 ==> c * a <= c * b && (a < b ==> c * a < c * b)
  {
  }

  /** Without repeats a leg gives an id the gain of its one position, or nothing. */
  lemma {:induction false} LegScoreAt(leg: seq<Hit>, id: string, k: nat)
    requires k >= 1 && NoRepeats(leg)
    ensures LegScore(leg, id, k) == if Has(leg, id) then Gain(FirstPos(leg, id), k) else 0.0
  {
    if leg != [] {
      var init, hit := leg[..|leg| - 1], leg[|leg| - 1];
      assert leg == init + [hit];
      assert NoRepeats(init) by { assert forall i :: 0 <= i < |init| ==> init[i] == leg[i]; }
      LegScoreAt(init, id, k);
      HasStep(init, hit, id);
      LegStep(init, hit, id, k);
      FirstStep(init, hit, id);
      if Has(init, id) {
        var i :| 0 <= i < |init| && init[i].chunkId == id;
        assert leg[i] == init[i] && hit.chunkId != id;
      }
    }
  }

  /** Scores lie in (0, 2/k], so for k >= 2 clamping them to [0, 1] changes nothing. */
  lemma ScoreRange(vector: seq<Hit>, bm25: seq<Hit>, k: nat, id: string)
    requires k >= 1 && NoRepeats(vector) && NoRepeats(bm25) && Listed(vector, bm25, id)
    ensures 0.0 < Score(vector, bm25, id, k) <= 2.0 / k as real
    ensures k >= 2 ==> Clamp(Score(vector, bm25, id, k)) == Score(vector, bm25, id, k)
  {
    LegScoreAt(vector, id, k);
    LegScoreAt(bm25, id, k);
    GainOrder(0, FirstPos(vector, id), k);
    GainOrder(0, FirstPos(bm25, id), k);
    TopGains(k);
  }

  /** On all legs without repeats the clamp changes no score exactly when k >= 2. */
  lemma ClampExactly(k: nat)
    requires k >= 1
    ensures (forall vector, bm25, id :: NoRepeats(vector) && NoRepeats(bm25) && Listed(vector, bm25, id) ==>
              Clamp(Score(vector, bm25, id, k)) == Score(vector, bm25, id, k)) <==> k >= 2
  {
    if k >= 2 {
      forall vector, bm25, id | NoRepeats(vector) && NoRepeats(bm25) && Listed(vector, bm25, id)
        ensures Clamp(Score(vector, bm25, id, k)) == Score(vector, bm25, id, k)
      {
        ScoreRange(vector, bm25, k, id);
      }
    } else {
      var leg := [Hit("a", 0.0)];
      PositionOf(leg, 0);
      LegScoreAt(leg, "a", k);
      assert Score(leg, leg, "a", k) == 2.0 && Listed(leg, leg, "a");
    }
  }

  lemma TopGains(k: nat)
    requires k >= 1
    ensures Gain(0, k) + Gain(0, k) == 2.0 / k as real && (k >= 2 ==> 2.0 / k as real <= 1.0)
  {
  }

  /** What the result model does to a score. */
  function Clamp(v: real): real {
    var low := if v < 1.0 then v else 1.0;
    if low > 0.0 then low else 0.0
  }

  /** a is placed no lower than b in the leg; not being in it is the lowest place. */
  predicate NoWorse(leg: seq<Hit>, a: string, b: string) {
    Has(leg, b) ==> Has(leg, a) && FirstPos(leg, a) <= FirstPos(leg, b)
  }

  /** An id placed no lower in each leg scores no lower. */
  lemma NoWorseScoresNoLess(vector: seq<Hit>, bm25: seq<Hit>, k: nat, a: string, b: string)
    requires k >= 1 && NoRepeats(vector) && NoRepeats(bm25)
    requires NoWorse(vector, a, b) && NoWorse(bm25, a, b)
    ensures Score(vector, bm25, a, k) >= Score(vector, bm25, b, k)
  {
    LegNoWorse(vector, k, a, b);
    LegNoWorse(bm25, k, a, b);
  }

  lemma LegNoWorse(leg: seq<Hit>, k: nat, a: string, b: string)
    requires k >= 1 && NoRepeats(leg) && NoWorse(leg, a, b)
    ensures LegScore(leg, a, k) >= LegScore(leg, b, k)
  {
    LegScoreAt(leg, a, k);
    LegScoreAt(leg, b, k);
    if Has(leg, b) { GainOrder(FirstPos(leg, a), FirstPos(leg, b), k); }
    if Has(leg, a) { GainOrder(0, FirstPos(leg, a), k); }
  }

  predicate InBoth(vector: seq<Hit>, bm25: seq<Hit>, id: string) {
    Has(vector, id) && Has(bm25, id)
  }

  predicate InOne(vector: seq<Hit>, bm25: seq<Hit>, id: string) {
    Has(vector, id) != Has(bm25, id)
  }

  /** Every id of both legs goes before every id of only one. */
  ghost predicate BothFirst(vector: seq<Hit>, bm25: seq<Hit>, k: nat)
    requires k >= 1
  {
    forall x, y :: InBoth(vector, bm25, x) && InOne(vector, bm25, y) ==> Outranks(vector, bm25, k, x, y)
  }

  /** Legs of at most n rows, none repeated. */
  ghost predicate Legs(vector: seq<Hit>, bm25: seq<Hit>, n: nat) {
    NoRepeats(vector) && NoRepeats(bm25) && |vector| <= n && |bm25| <= n
  }

  /** A hit in both legs beats a hit in one on all legs of at most n rows exactly when n <= k. */
  lemma BothFirstExactly(n: nat, k: nat)
    requires k >= 1
    ensures (forall vector, bm25 :: Legs(vector, bm25, n) ==> BothFirst(vector, bm25, k)) <==> n <= k
  {
    if n <= k {
      forall vector, bm25 | Legs(vector, bm25, n) ensures BothFirst(vector, bm25, k) {
        forall x, y | InBoth(vector, bm25, x) && InOne(vector, bm25, y)
          ensures Outranks(vector, bm25, k, x, y)
        {
          BothBeatsOne(vector, bm25, k, x, y);
        }
      }
    } else {
      DeepBothTies(k);
      var vector, bm25 := DeepVector(k), DeepBm25(k);
      assert Legs(vector, bm25, n) && !BothFirst(vector, bm25, k);
    }
  }

  lemma BothBeatsOne(vector: seq<Hit>, bm25: seq<Hit>, k: nat, x: string, y: string)
    requires k >= 1 && Legs(vector, bm25, k)
    requires InBoth(vector, bm25, x) && InOne(vector, bm25, y)
    ensures Score(vector, bm25, x, k) > Score(vector, bm25, y, k)
  {
    LegScoreAt(vector, x, k);
    LegScoreAt(bm25, x, k);
    LegScoreAt(vector, y, k);
    LegScoreAt(bm25, y, k);
    FirstPosFinds(vector, x);
    FirstPosFinds(bm25, x);
    GainOrder(FirstPos(vector, x), k - 1, k);
    GainOrder(FirstPos(bm25, x), k - 1, k);
    GainOrder(0, FirstPos(vector, y), k);
    GainOrder(0, FirstPos(bm25, y), k);
    TwoBeatOne(k);
  }

  lemma TwoBeatOne(k: nat)
    requires k >= 1
    ensures Gain(k - 1, k) + Gain(k - 1, k) > Gain(0, k)
    ensures Gain(k, k) + Gain(k, k) == Gain(0, k)
  {
    var a, b := k as real, (k - 1 + k) as real;
    assert b < 2.0 * a;
    assert 2.0 / b > 1.0 / a by { Cross(a, b); }
    assert (k + k) as real == 2.0 * a;
  }

  lemma Cross(a: real, b: real)
    requires 0.0 < a && 0.0 < b < 2.0 * a
    ensures 2.0 / b > 1.0 / a
  {
    assert (2.0 / b) * (a * b) == 2.0 * a;
    assert (1.0 / a) * (a * b) == b;
  }

  function Name(i: nat): string {
    seq(i, _ => 'a')
  }

  /** k + 1 rows; the last of each leg is the same chunk. */
  function DeepVector(k: nat): seq<Hit> {
    seq(k + 1, i requires 0 <= i => Hit(Name(i), 0.0))
  }

  function DeepBm25(k: nat): seq<Hit> {
    seq(k + 1, i requires 0 <= i => Hit(if i == k then Name(k) else Name(k + 1 + i), 0.0))
  }

  /** At depth k + 1 a hit in both legs may only tie with the top of the vector leg, which goes first. */
  lemma DeepBothTies(k: nat)
    requires k >= 1
    ensures var vector, bm25 := DeepVector(k), DeepBm25(k);
      && Legs(vector, bm25, k + 1)
      && InBoth(vector, bm25, Name(k)) && InOne(vector, bm25, Name(0))
      && !Outranks(vector, bm25, k, Name(k), Name(0))
  {
    var vector, bm25 := DeepVector(k), DeepBm25(k);
    assert forall i, j: nat :: i != j ==> |Name(i)| != |Name(j)|;
    assert vector[k].chunkId == Name(k) && bm25[k].chunkId == Name(k) && vector[0].chunkId == Name(0);
    PositionOf(vector, k);
    PositionOf(bm25, k);
    PositionOf(vector, 0);
    assert !Has(bm25, Name(0)) by { assert forall i :: 0 <= i <= k ==> |bm25[i].chunkId| > 0; }
    LegScoreAt(vector, Name(k), k);
    LegScoreAt(bm25, Name(k), k);
    LegScoreAt(vector, Name(0), k);
    LegScoreAt(bm25, Name(0), k);
    TwoBeatOne(k);
    FirstPosFinds(vector + bm25, Name(0));
    assert (vector + bm25)[0].chunkId == Name(0);
  }

  lemma PositionOf(leg: seq<Hit>, i: nat)
    requires i < |leg| && NoRepeats(leg)
    ensures Has(leg, leg[i].chunkId) && FirstPos(leg, leg[i].chunkId) == i
  {
    FirstPosFinds(leg, leg[i].chunkId);
  }
}
