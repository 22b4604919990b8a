/** The confidence gate on fused results, against the vector leg it is meant to stand for. */
module Confidence {
  import opened Fusion
  import opened Ranking

  /** The highest cosine among the results, 0.0 if there is none. */
  function MaxCosine(rows: seq<Row>): (m: real)
    ensures rows == [] ==> m == 0.0
    ensures rows != [] ==> exists i :: 0 <= i < |rows| && rows[i].cosine == m
    ensures forall i :: 0 <= i < |rows| ==> rows[i].cosine <= m
  {
    if rows == [] then 0.0
    else
      var init, last := rows[..|rows| - 1], rows[|rows| - 1];
      assert forall i :: 0 <= i < |init| ==> init[i] == rows[i];
      if init == [] then last.cosine
      else var m := MaxCosine(init); if m >= last.cosine then m else last.cosine
  }

  predicate IsLowConfidence(rows: seq<Row>, threshold: real) {
    MaxCosine(rows) < threshold
  }

  /** Every row of the vector leg is below the threshold. */
  predicate LegIsLow(vector: seq<Hit>, threshold: real) {
    forall i :: 0 <= i < |vector| ==> vector[i].similarity < threshold
  }

  /** Most similar row first. */
  predicate Descending(vector: seq<Hit>) {
    forall i, j :: 0 <= i < j < |vector| ==> vector[i].similarity >= vector[j].similarity
  }

  /** A vector leg below the threshold always gates the fused result. */
  lemma LowLegGates(vector: seq<Hit>, bm25: seq<Hit>, limit: int, k: nat, ranking: seq<string>, rows: seq<Row>,
                    threshold: real)
    requires k >= 1 && threshold > 0.0 && IsFusion(vector, bm25, limit, k, ranking, rows)
    requires LegIsLow(vector, threshold)
    ensures IsLowConfidence(rows, threshold)
  {
    forall i | 0 <= i < |rows| ensures rows[i].cosine < threshold {
      assert IsScoredRow(vector, bm25, k, ranking[i], rows[i]);
    }
  }

  /** The rows fusion gives; there is exactly one ranking to take them from. */
  ghost function FusionOf(vector: seq<Hit>, bm25: seq<Hit>, limit: int, k: nat): (f: (seq<string>, seq<Row>))
    requires k >= 1
    ensures IsFusion(vector, bm25, limit, k, f.0, f.1)
  {
    SortFuses(vector, bm25, limit, k);
    var d := BothDicts(vector, bm25, k);
    var sorted := SortDescending(d.keys, d.scores);
    (sorted, FinalRows(d, sorted)[..Kept(limit, |sorted|)])
  }

  /** Whatever rows fusion may return, they are these. */
  lemma FusedOnce(vector: seq<Hit>, bm25: seq<Hit>, limit: int, k: nat, rows: seq<Row>)
    requires k >= 1
    ensures IsFused(vector, bm25, limit, k, rows) <==> rows == FusionOf(vector, bm25, limit, k).1
  {
    var (ranking, fused) := FusionOf(vector, bm25, limit, k);
    assert IsFused(vector, bm25, limit, k, fused);
    if IsFused(vector, bm25, limit, k, rows) {
      var other :| IsFusion(vector, bm25, limit, k, other, rows);
      RankingUnique(vector, bm25, k, other, ranking);
      FusedUnique(vector, bm25, limit, k, rows, fused, ranking);
    }
  }

  /** Of whatever rows fusion returns, the gate says what it would say of the vector leg. */
  ghost predicate GateAgrees(vector: seq<Hit>, bm25: seq<Hit>, limit: int, k: nat, threshold: real)
    requires k >= 1
  {
    forall rows :: IsFused(vector, bm25, limit, k, rows) ==>
      (IsLowConfidence(rows, threshold) <==> LegIsLow(vector, threshold))
  }

  lemma GateOfOne(vector: seq<Hit>, bm25: seq<Hit>, limit: int, k: nat, threshold: real)
    requires k >= 1
    ensures GateAgrees(vector, bm25, limit, k, threshold)
      <==> (IsLowConfidence(FusionOf(vector, bm25, limit, k).1, threshold) <==> LegIsLow(vector, threshold))
  {
    var rows := FusionOf(vector, bm25, limit, k).1;
    FusedOnce(vector, bm25, limit, k, rows);
    forall other | IsFused(vector, bm25, limit, k, other) ensures other == rows {
      FusedOnce(vector, bm25, limit, k, other);
    }
  }

  /** A vector leg as pgvector returns it beside a keyword leg of at most n rows. */
  ghost predicate SearchLegs(vector: seq<Hit>, bm25: seq<Hit>, n: nat) {
    NoRepeats(vector) && NoRepeats(bm25) && Descending(vector) && |bm25| <= n
  }

  /** The most ids that can go before the top vector hit when the keyword leg has n rows. */
  function MostAhead(n: nat, k: nat): nat
    requires k >= 1
  {
    if n < 2 * k - 1 then n else 2 * k - 1
  }

  /** The gate agrees with the vector leg, for all legs with at most n keyword rows, exactly when more rows are
      kept than can go before the top vector hit. */
  lemma GateAgreesExactly(n: nat, limit: nat, k: nat, threshold: real)
    requires k >= 1 && threshold > 0.0
    ensures (forall vector, bm25 :: SearchLegs(vector, bm25, n) ==> GateAgrees(vector, bm25, limit, k, threshold))
            <==> limit > MostAhead(n, k)
  {
    if limit > MostAhead(n, k) {
      forall vector, bm25 | SearchLegs(vector, bm25, n) ensures GateAgrees(vector, bm25, limit, k, threshold) {
        TopHitSurvives(vector, bm25, limit, k, threshold);
      }
    } else {
      HiddenTopHit(limit, k, threshold);
      GateOfOne(HiddenVector(limit, threshold), HiddenBm25(limit), limit, k, threshold);
      assert SearchLegs(HiddenVector(limit, threshold), HiddenBm25(limit), n);
      assert !GateAgrees(HiddenVector(limit, threshold), HiddenBm25(limit), limit, k, threshold);
    }
  }

  /** The rows of the first k ranks of either leg, without the top vector hit. */
  function Near(vector: seq<Hit>, bm25: seq<Hit>, k: nat): (near: seq<Hit>)
    requires k >= 1 && vector != []
    ensures |near| <= 2 * k - 1
  {
    (if |vector| > k then vector[1..k] else vector[1..]) + (if |bm25| > k then bm25[..k] else bm25)
  }

  /** Keeping more rows than can go before the top vector hit makes the gate agree. */
  lemma TopHitSurvives(vector: seq<Hit>, bm25: seq<Hit>, limit: nat, k: nat, threshold: real)
    requires k >= 1 && threshold > 0.0 && SearchLegs(vector, bm25, |bm25|) && limit > MostAhead(|bm25|, k)
    ensures GateAgrees(vector, bm25, limit, k, threshold)
  {
    GateOfOne(vector, bm25, limit, k, threshold);
    var (ranking, rows) := FusionOf(vector, bm25, limit, k);
    if LegIsLow(vector, threshold) {
      LowLegGates(vector, bm25, limit, k, ranking, rows, threshold);
    } else {
      var top := vector[0].chunkId;
      PositionOf(vector, 0);
      assert top in ranking;
      var p :| 0 <= p < |ranking| && ranking[p] == top;
      RankedEarly(vector, bm25, k, ranking, p);
      assert IsScoredRow(vector, bm25, k, ranking[p], rows[p]);
      LastRankFinds(vector, top);
      assert rows[p].cosine == vector[0].similarity;
    }
  }

  lemma RankedEarly(vector: seq<Hit>, bm25: seq<Hit>, k: nat, ranking: seq<string>, p: nat)
    requires k >= 1 && NoRepeats(vector) && NoRepeats(bm25) && vector != []
    requires IsRanking(vector, bm25, k, ranking) && p < |ranking| && ranking[p] == vector[0].chunkId
    ensures p <= MostAhead(|bm25|, k)
  {
    var near := Near(vector, bm25, k);
    forall i | 0 <= i < p ensures Has(bm25, ranking[i]) && Has(near, ranking[i]) {
      assert Outranks(vector, bm25, k, ranking[i], ranking[p]) && ranking[i] in ranking;
      NearHitsPrecede(vector, bm25, k, ranking[i]);
    }
    FewPrecede(bm25, ranking[..p]);
    FewPrecede(near, ranking[..p]);
  }

  /** Two gains add up to more than the top one exactly when their ranks multiply to less than k squared. */
  lemma PairBeatsTop(i: nat, j: nat, k: nat)
    requires k >= 1
    ensures Gain(i, k) + Gain(j, k) > Gain(0, k) <==> i * j < k * k
  {
    var a, b, c := (i + k) as real, (j + k) as real, k as real;
    assert a * b - c * a - c * b == (i * j) as real - (k * k) as real by { Shift(i, j, k); }
    Cleared3(a, b, c, Gain(i, k), Gain(j, k), Gain(0, k));
  }

  lemma Shift(i: nat, j: nat, k: nat)
    ensures ((i + k) as real) * ((j + k) as real) - (k as real) * ((i + k) as real) - (k as real) * ((j + k) as real)
         == (i * j) as real - (k * k) as real
  {
    assert (i + k) * (j + k) - k * (i + k) - k * (j + k) == i * j - k * k;
    Product(i + k, j + k);
    Product(k, i + k);
    Product(k, j + k);
  }

  lemma Product(a: nat, b: nat)
    ensures (a * b) as real == (a as real) * (b as real)
  {
  }

  /** Clearing the denominators of 1/a + 1/b > 1/c. */
  lemma Cleared3(a: real, b: real, c: real, x: real, y: real, z: real)
    requires a > 0.0 && b > 0.0 && c > 0.0 && x == 1.0 / a && y == 1.0 / b && z == 1.0 / c
    ensures x + y > z <==> a * b - c * a - c * b < 0.0
  {
    var w := a * b * c;
    assert w > 0.0;
    assert x * w == b * c && y * w == a * c && z * w == a * b by {
      assert x * a == 1.0 && y * b == 1.0 && z * c == 1.0;
      assert x * w == (x * a) * (b * c) && y * w == (y * b) * (a * c) && z * w == (z * c) * (a * b);
    }
    assert (x + y - z) * w == b * c + a * c - a * b;
    Sign(x + y - z, w);
  }

  lemma Sign(v: real, w: real)
    requires w > 0.0
    ensures v > 0.0 <==> v * w > 0.0
  {
  }

  /** Only ids of both legs, in one of them at a rank below k, go before the top vector hit. */
  lemma NearHitsPrecede(vector: seq<Hit>, bm25: seq<Hit>, k: nat, x: string)
    requires k >= 1 && NoRepeats(vector) && NoRepeats(bm25) && vector != [] && Listed(vector, bm25, x)
    requires x != vector[0].chunkId && Outranks(vector, bm25, k, x, vector[0].chunkId)
    ensures Has(bm25, x) && Has(Near(vector, bm25, k), x)
  {
    var i, j := FirstPos(vector, x), FirstPos(bm25, x);
    FirstPosFinds(vector, x);
    FirstPosFinds(bm25, x);
    BothPrecede(vector, bm25, k, x);
    PairBeatsTop(i, j, k);
    if i >= k && j >= k { FarProduct(i, j, k); }
    NearHas(vector, bm25, k, i, j);
  }

  lemma FarProduct(i: nat, j: nat, k: nat)
    requires i >= k && j >= k
    ensures i * j >= k * k
  {
    assert i * j == (i - k) * j + k * j && k * j == k * (j - k) + k * k;
  }

  lemma NearHas(vector: seq<Hit>, bm25: seq<Hit>, k: nat, i: nat, j: nat)
    requires k >= 1 && 0 < i < |vector| && j < |bm25| && vector[i].chunkId == bm25[j].chunkId && (i < k || j < k)
    ensures Has(Near(vector, bm25, k), bm25[j].chunkId)
  {
    var near, m := Near(vector, bm25, k), if |vector| > k then k - 1 else |vector| - 1;
    if i < k {
      assert near[i - 1] == vector[i];
    } else {
      assert near[m + j] == bm25[j];
    }
  }

  /** An id that goes before it has more than its gain, so it is in both legs. */
  lemma BothPrecede(vector: seq<Hit>, bm25: seq<Hit>, k: nat, x: string)
    requires k >= 1 && NoRepeats(vector) && NoRepeats(bm25) && vector != [] && Listed(vector, bm25, x)
    requires x != vector[0].chunkId && Outranks(vector, bm25, k, x, vector[0].chunkId)
    ensures InBoth(vector, bm25, x) && FirstPos(vector, x) > 0
    ensures Gain(FirstPos(vector, x), k) + Gain(FirstPos(bm25, x), k) > Gain(0, k)
  {
    var top := vector[0].chunkId;
    PositionOf(vector, 0);
    FirstPosFinds(vector, x);
    FirstPosFinds(vector + bm25, top);
    FirstPosFinds(vector + bm25, x);
    assert (vector + bm25)[0] == vector[0];
    LegScoreAt(vector, x, k);
    LegScoreAt(bm25, x, k);
    LegScoreAt(vector, top, k);
    LegScoreAt(bm25, top, k);
    GainOrder(0, FirstPos(vector, x), k);
    GainOrder(0, FirstPos(bm25, x), k);
    GainOrder(0, FirstPos(bm25, top), k);
  }

  lemma FewPrecede(bm25: seq<Hit>, ids: seq<string>)
    requires Distinct(ids) && forall i :: 0 <= i < |ids| ==> Has(bm25, ids[i])
    ensures |ids| <= |bm25|
  {
    SetSize(ids);
    var named := set i | 0 <= i < |bm25| :: bm25[i].chunkId;
    forall id | id in ids ensures id in named {
      var i :| 0 <= i < |bm25| && bm25[i].chunkId == id;
    }
    Subset((set x | x in ids), named);
    NamedFew(bm25);
  }

  lemma {:induction false} Subset(a: set<string>, b: set<string>)
    requires a <= b
    ensures |a| <= |b|
  {
    if a != {} {
      var x :| x in a;
      Subset(a - {x}, b - {x});
    }
  }

  lemma {:induction false} NamedFew(leg: seq<Hit>)
    ensures |set i | 0 <= i < |leg| :: leg[i].chunkId| <= |leg|
  {
    var named := set i | 0 <= i < |leg| :: leg[i].chunkId;
    if leg == [] {
      assert named == {};
    } else {
      var init := leg[..|leg| - 1];
      var fewer := set i | 0 <= i < |init| :: init[i].chunkId;
      NamedFew(init);
      assert named <= fewer + {leg[|leg| - 1].chunkId} by {
        forall id | id in named ensures id in fewer + {leg[|leg| - 1].chunkId} {
          var i :| 0 <= i < |leg| && leg[i].chunkId == id;
          if i < |init| { assert init[i] == leg[i]; }
        }
      }
      Subset(named, fewer + {leg[|leg| - 1].chunkId});
    }
  }

  /** One vector row at the threshold, and n rows that both legs list, in opposite orders. */
  function HiddenVector(n: nat, threshold: real): seq<Hit> {
    seq(n + 1, i requires 0 <= i => Hit(Name(i), if i == 0 then threshold else 0.0))
  }

  function HiddenBm25(n: nat): seq<Hit> {
    seq(n, j requires 0 <= j < n => Hit(Name(n - j), 0.0))
  }

  /** The rows both legs list push the one good row out of the first n: the gate reports low confidence
      although the vector leg has a row at the threshold. */
  lemma HiddenTopHit(n: nat, k: nat, threshold: real)
    requires k >= 1 && n <= 2 * k - 1 && threshold > 0.0
    ensures var vector, bm25 := HiddenVector(n, threshold), HiddenBm25(n);
      && SearchLegs(vector, bm25, n) && !LegIsLow(vector, threshold)
      && IsLowConfidence(FusionOf(vector, bm25, n, k).1, threshold)
  {
    var vector, bm25 := HiddenVector(n, threshold), HiddenBm25(n);
    assert forall i, j: nat :: i != j ==> |Name(i)| != |Name(j)|;
    assert vector[0].similarity == threshold;
    var (ranking, rows) := FusionOf(vector, bm25, n, k);
    forall i | 0 <= i < |rows| ensures rows[i].cosine == 0.0 {
      assert IsScoredRow(vector, bm25, k, ranking[i], rows[i]);
      if ranking[i] == Name(0) {
        AllAhead(n, k, threshold, ranking, i);
      } else {
        LastRankFinds(vector, ranking[i]);
      }
    }
  }

  /** In that example every other id goes before the good row. */
  lemma AllAhead(n: nat, k: nat, threshold: real, ranking: seq<string>, p: nat)
    requires k >= 1 && n <= 2 * k - 1 && threshold > 0.0
    requires IsRanking(HiddenVector(n, threshold), HiddenBm25(n), k, ranking)
    requires p < |ranking| && ranking[p] == Name(0)
    ensures p >= n
  {
    var vector, bm25 := HiddenVector(n, threshold), HiddenBm25(n);
    forall i: nat | 1 <= i <= n ensures Name(i) in ranking[..p] {
      OneAhead(n, k, threshold, i);
      assert Name(i) in ranking;
      var q :| 0 <= q < |ranking| && ranking[q] == Name(i);
      assert q < p;
      assert ranking[..p][q] == Name(i);
    }
    SetSize(ranking[..p]);
    NamesMany(n, set x | x in ranking[..p]);
  }

  lemma HiddenNames(n: nat, threshold: real, i: nat)
    requires 1 <= i <= n
    ensures var vector, bm25 := HiddenVector(n, threshold), HiddenBm25(n);
      && vector[i].chunkId == Name(i) && bm25[n - i].chunkId == Name(i) && vector[0].chunkId == Name(0)
      && !Has(bm25, Name(0)) && (forall i, j: nat :: i != j ==> |Name(i)| != |Name(j)|)
  {
    var vector, bm25 := HiddenVector(n, threshold), HiddenBm25(n);
    assert forall i, j: nat :: i != j ==> |Name(i)| != |Name(j)|;
    assert vector[i].chunkId == Name(i) && bm25[n - i].chunkId == Name(i) && vector[0].chunkId == Name(0);
    assert forall j :: 0 <= j < n ==> |bm25[j].chunkId| > 0;
  }

  lemma OneAhead(n: nat, k: nat, threshold: real, i: nat)
    requires k >= 1 && 1 <= i <= n <= 2 * k - 1
    ensures var vector, bm25 := HiddenVector(n, threshold), HiddenBm25(n);
      Has(vector, Name(i)) && Score(vector, bm25, Name(i), k) > Score(vector, bm25, Name(0), k)
  {
    var vector, bm25 := HiddenVector(n, threshold), HiddenBm25(n);
    HiddenNames(n, threshold, i);
    PositionOf(vector, i);
    PositionOf(bm25, n - i);
    PositionOf(vector, 0);
    LegScoreAt(vector, Name(i), k);
    LegScoreAt(bm25, Name(i), k);
    LegScoreAt(vector, Name(0), k);
    LegScoreAt(bm25, Name(0), k);
    SmallProduct(n, i, k);
    PairBeatsTop(i, n - i, k);
  }

  lemma SmallProduct(n: nat, i: nat, k: nat)
    requires 1 <= i <= n < 2 * k
    ensures i * (n - i) < k * k
  {
    FourTimes(i, n - i);
    Squares(n, 2 * k);
    Squares(0, if i < n - i then n - 2 * i else 2 * i - n);
    assert (2 * k) * (2 * k) == 4 * (k * k);
  }

  lemma FourTimes(a: nat, b: nat)
    ensures 4 * (a * b) == (a + b) * (a + b) - (if a < b then (b - a) * (b - a) else (a - b) * (a - b))
  {
  }

  lemma Squares(a: nat, b: nat)
    requires a <= b
    ensures a * a <= b * b && (a < b ==> a * a < b * b)
  {
    assert b * b - a * a == (b - a) * (b + a);
  }

  lemma {:induction false} NamesMany(n: nat, ids: set<string>)
    requires forall i: nat :: 1 <= i <= n ==> Name(i) in ids
    ensures |ids| >= n
  {
    if n > 0 {
      assert forall i: nat :: i < n ==> |Name(i)| != |Name(n)|;
      NamesMany(n - 1, ids - {Name(n)});
    }
  }
}
