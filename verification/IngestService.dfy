/** The ingestion service over the tables, a database call at a time, and the keyword index it refreshes. */
module IngestService {
  import opened Text
  import opened Ingest
  import opened IngestRuns

  /** The keyword index after a rebuild: an empty table leaves the old index in place. */
  function Reindexed(db: Db): Db {
    if db.chunks == map[] then db else db.(index := db.chunks.Keys)
  }

  /** The update returns early, without a rebuild, when there is nothing to embed. */
  function ReturnsEarly(env: Env, db: Db, source: string, content: string, found: Option<nat>): bool
    requires found.Some? ==> found.value in db.docs
  {
    || Plan(env, db, source, content, found) == []
    || (found.Some? && Fresh(env, env.chunk(content), Stored(db, found.value)) == [])
  }

  /** Tables and index after an ingest without faults. */
  function Finished(env: Env, db: Db, source: string, content: string, found: Option<nat>): Db
    requires found.Some? ==> found.value in db.docs
  {
    var done := Done(env, db, Plan(env, db, source, content, found));
    if ReturnsEarly(env, db, source, content, found) then done else Reindexed(done)
  }

  function FinishedRemove(env: Env, db: Db, d: nat): Db {
    Reindexed(Done(env, db, DeletePlan(db, d)))
  }

  /** The index never misses a stored chunk. */
  predicate Covers(db: Db) {
    db.chunks.Keys <= db.index
  }

  /** Without faults the index keeps covering the stored chunks, and is exact again after every ingest that
      saved a chunk. */
  lemma IngestCovers(env: Env, db: Db, source: string, content: string, found: Option<nat>)
    requires env.Injective() && Sound(env, db) && LooksUp(db, source, found) && Covers(db)
    ensures var db' := Finished(env, db, source, content, found);
      && Covers(db')
      && (db'.nextChunk > db.nextChunk ==> db'.index == db'.chunks.Keys)
  {
    var plan := Plan(env, db, source, content, found);
    match found
    case None =>
      InsertStages(env, db, source, content, |plan|);
      if env.chunk(content) != [] { InsertStoresAll(env, db, source, content, 0); }
    case Some(d) =>
      if plan != [] {
        UpdateStages(env, db, source, content, d, |plan|);
        SavedKeys(env, db, d, content);
      }
  }

  /** An ingest takes an exact index to an exact one unless it is an update that drops rows and embeds nothing. */
  lemma IngestExactly(env: Env, db: Db, source: string, content: string, found: Option<nat>)
    requires env.Injective() && Sound(env, db) && LooksUp(db, source, found) && db.index == db.chunks.Keys
    ensures var db' := Finished(env, db, source, content, found);
            var texts := env.chunk(content);
      db'.index == db'.chunks.Keys <==>
        !(found.Some? && Plan(env, db, source, content, found) != []
          && Stale(env, db, found.value, texts) != {} && Fresh(env, texts, Stored(db, found.value)) == [])
  {
    var plan := Plan(env, db, source, content, found);
    match found
    case None => InsertStages(env, db, source, content, |plan|);
    case Some(d) =>
      if plan != [] {
        UpdateStages(env, db, source, content, d, |plan|);
        SavedKeys(env, db, d, content);
        if ReturnsEarly(env, db, source, content, found) && Stale(env, db, d, env.chunk(content)) != {} {
          var r :| r in Stale(env, db, d, env.chunk(content));
          assert r in db.index && r !in Saved(env, db, d, content).chunks;
        }
      }
  }

  /** A removal takes an exact index to an exact one unless it removes the last stored chunk. */
  lemma RemoveExactly(env: Env, db: Db, d: nat)
    requires d in db.docs && db.index == db.chunks.Keys
    ensures var db' := FinishedRemove(env, db, d);
      Covers(db') && (db'.index == db'.chunks.Keys <==> db'.chunks != map[] || db.chunks == map[])
  {
    DeleteDone(env, db, d);
    if db.chunks == map[] { assert db.chunks - RowsOf(db, d) == map[]; }
  }

  lemma RemoveCovers(env: Env, db: Db, d: nat)
    requires Covers(db)
    ensures Covers(FinishedRemove(env, db, d))
  {
    DeleteDone(env, db, d);
  }

  /** One operation of the service without faults, index included. */
  ghost predicate Serves(env: Env, db: Db, op: Op, db': Db) {
    exists found :: LooksUp(db, op.source, found) && db' == ServedBy(env, db, op, found)
  }

  function ServedBy(env: Env, db: Db, op: Op, found: Option<nat>): Db
    requires found.Some? ==> found.value in db.docs
  {
    match op
    case Ingest(source, content, _) => Finished(env, db, source, content, found)
    case Remove(_, _) => if found.Some? then FinishedRemove(env, db, found.value) else db
  }

  ghost predicate IsServiceRun(env: Env, states: seq<Db>, ops: seq<Op>) {
    && |states| == |ops| + 1 && states[0] == EMPTY
    && forall i :: 0 <= i < |ops| ==> Serves(env, states[i], ops[i], states[i + 1])
  }

  lemma ServedKeeps(env: Env, db: Db, op: Op, db': Db)
    requires env.Injective() && Sound(env, db) && Covers(db) && Serves(env, db, op, db')
    ensures Sound(env, db') && Covers(db')
    ensures op.Ingest? && db'.nextChunk > db.nextChunk ==> db'.index == db'.chunks.Keys
  {
    var found :| LooksUp(db, op.source, found) && db' == ServedBy(env, db, op, found);
    match op {
      case Ingest(source, content, _) =>
        var plan := Plan(env, db, source, content, found);
        IngestCovers(env, db, source, content, found);
        IngestSound(env, db, source, content, found, |plan|);
        SoundTables(env, db', Done(env, db, plan));
      case Remove(_, _) =>
        if found.Some? {
          RemoveCovers(env, db, found.value);
          DeleteSound(env, db, found.value, 2);
          SoundTables(env, db', Done(env, db, DeletePlan(db, found.value)));
        }
    }
  }

  /** In every state of every fault-free run the keyword index has every stored chunk, and right after an ingest
      that saved a chunk it has no other. */
  lemma {:induction false} IndexCoversRun(env: Env, states: seq<Db>, ops: seq<Op>, i: nat)
    requires env.Injective() && IsServiceRun(env, states, ops) && i < |states|
    ensures Sound(env, states[i]) && Covers(states[i])
    ensures i > 0 && ops[i - 1].Ingest? && states[i].nextChunk > states[i - 1].nextChunk ==>
              states[i].index == states[i].chunks.Keys
  {
    if i > 0 {
      IndexCoversRun(env, states, ops, i - 1);
      assert Serves(env, states[i - 1], ops[i - 1], states[i]);
      ServedKeeps(env, states[i - 1], ops[i - 1], states[i]);
    }
  }

  /** The operation rebuilds the index from a table that has rows. */
  ghost predicate Renews(env: Env, db: Db, op: Op, found: Option<nat>)
    requires found.Some? ==> found.value in db.docs
  {
    && Done(env, db, PlanOf(env, db, op, found)).chunks != map[]
    && (op.Ingest? ==> !ReturnsEarly(env, db, op.source, op.content, found))
    && (op.Remove? ==> found.Some?)
  }

  /** The operation drops rows that stay in the index: an update that embeds nothing, or the removal of the last
      rows. */
  ghost predicate Drops(env: Env, db: Db, op: Op, found: Option<nat>)
    requires found.Some? ==> found.value in db.docs
  {
    && found.Some?
    && match op
       case Ingest(source, content, _) =>
         && db.docs[found.value].contentHash != env.hash(content)
         && Stale(env, db, found.value, env.chunk(content)) != {}
         && Fresh(env, env.chunk(content), Stored(db, found.value)) == []
       case Remove(_, _) => db.chunks != map[] && db.chunks.Keys <= RowsOf(db, found.value)
  }

  /** An operation that renews makes the index exact, one that drops makes it inexact, and any other leaves index
      and rows as they are. */
  lemma ServedIndex(env: Env, db: Db, op: Op, found: Option<nat>)
    requires env.Injective() && Sound(env, db) && Covers(db) && LooksUp(db, op.source, found)
    ensures var db' := ServedBy(env, db, op, found);
      if Renews(env, db, op, found) then db'.index == db'.chunks.Keys
      else if Drops(env, db, op, found) then db'.index != db'.chunks.Keys
      else db'.index == db.index && db'.chunks.Keys == db.chunks.Keys
  {
    match op
    case Ingest(source, content, _) => IngestIndex(env, db, source, content, found);
    case Remove(source, _) => if found.Some? { RemoveIndex(env, db, found.value); }
  }

  lemma IngestIndex(env: Env, db: Db, source: string, content: string, found: Option<nat>)
    requires env.Injective() && Sound(env, db) && Covers(db) && LooksUp(db, source, found)
    ensures var db', op := Finished(env, db, source, content, found), Op.Ingest(source, content, 0);
      if Renews(env, db, op, found) then db'.index == db'.chunks.Keys
      else if Drops(env, db, op, found) then db'.index != db'.chunks.Keys
      else db'.index == db.index && db'.chunks.Keys == db.chunks.Keys
  {
    var plan := Plan(env, db, source, content, found);
    match found
    case None =>
      InsertStages(env, db, source, content, |plan|);
      if env.chunk(content) != [] { InsertStoresAll(env, db, source, content, 0); }
    case Some(d) =>
      if plan != [] {
        UpdateStages(env, db, source, content, d, |plan|);
        SavedKeys(env, db, d, content);
        if Stale(env, db, d, env.chunk(content)) != {} {
          var r :| r in Stale(env, db, d, env.chunk(content));
          assert r in db.index && r !in Saved(env, db, d, content).chunks;
        }
      }
  }

  lemma RemoveIndex(env: Env, db: Db, d: nat)
    requires Covers(db)
    ensures var done, db' := Done(env, db, DeletePlan(db, d)), FinishedRemove(env, db, d);
      if done.chunks != map[] then db'.index == db'.chunks.Keys
      else db'.index == db.index && db'.chunks == map[]
           && (db.chunks != map[] ==> db.chunks.Keys <= RowsOf(db, d) && db'.index != db'.chunks.Keys)
  {
    DeleteDone(env, db, d);
    var left := db.chunks - RowsOf(db, d);
    assert left.Keys == db.chunks.Keys - RowsOf(db, d);
    if left == map[] {
      assert left.Keys == {};
      Within(db.chunks.Keys, RowsOf(db, d));
      if db.chunks != map[] {
        var r :| r in db.chunks;
        assert r in db.index;
      }
    } else {
      var r :| r in left;
      assert r in db.chunks;
    }
  }

  lemma Within(a: set<nat>, b: set<nat>)
    requires a - b == {}
    ensures a <= b
  {
    forall x | x in a ensures x in b { assert x !in a - b; }
  }

  ghost predicate RenewsAt(env: Env, db: Db, op: Op) {
    exists found :: LooksUp(db, op.source, found) && Renews(env, db, op, found)
  }

  ghost predicate DropsAt(env: Env, db: Db, op: Op) {
    exists found :: LooksUp(db, op.source, found) && Drops(env, db, op, found)
  }

  /** No operation before state i has dropped rows since the last one that renewed the index. */
  ghost predicate NoDropSince(env: Env, states: seq<Db>, ops: seq<Op>, i: nat)
    requires i <= |ops| < |states|
  {
    i == 0 || RenewsAt(env, states[i - 1], ops[i - 1])
    || (!DropsAt(env, states[i - 1], ops[i - 1]) && NoDropSince(env, states, ops, i - 1))
  }

  lemma ServedExactly(env: Env, db: Db, op: Op, db': Db)
    requires env.Injective() && Sound(env, db) && Covers(db) && Serves(env, db, op, db')
    ensures db'.index == db'.chunks.Keys
            <==> RenewsAt(env, db, op) || (!DropsAt(env, db, op) && db.index == db.chunks.Keys)
  {
    var found :| LooksUp(db, op.source, found) && db' == ServedBy(env, db, op, found);
    ServedIndex(env, db, op, found);
    forall other | LooksUp(db, op.source, other) ensures other == found { OneAnswer(env, db, op.source, other, found); }
  }

  ghost predicate StepExact(env: Env, states: seq<Db>, ops: seq<Op>, i: nat)
    requires i < |ops| < |states|
  {
    states[i + 1].index == states[i + 1].chunks.Keys
    <==> RenewsAt(env, states[i], ops[i])
         || (!DropsAt(env, states[i], ops[i]) && states[i].index == states[i].chunks.Keys)
  }

  lemma {:induction false} ExactSince(env: Env, states: seq<Db>, ops: seq<Op>, i: nat)
    requires i <= |ops| < |states| && states[0] == EMPTY
    requires forall j: nat | j < i :: StepExact(env, states, ops, j)
    ensures states[i].index == states[i].chunks.Keys <==> NoDropSince(env, states, ops, i)
  {
    if i > 0 {
      ExactSince(env, states, ops, i - 1);
      assert StepExact(env, states, ops, i - 1);
    } else {
      assert EMPTY.chunks.Keys == {};
    }
  }

  /** In every state of every fault-free run of one process the index is exact if and only if no update that
      embeds nothing, and no removal of the last rows, has dropped rows since the last rebuild. */
  lemma IndexExactRun(env: Env, states: seq<Db>, ops: seq<Op>, i: nat)
    requires env.Injective() && IsServiceRun(env, states, ops) && i < |states|
    ensures states[i].index == states[i].chunks.Keys <==> NoDropSince(env, states, ops, i)
  {
    forall j: nat | j < i ensures StepExact(env, states, ops, j) {
      IndexCoversRun(env, states, ops, j);
      assert Serves(env, states[j], ops[j], states[j + 1]);
      ServedExactly(env, states[j], ops[j], states[j + 1]);
    }
    ExactSince(env, states, ops, i);
  }

  function PairRows(env: Env, x: string, y: string): map<nat, ChunkRow> {
    map[0 := ChunkRow(0, x, env.hash(x), 0), 1 := ChunkRow(0, y, env.hash(y), 1)]
  }

  lemma PairIsRows(env: Env, x: string, y: string)
    ensures AreRows(env, 0, Indexed([x, y]), 0, 2, PairRows(env, x, y))
  {
  }

  /** The tables after a first ingest of a content with two chunks. */
  lemma PairIngested(env: Env, source: string, a: string, x: string, y: string)
    requires env.chunk(a) == [x, y]
    ensures Finished(env, EMPTY, source, a, None)
         == Db(map[0 := DocRow(source, a, env.hash(a))], PairRows(env, x, y), 1, 2, {0, 1})
  {
    InsertStages(env, EMPTY, source, a, |Plan(env, EMPTY, source, a, None)|);
    PairIsRows(env, x, y);
    RowsApplied(env, Apply(env, EMPTY, InsertDoc(source, a)), 0, Indexed([x, y]), PairRows(env, x, y));
    assert EMPTY.chunks + PairRows(env, x, y) == PairRows(env, x, y);
    assert PairRows(env, x, y).Keys == {0, 1} && 0 in PairRows(env, x, y);
  }

  lemma PairSound(env: Env, source: string, a: string, x: string, y: string)
    requires env.chunk(a) == [x, y]
    ensures Sound(env, Db(map[0 := DocRow(source, a, env.hash(a))], PairRows(env, x, y), 1, 2, {0, 1}))
  {
  }

  /** Of its two rows the second is stale for a content whose one chunk is the first, and nothing is fresh. */
  lemma OneStale(env: Env, db: Db, x: string, y: string)
    requires env.hash(x) != env.hash(y)
    requires db.chunks == PairRows(env, x, y)
    ensures Stale(env, db, 0, [x]) != {} && Fresh(env, [x], Stored(db, 0)) == []
  {
    assert 1 in RowsOf(db, 0) && 0 in RowsOf(db, 0);
    assert 1 in Stale(env, db, 0, [x]);
    assert db.chunks[0].contentHash in Stored(db, 0);
    assert HashesOf(env, [x]) == {env.hash(x)};
    assert forall h :: h !in FreshHashes(env, [x], Stored(db, 0));
  }

  /** A run that leaves the index with the id of a row that is gone: an update that only drops a chunk. */
  lemma StaleIndex(env: Env, source: string, a: string, b: string, x: string, y: string) returns (states: seq<Db>)
    requires env.Injective() && env.chunk(a) == [x, y] && env.chunk(b) == [x] && x != y
    ensures IsServiceRun(env, states, [Ingest(source, a, 3), Ingest(source, b, 3)])
    ensures states[1].index == states[1].chunks.Keys && states[2].index != states[2].chunks.Keys
  {
    PairIngested(env, source, a, x, y);
    PairSound(env, source, a, x, y);
    var first := Finished(env, EMPTY, source, a, None);
    var last := Finished(env, first, source, b, Some(0));
    OneStale(env, first, x, y);
    assert LooksUp(EMPTY, source, None) && LooksUp(first, source, Some(0));
    IngestExactly(env, first, source, b, Some(0));
    states := [EMPTY, first, last];
  }

  /** The row ids after an update: the old ones without the stale ones, and one more for each fresh text. */
  lemma SavedKeys(env: Env, db: Db, d: nat, content: string)
    requires Sound(env, db) && d in db.docs
    ensures var items, db' := Fresh(env, env.chunk(content), Stored(db, d)), Saved(env, db, d, content);
      && db'.nextChunk == db.nextChunk + |items| && db'.index == db.index
      && (forall r :: r in db'.chunks <==>
            (r in db.chunks && r !in Stale(env, db, d, env.chunk(content)))
            || db.nextChunk <= r < db.nextChunk + |items|)
      && (items != [] ==> db.nextChunk in db'.chunks)
  {
    forall r: nat { SavedKey(env, db, d, content, r); }
  }

  lemma SavedKey(env: Env, db: Db, d: nat, content: string, r: nat)
    requires Sound(env, db) && d in db.docs
    ensures var n, db' := |Fresh(env, env.chunk(content), Stored(db, d))|, Saved(env, db, d, content);
      r in db'.chunks
      <==> (r in db.chunks && r !in Stale(env, db, d, env.chunk(content))) || db.nextChunk <= r < db.nextChunk + n
  {
    SavedRow(env, db, d, content, r);
  }

  /** How many of an update's writes have landed at a stage. */
  function WritesAt(env: Env, db: Db, source: string, content: string, d: nat, stage: nat): nat
    requires d in db.docs
  {
    if stage == 2 then |Plan(env, db, source, content, Some(d))| else HashAt(env, db, d, content) + stage
  }

  lemma StageReached(env: Env, db: Db, source: string, content: string, d: nat, stage: nat)
    requires d in db.docs && db.docs[d].contentHash != env.hash(content) && stage <= 2
    requires stage == 2 ==> Fresh(env, env.chunk(content), Stored(db, d)) != []
    ensures var plan, n := Plan(env, db, source, content, Some(d)), WritesAt(env, db, source, content, d, stage);
      && n <= |plan| && After(env, db, plan, n) == Stage(env, db, d, content, stage)
      && (stage == (if Fresh(env, env.chunk(content), Stored(db, d)) == [] then 1 else 2) ==> n == |plan|)
  {
    UpdateStages(env, db, source, content, d, WritesAt(env, db, source, content, d, stage));
  }

  /** rows are the new rows of the first n items, with ids from first on. */
  ghost predicate AreRows(env: Env, d: nat, items: seq<(string, nat)>, first: nat, n: nat, rows: map<nat, ChunkRow>)
    requires n <= |items|
  {
    && (forall r :: r in rows <==> first <= r < first + n)
    && (forall r :: r in rows ==> rows[r] == NewRow(env, d, items, first, r))
  }

  lemma RowsApplied(env: Env, db: Db, d: nat, items: seq<(string, nat)>, rows: map<nat, ChunkRow>)
    requires AreRows(env, d, items, db.nextChunk, |items|, rows)
    ensures Apply(env, db, AddRows(d, items)) == db.(chunks := db.chunks + rows, nextChunk := db.nextChunk + |items|)
  {
    assert Apply(env, db, AddRows(d, items)).chunks == db.chunks + rows;
  }

  /** What becomes of a database call: it may raise before or after it takes effect. */
  datatype Fate = Works | RaisesBefore | RaisesAfter

  datatype Step = Lookup | Chunking | ListOld | DeleteStale | Upsert | Embed | Save | Graph | Rebuild

  datatype Status = Inserted | Updated | Skipped | Failed

  class Database {
    var docs: map<nat, DocRow>
    var chunks: map<nat, ChunkRow>
    var nextDoc: nat
    var nextChunk: nat
    var index: set<nat>

    function State(): Db
      reads this
    {
      Db(docs, chunks, nextDoc, nextChunk, index)
    }

    constructor ()
      ensures State() == EMPTY
    {
      docs, chunks, nextDoc, nextChunk, index := map[], map[], 0, 0, {};
    }

    method GetDocumentBySource(source: string) returns (found: Option<nat>)
      ensures LooksUp(State(), source, found)
    {
      if d :| d in docs && docs[d].source == source {
        return Some(d);
      }
      return None;
    }

    /** Inserts the document row, or updates the one its source has. */
    method UpsertDocument(env: Env, source: string, content: string, fate: Fate)
      returns (ok: bool, docId: nat, ghost found: Option<nat>)
      requires Sound(env, State())
      modifies this
      ensures ok <==> fate == Works
      ensures LooksUp(old(State()), source, found)
      ensures docId == if found.Some? then found.value else old(nextDoc)
      ensures fate == RaisesBefore ==> State() == old(State())
      ensures fate != RaisesBefore ==> State() == Apply(env, old(State()),
                if found.Some? then UpdateDoc(docId, content) else InsertDoc(source, content))
    {
      ok := fate == Works;
      var existing := GetDocumentBySource(source);
      found := existing;
      docId := if existing.Some? then existing.value else nextDoc;
      if fate != RaisesBefore {
        if existing.Some? {
          docs := docs[docId := DocRow(docs[docId].source, content, env.hash(content))];
        } else {
          docs := docs[docId := DocRow(source, content, env.hash(content))];
          nextDoc := nextDoc + 1;
        }
      }
    }

    method DeleteChunksByIds(env: Env, ids: set<nat>, fate: Fate) returns (ok: bool)
      modifies this`chunks
      ensures ok <==> fate == Works
      ensures State() == if fate == RaisesBefore then old(State()) else Apply(env, old(State()), DeleteRows(ids))
    {
      ok := fate == Works;
      if fate != RaisesBefore {
        chunks := chunks - ids;
      }
    }

    /** One insert of all rows; saving nothing makes no call. */
    method SaveChunks(env: Env, docId: nat, items: seq<(string, nat)>, fate: Fate) returns (ok: bool)
      modifies this`chunks, this`nextChunk
      ensures ok <==> items == [] || fate == Works
      ensures State() == if items == [] || fate == RaisesBefore then old(State())
                         else Apply(env, old(State()), AddRows(docId, items))
    {
      if items == [] {
        return true;
      }
      ok := fate == Works;
      var rows := BuildRows(env, docId, items);
      if fate != RaisesBefore {
        RowsApplied(env, State(), docId, items, rows);
        chunks := chunks + rows;
        nextChunk := nextChunk + |items|;
      }
    }

    method BuildRows(env: Env, docId: nat, items: seq<(string, nat)>) returns (rows: map<nat, ChunkRow>)
      ensures AreRows(env, docId, items, nextChunk, |items|, rows)
    {
      rows := map[];
      for i := 0 to |items|
        invariant AreRows(env, docId, items, nextChunk, i, rows)
      {
        var (text, chunkIndex) := items[i];
        rows := rows[nextChunk + i := ChunkRow(docId, text, env.hash(text), chunkIndex)];
      }
    }

    method DeleteDocument(env: Env, docId: nat, chunksFate: Fate, docFate: Fate) returns (ok: bool, ghost n: nat)
      modifies this
      ensures n <= 2 && State() == After(env, old(State()), DeletePlan(old(State()), docId), n)
      ensures ok ==> n == 2
      ensures chunksFate == docFate == Works ==> ok
    {
      ghost var before := State();
      n := 0;
      ok := DeleteChunksByIds(env, RowsOf(State(), docId), chunksFate);
      n := if chunksFate == RaisesBefore then 0 else 1;
      assert After(env, before, DeletePlan(before, docId), 1)
          == Apply(env, After(env, before, DeletePlan(before, docId), 0), DeletePlan(before, docId)[0]);
      if !ok {
        return;
      }
      ok := docFate == Works;
      if docFate != RaisesBefore {
        docs := docs - {docId};
        n := 2;
      }
    }

    method RebuildIndex(fate: Fate)
      modifies this`index
      ensures State() == if fate == RaisesBefore then old(State()) else Reindexed(old(State()))
    {
      if fate != RaisesBefore && chunks != map[] {
        index := chunks.Keys;
      }
    }

    /** Ingests one document; n of the plan's writes land. */
    method IngestDocument(env: Env, source: string, content: string, fate: Step -> Fate)
      returns (status: Status, ghost found: Option<nat>, ghost n: nat)
      requires env.Injective() && Sound(env, State())
      modifies this
      ensures LooksUp(old(State()), source, found)
      ensures var plan := Plan(env, old(State()), source, content, found);
        && n <= |plan| && SameTables(State(), After(env, old(State()), plan, n))
        && (status == Skipped ==> plan == [])
        && (status == Inserted ==> found.None? && n == |plan|)
        && (status == Updated ==> found.Some? && plan != [] && n == |plan|)
      ensures (forall step :: fate(step) == Works) ==>
                status != Failed && State() == Finished(env, old(State()), source, content, found)
      ensures Sound(env, State())
    {
      ghost var before := State();
      n := 0;
      var existing := GetDocumentBySource(source);
      found := existing;
      if fate(Lookup) != Works {
        return Failed, found, n;
      }
      if existing.Some? && docs[existing.value].contentHash == env.hash(content) {
        return Skipped, found, n;
      }
      if fate(Chunking) != Works {
        return Failed, found, n;
      }
      if existing.Some? {
        status, n := UpdateDocument(env, source, content, existing.value, fate);
      } else {
        status, n := InsertDocument(env, source, content, fate);
      }
      IngestSound(env, before, source, content, found, n);
      SoundTables(env, State(), After(env, before, Plan(env, before, source, content, found), n));
    }

    /** The diff against the stored chunks. */
    method UpdateDocument(env: Env, source: string, content: string, docId: nat, fate: Step -> Fate)
      returns (status: Status, ghost n: nat)
      requires env.Injective() && Sound(env, State()) && LooksUp(State(), source, Some(docId))
      requires docs[docId].contentHash != env.hash(content)
      modifies this
      ensures var plan := Plan(env, old(State()), source, content, Some(docId));
        && n <= |plan| && SameTables(State(), After(env, old(State()), plan, n))
        && ((status == Updated && n == |plan|) || status == Failed)
      ensures (forall step :: fate(step) == Works) ==>
                status == Updated && State() == Finished(env, old(State()), source, content, Some(docId))
    {
      ghost var before := State();
      status, n := Failed, 0;
      UpdateStages(env, before, source, content, docId, 0);
      if fate(ListOld) != Works {
        return;
      }
      var texts := env.chunk(content);
      var staleIds := Stale(env, State(), docId, texts);
      var chunksToEmbed := Fresh(env, texts, Stored(State(), docId));
      if staleIds != {} {
        var ok := DeleteChunksByIds(env, staleIds, fate(DeleteStale));
        if fate(DeleteStale) == RaisesBefore {
          return;
        }
        n := 1;
        UpdateStages(env, before, source, content, docId, 1);
        if !ok {
          return;
        }
      }
      ghost var stage;
      status, stage := UpdateRest(env, source, content, docId, chunksToEmbed, fate, before);
      n := WritesAt(env, before, source, content, docId, stage);
      StageReached(env, before, source, content, docId, stage);
    }

    /** From the document update on: stage tells how far it got. */
    method UpdateRest(env: Env, source: string, content: string, docId: nat, chunksToEmbed: seq<(string, nat)>,
                      fate: Step -> Fate, ghost before: Db)
      returns (status: Status, ghost stage: nat)
      requires env.Injective() && Sound(env, before) && LooksUp(before, source, Some(docId))
      requires State() == Cleared(env, before, docId, content)
      requires chunksToEmbed == Fresh(env, env.chunk(content), Stored(before, docId))
      modifies this
      ensures stage <= 2 && (stage == 2 ==> chunksToEmbed != [])
      ensures SameTables(State(), Stage(env, before, docId, content, stage))
      ensures status == Failed || (status == Updated && stage == if chunksToEmbed == [] then 1 else 2)
      ensures (forall step :: fate(step) == Works) ==> (
                && status == Updated
                && State() == if chunksToEmbed == [] then Stage(env, before, docId, content, 1)
                              else Reindexed(Stage(env, before, docId, content, 2)))
    {
      SavedSound(env, before, docId, content);
      status, stage := Failed, 0;
      var ok, _, found := UpsertDocument(env, source, content, fate(Upsert));
      assert found == Some(docId);
      if fate(Upsert) == RaisesBefore {
        return;
      }
      stage := 1;
      if !ok {
        return;
      }
      if chunksToEmbed == [] {
        return Updated, stage;
      }
      if fate(Embed) != Works {
        return;
      }
      ok := SaveChunks(env, docId, chunksToEmbed, fate(Save));
      if fate(Save) == RaisesBefore {
        return;
      }
      stage := 2;
      if !ok || fate(Graph) != Works {
        return;
      }
      RebuildIndex(fate(Rebuild));
      status := Updated;
    }

    method InsertDocument(env: Env, source: string, content: string, fate: Step -> Fate)
      returns (status: Status, ghost n: nat)
      requires env.Injective() && Sound(env, State()) && LooksUp(State(), source, None)
      modifies this
      ensures var plan := Plan(env, old(State()), source, content, None);
        && n <= |plan| && SameTables(State(), After(env, old(State()), plan, n))
        && ((status == Inserted && n == |plan|) || status == Failed)
      ensures (forall step :: fate(step) == Works) ==>
                status == Inserted && State() == Finished(env, old(State()), source, content, None)
    {
      ghost var before := State();
      ghost var plan := Plan(env, before, source, content, None);
      status, n := Failed, 0;
      forall m: nat | m <= |plan| { InsertStages(env, before, source, content, m); }
      var ok, docId, created := UpsertDocument(env, source, content, fate(Upsert));
      assert created == None;
      n := if fate(Upsert) == RaisesBefore then 0 else 1;
      if !ok || fate(Embed) != Works {
        return;
      }
      var items := Indexed(env.chunk(content));
      ok := SaveChunks(env, docId, items, fate(Save));
      n := if items == [] || fate(Save) == RaisesBefore then 1 else 2;
      if !ok || fate(Graph) != Works {
        return;
      }
      RebuildIndex(fate(Rebuild));
      status := Inserted;
    }
  }
}
