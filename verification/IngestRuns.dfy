/** Ingest and delete operations over whole runs, with a fault possible at every write. */
module IngestRuns {
  import opened Text
  import opened Ingest

  /** The row r, if it is one of document e. */
  function RowAt(db: Db, e: nat, r: nat): Option<ChunkRow> {
    if r in db.chunks && db.chunks[r].docId == e then Some(db.chunks[r]) else None
  }

  /** Document e has the same row, and the same chunk rows, in both. */
  ghost predicate Untouched(db: Db, db': Db, e: nat) {
    && e in db.docs && e in db'.docs && db'.docs[e] == db.docs[e]
    && forall r :: RowAt(db', e, r) == RowAt(db, e, r)
  }

  lemma UntouchedHas(db: Db, db': Db, e: nat, text: string)
    requires Untouched(db, db', e) && HasRow(db, e, text)
    ensures HasRow(db', e, text)
  {
    var r :| r in db.chunks && db.chunks[r].docId == e && db.chunks[r].content == text;
    assert RowAt(db', e, r) == RowAt(db, e, r);
  }

  lemma UntouchedComplete(env: Env, db: Db, db': Db, e: nat)
    requires Untouched(db, db', e)
    ensures CompleteDoc(env, db', e) <==> CompleteDoc(env, db, e)
  {
    forall text ensures HasRow(db', e, text) <==> HasRow(db, e, text) {
      if HasRow(db, e, text) { UntouchedHas(db, db', e, text); }
      if HasRow(db', e, text) { UntouchedHas(db', db, e, text); }
    }
  }

  /** An update leaves every other document as it is. */
  lemma OthersKept(env: Env, db: Db, d: nat, content: string, e: nat)
    requires Sound(env, db) && d in db.docs && e in db.docs && e != d
    ensures Untouched(db, Cleared(env, db, d, content), e)
    ensures Untouched(db, Updated(env, db, d, content), e)
    ensures Untouched(db, Saved(env, db, d, content), e)
  {
    forall r: nat ensures RowAt(Saved(env, db, d, content), e, r) == RowAt(db, e, r) {
      SavedRow(env, db, d, content, r);
    }
  }

  lemma OthersComplete(env: Env, db: Db, d: nat, content: string, e: nat)
    requires Sound(env, db) && d in db.docs && e in db.docs && e != d
    ensures CompleteDoc(env, Saved(env, db, d, content), e) <==> CompleteDoc(env, db, e)
  {
    OthersKept(env, db, d, content, e);
    UntouchedComplete(env, db, Saved(env, db, d, content), e);
  }

  /** Deleting stale rows leaves the old content incomplete. */
  lemma ClearedIncomplete(env: Env, db: Db, d: nat, content: string)
    requires env.Injective() && Sound(env, db) && d in db.docs && Stale(env, db, d, env.chunk(content)) != {}
    ensures !CompleteDoc(env, Cleared(env, db, d, content), d)
  {
    var stale, db' := Stale(env, db, d, env.chunk(content)), Cleared(env, db, d, content);
    var s :| s in stale;
    var text := db.chunks[s].content;
    assert Belongs(env, db, db.chunks[s]) && text in env.chunk(db'.docs[d].content);
    forall r | r in db'.chunks && db'.chunks[r].docId == d ensures db'.chunks[r].content != text {
      assert Belongs(env, db, db.chunks[r]) && r in RowsOf(db, d) && r !in stale;
    }
    assert !HasRow(db', d, text);
  }

  /** Storing the new hash while chunks are still to be saved leaves the new content incomplete. */
  lemma UpdatedIncomplete(env: Env, db: Db, d: nat, content: string)
    requires env.Injective() && Sound(env, db) && d in db.docs
    requires Fresh(env, env.chunk(content), Stored(db, d)) != []
    ensures !CompleteDoc(env, Updated(env, db, d, content), d)
  {
    var db', text := Updated(env, db, d, content), Fresh(env, env.chunk(content), Stored(db, d))[0].0;
    FreshOnce(env, env.chunk(content), Stored(db, d));
    forall r | r in db'.chunks && db'.chunks[r].docId == d ensures db'.chunks[r].content != text {
      assert Belongs(env, db, db.chunks[r]) && r in RowsOf(db, d);
      assert db.chunks[r].contentHash in Stored(db, d);
    }
    assert !HasRow(db', d, text);
  }

  lemma InsertedIncomplete(env: Env, db: Db, source: string, content: string)
    requires Sound(env, db) && env.chunk(content) != []
    ensures !CompleteDoc(env, Apply(env, db, InsertDoc(source, content)), db.nextDoc)
  {
    var db', text := Apply(env, db, InsertDoc(source, content)), env.chunk(content)[0];
    forall r | r in db'.chunks ensures db'.chunks[r].docId != db.nextDoc { assert Belongs(env, db, db.chunks[r]); }
    assert !HasRow(db', db.nextDoc, text);
  }

  lemma InsertOthersKept(env: Env, db: Db, source: string, content: string, e: nat)
    requires Sound(env, db) && e in db.docs
    ensures var db1 := Apply(env, db, InsertDoc(source, content));
            var db2 := Apply(env, db1, AddRows(db.nextDoc, Indexed(env.chunk(content))));
      Untouched(db, db1, e) && Untouched(db, db2, e)
  {
    var db1 := Apply(env, db, InsertDoc(source, content));
    var db2 := Apply(env, db1, AddRows(db.nextDoc, Indexed(env.chunk(content))));
    forall r: nat ensures RowAt(db2, e, r) == RowAt(db, e, r) {}
  }

  /** Starting from complete tables, an ingest of which only n writes land leaves them complete exactly when
      none of its writes landed or all of them did. */
  lemma CompleteExactly(env: Env, db: Db, source: string, content: string, found: Option<nat>, n: nat)
    requires env.Injective() && Sound(env, db) && Complete(env, db) && LooksUp(db, source, found)
    requires n <= |Plan(env, db, source, content, found)|
    ensures Complete(env, After(env, db, Plan(env, db, source, content, found), n))
            <==> n == 0 || n == |Plan(env, db, source, content, found)|
  {
    var plan := Plan(env, db, source, content, found);
    var db' := After(env, db, plan, n);
    match found
    case None =>
      InsertStages(env, db, source, content, n);
      InsertedComplete(env, db, source, content);
      forall e | e in db.docs ensures e in db'.docs && (n >= 1 ==> CompleteDoc(env, db', e)) {
        if n >= 1 {
          InsertOthersKept(env, db, source, content, e);
          UntouchedComplete(env, db, db', e);
        }
      }
      if 0 < n < |plan| {
        InsertedIncomplete(env, db, source, content);
        assert db.nextDoc in db'.docs;
      }
    case Some(d) =>
      if plan != [] { UpdateCompleteExactly(env, db, source, content, d, n); }
  }

  lemma UpdateCompleteExactly(env: Env, db: Db, source: string, content: string, d: nat, n: nat)
    requires env.Injective() && Sound(env, db) && Complete(env, db) && d in db.docs
    requires db.docs[d].contentHash != env.hash(content) && n <= |Plan(env, db, source, content, Some(d))|
    ensures Complete(env, After(env, db, Plan(env, db, source, content, Some(d)), n))
            <==> n == 0 || n == |Plan(env, db, source, content, Some(d))|
  {
    var plan := Plan(env, db, source, content, Some(d));
    var db' := After(env, db, plan, n);
    UpdateStages(env, db, source, content, d, n);
    SavedComplete(env, db, d, content);
    if n == |plan| {
      forall e | e in db'.docs ensures CompleteDoc(env, db', e) {
        if e != d { OthersComplete(env, db, d, content, e); }
      }
    } else if n > 0 {
      assert d in db'.docs;
      if n == HashAt(env, db, d, content) {
        ClearedIncomplete(env, db, d, content);
      } else {
        UpdatedIncomplete(env, db, d, content);
      }
    }
  }

  /** The hash of the new content is in the document row of the source. */
  ghost predicate HashStored(env: Env, db: Db, source: string, content: string) {
    exists d :: d in db.docs && db.docs[d].source == source && db.docs[d].contentHash == env.hash(content)
  }

  ghost predicate SourceComplete(env: Env, db: Db, source: string) {
    exists d :: d in db.docs && db.docs[d].source == source && CompleteDoc(env, db, d)
  }

  /** Whatever state the tables are in, an ingest that is not skipped and runs to its end leaves its document
      complete. */
  lemma FinishedComplete(env: Env, db: Db, source: string, content: string, found: Option<nat>)
    requires env.Injective() && Sound(env, db) && LooksUp(db, source, found)
    requires !HashStored(env, db, source, content)
    ensures var db' := Done(env, db, Plan(env, db, source, content, found));
      SourceComplete(env, db', source) && HashStored(env, db', source, content)
  {
    var plan := Plan(env, db, source, content, found);
    match found
    case None =>
      InsertStages(env, db, source, content, |plan|);
      InsertFinishes(env, db, source, content);
    case Some(d) =>
      UpdateStages(env, db, source, content, d, |plan|);
      UpdateFinishes(env, db, source, content, d);
  }

  lemma InsertFinishes(env: Env, db: Db, source: string, content: string)
    ensures var db1 := Apply(env, db, InsertDoc(source, content));
            var db2 := Apply(env, db1, AddRows(db.nextDoc, Indexed(env.chunk(content))));
      SourceComplete(env, db2, source) && HashStored(env, db2, source, content)
  {
    var db1 := Apply(env, db, InsertDoc(source, content));
    var db2 := Apply(env, db1, AddRows(db.nextDoc, Indexed(env.chunk(content))));
    InsertedComplete(env, db, source, content);
    assert db2.docs[db.nextDoc] == DocRow(source, content, env.hash(content));
  }

  lemma UpdateFinishes(env: Env, db: Db, source: string, content: string, d: nat)
    requires env.Injective() && Sound(env, db) && LooksUp(db, source, Some(d))
    ensures var db' := Saved(env, db, d, content);
      SourceComplete(env, db', source) && HashStored(env, db', source, content)
  {
    SavedComplete(env, db, d, content);
    assert Saved(env, db, d, content).docs[d] == DocRow(source, content, env.hash(content));
  }

  /** Retrying an interrupted ingest with the same content repairs it exactly when the fault came before the
      hash write, or when there was nothing left to write. */
  lemma RetryExactly(env: Env, db: Db, source: string, content: string, found: Option<nat>, n: nat, again: Option<nat>)
    requires env.Injective() && Sound(env, db) && LooksUp(db, source, found) && !HashStored(env, db, source, content)
    requires n <= |Plan(env, db, source, content, found)|
    requires LooksUp(After(env, db, Plan(env, db, source, content, found), n), source, again)
    ensures var plan := Plan(env, db, source, content, found);
            var db1 := After(env, db, plan, n);
            var db2 := Done(env, db1, Plan(env, db1, source, content, again));
      SourceComplete(env, db2, source) <==> n == |plan| || !HashStored(env, db1, source, content)
  {
    var plan := Plan(env, db, source, content, found);
    var db1 := After(env, db, plan, n);
    IngestSound(env, db, source, content, found, n);
    if !HashStored(env, db1, source, content) {
      FinishedComplete(env, db1, source, content, again);
    } else {
      var d := again.value;
      assert Plan(env, db1, source, content, again) == [];
      if n == |plan| {
        FinishedComplete(env, db, source, content, found);
      } else {
        StuckIncomplete(env, db, source, content, found, n, d);
      }
    }
  }

  lemma StuckIncomplete(env: Env, db: Db, source: string, content: string, found: Option<nat>, n: nat, d: nat)
    requires env.Injective() && Sound(env, db) && LooksUp(db, source, found) && !HashStored(env, db, source, content)
    requires n < |Plan(env, db, source, content, found)|
    requires LooksUp(After(env, db, Plan(env, db, source, content, found), n), source, Some(d))
    requires HashStored(env, After(env, db, Plan(env, db, source, content, found), n), source, content)
    ensures !SourceComplete(env, After(env, db, Plan(env, db, source, content, found), n), source)
  {
    var db1 := After(env, db, Plan(env, db, source, content, found), n);
    IngestSound(env, db, source, content, found, n);
    match found
    case None =>
      InsertStages(env, db, source, content, n);
      InsertedIncomplete(env, db, source, content);
      assert n == 1 && db1.docs[db.nextDoc].source == source;
    case Some(e) =>
      UpdateStages(env, db, source, content, e, n);
      assert db1.docs[e].source == source;
      if n == HashAt(env, db, e, content) + 1 {
        UpdatedIncomplete(env, db, e, content);
      }
  }

  // ---- The diff.

  /** A finished update keeps exactly the rows of other documents and the rows whose text survives, unchanged. */
  lemma DiffKeeps(env: Env, db: Db, source: string, content: string, d: nat, r: nat)
    requires env.Injective() && Sound(env, db) && d in db.docs && db.docs[d].contentHash != env.hash(content)
    requires r in db.chunks
    ensures var db', row := Done(env, db, Plan(env, db, source, content, Some(d))), db.chunks[r];
      && (r in db'.chunks <==> row.docId != d || row.content in env.chunk(content))
      && (r in db'.chunks ==> db'.chunks[r] == row)
  {
    UpdateStages(env, db, source, content, d, |Plan(env, db, source, content, Some(d))|);
    SavedRow(env, db, d, content, r);
    assert Belongs(env, db, db.chunks[r]);
  }

  /** r is a row of db' that db did not have. */
  predicate IsNew(db: Db, db': Db, r: nat) {
    r in db'.chunks && r !in db.chunks
  }

  /** It adds one row for each new text that was not stored, with that text's last index, and no other row. */
  lemma DiffAdds(env: Env, db: Db, source: string, content: string, d: nat)
    requires env.Injective() && Sound(env, db) && d in db.docs && db.docs[d].contentHash != env.hash(content)
    ensures var db', texts := Done(env, db, Plan(env, db, source, content, Some(d))), env.chunk(content);
      && (forall r :: IsNew(db, db', r) ==> AddedRow(db, d, texts, db'.chunks[r]))
      && (forall r, q :: IsNew(db, db', r) && IsNew(db, db', q) && r != q ==>
            db'.chunks[r].content != db'.chunks[q].content)
      && (forall t :: t in texts && !HasRow(db, d, t) ==> AddsRow(db, db', t))
  {
    UpdateStages(env, db, source, content, d, |Plan(env, db, source, content, Some(d))|);
    var db', texts := Saved(env, db, d, content), env.chunk(content);
    forall r | IsNew(db, db', r) ensures AddedRow(db, d, texts, db'.chunks[r]) {
      AddedIsFresh(env, db, d, content, r);
    }
    forall r, q | IsNew(db, db', r) && IsNew(db, db', q) && r != q
      ensures db'.chunks[r].content != db'.chunks[q].content
    {
      AddedTwice(env, db, d, content, r, q);
    }
    forall t | t in texts && !HasRow(db, d, t) ensures AddsRow(db, db', t) { AddedFor(env, db, d, content, t); }
  }

  ghost predicate AddsRow(db: Db, db': Db, text: string) {
    exists r :: IsNew(db, db', r) && db'.chunks[r].content == text
  }

  lemma AddedTwice(env: Env, db: Db, d: nat, content: string, r: nat, q: nat)
    requires env.Injective() && Sound(env, db) && d in db.docs && r != q
    requires IsNew(db, Saved(env, db, d, content), r) && IsNew(db, Saved(env, db, d, content), q)
    ensures Saved(env, db, d, content).chunks[r].content != Saved(env, db, d, content).chunks[q].content
  {
    FreshOnce(env, env.chunk(content), Stored(db, d));
    SavedRow(env, db, d, content, r);
    SavedRow(env, db, d, content, q);
  }

  lemma AddedFor(env: Env, db: Db, d: nat, content: string, text: string)
    requires env.Injective() && Sound(env, db) && d in db.docs && text in env.chunk(content) && !HasRow(db, d, text)
    ensures AddsRow(db, Saved(env, db, d, content), text)
  {
    var items := Fresh(env, env.chunk(content), Stored(db, d));
    StoredHas(env, db, d, text);
    FreshCovers(env, env.chunk(content), Stored(db, d), text);
    var i :| 0 <= i < |items| && items[i].0 == text;
    SavedNew(env, db, d, content, items, i);
    assert IsNew(db, Saved(env, db, d, content), db.nextChunk + i);
  }

  ghost predicate AddedRow(db: Db, d: nat, texts: seq<string>, row: ChunkRow) {
    && row.docId == d && !HasRow(db, d, row.content)
    && row.chunkIndex < |texts| && texts[row.chunkIndex] == row.content
    && forall m :: row.chunkIndex < m < |texts| ==> texts[m] != row.content
  }

  lemma AddedIsFresh(env: Env, db: Db, d: nat, content: string, r: nat)
    requires env.Injective() && Sound(env, db) && d in db.docs && IsNew(db, Saved(env, db, d, content), r)
    ensures AddedRow(db, d, env.chunk(content), Saved(env, db, d, content).chunks[r])
  {
    FreshOnce(env, env.chunk(content), Stored(db, d));
    SavedRow(env, db, d, content, r);
    StoredHas(env, db, d, Saved(env, db, d, content).chunks[r].content);
  }

  /** Of a document's rows, having the text and having its hash are the same. */
  lemma StoredHas(env: Env, db: Db, d: nat, text: string)
    requires env.Injective() && Sound(env, db)
    ensures env.hash(text) in Stored(db, d) <==> HasRow(db, d, text)
  {
    if env.hash(text) in Stored(db, d) {
      var r :| r in RowsOf(db, d) && db.chunks[r].contentHash == env.hash(text);
      assert Belongs(env, db, db.chunks[r]);
    }
    if HasRow(db, d, text) {
      var r :| r in db.chunks && db.chunks[r].docId == d && db.chunks[r].content == text;
      assert Belongs(env, db, db.chunks[r]) && r in RowsOf(db, d);
    }
  }

  /** An insert stores every chunk at its own index, repeated texts included; an update stores each text once. */
  lemma InsertStoresAll(env: Env, db: Db, source: string, content: string, i: nat)
    requires i < |env.chunk(content)|
    ensures var db', r := Done(env, db, Plan(env, db, source, content, None)), db.nextChunk + i;
      && r in db'.chunks && db'.chunks[r].docId == db.nextDoc
      && db'.chunks[r].content == env.chunk(content)[i] && db'.chunks[r].chunkIndex == i
  {
    var items, db1 := Indexed(env.chunk(content)), Apply(env, db, InsertDoc(source, content));
    InsertStages(env, db, source, content, |Plan(env, db, source, content, None)|);
    AddedAt(env, db1, db.nextDoc, items, i);
  }

  // ---- Whole runs.

  /** An ingest or a removal of which at most n writes land. */
  datatype Op = Ingest(source: string, content: string, n: nat) | Remove(source: string, n: nat)

  predicate SameTables(a: Db, b: Db) {
    a.docs == b.docs && a.chunks == b.chunks && a.nextDoc == b.nextDoc && a.nextChunk == b.nextChunk
  }

  function Landed(env: Env, db: Db, plan: seq<Write>, n: nat): Db {
    After(env, db, plan, if n < |plan| then n else |plan|)
  }

  function PlanOf(env: Env, db: Db, op: Op, found: Option<nat>): seq<Write>
    requires found.Some? ==> found.value in db.docs
  {
    match op
    case Ingest(source, content, _) => Plan(env, db, source, content, found)
    case Remove(_, _) => if found.Some? then DeletePlan(db, found.value) else []
  }

  ghost predicate StepTo(env: Env, db: Db, op: Op, db': Db) {
    exists found :: LooksUp(db, op.source, found) && SameTables(db', Landed(env, db, PlanOf(env, db, op, found), op.n))
  }

  ghost predicate IsRun(env: Env, states: seq<Db>, ops: seq<Op>) {
    && |states| == |ops| + 1 && SameTables(states[0], EMPTY)
    && forall i :: 0 <= i < |ops| ==> StepTo(env, states[i], ops[i], states[i + 1])
  }

  lemma SoundTables(env: Env, a: Db, b: Db)
    requires SameTables(a, b) && Sound(env, b)
    ensures Sound(env, a)
  {
    assert forall r :: r in b.chunks ==> Belongs(env, b, b.chunks[r]);
    assert forall r :: r in a.chunks ==> Belongs(env, a, a.chunks[r]);
  }

  lemma StepSound(env: Env, db: Db, op: Op, db': Db)
    requires env.Injective() && Sound(env, db) && StepTo(env, db, op, db')
    ensures Sound(env, db')
  {
    var found :| LooksUp(db, op.source, found) && SameTables(db', Landed(env, db, PlanOf(env, db, op, found), op.n));
    var plan := PlanOf(env, db, op, found);
    var n := if op.n < |plan| then op.n else |plan|;
    match op {
      case Ingest(source, content, _) => IngestSound(env, db, source, content, found, n);
      case Remove(_, _) => if found.Some? { DeleteSound(env, db, found.value, n); }
    }
    SoundTables(env, db', After(env, db, plan, n));
  }

  /** No orphans: in every state of every run, faults included, every chunk row belongs to the chunking of the
      content whose hash its document row holds. */
  lemma {:induction false} NoOrphans(env: Env, states: seq<Db>, ops: seq<Op>, i: nat)
    requires env.Injective() && IsRun(env, states, ops) && i < |states|
    ensures Sound(env, states[i])
  {
    if i > 0 {
      NoOrphans(env, states, ops, i - 1);
      StepSound(env, states[i - 1], ops[i - 1], states[i]);
    }
  }

  /** The content each source was last ingested with and not removed since. */
  function Expected(ops: seq<Op>): map<string, string> {
    if ops == [] then map[]
    else
      var before := Expected(ops[..|ops| - 1]);
      match ops[|ops| - 1]
      case Ingest(source, content, _) => before[source := content]
      case Remove(source, _) => before - {source}
  }

  /** The tables hold the expected contents, chunked completely. */
  ghost predicate Holds(env: Env, db: Db, expected: map<string, string>) {
    Sound(env, db) && Complete(env, db) && Expects(db.docs, expected)
  }

  /** There is a document row for each expected source, and no other, and it has the expected content. */
  ghost predicate Expects(docs: map<nat, DocRow>, expected: map<string, string>) {
    && (forall d :: d in docs ==> docs[d].source in expected && docs[d].content == expected[docs[d].source])
    && (forall source :: source in expected ==> HasSource(docs, source))
  }

  ghost predicate HasSource(docs: map<nat, DocRow>, source: string) {
    exists d :: d in docs && docs[d].source == source
  }

  /** Operations all of whose writes land. */
  ghost predicate NoFaults(ops: seq<Op>) {
    forall i :: 0 <= i < |ops| ==> ops[i].n >= 3
  }

  lemma StepHolds(env: Env, db: Db, op: Op, db': Db, expected: map<string, string>)
    requires env.Injective() && Holds(env, db, expected) && StepTo(env, db, op, db') && op.n >= 3
    ensures Holds(env, db', match op case Ingest(s, c, _) => expected[s := c] case Remove(s, _) => expected - {s})
  {
    var found :| LooksUp(db, op.source, found) && SameTables(db', Landed(env, db, PlanOf(env, db, op, found), op.n));
    StepSound(env, db, op, db');
    match op {
      case Ingest(source, content, _) => IngestHolds(env, db, source, content, found, db', expected);
      case Remove(source, _) =>
        if found.Some? { RemoveHolds(env, db, source, found.value, db', expected); }
        else { NothingRemoved(env, db, db', source, expected); }
    }
  }

  lemma NothingRemoved(env: Env, db: Db, db': Db, source: string, expected: map<string, string>)
    requires Holds(env, db, expected) && LooksUp(db, source, None) && SameTables(db', db) && Sound(env, db')
    ensures Holds(env, db', expected - {source})
  {
    CompleteTables(env, db', db);
    assert source !in expected;
  }

  lemma CompleteTables(env: Env, a: Db, b: Db)
    requires SameTables(a, b) && Complete(env, b)
    ensures Complete(env, a)
  {
    forall d | d in a.docs ensures CompleteDoc(env, a, d) { UntouchedComplete(env, b, a, d); }
  }

  lemma IngestHolds(env: Env, db: Db, source: string, content: string, found: Option<nat>, db': Db,
                    expected: map<string, string>)
    requires env.Injective() && Holds(env, db, expected) && LooksUp(db, source, found) && Sound(env, db')
    requires SameTables(db', Done(env, db, Plan(env, db, source, content, found)))
    ensures Holds(env, db', expected[source := content])
  {
    var plan := Plan(env, db, source, content, found);
    CompleteExactly(env, db, source, content, found, |plan|);
    CompleteTables(env, db', Done(env, db, plan));
    DocsAfterIngest(env, db, source, content, found);
    IngestExpects(db.docs, db'.docs, source, content, expected);
  }

  /** docs' is docs with the rows of source, of which there is one, holding content. */
  ghost predicate Replaced(docs: map<nat, DocRow>, docs': map<nat, DocRow>, source: string, content: string) {
    && HasSource(docs', source)
    && (forall d :: d in docs && docs[d].source != source ==> d in docs' && docs'[d] == docs[d])
    && (forall d :: d in docs' ==>
          if docs'[d].source == source then docs'[d].content == content else d in docs && docs'[d] == docs[d])
  }

  lemma IngestExpects(docs: map<nat, DocRow>, docs': map<nat, DocRow>, source: string, content: string,
                      expected: map<string, string>)
    requires Expects(docs, expected) && Replaced(docs, docs', source, content)
    ensures Expects(docs', expected[source := content])
  {
    forall s | s in expected && s != source ensures HasSource(docs', s) {
      var d :| d in docs && docs[d].source == s;
      assert d in docs' && docs'[d].source == s;
    }
  }

  /** A finished ingest changes the row of its source only, and leaves it holding the content. */
  lemma DocsAfterIngest(env: Env, db: Db, source: string, content: string, found: Option<nat>)
    requires env.Injective() && Sound(env, db) && LooksUp(db, source, found)
    ensures Replaced(db.docs, Done(env, db, Plan(env, db, source, content, found)).docs, source, content)
  {
    var plan := Plan(env, db, source, content, found);
    match found
    case None =>
      InsertStages(env, db, source, content, |plan|);
      InsertReplaces(env, db, source, content);
    case Some(d) =>
      if plan != [] { UpdateStages(env, db, source, content, d, |plan|); }
      UpdateReplaces(env, db, source, content, d);
  }

  lemma InsertReplaces(env: Env, db: Db, source: string, content: string)
    requires Sound(env, db) && LooksUp(db, source, None)
    ensures Replaced(db.docs, Apply(env, db, InsertDoc(source, content)).docs, source, content)
  {
    assert Apply(env, db, InsertDoc(source, content)).docs[db.nextDoc].source == source;
  }

  lemma UpdateReplaces(env: Env, db: Db, source: string, content: string, d: nat)
    requires env.Injective() && Sound(env, db) && LooksUp(db, source, Some(d))
    ensures Replaced(db.docs, Updated(env, db, d, content).docs, source, content)
    ensures db.docs[d].contentHash == env.hash(content) ==> Replaced(db.docs, db.docs, source, content)
  {
    assert Updated(env, db, d, content).docs[d].source == source;
  }

  lemma RemoveHolds(env: Env, db: Db, source: string, d: nat, db': Db, expected: map<string, string>)
    requires env.Injective() && Holds(env, db, expected) && LooksUp(db, source, Some(d)) && Sound(env, db')
    requires SameTables(db', Done(env, db, DeletePlan(db, d)))
    ensures Holds(env, db', expected - {source})
  {
    DeleteDone(env, db, d);
    RemoveComplete(env, db, db', d);
    RemoveExpects(db.docs, source, d, expected);
  }

  lemma RemoveComplete(env: Env, db: Db, db': Db, d: nat)
    requires Complete(env, db) && db'.docs == db.docs - {d} && db'.chunks == db.chunks - RowsOf(db, d)
    ensures Complete(env, db')
  {
    forall e | e in db'.docs ensures CompleteDoc(env, db', e) {
      forall r: nat ensures RowAt(db', e, r) == RowAt(db, e, r) {}
      UntouchedComplete(env, db, db', e);
    }
  }

  lemma RemoveExpects(docs: map<nat, DocRow>, source: string, d: nat, expected: map<string, string>)
    requires Expects(docs, expected) && d in docs && docs[d].source == source
    requires forall e :: e in docs && docs[e].source == source ==> e == d
    ensures Expects(docs - {d}, expected - {source})
  {
    forall s | s in expected && s != source ensures HasSource(docs - {d}, s) {
      var e :| e in docs && docs[e].source == s;
      assert e in docs - {d};
    }
  }

  lemma DeleteDone(env: Env, db: Db, d: nat)
    ensures Done(env, db, DeletePlan(db, d)) == db.(docs := db.docs - {d}, chunks := db.chunks - RowsOf(db, d))
  {
    var plan := DeletePlan(db, d);
    assert After(env, db, plan, 1) == Apply(env, After(env, db, plan, 0), plan[0]);
    assert After(env, db, plan, 2) == Apply(env, After(env, db, plan, 1), plan[1]);
  }

  /** The stored hashes depend on the last content only: after any fault-free run each source holds exactly
      the chunk hashes of the content it was last ingested with, as after a single fresh ingest of it. */
  lemma {:induction false} HistoryIndependent(env: Env, states: seq<Db>, ops: seq<Op>)
    requires env.Injective() && IsRun(env, states, ops) && NoFaults(ops)
    ensures var db, expected := states[|ops|], Expected(ops);
      && Holds(env, db, expected)
      && forall d :: d in db.docs ==> Stored(db, d) == HashesOf(env, env.chunk(expected[db.docs[d].source]))
    decreases |ops|
  {
    if ops != [] {
      var m := |ops| - 1;
      var fewer, earlier := ops[..m], states[..m + 1];
      forall i | 0 <= i < m ensures StepTo(env, earlier[i], fewer[i], earlier[i + 1]) {
        assert StepTo(env, states[i], ops[i], states[i + 1]);
      }
      HistoryIndependent(env, earlier, fewer);
      assert StepTo(env, states[m], ops[m], states[m + 1]);
      StepHolds(env, states[m], ops[m], states[m + 1], Expected(fewer));
    }
    forall d | d in states[|ops|].docs
      ensures Stored(states[|ops|], d) == HashesOf(env, env.chunk(states[|ops|].docs[d].content))
    {
      StoredExactly(env, states[|ops|], d);
    }
  }

  lemma StoredExactly(env: Env, db: Db, d: nat)
    requires env.Injective() && Sound(env, db) && d in db.docs && CompleteDoc(env, db, d)
    ensures Stored(db, d) == HashesOf(env, env.chunk(db.docs[d].content))
  {
    var texts := env.chunk(db.docs[d].content);
    forall h | h in Stored(db, d) ensures h in HashesOf(env, texts) {
      var r :| r in RowsOf(db, d) && db.chunks[r].contentHash == h;
      assert Belongs(env, db, db.chunks[r]);
    }
    forall t | t in texts ensures env.hash(t) in Stored(db, d) { StoredHas(env, db, d, t); }
  }
}
