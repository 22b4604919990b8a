/** Chunk-level diff ingestion as the writes it makes to the document and chunk tables, in order. */
module Ingest {
  import opened Text

  /** The chunker and the content hash. */
  datatype Env = Env(chunk: string -> seq<string>, hash: string -> int)
  {
    /** Different texts have different hashes. */
    ghost predicate Injective() {
      forall a, b :: hash(a) == hash(b) ==> a == b
    }
  }

  datatype DocRow = DocRow(source: string, content: string, contentHash: int)

  datatype ChunkRow = ChunkRow(docId: nat, content: string, contentHash: int, chunkIndex: nat)

  /** The two tables by row id, the next unused ids, and the chunk ids in the keyword index. */
  datatype Db = Db(docs: map<nat, DocRow>, chunks: map<nat, ChunkRow>, nextDoc: nat, nextChunk: nat, index: set<nat>)

  const EMPTY := Db(map[], map[], 0, 0, {})

  datatype Write =
    | InsertDoc(source: string, content: string)
    | UpdateDoc(docId: nat, content: string)
    | DeleteDoc(docId: nat)
    | DeleteRows(rows: set<nat>)
    | AddRows(docId: nat, items: seq<(string, nat)>)

  function Apply(env: Env, db: Db, w: Write): Db {
    match w
    case InsertDoc(source, content) =>
      db.(docs := db.docs[db.nextDoc := DocRow(source, content, env.hash(content))], nextDoc := db.nextDoc + 1)
    case UpdateDoc(d, content) =>
      if d in db.docs then db.(docs := db.docs[d := DocRow(db.docs[d].source, content, env.hash(content))]) else db
    case DeleteDoc(d) => db.(docs := db.docs - {d})
    case DeleteRows(rows) => db.(chunks := db.chunks - rows)
    case AddRows(d, items) =>
      var added := map r | db.nextChunk <= r < db.nextChunk + |items| :: NewRow(env, d, items, db.nextChunk, r);
      db.(chunks := db.chunks + added, nextChunk := db.nextChunk + |items|)
  }

  function NewRow(env: Env, d: nat, items: seq<(string, nat)>, first: nat, r: nat): ChunkRow
    requires first <= r < first + |items|
  {
    var (text, i) := items[r - first];
    ChunkRow(d, text, env.hash(text), i)
  }

  /** The tables after the first n writes. */
  function After(env: Env, db: Db, writes: seq<Write>, n: nat): Db
    requires n <= |writes|
  {
    if n == 0 then db else Apply(env, After(env, db, writes, n - 1), writes[n - 1])
  }

  function Done(env: Env, db: Db, writes: seq<Write>): Db {
    After(env, db, writes, |writes|)
  }

  /** found is the row that a lookup by source gives. */
  ghost predicate LooksUp(db: Db, source: string, found: Option<nat>) {
    match found
    case None => forall d :: d in db.docs ==> db.docs[d].source != source
    case Some(d) => d in db.docs && db.docs[d].source == source
  }

  function RowsOf(db: Db, d: nat): set<nat> {
    set r | r in db.chunks && db.chunks[r].docId == d
  }

  function HashesOf(env: Env, texts: seq<string>): set<int> {
    set t | t in texts :: env.hash(t)
  }

  /** The stored rows of the document that its new chunks do not hash to. */
  function Stale(env: Env, db: Db, d: nat, texts: seq<string>): set<nat> {
    set r | r in RowsOf(db, d) && db.chunks[r].contentHash !in HashesOf(env, texts)
  }

  function Stored(db: Db, d: nat): set<int> {
    set r | r in RowsOf(db, d) :: db.chunks[r].contentHash
  }

  /** The hashes that are not stored, once each in order of first appearance: the keys, in their order, of the
      dictionary from hashes to chunks that still need embedding. */
  function FreshHashes(env: Env, texts: seq<string>, stored: set<int>): (hashes: seq<int>)
    ensures forall h :: h in hashes <==> h in HashesOf(env, texts) && h !in stored
    ensures forall i, j :: 0 <= i < j < |hashes| ==> hashes[i] != hashes[j]
  {
    if texts == [] then []
    else
      var init, h := texts[..|texts| - 1], env.hash(texts[|texts| - 1]);
      assert texts == init + [texts[|texts| - 1]];
      assert HashesOf(env, texts) == HashesOf(env, init) + {h};
      var hashes := FreshHashes(env, init, stored);
      if h in stored || h in hashes then hashes else hashes + [h]
  }

  /** The last text with this hash: the one the dictionary holds. */
  function LastWith(env: Env, texts: seq<string>, h: int): (i: nat)
    requires h in HashesOf(env, texts)
    ensures i < |texts| && env.hash(texts[i]) == h && forall m :: i < m < |texts| ==> env.hash(texts[m]) != h
  {
    var last := |texts| - 1;
    assert texts == texts[..last] + [texts[last]];
    if env.hash(texts[last]) == h then last else LastWith(env, texts[..last], h)
  }

  /** The chunks to embed, each with its index. */
  function Fresh(env: Env, texts: seq<string>, stored: set<int>): (items: seq<(string, nat)>)
    ensures forall i :: 0 <= i < |items| ==> items[i].0 in texts
  {
    var hashes := FreshHashes(env, texts, stored);
    seq(|hashes|, i requires 0 <= i < |hashes| =>
      var j := LastWith(env, texts, hashes[i]); (texts[j], j))
  }

  /** All texts with their indices. */
  function Indexed(texts: seq<string>): seq<(string, nat)> {
    seq(|texts|, i requires 0 <= i < |texts| => (texts[i], i))
  }

  function Saving(d: nat, items: seq<(string, nat)>): seq<Write> {
    if items == [] then [] else [AddRows(d, items)]
  }

  /** The writes of an ingest, in order. */
  function Plan(env: Env, db: Db, source: string, content: string, found: Option<nat>): seq<Write>
    requires found.Some? ==> found.value in db.docs
  {
    match found
    case None => [InsertDoc(source, content)] + Saving(db.nextDoc, Indexed(env.chunk(content)))
    case Some(d) =>
      if db.docs[d].contentHash == env.hash(content) then []
      else Removing(Stale(env, db, d, env.chunk(content))) + [UpdateDoc(d, content)]
           + Saving(d, Fresh(env, env.chunk(content), Stored(db, d)))
  }

  function Removing(rows: set<nat>): seq<Write> {
    if rows == {} then [] else [DeleteRows(rows)]
  }

  /** The writes of a document's deletion. */
  function DeletePlan(db: Db, d: nat): seq<Write> {
    [DeleteRows(RowsOf(db, d)), DeleteDoc(d)]
  }

  /** Every document row carries its content's hash, sources are unique, and every chunk row belongs to the
      chunking of the content of the document it names. */
  ghost predicate Sound(env: Env, db: Db) {
    && (forall d :: d in db.docs ==> d < db.nextDoc && db.docs[d].contentHash == env.hash(db.docs[d].content))
    && (forall d, e :: d in db.docs && e in db.docs && db.docs[d].source == db.docs[e].source ==> d == e)
    && (forall r :: r in db.chunks ==> r < db.nextChunk && Belongs(env, db, db.chunks[r]))
  }

  ghost predicate Belongs(env: Env, db: Db, row: ChunkRow) {
    && row.docId in db.docs
    && row.contentHash == env.hash(row.content)
    && row.content in env.chunk(db.docs[row.docId].content)
  }

  /** Sources are unique, so a lookup has one answer. */
  lemma OneAnswer(env: Env, db: Db, source: string, a: Option<nat>, b: Option<nat>)
    requires Sound(env, db) && LooksUp(db, source, a) && LooksUp(db, source, b)
    ensures a == b
  {
  }

  ghost predicate HasRow(db: Db, d: nat, text: string) {
    exists r :: r in db.chunks && db.chunks[r].docId == d && db.chunks[r].content == text
  }

  /** Every chunk of the document's content is stored. */
  ghost predicate CompleteDoc(env: Env, db: Db, d: nat)
    requires d in db.docs
  {
    forall text :: text in env.chunk(db.docs[d].content) ==> HasRow(db, d, text)
  }

  ghost predicate Complete(env: Env, db: Db) {
    forall d :: d in db.docs ==> CompleteDoc(env, db, d)
  }

  // ---- Each write of a plan keeps the tables sound.

  lemma RemovingSound(env: Env, db: Db, rows: set<nat>)
    requires Sound(env, db)
    ensures Sound(env, Apply(env, db, DeleteRows(rows)))
  {
    var db' := Apply(env, db, DeleteRows(rows));
    assert forall r :: r in db'.chunks ==> r in db.chunks && Belongs(env, db', db.chunks[r]);
  }

  lemma InsertSound(env: Env, db: Db, source: string, content: string)
    requires Sound(env, db) && LooksUp(db, source, None)
    ensures Sound(env, Apply(env, db, InsertDoc(source, content)))
  {
    var db' := Apply(env, db, InsertDoc(source, content));
    forall r | r in db'.chunks ensures Belongs(env, db', db'.chunks[r]) { assert Belongs(env, db, db.chunks[r]); }
  }

  /** Writing the new content is safe once no row is stale for it. */
  lemma UpdateSound(env: Env, db: Db, d: nat, content: string)
    requires Sound(env, db) && d in db.docs
    requires forall r :: r in RowsOf(db, d) ==> db.chunks[r].content in env.chunk(content)
    ensures Sound(env, Apply(env, db, UpdateDoc(d, content)))
  {
    var db' := Apply(env, db, UpdateDoc(d, content));
    forall r | r in db'.chunks ensures Belongs(env, db', db'.chunks[r]) { assert Belongs(env, db, db.chunks[r]); }
  }

  lemma AddSound(env: Env, db: Db, d: nat, items: seq<(string, nat)>)
    requires Sound(env, db) && d in db.docs
    requires forall i :: 0 <= i < |items| ==> items[i].0 in env.chunk(db.docs[d].content)
    ensures Sound(env, Apply(env, db, AddRows(d, items)))
  {
    var db' := Apply(env, db, AddRows(d, items));
    forall r | r in db'.chunks ensures r < db'.nextChunk && Belongs(env, db', db'.chunks[r]) {
      if r in db.chunks { assert Belongs(env, db, db.chunks[r]); }
    }
  }

  /** Once its stale rows are gone, a document's rows all belong to the new content. */
  lemma StaleGone(env: Env, db: Db, d: nat, texts: seq<string>, rows: set<nat>)
    requires env.Injective() && Sound(env, db) && Stale(env, db, d, texts) <= rows
    ensures var db' := Apply(env, db, DeleteRows(rows));
      forall r :: r in RowsOf(db', d) ==> db'.chunks[r].content in texts
  {
    var db' := Apply(env, db, DeleteRows(rows));
    forall r | r in RowsOf(db', d) ensures db'.chunks[r].content in texts {
      assert r in RowsOf(db, d) && r !in Stale(env, db, d, texts);
      assert Belongs(env, db, db.chunks[r]);
      var t :| t in texts && env.hash(t) == db.chunks[r].contentHash;
    }
  }

  // ---- The tables between the writes of an update.

  function Cleared(env: Env, db: Db, d: nat, content: string): Db {
    Apply(env, db, DeleteRows(Stale(env, db, d, env.chunk(content))))
  }

  function Updated(env: Env, db: Db, d: nat, content: string): Db {
    Apply(env, Cleared(env, db, d, content), UpdateDoc(d, content))
  }

  function Saved(env: Env, db: Db, d: nat, content: string): Db {
    Apply(env, Updated(env, db, d, content), AddRows(d, Fresh(env, env.chunk(content), Stored(db, d))))
  }

  /** The tables of an update after its stale rows are gone, after its hash write, and at its end. */
  function Stage(env: Env, db: Db, d: nat, content: string, stage: nat): Db {
    if stage == 0 then Cleared(env, db, d, content)
    else if stage == 1 then Updated(env, db, d, content)
    else Saved(env, db, d, content)
  }

  /** How many writes come before the one that stores the new hash. */
  function HashAt(env: Env, db: Db, d: nat, content: string): nat {
    if Stale(env, db, d, env.chunk(content)) == {} then 0 else 1
  }

  lemma UpdateStages(env: Env, db: Db, source: string, content: string, d: nat, n: nat)
    requires d in db.docs && db.docs[d].contentHash != env.hash(content)
    requires n <= |Plan(env, db, source, content, Some(d))|
    ensures var k, db' := HashAt(env, db, d, content), After(env, db, Plan(env, db, source, content, Some(d)), n);
      && (n == 0 ==> db' == db)
      && (n == k ==> db' == Cleared(env, db, d, content))
      && (n == k + 1 ==> db' == Updated(env, db, d, content))
      && (n == |Plan(env, db, source, content, Some(d))| ==> db' == Saved(env, db, d, content))
      && k + 1 <= |Plan(env, db, source, content, Some(d))| <= k + 2
  {
    var texts := env.chunk(content);
    var stale, items := Stale(env, db, d, texts), Fresh(env, texts, Stored(db, d));
    var plan := Plan(env, db, source, content, Some(d));
    var k := HashAt(env, db, d, content);
    assert plan[k] == UpdateDoc(d, content) && (k == 1 ==> plan[0] == DeleteRows(stale));
    assert stale == {} ==> Cleared(env, db, d, content) == db by { assert db.chunks - {} == db.chunks; }
    assert After(env, db, plan, k) == Cleared(env, db, d, content);
    assert After(env, db, plan, k + 1) == Updated(env, db, d, content);
    if items == [] {
      NothingAdded(env, Updated(env, db, d, content), d);
    } else {
      assert plan[k + 1] == AddRows(d, items);
    }
  }

  lemma NothingAdded(env: Env, db: Db, d: nat)
    ensures Apply(env, db, AddRows(d, [])) == db
  {
    assert Apply(env, db, AddRows(d, [])).chunks == db.chunks;
  }

  lemma InsertStages(env: Env, db: Db, source: string, content: string, n: nat)
    requires n <= |Plan(env, db, source, content, None)|
    ensures var plan, db1 := Plan(env, db, source, content, None), Apply(env, db, InsertDoc(source, content));
      && (n == 0 ==> After(env, db, plan, n) == db)
      && (n == 1 ==> After(env, db, plan, n) == db1)
      && (n == |plan| ==>
            After(env, db, plan, n) == Apply(env, db1, AddRows(db.nextDoc, Indexed(env.chunk(content)))))
      && 1 <= |plan| <= 2 && (|plan| == 1 <==> env.chunk(content) == [])
  {
    var plan, db1 := Plan(env, db, source, content, None), Apply(env, db, InsertDoc(source, content));
    assert After(env, db, plan, 1) == Apply(env, After(env, db, plan, 0), plan[0]) == db1;
    NothingAdded(env, db1, db.nextDoc);
  }

  /** However many of an ingest's writes land, the tables stay sound. */
  lemma IngestSound(env: Env, db: Db, source: string, content: string, found: Option<nat>, n: nat)
    requires env.Injective() && Sound(env, db) && LooksUp(db, source, found)
    requires n <= |Plan(env, db, source, content, found)|
    ensures Sound(env, After(env, db, Plan(env, db, source, content, found), n))
  {
    match found
    case None =>
      InsertStages(env, db, source, content, n);
      InsertSound(env, db, source, content);
      AddSound(env, Apply(env, db, InsertDoc(source, content)), db.nextDoc, Indexed(env.chunk(content)));
    case Some(d) =>
      if db.docs[d].contentHash != env.hash(content) {
        UpdateStages(env, db, source, content, d, n);
        SavedSound(env, db, d, content);
      }
  }

  lemma SavedSound(env: Env, db: Db, d: nat, content: string)
    requires env.Injective() && Sound(env, db) && d in db.docs
    ensures Sound(env, Cleared(env, db, d, content))
    ensures Sound(env, Updated(env, db, d, content))
    ensures Sound(env, Saved(env, db, d, content))
  {
    var stale := Stale(env, db, d, env.chunk(content));
    RemovingSound(env, db, stale);
    StaleGone(env, db, d, env.chunk(content), stale);
    UpdateSound(env, Cleared(env, db, d, content), d, content);
    AddSound(env, Updated(env, db, d, content), d, Fresh(env, env.chunk(content), Stored(db, d)));
  }

  lemma DeleteSound(env: Env, db: Db, d: nat, n: nat)
    requires Sound(env, db) && d in db.docs && n <= 2
    ensures Sound(env, After(env, db, DeletePlan(db, d), n))
  {
    DeleteStages(env, db, d);
    RemovingSound(env, db, RowsOf(db, d));
    DocGone(env, Apply(env, db, DeleteRows(RowsOf(db, d))), d);
  }

  lemma DeleteStages(env: Env, db: Db, d: nat)
    ensures var plan, db1 := DeletePlan(db, d), Apply(env, db, DeleteRows(RowsOf(db, d)));
      && After(env, db, plan, 0) == db && After(env, db, plan, 1) == db1
      && After(env, db, plan, 2) == Apply(env, db1, DeleteDoc(d))
      && RowsOf(db1, d) == {}
  {
    var plan := DeletePlan(db, d);
    assert After(env, db, plan, 1) == Apply(env, After(env, db, plan, 0), plan[0]);
    assert After(env, db, plan, 2) == Apply(env, After(env, db, plan, 1), plan[1]);
  }

  /** A document without rows may go. */
  lemma DocGone(env: Env, db: Db, d: nat)
    requires Sound(env, db) && RowsOf(db, d) == {}
    ensures Sound(env, Apply(env, db, DeleteDoc(d)))
  {
    var db' := Apply(env, db, DeleteDoc(d));
    forall r | r in db'.chunks ensures Belongs(env, db', db'.chunks[r]) {
      assert r !in RowsOf(db, d) && Belongs(env, db, db.chunks[r]);
    }
  }

  // ---- What an ingest stores.

  /** Every text is stored already or fresh. */
  lemma FreshCovers(env: Env, texts: seq<string>, stored: set<int>, text: string)
    requires env.Injective() && text in texts && env.hash(text) !in stored
    ensures exists i :: 0 <= i < |Fresh(env, texts, stored)| && Fresh(env, texts, stored)[i].0 == text
  {
    var hashes := FreshHashes(env, texts, stored);
    assert env.hash(text) in hashes;
    var i :| 0 <= i < |hashes| && hashes[i] == env.hash(text);
    assert Fresh(env, texts, stored)[i].0 == text;
  }

  /** Fresh texts are not stored, and are listed once each with the index of their last occurrence. */
  lemma FreshOnce(env: Env, texts: seq<string>, stored: set<int>)
    requires env.Injective()
    ensures var items := Fresh(env, texts, stored);
      && (forall i :: 0 <= i < |items| ==> env.hash(items[i].0) !in stored)
      && (forall i, j :: 0 <= i < j < |items| ==> items[i].0 != items[j].0)
      && (forall i :: 0 <= i < |items| ==> items[i].1 < |texts| && texts[items[i].1] == items[i].0)
      && (forall i, m :: 0 <= i < |items| && items[i].1 < m < |texts| ==> texts[m] != items[i].0)
  {
    var hashes, items := FreshHashes(env, texts, stored), Fresh(env, texts, stored);
    assert forall i :: 0 <= i < |items| ==> env.hash(items[i].0) == hashes[i] && hashes[i] in hashes;
  }

  /** Where a row of the tables after an update comes from: it was there and is not stale, or it is new. */
  lemma SavedRow(env: Env, db: Db, d: nat, content: string, r: nat)
    requires Sound(env, db) && d in db.docs
    ensures var db', items := Saved(env, db, d, content), Fresh(env, env.chunk(content), Stored(db, d));
      && (r in db.chunks && r !in Stale(env, db, d, env.chunk(content)) ==>
            r in db'.chunks && db'.chunks[r] == db.chunks[r])
      && (r in Stale(env, db, d, env.chunk(content)) ==> r !in db'.chunks)
      && (db.nextChunk <= r < db.nextChunk + |items| ==>
            r in db'.chunks && db'.chunks[r] == NewRow(env, d, items, db.nextChunk, r))
      && (r in db'.chunks ==> r in db.chunks || db.nextChunk <= r < db.nextChunk + |items|)
  {
  }

  /** The row that the i-th added item gets. */
  lemma AddedAt(env: Env, db: Db, d: nat, items: seq<(string, nat)>, i: nat)
    requires i < |items|
    ensures var db', r := Apply(env, db, AddRows(d, items)), db.nextChunk + i;
      r in db'.chunks && db'.chunks[r] == ChunkRow(d, items[i].0, env.hash(items[i].0), items[i].1)
  {
    assert Apply(env, db, AddRows(d, items)).chunks[db.nextChunk + i]
        == NewRow(env, d, items, db.nextChunk, db.nextChunk + i);
  }

  /** A fresh text has a row of its own. */
  lemma SavedNew(env: Env, db: Db, d: nat, content: string, items: seq<(string, nat)>, i: nat)
    requires Sound(env, db) && d in db.docs && items == Fresh(env, env.chunk(content), Stored(db, d)) && i < |items|
    ensures var db', r := Saved(env, db, d, content), db.nextChunk + i;
      && r !in db.chunks && r in db'.chunks
      && db'.chunks[r] == ChunkRow(d, items[i].0, env.hash(items[i].0), items[i].1)
  {
    AddedAt(env, Updated(env, db, d, content), d, items, i);
    NewId(env, db, i);
  }

  lemma NewId(env: Env, db: Db, i: nat)
    requires Sound(env, db)
    ensures db.nextChunk + i !in db.chunks
  {
  }

  /** A finished update leaves its document complete, whatever it was before. */
  lemma SavedComplete(env: Env, db: Db, d: nat, content: string)
    requires env.Injective() && Sound(env, db) && d in db.docs
    ensures d in Saved(env, db, d, content).docs && CompleteDoc(env, Saved(env, db, d, content), d)
  {
    forall text | text in env.chunk(content) ensures HasRow(Saved(env, db, d, content), d, text) {
      SavedHas(env, db, d, content, text);
    }
  }

  lemma SavedHas(env: Env, db: Db, d: nat, content: string, text: string)
    requires env.Injective() && Sound(env, db) && d in db.docs && text in env.chunk(content)
    ensures HasRow(Saved(env, db, d, content), d, text)
  {
    if env.hash(text) in Stored(db, d) {
      KeptHas(env, db, d, content, text);
    } else {
      FreshCovers(env, env.chunk(content), Stored(db, d), text);
      var items := Fresh(env, env.chunk(content), Stored(db, d));
      var i :| 0 <= i < |items| && items[i].0 == text;
      SavedNew(env, db, d, content, items, i);
    }
  }

  /** A text that is stored stays stored, under the same row. */
  lemma KeptHas(env: Env, db: Db, d: nat, content: string, text: string)
    requires env.Injective() && Sound(env, db) && d in db.docs && text in env.chunk(content)
    requires env.hash(text) in Stored(db, d)
    ensures HasRow(Saved(env, db, d, content), d, text)
  {
    var r :| r in RowsOf(db, d) && db.chunks[r].contentHash == env.hash(text);
    assert Belongs(env, db, db.chunks[r]);
    assert r !in Stale(env, db, d, env.chunk(content));
    SavedRow(env, db, d, content, r);
  }

  lemma InsertedComplete(env: Env, db: Db, source: string, content: string)
    ensures var db1 := Apply(env, db, InsertDoc(source, content));
            var db' := Apply(env, db1, AddRows(db.nextDoc, Indexed(env.chunk(content))));
      db.nextDoc in db'.docs && CompleteDoc(env, db', db.nextDoc)
  {
    var items := Indexed(env.chunk(content));
    var db' := Apply(env, Apply(env, db, InsertDoc(source, content)), AddRows(db.nextDoc, items));
    forall text | text in env.chunk(content) ensures HasRow(db', db.nextDoc, text) {
      var i :| 0 <= i < |env.chunk(content)| && env.chunk(content)[i] == text;
      assert db'.chunks[db.nextChunk + i] == NewRow(env, db.nextDoc, items, db.nextChunk, db.nextChunk + i);
    }
  }
}
