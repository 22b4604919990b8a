/** Which documents are complete after runs with faults: the window that a fault may leave open, and when. */
module IngestFaults {
  import opened Text
  import opened Ingest
  import opened IngestRuns

  /** From any sound tables, an ingest that landed a write leaves its own document complete exactly when all of
      its writes landed. */
  lemma OwnCompleteExactly(env: Env, db: Db, source: string, content: string, found: Option<nat>, n: nat, d: nat)
    requires env.Injective() && Sound(env, db) && LooksUp(db, source, found)
    requires 0 < n <= |Plan(env, db, source, content, found)|
    requires LooksUp(After(env, db, Plan(env, db, source, content, found), n), source, Some(d))
    ensures CompleteDoc(env, After(env, db, Plan(env, db, source, content, found), n), d)
            <==> n == |Plan(env, db, source, content, found)|
  {
    IngestSound(env, db, source, content, found, n);
    match found
    case None =>
      InsertOwn(env, db, source, content, n, d);
    case Some(e) =>
      UpdateKeepsDoc(env, db, source, content, e, n);
      assert d == e;
      UpdateOwn(env, db, source, content, e, n);
  }

  lemma UpdateKeepsDoc(env: Env, db: Db, source: string, content: string, e: nat, n: nat)
    requires LooksUp(db, source, Some(e)) && db.docs[e].contentHash != env.hash(content)
    requires n <= |Plan(env, db, source, content, Some(e))|
    ensures LooksUp(After(env, db, Plan(env, db, source, content, Some(e)), n), source, Some(e))
  {
    UpdateStages(env, db, source, content, e, n);
  }

  lemma UpdateOwn(env: Env, db: Db, source: string, content: string, e: nat, n: nat)
    requires env.Injective() && Sound(env, db) && LooksUp(db, source, Some(e))
    requires 0 < n <= |Plan(env, db, source, content, Some(e))|
    requires e in After(env, db, Plan(env, db, source, content, Some(e)), n).docs
    ensures CompleteDoc(env, After(env, db, Plan(env, db, source, content, Some(e)), n), e)
            <==> n == |Plan(env, db, source, content, Some(e))|
  {
    UpdateStages(env, db, source, content, e, n);
    if n == |Plan(env, db, source, content, Some(e))| {
      SavedComplete(env, db, e, content);
    } else if n == HashAt(env, db, e, content) {
      ClearedIncomplete(env, db, e, content);
    } else {
      UpdatedIncomplete(env, db, e, content);
    }
  }

  lemma InsertOwn(env: Env, db: Db, source: string, content: string, n: nat, d: nat)
    requires Sound(env, db) && LooksUp(db, source, None) && 0 < n <= |Plan(env, db, source, content, None)|
    requires LooksUp(After(env, db, Plan(env, db, source, content, None), n), source, Some(d))
    ensures CompleteDoc(env, After(env, db, Plan(env, db, source, content, None), n), d)
            <==> n == |Plan(env, db, source, content, None)|
  {
    InsertStages(env, db, source, content, n);
    assert d == db.nextDoc;
    if n == |Plan(env, db, source, content, None)| {
      InsertedComplete(env, db, source, content);
    } else {
      InsertedIncomplete(env, db, source, content);
    }
  }

  /** A deletion that stops between its two writes leaves the document row without chunk rows: complete exactly
      when there are none to have. Ingesting the same content again is then skipped. */
  lemma HalfDeleted(env: Env, db: Db, source: string, d: nat, again: Option<nat>)
    requires Sound(env, db) && LooksUp(db, source, Some(d))
    requires LooksUp(After(env, db, DeletePlan(db, d), 1), source, again)
    ensures var db' := After(env, db, DeletePlan(db, d), 1);
      && again == Some(d) && db'.docs == db.docs && RowsOf(db', d) == {}
      && (CompleteDoc(env, db', d) <==> env.chunk(db.docs[d].content) == [])
      && Plan(env, db', source, db.docs[d].content, again) == []
  {
    var plan := DeletePlan(db, d);
    var db' := After(env, db, plan, 1);
    assert db' == Apply(env, After(env, db, plan, 0), plan[0]) == Apply(env, db, DeleteRows(RowsOf(db, d)));
    assert again == Some(d);
    var texts := env.chunk(db.docs[d].content);
    if texts != [] {
      assert texts[0] in texts && !HasRow(db', d, texts[0]);
    }
  }

  // ---- Whole runs.

  /** The operation lands a write. */
  ghost predicate Lands(env: Env, db: Db, op: Op) {
    op.n > 0 && exists found :: LooksUp(db, op.source, found) && PlanOf(env, db, op, found) != []
  }

  /** The operation lands all its writes. */
  ghost predicate LandsAll(env: Env, db: Db, op: Op) {
    exists found :: LooksUp(db, op.source, found) && |PlanOf(env, db, op, found)| <= op.n
  }

  /** The last operation before state i that landed a write on the source. */
  ghost function LastLanding(env: Env, states: seq<Db>, ops: seq<Op>, i: nat, source: string): (last: Option<nat>)
    requires i <= |ops| < |states|
    ensures last.Some? ==> last.value < i
  {
    if i == 0 then None
    else if LandsOn(env, states, ops, i - 1, source) then Some(i - 1)
    else LastLanding(env, states, ops, i - 1, source)
  }

  /** What the operation leaves behind for a document that it leaves in the table. */
  ghost predicate Whole(env: Env, db: Db, op: Op, content: string) {
    LandsAll(env, db, op) || (op.Remove? && env.chunk(content) == [])
  }

  /** Document d is complete exactly when the last operation that landed a write on its source left it whole. */
  ghost predicate Accounted(env: Env, states: seq<Db>, ops: seq<Op>, i: nat, source: string, d: nat)
    requires i <= |ops| < |states|
  {
    var last := LastLanding(env, states, ops, i, source);
    && d in states[i].docs && last.Some?
    && (CompleteDoc(env, states[i], d)
        <==> Whole(env, states[last.value], ops[last.value], states[i].docs[d].content))
  }

  ghost predicate LandsOn(env: Env, states: seq<Db>, ops: seq<Op>, i: nat, source: string)
    requires i < |ops| < |states|
  {
    ops[i].source == source && Lands(env, states[i], ops[i])
  }

  ghost predicate Kept(env: Env, db: Db, db': Db, d: nat) {
    && d in db.docs && d in db'.docs && db'.docs[d] == db.docs[d]
    && (CompleteDoc(env, db', d) <==> CompleteDoc(env, db, d))
  }

  lemma KeepsAccount(env: Env, states: seq<Db>, ops: seq<Op>, i: nat, source: string, d: nat)
    requires i < |ops| < |states| && !LandsOn(env, states, ops, i, source)
    requires Accounted(env, states, ops, i, source, d) && Kept(env, states[i], states[i + 1], d)
    ensures Accounted(env, states, ops, i + 1, source, d)
  {
  }

  /** What operation i does to the document that state i + 1 has for the source. */
  ghost predicate StepAccounted(env: Env, states: seq<Db>, ops: seq<Op>, i: nat, source: string, d: nat)
    requires i < |ops| < |states|
  {
    LooksUp(states[i + 1], source, Some(d)) ==>
      if LandsOn(env, states, ops, i, source) then Accounted(env, states, ops, i + 1, source, d)
      else LooksUp(states[i], source, Some(d)) && Kept(env, states[i], states[i + 1], d)
  }

  lemma StepComplete(env: Env, states: seq<Db>, ops: seq<Op>, i: nat, source: string, d: nat)
    requires env.Injective() && IsRun(env, states, ops) && i < |ops|
    ensures StepAccounted(env, states, ops, i, source, d)
  {
    if LooksUp(states[i + 1], source, Some(d)) {
      assert StepTo(env, states[i], ops[i], states[i + 1]);
      NoOrphans(env, states, ops, i);
      if LandsOn(env, states, ops, i, source) {
        LandedComplete(env, states[i], ops[i], states[i + 1], d);
      } else {
        NotLanded(env, states[i], ops[i], states[i + 1], source, d);
      }
    }
  }

  lemma {:induction false} AccountedSince(env: Env, states: seq<Db>, ops: seq<Op>, i: nat, source: string, d: nat)
    requires i <= |ops| < |states| && states[0].docs == map[]
    requires forall j: nat | j < i :: StepAccounted(env, states, ops, j, source, d)
    requires LooksUp(states[i], source, Some(d))
    ensures Accounted(env, states, ops, i, source, d)
  {
    if i > 0 {
      assert StepAccounted(env, states, ops, i - 1, source, d);
      if !LandsOn(env, states, ops, i - 1, source) {
        AccountedSince(env, states, ops, i - 1, source, d);
        KeepsAccount(env, states, ops, i - 1, source, d);
      }
    }
  }

  /** In every state of every run, faults included, a document is complete exactly when the last operation that
      landed a write on its source landed all of its writes, or was a half deletion of a document that has no
      chunks. */
  lemma CompleteSince(env: Env, states: seq<Db>, ops: seq<Op>, i: nat, source: string, d: nat)
    requires env.Injective() && IsRun(env, states, ops) && i < |states|
    requires LooksUp(states[i], source, Some(d))
    ensures Accounted(env, states, ops, i, source, d)
  {
    forall j: nat | j < i ensures StepAccounted(env, states, ops, j, source, d) {
      StepComplete(env, states, ops, j, source, d);
    }
    AccountedSince(env, states, ops, i, source, d);
  }

  lemma LandedComplete(env: Env, db: Db, op: Op, db': Db, d: nat)
    requires env.Injective() && Sound(env, db) && StepTo(env, db, op, db') && Lands(env, db, op)
    requires LooksUp(db', op.source, Some(d))
    ensures CompleteDoc(env, db', d) <==> Whole(env, db, op, db'.docs[d].content)
  {
    var found :| LooksUp(db, op.source, found) && SameTables(db', Landed(env, db, PlanOf(env, db, op, found), op.n));
    OnlyAnswer(env, db, op, found);
    var plan := PlanOf(env, db, op, found);
    var n := if op.n < |plan| then op.n else |plan|;
    var db1 := After(env, db, plan, n);
    SameComplete(env, db1, db', d);
    match op {
      case Ingest(source, content, _) => OwnCompleteExactly(env, db, source, content, found, n, d);
      case Remove(source, _) => RemovedComplete(env, db, source, found.value, n, d);
    }
  }

  /** Under soundness the plan is determined. */
  lemma OnlyAnswer(env: Env, db: Db, op: Op, found: Option<nat>)
    requires Sound(env, db) && LooksUp(db, op.source, found)
    ensures Lands(env, db, op) <==> op.n > 0 && PlanOf(env, db, op, found) != []
    ensures LandsAll(env, db, op) <==> |PlanOf(env, db, op, found)| <= op.n
  {
    if Lands(env, db, op) {
      var a :| LooksUp(db, op.source, a) && PlanOf(env, db, op, a) != [];
      OneAnswer(env, db, op.source, a, found);
    }
    if LandsAll(env, db, op) {
      var a :| LooksUp(db, op.source, a) && |PlanOf(env, db, op, a)| <= op.n;
      OneAnswer(env, db, op.source, a, found);
    }
  }

  lemma RemovedComplete(env: Env, db: Db, source: string, e: nat, n: nat, d: nat)
    requires Sound(env, db) && LooksUp(db, source, Some(e)) && 0 < n <= 2
    requires LooksUp(After(env, db, DeletePlan(db, e), n), source, Some(d))
    ensures n == 1
    ensures var db' := After(env, db, DeletePlan(db, e), n);
      CompleteDoc(env, db', d) <==> env.chunk(db'.docs[d].content) == []
  {
    if n == 2 {
      DeleteDone(env, db, e);
      OneAnswer(env, db, source, Some(d), Some(e));
    } else {
      HalfDeleted(env, db, source, e, Some(d));
    }
  }

  lemma SameComplete(env: Env, a: Db, b: Db, d: nat)
    requires SameTables(a, b) && d in a.docs
    ensures CompleteDoc(env, b, d) <==> CompleteDoc(env, a, d)
  {
    UntouchedComplete(env, a, b, d);
  }

  /** An operation on another source, or one that lands nothing, leaves the document as it is. */
  lemma NotLanded(env: Env, db: Db, op: Op, db': Db, source: string, d: nat)
    requires env.Injective() && Sound(env, db) && StepTo(env, db, op, db') && LooksUp(db', source, Some(d))
    requires op.source != source || !Lands(env, db, op)
    ensures LooksUp(db, source, Some(d)) && Kept(env, db, db', d)
  {
    var found :| LooksUp(db, op.source, found) && SameTables(db', Landed(env, db, PlanOf(env, db, op, found), op.n));
    OnlyAnswer(env, db, op, found);
    var plan := PlanOf(env, db, op, found);
    var n := if op.n < |plan| then op.n else |plan|;
    if n > 0 {
      OtherUntouched(env, db, op, found, n, source, d);
      assert Untouched(db, db', d);
    } else {
      assert SameTables(db', db);
    }
    UntouchedComplete(env, db, db', d);
  }

  lemma OtherUntouched(env: Env, db: Db, op: Op, found: Option<nat>, n: nat, source: string, d: nat)
    requires Sound(env, db) && LooksUp(db, op.source, found) && op.source != source
    requires n <= |PlanOf(env, db, op, found)|
    requires LooksUp(After(env, db, PlanOf(env, db, op, found), n), source, Some(d))
    ensures Untouched(db, After(env, db, PlanOf(env, db, op, found), n), d)
  {
    match op {
      case Ingest(s, content, _) => IngestUntouched(env, db, s, content, found, n, d);
      case Remove(s, _) => if found.Some? { DeleteUntouched(env, db, found.value, n, d); }
    }
  }

  lemma IngestUntouched(env: Env, db: Db, s: string, content: string, found: Option<nat>, n: nat, d: nat)
    requires Sound(env, db) && LooksUp(db, s, found) && n <= |Plan(env, db, s, content, found)|
    requires var db' := After(env, db, Plan(env, db, s, content, found), n);
      d in db'.docs && db'.docs[d].source != s
    ensures Untouched(db, After(env, db, Plan(env, db, s, content, found), n), d)
  {
    match found
    case None =>
      InsertStages(env, db, s, content, n);
      assert d in db.docs;
      InsertOthersKept(env, db, s, content, d);
    case Some(e) =>
      if n > 0 {
        UpdateStages(env, db, s, content, e, n);
        OthersKept(env, db, e, content, d);
      }
  }

  lemma DeleteUntouched(env: Env, db: Db, e: nat, n: nat, d: nat)
    requires n <= 2 && d in After(env, db, DeletePlan(db, e), n).docs && d != e
    ensures Untouched(db, After(env, db, DeletePlan(db, e), n), d)
  {
    var plan := DeletePlan(db, e);
    assert After(env, db, plan, 1) == Apply(env, After(env, db, plan, 0), plan[0]);
    DeleteDone(env, db, e);
    forall r: nat ensures RowAt(After(env, db, plan, n), d, r) == RowAt(db, d, r) {}
  }

  /** A run with a document that stays incomplete: its first ingest stops after the document row, and the retry
      with the same content is skipped. */
  lemma RetrySkipped(env: Env, source: string, content: string) returns (states: seq<Db>)
    requires env.chunk(content) != []
    ensures IsRun(env, states, [Ingest(source, content, 1), Ingest(source, content, 3)])
    ensures states[2] == states[1] && LooksUp(states[2], source, Some(0)) && !CompleteDoc(env, states[2], 0)
  {
    var db := Apply(env, EMPTY, InsertDoc(source, content));
    InsertStages(env, EMPTY, source, content, 1);
    InsertedIncomplete(env, EMPTY, source, content);
    assert Plan(env, db, source, content, Some(0)) == [];
    assert LooksUp(EMPTY, source, None) && LooksUp(db, source, Some(0));
    states := [EMPTY, db, db];
  }
}
