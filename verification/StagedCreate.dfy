/**
 The staged create refines one atomic insert: with any failure at any
 sub-step and any other requests in between, the reserved row is never seen,
 a create that fails leaves nothing, and a create that succeeds commits one
 fully built row.
 */
module StagedCreate {
  import opened Prelude
  import opened Envelope
  import opened ConfigStore
  import opened EncryptedStore
  import opened PlaintextMap
  import opened Interleaving

  predicate InTransaction(request: Request) {
    request.Post? && (request.posting.Reserved? || request.posting.Built? || request.posting.Finalised?)
  }

  /** `work` is the table after one whole create of `request` on `db`. */
  ghost predicate Creates(key: Key, db: Db, work: Db, request: Request, createdAt: Instant, now: Instant, nonce: Nonce)
    requires request.Post?
  {
    CreatePlain(key, db, request.user, request.input, createdAt, now, nonce) == Outcome(work, None)
  }

  ghost predicate OneCreate(key: Key, db: Db, work: Db, request: Request)
    requires request.Post?
  {
    exists createdAt, now, nonce :: Creates(key, db, work, request, createdAt, now, nonce)
  }

  /** What the open transaction has done to its working copy, stage by stage. */
  ghost predicate StagedBy(key: Key, db: Db, work: Db, request: Request) {
    request.Post? &&
    match request.posting
    case Reserved(id, createdAt) =>
      Reserve(db, request.user, createdAt) == Some(work) && id == work.lastId
    case Built(id, createdAt, row) =>
      && Reserve(db, request.user, createdAt) == Some(work) && id == work.lastId
      && |row.nonce| == NONCE_SIZE && Build(key, request.user, request.input, row.nonce, id) == Ok(row)
    case Finalised(config) =>
      && OneCreate(key, db, work, request)
      && Get(work, request.user, work.lastId) == Ok(config)
    case _ => false
  }

  /** The open transaction is the one its owner has staged. */
  ghost predicate OpenIsStaged(key: Key, s: Server) {
    s.open.Some? ==>
      && s.open.value.owner in s.requests
      && StagedBy(key, s.db, s.open.value.work, s.requests[s.open.value.owner])
  }

  /** A request that is inside its create holds the open transaction. */
  ghost predicate CreatesHoldTheLock(s: Server) {
    forall rid :: rid in s.requests && InTransaction(s.requests[rid]) ==>
      s.open.Some? && s.open.value.owner == rid
  }

  /** A PATCH only ever loads its own row. */
  ghost predicate LoadsOwnRow(s: Server) {
    forall rid :: PatchAt(s, rid) && s.requests[rid].patching.Loaded? ==>
      && s.requests[rid].patching.current.user == s.requests[rid].user
      && s.requests[rid].patching.current.id == s.requests[rid].id
  }

  ghost predicate Invariant(key: Key, s: Server) {
    WellFormed(s.db) && OpenIsStaged(key, s) && CreatesHoldTheLock(s) && LoadsOwnRow(s)
  }

  lemma StepKeepsLocks(key: Key, s: Server, step: Step, s': Server)
    requires Invariant(key, s) && Next(key, s, step) == Some(s')
    ensures CreatesHoldTheLock(s') && LoadsOwnRow(s')
  {
    forall rid | rid in s'.requests
      ensures InTransaction(s'.requests[rid]) ==> s'.open.Some? && s'.open.value.owner == rid
      ensures PatchAt(s', rid) && s'.requests[rid].patching.Loaded? ==>
                && s'.requests[rid].patching.current.user == s'.requests[rid].user
                && s'.requests[rid].patching.current.id == s'.requests[rid].id
    {
      if !Mine(step, rid) {
        OthersStandStill(key, s, step, s', rid);
      }
    }
  }

  lemma FinaliseStages(key: Key, s: Server, step: Step, s': Server)
    requires Invariant(key, s) && step.FinaliseRow? && Next(key, s, step) == Some(s')
    ensures OpenIsStaged(key, s')
  {
    var request, work := s.requests[step.rid], s.open.value.work;
    var Built(id, createdAt, row) := request.posting;
    StagedCreateIsOneInsert(s.db, request.user, row, createdAt, step.now);
    var work' := Insert(s.db, request.user, row, createdAt, step.now);
    assert s'.open == Some(Transaction(step.rid, work'));
    assert Creates(key, s.db, work', s'.requests[step.rid], createdAt, step.now, row.nonce);
  }

  lemma StagedElsewhere(key: Key, db: Db, work: Db, request: Request, request': Request)
    requires StagedBy(key, db, work, request) && request' == request
    ensures StagedBy(key, db, work, request')
  {
  }

  lemma StepKeepsStaging(key: Key, s: Server, step: Step, s': Server)
    requires Invariant(key, s) && Next(key, s, step) == Some(s')
    ensures OpenIsStaged(key, s')
  {
    if step.FinaliseRow? {
      FinaliseStages(key, s, step, s');
    } else if s'.open.Some? && s.open == s'.open {
      var owner := s.open.value.owner;
      OnlyCommitsTouchTheTable(key, s, step, s');
      if !Mine(step, owner) {
        OthersStandStill(key, s, step, s', owner);
        StagedElsewhere(key, s.db, s.open.value.work, s.requests[owner], s'.requests[owner]);
      }
    }
  }

  lemma StepKeepsInvariant(key: Key, s: Server, step: Step, s': Server)
    requires Invariant(key, s) && Next(key, s, step) == Some(s')
    ensures Invariant(key, s')
  {
    StepKeepsLocks(key, s, step, s');
    StepKeepsStaging(key, s, step, s');
    if step.Commit? {
      var request := s.requests[step.rid];
      var createdAt, now, nonce :| Creates(key, s.db, s.open.value.work, request, createdAt, now, nonce);
    }
  }

  lemma {:induction false} RunKeepsInvariant(key: Key, run: seq<Server>, steps: seq<Step>, k: nat)
    requires IsRun(key, run, steps) && k <= |steps|
    ensures Invariant(key, run[k])
  {
    if k > 0 {
      RunKeepsInvariant(key, run, steps, k - 1);
      StepKeepsInvariant(key, run[k - 1], steps[k - 1], run[k]);
    }
  }

  // ---------- what a create amounts to ----------

  /** The step that commits a create is one whole insert, and its answer is the row now stored. */
  lemma CommitIsOneInsert(key: Key, run: seq<Server>, steps: seq<Step>, k: nat)
    requires IsRun(key, run, steps) && k < |steps| && steps[k].Commit?
    ensures PostAt(run[k], steps[k].rid) && PostAt(run[k + 1], steps[k].rid)
    ensures var request := run[k].requests[steps[k].rid];
            && OneCreate(key, run[k].db, run[k + 1].db, request)
            && run[k + 1].requests[steps[k].rid].posting
               == Posted(GetPlain(key, run[k + 1].db, request.user, run[k].db.lastId + 1))
  {
    RunKeepsInvariant(key, run, steps, k);
    assert Next(key, run[k], steps[k]) == Some(run[k + 1]);
    var request := run[k].requests[steps[k].rid];
    var createdAt, now, nonce :| Creates(key, run[k].db, run[k].open.value.work, request, createdAt, now, nonce);
  }

  lemma {:induction false} DoneStaysDone(key: Key, run: seq<Server>, steps: seq<Step>, rid: nat, k: nat, n: nat)
    requires IsRun(key, run, steps) && k <= n <= |steps|
    requires rid in run[k].requests && IsDone(run[k].requests[rid])
    ensures rid in run[n].requests && run[n].requests[rid] == run[k].requests[rid]
  {
    if k < n {
      DoneStaysDone(key, run, steps, rid, k, n - 1);
      assert Next(key, run[n - 1], steps[n - 1]) == Some(run[n]);
      if !Mine(steps[n - 1], rid) {
        OthersStandStill(key, run[n - 1], steps[n - 1], run[n], rid);
      }
    }
  }

  /** A create that has not succeeded has changed nothing anyone can read. */
  lemma UnfinishedCreateLeavesNothing(key: Key, run: seq<Server>, steps: seq<Step>, rid: nat, k: nat)
    requires IsRun(key, run, steps) && k < |steps| && Mine(steps[k], rid)
    requires PostAt(run[|steps|], rid)
    requires var end := run[|steps|].requests[rid].posting; !end.Posted? || end.result.Err?
    ensures run[k + 1].db == run[k].db
  {
    assert Next(key, run[k], steps[k]) == Some(run[k + 1]);
    if steps[k].Commit? {
      DoneStaysDone(key, run, steps, rid, k + 1, |steps|);
      assert false;
    } else if steps[k].Write? {
      TaskNeverChanges(key, run, steps, rid, k, |steps|);
      assert false;
    } else {
      OnlyCommitsTouchTheTable(key, run[k], steps[k], run[k + 1]);
    }
  }

  // ---------- the builder ----------

  function Stage(request: Request): nat
    requires request.Post?
  {
    match request.posting
    case Checking => 0
    case Counted => 1
    case Reserved(_, _) => 2
    case Built(_, _, _) => 3
    case Finalised(_) => 4
    case Posted(_) => 5
  }

  lemma {:induction false} StagesAdvance(key: Key, run: seq<Server>, steps: seq<Step>, rid: nat, k: nat, n: nat)
    requires IsRun(key, run, steps) && k <= n <= |steps| && PostAt(run[k], rid)
    ensures PostAt(run[n], rid) && Stage(run[k].requests[rid]) <= Stage(run[n].requests[rid])
  {
    if k < n {
      StagesAdvance(key, run, steps, rid, k, n - 1);
      assert Next(key, run[n - 1], steps[n - 1]) == Some(run[n]);
      if !Mine(steps[n - 1], rid) {
        OthersStandStill(key, run[n - 1], steps[n - 1], run[n], rid);
      }
    }
  }

  /** Of two builder calls for one request there is only one, and it gets the id the row is committed under. */
  lemma BuilderRunsOnceOnTheFinalId(key: Key, run: seq<Server>, steps: seq<Step>, k: nat, n: nat)
    requires IsRun(key, run, steps) && k < |steps| && n < |steps| && steps[k].BuildRow?
    ensures steps[n].BuildRow? && steps[n].rid == steps[k].rid ==> n == k
    ensures PostAt(run[k], steps[k].rid) && run[k].requests[steps[k].rid].posting.Reserved?
    ensures steps[n].Commit? && steps[n].rid == steps[k].rid ==>
              k < n && run[k].requests[steps[k].rid].posting.id == run[n].db.lastId + 1
  {
    var rid := steps[k].rid;
    assert Next(key, run[k], steps[k]) == Some(run[k + 1]);
    if Mine(steps[n], rid) && (steps[n].BuildRow? || steps[n].Commit?) {
      assert Next(key, run[n], steps[n]) == Some(run[n + 1]);
      if n < k {
        StagesAdvance(key, run, steps, rid, n + 1, k);
      } else if k < n {
        StagesAdvance(key, run, steps, rid, k + 1, n);
        if steps[n].Commit? {
          TableFrozenWhileStaged(key, run, steps, rid, k, n);
          RunKeepsInvariant(key, run, steps, k);
        }
      }
    }
  }

  /** While one request is inside its create, nobody else commits. */
  lemma {:induction false} TableFrozenWhileStaged(key: Key, run: seq<Server>, steps: seq<Step>, rid: nat,
                                                  k: nat, n: nat)
    requires IsRun(key, run, steps) && k <= n <= |steps|
    requires PostAt(run[k], rid) && InTransaction(run[k].requests[rid])
    requires PostAt(run[n], rid) && InTransaction(run[n].requests[rid])
    ensures run[n].db == run[k].db
    decreases n - k
  {
    if k < n {
      RunKeepsInvariant(key, run, steps, k);
      OnlyCommitsTouchTheTable(key, run[k], steps[k], run[k + 1]);
      if Mine(steps[k], rid) {
        if IsDone(run[k + 1].requests[rid]) {
          DoneStaysDone(key, run, steps, rid, k + 1, n);
        }
      } else {
        OthersStandStill(key, run[k], steps[k], run[k + 1], rid);
      }
      TableFrozenWhileStaged(key, run, steps, rid, k + 1, n);
    }
  }

  // ---------- every committed row ----------

  /** A row any reader may meet: it opens under its own (user, id) and was modified after it was created. */
  ghost predicate Sound(key: Key, db: Db) {
    forall id :: id in db.rows ==>
      RowOpens(key, id, db.rows[id]) && db.rows[id].createdAt < db.rows[id].modifiedAt
  }

  lemma StepKeepsRowsSound(key: Key, s: Server, step: Step, s': Server)
    requires Invariant(key, s) && Next(key, s, step) == Some(s') && Sound(key, s.db)
    ensures Sound(key, s'.db)
  {
    OnlyCommitsTouchTheTable(key, s, step, s');
    if step.Commit? {
      var request := s.requests[step.rid];
      var createdAt, now, nonce :| Creates(key, s.db, s.open.value.work, request, createdAt, now, nonce);
    }
  }

  /** No reader, at any point of any run, meets the reserved sentinel row. */
  lemma {:induction false} RowsAlwaysSound(key: Key, run: seq<Server>, steps: seq<Step>, k: nat)
    requires IsRun(key, run, steps) && k <= |steps| && Sound(key, run[0].db)
    ensures Sound(key, run[k].db)
    ensures forall id :: id in run[k].db.rows ==> run[k].db.rows[id].cipher != SENTINEL
  {
    if k > 0 {
      RowsAlwaysSound(key, run, steps, k - 1);
      RunKeepsInvariant(key, run, steps, k - 1);
      StepKeepsRowsSound(key, run[k - 1], steps[k - 1], run[k]);
    }
    assert forall id :: id in run[k].db.rows ==> RowOpens(key, id, run[k].db.rows[id]);
  }

  /** An empty version is no version: it is never stored. */
  ghost predicate NoEmptyVersion(db: Db) {
    forall id :: id in db.rows ==> db.rows[id].version != Some("")
  }

  lemma StepStoresNoEmptyVersion(key: Key, s: Server, step: Step, s': Server)
    requires Invariant(key, s) && Next(key, s, step) == Some(s') && NoEmptyVersion(s.db)
    ensures NoEmptyVersion(s'.db)
  {
    OnlyCommitsTouchTheTable(key, s, step, s');
    if step.Commit? {
      var request := s.requests[step.rid];
      var createdAt, now, nonce :| Creates(key, s.db, s.open.value.work, request, createdAt, now, nonce);
    }
  }

  /** In every run NULL and "" are one state on disk too. */
  lemma {:induction false} EmptyVersionsAreNull(key: Key, run: seq<Server>, steps: seq<Step>, k: nat)
    requires IsRun(key, run, steps) && k <= |steps| && NoEmptyVersion(run[0].db)
    ensures NoEmptyVersion(run[k].db)
  {
    if k > 0 {
      EmptyVersionsAreNull(key, run, steps, k - 1);
      RunKeepsInvariant(key, run, steps, k - 1);
      assert Next(key, run[k - 1], steps[k - 1]) == Some(run[k]);
      StepStoresNoEmptyVersion(key, run[k - 1], steps[k - 1], run[k]);
    }
  }
}
