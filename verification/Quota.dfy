/**
 The per-user quota: counting and creating are separate steps, so the bound
 depends on how many creates overlap.
 */
module Quota {
  import opened Prelude
  import opened ConfigStore
  import opened EncryptedStore
  import opened Interleaving
  import opened StagedCreate

  /** The user's creates that have passed the check and not yet committed. */
  function Window(s: Server, user: Int64): set<nat> {
    set rid | rid in s.requests && Pending(s.requests[rid], user)
  }

  predicate Pending(request: Request, user: Int64) {
    request.Post? && request.user == user && !request.posting.Checking? && !request.posting.Posted?
  }

  function Load(s: Server, user: Int64): nat {
    |OwnedIds(s.db, user)| + |Window(s, user)|
  }

  lemma SubsetSize<T>(small: set<T>, large: set<T>)
    requires small <= large
    ensures |small| <= |large|
  {
    assert large == small + (large - small);
  }

  /** Only passing the check adds to a user's rows and pending creates together. */
  lemma StepAddsToLoad(key: Key, s: Server, step: Step, s': Server, user: Int64)
    requires Invariant(key, s) && Next(key, s, step) == Some(s')
    ensures Load(s', user) <= Load(s, user)
         || (step.CountRows? && |OwnedIds(s'.db, user)| < MAX_CONFIGS_PER_USER)
  {
    if step.Commit? {
      CommitMovesLoad(key, s, step, s', user);
    } else {
      OnlyCommitsTouchTheTable(key, s, step, s');
      assert OwnedIds(s'.db, user) <= OwnedIds(s.db, user);
      SubsetSize(OwnedIds(s'.db, user), OwnedIds(s.db, user));
      if !step.CountRows? {
        forall rid | rid in Window(s', user)
          ensures rid in Window(s, user)
        {
          if !Mine(step, rid) {
            OthersStandStill(key, s, step, s', rid);
          }
        }
        SubsetSize(Window(s', user), Window(s, user));
      } else if s.requests[step.rid].user != user || |OwnedIds(s.db, user)| >= MAX_CONFIGS_PER_USER {
        assert Window(s', user) == Window(s, user);
      }
    }
  }

  lemma InsertAddsOneRow(db: Db, owner: Int64, input: CreateInput, createdAt: Instant, now: Instant, user: Int64)
    requires WellFormed(db) && db.lastId < MAX_INT64
    ensures |OwnedIds(Insert(db, owner, input, createdAt, now), user)|
         == |OwnedIds(db, user)| + if owner == user then 1 else 0
  {
    var db', id: Int64 := Insert(db, owner, input, createdAt, now), db.lastId + 1;
    var before, after := OwnedIds(db, user), OwnedIds(db', user);
    assert id !in before;
    forall other: Int64
      ensures other in after <==> other in before || (other == id && owner == user)
    {
    }
    if owner == user {
      assert after == before + {id};
    } else {
      assert after == before;
    }
  }

  lemma CommitLeavesWindow(key: Key, s: Server, step: Step, s': Server, user: Int64)
    requires Next(key, s, step) == Some(s') && step.Commit?
    ensures |Window(s, user)| == |Window(s', user)| + if s.requests[step.rid].user == user then 1 else 0
  {
    if s.requests[step.rid].user == user {
      assert Window(s, user) == Window(s', user) + {step.rid};
    } else {
      assert Window(s, user) == Window(s', user);
    }
  }

  /** A commit turns one pending create into one row. */
  lemma CommitMovesLoad(key: Key, s: Server, step: Step, s': Server, user: Int64)
    requires Invariant(key, s) && Next(key, s, step) == Some(s') && step.Commit?
    ensures Load(s', user) == Load(s, user)
  {
    CommitLeavesWindow(key, s, step, s', user);
    var request := s.requests[step.rid];
    var createdAt, now, nonce :| Creates(key, s.db, s.open.value.work, request, createdAt, now, nonce);
    InsertAddsOneRow(s.db, request.user, Build(key, request.user, request.input, nonce, s.db.lastId + 1).value,
                     createdAt, now, user);
  }

  /**
   If at most `overlap` of a user's creates are ever past their check at once,
   that user never owns more than 49 + `overlap` rows.
   */
  lemma {:induction false} QuotaBound(key: Key, run: seq<Server>, steps: seq<Step>, user: Int64, overlap: nat, n: nat)
    requires IsRun(key, run, steps) && n <= |steps|
    requires |OwnedIds(run[0].db, user)| < MAX_CONFIGS_PER_USER + overlap
    requires forall k :: 0 <= k <= |steps| ==> |Window(run[k], user)| <= overlap
    ensures Load(run[n], user) < MAX_CONFIGS_PER_USER + overlap
  {
    if n == 0 {
      assert Window(run[0], user) == {};
    } else {
      QuotaBound(key, run, steps, user, overlap, n - 1);
      RunKeepsInvariant(key, run, steps, n - 1);
      StepAddsToLoad(key, run[n - 1], steps[n - 1], run[n], user);
    }
  }

  /** Starting from no rows, creates that do not overlap stop at exactly the quota. */
  lemma NoOverlapNoOverrun(key: Key, run: seq<Server>, steps: seq<Step>, user: Int64, n: nat)
    requires IsRun(key, run, steps) && n <= |steps| && OwnedIds(run[0].db, user) == {}
    requires forall k :: 0 <= k <= |steps| ==> |Window(run[k], user)| <= 1
    ensures |OwnedIds(run[n].db, user)| <= MAX_CONFIGS_PER_USER
  {
    QuotaBound(key, run, steps, user, 1, n);
  }

  // ---------- the bound is reached ----------

  const NAMED: PlainInput := PlainInput("work", [], "")

  /** Only requests from `done` up to `arrived` are pending. */
  ghost predicate PendingWithin(s: Server, user: Int64, done: nat, arrived: nat) {
    forall rid :: rid in s.requests && Pending(s.requests[rid], user) ==> done <= rid < arrived
  }

  /** From an empty table, `arrived` creates have passed their check and the first `done` of them have committed. */
  ghost predicate Creating(s: Server, user: Int64, done: nat, arrived: nat) {
    && done <= arrived && s.open.None? && PendingWithin(s, user, done, arrived)
    && (forall rid :: rid in s.requests ==> rid < arrived)
    && (forall rid :: done <= rid < arrived ==> rid in s.requests && s.requests[rid] == Post(user, NAMED, Counted))
    && s.db.lastId == |OwnedIds(s.db, user)| == done
  }

  lemma {:induction false} RangeSize(rids: set<nat>, done: nat, arrived: nat)
    requires done <= arrived && forall rid :: rid in rids ==> done <= rid < arrived
    ensures |rids| <= arrived - done
    decreases arrived
  {
    if done < arrived {
      var fewer := rids - {arrived - 1};
      RangeSize(fewer, done, arrived - 1);
      SubsetSize(rids, fewer + {arrived - 1});
    } else {
      assert rids == {};
    }
  }

  lemma WindowSize(s: Server, user: Int64, done: nat, arrived: nat)
    requires done <= arrived && PendingWithin(s, user, done, arrived)
    ensures |Window(s, user)| <= arrived - done
  {
    RangeSize(Window(s, user), done, arrived);
  }

  /** Every request is a named create of `user`, and at most `overlap` are past their check at once. */
  ghost predicate Orderly(run: seq<Server>, steps: seq<Step>, user: Int64, overlap: nat) {
    && (forall k :: 0 <= k < |run| ==> |Window(run[k], user)| <= overlap)
    && (forall k :: 0 <= k < |steps| && steps[k].Arrive? ==> steps[k].request == Post(user, NAMED, Checking))
  }

  /** A run from the empty table. */
  ghost predicate FromEmpty(key: Key, run: seq<Server>, steps: seq<Step>, user: Int64, overlap: nat) {
    IsRun(key, run, steps) && run[0].db == Db(map[], 0) && Orderly(run, steps, user, overlap)
  }

  /** One more possible step makes a longer run. */
  lemma ExtendRun(key: Key, run: seq<Server>, steps: seq<Step>, step: Step, s: Server, user: Int64, overlap: nat)
    returns (run': seq<Server>, steps': seq<Step>)
    requires FromEmpty(key, run, steps, user, overlap) && Next(key, run[|steps|], step) == Some(s)
    requires |Window(s, user)| <= overlap && (step.Arrive? ==> step.request == Post(user, NAMED, Checking))
    ensures FromEmpty(key, run', steps', user, overlap) && run'[|steps'|] == s
  {
    run', steps' := run + [s], steps + [step];
    forall k | 0 <= k < |steps'|
      ensures Next(key, run'[k], steps'[k]) == Some(run'[k + 1])
    {
      if k < |steps| {
        assert Next(key, run[k], steps[k]) == Some(run[k + 1]);
      }
    }
  }

  /** A new create can arrive, and below 50 rows it passes its check. */
  lemma Passes(key: Key, s: Server, user: Int64, rid: nat) returns (s': Server, s'': Server)
    requires rid !in s.requests && |OwnedIds(s.db, user)| < MAX_CONFIGS_PER_USER
    ensures Next(key, s, Arrive(rid, Post(user, NAMED, Checking))) == Some(s')
    ensures Next(key, s', CountRows(rid)) == Some(s'')
    ensures s' == s.(requests := s.requests[rid := Post(user, NAMED, Checking)])
    ensures s'' == s.(requests := s.requests[rid := Post(user, NAMED, Counted)])
  {
    s' := s.(requests := s.requests[rid := Post(user, NAMED, Checking)]);
    s'' := Posting(s', rid, Counted);
  }

  lemma PassOne(key: Key, run: seq<Server>, steps: seq<Step>, user: Int64, done: nat, arrived: nat, overlap: nat)
    returns (run': seq<Server>, steps': seq<Step>)
    requires FromEmpty(key, run, steps, user, overlap) && Creating(run[|steps|], user, done, arrived)
    requires done < MAX_CONFIGS_PER_USER && arrived + 1 - done <= overlap
    ensures FromEmpty(key, run', steps', user, overlap) && Creating(run'[|steps'|], user, done, arrived + 1)
  {
    var s := run[|steps|];
    var s', s'' := Passes(key, s, user, arrived);
    WindowSize(s', user, done, arrived);
    WindowSize(s'', user, done, arrived + 1);
    run', steps' := ExtendRun(key, run, steps, Arrive(arrived, Post(user, NAMED, Checking)), s', user, overlap);
    run', steps' := ExtendRun(key, run', steps', CountRows(arrived), s'', user, overlap);
  }

  function Staged(key: Key, s: Server, rid: nat, nonce: Nonce): Server
    requires PostAt(s, rid) && Reserve(s.db, s.requests[rid].user, 0).Some?
  {
    var Post(user, input, _) := s.requests[rid];
    var work := Reserve(s.db, user, 0).value;
    var row := Build(key, user, input, nonce, work.lastId).value;
    Posting(s, rid, Built(work.lastId, 0, row)).(open := Some(Transaction(rid, work)))
  }

  /** A create that is past its check can reserve its id and build its row. */
  lemma Stages(key: Key, s: Server, rid: nat, nonce: Nonce) returns (s1: Server, s2: Server)
    requires s.open.None? && s.db.lastId < MAX_INT64 && PostAt(s, rid) && s.requests[rid].posting.Counted?
    ensures Next(key, s, ReserveId(rid, 0)) == Some(s1) && Next(key, s1, BuildRow(rid, nonce)) == Some(s2)
    ensures OnlyMoves(s, s1, rid) && Pending(s1.requests[rid], s.requests[rid].user)
    ensures s2 == Staged(key, s, rid, nonce)
  {
    s1 := Next(key, s, ReserveId(rid, 0)).value;
    s2 := Next(key, s1, BuildRow(rid, nonce)).value;
  }

  /** And then finalise and commit it. */
  lemma Commits(key: Key, s: Server, rid: nat, nonce: Nonce) returns (s3: Server, s4: Server)
    requires WellFormed(s.db) && s.db.lastId < MAX_INT64 && PostAt(s, rid)
    ensures Next(key, Staged(key, s, rid, nonce), FinaliseRow(rid, 0)) == Some(s3)
    ensures Next(key, s3, Commit(rid)) == Some(s4)
    ensures var user := s.requests[rid].user;
            && OnlyMoves(s, s3, rid) && OnlyMoves(s, s4, rid)
            && Pending(s3.requests[rid], user) && !Pending(s4.requests[rid], user) && s4.open.None?
            && s4.db.lastId == s.db.lastId + 1 && |OwnedIds(s4.db, user)| == |OwnedIds(s.db, user)| + 1
  {
    var Post(user, input, _) := s.requests[rid];
    var row := Build(key, user, input, nonce, s.db.lastId + 1).value;
    StagedCreateIsOneInsert(s.db, user, row, 0, 0);
    s3 := Next(key, Staged(key, s, rid, nonce), FinaliseRow(rid, 0)).value;
    s4 := Next(key, s3, Commit(rid)).value;
    assert s4.db == Insert(s.db, user, row, 0, 0);
    InsertAddsOneRow(s.db, user, row, 0, 0, user);
  }

  predicate OnlyMoves(s: Server, s': Server, rid: nat) {
    && rid in s.requests && s'.requests.Keys == s.requests.Keys
    && forall other :: other in s.requests && other != rid ==> s'.requests[other] == s.requests[other]
  }

  lemma CommitOne(key: Key, run: seq<Server>, steps: seq<Step>, user: Int64, done: nat, arrived: nat, overlap: nat,
                  nonce: Nonce)
    returns (run': seq<Server>, steps': seq<Step>)
    requires FromEmpty(key, run, steps, user, overlap) && Creating(run[|steps|], user, done, arrived)
    requires done < arrived <= MAX_INT64 && arrived - done <= overlap
    ensures FromEmpty(key, run', steps', user, overlap) && Creating(run'[|steps'|], user, done + 1, arrived)
  {
    RunKeepsInvariant(key, run, steps, |steps|);
    var s1, s2 := Stages(key, run[|steps|], done, nonce);
    var s3, s4 := Commits(key, run[|steps|], done, nonce);
    WindowSize(s1, user, done, arrived);
    WindowSize(s2, user, done, arrived);
    WindowSize(s3, user, done, arrived);
    WindowSize(s4, user, done + 1, arrived);
    run', steps' := ExtendRun(key, run, steps, ReserveId(done, 0), s1, user, overlap);
    run', steps' := ExtendRun(key, run', steps', BuildRow(done, nonce), s2, user, overlap);
    run', steps' := ExtendRun(key, run', steps', FinaliseRow(done, 0), s3, user, overlap);
    run', steps' := ExtendRun(key, run', steps', Commit(done), s4, user, overlap);
  }

  /** Creates one after the other fill the table up to 49 rows. */
  lemma {:induction false} FillsUp(key: Key, user: Int64, done: nat, overlap: nat, nonce: Nonce)
    returns (run: seq<Server>, steps: seq<Step>)
    requires done < MAX_CONFIGS_PER_USER && overlap >= 1
    ensures FromEmpty(key, run, steps, user, overlap) && Creating(run[|steps|], user, done, done)
  {
    if done == 0 {
      run, steps := [Server(Db(map[], 0), None, map[])], [];
      assert OwnedIds(run[0].db, user) == {} && Window(run[0], user) == {};
    } else {
      run, steps := FillsUp(key, user, done - 1, overlap, nonce);
      run, steps := PassOne(key, run, steps, user, done - 1, done - 1, overlap);
      run, steps := CommitOne(key, run, steps, user, done - 1, done, overlap, nonce);
    }
  }

  /** At 49 rows `extra` more creates all pass the check. */
  lemma {:induction false} AllPass(key: Key, user: Int64, extra: nat, overlap: nat, nonce: Nonce)
    returns (run: seq<Server>, steps: seq<Step>)
    requires extra <= overlap && overlap >= 1
    ensures FromEmpty(key, run, steps, user, overlap) && Creating(run[|steps|], user, 49, 49 + extra)
  {
    if extra == 0 {
      run, steps := FillsUp(key, user, 49, overlap, nonce);
    } else {
      run, steps := AllPass(key, user, extra - 1, overlap, nonce);
      run, steps := PassOne(key, run, steps, user, 49, 49 + extra - 1, overlap);
    }
  }

  lemma {:induction false} AllCommit(key: Key, user: Int64, more: nat, overlap: nat, nonce: Nonce)
    returns (run: seq<Server>, steps: seq<Step>)
    requires more <= overlap && overlap >= 1 && 49 + overlap <= MAX_INT64
    ensures FromEmpty(key, run, steps, user, overlap) && Creating(run[|steps|], user, 49 + more, 49 + overlap)
  {
    if more == 0 {
      run, steps := AllPass(key, user, overlap, overlap, nonce);
    } else {
      run, steps := AllCommit(key, user, more - 1, overlap, nonce);
      run, steps := CommitOne(key, run, steps, user, 49 + more - 1, 49 + overlap, overlap, nonce);
    }
  }

  /** From the empty table, for every `overlap`, some run that overlaps so much ends at exactly 49 + `overlap` rows. */
  lemma QuotaBoundIsReached(key: Key, user: Int64, overlap: nat, nonce: Nonce)
    returns (run: seq<Server>, steps: seq<Step>)
    requires 1 <= overlap <= MAX_INT64 - 49
    ensures IsRun(key, run, steps) && run[0].db == Db(map[], 0) && OwnedIds(run[0].db, user) == {}
    ensures forall k :: 0 <= k < |steps| && steps[k].Arrive? ==>
              steps[k].request.Post? && steps[k].request.user == user && steps[k].request.input.name != ""
    ensures forall k :: 0 <= k <= |steps| ==> |Window(run[k], user)| <= overlap
    ensures |OwnedIds(run[|steps|].db, user)| == 49 + overlap
  {
    run, steps := AllCommit(key, user, overlap, overlap, nonce);
  }
}
