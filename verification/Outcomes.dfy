/**
 Why a request of the concurrent server ends in an error: in every run each
 error has its own cause, so a request that meets none of them succeeds.
 */
module Outcomes {
  import opened Prelude
  import opened ConfigStore
  import opened EncryptedStore
  import opened Interleaving
  import opened StagedCreate

  /** Step `k` is the one that ends request `rid`, with this answer. */
  ghost predicate EndsAt(run: seq<Server>, steps: seq<Step>, rid: nat, k: nat, result: Result<PlainConfig>)
    requires |run| == |steps| + 1 && k < |steps|
  {
    && rid in run[k].requests && !IsDone(run[k].requests[rid])
    && rid in run[k + 1].requests
    && match run[k + 1].requests[rid]
       case Patch(_, _, _, pc) => pc == Finished(result)
       case Post(_, _, pc) => pc == Posted(result)
  }

  /**
   A PATCH fails only because a fault was injected, because at that moment the
   row is not the caller's, or because at that moment it does not open.
   */
  lemma PatchErrorHasCause(key: Key, run: seq<Server>, steps: seq<Step>, rid: nat, k: nat, error: Error)
    requires IsRun(key, run, steps) && k < |steps| && PatchAt(run[k], rid)
    requires EndsAt(run, steps, rid, k, Err(error))
    ensures var Patch(user, id, _, _) := run[k].requests[rid];
            match error
            case Failed => steps[k] == Fail(rid)
            case NotFound => !Owns(run[k].db, user, id)
            case DecryptFailed => GetPlain(key, run[k].db, user, id) == Err(DecryptFailed) && Owns(run[k].db, user, id)
            case _ => false
  {
    assert Next(key, run[k], steps[k]) == Some(run[k + 1]);
    if !Mine(steps[k], rid) {
      OthersStandStill(key, run[k], steps[k], run[k + 1], rid);
    }
    var Patch(user, id, _, _) := run[k].requests[rid];
    GetPlainIff(key, run[k].db, user, id);
    OnlyReadErrors(key, run[k].db, user, id);
  }

  lemma OnlyReadErrors(key: Key, db: Db, user: Int64, id: Int64)
    ensures var read := GetPlain(key, db, user, id);
            read.Err? ==> read.error == if Owns(db, user, id) then DecryptFailed else NotFound
  {
  }

  /**
   A POST is refused exactly when it counts 50 rows or more, and otherwise
   fails only because a fault was injected or the last int64 id is used up.
   */
  lemma PostErrorHasCause(key: Key, run: seq<Server>, steps: seq<Step>, rid: nat, k: nat, error: Error)
    requires IsRun(key, run, steps) && k < |steps| && PostAt(run[k], rid)
    requires EndsAt(run, steps, rid, k, Err(error))
    ensures match error
            case QuotaExceeded => steps[k] == CountRows(rid) && |OwnedIds(run[k].db, run[k].requests[rid].user)| >= 50
            case Failed => steps[k] == Fail(rid) || (steps[k].ReserveId? && run[k].db.lastId == MAX_INT64)
            case _ => false
  {
    assert Next(key, run[k], steps[k]) == Some(run[k + 1]);
    RunKeepsInvariant(key, run, steps, k);
    if !Mine(steps[k], rid) {
      OthersStandStill(key, run[k], steps[k], run[k + 1], rid);
    }
    if steps[k].FinaliseRow? {
      FinaliseSucceeds(key, run[k], steps[k], run[k + 1]);
    }
  }

  /** The last stages of a create cannot fail by themselves. */
  lemma FinaliseSucceeds(key: Key, s: Server, step: Step, s': Server)
    requires Invariant(key, s) && step.FinaliseRow? && Next(key, s, step) == Some(s')
    ensures PostAt(s', step.rid) && s'.requests[step.rid].posting.Finalised?
  {
    var Post(user, input, pc) := s.requests[step.rid];
    StagedCreateIsOneInsert(s.db, user, pc.row, pc.createdAt, step.now);
  }

  /** A request that has not ended can go on, unless another one holds the write lock. */
  lemma RequestCanMove(key: Key, s: Server, rid: nat, now: Instant, nonce: Nonce) returns (step: Step)
    requires Invariant(key, s) && rid in s.requests && !IsDone(s.requests[rid])
    requires s.open.None? || s.open.value.owner == rid
    ensures Mine(step, rid) && !step.Fail? && Next(key, s, step).Some?
  {
    match s.requests[rid]
    case Patch(_, _, _, pc) =>
      step := match pc
              case Begin => Read(rid)
              case Loaded(_) => Write(rid, now, nonce)
              case Committed => Reload(rid)
              case _ => Answer(rid);
    case Post(_, _, pc) =>
      step := match pc
              case Checking => CountRows(rid)
              case Counted => ReserveId(rid, now)
              case Reserved(_, _) => BuildRow(rid, nonce)
              case Built(_, _, _) => FinaliseRow(rid, now)
              case _ => Commit(rid);
  }

  /** The count decides at 50, and decides nothing else. */
  lemma CountDecidesAt50(key: Key, s: Server, rid: nat, s': Server)
    requires Next(key, s, CountRows(rid)) == Some(s')
    ensures PostAt(s, rid) && PostAt(s', rid) && s'.db == s.db && s'.open == s.open
    ensures s'.requests[rid].posting
         == if |OwnedIds(s.db, s.requests[rid].user)| >= 50 then Posted(Err(QuotaExceeded)) else Counted
  {
  }
}
