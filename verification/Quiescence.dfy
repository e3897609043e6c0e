/**
 No feedback loop: clients that keep re-sending what the row already holds
 never move its sync clock, however they interleave and whatever version
 strings they carry.
 */
module Quiescence {
  import opened Prelude
  import opened ConfigStore
  import opened EncryptedStore
  import opened PlaintextMap
  import opened Interleaving
  import opened StagedCreate
  import opened Versions
  import opened PatchHistory
  import opened PatchEffect

  predicate Targets(request: Request, user: Int64, id: Int64) {
    request.Patch? && request.user == user && request.id == id
  }

  /** A request that, if it addresses the row, carries or omits what the row holds. */
  predicate Agrees(request: Request, user: Int64, id: Int64, row: Plain) {
    Targets(request, user, id) ==>
      && OrElse(request.patch.name, row.name) == row.name
      && OrElse(request.patch.content, row.content) == row.content
  }

  /** Nobody deletes the row, and every PATCH of it agrees with what it holds; other rows are free. */
  ghost predicate OnlyAgreement(steps: seq<Step>, user: Int64, id: Int64, row: Plain) {
    forall k :: 0 <= k < |steps| ==>
      && steps[k] != DeleteRow(user, id)
      && (steps[k].Arrive? ==> Agrees(steps[k].request, user, id, row))
  }

  ghost predicate Unchanged(db: Db, row: Row, id: Int64) {
    && id in db.rows && db.rows[id].user == row.user
    && SameContent(row, db.rows[id]) && db.rows[id].modifiedAt == row.modifiedAt
  }

  ghost predicate Still(key: Key, s: Server, row: Row, id: Int64)
    requires RowOpens(key, id, row)
  {
    var plain := PlainOf(key, id, row);
    && Unchanged(s.db, row, id)
    && forall rid :: rid in s.requests ==>
         && Agrees(s.requests[rid], row.user, id, plain)
         && (Targets(s.requests[rid], row.user, id) && s.requests[rid].patching.Loaded? ==>
               var current := s.requests[rid].patching.current;
               current.name == plain.name && current.content == plain.content && current.modifiedAt == row.modifiedAt)
  }

  lemma StepKeepsTableStill(key: Key, s: Server, step: Step, s': Server, row: Row, id: Int64)
    requires Invariant(key, s) && Next(key, s, step) == Some(s')
    requires RowOpens(key, id, row) && Still(key, s, row, id) && step != DeleteRow(row.user, id)
    ensures Unchanged(s'.db, row, id)
  {
    OnlyCommitsTouchTheTable(key, s, step, s');
    if step.Commit? {
      var request := s.requests[step.rid];
      var createdAt, now, nonce :| Creates(key, s.db, s.open.value.work, request, createdAt, now, nonce);
    }
  }

  lemma StepKeepsStill(key: Key, s: Server, step: Step, s': Server, row: Row, id: Int64)
    requires Invariant(key, s) && Next(key, s, step) == Some(s')
    requires RowOpens(key, id, row) && Still(key, s, row, id) && step != DeleteRow(row.user, id)
    requires step.Arrive? ==> Agrees(step.request, row.user, id, PlainOf(key, id, row))
    ensures Still(key, s', row, id)
  {
    StepKeepsTableStill(key, s, step, s', row, id);
    var plain := PlainOf(key, id, row);
    forall rid | rid in s'.requests
      ensures Agrees(s'.requests[rid], row.user, id, plain)
      ensures Targets(s'.requests[rid], row.user, id) && s'.requests[rid].patching.Loaded? ==>
                var current := s'.requests[rid].patching.current;
                current.name == plain.name && current.content == plain.content && current.modifiedAt == row.modifiedAt
    {
      if !Mine(step, rid) {
        OthersStandStill(key, s, step, s', rid);
      }
    }
  }

  lemma {:induction false} RunKeepsStill(key: Key, run: seq<Server>, steps: seq<Step>, row: Row, id: Int64, n: nat)
    requires IsRun(key, run, steps) && n <= |steps|
    requires RowOpens(key, id, row) && id in run[0].db.rows && run[0].db.rows[id] == row
    requires OnlyAgreement(steps, row.user, id, PlainOf(key, id, row))
    ensures Still(key, run[n], row, id)
  {
    if n > 0 {
      RunKeepsStill(key, run, steps, row, id, n - 1);
      RunKeepsInvariant(key, run, steps, n - 1);
      StepKeepsStill(key, run[n - 1], steps[n - 1], run[n], row, id);
    }
  }

  lemma {:induction false} NoRivalMoves(key: Key, run: seq<Server>, steps: seq<Step>, row: Row, id: Int64,
                                        rid: nat, n: nat)
    requires IsRun(key, run, steps) && n <= |steps|
    requires RowOpens(key, id, row) && id in run[0].db.rows && run[0].db.rows[id] == row
    requires OnlyAgreement(steps, row.user, id, PlainOf(key, id, row))
    requires rid in run[n].requests && Targets(run[n].requests[rid], row.user, id)
    ensures RivalMoves(run, steps, rid, n) == 0
  {
    if n > 0 {
      if rid in run[n - 1].requests {
        TaskNeverChanges(key, run, steps, rid, n - 1, n);
        RunKeepsStill(key, run, steps, row, id, n - 1);
        RunKeepsStill(key, run, steps, row, id, n);
        NoRivalMoves(key, run, steps, row, id, rid, n - 1);
      } else {
        NotYetArrived(key, run, steps, rid, n - 1);
      }
    }
  }

  lemma {:induction false} NotYetArrived(key: Key, run: seq<Server>, steps: seq<Step>, rid: nat, n: nat)
    requires IsRun(key, run, steps) && n <= |steps| && rid !in run[n].requests
    ensures RivalMoves(run, steps, rid, n) == 0
  {
    if n > 0 {
      if rid in run[n - 1].requests {
        TaskNeverChanges(key, run, steps, rid, n - 1, n);
      }
      NotYetArrived(key, run, steps, rid, n - 1);
    }
  }

  /**
   Under agreement the row's name, ciphertext, nonce and timestamp never
   change, and no PATCH of it goes round its loop twice.
   */
  lemma AgreementIsQuiet(key: Key, run: seq<Server>, steps: seq<Step>, user: Int64, id: Int64, n: nat)
    requires IsRun(key, run, steps) && n <= |steps|
    requires Readable(key, run[0].db, user, id)
    requires OnlyAgreement(steps, user, id, Seen(key, run[0].db, id))
    ensures Unchanged(run[n].db, run[0].db.rows[id], id)
    ensures forall rid :: rid in run[n].requests && Targets(run[n].requests[rid], user, id) ==>
              Tries(steps, rid, n) <= 1
  {
    var row := run[0].db.rows[id];
    RunKeepsStill(key, run, steps, row, id, n);
    forall rid | rid in run[n].requests && Targets(run[n].requests[rid], user, id)
      ensures Tries(steps, rid, n) <= 1
    {
      NoRivalMoves(key, run, steps, row, id, rid, n);
      RetryBound(key, run, steps, rid, n);
    }
  }
}
