/**
 `modified_at` is a version number: in every interleaving, under any clock,
 equal timestamps on one id mean identical name, ciphertext and nonce.
 */
module Versions {
  import opened Prelude
  import opened ConfigStore
  import opened EncryptedStore
  import opened Interleaving
  import opened StagedCreate

  /** A row's later self: newer by timestamp, or the same content under the same timestamp. */
  predicate RowEvolves(row: Row, row': Row) {
    && row'.user == row.user && row'.createdAt == row.createdAt
    && (row.modifiedAt < row'.modifiedAt || (row.modifiedAt == row'.modifiedAt && SameContent(row, row')))
  }

  /** A table's later self: rows evolve or vanish, and new rows take ids never used before. */
  ghost predicate Evolves(db: Db, db': Db) {
    && db.lastId <= db'.lastId
    && forall id :: id in db'.rows ==>
         if id in db.rows then RowEvolves(db.rows[id], db'.rows[id]) else id > db.lastId
  }

  lemma EvolvesTransitive(db0: Db, db1: Db, db2: Db)
    requires WellFormed(db0) && Evolves(db0, db1) && Evolves(db1, db2)
    ensures Evolves(db0, db2)
  {
  }

  lemma StepEvolves(key: Key, s: Server, step: Step, s': Server)
    requires Invariant(key, s) && Next(key, s, step) == Some(s')
    ensures Evolves(s.db, s'.db)
  {
    OnlyCommitsTouchTheTable(key, s, step, s');
    if step.Commit? {
      var request := s.requests[step.rid];
      var createdAt, now, nonce :| Creates(key, s.db, s.open.value.work, request, createdAt, now, nonce);
    }
  }

  lemma {:induction false} RunEvolves(key: Key, run: seq<Server>, steps: seq<Step>, i: nat, j: nat)
    requires IsRun(key, run, steps) && i <= j <= |steps|
    ensures Evolves(run[i].db, run[j].db)
  {
    if i < j {
      RunEvolves(key, run, steps, i, j - 1);
      RunKeepsInvariant(key, run, steps, i);
      RunKeepsInvariant(key, run, steps, j - 1);
      StepEvolves(key, run[j - 1], steps[j - 1], run[j]);
      EvolvesTransitive(run[i].db, run[j - 1].db, run[j].db);
    }
  }

  /** Two observations of one id with equal timestamps saw the same content (no ABA). */
  lemma EqualTimestampsEqualContent(key: Key, run: seq<Server>, steps: seq<Step>, i: nat, j: nat, id: Int64)
    requires IsRun(key, run, steps) && i <= |steps| && j <= |steps|
    requires id in run[i].db.rows && id in run[j].db.rows
    requires run[i].db.rows[id].modifiedAt == run[j].db.rows[id].modifiedAt
    ensures SameContent(run[i].db.rows[id], run[j].db.rows[id])
    ensures run[i].db.rows[id].user == run[j].db.rows[id].user
    ensures run[i].db.rows[id].createdAt == run[j].db.rows[id].createdAt
  {
    if i <= j {
      RunEvolves(key, run, steps, i, j);
    } else {
      RunEvolves(key, run, steps, j, i);
    }
  }

  /** Any change of name or content moves the timestamp strictly forward. */
  lemma ContentChangeAdvances(key: Key, run: seq<Server>, steps: seq<Step>, i: nat, j: nat, id: Int64)
    requires IsRun(key, run, steps) && i <= j <= |steps|
    requires id in run[i].db.rows && id in run[j].db.rows
    ensures run[i].db.rows[id].modifiedAt <= run[j].db.rows[id].modifiedAt
    ensures !SameContent(run[i].db.rows[id], run[j].db.rows[id]) ==>
              run[i].db.rows[id].modifiedAt < run[j].db.rows[id].modifiedAt
  {
    RunEvolves(key, run, steps, i, j);
  }

  /** An id that was committed once and is gone never comes back. */
  lemma IdsNeverReused(key: Key, run: seq<Server>, steps: seq<Step>, i: nat, j: nat, k: nat, id: Int64)
    requires IsRun(key, run, steps) && i <= j <= k <= |steps|
    requires id in run[i].db.rows && id !in run[j].db.rows
    ensures id !in run[k].db.rows
  {
    RunKeepsInvariant(key, run, steps, i);
    RunEvolves(key, run, steps, i, j);
    RunEvolves(key, run, steps, j, k);
  }
}
