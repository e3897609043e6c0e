/**
 What a PATCH did, told from the run it took part in: which read and which
 write made up its successful attempt, how often it tried, and what its
 write amounts to.
 */
module PatchHistory {
  import opened Prelude
  import opened ConfigStore
  import opened EncryptedStore
  import opened Interleaving
  import opened StagedCreate
  import opened Versions

  // ---------- attempts ----------

  /** Request `rid` read at step `r` and has not moved since. */
  ghost predicate ReadAt(key: Key, run: seq<Server>, steps: seq<Step>, rid: nat, r: nat, n: nat)
    requires |run| == |steps| + 1
  {
    && r < n <= |steps| && steps[r] == Read(rid)
    && (forall k :: r < k < n ==> !Mine(steps[k], rid))
    && PatchAt(run[n], rid) && run[n].requests[rid].patching.Loaded?
    && GetPlain(key, run[r].db, run[n].requests[rid].user, run[n].requests[rid].id)
       == Ok(run[n].requests[rid].patching.current)
  }

  /** The attempt of `rid` that read at step `r` committed its write at step `c`. */
  ghost predicate Attempt(key: Key, run: seq<Server>, steps: seq<Step>, rid: nat, r: nat, c: nat)
    requires |run| == |steps| + 1
  {
    && c < |steps| && ReadAt(key, run, steps, rid, r, c)
    && steps[c].Write? && steps[c].rid == rid
    && PatchAt(run[c + 1], rid) && run[c + 1].requests[rid].patching.Committed?
  }

  // ---------- counting ----------

  /** Iterations of the retry loop so far: each starts with a read. */
  function Tries(steps: seq<Step>, rid: nat, n: nat): nat
    requires n <= |steps|
  {
    if n == 0 then 0 else Tries(steps, rid, n - 1) + (if steps[n - 1] == Read(rid) then 1 else 0)
  }

  /** The row is there before and after, under another timestamp. */
  predicate Moved(db: Db, db': Db, user: Int64, id: Int64) {
    Owns(db, user, id) && Owns(db', user, id) && db.rows[id].modifiedAt != db'.rows[id].modifiedAt
  }

  /** Step `k`, by another request, moved the row `rid` is patching, during that call. */
  predicate RivalMove(run: seq<Server>, steps: seq<Step>, rid: nat, k: nat)
    requires |run| == |steps| + 1 && k < |steps|
  {
    && PatchAt(run[k], rid) && !IsDone(run[k].requests[rid]) && !Mine(steps[k], rid)
    && Moved(run[k].db, run[k + 1].db, run[k].requests[rid].user, run[k].requests[rid].id)
  }

  function RivalMoves(run: seq<Server>, steps: seq<Step>, rid: nat, n: nat): nat
    requires |run| == |steps| + 1 && n <= |steps|
  {
    if n == 0 then 0 else RivalMoves(run, steps, rid, n - 1) + (if RivalMove(run, steps, rid, n - 1) then 1 else 0)
  }

  lemma {:induction false} RivalMovesGrow(run: seq<Server>, steps: seq<Step>, rid: nat, i: nat, j: nat)
    requires |run| == |steps| + 1 && i <= j <= |steps|
    ensures RivalMoves(run, steps, rid, i) <= RivalMoves(run, steps, rid, j)
    ensures forall k :: i <= k < j && RivalMove(run, steps, rid, k) ==>
              RivalMoves(run, steps, rid, i) < RivalMoves(run, steps, rid, j)
  {
    if i < j {
      RivalMovesGrow(run, steps, rid, i, j - 1);
    }
  }

  // ---------- the story of one request ----------

  /** How often it has tried, against how often others moved its row. */
  ghost predicate TriesStory(key: Key, run: seq<Server>, steps: seq<Step>, rid: nat, n: nat)
    requires |run| == |steps| + 1 && n <= |steps|
  {
    && (rid !in run[n].requests ==> Tries(steps, rid, n) == 0)
    && (PatchAt(run[n], rid) ==>
          var pc := run[n].requests[rid].patching;
          if pc.Begin? then Tries(steps, rid, n) <= RivalMoves(run, steps, rid, n)
          else if pc.Loaded? then
            exists r: nat :: ReadAt(key, run, steps, rid, r, n)
                             && Tries(steps, rid, n) <= 1 + RivalMoves(run, steps, rid, r)
          else Tries(steps, rid, n) <= 1 + RivalMoves(run, steps, rid, n))
  }

  ghost predicate HasCommitted(key: Key, run: seq<Server>, steps: seq<Step>, rid: nat, n: nat)
    requires |run| == |steps| + 1 && n <= |steps|
  {
    exists r: nat, c: nat :: c < n && Attempt(key, run, steps, rid, r, c)
  }

  /** The answer was read at step `f`, after the write at step `c`. */
  ghost predicate AnsweredAt(key: Key, run: seq<Server>, rid: nat, c: nat, f: nat, n: nat, row: PlainConfig)
    requires n < |run|
  {
    && c < f < n && PatchAt(run[n], rid)
    && GetPlain(key, run[f].db, run[n].requests[rid].user, run[n].requests[rid].id) == Ok(row)
  }

  ghost predicate HasAnswered(key: Key, run: seq<Server>, steps: seq<Step>, rid: nat, n: nat, row: PlainConfig)
    requires |run| == |steps| + 1 && n <= |steps|
  {
    exists r: nat, c: nat, f: nat :: Attempt(key, run, steps, rid, r, c) && AnsweredAt(key, run, rid, c, f, n, row)
  }

  /** What it has committed and answered. */
  ghost predicate CommitStory(key: Key, run: seq<Server>, steps: seq<Step>, rid: nat, n: nat)
    requires |run| == |steps| + 1 && n <= |steps|
  {
    PatchAt(run[n], rid) ==>
      var pc := run[n].requests[rid].patching;
      && (pc.Committed? || pc.Reloaded? ==> HasCommitted(key, run, steps, rid, n))
      && (pc.Finished? && pc.result.Ok? ==> HasAnswered(key, run, steps, rid, n, pc.result.value))
  }

  /** A failed compare-and-set means somebody else moved the row since the read. */
  lemma LostRaceHasARival(key: Key, run: seq<Server>, steps: seq<Step>, rid: nat, r: nat, n: nat)
    requires IsRun(key, run, steps) && ReadAt(key, run, steps, rid, r, n)
    requires var Patch(user, id, _, pc) := run[n].requests[rid];
             Owns(run[n].db, user, id) && run[n].db.rows[id].modifiedAt != pc.current.modifiedAt
    ensures RivalMoves(run, steps, rid, r) < RivalMoves(run, steps, rid, n)
  {
    var Patch(user, id, _, pc) := run[n].requests[rid];
    var k := MovedBetween(key, run, steps, r, n, user, id);
    assert Next(key, run[r], steps[r]) == Some(run[r + 1]);
    StillLoaded(key, run, steps, rid, r, k, n);
    RivalMovesGrow(run, steps, rid, r, n);
    assert RivalMove(run, steps, rid, k);
  }

  /** If a row's timestamp differs between two moments, some step in between moved it. */
  lemma {:induction false} MovedBetween(key: Key, run: seq<Server>, steps: seq<Step>, i: nat, j: nat,
                                        user: Int64, id: Int64)
    returns (k: nat)
    requires IsRun(key, run, steps) && i <= j <= |steps| && Moved(run[i].db, run[j].db, user, id)
    ensures i <= k < j && Moved(run[k].db, run[k + 1].db, user, id)
  {
    RunEvolves(key, run, steps, i, j - 1);
    RunEvolves(key, run, steps, j - 1, j);
    RunKeepsInvariant(key, run, steps, i);
    RunKeepsInvariant(key, run, steps, j - 1);
    if Moved(run[i].db, run[j - 1].db, user, id) {
      k := MovedBetween(key, run, steps, i, j - 1, user, id);
    } else {
      k := j - 1;
    }
  }

  /** Between its read and `n` the request stands still, loaded. */
  lemma {:induction false} StillLoaded(key: Key, run: seq<Server>, steps: seq<Step>, rid: nat, r: nat, k: nat, n: nat)
    requires IsRun(key, run, steps) && ReadAt(key, run, steps, rid, r, n) && r <= k <= n
    ensures PatchAt(run[k], rid) && !IsDone(run[k].requests[rid])
    ensures Task(run[k].requests[rid]) == Task(run[n].requests[rid])
    decreases n - k
  {
    if k == r {
      assert Next(key, run[r], steps[r]) == Some(run[r + 1]);
      TaskNeverChanges(key, run, steps, rid, r, n);
    } else if k < n {
      StillLoaded(key, run, steps, rid, r, k + 1, n);
      OthersStandStill(key, run[k], steps[k], run[k + 1], rid);
    }
  }

  /** A write commits, fails, or finds the row moved and goes back to the start. */
  lemma WriteOutcome(key: Key, s: Server, step: Step, s': Server)
    requires Next(key, s, step) == Some(s') && step.Write?
    ensures PatchAt(s, step.rid) && s.requests[step.rid].patching.Loaded? && PatchAt(s', step.rid)
    ensures var Patch(user, id, _, pc) := s.requests[step.rid];
            var pc' := s'.requests[step.rid].patching;
            && !pc'.Loaded? && !pc'.Reloaded? && (pc'.Finished? ==> pc'.result.Err?)
            && (pc'.Begin? ==> Owns(s.db, user, id) && s.db.rows[id].modifiedAt != pc.current.modifiedAt)
  {
  }

  lemma TriesAfterWrite(key: Key, run: seq<Server>, steps: seq<Step>, rid: nat, n: nat)
    requires IsRun(key, run, steps) && 0 < n <= |steps| && Mine(steps[n - 1], rid) && steps[n - 1].Write?
    requires TriesStory(key, run, steps, rid, n - 1)
    ensures TriesStory(key, run, steps, rid, n)
  {
    WriteOutcome(key, run[n - 1], steps[n - 1], run[n]);
    var r: nat :| ReadAt(key, run, steps, rid, r, n - 1)
                  && Tries(steps, rid, n - 1) <= 1 + RivalMoves(run, steps, rid, r);
    RivalMovesGrow(run, steps, rid, r, n - 1);
    if run[n].requests[rid].patching.Begin? {
      LostRaceHasARival(key, run, steps, rid, r, n - 1);
    }
  }

  lemma TriesAfterOwnStep(key: Key, run: seq<Server>, steps: seq<Step>, rid: nat, n: nat)
    requires IsRun(key, run, steps) && 0 < n <= |steps| && Mine(steps[n - 1], rid) && !steps[n - 1].Write?
    requires TriesStory(key, run, steps, rid, n - 1)
    ensures TriesStory(key, run, steps, rid, n)
  {
    assert Next(key, run[n - 1], steps[n - 1]) == Some(run[n]);
    if steps[n - 1].Read? && run[n].requests[rid].patching.Loaded? {
      assert ReadAt(key, run, steps, rid, n - 1, n);
    } else if steps[n - 1].Fail? && PatchAt(run[n - 1], rid) && run[n - 1].requests[rid].patching.Loaded? {
      var r: nat :| ReadAt(key, run, steps, rid, r, n - 1)
                    && Tries(steps, rid, n - 1) <= 1 + RivalMoves(run, steps, rid, r);
      RivalMovesGrow(run, steps, rid, r, n - 1);
    }
  }

  lemma {:induction false} TriesStoryHolds(key: Key, run: seq<Server>, steps: seq<Step>, rid: nat, n: nat)
    requires IsRun(key, run, steps) && n <= |steps|
    ensures TriesStory(key, run, steps, rid, n)
  {
    if n > 0 {
      TriesStoryHolds(key, run, steps, rid, n - 1);
      if !Mine(steps[n - 1], rid) {
        OthersStandStill(key, run[n - 1], steps[n - 1], run[n], rid);
        if PatchAt(run[n], rid) && run[n].requests[rid].patching.Loaded? {
          var r: nat :| ReadAt(key, run, steps, rid, r, n - 1)
                        && Tries(steps, rid, n - 1) <= 1 + RivalMoves(run, steps, rid, r);
          assert ReadAt(key, run, steps, rid, r, n);
        }
      } else if steps[n - 1].Write? {
        TriesAfterWrite(key, run, steps, rid, n);
      } else {
        TriesAfterOwnStep(key, run, steps, rid, n);
      }
    }
  }

  lemma CommitAfterOwnStep(key: Key, run: seq<Server>, steps: seq<Step>, rid: nat, n: nat)
    requires IsRun(key, run, steps) && 0 < n <= |steps| && Mine(steps[n - 1], rid)
    requires CommitStory(key, run, steps, rid, n - 1)
    ensures CommitStory(key, run, steps, rid, n)
  {
    assert Next(key, run[n - 1], steps[n - 1]) == Some(run[n]);
    if steps[n - 1].Write? {
      WriteOutcome(key, run[n - 1], steps[n - 1], run[n]);
      TriesStoryHolds(key, run, steps, rid, n - 1);
      var r: nat :| ReadAt(key, run, steps, rid, r, n - 1)
                    && Tries(steps, rid, n - 1) <= 1 + RivalMoves(run, steps, rid, r);
      if run[n].requests[rid].patching.Committed? {
        assert Attempt(key, run, steps, rid, r, n - 1);
      }
    } else if steps[n - 1].Reload? || steps[n - 1].Answer? {
      var r: nat, c: nat :| c < n - 1 && Attempt(key, run, steps, rid, r, c);
      if steps[n - 1].Answer? && run[n].requests[rid].patching.result.Ok? {
        assert AnsweredAt(key, run, rid, c, n - 1, n, run[n].requests[rid].patching.result.value);
      }
    }
  }

  lemma {:induction false} CommitStoryHolds(key: Key, run: seq<Server>, steps: seq<Step>, rid: nat, n: nat)
    requires IsRun(key, run, steps) && n <= |steps|
    ensures CommitStory(key, run, steps, rid, n)
  {
    if n > 0 {
      CommitStoryHolds(key, run, steps, rid, n - 1);
      if Mine(steps[n - 1], rid) {
        CommitAfterOwnStep(key, run, steps, rid, n);
      } else {
        OthersStandStill(key, run[n - 1], steps[n - 1], run[n], rid);
        if PatchAt(run[n], rid) && run[n].requests[rid].patching.Finished? && run[n].requests[rid].patching.result.Ok? {
          var row := run[n].requests[rid].patching.result.value;
          var r: nat, c: nat, f: nat :|
            Attempt(key, run, steps, rid, r, c) && AnsweredAt(key, run, rid, c, f, n - 1, row);
          assert AnsweredAt(key, run, rid, c, f, n, row);
        }
      }
    }
  }

  // ---------- the retry bound ----------

  /** A PATCH tries at most once more than other requests moved its row during the call. */
  lemma RetryBound(key: Key, run: seq<Server>, steps: seq<Step>, rid: nat, n: nat)
    requires IsRun(key, run, steps) && n <= |steps| && PatchAt(run[n], rid)
    ensures Tries(steps, rid, n) <= 1 + RivalMoves(run, steps, rid, n)
  {
    TriesStoryHolds(key, run, steps, rid, n);
    if run[n].requests[rid].patching.Loaded? {
      var r: nat :| ReadAt(key, run, steps, rid, r, n) && Tries(steps, rid, n) <= 1 + RivalMoves(run, steps, rid, r);
      RivalMovesGrow(run, steps, rid, r, n);
    }
  }
}
