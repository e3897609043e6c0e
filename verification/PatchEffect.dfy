/**
 What a successful PATCH amounts to, in every interleaving: when it is one
 atomic application of the whole patch, and what holds of it when it is not.
 */
module PatchEffect {
  import opened Prelude
  import opened Envelope
  import opened ConfigStore
  import opened EncryptedStore
  import opened PlaintextMap
  import opened Interleaving
  import opened StagedCreate
  import opened Versions
  import opened PatchHistory

  /** The row as a plaintext reader of `db` sees it. */
  function Seen(key: Key, db: Db, id: Int64): Plain
    requires id in db.rows && RowOpens(key, id, db.rows[id])
  {
    PlainOf(key, id, db.rows[id])
  }

  ghost predicate Readable(key: Key, db: Db, user: Int64, id: Int64) {
    Owns(db, user, id) && RowOpens(key, id, db.rows[id])
  }

  /** Between `db` and `db'` the whole patch was applied at once to one row, and nothing else happened. */
  ghost predicate AppliedAtOnce(key: Key, db: Db, db': Db, user: Int64, id: Int64, patch: PlainPatch, now: Instant) {
    && Readable(key, db, user, id) && Readable(key, db', user, id)
    && db'.lastId == db.lastId && db'.rows - {id} == db.rows - {id}
    && Seen(key, db', id) == Apply(Seen(key, db, id), patch, now)
  }

  /** The facts an attempt carries: what was read, what was met, and the one transaction that was run. */
  lemma AttemptFacts(key: Key, run: seq<Server>, steps: seq<Step>, rid: nat, r: nat, c: nat)
    requires IsRun(key, run, steps) && Attempt(key, run, steps, rid, r, c)
    ensures var Patch(user, id, patch, pc) := run[c].requests[rid];
            && Readable(key, run[r].db, user, id)
            && pc.current == Present(id, Seen(key, run[r].db, id))
            && Owns(run[c].db, user, id) && Owns(run[c + 1].db, user, id)
            && run[c + 1].db == run[c].db.(rows := run[c].db.rows[id :=
                 Patched(run[c].db.rows[id], InnerPatch(key, pc.current, patch, steps[c].nonce), steps[c].now)])
            && (!RealChange(patch, pc.current) ==> run[c].db.rows[id].modifiedAt == pc.current.modifiedAt)
  {
    assert Next(key, run[c], steps[c]) == Some(run[c + 1]);
  }

  // ---------- the metadata-only branch ----------

  /**
   A PATCH that found nothing to change is one atomic application of its whole
   patch: at its read, where it changes nothing, if its version was absent or
   already stored; at its compare-and-set commit otherwise.
   */
  lemma MetadataPatchIsAtomic(key: Key, run: seq<Server>, steps: seq<Step>, rid: nat, r: nat, c: nat)
    requires IsRun(key, run, steps) && Attempt(key, run, steps, rid, r, c)
    requires !RealChange(run[c].requests[rid].patch, run[c].requests[rid].patching.current)
    ensures var Patch(user, id, patch, pc) := run[c].requests[rid];
            if patch.version.None? || patch.version.value == pc.current.version
            then && AppliedAtOnce(key, run[r].db, run[r].db, user, id, patch, steps[c].now)
                 && run[c + 1].db == run[c].db
            else AppliedAtOnce(key, run[c].db, run[c + 1].db, user, id, patch, steps[c].now)
  {
    AttemptFacts(key, run, steps, rid, r, c);
    var Patch(user, id, patch, pc) := run[c].requests[rid];
    EqualTimestampsEqualContent(key, run, steps, r, c, id);
    var met := run[c].db.rows[id];
    if patch.version.None? || patch.version.value == pc.current.version {
      assert Patched(met, InnerPatch(key, pc.current, patch, steps[c].nonce), steps[c].now) == met;
      assert run[c].db.rows[id := met] == run[c].db.rows;
    }
  }

  // ---------- the change branch ----------

  /**
   Exactly when a changing PATCH is one atomic application of its whole patch
   at its commit: every named field that was left out because it matched at
   the read still matches, and some named field still differs.
   */
  ghost predicate NothingStale(patch: PlainPatch, read: PlainConfig, met: PlainConfig) {
    && (patch.name.Some? && !NameChanges(patch, read) ==> !NameChanges(patch, met))
    && (patch.content.Some? && !ContentChanges(patch, read) ==> !ContentChanges(patch, met))
    && RealChange(patch, met)
  }

  lemma ChangingPatchIsAtomicIff(key: Key, run: seq<Server>, steps: seq<Step>, rid: nat, r: nat, c: nat)
    requires IsRun(key, run, steps) && Attempt(key, run, steps, rid, r, c)
    requires RealChange(run[c].requests[rid].patch, run[c].requests[rid].patching.current)
    requires Sound(key, run[0].db)
    ensures var Patch(user, id, patch, pc) := run[c].requests[rid];
            && Readable(key, run[c].db, user, id)
            && (AppliedAtOnce(key, run[c].db, run[c + 1].db, user, id, patch, steps[c].now)
                <==> NothingStale(patch, pc.current, Present(id, Seen(key, run[c].db, id))))
  {
    AttemptFacts(key, run, steps, rid, r, c);
    RowsAlwaysSound(key, run, steps, c);
    RowsAlwaysSound(key, run, steps, c + 1);
    var Patch(user, id, patch, pc) := run[c].requests[rid];
    assert run[c + 1].db.rows - {id} == run[c].db.rows - {id};
    ChangedRow(key, run, steps, rid, r, c);
  }

  /** The row a changing PATCH leaves, in plaintext. */
  lemma ChangedRow(key: Key, run: seq<Server>, steps: seq<Step>, rid: nat, r: nat, c: nat)
    requires IsRun(key, run, steps) && Attempt(key, run, steps, rid, r, c)
    requires RealChange(run[c].requests[rid].patch, run[c].requests[rid].patching.current)
    requires var id := run[c].requests[rid].id; Readable(key, run[c].db, run[c].requests[rid].user, id)
    ensures var Patch(user, id, patch, pc) := run[c].requests[rid];
            && Readable(key, run[c + 1].db, user, id)
            && var met := Seen(key, run[c].db, id);
               Seen(key, run[c + 1].db, id)
               == met.(name := if NameChanges(patch, pc.current) then patch.name.value else met.name,
                       content := if ContentChanges(patch, pc.current) then patch.content.value else met.content,
                       version := OrElse(patch.version, met.version),
                       modifiedAt := NextModifiedAt(met.modifiedAt, steps[c].now))
  {
    AttemptFacts(key, run, steps, rid, r, c);
  }

  /** In particular it is atomic whenever nobody moved the row between its read and its write. */
  lemma UnmovedPatchIsAtomic(key: Key, run: seq<Server>, steps: seq<Step>, rid: nat, r: nat, c: nat)
    requires IsRun(key, run, steps) && Attempt(key, run, steps, rid, r, c)
    requires RealChange(run[c].requests[rid].patch, run[c].requests[rid].patching.current)
    requires Sound(key, run[0].db)
    requires var Patch(user, id, _, _) := run[c].requests[rid]; !Moved(run[r].db, run[c].db, user, id)
    ensures var Patch(user, id, patch, _) := run[c].requests[rid];
            AppliedAtOnce(key, run[c].db, run[c + 1].db, user, id, patch, steps[c].now)
  {
    AttemptFacts(key, run, steps, rid, r, c);
    EqualTimestampsEqualContent(key, run, steps, r, c, run[c].requests[rid].id);
    ChangingPatchIsAtomicIff(key, run, steps, rid, r, c);
  }

  // ---------- field by field, always ----------

  /** Each named field held the requested value right after the read or right after the write. */
  ghost predicate FieldsHeld(key: Key, read: Db, wrote: Db, user: Int64, id: Int64, patch: PlainPatch) {
    && Readable(key, read, user, id) && Owns(wrote, user, id)
    && (patch.name.Some? ==> patch.name.value in {read.rows[id].name, wrote.rows[id].name})
    && (patch.version.Some? ==>
          patch.version.value in {Scan(id, read.rows[id]).version, Scan(id, wrote.rows[id]).version})
    && (patch.content.Some? ==>
          || Seen(key, read, id).content == patch.content.value
          || (Readable(key, wrote, user, id) && Seen(key, wrote, id).content == patch.content.value))
  }

  /** The write touched one row, and in it only what the patch names. */
  ghost predicate RestUntouched(met: Db, wrote: Db, user: Int64, id: Int64, patch: PlainPatch) {
    && Owns(met, user, id) && Owns(wrote, user, id)
    && wrote.lastId == met.lastId && wrote.rows - {id} == met.rows - {id}
    && wrote.rows[id].createdAt == met.rows[id].createdAt
    && (patch.name.None? ==> wrote.rows[id].name == met.rows[id].name)
    && (patch.content.None? ==>
          wrote.rows[id].cipher == met.rows[id].cipher && wrote.rows[id].nonce == met.rows[id].nonce)
    && (patch.version.None? ==> wrote.rows[id].version == met.rows[id].version)
  }

  /** One write, compared against `read` and run against `met`. */
  lemma OneWrite(key: Key, read: Db, met: Db, user: Int64, id: Int64, patch: PlainPatch, nonce: Nonce, now: Instant)
    requires Readable(key, read, user, id) && Owns(met, user, id)
    ensures var inner := InnerPatch(key, Present(id, Seen(key, read, id)), patch, nonce);
            var wrote := met.(rows := met.rows[id := Patched(met.rows[id], inner, now)]);
            FieldsHeld(key, read, wrote, user, id, patch) && RestUntouched(met, wrote, user, id, patch)
  {
    var inner := InnerPatch(key, Present(id, Seen(key, read, id)), patch, nonce);
    var row := Patched(met.rows[id], inner, now);
    assert met.rows[id := row] - {id} == met.rows - {id};
  }

  /** The retry loop of the store object, for any rivals: a run that answers with a row made such a write. */
  lemma RetryLoopEffect(key: Key, db: Db, user: Int64, id: Int64, patch: PlainPatch, now: Instant, nonce: Nonce,
                        rivals: seq<Interference>, late: seq<Rival>) returns (read: Db, met: Db, wrote: Db)
    requires PatchLoop(key, db, user, id, patch, now, nonce, rivals, late).result.Ok?
    ensures var run := PatchLoop(key, db, user, id, patch, now, nonce, rivals, late);
            && 1 <= run.tries <= |rivals| + 1
            && read == AfterLosses(db, rivals, run.tries - 1) && met == MetBy(read, rivals, run.tries - 1)
            && FieldsHeld(key, read, wrote, user, id, patch)
            && RestUntouched(met, wrote, user, id, patch)
            && run.db == RivalCommits(wrote, late) && run.result == GetPlain(key, run.db, user, id)
  {
    var run := PatchLoop(key, db, user, id, patch, now, nonce, rivals, late);
    LastAttemptDecides(key, db, user, id, patch, now, nonce, rivals, late);
    read := AfterLosses(db, rivals, run.tries - 1);
    met := MetBy(read, rivals, run.tries - 1);
    var current := GetPlain(key, read, user, id).value;
    assert current == Present(id, Seen(key, read, id));
    wrote := Update(met, user, id, InnerPatch(key, current, patch, nonce), now).db;
    OneWrite(key, read, met, user, id, patch, nonce, now);
  }

  lemma AttemptEffect(key: Key, run: seq<Server>, steps: seq<Step>, rid: nat, r: nat, c: nat)
    requires IsRun(key, run, steps) && Attempt(key, run, steps, rid, r, c)
    ensures var Patch(user, id, patch, _) := run[c].requests[rid];
            && FieldsHeld(key, run[r].db, run[c + 1].db, user, id, patch)
            && RestUntouched(run[c].db, run[c + 1].db, user, id, patch)
  {
    AttemptFacts(key, run, steps, rid, r, c);
    var Patch(user, id, patch, pc) := run[c].requests[rid];
    OneWrite(key, run[r].db, run[c].db, user, id, patch, steps[c].nonce, steps[c].now);
  }

  /**
   Every PATCH that answers with a row: it made one committed attempt, each
   named field held at its read or its write, nothing else was touched, and
   the row it returns is at least as new as its own commit.
   */
  lemma SuccessfulPatch(key: Key, run: seq<Server>, steps: seq<Step>, rid: nat, row: PlainConfig)
    returns (r: nat, c: nat, f: nat)
    requires IsRun(key, run, steps) && PatchAt(run[|steps|], rid)
    requires run[|steps|].requests[rid].patching == Finished(Ok(row))
    ensures Attempt(key, run, steps, rid, r, c) && c < f < |steps|
    ensures var Patch(user, id, patch, _) := run[|steps|].requests[rid];
            && FieldsHeld(key, run[r].db, run[c + 1].db, user, id, patch)
            && RestUntouched(run[c].db, run[c + 1].db, user, id, patch)
            && GetPlain(key, run[f].db, user, id) == Ok(row)
            && run[c + 1].db.rows[id].modifiedAt <= row.modifiedAt
  {
    CommitStoryHolds(key, run, steps, rid, |steps|);
    r, c, f :| Attempt(key, run, steps, rid, r, c) && AnsweredAt(key, run, rid, c, f, |steps|, row);
    AttemptEffect(key, run, steps, rid, r, c);
    TaskNeverChanges(key, run, steps, rid, c, |steps|);
    RunEvolves(key, run, steps, c + 1, f);
    RunKeepsInvariant(key, run, steps, c + 1);
  }

  // ---------- the whole patch need never hold ----------

  function SplitRow(key: Key, nonce: Nonce, name: string, content: Byte, modifiedAt: Instant): Row {
    Row(7, name, Sealed(key, 7, 1, nonce, [content]), nonce, None, 0, modifiedAt)
  }

  /** Both writes of the example start from the same read. */
  lemma SplitWrites(key: Key, first: Nonce, second: Nonce, current: PlainConfig)
    requires current == PlainConfig(1, 7, "a", [1], "", 0, 1)
    ensures var inner := InnerPatch(key, current, PlainPatch(None, Some([2]), None), second);
            && inner == UpdatePatch(None, Sealed(key, 7, 1, second, [2]), second, None, false, None)
            && Patched(SplitRow(key, first, "a", 1, 1), inner, 5) == SplitRow(key, second, "a", 2, 5)
    ensures var inner := InnerPatch(key, current, PlainPatch(Some("b"), Some([1]), None), second);
            && inner == UpdatePatch(Some("b"), NO_BLOB, [], None, false, None)
            && Patched(SplitRow(key, second, "a", 2, 5), inner, 6) == SplitRow(key, second, "b", 2, 6)
  {
    assert "a"[0] != "b"[0] && [1][0] != [2][0];
  }

  /** The example's states: two requests, two reads, two writes, one answer. */
  function SplitRun(key: Key, first: Nonce, second: Nonce): (run: seq<Server>)
    ensures |run| == 9
  {
    var db0 := Db(map[1 := SplitRow(key, first, "a", 1, 1)], 1);
    var db1 := db0.(rows := db0.rows[1 := SplitRow(key, second, "a", 2, 5)]);
    var db2 := db1.(rows := db1.rows[1 := SplitRow(key, second, "b", 2, 6)]);
    var current := PlainConfig(1, 7, "a", [1], "", 0, 1);
    var s0 := Server(db0, None, map[]);
    var s1 := s0.(requests := s0.requests[0 := Patch(7, 1, PlainPatch(Some("b"), Some([1]), None), Begin)]);
    var s2 := s1.(requests := s1.requests[1 := Patch(7, 1, PlainPatch(None, Some([2]), None), Begin)]);
    var s3 := Patching(s2, 0, Loaded(current));
    var s4 := Patching(s3, 1, Loaded(current));
    var s5 := Patching(s4, 1, Committed).(db := db1);
    var s6 := Patching(s5, 0, Committed).(db := db2);
    var s7 := Patching(s6, 0, Reloaded);
    var s8 := Patching(s7, 0, Finished(Ok(PlainConfig(1, 7, "b", [2], "", 0, 6))));
    [s0, s1, s2, s3, s4, s5, s6, s7, s8]
  }

  function SplitSteps(second: Nonce): (steps: seq<Step>)
    ensures |steps| == 8
  {
    [Arrive(0, Patch(7, 1, PlainPatch(Some("b"), Some([1]), None), Begin)),
     Arrive(1, Patch(7, 1, PlainPatch(None, Some([2]), None), Begin)),
     Read(0), Read(1), Write(1, 5, second), Write(0, 6, second), Reload(0), Answer(0)]
  }

  lemma SplitReads(key: Key, first: Nonce, second: Nonce)
    ensures var run, steps := SplitRun(key, first, second), SplitSteps(second);
            forall k :: 0 <= k < 4 ==> Next(key, run[k], steps[k]) == Some(run[k + 1])
  {
    var run, steps := SplitRun(key, first, second), SplitSteps(second);
    assert Next(key, run[0], steps[0]) == Some(run[1]);
    assert Next(key, run[1], steps[1]) == Some(run[2]);
    assert Next(key, run[2], steps[2]) == Some(run[3]);
    assert Next(key, run[3], steps[3]) == Some(run[4]);
  }

  lemma SplitCommits(key: Key, first: Nonce, second: Nonce)
    ensures var run, steps := SplitRun(key, first, second), SplitSteps(second);
            forall k :: 4 <= k < 8 ==> Next(key, run[k], steps[k]) == Some(run[k + 1])
  {
    var run, steps := SplitRun(key, first, second), SplitSteps(second);
    SplitWrites(key, first, second, PlainConfig(1, 7, "a", [1], "", 0, 1));
    assert Next(key, run[4], steps[4]) == Some(run[5]);
    assert Next(key, run[5], steps[5]) == Some(run[6]);
    assert Next(key, run[6], steps[6]) == Some(run[7]);
    assert Next(key, run[7], steps[7]) == Some(run[8]);
  }

  /**
   A PATCH of name and content, overtaken by a PATCH of the content: both
   succeed, and at no moment does the row hold everything the first one asked
   for. This is why the atomicity results above carry conditions.
   */
  lemma OvertakenPatchSplits(key: Key, first: Nonce, second: Nonce) returns (run: seq<Server>, steps: seq<Step>)
    requires first != second
    ensures IsRun(key, run, steps) && Sound(key, run[0].db)
    ensures var end := run[|steps|].requests;
            && PatchAt(run[|steps|], 0) && end[0].patching.Finished? && end[0].patching.result.Ok?
            && end[0].patch == PlainPatch(Some("b"), Some([1]), None)
    ensures forall k :: 0 <= k <= |steps| ==>
              && Readable(key, run[k].db, 7, 1)
              && !(Seen(key, run[k].db, 1).name == "b" && Seen(key, run[k].db, 1).content == [1])
  {
    run, steps := SplitRun(key, first, second), SplitSteps(second);
    SplitReads(key, first, second);
    SplitCommits(key, first, second);
    assert "a"[0] != "b"[0] && [1][0] != [2][0];
  }
}
