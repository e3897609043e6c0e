/**
 Per-user isolation: what a user sees depends on that user's own rows and
 requests, never on anyone else's.
 */
module Isolation {
  import opened Prelude
  import opened ConfigStore
  import opened EncryptedStore
  import opened PlaintextMap
  import Interleaving
  import StagedCreate

  /** The rows a user owns. */
  function View(db: Db, user: Int64): map<Int64, Row> {
    map id | id in db.rows && db.rows[id].user == user :: db.rows[id]
  }

  /** The subsequence of `ops` issued by `user`. */
  function Own(ops: seq<Op>, user: Int64): seq<Op> {
    if ops == [] then []
    else (if ops[0].user == user then [ops[0]] else []) + Own(ops[1..], user)
  }

  /** The answers `user` receives while everyone's requests are served. */
  function AnswersTo(key: Key, db: Db, ops: seq<Op>, user: Int64): seq<Answer>
    decreases |ops|
  {
    if ops == [] then []
    else
      var (db', answer) := StackStep(key, db, ops[0]);
      (if ops[0].user == user then [answer] else []) + AnswersTo(key, db', ops[1..], user)
  }

  /** The shared id counter as each create of `user` finds it: all that a create sees of the others. */
  function CountersSeen(key: Key, db: Db, ops: seq<Op>, user: Int64): seq<Int64>
    decreases |ops|
  {
    if ops == [] then []
    else
      (if ops[0].user == user && ops[0].DoCreate? then [db.lastId] else [])
      + CountersSeen(key, StackStep(key, db, ops[0]).0, ops[1..], user)
  }

  lemma StepKeepsWellFormed(key: Key, db: Db, op: Op)
    requires WellFormed(db)
    ensures WellFormed(StackStep(key, db, op).0)
  {
  }

  /** Another user's request, whatever it is, leaves every row of `user` as it was. */
  lemma OthersLeaveRowsAlone(key: Key, db: Db, op: Op, user: Int64)
    requires WellFormed(db) && op.user != user
    ensures View(StackStep(key, db, op).0, user) == View(db, user)
  {
  }

  lemma SameViewSameRow(db: Db, db': Db, user: Int64, id: Int64)
    requires View(db, user) == View(db', user)
    ensures Owns(db, user, id) <==> Owns(db', user, id)
    ensures Owns(db, user, id) ==> db.rows[id] == db'.rows[id]
  {
    assert Owns(db, user, id) <==> id in View(db, user);
    assert Owns(db', user, id) <==> id in View(db', user);
    assert Owns(db, user, id) ==> db.rows[id] == View(db, user)[id] == View(db', user)[id];
  }

  lemma SameViewSameIds(db: Db, db': Db, user: Int64)
    requires View(db, user) == View(db', user)
    ensures OwnedIds(db, user) == OwnedIds(db', user)
    ensures List(db, user) == List(db', user)
  {
    assert OwnedIds(db, user) == View(db, user).Keys;
    assert OwnedIds(db', user) == View(db', user).Keys;
    var ids := Ascending(OwnedIds(db, user));
    AscendingOrders(OwnedIds(db, user));
    forall i | 0 <= i < |ids|
      ensures List(db, user)[i] == List(db', user)[i]
    {
      assert ids[i] in ids;
      SameViewSameRow(db, db', user, ids[i]);
    }
  }

  /** Two tables that agree on the user's rows answer the user alike and still agree after. */
  lemma OwnOutcomeFromOwnRows(key: Key, db: Db, db': Db, op: Op, user: Int64)
    requires op.user == user && View(db, user) == View(db', user)
    requires op.DoCreate? ==> db.lastId == db'.lastId
    ensures StackStep(key, db, op).1 == StackStep(key, db', op).1
    ensures View(StackStep(key, db, op).0, user) == View(StackStep(key, db', op).0, user)
  {
    match op
    case DoCreate(_, _, _, _, _) => CreateFromCounter(key, db, db', op, user);
    case DoList(_) => SameViewSameIds(db, db', user);
    case DoCount(_) => SameViewSameIds(db, db', user);
    case DoGet(_, id) => SameViewSameRow(db, db', user, id);
    case DoDelete(_, id) =>
      SameViewSameRow(db, db', user, id);
      assert View(Delete(db, user, id).db, user) == View(db, user) - {id};
      assert View(Delete(db', user, id).db, user) == View(db', user) - {id};
    case DoPatch(_, id, patch, now, nonce) => PatchFromOwnRow(key, db, db', op, user);
  }

  lemma PatchFromOwnRow(key: Key, db: Db, db': Db, op: Op, user: Int64)
    requires op.user == user && op.DoPatch? && View(db, user) == View(db', user)
    ensures StackStep(key, db, op).1 == StackStep(key, db', op).1
    ensures View(StackStep(key, db, op).0, user) == View(StackStep(key, db', op).0, user)
  {
    var id := op.id;
    SameViewSameRow(db, db', user, id);
    var current := GetPlain(key, db, user, id);
    assert current == GetPlain(key, db', user, id);
    if current.Ok? {
      var row := Patched(db.rows[id], InnerPatch(key, current.value, op.patch, op.nonce), op.now);
      var after, after' := db.(rows := db.rows[id := row]), db'.(rows := db'.rows[id := row]);
      assert StackStep(key, db, op).0 == after && StackStep(key, db', op).0 == after';
      assert View(after, user) == View(db, user)[id := row];
      assert View(after', user) == View(db', user)[id := row];
    }
  }

  lemma CreateFromCounter(key: Key, db: Db, db': Db, op: Op, user: Int64)
    requires op.user == user && op.DoCreate? && View(db, user) == View(db', user) && db.lastId == db'.lastId
    ensures StackStep(key, db, op).1 == StackStep(key, db', op).1
    ensures View(StackStep(key, db, op).0, user) == View(StackStep(key, db', op).0, user)
  {
    if db.lastId < MAX_INT64 {
      var id: Int64 := db.lastId + 1;
      var after, after' := StackStep(key, db, op).0, StackStep(key, db', op).0;
      var row := after.rows[id];
      assert after.rows == db.rows[id := row] && after'.rows == db'.rows[id := row];
      assert View(after, user) == View(db, user)[id := row];
      assert View(after', user) == View(db', user)[id := row];
    }
  }

  lemma Unroll(key: Key, db: Db, ops: seq<Op>, user: Int64)
    requires ops != []
    ensures var db' := StackStep(key, db, ops[0]).0;
            var rest := ops[1..];
            if ops[0].user == user then
              && AnswersTo(key, db, ops, user) == [StackStep(key, db, ops[0]).1] + AnswersTo(key, db', rest, user)
              && Own(ops, user) == [ops[0]] + Own(rest, user)
              && CountersSeen(key, db, ops, user)
                 == (if ops[0].DoCreate? then [db.lastId] else []) + CountersSeen(key, db', rest, user)
            else
              && AnswersTo(key, db, ops, user) == AnswersTo(key, db', rest, user)
              && Own(ops, user) == Own(rest, user)
              && CountersSeen(key, db, ops, user) == CountersSeen(key, db', rest, user)
  {
  }

  /** A step of somebody else's drops out of the run. */
  lemma SkipOther(key: Key, db: Db, ops: seq<Op>, user: Int64) returns (db': Db)
    requires WellFormed(db) && ops != [] && ops[0].user != user
    ensures db' == StackStep(key, db, ops[0]).0 && WellFormed(db') && View(db', user) == View(db, user)
    ensures AnswersTo(key, db, ops, user) == AnswersTo(key, db', ops[1..], user)
    ensures Own(ops, user) == Own(ops[1..], user)
    ensures CountersSeen(key, db, ops, user) == CountersSeen(key, db', ops[1..], user)
  {
    db' := StackStep(key, db, ops[0]).0;
    StepKeepsWellFormed(key, db, ops[0]);
    OthersLeaveRowsAlone(key, db, ops[0], user);
    Unroll(key, db, ops, user);
  }

  /** The table is one the store can have, or nobody else uses it. */
  ghost predicate Safe(db: Db, ops: seq<Op>, user: Int64) {
    WellFormed(db) || forall op :: op in ops ==> op.user == user
  }

  lemma StaysSafe(key: Key, db: Db, ops: seq<Op>, user: Int64)
    requires Safe(db, ops, user) && ops != []
    ensures Safe(StackStep(key, db, ops[0]).0, ops[1..], user)
  {
    if WellFormed(db) {
      StepKeepsWellFormed(key, db, ops[0]);
    }
  }

  /**
   Two runs that agree on a user's rows and requests, and on the id counter at
   each of that user's creates, agree on every answer to that user.
   */
  lemma {:induction false} NonInterference(key: Key, db: Db, ops: seq<Op>, db': Db, ops': seq<Op>, user: Int64)
    requires Safe(db, ops, user) && Safe(db', ops', user) && View(db, user) == View(db', user)
    requires Own(ops, user) == Own(ops', user)
    requires CountersSeen(key, db, ops, user) == CountersSeen(key, db', ops', user)
    ensures AnswersTo(key, db, ops, user) == AnswersTo(key, db', ops', user)
    decreases |ops| + |ops'|
  {
    if ops != [] && ops[0].user != user {
      var next := SkipOther(key, db, ops, user);
      NonInterference(key, next, ops[1..], db', ops', user);
    } else if ops' != [] && ops'[0].user != user {
      var next := SkipOther(key, db', ops', user);
      NonInterference(key, db, ops, next, ops'[1..], user);
    } else if ops != [] && ops' != [] {
      var next, next' := StackStep(key, db, ops[0]).0, StackStep(key, db', ops'[0]).0;
      SameRequest(ops, ops', user);
      Unroll(key, db, ops, user);
      Unroll(key, db', ops', user);
      SameHead(ops[0].DoCreate?, db.lastId, CountersSeen(key, next, ops[1..], user),
               db'.lastId, CountersSeen(key, next', ops'[1..], user));
      OwnOutcomeFromOwnRows(key, db, db', ops[0], user);
      StaysSafe(key, db, ops, user);
      StaysSafe(key, db', ops', user);
      NonInterference(key, next, ops[1..], next', ops'[1..], user);
    }
  }

  lemma SameHead<T>(some: bool, x: T, xs: seq<T>, y: T, ys: seq<T>)
    requires (if some then [x] else []) + xs == (if some then [y] else []) + ys
    ensures (some ==> x == y) && xs == ys
  {
    if some {
      assert ([x] + xs)[0] == x && ([y] + ys)[0] == y;
      assert ([x] + xs)[1..] == xs && ([y] + ys)[1..] == ys;
    } else {
      assert [] + xs == xs && [] + ys == ys;
    }
  }

  lemma SameRequest(ops: seq<Op>, ops': seq<Op>, user: Int64)
    requires ops != [] && ops' != [] && ops[0].user == ops'[0].user == user
    requires Own(ops, user) == Own(ops', user)
    ensures ops[0] == ops'[0] && Own(ops[1..], user) == Own(ops'[1..], user)
  {
    SameHead(true, ops[0], Own(ops[1..], user), ops'[0], Own(ops'[1..], user));
  }

  lemma {:induction false} OwnIsOwn(key: Key, db: Db, ops: seq<Op>, user: Int64)
    requires forall op :: op in ops ==> op.user == user
    ensures Own(ops, user) == ops && AnswersTo(key, db, ops, user) == StackRun(key, db, ops).1
    decreases |ops|
  {
    if ops != [] {
      OwnIsOwn(key, StackStep(key, db, ops[0]).0, ops[1..], user);
    }
  }

  lemma {:induction false} OwnHasUser(ops: seq<Op>, user: Int64)
    ensures forall op :: op in Own(ops, user) ==> op.user == user
  {
    if ops != [] {
      OwnHasUser(ops[1..], user);
    }
  }

  /** Whatever the other users do in between, a user is answered as if alone with the same id counters. */
  lemma AnsweredAsIfAlone(key: Key, db: Db, ops: seq<Op>, user: Int64, alone: Db)
    requires WellFormed(db) && View(db, user) == View(alone, user)
    requires CountersSeen(key, db, ops, user) == CountersSeen(key, alone, Own(ops, user), user)
    ensures AnswersTo(key, db, ops, user) == StackRun(key, alone, Own(ops, user)).1
  {
    OwnHasUser(ops, user);
    OwnIsOwn(key, alone, Own(ops, user), user);
    NonInterference(key, db, ops, alone, Own(ops, user), user);
  }

  /** A user who creates nothing sees no counter, so the condition on counters is empty. */
  lemma {:induction false} NoCreatesNoCounters(key: Key, db: Db, ops: seq<Op>, user: Int64)
    requires forall op :: op in ops && op.user == user ==> !op.DoCreate?
    ensures CountersSeen(key, db, ops, user) == []
    decreases |ops|
  {
    if ops != [] {
      NoCreatesNoCounters(key, StackStep(key, db, ops[0]).0, ops[1..], user);
    }
  }

  // ---------- under concurrency ----------

  /** The user a step of the concurrent server acts for. */
  function Actor(s: Interleaving.Server, step: Interleaving.Step): Option<Int64> {
    match step
    case Arrive(_, request) => Some(request.user)
    case DeleteRow(user, _) => Some(user)
    case _ => if step.rid in s.requests then Some(s.requests[step.rid].user) else None
  }

  lemma OthersStepAside(key: Key, s: Interleaving.Server, step: Interleaving.Step, s': Interleaving.Server, user: Int64)
    requires StagedCreate.Invariant(key, s) && Interleaving.Next(key, s, step) == Some(s')
    requires Actor(s, step) != Some(user)
    ensures View(s'.db, user) == View(s.db, user)
  {
    Interleaving.OnlyCommitsTouchTheTable(key, s, step, s');
    if step.Commit? {
      var request, work := s.requests[step.rid], s.open.value.work;
      var createdAt, now, nonce :| StagedCreate.Creates(key, s.db, work, request, createdAt, now, nonce);
      assert s.db.lastId + 1 !in s.db.rows;
    }
  }

  /** In every interleaving, as long as only other users' steps are taken, a user's rows do not change. */
  lemma {:induction false} OthersLeaveRowsAloneConcurrently(key: Key, run: seq<Interleaving.Server>,
                                                            steps: seq<Interleaving.Step>, i: nat, j: nat, user: Int64)
    requires Interleaving.IsRun(key, run, steps) && i <= j <= |steps|
    requires forall k :: i <= k < j ==> Actor(run[k], steps[k]) != Some(user)
    ensures View(run[j].db, user) == View(run[i].db, user)
  {
    if i < j {
      OthersLeaveRowsAloneConcurrently(key, run, steps, i, j - 1, user);
      StagedCreate.RunKeepsInvariant(key, run, steps, j - 1);
      assert Interleaving.Next(key, run[j - 1], steps[j - 1]) == Some(run[j]);
      OthersStepAside(key, run[j - 1], steps[j - 1], run[j], user);
    }
  }
}
