/**
 The server under concurrency: any number of PATCH, POST and DELETE requests
 interleaved over one committed table. Each read and each `BEGIN IMMEDIATE`
 transaction is one step; the staged create takes several, working on a
 private copy that no reader sees. The clock reading, the random nonce and
 every failure are chosen by the step, so they are arbitrary.
 */
module Interleaving {
  import opened Prelude
  import opened ConfigStore
  import opened EncryptedStore

  const MAX_CONFIGS_PER_USER: nat := 50

  /** Where a PATCH stands in its retry loop. */
  datatype PatchPc =
    | Begin
    | Loaded(current: PlainConfig)
    | Committed
    | Reloaded
    | Finished(result: Result<PlainConfig>)

  /** Where a POST stands between its quota check and its commit. */
  datatype PostPc =
    | Checking
    | Counted
    | Reserved(id: Int64, createdAt: Instant)
    | Built(id: Int64, createdAt: Instant, row: CreateInput)
    | Finalised(config: Config)
    | Posted(result: Result<PlainConfig>)

  datatype Request =
    | Patch(user: Int64, id: Int64, patch: PlainPatch, patching: PatchPc)
    | Post(user: Int64, input: PlainInput, posting: PostPc)

  /** An uncommitted create transaction and the request that runs it. */
  datatype Transaction = Transaction(owner: nat, work: Db)

  datatype Server = Server(db: Db, open: Option<Transaction>, requests: map<nat, Request>)

  datatype Step =
    | Arrive(rid: nat, request: Request)
    | Read(rid: nat)
    | Write(rid: nat, now: Instant, nonce: Nonce)
    | Reload(rid: nat)
    | Answer(rid: nat)
    | CountRows(rid: nat)
    | ReserveId(rid: nat, now: Instant)
    | BuildRow(rid: nat, nonce: Nonce)
    | FinaliseRow(rid: nat, now: Instant)
    | Commit(rid: nat)
    | Fail(rid: nat)
    | DeleteRow(user: Int64, id: Int64)

  predicate IsNew(request: Request) {
    if request.Patch? then request.patching.Begin? else request.posting.Checking?
  }

  predicate IsDone(request: Request) {
    if request.Patch? then request.patching.Finished? else request.posting.Posted?
  }

  predicate PatchAt(s: Server, rid: nat) {
    rid in s.requests && s.requests[rid].Patch?
  }

  predicate PostAt(s: Server, rid: nat) {
    rid in s.requests && s.requests[rid].Post?
  }

  function Patching(s: Server, rid: nat, pc: PatchPc): Server
    requires PatchAt(s, rid)
  {
    s.(requests := s.requests[rid := s.requests[rid].(patching := pc)])
  }

  function Posting(s: Server, rid: nat, pc: PostPc): Server
    requires PostAt(s, rid)
  {
    s.(requests := s.requests[rid := s.requests[rid].(posting := pc)])
  }

  /** Gives up a request; the transaction it holds, if any, is rolled back. */
  function Abort(s: Server, rid: nat, error: Error): Server
    requires rid in s.requests
  {
    var free := if s.open.Some? && s.open.value.owner == rid then s.(open := None) else s;
    if PatchAt(s, rid) then Patching(free, rid, Finished(Err(error))) else Posting(free, rid, Posted(Err(error)))
  }

  // ---------- PATCH: internal/store/encrypted ----------

  function NextPatch(key: Key, s: Server, step: Step): Option<Server>
    requires step.Read? || step.Write? || step.Reload? || step.Answer?
  {
    if !PatchAt(s, step.rid) then None
    else
      var Patch(user, id, patch, pc) := s.requests[step.rid];
      match step
      case Read(rid) =>
        if !pc.Begin? then None
        else
          var current := GetPlain(key, s.db, user, id);
          Some(Patching(s, rid, if current.Ok? then Loaded(current.value) else Finished(current)))
      case Write(rid, now, nonce) =>
        if !pc.Loaded? || s.open.Some? then None
        else
          var wrote := Update(s.db, user, id, InnerPatch(key, pc.current, patch, nonce), now);
          var pc' := if wrote.error.None? then Committed
                     else if wrote.error.value == ConfigChanged then Begin
                     else Finished(Err(wrote.error.value));
          Some(Patching(s, rid, pc').(db := wrote.db))
      case Reload(rid) =>
        if !pc.Committed? then None
        else
          var row := Get(s.db, user, id);
          Some(Patching(s, rid, if row.Ok? then Reloaded else Finished(Err(row.error))))
      case Answer(rid) =>
        if !pc.Reloaded? then None else Some(Patching(s, rid, Finished(GetPlain(key, s.db, user, id))))
  }

  // ---------- POST: count, then the staged create ----------

  function NextPost(key: Key, s: Server, step: Step): Option<Server>
    requires step.CountRows? || step.ReserveId? || step.BuildRow? || step.FinaliseRow? || step.Commit?
  {
    if !PostAt(s, step.rid) then None
    else
      var Post(user, input, pc) := s.requests[step.rid];
      match step
      case CountRows(rid) =>
        if !pc.Checking? then None
        else if |OwnedIds(s.db, user)| >= MAX_CONFIGS_PER_USER then Some(Posting(s, rid, Posted(Err(QuotaExceeded))))
        else Some(Posting(s, rid, Counted))
      case ReserveId(rid, now) =>
        if !pc.Counted? || s.open.Some? then None
        else
          var work := Reserve(s.db, user, now);
          if work.None? then Some(Posting(s, rid, Posted(Err(Failed))))
          else Some(Posting(s, rid, Reserved(work.value.lastId, now)).(open := Some(Transaction(rid, work.value))))
      case BuildRow(rid, nonce) =>
        if !pc.Reserved? then None
        else Some(Posting(s, rid, Built(pc.id, pc.createdAt, Build(key, user, input, nonce, pc.id).value)))
      case FinaliseRow(rid, now) =>
        if !pc.Built? || s.open.None? || s.open.value.owner != rid then None
        else
          var work := Finalise(s.open.value.work, user, pc.id, pc.row, pc.createdAt, now);
          if work.Err? then Some(Abort(s, rid, work.error))
          else
            var row := Get(work.value, user, pc.id);
            if row.Err? then Some(Abort(s, rid, row.error))
            else Some(Posting(s, rid, Finalised(row.value)).(open := Some(Transaction(rid, work.value))))
      case Commit(rid) =>
        if !pc.Finalised? || s.open.None? || s.open.value.owner != rid then None
        else Some(Posting(s, rid, Posted(Ok(ToPlaintext(pc.config, input.content))))
                  .(db := s.open.value.work, open := None))
  }

  /** The state after `step`, or `None` where the step is not possible. */
  function Next(key: Key, s: Server, step: Step): Option<Server> {
    match step
    case Arrive(rid, request) =>
      if rid in s.requests || !IsNew(request) then None
      else Some(s.(requests := s.requests[rid := request]))
    case Fail(rid) =>
      if rid !in s.requests || IsDone(s.requests[rid]) then None else Some(Abort(s, rid, Failed))
    case DeleteRow(user, id) =>
      if s.open.Some? then None else Some(s.(db := Delete(s.db, user, id).db))
    case Read(_) => NextPatch(key, s, step)
    case Write(_, _, _) => NextPatch(key, s, step)
    case Reload(_) => NextPatch(key, s, step)
    case Answer(_) => NextPatch(key, s, step)
    case _ => NextPost(key, s, step)
  }

  // ---------- runs ----------

  ghost predicate Initial(s: Server) {
    WellFormed(s.db) && s.open.None? && s.requests == map[]
  }

  /** `run[k]` is the state before `steps[k]`. */
  ghost predicate IsRun(key: Key, run: seq<Server>, steps: seq<Step>) {
    && |run| == |steps| + 1
    && Initial(run[0])
    && forall k {:trigger Next(key, run[k], steps[k])} :: 0 <= k < |steps| ==>
         Next(key, run[k], steps[k]) == Some(run[k + 1])
  }

  predicate Mine(step: Step, rid: nat) {
    !step.DeleteRow? && step.rid == rid
  }

  /** A step moves no request but its own. */
  lemma OthersStandStill(key: Key, s: Server, step: Step, s': Server, rid: nat)
    requires Next(key, s, step) == Some(s') && !Mine(step, rid)
    ensures rid in s'.requests <==> rid in s.requests
    ensures rid in s.requests ==> s'.requests[rid] == s.requests[rid]
  {
  }

  /** Only a PATCH write, a create commit and a delete touch the committed table. */
  lemma OnlyCommitsTouchTheTable(key: Key, s: Server, step: Step, s': Server)
    requires Next(key, s, step) == Some(s')
    ensures s'.db == s.db || step.Write? || step.Commit? || step.DeleteRow?
  {
  }

  /** What was asked for, wherever it stands. */
  function Task(request: Request): Request {
    if request.Patch? then request.(patching := Begin) else request.(posting := Checking)
  }

  lemma StepKeepsTask(key: Key, s: Server, step: Step, s': Server, rid: nat)
    requires Next(key, s, step) == Some(s') && rid in s.requests
    ensures rid in s'.requests && Task(s'.requests[rid]) == Task(s.requests[rid])
  {
    if !Mine(step, rid) {
      OthersStandStill(key, s, step, s', rid);
    }
  }

  lemma {:induction false} TaskNeverChanges(key: Key, run: seq<Server>, steps: seq<Step>, rid: nat, k: nat, n: nat)
    requires IsRun(key, run, steps) && k <= n <= |steps| && rid in run[k].requests
    ensures rid in run[n].requests && Task(run[n].requests[rid]) == Task(run[k].requests[rid])
  {
    if k < n {
      TaskNeverChanges(key, run, steps, rid, k, n - 1);
      StepKeepsTask(key, run[n - 1], steps[n - 1], run[n], rid);
    }
  }
}
