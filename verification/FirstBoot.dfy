/**
 First boot of the container: any number of `docker-entrypoint.sh` processes
 against one data volume, a `mkdir` lock, and the `tabby-sync bootstrap`
 child that writes `token.txt` and then `users.yml`. Any process may crash at
 any step; a crash takes its bootstrap child with it.
 */
module FirstBoot {
  import opened Prelude

  const MAX_POLLS: nat := 50

  /** What `users.yml` stores of a token. */
  datatype Hash = Sha256(token: nat)

  /** Where an entrypoint process stands. */
  datatype Pc =
    | Started               // before the first test for users.yml
    | WantsLock             // users.yml was absent
    | Holding               // mkdir succeeded, the exit trap is set
    | Bootstrapping         // the bootstrap child is running
    | Minting               // the child saw no users.yml
    | TokenWritten(token: nat)
    | Unlocking             // before the rmdir
    | Unlocked              // rmdir done, the exit trap still set
    | Polling(polls: nat)   // somebody else holds the lock
    | Serving
    | Gone                  // exited or crashed

  datatype Boot = Boot(users: Option<Hash>, token: Option<nat>, lock: Option<nat>, procs: map<nat, Pc>)

  datatype Step =
    | Spawn(p: nat)
    | Check(p: nat)
    | MkDir(p: nat)
    | Recheck(p: nat)
    | Stat(p: nat)
    | WriteToken(p: nat, minted: nat)
    | WriteUsers(p: nat)
    | UsersFail(p: nat)
    | RmDir(p: nat)
    | ClearTrap(p: nat)
    | Poll(p: nat)
    | ExitTrapped(p: nat)
    | Crash(p: nat)
    | RemoveStaleLock
    | DeleteToken

  /** Between taking the lock and having bootstrapped. */
  predicate Critical(pc: Pc) {
    pc.Holding? || pc.Bootstrapping? || pc.Minting? || pc.TokenWritten?
  }

  predicate At(s: Boot, p: nat, pc: Pc) {
    p in s.procs && s.procs[p] == pc
  }

  function Move(s: Boot, p: nat, pc: Pc): Boot {
    s.(procs := s.procs[p := pc])
  }

  predicate Alive(s: Boot, p: nat) {
    p in s.procs && !s.procs[p].Gone?
  }

  function Next(s: Boot, step: Step): Option<Boot> {
    match step
    case Spawn(p) =>
      if p in s.procs then None else Some(Move(s, p, Started))
    case Check(p) =>
      if !At(s, p, Started) then None else Some(Move(s, p, if s.users.Some? then Serving else WantsLock))
    case MkDir(p) =>
      if !At(s, p, WantsLock) then None
      else if s.lock.None? then Some(Move(s, p, Holding).(lock := Some(p)))
      else Some(Move(s, p, Polling(0)))
    case Recheck(p) =>
      if !At(s, p, Holding) then None else Some(Move(s, p, if s.users.Some? then Unlocking else Bootstrapping))
    case Stat(p) =>
      if !At(s, p, Bootstrapping) then None else Some(Move(s, p, if s.users.Some? then Unlocking else Minting))
    case WriteToken(p, minted) =>
      if !At(s, p, Minting) then None else Some(Move(s, p, TokenWritten(minted)).(token := Some(minted)))
    case WriteUsers(p) =>
      if p !in s.procs || !s.procs[p].TokenWritten? then None
      else Some(Move(s, p, Unlocking).(users := Some(Sha256(s.procs[p].token))))
    case UsersFail(p) =>
      if p !in s.procs || !s.procs[p].TokenWritten? then None
      else Some(Move(s, p, Gone).(token := None, lock := None))
    case RmDir(p) =>
      if !At(s, p, Unlocking) then None else Some(Move(s, p, Unlocked).(lock := None))
    case ClearTrap(p) =>
      if !At(s, p, Unlocked) then None else Some(Move(s, p, Serving))
    case Poll(p) =>
      if p !in s.procs || !s.procs[p].Polling? then None
      else if s.users.Some? then Some(Move(s, p, Serving))
      else if s.procs[p].polls < MAX_POLLS then Some(Move(s, p, Polling(s.procs[p].polls + 1)))
      else Some(Move(s, p, Gone))
    case ExitTrapped(p) =>
      // The exit trap runs rmdir whoever owns the lock by now.
      if p !in s.procs || !(Critical(s.procs[p]) || s.procs[p].Unlocking? || s.procs[p].Unlocked?) then None
      else Some(Move(s, p, Gone).(lock := None))
    case Crash(p) =>
      if !Alive(s, p) then None else Some(Move(s, p, Gone))
    case RemoveStaleLock =>
      // The operator removes a lock only once its owner is dead.
      if s.lock.None? || Alive(s, s.lock.value) then None else Some(s.(lock := None))
    case DeleteToken => Some(s.(token := None))
  }

  /** A volume without users.yml; a lock or token may be left over from an earlier crash. */
  predicate Initial(s: Boot) {
    s.users.None? && s.procs == map[]
  }

  ghost predicate IsRun(run: seq<Boot>, steps: seq<Step>) {
    && |run| == |steps| + 1
    && Initial(run[0])
    && forall k {:trigger Next(run[k], steps[k])} :: 0 <= k < |steps| ==> Next(run[k], steps[k]) == Some(run[k + 1])
  }

  // ---------- the invariant ----------

  /** Until users.yml exists, whoever is in the critical section owns the lock. */
  ghost predicate Exclusive(s: Boot) {
    s.users.None? ==> forall p :: p in s.procs && Critical(s.procs[p]) ==> s.lock == Some(p)
  }

  ghost predicate Consistent(s: Boot) {
    && (forall p :: p in s.procs && (s.procs[p].Minting? || s.procs[p].TokenWritten?) ==> s.users.None?)
    && (forall p :: p in s.procs && s.procs[p].TokenWritten? ==> s.token.None? || s.token == Some(s.procs[p].token))
    && (forall p :: p in s.procs && (s.procs[p].Unlocking? || s.procs[p].Unlocked? || s.procs[p].Serving?) ==>
          s.users.Some?)
    && (s.users.Some? && s.token.Some? ==> s.users.value == Sha256(s.token.value))
  }

  lemma StepKeepsExclusive(s: Boot, step: Step, s': Boot)
    requires Exclusive(s) && Consistent(s) && Next(s, step) == Some(s')
    ensures Exclusive(s')
  {
  }

  lemma StepKeepsConsistent(s: Boot, step: Step, s': Boot)
    requires Exclusive(s) && Consistent(s) && Next(s, step) == Some(s')
    ensures Consistent(s')
  {
  }

  lemma {:induction false} RunKeepsInvariant(run: seq<Boot>, steps: seq<Step>, k: nat)
    requires IsRun(run, steps) && k <= |steps|
    ensures Exclusive(run[k]) && Consistent(run[k])
  {
    if k > 0 {
      RunKeepsInvariant(run, steps, k - 1);
      StepKeepsExclusive(run[k - 1], steps[k - 1], run[k]);
      StepKeepsConsistent(run[k - 1], steps[k - 1], run[k]);
    }
  }

  // ---------- what it guarantees ----------

  /** A token that survives is the one users.yml was written for, and nobody serves without users.yml. */
  lemma BootIsSafe(run: seq<Boot>, steps: seq<Step>, k: nat)
    requires IsRun(run, steps) && k <= |steps|
    ensures run[k].users.Some? && run[k].token.Some? ==> run[k].users.value == Sha256(run[k].token.value)
    ensures forall p :: p in run[k].procs && run[k].procs[p].Serving? ==> run[k].users.Some?
  {
    RunKeepsInvariant(run, steps, k);
  }

  lemma {:induction false} UsersStay(run: seq<Boot>, steps: seq<Step>, i: nat, j: nat)
    requires IsRun(run, steps) && i <= j <= |steps| && run[i].users.Some?
    ensures run[j].users == run[i].users
  {
    if i < j {
      UsersStay(run, steps, i, j - 1);
      RunKeepsInvariant(run, steps, j - 1);
      assert Next(run[j - 1], steps[j - 1]) == Some(run[j]);
    }
  }

  /** However many processes start, crash and restart, users.yml is written at most once. */
  lemma UsersWrittenOnce(run: seq<Boot>, steps: seq<Step>, i: nat, j: nat)
    requires IsRun(run, steps) && i < |steps| && j < |steps|
    requires steps[i].WriteUsers? && steps[j].WriteUsers?
    ensures i == j
  {
    var first, second := if i < j then i else j, if i < j then j else i;
    if first != second {
      assert Next(run[first], steps[first]) == Some(run[first + 1]);
      assert Next(run[second], steps[second]) == Some(run[second + 1]);
      UsersStay(run, steps, first + 1, second);
      RunKeepsInvariant(run, steps, second);
    }
  }

  /** Two processes are in the critical section together only once users.yml exists. */
  lemma ExclusiveUntilBooted(run: seq<Boot>, steps: seq<Step>, k: nat, p: nat, q: nat)
    requires IsRun(run, steps) && k <= |steps| && p != q
    requires p in run[k].procs && Critical(run[k].procs[p])
    requires q in run[k].procs && Critical(run[k].procs[q])
    ensures run[k].users.Some?
  {
    RunKeepsInvariant(run, steps, k);
  }

  // ---------- exactly when the lock is held ----------

  /** Between mkdir and rmdir. */
  predicate Locked(s: Boot, p: nat) {
    p in s.procs && (Critical(s.procs[p]) || s.procs[p].Unlocking?)
  }

  /** Mutual exclusion: whoever is between mkdir and rmdir owns the lock directory. */
  ghost predicate LockHeld(s: Boot) {
    forall p: nat :: Locked(s, p) ==> s.lock == Some(p)
  }

  /** A process that has already run its rmdir exits with the trap still set, while another holds the lock. */
  ghost predicate Steals(s: Boot, step: Step) {
    step.ExitTrapped? && At(s, step.p, Unlocked) && exists q: nat :: Locked(s, q)
  }

  lemma StepKeepsLockIff(s: Boot, step: Step, s': Boot)
    requires LockHeld(s) && Next(s, step) == Some(s')
    ensures LockHeld(s') <==> !Steals(s, step)
  {
    if Steals(s, step) {
      var q: nat :| Locked(s, q);
      assert Locked(s', q) && s'.lock.None?;
    } else {
      assert step.RmDir? || step.UsersFail? ==> Locked(s, step.p);
      assert step.ExitTrapped? ==> Locked(s, step.p) || At(s, step.p, Unlocked);
      forall p: nat | Locked(s', p)
        ensures s'.lock == Some(p)
      {
        assert step == MkDir(p) || Locked(s, p);
      }
    }
  }

  /** In every run the lock excludes all others for exactly as long as no such late trap has fired. */
  lemma {:induction false} LockHeldIff(run: seq<Boot>, steps: seq<Step>, n: nat)
    requires IsRun(run, steps) && n <= |steps|
    ensures (forall k :: 0 <= k <= n ==> LockHeld(run[k])) <==> (forall k :: 0 <= k < n ==> !Steals(run[k], steps[k]))
  {
    if n > 0 {
      LockHeldIff(run, steps, n - 1);
      assert Next(run[n - 1], steps[n - 1]) == Some(run[n]);
      if LockHeld(run[n - 1]) {
        StepKeepsLockIff(run[n - 1], steps[n - 1], run[n]);
      }
    }
  }

  // ---------- what each way of ending leaves ----------

  /** A bootstrap that cannot write users.yml takes its token back and lets the lock go. */
  lemma FailedBootstrapLeavesNothing(run: seq<Boot>, steps: seq<Step>, k: nat)
    requires IsRun(run, steps) && k < |steps| && steps[k].UsersFail?
    ensures run[k + 1].users.None? && run[k + 1].token.None? && run[k + 1].lock.None?
  {
    assert Next(run[k], steps[k]) == Some(run[k + 1]);
    RunKeepsInvariant(run, steps, k);
  }

  /** A crash leaves the files and the lock as they are. */
  lemma CrashLeavesFiles(run: seq<Boot>, steps: seq<Step>, k: nat)
    requires IsRun(run, steps) && k < |steps| && steps[k].Crash?
    ensures run[k + 1].users == run[k].users && run[k + 1].token == run[k].token && run[k + 1].lock == run[k].lock
  {
    assert Next(run[k], steps[k]) == Some(run[k + 1]);
  }

  /** The lock is nobody's who is past it: a live owner that took it is still between mkdir and rmdir. */
  lemma {:induction false} LockIsLetGo(run: seq<Boot>, steps: seq<Step>, p: nat, n: nat)
    requires IsRun(run, steps) && n <= |steps| && run[0].lock != Some(p)
    ensures run[n].lock == Some(p) && Alive(run[n], p) ==> Locked(run[n], p)
    ensures run[n].lock == Some(p) ==> p in run[n].procs
  {
    if n > 0 {
      LockIsLetGo(run, steps, p, n - 1);
      assert Next(run[n - 1], steps[n - 1]) == Some(run[n]);
    }
  }

  /** Each of the script's and the child's tests for users.yml takes the short way exactly when it is there. */
  lemma TestsDecide(s: Boot, step: Step, s': Boot)
    requires Next(s, step) == Some(s') && (step.Check? || step.Recheck? || step.Stat?)
    ensures s' == s.(procs := s'.procs)
    ensures s.users.Some? <==> s'.procs[step.p] == if step.Check? then Serving else Unlocking
  {
  }

  // ---------- who serves ----------

  /** How many steps a process still has to take before it serves. */
  function Rank(pc: Pc): nat {
    match pc
    case Started => 9
    case WantsLock => 8
    case Holding => 7
    case Bootstrapping => 6
    case Minting => 5
    case TokenWritten(_) => 4
    case Unlocking => 3
    case Unlocked => 2
    case Polling(_) => 1
    case _ => 0
  }

  /** A process that need not wait for anybody: it has the lock, or users.yml is there. */
  predicate InCharge(s: Boot, p: nat) {
    Alive(s, p) && (s.users.Some? || Locked(s, p) || s.procs[p].Unlocked? || s.procs[p].Serving?)
  }

  /** The steps by which a process ends other than by serving. */
  predicate GivesUp(step: Step, p: nat) {
    step == Crash(p) || step == ExitTrapped(p) || step == UsersFail(p)
  }

  predicate By(step: Step, p: nat) {
    !step.RemoveStaleLock? && !step.DeleteToken? && step.p == p
  }

  lemma StepGetsNearer(s: Boot, step: Step, s': Boot, p: nat)
    requires Consistent(s) && Next(s, step) == Some(s') && InCharge(s, p) && !GivesUp(step, p)
    ensures InCharge(s', p)
    ensures if By(step, p) then Rank(s'.procs[p]) < Rank(s.procs[p]) else s'.procs[p] == s.procs[p]
  {
  }

  /** Until it serves, such a process can always take its next step. */
  lemma InChargeCanMove(s: Boot, p: nat) returns (step: Step)
    requires InCharge(s, p) && !s.procs[p].Serving?
    ensures By(step, p) && !GivesUp(step, p) && Next(s, step).Some?
  {
    step := match s.procs[p]
            case Started => Check(p)
            case WantsLock => MkDir(p)
            case Holding => Recheck(p)
            case Bootstrapping => Stat(p)
            case Minting => WriteToken(p, 0)
            case TokenWritten(_) => WriteUsers(p)
            case Unlocking => RmDir(p)
            case Unlocked => ClearTrap(p)
            case _ => Poll(p);
  }

  function StepsBy(steps: seq<Step>, p: nat, i: nat, n: nat): nat
    requires i <= n <= |steps|
    decreases n
  {
    if i == n then 0 else StepsBy(steps, p, i, n - 1) + if By(steps[n - 1], p) then 1 else 0
  }

  /**
   A process that holds the lock, or starts or polls with users.yml there, and
   does not give up, is serving after at most nine steps of its own, whatever
   the others do.
   */
  lemma {:induction false} ServesUnlessItGivesUp(run: seq<Boot>, steps: seq<Step>, p: nat, i: nat, n: nat)
    requires IsRun(run, steps) && i <= n <= |steps| && InCharge(run[i], p)
    requires forall k :: i <= k < n ==> !GivesUp(steps[k], p)
    ensures InCharge(run[n], p)
    ensures StepsBy(steps, p, i, n) + Rank(run[n].procs[p]) <= Rank(run[i].procs[p]) <= 9
    ensures StepsBy(steps, p, i, n) == 9 ==> run[n].procs[p].Serving?
    decreases n
  {
    if i < n {
      ServesUnlessItGivesUp(run, steps, p, i, n - 1);
      RunKeepsInvariant(run, steps, n - 1);
      assert Next(run[n - 1], steps[n - 1]) == Some(run[n]);
      StepGetsNearer(run[n - 1], steps[n - 1], run[n], p);
    }
  }

  function PollsBy(steps: seq<Step>, p: nat, n: nat): nat
    requires n <= |steps|
  {
    if n == 0 then 0 else PollsBy(steps, p, n - 1) + if steps[n - 1] == Poll(p) then 1 else 0
  }

  /** A process without the lock looks for users.yml at most 51 times. */
  lemma {:induction false} PollsAreBounded(run: seq<Boot>, steps: seq<Step>, p: nat, n: nat)
    requires IsRun(run, steps) && n <= |steps|
    ensures PollsBy(steps, p, n) <= 51
    ensures p !in run[n].procs ==> PollsBy(steps, p, n) == 0
    ensures p in run[n].procs ==>
              match run[n].procs[p]
              case Polling(polls) => PollsBy(steps, p, n) == polls <= 50
              case Serving => true
              case Gone => true
              case _ => PollsBy(steps, p, n) == 0
  {
    if n > 0 {
      PollsAreBounded(run, steps, p, n - 1);
      assert Next(run[n - 1], steps[n - 1]) == Some(run[n]);
    }
  }

  /** It gives up only at the 51st look, with users.yml still absent. */
  lemma GivesUpAtTheLastLook(run: seq<Boot>, steps: seq<Step>, p: nat, k: nat)
    requires IsRun(run, steps) && k < |steps| && steps[k] == Poll(p)
    requires p in run[k + 1].procs && run[k + 1].procs[p].Gone?
    ensures PollsBy(steps, p, k + 1) == 51 && run[k].users.None?
  {
    PollsAreBounded(run, steps, p, k);
    assert Next(run[k], steps[k]) == Some(run[k + 1]);
  }

  // ---------- the lock itself can be lost ----------

  /** Adds one step to a run. */
  lemma ExtendRun(run: seq<Boot>, steps: seq<Step>, step: Step) returns (run': seq<Boot>, steps': seq<Step>)
    requires IsRun(run, steps) && Next(run[|steps|], step).Some?
    ensures IsRun(run', steps') && run'[|steps'|] == Next(run[|steps|], step).value
  {
    run', steps' := run + [Next(run[|steps|], step).value], steps + [step];
    forall k | 0 <= k < |steps'|
      ensures Next(run'[k], steps'[k]) == Some(run'[k + 1])
    {
      if k < |steps| {
        assert Next(run[k], steps[k]) == Some(run[k + 1]);
      }
    }
  }

  /** Three processes find no users.yml. */
  lemma ThreeWantTheLock() returns (run: seq<Boot>, steps: seq<Step>)
    ensures IsRun(run, steps)
    ensures run[|steps|] == Boot(None, None, None, map[0 := WantsLock, 1 := WantsLock, 2 := WantsLock])
  {
    run, steps := [Boot(None, None, None, map[])], [];
    run, steps := ExtendRun(run, steps, Spawn(0));
    run, steps := ExtendRun(run, steps, Spawn(1));
    run, steps := ExtendRun(run, steps, Spawn(2));
    run, steps := ExtendRun(run, steps, Check(0));
    run, steps := ExtendRun(run, steps, Check(1));
    run, steps := ExtendRun(run, steps, Check(2));
    assert run[|steps|].procs == map[0 := WantsLock, 1 := WantsLock, 2 := WantsLock];
  }

  /** The first of them bootstraps and has just run its rmdir. */
  lemma FirstOfThreeBoots() returns (run: seq<Boot>, steps: seq<Step>)
    ensures IsRun(run, steps)
    ensures var s := run[|steps|];
            At(s, 0, Unlocked) && At(s, 1, WantsLock) && At(s, 2, WantsLock) && s.lock.None? && s.users.Some?
  {
    run, steps := ThreeWantTheLock();
    run, steps := ExtendRun(run, steps, MkDir(0));
    run, steps := ExtendRun(run, steps, Recheck(0));
    run, steps := ExtendRun(run, steps, Stat(0));
    run, steps := ExtendRun(run, steps, WriteToken(0, 9));
    run, steps := ExtendRun(run, steps, WriteUsers(0));
    run, steps := ExtendRun(run, steps, RmDir(0));
  }

  /** The first process's exit trap can remove the second's lock and let a third in beside it. */
  lemma ExitTrapBreaksTheLock() returns (run: seq<Boot>, steps: seq<Step>)
    ensures IsRun(run, steps) && At(run[|steps|], 1, Holding) && At(run[|steps|], 2, Holding)
  {
    run, steps := FirstOfThreeBoots();
    run, steps := ExtendRun(run, steps, MkDir(1));
    run, steps := ExtendRun(run, steps, ExitTrapped(0));
    run, steps := ExtendRun(run, steps, MkDir(2));
  }
}
