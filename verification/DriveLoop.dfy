/**
 The watchdog of the current-thread executor: what it remembers between polls, and the
 loop that polls one future until it is ready or a bound is crossed.  The future, the
 progress handle, the wait registry, the wake signal and the clock are an environment
 that answers every turn of the loop.
 */
module DriveLoop {
  import opened Prelude

  const U64_MAX := 0xFFFF_FFFF_FFFF_FFFF

  datatype TerminalState = Running | Completed | TerminalFailed | TerminalCancelled

  datatype ProgressSnapshot = ProgressSnapshot(generation: nat, terminal: TerminalState)

  datatype WaitSnapshot = WaitSnapshot(registrations: nat, earliestDeadline: Option<nat>, generation: nat)

  datatype WakeBookkeeping = WakeBookkeeping(generation: nat, notifications: nat)

  datatype Policy = Policy(pollBudget: nat, wakeBudget: nat)
  {
    predicate Valid() { 0 < pollBudget <= U64_MAX && 0 < wakeBudget <= U64_MAX }
  }

  /** Which of the loop's three poll-budget checks fired. */
  datatype Site = AfterProgress | AfterWake | BeforePark

  datatype ExecutorError =
    | TimeDriver | WaitRegistryShutdown | WaitSnapshotInconsistent
    | ProgressGenerationReversed | WaitGenerationReversed
    | WakeBookkeepingInconsistent | WakeGenerationOverflow | WakeCounterOverflow
    | PollCounterOverflow | WakeStreakOverflow
    | PollBudgetExceeded(site: Site) | WakeBudgetExceeded
    | Stalled | StalledProvider(deadline: nat)
    | TerminalFuturePending(terminal: TerminalState)
    | Cancelled | FuturePanicked

  /** The errors a lawful environment cannot provoke. */
  predicate Excluded(e: ExecutorError)
  {
    e.ProgressGenerationReversed? || e.WaitGenerationReversed? || e.WakeBookkeepingInconsistent? ||
    e.WakeCounterOverflow? || e.WakeStreakOverflow? || e == PollBudgetExceeded(AfterProgress)
  }

  datatype PendingObservation = PendingObservation(
    wakeNotifications: nat, pollBudgetExceeded: bool, semanticProgress: bool, waitChanged: bool)

  datatype ExpiredAction = NotExpired | Repoll | ProviderStalled(deadline: nat)

  predicate WakeBookkeepingIsValid(wake: WakeBookkeeping)
  {
    wake.notifications + 1 <= U64_MAX && wake.notifications + 1 == wake.generation
  }

  /** An observation refuses bookkeeping that went back, that moved in one counter only, or that is not valid. */
  predicate WakeRefused(observed: WakeBookkeeping, wake: WakeBookkeeping)
  {
    || wake.generation < observed.generation || wake.notifications < observed.notifications
    || (wake.generation != observed.generation && wake.notifications == observed.notifications)
    || !WakeBookkeepingIsValid(wake)
  }

  predicate WaitSnapshotIsValid(waits: WaitSnapshot)
  {
    waits.registrations == 0 <==> waits.earliestDeadline.None?
  }

  class DriveState {
    var observedProgress: ProgressSnapshot
    var observedWait: WaitSnapshot
    var observedWake: WakeBookkeeping
    var pollStreak: nat
    var wakeStreak: nat
    var noWaitRaceUsed: bool
    var expiredWait: Option<nat>

    constructor (progress: ProgressSnapshot, waits: WaitSnapshot, wake: WakeBookkeeping)
      ensures observedProgress == progress && observedWait == waits && observedWake == wake
      ensures pollStreak == 0 && wakeStreak == 0 && !noWaitRaceUsed && expiredWait == None
    {
      observedProgress, observedWait, observedWake := progress, waits, wake;
      pollStreak, wakeStreak, noWaitRaceUsed, expiredWait := 0, 0, false, None;
    }

    /**
     One pending poll.  A semantic progress change resets both streaks; a wait change
     resets only the poll streak; every other poll lengthens it.  Wakes count against
     their budget only when neither generation moved.
     */
    method Observe(progress: ProgressSnapshot, waits: WaitSnapshot, wake: WakeBookkeeping, policy: Policy)
      returns (r: Result<PendingObservation, ExecutorError>)
      requires policy.Valid()
      modifies this
      ensures r.Ok? ==> observedProgress == progress && observedWait == waits && observedWake == wake
      ensures r.Ok? ==>
        var moved := progress.generation > old(observedProgress).generation;
        var rewaited := waits.generation > old(observedWait).generation;
        var woken := wake.notifications - old(observedWake).notifications;
        progress.generation >= old(observedProgress).generation &&
        waits.generation >= old(observedWait).generation && woken >= 0 &&
        r.value == PendingObservation(woken, pollStreak > policy.pollBudget, moved, rewaited) &&
        pollStreak == (if moved || rewaited then 0 else old(pollStreak) + 1) && pollStreak <= U64_MAX &&
        wakeStreak == (if moved then 0 else if rewaited then old(wakeStreak) else old(wakeStreak) + woken) &&
        (wakeStreak > old(wakeStreak) ==> wakeStreak <= policy.wakeBudget) &&
        noWaitRaceUsed == (old(noWaitRaceUsed) && !moved && !rewaited) &&
        expiredWait == (if old(expiredWait).Some? && waits.earliestDeadline == old(expiredWait)
                        then old(expiredWait) else None)
      ensures r.Err? ==> r.error in {ProgressGenerationReversed, WaitGenerationReversed,
        WakeBookkeepingInconsistent, PollCounterOverflow, WakeStreakOverflow, WakeBudgetExceeded}
      ensures r == Err(ProgressGenerationReversed) <==> progress.generation < old(observedProgress).generation
      ensures r == Err(WaitGenerationReversed) <==>
        progress.generation >= old(observedProgress).generation && waits.generation < old(observedWait).generation
      ensures progress.generation >= old(observedProgress).generation &&
              waits.generation >= old(observedWait).generation ==>
        var unmoved :=
          progress.generation == old(observedProgress).generation && waits.generation == old(observedWait).generation;
        var wakes := wake.notifications - old(observedWake).notifications;
        var refused := WakeRefused(old(observedWake), wake);
        var counted := unmoved && !refused && old(pollStreak) + 1 <= U64_MAX && wakes > 0;
        (r == Err(WakeBookkeepingInconsistent) <==> refused) &&
        (r == Err(PollCounterOverflow) <==> unmoved && !refused && old(pollStreak) + 1 > U64_MAX) &&
        (r == Err(WakeStreakOverflow) <==> counted && old(wakeStreak) + wakes > U64_MAX) &&
        (r == Err(WakeBudgetExceeded) <==> counted && policy.wakeBudget < old(wakeStreak) + wakes <= U64_MAX)
    {
      if progress.generation < observedProgress.generation {
        return Err(ProgressGenerationReversed);
      }
      if waits.generation < observedWait.generation {
        return Err(WaitGenerationReversed);
      }
      if wake.generation < observedWake.generation
         || wake.notifications < observedWake.notifications
         || (wake.generation != observedWake.generation && wake.notifications == observedWake.notifications) {
        return Err(WakeBookkeepingInconsistent);
      }
      var wakeNotifications := wake.notifications - observedWake.notifications;
      if !WakeBookkeepingIsValid(wake) {
        return Err(WakeBookkeepingInconsistent);
      }
      var semanticProgress := progress.generation > observedProgress.generation;
      var waitChanged := waits.generation > observedWait.generation;
      if semanticProgress {
        pollStreak, wakeStreak, noWaitRaceUsed := 0, 0, false;
      } else if waitChanged {
        pollStreak, noWaitRaceUsed := 0, false;
      } else {
        if pollStreak + 1 > U64_MAX {
          return Err(PollCounterOverflow);
        }
        pollStreak := pollStreak + 1;
      }
      if !semanticProgress && !waitChanged && wakeNotifications != 0 {
        if wakeStreak + wakeNotifications > U64_MAX {
          return Err(WakeStreakOverflow);
        }
        wakeStreak := wakeStreak + wakeNotifications;
        if wakeStreak > policy.wakeBudget {
          return Err(WakeBudgetExceeded);
        }
      }
      if expiredWait.Some? && waits.earliestDeadline != expiredWait {
        expiredWait := None;
      }
      observedProgress, observedWait, observedWake := progress, waits, wake;
      return Ok(PendingObservation(wakeNotifications, pollStreak > policy.pollBudget, semanticProgress, waitChanged));
    }

    /** An expired earliest deadline buys exactly one more poll; the second time it is a stall. */
    method ExpiredWaitAction(waits: WaitSnapshot, now: nat) returns (r: Result<ExpiredAction, ExecutorError>)
      modifies this`expiredWait
      ensures !WaitSnapshotIsValid(waits) <==> r == Err(WaitSnapshotInconsistent)
      ensures r.Err? ==> r.error == WaitSnapshotInconsistent && expiredWait == old(expiredWait)
      ensures r.Ok? ==>
        var expired := waits.earliestDeadline.Some? && waits.earliestDeadline.value <= now;
        (r.value == NotExpired <==> !expired) &&
        (!expired ==> expiredWait == None) &&
        (expired ==> expiredWait == waits.earliestDeadline) &&
        (expired && old(expiredWait) == waits.earliestDeadline ==>
         r.value == ProviderStalled(waits.earliestDeadline.value)) &&
        (expired && old(expiredWait) != waits.earliestDeadline ==> r.value == Repoll)
    {
      if !WaitSnapshotIsValid(waits) {
        return Err(WaitSnapshotInconsistent);
      }
      if waits.earliestDeadline.None? {
        expiredWait := None;
        return Ok(NotExpired);
      }
      var deadline := waits.earliestDeadline.value;
      if now < deadline {
        expiredWait := None;
        return Ok(NotExpired);
      }
      if expiredWait == Some(deadline) {
        return Ok(ProviderStalled(deadline));
      }
      expiredWait := Some(deadline);
      return Ok(Repoll);
    }
  }

  // ---------- the environment ----------

  datatype Poll = Ready | Pending | Panicked

  datatype ParkOutcome = Changed | Deadline

  /** Everything the loop can read during one turn. */
  datatype Turn = Turn(
    cancelledBefore: bool, shutdown: bool, poll: Poll,
    progress: ProgressSnapshot, waits: WaitSnapshot, wake: Result<WakeBookkeeping, ExecutorError>,
    cancelledAfter: bool,
    race: Result<bool, ExecutorError>, now: Result<nat, ExecutorError>, park: Result<ParkOutcome, ExecutorError>)

  /** `env(0)` holds the snapshots taken before the first poll; turn `i` reads `env(i + 1)`. */
  type Environment = nat -> Turn

  /** A wake snapshot is valid bookkeeping, or the exhausted generation. */
  predicate LawfulWake(wake: Result<WakeBookkeeping, ExecutorError>)
  {
    match wake case Ok(w) => WakeBookkeepingIsValid(w) case Err(e) => e == WakeGenerationOverflow
  }

  predicate WakesGrow(before: Result<WakeBookkeeping, ExecutorError>, after: Result<WakeBookkeeping, ExecutorError>)
  {
    before.Ok? && after.Ok? ==> before.value.notifications <= after.value.notifications
  }

  ghost predicate LawfulGenerations(env: Environment)
  {
    forall i: nat, j: nat | i <= j ::
      env(i).progress.generation <= env(j).progress.generation <= U64_MAX &&
      env(i).waits.generation <= env(j).waits.generation <= U64_MAX
  }

  ghost predicate LawfulWaits(env: Environment)
  {
    forall i: nat, j: nat :: env(i).waits.generation == env(j).waits.generation ==> env(i).waits == env(j).waits
  }

  ghost predicate LawfulClock(env: Environment)
  {
    forall i: nat, j: nat | i <= j :: env(i).now.Ok? && env(j).now.Ok? ==> env(i).now.value <= env(j).now.value
  }

  ghost predicate LawfulWakes(env: Environment)
  {
    (forall i: nat :: LawfulWake(env(i).wake)) &&
    forall i: nat, j: nat | i <= j :: WakesGrow(env(i).wake, env(j).wake)
  }

  ghost predicate LawfulErrors(env: Environment)
  {
    (forall i: nat :: env(i).now.Err? ==> env(i).now.error == TimeDriver) &&
    (forall i: nat :: env(i).race.Err? ==>
       env(i).race.error in {Cancelled, WaitSnapshotInconsistent, WakeGenerationOverflow}) &&
    (forall i: nat :: env(i).park.Err? ==>
       env(i).park.error in {Cancelled, WaitSnapshotInconsistent, WakeGenerationOverflow, TimeDriver})
  }

  function Generations(env: Environment, i: nat): (n: nat)
  {
    env(i).progress.generation + env(i).waits.generation
  }

  /**
   Generations never decrease and fit in 64 bits, a wait snapshot is determined by its
   generation, the clock is monotone, and wake snapshots are those of a wake signal.
   */
  ghost predicate Lawful(env: Environment)
  {
    LawfulGenerations(env) && LawfulWaits(env) && LawfulClock(env) && LawfulWakes(env) && LawfulErrors(env)
  }

  /** What the laws say about one turn and the one before it. */
  ghost predicate LawfulTurn(env: Environment, i: nat)
  {
    var last, now := env(i), env(i + 1);
    last.progress.generation <= now.progress.generation && last.waits.generation <= now.waits.generation &&
    (last.waits.generation == now.waits.generation ==> last.waits == now.waits) &&
    (last.now.Ok? && now.now.Ok? ==> last.now.value <= now.now.value) &&
    LawfulWake(last.wake) && LawfulWake(now.wake) && WakesGrow(last.wake, now.wake) &&
    (now.now.Err? ==> now.now.error == TimeDriver) &&
    (now.race.Err? ==> now.race.error in {Cancelled, WaitSnapshotInconsistent, WakeGenerationOverflow}) &&
    (now.park.Err? ==> now.park.error in {Cancelled, WaitSnapshotInconsistent, WakeGenerationOverflow, TimeDriver})
  }

  lemma LawfulTurns(env: Environment, i: nat)
    requires Lawful(env)
    ensures LawfulTurn(env, i)
  {
  }

  /** A future that stays pending, with nothing ever changing, is a lawful environment: its parks are cancelled. */
  lemma SteadyIsLawful(waits: WaitSnapshot)
    requires waits.generation <= U64_MAX
    ensures var turn := Turn(false, false, Pending, ProgressSnapshot(1, Running), waits, Ok(WakeBookkeeping(1, 0)),
                             false, Ok(false), Ok(0), Err(Cancelled));
            Lawful((i: nat) => turn)
  {
  }

  /** Turn `i` found the generations it last observed. */
  predicate Unchanged(env: Environment, i: nat)
  {
    env(i + 1).progress.generation == env(i).progress.generation &&
    env(i + 1).waits.generation == env(i).waits.generation
  }

  predicate AllUnchanged(env: Environment, a: nat, b: nat)
  {
    forall i: nat | a <= i < b :: Unchanged(env, i)
  }

  predicate HasDeadline(env: Environment, i: nat, d: nat)
  {
    env(i + 1).waits.earliestDeadline == Some(d)
  }

  /** Turn `i` found semantic progress. */
  predicate Advanced(env: Environment, i: nat)
  {
    env(i + 1).progress.generation != env(i).progress.generation
  }

  /** The notifications turn `i` found. */
  function WakesOn(env: Environment, i: nat): (n: nat)
  {
    var last, now := env(i).wake, env(i + 1).wake;
    if last.Ok? && now.Ok? && last.value.notifications <= now.value.notifications
    then now.value.notifications - last.value.notifications
    else 0
  }

  // ---------- one turn ----------

  /** Why a pending turn polled again. */
  datatype Decision = Progressed | Woken | RaceClosed | DeadlineRepoll(deadline: nat) | Parked

  datatype Step = Continue(decision: Decision) | Finish | Fail(error: ExecutorError)

  /** The loop's memory before turn `i` agrees with what the environment last showed it. */
  ghost predicate Observed(s: DriveState, env: Environment, i: nat)
    reads s
  {
    s.observedProgress == env(i).progress && s.observedWait == env(i).waits &&
    env(i).wake == Ok(s.observedWake)
  }

  /**
   The poll streak passes the budget by at most one before a turn, and then only on the
   single extra poll that a missing wait or an expired deadline is allowed.
   */
  ghost predicate Bounded(s: DriveState, env: Environment, i: nat, policy: Policy)
    reads s
  {
    s.pollStreak <= i && s.pollStreak <= policy.pollBudget + 1 &&
    s.wakeStreak <= policy.wakeBudget && s.wakeStreak <= s.observedWake.notifications &&
    (s.noWaitRaceUsed ==> env(i).waits.registrations == 0) &&
    (s.pollStreak == policy.pollBudget + 1 ==>
       if env(i).waits.registrations == 0 then s.noWaitRaceUsed
       else
         s.expiredWait.Some? && s.expiredWait == env(i).waits.earliestDeadline &&
         env(i).now.Ok? && s.expiredWait.value <= env(i).now.value)
  }

  /** How the two one-shot markers may move over turn `i`. */
  ghost predicate Carried(
    env: Environment, i: nat, decision: Decision, expired: Option<nat>, raced: bool, expired': Option<nat>,
    raced': bool)
  {
    (expired'.Some? ==>
       HasDeadline(env, i, expired'.value) && (decision == DeadlineRepoll(expired'.value) || expired == expired')) &&
    (decision.DeadlineRepoll? ==> expired' == Some(decision.deadline)) && (decision == RaceClosed ==> raced') &&
    (raced' ==>
       env(i + 1).waits.registrations == 0 && (decision in {Woken, RaceClosed} || (raced && Unchanged(env, i))))
  }

  /** What an error of turn `i` says about that turn and the markers before it. */
  ghost predicate Diagnosed(
    env: Environment, policy: Policy, i: nat, error: ExecutorError, expired: Option<nat>, raced: bool, streak: nat,
    wakes: nat)
  {
    !Excluded(error) &&
    (error.StalledProvider? ==>
       expired == Some(error.deadline) && HasDeadline(env, i, error.deadline) &&
       env(i + 1).now.Ok? && error.deadline <= env(i + 1).now.value) &&
    (error.Stalled? ==>
       env(i + 1).waits.registrations == 0 && (env(i + 1).race == Ok(false) || (raced && Unchanged(env, i)))) &&
    (error.PollBudgetExceeded? ==> Unchanged(env, i) && streak >= policy.pollBudget) &&
    (error.WakeBudgetExceeded? ==> Unchanged(env, i) && wakes + WakesOn(env, i) > policy.wakeBudget) &&
    (error.PollCounterOverflow? ==> policy.pollBudget + 1 >= U64_MAX)
  }

  /** Turn `i` gets as far as its observation. */
  predicate Heard(env: Environment, i: nat)
  {
    var now := env(i + 1);
    && !now.cancelledBefore && !now.shutdown && now.poll.Pending? && WaitSnapshotIsValid(now.waits)
    && now.wake.Ok? && !now.cancelledAfter
  }

  /** A turn that the run outlives and on which neither generation moved. */
  predicate Calm(env: Environment, i: nat)
  {
    Heard(env, i) && env(i + 1).progress.terminal.Running? && Unchanged(env, i)
  }

  /** What a calm turn within the wake budget comes to. */
  function CalmStep(env: Environment, i: nat, policy: Policy, expired: Option<nat>, raced: bool, streak: nat)
    : (step: Step)
    requires Calm(env, i)
  {
    var now := env(i + 1);
    if WakesOn(env, i) > 0 then
      if streak >= policy.pollBudget then Fail(PollBudgetExceeded(AfterWake)) else Continue(Woken)
    else if now.waits.registrations == 0 then
      if raced then Fail(Stalled)
      else if now.race.Err? then Fail(now.race.error)
      else if now.race.value then Continue(RaceClosed)
      else Fail(Stalled)
    else if now.now.Err? then Fail(now.now.error)
    else if now.waits.earliestDeadline.value <= now.now.value then
      var d := now.waits.earliestDeadline.value;
      if expired == Some(d) then Fail(StalledProvider(d)) else Continue(DeadlineRepoll(d))
    else if streak >= policy.pollBudget then Fail(PollBudgetExceeded(BeforePark))
    else if now.park.Err? then Fail(now.park.error)
    else Continue(Parked)
  }

  /** An expired deadline that is no longer the earliest one plays no part. */
  lemma CalmForgets(env: Environment, i: nat, policy: Policy, expired: Option<nat>, raced: bool, streak: nat)
    requires Calm(env, i) && expired != env(i + 1).waits.earliestDeadline
    ensures CalmStep(env, i, policy, expired, raced, streak) == CalmStep(env, i, policy, None, raced, streak)
  {
  }

  /** What the loop does with a pending poll it has observed. */
  method Settle(s: DriveState, env: Environment, i: nat, policy: Policy, pending: PendingObservation)
    returns (step: Step)
    requires LawfulTurn(env, i) && policy.Valid() && Observed(s, env, i + 1) && WaitSnapshotIsValid(env(i + 1).waits)
    requires pending.pollBudgetExceeded <==> s.pollStreak > policy.pollBudget
    requires pending.semanticProgress || pending.waitChanged <==> !Unchanged(env, i)
    requires !Unchanged(env, i) ==> s.pollStreak == 0 && !s.noWaitRaceUsed
    requires Unchanged(env, i) ==> s.pollStreak > 0
    requires s.pollStreak <= policy.pollBudget + 2 && s.pollStreak <= i + 1
    requires s.wakeStreak <= policy.wakeBudget && s.wakeStreak <= s.observedWake.notifications
    requires s.expiredWait.Some? ==> HasDeadline(env, i, s.expiredWait.value)
    requires s.pollStreak == policy.pollBudget + 2 ==>
               if env(i).waits.registrations == 0 then s.noWaitRaceUsed
               else
                 s.expiredWait.Some? && s.expiredWait == env(i).waits.earliestDeadline &&
                 env(i).now.Ok? && s.expiredWait.value <= env(i).now.value
    requires s.noWaitRaceUsed ==> Unchanged(env, i) && env(i + 1).waits.registrations == 0
    modifies s`noWaitRaceUsed, s`expiredWait
    ensures step.Continue? ==> Bounded(s, env, i + 1, policy)
    ensures step.Continue? && s.expiredWait.Some? ==>
              HasDeadline(env, i, s.expiredWait.value) &&
              (step.decision == DeadlineRepoll(s.expiredWait.value) || old(s.expiredWait) == s.expiredWait)
    ensures step.Continue? && step.decision.DeadlineRepoll? ==> s.expiredWait == Some(step.decision.deadline)
    ensures step.Continue? && s.noWaitRaceUsed ==>
              (step.decision in {Woken, RaceClosed} || (old(s.noWaitRaceUsed) && Unchanged(env, i)))
    ensures step.Fail? && step.error.StalledProvider? ==>
              old(s.expiredWait) == Some(step.error.deadline) &&
              env(i + 1).now.Ok? && step.error.deadline <= env(i + 1).now.value
    ensures step == Fail(Stalled) ==>
              env(i + 1).waits.registrations == 0 && (env(i + 1).race == Ok(false) || old(s.noWaitRaceUsed))
    ensures step.Fail? && step.error.PollBudgetExceeded? ==>
              s.pollStreak > policy.pollBudget
    ensures step.Fail? ==>
              !Excluded(step.error) && step.error != PollCounterOverflow && step.error != WakeBudgetExceeded
    ensures step == Continue(RaceClosed) ==> s.noWaitRaceUsed
    ensures Calm(env, i) && pending.wakeNotifications == WakesOn(env, i) ==>
              step == CalmStep(env, i, policy, old(s.expiredWait), old(s.noWaitRaceUsed), s.pollStreak - 1)
  {
    var now := env(i + 1);
    if pending.semanticProgress || (pending.waitChanged && now.waits.registrations == 0) {
      if pending.pollBudgetExceeded {
        step := Fail(PollBudgetExceeded(AfterProgress));
      } else {
        step := Continue(Progressed);
      }
    } else if pending.wakeNotifications != 0 {
      if pending.pollBudgetExceeded {
        return Fail(PollBudgetExceeded(AfterWake));
      }
      if now.waits.registrations == 0 {
        s.noWaitRaceUsed := true;
      }
      return Continue(Woken);
    } else if now.waits.registrations == 0 {
      if s.noWaitRaceUsed {
        return Fail(Stalled);
      }
      s.noWaitRaceUsed := true;
      if now.race.Err? {
        return Fail(now.race.error);
      }
      return if now.race.value then Continue(RaceClosed) else Fail(Stalled);
    } else {
      s.noWaitRaceUsed := false;
      if now.now.Err? {
        return Fail(now.now.error);
      }
      var action := s.ExpiredWaitAction(now.waits, now.now.value);
      match action
      case Err(error) =>
        step := Fail(error);
      case Ok(Repoll) =>
        step := Continue(DeadlineRepoll(now.waits.earliestDeadline.value));
      case Ok(ProviderStalled(deadline)) =>
        step := Fail(StalledProvider(deadline));
      case Ok(NotExpired) =>
        if pending.pollBudgetExceeded {
          step := Fail(PollBudgetExceeded(BeforePark));
        } else if now.park.Err? {
          step := Fail(now.park.error);
        } else {
          step := Continue(Parked);
        }
    }
  }

  /** What one turn comes to, given the markers and streaks before it and after it. */
  ghost predicate Turned(
    env: Environment, policy: Policy, i: nat, step: Step,
    expired: Option<nat>, raced: bool, streak: nat, wakes: nat,
    expired': Option<nat>, raced': bool, streak': nat, wakes': nat)
  {
    (step.Continue? ==>
       && Heard(env, i) && env(i + 1).progress.terminal.Running?
       && Carried(env, i, step.decision, expired, raced, expired', raced')
       && streak' == (if Unchanged(env, i) then streak + 1 else 0)
       && streak' <= policy.pollBudget + 1 && streak' <= U64_MAX
       && wakes' == (if Advanced(env, i) then 0 else if Unchanged(env, i) then wakes + WakesOn(env, i) else wakes)
       && wakes' <= policy.wakeBudget) &&
    (step.Fail? ==> Diagnosed(env, policy, i, step.error, expired, raced, streak, wakes)) &&
    (Heard(env, i) && Unchanged(env, i) && streak + 1 > U64_MAX ==> step == Fail(PollCounterOverflow)) &&
    (Heard(env, i) && Unchanged(env, i) && streak + 1 <= U64_MAX && wakes + WakesOn(env, i) > policy.wakeBudget ==>
       step == Fail(WakeBudgetExceeded)) &&
    (Calm(env, i) && streak + 1 <= U64_MAX && wakes + WakesOn(env, i) <= policy.wakeBudget ==>
       step == CalmStep(env, i, policy, expired, raced, streak))
  }

  /** The observation of turn `i`, in the environment's terms. */
  method Notice(s: DriveState, env: Environment, i: nat, policy: Policy)
    returns (r: Result<PendingObservation, ExecutorError>)
    requires LawfulTurn(env, i) && policy.Valid() && Observed(s, env, i) && Heard(env, i)
    requires s.wakeStreak <= policy.wakeBudget && s.wakeStreak <= s.observedWake.notifications
    modifies s
    ensures r.Err? ==> r.error in {PollCounterOverflow, WakeBudgetExceeded}
    ensures r == Err(PollCounterOverflow) <==> Unchanged(env, i) && old(s.pollStreak) + 1 > U64_MAX
    ensures r == Err(WakeBudgetExceeded) <==>
              Unchanged(env, i) && old(s.pollStreak) + 1 <= U64_MAX &&
              old(s.wakeStreak) + WakesOn(env, i) > policy.wakeBudget
    ensures r.Ok? ==>
              && Observed(s, env, i + 1)
              && r.value.wakeNotifications == WakesOn(env, i)
              && r.value.pollBudgetExceeded == (s.pollStreak > policy.pollBudget)
              && r.value.semanticProgress == Advanced(env, i)
              && (r.value.semanticProgress || r.value.waitChanged) == !Unchanged(env, i)
              && s.pollStreak == (if Unchanged(env, i) then old(s.pollStreak) + 1 else 0) && s.pollStreak <= U64_MAX
              && s.wakeStreak == (if Advanced(env, i) then 0
                                  else if Unchanged(env, i) then old(s.wakeStreak) + WakesOn(env, i)
                                  else old(s.wakeStreak))
              && s.wakeStreak <= policy.wakeBudget && s.wakeStreak <= s.observedWake.notifications
              && s.noWaitRaceUsed == (old(s.noWaitRaceUsed) && Unchanged(env, i))
              && s.expiredWait == if old(s.expiredWait) == env(i + 1).waits.earliestDeadline then old(s.expiredWait)
                                  else None
  {
    var now := env(i + 1);
    r := s.Observe(now.progress, now.waits, now.wake.value, policy);
  }

  /** A pending poll that was not cancelled: it is observed, and then settled. */
  method Attend(s: DriveState, env: Environment, i: nat, policy: Policy) returns (step: Step)
    requires LawfulTurn(env, i) && policy.Valid() && Observed(s, env, i) && Bounded(s, env, i, policy) && Heard(env, i)
    modifies s
    ensures step.Continue? ==> Observed(s, env, i + 1) && Bounded(s, env, i + 1, policy)
    ensures Turned(env, policy, i, step, old(s.expiredWait), old(s.noWaitRaceUsed), old(s.pollStreak),
                   old(s.wakeStreak), s.expiredWait, s.noWaitRaceUsed, s.pollStreak, s.wakeStreak)
  {
    hide CalmStep, WakesOn;
    var now := env(i + 1);
    if Calm(env, i) && s.expiredWait != now.waits.earliestDeadline {
      CalmForgets(env, i, policy, s.expiredWait, s.noWaitRaceUsed, s.pollStreak);
    }
    var observed := Notice(s, env, i, policy);
    if observed.Err? {
      return Fail(observed.error);
    }
    if !now.progress.terminal.Running? {
      return Fail(TerminalFuturePending(now.progress.terminal));
    }
    step := Settle(s, env, i, policy, observed.value);
  }

  method TakeTurn(s: DriveState, env: Environment, i: nat, policy: Policy) returns (step: Step)
    requires Lawful(env) && policy.Valid() && Observed(s, env, i) && Bounded(s, env, i, policy)
    modifies s
    ensures step.Continue? ==> Observed(s, env, i + 1) && Bounded(s, env, i + 1, policy)
    ensures Turned(env, policy, i, step, old(s.expiredWait), old(s.noWaitRaceUsed), old(s.pollStreak),
                   old(s.wakeStreak), s.expiredWait, s.noWaitRaceUsed, s.pollStreak, s.wakeStreak)
  {
    hide Lawful, CalmStep, Carried, Observed, Bounded, Unchanged, WakesOn;
    LawfulTurns(env, i);
    var now := env(i + 1);
    if now.cancelledBefore {
      return Fail(Cancelled);
    }
    if now.shutdown {
      return Fail(WaitRegistryShutdown);
    }
    if now.poll.Panicked? {
      return Fail(FuturePanicked);
    }
    if now.poll.Ready? {
      return Finish;
    }
    if !WaitSnapshotIsValid(now.waits) {
      return Fail(WaitSnapshotInconsistent);
    }
    if now.wake.Err? {
      return Fail(now.wake.error);
    }
    if now.cancelledAfter {
      return Fail(Cancelled);
    }
    step := Attend(s, env, i, policy);
  }

  // ---------- the loop ----------

  datatype Outcome = Finished | Failed(error: ExecutorError)

  /** A missing wait was already excused once, at turn `j`, and nothing has changed since. */
  ghost predicate Excused(env: Environment, log: seq<Decision>, j: nat, n: nat)
  {
    j < |log| && log[j] in {Woken, RaceClosed} &&
    env(j + 1).waits.registrations == 0 && AllUnchanged(env, j + 1, n)
  }

  /** Deadline `d` already bought its repoll, at turn `j`, and has been the earliest deadline ever since. */
  ghost predicate Repolled(env: Environment, log: seq<Decision>, j: nat, n: nat, d: nat)
  {
    j < |log| && log[j] == DeadlineRepoll(d) && forall i: nat | j <= i < n :: HasDeadline(env, i, d)
  }

  /** What the two markers remember before turn `n`. */
  ghost predicate Remembered(env: Environment, log: seq<Decision>, n: nat, expired: Option<nat>, raced: bool)
  {
    |log| == n &&
    (expired.Some? ==> exists j: nat :: Repolled(env, log, j, n, expired.value)) &&
    (raced ==> exists j: nat :: Excused(env, log, j, n))
  }

  lemma RememberedOn(
    env: Environment, log: seq<Decision>, n: nat, decision: Decision,
    expired: Option<nat>, raced: bool, expired': Option<nat>, raced': bool)
    requires Remembered(env, log, n, expired, raced)
    requires Carried(env, n, decision, expired, raced, expired', raced')
    ensures Remembered(env, log + [decision], n + 1, expired', raced')
  {
    var log' := log + [decision];
    if expired'.Some? {
      if decision == DeadlineRepoll(expired'.value) {
        assert Repolled(env, log', n, n + 1, expired'.value);
      } else {
        var j: nat :| Repolled(env, log, j, n, expired.value);
        assert Repolled(env, log', j, n + 1, expired'.value);
      }
    }
    if raced' {
      if decision in {Woken, RaceClosed} {
        assert Excused(env, log', n, n + 1);
      } else {
        var j: nat :| Excused(env, log, j, n);
        assert Excused(env, log', j, n + 1);
      }
    }
  }

  /** No run of unchanged turns before turn `n` is longer than `most`. */
  ghost predicate ShortWindows(env: Environment, n: nat, most: nat)
  {
    forall a: nat, b: nat | a <= b <= n && AllUnchanged(env, a, b) :: b - a <= most
  }

  /** Exactly the last `k` of the first `n` turns were unchanged. */
  ghost predicate Streak(env: Environment, n: nat, k: nat)
  {
    k <= n && AllUnchanged(env, n - k, n) && (k < n ==> !Unchanged(env, n - k - 1))
  }

  lemma StreakOn(env: Environment, n: nat, k: nat, most: nat)
    requires Streak(env, n, k) && ShortWindows(env, n, most) && k < most
    ensures Streak(env, n + 1, if Unchanged(env, n) then k + 1 else 0)
    ensures ShortWindows(env, n + 1, most)
  {
    forall a: nat, b: nat | a <= b <= n + 1 && AllUnchanged(env, a, b)
      ensures b - a <= most
    {
      assert b == n + 1 ==> forall i: nat | a <= i <= n :: Unchanged(env, i);
    }
  }

  lemma GenerationsGrow(env: Environment, i: nat)
    requires Lawful(env)
    ensures Generations(env, 0) <= Generations(env, i) <= Generations(env, i + 1) <= 2 * U64_MAX
    ensures Unchanged(env, i) <==> Generations(env, i) == Generations(env, i + 1)
  {
  }

  /** `changes` changes of generation, at `k` turns each, pay for `turns` turns and `extra` more do not. */
  ghost predicate Paid(turns: nat, k: nat, changes: int, extra: nat)
  {
    turns <= k * changes + extra
  }

  /** Each change of generation pays for at most `k` turns. */
  lemma TurnsGrow(k: nat, turns: nat, streak: nat, g: nat, g': nat)
    requires Paid(turns, k, g, streak) && streak < k && g <= g'
    ensures Paid(turns + 1, k, g', if g == g' then streak + 1 else 0)
    ensures Paid(turns + 1, k, g' + 1, 0)
  {
    if g < g' { assert k * g' >= k * (g + 1) == k * g + k; }
    assert k * (g' + 1) == k * g' + k;
  }

  // ---------- wakes over a run ----------

  /** The turn after the last semantic progress of the first `n` turns. */
  function LastAdvance(env: Environment, n: nat): (a: nat)
  {
    if n == 0 then 0 else if Advanced(env, n - 1) then n else LastAdvance(env, n - 1)
  }

  lemma {:induction false} LastAdvanceMeans(env: Environment, n: nat)
    ensures var a := LastAdvance(env, n);
            a <= n && (a > 0 ==> Advanced(env, a - 1)) && forall i: nat | a <= i < n :: !Advanced(env, i)
  {
    if n > 0 && !Advanced(env, n - 1) { LastAdvanceMeans(env, n - 1); }
  }

  /** The notifications found on the unchanged turns from `a` to `b`. */
  function IdleWakes(env: Environment, a: nat, b: nat): (n: nat)
  {
    if b <= a then 0 else IdleWakes(env, a, b - 1) + if Unchanged(env, b - 1) then WakesOn(env, b - 1) else 0
  }

  /** The notifications found on unchanged turns since the last semantic progress. */
  function WakeDebt(env: Environment, n: nat): (k: nat)
  {
    IdleWakes(env, LastAdvance(env, n), n)
  }

  /** A wait change keeps the debt: only semantic progress clears it. */
  lemma WakeDebtOn(env: Environment, n: nat)
    ensures WakeDebt(env, 0) == 0
    ensures WakeDebt(env, n + 1) ==
            if Advanced(env, n) then 0
            else if Unchanged(env, n) then WakeDebt(env, n) + WakesOn(env, n)
            else WakeDebt(env, n)
  {
    LastAdvanceMeans(env, n);
  }

  /** Only a turn on which nothing moved can carry the debt past the budget. */
  lemma DebtPasses(env: Environment, policy: Policy, n: nat)
    requires WakeDebt(env, n) <= policy.wakeBudget < WakeDebt(env, n + 1)
    ensures Unchanged(env, n) && WakeDebt(env, n + 1) == WakeDebt(env, n) + WakesOn(env, n)
  {
    WakeDebtOn(env, n);
  }

  ghost predicate WithinWakes(env: Environment, policy: Policy, n: nat)
  {
    forall m: nat | m <= n :: WakeDebt(env, m) <= policy.wakeBudget
  }

  lemma WithinWakesOn(env: Environment, policy: Policy, n: nat)
    requires WithinWakes(env, policy, n) && WakeDebt(env, n + 1) <= policy.wakeBudget
    ensures WithinWakes(env, policy, n + 1)
  {
  }

  /** What an error says about the turns before it. */
  ghost predicate Explained(env: Environment, policy: Policy, error: ExecutorError, turns: nat, log: seq<Decision>)
  {
    !Excluded(error) &&
    (error.StalledProvider? ==> exists j: nat :: Repolled(env, log, j, turns, error.deadline)) &&
    (error.Stalled? ==>
       env(turns).waits.registrations == 0 &&
       (env(turns).race == Ok(false) || exists j: nat :: Excused(env, log, j, turns))) &&
    (error.PollBudgetExceeded? ==> exists k: nat :: k > policy.pollBudget && Streak(env, turns, k)) &&
    (error.WakeBudgetExceeded? ==> WakeDebt(env, turns) > policy.wakeBudget) &&
    (error.PollCounterOverflow? ==> policy.pollBudget + 1 >= U64_MAX)
  }

  /** What holds of the turns behind every pass of the loop, where `most` bounds a run of unchanged turns. */
  ghost predicate Tracked(env: Environment, turns: nat, streak: nat, most: nat)
  {
    Streak(env, turns, streak) && ShortWindows(env, turns, most) &&
    Generations(env, 0) <= Generations(env, turns) &&
    Paid(turns, most + 1, Generations(env, turns) - Generations(env, 0), streak)
  }

  /** What a finished drive promises about its polls. */
  ghost predicate Thrifty(env: Environment, turns: nat, most: nat)
  {
    ShortWindows(env, turns, most) &&
    Paid(turns, most + 1, Generations(env, turns) - Generations(env, 0) + 1, 0)
  }

  lemma Explain(
    env: Environment, policy: Policy, log: seq<Decision>, n: nat, error: ExecutorError,
    expired: Option<nat>, raced: bool, streak: nat)
    requires Remembered(env, log, n, expired, raced) && Streak(env, n, streak)
    requires Diagnosed(env, policy, n, error, expired, raced, streak, WakeDebt(env, n))
    ensures Explained(env, policy, error, n + 1, log)
  {
    WakeDebtOn(env, n);
    if error.StalledProvider? {
      var j: nat :| Repolled(env, log, j, n, error.deadline);
      assert Repolled(env, log, j, n + 1, error.deadline);
    }
    if error.Stalled? && env(n + 1).race != Ok(false) {
      var j: nat :| Excused(env, log, j, n);
      assert Excused(env, log, j, n + 1);
    }
    if error.PollBudgetExceeded? {
      assert Streak(env, n + 1, streak + 1);
    }
  }

  lemma TrackedOn(env: Environment, turns: nat, streak: nat, most: nat)
    requires Lawful(env) && Tracked(env, turns, streak, most) && streak < most
    ensures Streak(env, turns, streak)
    ensures Tracked(env, turns + 1, if Unchanged(env, turns) then streak + 1 else 0, most)
    ensures Thrifty(env, turns + 1, most)
  {
    hide Lawful, ShortWindows, Streak, Paid, Generations, Unchanged;
    GenerationsGrow(env, turns);
    StreakOn(env, turns, streak, most);
    TurnsGrow(most + 1, turns, streak,
              Generations(env, turns) - Generations(env, 0), Generations(env, turns + 1) - Generations(env, 0));
  }

  // ---------- what ends a park ----------

  /** Turn `i` finds something moved: a generation, a notification, or an exhausted wake signal. */
  predicate Stirred(env: Environment, i: nat)
  {
    !Unchanged(env, i) || WakesOn(env, i) > 0 || env(i + 1).wake.Err?
  }

  /** From turn `i` on the clock has reached the earliest deadline observed before that turn. */
  ghost predicate Past(env: Environment, i: nat)
  {
    env(i).waits.earliestDeadline.Some? &&
    forall j: nat | i < j :: env(j).now.Ok? ==> env(i).waits.earliestDeadline.value <= env(j).now.value
  }

  /** A park ends as changed only over something the next turn finds moved, and by its deadline only past it. */
  ghost predicate ParkEnds(env: Environment, i: nat)
  {
    match env(i + 1).park case Ok(Changed) => Stirred(env, i + 1) case Ok(Deadline) => Past(env, i + 1) case _ => true
  }

  /** Every park of a run ended for a reason. */
  ghost predicate Honest(env: Environment, log: seq<Decision>)
  {
    forall i: nat | i < |log| && log[i] == Parked :: ParkEnds(env, i)
  }

  /** The longest run of unchanged polls: the budget, its one excuse and the report; wakes may end it earlier. */
  function Longest(policy: Policy): (most: nat)
  {
    Min(Min(policy.pollBudget + 2, 2 * policy.wakeBudget + 3), U64_MAX + 1)
  }

  /**
   The last `k` polls before turn `n` are paid for by two polls for each notification found
   on them, but for `owed`.  One is owed to a park or a race that has to be answered now;
   two are owed once a passed deadline has had its repoll as well.
   */
  ghost predicate Owing(env: Environment, n: nat, k: nat, owed: nat, expired: Option<nat>, raced: bool)
  {
    k <= n && owed <= 2 && k <= 2 * IdleWakes(env, n - k, n) + owed &&
    (owed == 1 ==> Stirred(env, n) || Past(env, n) || (raced && env(n).waits.registrations == 0)) &&
    (owed == 2 ==> Past(env, n) && expired == env(n).waits.earliestDeadline)
  }

  /** How a calm turn without a notification went on. */
  ghost predicate Idled(
    env: Environment, i: nat, decision: Decision,
    expired: Option<nat>, raced: bool, expired': Option<nat>, raced': bool)
  {
    var waits, now := env(i + 1).waits, env(i + 1).now;
    && env(i + 1).wake.Ok?
    && match decision
       case Parked =>
         && waits.registrations > 0 && waits.earliestDeadline.Some? && env(i + 1).park.Ok?
         && now.Ok? && now.value < waits.earliestDeadline.value
       case DeadlineRepoll(d) =>
         waits.earliestDeadline == Some(d) == expired' && expired != expired' && now.Ok? && d <= now.value
       case RaceClosed => waits.registrations == 0 && waits.earliestDeadline.None? && !raced && raced'
       case _ => false
  }

  lemma CalmIdles(
    env: Environment, i: nat, policy: Policy, decision: Decision, streak: nat,
    expired: Option<nat>, raced: bool, expired': Option<nat>, raced': bool)
    requires Calm(env, i) && WakesOn(env, i) == 0
    requires CalmStep(env, i, policy, expired, raced, streak) == Continue(decision)
    requires Carried(env, i, decision, expired, raced, expired', raced')
    ensures Idled(env, i, decision, expired, raced, expired', raced')
  {
  }

  /** A passed deadline stays passed while the wait stands. */
  lemma PastOn(env: Environment, i: nat)
    requires Lawful(env) && Past(env, i) && Unchanged(env, i)
    ensures Past(env, i + 1)
  {
    LawfulTurns(env, i);
  }

  lemma WakeOwes(env: Environment, n: nat, k: nat, owed: nat, expired: Option<nat>, raced: bool,
                 expired': Option<nat>, raced': bool)
    requires Lawful(env) && Owing(env, n, k, owed, expired, raced)
    requires Unchanged(env, n) && WakesOn(env, n) > 0
    ensures Owing(env, n + 1, k + 1, if owed == 2 then 1 else 0, expired', raced')
  {
    hide Lawful, Past;
    if owed == 2 { PastOn(env, n); }
  }

  lemma IdleOwes(env: Environment, n: nat, k: nat, owed: nat, decision: Decision,
                 expired: Option<nat>, raced: bool, expired': Option<nat>, raced': bool)
    requires Lawful(env) && Owing(env, n, k, owed, expired, raced)
    requires Unchanged(env, n) && WakesOn(env, n) == 0 && Idled(env, n, decision, expired, raced, expired', raced')
    requires decision == Parked ==> ParkEnds(env, n)
    ensures Owing(env, n + 1, k + 1, if decision.DeadlineRepoll? then 2 else 1, expired', raced')
  {
    LawfulTurns(env, n);
    match decision
    case Parked =>
      assert owed == 0;
    case DeadlineRepoll(d) =>
      assert owed < 2;
      assert Past(env, n + 1) by { assert LawfulClock(env); }
    case RaceClosed =>
      assert owed == 0;
  }

  lemma {:induction false} IdleWakesFrom(env: Environment, a: nat, a': nat, b: nat)
    requires a <= a' <= b
    ensures IdleWakes(env, a', b) <= IdleWakes(env, a, b)
  {
    if a' < b { IdleWakesFrom(env, a, a', b - 1); }
  }

  /** The notifications of a run of unchanged turns are all still owed. */
  lemma StreakWakes(env: Environment, n: nat, k: nat)
    requires Streak(env, n, k)
    ensures IdleWakes(env, n - k, n) <= WakeDebt(env, n)
  {
    LastAdvanceMeans(env, n);
    assert forall i: nat | n - k <= i < n :: Unchanged(env, i) ==> !Advanced(env, i);
    IdleWakesFrom(env, LastAdvance(env, n), n - k, n);
  }

  /** What an honest run keeps before every turn. */
  ghost predicate Rested(
    env: Environment, policy: Policy, log: seq<Decision>, n: nat, k: nat, owed: nat, expired: Option<nat>, raced: bool)
  {
    Honest(env, log) ==> Owing(env, n, k, owed, expired, raced) && Tracked(env, n, k, Longest(policy))
  }

  lemma RestedEnds(
    env: Environment, policy: Policy, log: seq<Decision>, n: nat, k: nat, owed: nat, expired: Option<nat>, raced: bool)
    requires Lawful(env) && Rested(env, policy, log, n, k, owed, expired, raced)
    requires WakeDebt(env, n) <= policy.wakeBudget && k <= policy.pollBudget + 1 && k <= U64_MAX
    ensures Honest(env, log) ==>
              Thrifty(env, n + 1, Longest(policy)) &&
              Tracked(env, n + 1, if Unchanged(env, n) then k + 1 else 0, Longest(policy))
  {
    hide Lawful, Thrifty, Honest, Unchanged, IdleWakes, WakeDebt, Past, Stirred, Streak, ShortWindows, Generations;
    if Honest(env, log) {
      StreakWakes(env, n, k);
      TrackedOn(env, n, k, Longest(policy));
    }
  }

  lemma RestedOn(
    env: Environment, policy: Policy, log: seq<Decision>, n: nat, k: nat, owed: nat, decision: Decision,
    expired: Option<nat>, raced: bool, expired': Option<nat>, raced': bool)
    returns (owed': nat)
    requires Lawful(env) && |log| == n && Rested(env, policy, log, n, k, owed, expired, raced)
    requires WakeDebt(env, n) <= policy.wakeBudget && k <= policy.pollBudget + 1 && k <= U64_MAX
    requires Carried(env, n, decision, expired, raced, expired', raced')
    requires Unchanged(env, n) ==>
               Calm(env, n) && CalmStep(env, n, policy, expired, raced, k) == Continue(decision)
    ensures Rested(env, policy, log + [decision], n + 1, if Unchanged(env, n) then k + 1 else 0, owed', expired',
                   raced')
  {
    hide Lawful, Unchanged, Calm, CalmStep, Carried, WakesOn, Tracked, Longest, Past, ParkEnds, Idled, Thrifty;
    hide WakeDebt;
    owed' := 0;
    var log' := log + [decision];
    if Honest(env, log') {
      assert Honest(env, log) by {
        forall i: nat | i < |log| && log[i] == Parked ensures ParkEnds(env, i) { assert log'[i] == Parked; }
      }
      RestedEnds(env, policy, log, n, k, owed, expired, raced);
      if !Unchanged(env, n) {
        assert Owing(env, n + 1, 0, 0, expired', raced');
      } else if WakesOn(env, n) > 0 {
        WakeOwes(env, n, k, owed, expired, raced, expired', raced');
        owed' := if owed == 2 then 1 else 0;
      } else {
        CalmIdles(env, n, policy, decision, k, expired, raced, expired', raced');
        assert log'[n] == decision;
        IdleOwes(env, n, k, owed, decision, expired, raced, expired', raced');
        owed' := if decision.DeadlineRepoll? then 2 else 1;
      }
    }
  }

  lemma Start(s: DriveState, env: Environment, policy: Policy)
    requires s.pollStreak == 0 && s.wakeStreak == 0 && !s.noWaitRaceUsed && s.expiredWait == None
    ensures Tracked(env, 0, 0, policy.pollBudget + 2) && Bounded(s, env, 0, policy)
    ensures Remembered(env, [], 0, None, false) && Rested(env, policy, [], 0, 0, 0, None, false)
    ensures WakeDebt(env, 0) == 0 && WithinWakes(env, policy, 0)
  {
  }

  method Loop(s: DriveState, env: Environment, policy: Policy)
    returns (outcome: Outcome, turns: nat, log: seq<Decision>)
    requires Lawful(env) && policy.Valid() && Observed(s, env, 0)
    requires s.pollStreak == 0 && s.wakeStreak == 0 && !s.noWaitRaceUsed && s.expiredWait == None
    modifies s
    ensures turns > 0 && |log| == turns - 1 && Thrifty(env, turns, policy.pollBudget + 2)
    ensures Honest(env, log) ==> Thrifty(env, turns, Longest(policy))
    ensures outcome.Failed? ==> Explained(env, policy, outcome.error, turns, log)
    ensures WithinWakes(env, policy, |log|)
    ensures Heard(env, turns - 1) && WakeDebt(env, turns) > policy.wakeBudget ==>
              outcome == Failed(WakeBudgetExceeded) || outcome == Failed(PollCounterOverflow)
  {
    hide Lawful, Tracked, Thrifty, Generations, Unchanged, Bounded, Observed, Carried, Diagnosed, Explained;
    hide Remembered, Streak, Heard, CalmStep, WakeDebt, WithinWakes, WakesOn, Advanced, Rested, Honest, Longest;
    Start(s, env, policy);
    turns, log := 0, [];
    ghost var owed: nat := 0;
    while true
      invariant |log| == turns && s.pollStreak <= policy.pollBudget + 1 && s.pollStreak <= U64_MAX
      invariant Observed(s, env, turns) && Bounded(s, env, turns, policy)
      invariant Tracked(env, turns, s.pollStreak, policy.pollBudget + 2)
      invariant Rested(env, policy, log, turns, s.pollStreak, owed, s.expiredWait, s.noWaitRaceUsed)
      invariant Remembered(env, log, turns, s.expiredWait, s.noWaitRaceUsed)
      invariant s.wakeStreak == WakeDebt(env, turns) <= policy.wakeBudget && WithinWakes(env, policy, turns)
      decreases 2 * U64_MAX - Generations(env, turns), policy.pollBudget + 2 - s.pollStreak
    {
      GenerationsGrow(env, turns);
      TrackedOn(env, turns, s.pollStreak, policy.pollBudget + 2);
      RestedEnds(env, policy, log, turns, s.pollStreak, owed, s.expiredWait, s.noWaitRaceUsed);
      WakeDebtOn(env, turns);
      if WakeDebt(env, turns + 1) > policy.wakeBudget { DebtPasses(env, policy, turns); }
      ghost var expired, raced, streak := s.expiredWait, s.noWaitRaceUsed, s.pollStreak;
      var step := TakeTurn(s, env, turns, policy);
      match step
      case Finish =>
        return Finished, turns + 1, log;
      case Fail(error) =>
        Explain(env, policy, log, turns, error, expired, raced, streak);
        return Failed(error), turns + 1, log;
      case Continue(decision) =>
        RememberedOn(env, log, turns, decision, expired, raced, s.expiredWait, s.noWaitRaceUsed);
        owed := RestedOn(env, policy, log, turns, streak, owed, decision, expired, raced, s.expiredWait,
                         s.noWaitRaceUsed);
        WithinWakesOn(env, policy, turns);
        turns, log := turns + 1, log + [decision];
    }
  }

  /**
   Every drive ends.  Between two changes of generation it polls at most
   `pollBudget + 2` times, and at most `Longest(policy)` times if its parks end for a reason;
   a provider is reported stalled only after the one repoll its expired deadline buys; a
   missing wait is reported only after its one excuse.
   */
  method Drive(env: Environment, policy: Policy) returns (outcome: Outcome, turns: nat, log: seq<Decision>)
    requires Lawful(env) && policy.Valid()
    ensures turns == 0 ==> log == []
    ensures turns > 0 ==> |log| == turns - 1
    ensures Thrifty(env, turns, policy.pollBudget + 2)
    ensures Honest(env, log) ==> Thrifty(env, turns, Longest(policy))
    ensures outcome.Failed? ==> Explained(env, policy, outcome.error, turns, log)
    ensures WithinWakes(env, policy, |log|)
    ensures turns > 0 && Heard(env, turns - 1) && WakeDebt(env, turns) > policy.wakeBudget ==>
              outcome == Failed(WakeBudgetExceeded) || outcome == Failed(PollCounterOverflow)
  {
    assert forall most: nat :: Thrifty(env, 0, most);
    if env(0).shutdown {
      return Failed(WaitRegistryShutdown), 0, [];
    }
    if !WaitSnapshotIsValid(env(0).waits) {
      return Failed(WaitSnapshotInconsistent), 0, [];
    }
    if env(0).wake.Err? {
      return Failed(env(0).wake.error), 0, [];
    }
    var s := new DriveState(env(0).progress, env(0).waits, env(0).wake.value);
    outcome, turns, log := Loop(s, env, policy);
  }

  // ---------- the bound is attained ----------

  const DEADLINE := 1

  /** The turns before the deadline passes. */
  function Rounds(policy: Policy): (n: nat)
  {
    Min(policy.pollBudget, 2 * policy.wakeBudget + 1)
  }

  /**
   One wait, and neither generation ever moves.  Every other turn parks, a wake ends the park,
   and the deadline passes after `Rounds(policy)` turns.
   */
  function Tight(policy: Policy): (env: Environment)
  {
    (i: nat) =>
      var wakes := Min(i, Rounds(policy)) / 2;
      Turn(false, false, Pending, ProgressSnapshot(1, Running), WaitSnapshot(1, Some(DEADLINE), 1),
           Ok(WakeBookkeeping(wakes + 1, wakes)), false, Ok(false),
           Ok(if i <= Rounds(policy) then 0 else DEADLINE), Ok(if i < Rounds(policy) then Changed else Deadline))
  }

  /** The wake signal has room: a turn parks before every wake, and the poll budget fits in 64 bits. */
  lemma TightWakes(policy: Policy)
    requires policy.Valid()
    ensures LawfulWakes(Tight(policy))
  {
    var env := Tight(policy);
    forall i: nat, j: nat | i <= j
      ensures LawfulWake(env(i).wake) && WakesGrow(env(i).wake, env(j).wake)
    {
      assert Min(i, Rounds(policy)) <= Min(j, Rounds(policy)) <= U64_MAX;
    }
  }

  lemma TightIsLawful(policy: Policy)
    requires policy.Valid()
    ensures Lawful(Tight(policy))
  {
    hide LawfulWakes;
    TightWakes(policy);
    var env := Tight(policy);
    assert LawfulGenerations(env) && LawfulWaits(env);
    assert LawfulClock(env);
    assert LawfulErrors(env);
  }

  /** Even turns park and odd ones are woken, until the deadline has passed. */
  function TightDecision(policy: Policy, i: nat): (d: Decision)
  {
    if i >= Rounds(policy) then DeadlineRepoll(DEADLINE) else if i % 2 == 0 then Parked else Woken
  }

  lemma TightTurn(policy: Policy, i: nat, expired: Option<nat>)
    requires policy.Valid()
    ensures Unchanged(Tight(policy), i) && Calm(Tight(policy), i)
    ensures WakesOn(Tight(policy), i) == Min(i + 1, Rounds(policy)) / 2 - Min(i, Rounds(policy)) / 2
    ensures CalmStep(Tight(policy), i, policy, expired, false, i) ==
            if i >= Rounds(policy) && expired == Some(DEADLINE) then Fail(StalledProvider(DEADLINE))
            else Continue(TightDecision(policy, i))
  {
  }

  lemma TightEnds(policy: Policy, i: nat)
    requires policy.Valid() && TightDecision(policy, i) == Parked
    ensures ParkEnds(Tight(policy), i)
  {
  }

  /** The markers and streaks before turn `i` of that environment. */
  ghost predicate TightState(policy: Policy, i: nat, expired: Option<nat>, raced: bool, streak: nat, wakes: nat)
  {
    && i == streak <= Min(Rounds(policy) + 1, U64_MAX) && wakes == Min(i, Rounds(policy)) / 2 && !raced
    && expired == if i <= Rounds(policy) then None else Some(DEADLINE)
  }

  /** The step that turn `i` ends with, if it is the last. */
  predicate TightLast(policy: Policy, i: nat, step: Step)
  {
    && i + 1 == Longest(policy)
    && step == if i < U64_MAX then Fail(StalledProvider(DEADLINE)) else Fail(PollCounterOverflow)
  }

  lemma TightGoes(
    policy: Policy, i: nat, step: Step, expired: Option<nat>, raced: bool, streak: nat, wakes: nat,
    expired': Option<nat>, raced': bool, streak': nat, wakes': nat)
    requires policy.Valid() && TightState(policy, i, expired, raced, streak, wakes)
    requires Turned(Tight(policy), policy, i, step, expired, raced, streak, wakes, expired', raced', streak', wakes')
    ensures Unchanged(Tight(policy), i)
    ensures if step.Continue?
            then TightState(policy, i + 1, expired', raced', streak', wakes') &&
                 (step.decision == Parked ==> ParkEnds(Tight(policy), i))
            else TightLast(policy, i, step)
  {
    hide Calm, CalmStep, Heard, WakesOn, ParkEnds, Diagnosed;
    TightTurn(policy, i, expired);
    if step == Continue(Parked) { TightEnds(policy, i); }
  }

  /**
   Turn by turn over that environment, which lets every park end for a reason: its rounds, the
   poll that the passed deadline buys, and the one that reports the stall, all of them
   unchanged; or, where the poll counter has no room for them, as many as it can count.
   */
  method AttainBound(policy: Policy) returns (turns: nat, log: seq<Decision>, last: Step)
    requires policy.Valid()
    ensures turns == Longest(policy) && |log| == turns - 1
    ensures last == if turns <= U64_MAX then Fail(StalledProvider(DEADLINE)) else Fail(PollCounterOverflow)
    ensures Lawful(Tight(policy)) && Honest(Tight(policy), log) && AllUnchanged(Tight(policy), 0, turns)
  {
    hide Lawful, Turned, Bounded, Unchanged, ParkEnds;
    ghost var env := Tight(policy);
    TightIsLawful(policy);
    var s := new DriveState(Tight(policy)(0).progress, Tight(policy)(0).waits, WakeBookkeeping(1, 0));
    Start(s, env, policy);
    turns, log, last := 0, [], Continue(Parked);
    while last.Continue?
      invariant last.Continue? ==>
        && |log| == turns && Observed(s, env, turns) && Bounded(s, env, turns, policy)
        && TightState(policy, turns, s.expiredWait, s.noWaitRaceUsed, s.pollStreak, s.wakeStreak)
      invariant !last.Continue? ==> turns > 0 && |log| == turns - 1 && TightLast(policy, turns - 1, last)
      invariant Honest(env, log) && AllUnchanged(env, 0, turns)
      decreases if last.Continue? then Longest(policy) + 1 - turns else 0
    {
      ghost var expired, raced, streak, wakes := s.expiredWait, s.noWaitRaceUsed, s.pollStreak, s.wakeStreak;
      last := TakeTurn(s, Tight(policy), turns, policy);
      TightGoes(policy, turns, last, expired, raced, streak, wakes,
                s.expiredWait, s.noWaitRaceUsed, s.pollStreak, s.wakeStreak);
      if last.Continue? {
        log := log + [last.decision];
      }
      turns := turns + 1;
    }
  }
}
