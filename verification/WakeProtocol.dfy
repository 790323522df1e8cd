/**
 The wake channel between any number of signallers and the one executor thread that
 parks: bookkeeping under a lock, then an unpark outside it, interleaved with the
 executor's check-then-park.
 */
module WakeProtocol {
  import opened Prelude
  import opened DriveLoop

  // ---------- the bookkeeping ----------

  datatype SignalState = SignalState(book: WakeBookkeeping, generationOverflow: bool, counterOverflow: bool)

  const INITIAL := SignalState(WakeBookkeeping(1, 0), false, false)

  /** The locked part of a signal. */
  function Bump(s: SignalState): (r: SignalState)
  {
    if s.book.generation + 1 > U64_MAX then s.(generationOverflow := true)
    else if s.book.notifications + 1 > U64_MAX then s.(counterOverflow := true)
    else s.(book := WakeBookkeeping(s.book.generation + 1, s.book.notifications + 1))
  }

  function Snapshot(s: SignalState): (r: Result<WakeBookkeeping, ExecutorError>)
  {
    if s.generationOverflow then Err(WakeGenerationOverflow)
    else if s.counterOverflow then Err(WakeCounterOverflow)
    else if !WakeBookkeepingIsValid(s.book) then Err(WakeBookkeepingInconsistent)
    else Ok(s.book)
  }

  /** What every signal keeps: one generation per notification, and only the generation can run out. */
  predicate Consistent(s: SignalState)
  {
    WakeBookkeepingIsValid(s.book) && !s.counterOverflow && (s.generationOverflow ==> s.book.generation == U64_MAX)
  }

  class WakeSignal {
    var generation: nat
    var notifications: nat
    var generationOverflow: bool
    var counterOverflow: bool

    ghost function State(): SignalState
      reads this
    {
      SignalState(WakeBookkeeping(generation, notifications), generationOverflow, counterOverflow)
    }

    constructor ()
      ensures State() == INITIAL && Consistent(State())
    {
      generation, notifications, generationOverflow, counterOverflow := 1, 0, false, false;
    }

    /** One signal moves generation and count together, or records that the generation ran out. */
    method Signal()
      modifies this
      ensures State() == Bump(old(State()))
      ensures old(Consistent(State())) ==>
        Consistent(State()) &&
        (old(generation) < U64_MAX ==>
           generation == old(generation) + 1 && notifications == old(notifications) + 1 && !generationOverflow) &&
        (old(generation) == U64_MAX ==>
           generationOverflow && generation == old(generation) && notifications == old(notifications))
    {
      if generation + 1 > U64_MAX {
        generationOverflow := true;
      } else if notifications + 1 > U64_MAX {
        counterOverflow := true;
      } else {
        generation, notifications := generation + 1, notifications + 1;
      }
    }

    /** A snapshot is the bookkeeping itself; the only failure left is the exhausted generation. */
    method TakeSnapshot() returns (r: Result<WakeBookkeeping, ExecutorError>)
      ensures r == Snapshot(State())
      ensures Consistent(State()) ==> r == if generationOverflow then Err(WakeGenerationOverflow) else Ok(State().book)
    {
      if generationOverflow {
        r := Err(WakeGenerationOverflow);
      } else if counterOverflow {
        r := Err(WakeCounterOverflow);
      } else if !WakeBookkeepingIsValid(WakeBookkeeping(generation, notifications)) {
        r := Err(WakeBookkeepingInconsistent);
      } else {
        r := Ok(WakeBookkeeping(generation, notifications));
      }
    }
  }

  // ---------- the interleavings ----------

  datatype SignallerPc = Idle | Unparking

  /**
   `final` marks the one park of a grace window, after which the loop reports.  Closing the
   race of a missing wait is such a window too: `Reported(Deadline)` then stands for the
   answer that nothing changed.
   */
  datatype ExecutorPc =
    | Polling
    | Checking
    | Parking(final: bool)
    | Blocked(final: bool)
    | Rechecking(final: bool)
    | Reported(outcome: ParkOutcome)
    | Broken(error: ExecutorError)

  datatype World = World(
    signal: SignalState, token: bool, signallers: seq<SignallerPc>,
    pc: ExecutorPc, observed: WakeBookkeeping,
    recorded: nat, reported: nat)

  predicate Init(w: World)
  {
    w.signal == INITIAL && !w.token && w.pc == Polling && w.observed == INITIAL.book &&
    w.recorded == 0 && w.reported == 0 && forall i | 0 <= i < |w.signallers| :: w.signallers[i] == Idle
  }

  datatype Action =
    | SignallerBumps(who: nat)
    | SignallerUnparks(who: nat)
    | TokenTaken
    | ExecutorObserves(park: bool)
    | ExecutorChecks(elsewhere: bool, expired: bool, grace: bool)
    | ExecutorParks
    | ExecutorWakes(byToken: bool)
    | ExecutorRechecks(elsewhere: bool)
    | ExecutorResumes

  /** The executor compares the snapshot with what it observed last. */
  predicate Differs(w: World, elsewhere: bool)
  {
    elsewhere || w.signal.book.generation != w.observed.generation
  }

  /**
   One atomic step.  `elsewhere` stands for a progress or wait generation that moved,
   `expired` for a deadline that passed, and a blocked executor may wake without a token.
   */
  predicate Next(w: World, a: Action, w': World)
  {
    match a
    case SignallerBumps(i) =>
      i < |w.signallers| && w.signallers[i] == Idle &&
      var s := Bump(w.signal);
      w' == w.(signal := s, signallers := w.signallers[i := Unparking],
               recorded := if s.book == w.signal.book then w.recorded else w.recorded + 1)
    case SignallerUnparks(i) =>
      i < |w.signallers| && w.signallers[i] == Unparking &&
      w' == w.(token := true, signallers := w.signallers[i := Idle])
    case TokenTaken =>
      w.pc == Polling && w' == w.(token := false)
    case ExecutorObserves(park) =>
      w.pc == Polling &&
      (match Snapshot(w.signal)
       case Err(e) => w' == w.(pc := Broken(e))
       case Ok(book) =>
         if WakeRefused(w.observed, book) then w' == w.(pc := Broken(WakeBookkeepingInconsistent))
         else
           w' == w.(pc := if park then Checking else Polling, observed := book,
                    reported := w.reported + (book.notifications - w.observed.notifications)))
    case ExecutorChecks(elsewhere, expired, grace) =>
      w.pc == Checking &&
      (match Snapshot(w.signal)
       case Err(e) => w' == w.(pc := Broken(e))
       case Ok(_) =>
         w' == w.(pc := if Differs(w, elsewhere) then Reported(Changed)
                        else if !expired then Parking(false)
                        else if grace then Parking(true) else Reported(Deadline)))
    case ExecutorParks =>
      w.pc.Parking? &&
      w' == if w.token then w.(pc := Rechecking(w.pc.final), token := false) else w.(pc := Blocked(w.pc.final))
    case ExecutorWakes(byToken) =>
      w.pc.Blocked? && (byToken ==> w.token) &&
      w' == w.(pc := Rechecking(w.pc.final), token := w.token && !byToken)
    case ExecutorRechecks(elsewhere) =>
      w.pc.Rechecking? &&
      (match Snapshot(w.signal)
       case Err(e) => w' == w.(pc := Broken(e))
       case Ok(_) =>
         w' == w.(pc := if Differs(w, elsewhere) then Reported(Changed)
                        else if w.pc.final then Reported(Deadline) else Checking))
    case ExecutorResumes =>
      w.pc.Reported? && w' == w.(pc := Polling)
  }

  /** Something happened that the executor has not seen: a new generation, or its exhaustion. */
  predicate Unseen(w: World)
  {
    w.signal.book.generation != w.observed.generation || w.signal.generationOverflow
  }

  ghost predicate UnparkPending(w: World)
  {
    exists i :: 0 <= i < |w.signallers| && w.signallers[i] == Unparking
  }

  ghost predicate Inv(w: World)
  {
    Consistent(w.signal) && WakeBookkeepingIsValid(w.observed) &&
    w.observed.notifications <= w.signal.book.notifications &&
    w.reported == w.observed.notifications && w.recorded == w.signal.book.notifications &&
    ((w.pc.Parking? || w.pc.Blocked?) && Unseen(w) ==> w.token || UnparkPending(w)) &&
    (w.pc.Broken? ==> w.pc.error == WakeGenerationOverflow)
  }

  lemma StepKeepsInv(w: World, a: Action, w': World)
    requires Inv(w) && Next(w, a, w')
    ensures Inv(w')
  {
    match a
    case SignallerBumps(i) =>
      assert w'.signallers[i] == Unparking;
    case SignallerUnparks(i) =>
    case TokenTaken =>
    case ExecutorObserves(park) =>
    case ExecutorChecks(_, _, _) =>
    case ExecutorParks =>
      if UnparkPending(w) {
        var i :| 0 <= i < |w.signallers| && w.signallers[i] == Unparking;
        assert w'.signallers[i] == Unparking;
      }
    case ExecutorWakes(_) =>
    case ExecutorRechecks(_) =>
    case ExecutorResumes =>
  }

  /** A whole run: worlds and the actions between them. */
  ghost predicate Run(worlds: seq<World>, actions: seq<Action>)
  {
    |worlds| == |actions| + 1 && Init(worlds[0]) &&
    forall i | 0 <= i < |actions| :: Next(worlds[i], actions[i], worlds[i + 1])
  }

  lemma {:induction false} RunKeepsInv(worlds: seq<World>, actions: seq<Action>, n: nat)
    requires Run(worlds, actions) && n < |worlds|
    ensures Inv(worlds[n])
  {
    if n > 0 {
      RunKeepsInv(worlds, actions, n - 1);
      StepKeepsInv(worlds[n - 1], actions[n - 1], worlds[n]);
    }
  }

  /**
   No lost wake-up: in every interleaving, an executor that sleeps through a signal, with
   no token left to wake it, still has some signaller's unpark to come.
   */
  lemma NoLostWakeUp(worlds: seq<World>, actions: seq<Action>, n: nat)
    requires Run(worlds, actions) && n < |worlds|
    requires worlds[n].pc.Blocked? && !worlds[n].token && Unseen(worlds[n])
    ensures UnparkPending(worlds[n])
  {
    RunKeepsInv(worlds, actions, n);
  }

  /** Every snapshot of every run is valid or reports the exhausted generation, and nothing is lost or invented. */
  lemma Accounting(worlds: seq<World>, actions: seq<Action>, n: nat)
    requires Run(worlds, actions) && n < |worlds|
    ensures var w := worlds[n];
            w.signal.book.generation == w.signal.book.notifications + 1 && !w.signal.counterOverflow &&
            Snapshot(w.signal) == (if w.signal.generationOverflow then Err(WakeGenerationOverflow)
                                   else Ok(w.signal.book)) &&
            w.recorded == w.reported + (w.signal.book.generation - w.observed.generation) &&
            (w.pc.Broken? ==> w.pc.error == WakeGenerationOverflow)
  {
    RunKeepsInv(worlds, actions, n);
  }

  lemma StepGrows(w: World, a: Action, w': World)
    requires Inv(w) && Next(w, a, w')
    ensures w.recorded <= w'.recorded && w.reported <= w'.reported
    ensures w.signal.book.generation <= w'.signal.book.generation
    ensures w.signal.generationOverflow ==> w'.signal.generationOverflow
  {
  }

  /** Signals that landed by step `n` are still recorded at every later step. */
  lemma {:induction false} GenerationsOnlyGrow(worlds: seq<World>, actions: seq<Action>, m: nat, n: nat)
    requires Run(worlds, actions) && m <= n < |worlds|
    ensures worlds[m].recorded <= worlds[n].recorded && worlds[m].reported <= worlds[n].reported
    ensures worlds[m].signal.book.generation <= worlds[n].signal.book.generation
    ensures worlds[m].signal.generationOverflow ==> worlds[n].signal.generationOverflow
    decreases n - m
  {
    hide Next, Inv, Init;
    if m < n {
      GenerationsOnlyGrow(worlds, actions, m, n - 1);
      RunKeepsInv(worlds, actions, n - 1);
      StepGrows(worlds[n - 1], actions[n - 1], worlds[n]);
    }
  }

  /**
   Whatever the moments at which a drive takes its snapshots of the signal, they satisfy the
   laws that the drive loop asks of its wakes, and no later one is refused for an earlier one.
   */
  lemma SnapshotsAreLawful(worlds: seq<World>, actions: seq<Action>, m: nat, n: nat)
    requires Run(worlds, actions) && m <= n < |worlds|
    ensures var before, after := Snapshot(worlds[m].signal), Snapshot(worlds[n].signal);
            && LawfulWake(before) && LawfulWake(after) && WakesGrow(before, after)
            && (before.Ok? && after.Ok? ==> !WakeRefused(before.value, after.value))
  {
    RunKeepsInv(worlds, actions, m);
    RunKeepsInv(worlds, actions, n);
    GenerationsOnlyGrow(worlds, actions, m, n);
  }

  /** Inside the park loop, between two observations. */
  predicate InPark(pc: ExecutorPc)
  {
    pc.Checking? || pc.Parking? || pc.Blocked? || pc.Rechecking?
  }

  ghost predicate AllInPark(worlds: seq<World>, m: nat, n: nat)
    requires n <= |worlds|
  {
    forall i | m <= i < n :: InPark(worlds[i].pc)
  }

  ghost predicate Unobserved(actions: seq<Action>, m: nat, n: nat)
    requires n <= |actions|
  {
    forall i | m <= i < n :: !actions[i].ExecutorObserves?
  }

  lemma {:induction false} ObservedStays(worlds: seq<World>, actions: seq<Action>, m: nat, n: nat)
    requires Run(worlds, actions) && m <= n < |worlds| && Unobserved(actions, m, n)
    ensures worlds[m].observed == worlds[n].observed
    decreases n - m
  {
    if m < n {
      ObservedStays(worlds, actions, m, n - 1);
      assert Next(worlds[n - 1], actions[n - 1], worlds[n]);
    }
  }

  /**
   A signal that lands while the executor is in its park loop is never slept through to
   the deadline: if that park ends, it ends as a change or as the exhausted generation.
   */
  lemma SignalEndsThePark(worlds: seq<World>, actions: seq<Action>, m: nat, n: nat)
    requires Run(worlds, actions) && m < n < |worlds| && AllInPark(worlds, m, n)
    requires Unseen(worlds[m]) && !InPark(worlds[n].pc)
    ensures worlds[n].pc == Reported(Changed) || worlds[n].pc == Broken(WakeGenerationOverflow)
  {
    forall i | m <= i < n ensures !actions[i].ExecutorObserves? { assert Next(worlds[i], actions[i], worlds[i + 1]); }
    ObservedStays(worlds, actions, m, n - 1);
    GenerationsOnlyGrow(worlds, actions, m, n - 1);
    RunKeepsInv(worlds, actions, m);
    RunKeepsInv(worlds, actions, n - 1);
    RunKeepsInv(worlds, actions, n);
    assert Next(worlds[n - 1], actions[n - 1], worlds[n]);
  }

  /**
   A check that reports a change without a generation moving elsewhere does so over a signal
   that every snapshot up to the next observation still finds: new notifications, or the
   exhausted generation.
   */
  lemma ChangeIsFound(worlds: seq<World>, actions: seq<Action>, m: nat, n: nat)
    requires Run(worlds, actions) && m < n < |worlds| && Unobserved(actions, m, n)
    requires worlds[m].pc.Checking? || worlds[m].pc.Rechecking?
    requires actions[m].ExecutorChecks? || actions[m].ExecutorRechecks?
    requires !actions[m].elsewhere && worlds[m + 1].pc == Reported(Changed)
    ensures var found := Snapshot(worlds[n].signal);
            found.Ok? ==> found.value.notifications > worlds[n].observed.notifications
  {
    assert Next(worlds[m], actions[m], worlds[m + 1]);
    ObservedStays(worlds, actions, m, n);
    GenerationsOnlyGrow(worlds, actions, m, n);
    RunKeepsInv(worlds, actions, m);
    RunKeepsInv(worlds, actions, n);
  }

  /** After every observation, the signals reported are exactly the signals recorded. */
  lemma ObservationCatchesUp(worlds: seq<World>, actions: seq<Action>, n: nat)
    requires Run(worlds, actions) && n < |actions| && actions[n].ExecutorObserves?
    ensures worlds[n + 1].pc == Broken(WakeGenerationOverflow) || worlds[n + 1].reported == worlds[n + 1].recorded
  {
    RunKeepsInv(worlds, actions, n);
    RunKeepsInv(worlds, actions, n + 1);
    assert Next(worlds[n], actions[n], worlds[n + 1]);
  }

  /** The pending unpark is enough: it, the wake-up and the recheck deliver the signal. */
  lemma SignalIsDelivered(w: World, i: nat) returns (w1: World, w2: World, w3: World)
    requires Inv(w) && w.pc.Blocked? && Unseen(w) && i < |w.signallers| && w.signallers[i] == Unparking
    ensures Next(w, SignallerUnparks(i), w1) && Next(w1, ExecutorWakes(true), w2) &&
            Next(w2, ExecutorRechecks(false), w3)
    ensures w3.pc == Reported(Changed) || w3.pc == Broken(WakeGenerationOverflow)
  {
    w1 := w.(token := true, signallers := w.signallers[i := Idle]);
    w2 := w1.(pc := Rechecking(w.pc.final), token := false);
    w3 := w2.(pc := if w.signal.generationOverflow then Broken(WakeGenerationOverflow) else Reported(Changed));
  }
}
