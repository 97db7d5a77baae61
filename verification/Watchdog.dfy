/** The watchdog: a thread that waits for a timeout on a condition variable, and the clients
    that kick it, set and get its timeout and stop it, as a state machine over single steps. */
module Watchdog {
  import opened Text

  // ---------- States ----------

  datatype Owner = Free | Dog | Client(id: nat)

  /** Where the watchdog thread is. */
  datatype DogAt =
    | TestRunning
    | ReadClock
    | TimeoutTest | TimeoutLock | TimeoutRead | TimeoutTestAgain
    | ComputeDeadline
    | Lock
    | Wait
    | Blocked
    | Waking(timedOut: bool)
    | Woken(timedOut: bool)
    | Alerting(next: nat)
    | Unlock
    | Exited

  /** Where a client is in one of its calls. */
  datatype ClientAt =
    | Idle
    | KickTest | KickLock | KickSignal | KickUnlock
    | SetTest(ms: int) | SetLock(ms: int) | SetStore(ms: int) | SetTestAgain
    | GetTest | GetLock | GetRead | GetTestAgain
    | StopTest | StopLock | StopClear | StopSignal | StopUnlock | StopJoin

  /** Time is in nanoseconds.  The last four fields only record what has happened. */
  datatype State = State(
    time: nat, keepRunning: bool, timeoutMs: int, listeners: nat, owner: Owner,
    dog: DogAt, clockUs: nat, ms: int, sec: nat, nsec: nat,
    clients: map<nat, ClientAt>, stopCalled: bool,
    readAt: nat, signalled: bool, heeded: Option<nat>, stopReleased: bool)
  {
    function At(id: nat): ClientAt { if id in clients then clients[id] else Idle }

    function Move(id: nat, to: ClientAt): State { this.(clients := clients[id := to]) }
  }

  const SECOND: nat := 1_000_000_000

  /** The state after `Start`. */
  function Started(time: nat, timeoutMs: int, listeners: nat): State {
    State(time, true, timeoutMs, listeners, Free, TestRunning, 0, 0, 0, 0, map[], false, 0, false, None, false)
  }

  // ---------- Phases of a wait ----------

  /** After the deadline has been computed. */
  predicate HasDeadline(d: DogAt) {
    d.Lock? || d.Wait? || d.Blocked? || d.Waking? || d.Woken? || d.Alerting?
  }

  predicate HasClock(d: DogAt) {
    HasDeadline(d) || d.TimeoutTest? || d.TimeoutLock? || d.TimeoutRead? || d.TimeoutTestAgain? || d.ComputeDeadline?
  }

  predicate HasTimeout(d: DogAt) { HasDeadline(d) || d.TimeoutTestAgain? || d.ComputeDeadline? }

  predicate TimedOut(d: DogAt) { d == Waking(true) || d == Woken(true) || d.Alerting? }

  predicate WokenEarly(d: DogAt) { d == Waking(false) || d == Woken(false) }

  /** Where a signal puts off the timeout: while the thread waits, and until it reads the clock
      for the next wait. */
  predicate Heeds(d: DogAt) { d == Blocked || WokenEarly(d) || !HasClock(d) }

  // ---------- Steps ----------

  /** The nanoseconds and seconds of the deadline. */
  function Deadline(clockUs: nat, ms: nat): (d: (nat, nat))
    ensures d.1 < SECOND && d.0 * SECOND + d.1 == clockUs * 1000 + ms * 1_000_000
  {
    var newNanos := ms * 1_000_000 + clockUs % 1_000_000 * 1000;
    (clockUs / 1_000_000 + newNanos / SECOND, newNanos % SECOND)
  }

  /** Where the thread goes next, nowhere while it has to wait for the mutex or a wake-up. */
  function DogGoes(at: DogAt, keepRunning: bool, owner: Owner, listeners: nat): Option<DogAt> {
    match at
    case TestRunning => Some(if keepRunning then ReadClock else Exited)
    case ReadClock => Some(TimeoutTest)
    case TimeoutTest => Some(if keepRunning then TimeoutLock else TimeoutRead)
    case TimeoutLock => if owner == Free then Some(TimeoutRead) else None
    case TimeoutRead => Some(TimeoutTestAgain)
    case TimeoutTestAgain => Some(ComputeDeadline)
    case ComputeDeadline => Some(Lock)
    case Lock => if owner == Free then Some(Wait) else None
    case Wait => Some(Blocked)
    case Blocked => None
    case Waking(timedOut) => if owner == Free then Some(Woken(timedOut)) else None
    case Woken(timedOut) => Some(if timedOut && keepRunning then Alerting(0) else Unlock)
    case Alerting(next) => Some(if next < listeners then Alerting(next + 1) else Unlock)
    case Unlock => Some(TestRunning)
    case Exited => None
  }

  predicate DogTakes(at: DogAt) { at == TimeoutLock || at == Lock || at.Waking? }

  /** The second test in reading the timeout decides whether the mutex is given up. */
  predicate DogGives(at: DogAt, keepRunning: bool) {
    at == Wait || at == Unlock || (at == TimeoutTestAgain && keepRunning)
  }

  function OwnerAfter(taken: Owner, takes: bool, gives: bool, owner: Owner): Owner {
    if takes then taken else if gives then Free else owner
  }

  /** A step of the thread. */
  function DogStep(s: State): Option<State> {
    match DogGoes(s.dog, s.keepRunning, s.owner, s.listeners)
    case None => None
    case Some(to) =>
      var clocks, computes := s.dog == ReadClock, s.dog == ComputeDeadline;
      var (sec, nsec) := Deadline(s.clockUs, if s.ms < 0 then 0 else s.ms);
      Some(s.(
           dog := to,
           owner := OwnerAfter(Dog, DogTakes(s.dog), DogGives(s.dog, s.keepRunning), s.owner),
           clockUs := if clocks then s.time / 1000 else s.clockUs,
           readAt := if clocks then s.time else s.readAt,
           ms := if s.dog == TimeoutRead then s.timeoutMs else s.ms,
           sec := if computes then sec else s.sec,
           nsec := if computes then nsec else s.nsec,
           signalled := s.signalled && s.dog != Wait))
  }

  /** Where a client goes next in its call. */
  function ClientGoes(at: ClientAt, keepRunning: bool, owner: Owner, exited: bool): Option<ClientAt> {
    match at
    case Idle => None
    case KickTest => Some(if keepRunning then KickLock else Idle)
    case KickLock => if owner == Free then Some(KickSignal) else None
    case KickSignal => Some(KickUnlock)
    case KickUnlock => Some(Idle)
    case SetTest(ms) => Some(if keepRunning then SetLock(ms) else SetStore(ms))
    case SetLock(ms) => if owner == Free then Some(SetStore(ms)) else None
    case SetStore(_) => Some(SetTestAgain)
    case SetTestAgain => Some(Idle)
    case GetTest => Some(if keepRunning then GetLock else GetRead)
    case GetLock => if owner == Free then Some(GetRead) else None
    case GetRead => Some(GetTestAgain)
    case GetTestAgain => Some(Idle)
    case StopTest => Some(if keepRunning then StopLock else Idle)
    case StopLock => if owner == Free then Some(StopClear) else None
    case StopClear => Some(StopSignal)
    case StopSignal => Some(StopUnlock)
    case StopUnlock => Some(StopJoin)
    case StopJoin => if exited then Some(Idle) else None
  }

  predicate ClientTakes(at: ClientAt) { at == KickLock || at.SetLock? || at == GetLock || at == StopLock }

  predicate ClientGives(at: ClientAt, keepRunning: bool) {
    at == KickUnlock || at == StopUnlock || ((at == SetTestAgain || at == GetTestAgain) && keepRunning)
  }

  predicate Signals(at: ClientAt) { at == KickSignal || at == StopSignal }

  /** A step of a client.  A signal wakes the thread if it is waiting and is lost otherwise. */
  function ClientStep(s: State, id: nat): Option<State> {
    var at := s.At(id);
    match ClientGoes(at, s.keepRunning, s.owner, s.dog == Exited)
    case None => None
    case Some(to) =>
      var wakes := Signals(at) && s.dog == Blocked;
      Some(s.(
           clients := s.clients[id := to],
           owner := OwnerAfter(Client(id), ClientTakes(at), ClientGives(at, s.keepRunning), s.owner),
           keepRunning := s.keepRunning && at != StopClear,
           timeoutMs := if at.SetStore? then at.ms else s.timeoutMs,
           dog := if wakes then Waking(false) else s.dog,
           signalled := s.signalled || wakes,
           heeded := if Signals(at) && Heeds(s.dog) then Some(s.time) else s.heeded,
           stopReleased := s.stopReleased || at == StopUnlock))
  }

  datatype Action =
    | Dogs
    | TimesOut
    | WakesSpuriously
    | Kicks(id: nat)
    | Sets(id: nat, ms: int)
    | Gets(id: nat)
    | Stops(id: nat)
    | Clients(id: nat)
    | TimePasses(nanos: nat)

  /** The state after an action, nothing if it is not possible.  There is one call of `Stop`. */
  function Next(s: State, a: Action): Option<State> {
    match a
    case Dogs => DogStep(s)
    case TimesOut =>
      if s.dog == Blocked && s.time >= s.sec * SECOND + s.nsec then Some(s.(dog := Waking(true))) else None
    case WakesSpuriously => if s.dog == Blocked then Some(s.(dog := Waking(false))) else None
    case Kicks(id) => if s.At(id) == Idle then Some(s.Move(id, KickTest)) else None
    case Sets(id, ms) => if s.At(id) == Idle && ms > 0 then Some(s.Move(id, SetTest(ms))) else None
    case Gets(id) => if s.At(id) == Idle then Some(s.Move(id, GetTest)) else None
    case Stops(id) =>
      if s.At(id) == Idle && !s.stopCalled then Some(s.(stopCalled := true).Move(id, StopTest)) else None
    case Clients(id) => ClientStep(s, id)
    case TimePasses(nanos) => Some(s.(time := s.time + nanos))
  }

  function Run(s: State, actions: seq<Action>): Option<State>
    decreases |actions|
  {
    if actions == [] then Some(s)
    else match Next(s, actions[0]) case None => None case Some(t) => Run(t, actions[1..])
  }

  predicate StartsCallback(s: State, a: Action) {
    a == Dogs && s.dog.Alerting? && s.dog.next < s.listeners
  }

  // ---------- What every state keeps ----------

  /** The thread holds the mutex where its code has locked it, or where it has left it locked
      because the watchdog was stopped in between. */
  predicate DogHolds(at: DogAt, owner: Owner, keepRunning: bool) {
    match at
    case Wait => owner == Dog
    case Woken(_) => owner == Dog
    case Alerting(_) => owner == Dog && keepRunning
    case Unlock => owner == Dog
    case TimeoutRead => keepRunning ==> owner == Dog
    case TimeoutTestAgain => keepRunning ==> owner == Dog
    case ComputeDeadline => owner == Dog ==> !keepRunning
    case Lock => owner == Dog ==> !keepRunning
    case _ => owner != Dog
  }

  /** The same for a client. */
  predicate ClientHolds(at: ClientAt, holds: bool, keepRunning: bool) {
    match at
    case KickSignal => holds
    case KickUnlock => holds
    case SetStore(_) => keepRunning ==> holds
    case SetTestAgain => keepRunning ==> holds
    case GetRead => keepRunning ==> holds
    case GetTestAgain => keepRunning ==> holds
    case StopClear => holds
    case StopSignal => holds && !keepRunning
    case StopUnlock => holds && !keepRunning
    case _ => holds ==> !keepRunning
  }

  predicate PositiveMs(at: ClientAt) { at.SetTest? || at.SetLock? || at.SetStore? ==> at.ms > 0 }

  predicate ClientGood(s: State, id: nat) {
    ClientHolds(s.At(id), s.owner == Client(id), s.keepRunning) && PositiveMs(s.At(id))
  }

  ghost predicate ClientsGood(s: State) { forall id: nat :: ClientGood(s, id) }

  /** The clock was read before, and no signal that puts off the timeout came since. */
  predicate ClockRead(s: State) {
    && (s.heeded.Some? ==> s.heeded.value <= s.time)
    && (HasClock(s.dog) ==> s.readAt <= s.time && s.clockUs == s.readAt / 1000)
    && (HasClock(s.dog) && !WokenEarly(s.dog) && s.heeded.Some? ==> s.heeded.value <= s.readAt)
  }

  /** The deadline is the reading plus a positive timeout. */
  predicate DeadlineSet(s: State) {
    && s.timeoutMs > 0
    && (HasTimeout(s.dog) ==> s.ms > 0)
    && (HasDeadline(s.dog) ==> s.nsec < SECOND && s.sec * SECOND + s.nsec == s.clockUs * 1000 + s.ms * 1_000_000)
  }

  /** A wait that has timed out went on to the deadline and had no signal. */
  predicate WaitedOut(s: State) {
    && (s.dog == Blocked || TimedOut(s.dog) ==> !s.signalled)
    && (TimedOut(s.dog) ==> s.time >= s.sec * SECOND + s.nsec)
  }

  predicate Timed(s: State) { ClockRead(s) && DeadlineSet(s) && WaitedOut(s) }

  ghost predicate Inv(s: State) {
    && DogHolds(s.dog, s.owner, s.keepRunning) && ClientsGood(s) && Timed(s)
    && (s.stopReleased ==> !s.keepRunning)
  }

  lemma StartedInv(time: nat, timeoutMs: int, listeners: nat)
    requires timeoutMs > 0
    ensures Inv(Started(time, timeoutMs, listeners))
  {}

  /** The thread only takes a free mutex and only gives up its own. */
  lemma DogStepOwner(at: DogAt, keepRunning: bool, owner: Owner, listeners: nat)
    requires DogHolds(at, owner, keepRunning) && DogGoes(at, keepRunning, owner, listeners).Some?
    ensures var after := OwnerAfter(Dog, DogTakes(at), DogGives(at, keepRunning), owner);
            && DogHolds(DogGoes(at, keepRunning, owner, listeners).value, after, keepRunning)
            && (after == owner || (owner == Free && after == Dog) || (owner == Dog && after == Free))
  {}

  lemma DogStepClock(s: State, t: State)
    requires ClockRead(s) && DogStep(s) == Some(t)
    ensures ClockRead(t)
  {
    hide Deadline, OwnerAfter;
  }

  lemma DogStepDeadline(s: State, t: State)
    requires DeadlineSet(s) && DogStep(s) == Some(t)
    ensures DeadlineSet(t)
  {
    hide Deadline, OwnerAfter;
  }

  lemma DogStepWaited(s: State, t: State)
    requires WaitedOut(s) && DogStep(s) == Some(t)
    ensures WaitedOut(t)
  {
    hide Deadline, OwnerAfter;
  }

  /** A client is not concerned by a step that leaves it and the mutex it holds alone. */
  lemma OthersGood(s: State, t: State)
    requires ClientsGood(s) && t.clients == s.clients && t.keepRunning == s.keepRunning
    requires forall id: nat :: (t.owner == Client(id)) == (s.owner == Client(id))
    ensures ClientsGood(t)
  {
    hide ClientHolds;
    forall id: nat ensures ClientGood(t, id) {
      assert ClientGood(s, id);
    }
  }

  lemma DogStepInv(s: State, t: State)
    requires Inv(s) && DogStep(s) == Some(t)
    ensures Inv(t)
  {
    DogStepOwner(s.dog, s.keepRunning, s.owner, s.listeners);
    hide DogGoes, DogHolds, OwnerAfter, ClockRead, DeadlineSet, WaitedOut, ClientsGood, Deadline;
    DogStepClock(s, t);
    DogStepDeadline(s, t);
    DogStepWaited(s, t);
    OthersGood(s, t);
  }

  /** A client gives up only its own mutex, and clears the flag only while it holds it. */
  lemma ClientStepOwner(at: ClientAt, id: nat, keepRunning: bool, owner: Owner, exited: bool)
    requires ClientHolds(at, owner == Client(id), keepRunning) && ClientGoes(at, keepRunning, owner, exited).Some?
    ensures var after := OwnerAfter(Client(id), ClientTakes(at), ClientGives(at, keepRunning), owner);
            && ClientHolds(ClientGoes(at, keepRunning, owner, exited).value, after == Client(id),
                           keepRunning && at != StopClear)
            && (after == owner || (owner == Free && after == Client(id)) || (owner == Client(id) && after == Free))
    ensures at == StopClear ==> owner == Client(id)
    ensures at == StopUnlock ==> !keepRunning
    ensures PositiveMs(at) ==> PositiveMs(ClientGoes(at, keepRunning, owner, exited).value)
  {}

  lemma ClientStepClock(s: State, id: nat, t: State)
    requires ClockRead(s) && ClientStep(s, id) == Some(t)
    ensures ClockRead(t)
  {
    hide ClientGoes, OwnerAfter;
  }

  lemma ClientStepDeadline(s: State, id: nat, t: State)
    requires DeadlineSet(s) && PositiveMs(s.At(id)) && ClientStep(s, id) == Some(t)
    ensures DeadlineSet(t)
  {
    hide ClientGoes, OwnerAfter;
  }

  lemma ClientStepWaited(s: State, id: nat, t: State)
    requires WaitedOut(s) && ClientStep(s, id) == Some(t)
    ensures WaitedOut(t)
  {
    hide ClientGoes, OwnerAfter;
  }

  /** Losing the flag or the wait to a client that holds the mutex keeps what the thread holds. */
  lemma DogHoldsAfter(at: DogAt, owner: Owner, keepRunning: bool, after: Owner, still: bool)
    requires DogHolds(at, owner, keepRunning) && (still ==> keepRunning)
    requires (after == Dog) == (owner == Dog)
    requires keepRunning && !still ==> owner != Dog
    ensures DogHolds(at, after, still)
    ensures at == Blocked ==> DogHolds(Waking(false), after, still)
  {}

  lemma ClientHoldsAfter(at: ClientAt, holds: bool, keepRunning: bool, still: bool)
    requires ClientHolds(at, holds, keepRunning) && (still ==> keepRunning)
    requires keepRunning && !still ==> !holds
    ensures ClientHolds(at, holds, still)
  {}

  lemma ClientStepInv(s: State, id: nat, t: State)
    requires Inv(s) && ClientStep(s, id) == Some(t)
    ensures Inv(t)
  {
    hide ClientGoes, DogHolds, ClientHolds, OwnerAfter, ClockRead, DeadlineSet, WaitedOut, PositiveMs;
    assert ClientGood(s, id);
    ClientStepOwner(s.At(id), id, s.keepRunning, s.owner, s.dog == Exited);
    ClientStepClock(s, id, t);
    ClientStepDeadline(s, id, t);
    ClientStepWaited(s, id, t);
    DogHoldsAfter(s.dog, s.owner, s.keepRunning, t.owner, t.keepRunning);
    forall other: nat ensures ClientGood(t, other) {
      assert ClientGood(s, other);
      if other != id {
        ClientHoldsAfter(s.At(other), s.owner == Client(other), s.keepRunning, t.keepRunning);
      }
    }
  }

  lemma CallInv(s: State, id: nat, to: ClientAt, t: State)
    requires Inv(s) && s.At(id) == Idle && t == s.Move(id, to).(stopCalled := t.stopCalled)
    requires to == KickTest || to == GetTest || to == StopTest || (to.SetTest? && to.ms > 0)
    ensures Inv(t)
  {
    TimedFrame(s, t);
    hide Timed, DogHolds;
    forall other: nat ensures ClientGood(t, other) {
      assert ClientGood(s, other);
    }
  }

  lemma TimedFrame(s: State, t: State)
    requires Timed(s) && t == s.(clients := t.clients, stopCalled := t.stopCalled)
    ensures Timed(t)
  {}

  lemma WaitInv(s: State, a: Action, t: State)
    requires a == TimesOut || a == WakesSpuriously || a.TimePasses?
    requires Inv(s) && Next(s, a) == Some(t)
    ensures Inv(t)
  {
    OthersGood(s, t);
    hide ClientsGood, DogStep, ClientStep;
  }

  lemma NextInv(s: State, a: Action, t: State)
    requires Inv(s) && Next(s, a) == Some(t)
    ensures Inv(t)
  {
    hide Inv, DogStep, ClientStep;
    match a
    case Dogs => DogStepInv(s, t);
    case Clients(id) => ClientStepInv(s, id, t);
    case Kicks(id) => CallInv(s, id, KickTest, t);
    case Sets(id, ms) => CallInv(s, id, SetTest(ms), t);
    case Gets(id) => CallInv(s, id, GetTest, t);
    case Stops(id) => CallInv(s, id, StopTest, t);
    case _ => WaitInv(s, a, t);
  }

  lemma {:induction false} RunInv(s: State, actions: seq<Action>)
    requires Inv(s) && Run(s, actions).Some?
    ensures Inv(Run(s, actions).value)
    decreases |actions|
  {
    hide Next, Inv;
    if actions != [] {
      NextInv(s, actions[0], Next(s, actions[0]).value);
      RunInv(Next(s, actions[0]).value, actions[1..]);
    }
  }

  // ---------- Callbacks ----------

  ghost predicate Reaches(s: State, t: State) { exists actions :: Run(s, actions) == Some(t) }

  lemma ReachesInv(start: State, s: State)
    requires Inv(start) && Reaches(start, s)
    ensures Inv(s)
  {
    var actions :| Run(start, actions) == Some(s);
    RunInv(start, actions);
  }

  /** A callback only starts while the thread holds the mutex and the watchdog runs, after a wait
      without a delivered signal up to the deadline, which is the clock reading, in whole
      microseconds, plus the timeout.  Since the last signal that the thread heeds the timeout has
      passed, up to the resolution of the clock. */
  lemma CallbackStarts(time: nat, timeoutMs: int, listeners: nat, s: State, a: Action)
    requires timeoutMs > 0 && Reaches(Started(time, timeoutMs, listeners), s) && StartsCallback(s, a)
    ensures s.owner == Dog && s.keepRunning && !s.stopReleased
    ensures !s.signalled && s.ms > 0
    ensures s.nsec < SECOND && s.sec * SECOND + s.nsec == s.readAt / 1000 * 1000 + s.ms * 1_000_000
    ensures s.time >= s.sec * SECOND + s.nsec
    ensures s.heeded.Some? ==> s.time + 999 >= s.heeded.value + s.ms * 1_000_000
  {
    StartedInv(time, timeoutMs, listeners);
    ReachesInv(Started(time, timeoutMs, listeners), s);
  }

  lemma NextKeepsReleased(s: State, a: Action, t: State)
    requires s.stopReleased && Next(s, a) == Some(t)
    ensures t.stopReleased
  {
    hide DogGoes, ClientGoes, OwnerAfter, Deadline;
  }

  lemma {:induction false} RunKeepsReleased(s: State, actions: seq<Action>)
    requires s.stopReleased && Run(s, actions).Some?
    ensures Run(s, actions).value.stopReleased
    decreases |actions|
  {
    hide Next;
    if actions != [] {
      NextKeepsReleased(s, actions[0], Next(s, actions[0]).value);
      RunKeepsReleased(Next(s, actions[0]).value, actions[1..]);
    }
  }

  /** After `Stop` has released the mutex no callback starts. */
  lemma NoCallbackAfterStop(time: nat, timeoutMs: int, listeners: nat, s: State, t: State, a: Action)
    requires timeoutMs > 0 && Reaches(Started(time, timeoutMs, listeners), s) && s.stopReleased && Reaches(s, t)
    ensures !StartsCallback(t, a)
  {
    var more :| Run(s, more) == Some(t);
    StartedInv(time, timeoutMs, listeners);
    ReachesInv(Started(time, timeoutMs, listeners), s);
    RunInv(s, more);
    RunKeepsReleased(s, more);
  }

  // ---------- What is not promised ----------

  lemma {:induction false} RunLast(s: State, actions: seq<Action>, a: Action)
    ensures Run(s, actions + [a]) ==
            match Run(s, actions) case None => None case Some(t) => Next(t, a)
    decreases |actions|
  {
    hide Next;
    if actions == [] {
      assert actions + [a] == [a] && [a][1..] == [];
    } else {
      assert (actions + [a])[1..] == actions[1..] + [a];
      if Next(s, actions[0]).Some? {
        RunLast(Next(s, actions[0]).value, actions[1..], a);
      }
    }
  }

  lemma Reach(s: State, t: State, a: Action) returns (u: State)
    requires Reaches(s, t) && Next(t, a).Some?
    ensures Reaches(s, u) && Some(u) == Next(t, a)
  {
    hide Next;
    var actions :| Run(s, actions) == Some(t);
    RunLast(s, actions, a);
    u := Next(t, a).value;
  }

  lemma ReachesItself(s: State)
    ensures Reaches(s, s)
  {
    assert Run(s, []) == Some(s);
  }

  lemma DogActs(start: State, s: State) returns (t: State)
    requires Reaches(start, s) && DogGoes(s.dog, s.keepRunning, s.owner, s.listeners).Some?
    ensures Reaches(start, t) && Some(t) == DogStep(s)
  {
    hide DogGoes, Deadline;
    t := Reach(start, s, Dogs);
  }

  lemma ClientActs(start: State, s: State, id: nat) returns (t: State)
    requires Reaches(start, s) && ClientGoes(s.At(id), s.keepRunning, s.owner, s.dog == Exited).Some?
    ensures Reaches(start, t) && Some(t) == ClientStep(s, id)
  {
    hide ClientGoes;
    t := Reach(start, s, Clients(id));
  }

  lemma KickTakes(start: State, s: State, id: nat) returns (t: State)
    requires Reaches(start, s) && s.At(id) == Idle && s.keepRunning && s.owner == Free
    ensures Reaches(start, t) && t.At(id) == KickSignal && t == s.(owner := Client(id), clients := t.clients)
  {
    hide Reaches;
    t := Reach(start, s, Kicks(id));
    t := ClientActs(start, t, id);
    t := ClientActs(start, t, id);
  }

  lemma KickReturns(start: State, s: State, id: nat) returns (t: State)
    requires Reaches(start, s) && s.At(id) == KickUnlock
    ensures Reaches(start, t) && t == s.(owner := Free, clients := t.clients)
  {
    hide Reaches;
    t := ClientActs(start, s, id);
  }

  /** Up to the point where the clock and the timeout have been read. */
  lemma DogReads(start: State, s: State) returns (t: State)
    requires Reaches(start, s) && s.dog == TestRunning && s.keepRunning && s.owner == Free
    ensures Reaches(start, t)
    ensures t == s.(dog := ComputeDeadline, clockUs := s.time / 1000, readAt := s.time, ms := s.timeoutMs)
  {
    hide Reaches, Deadline;
    t := DogActs(start, s);
    t := DogActs(start, t);
    t := DogActs(start, t);
    t := DogActs(start, t);
    t := DogActs(start, t);
    t := DogActs(start, t);
  }

  lemma DogBlocks(start: State, s: State) returns (t: State)
    requires Reaches(start, s) && s.dog == ComputeDeadline && s.owner == Free && s.ms > 0
    ensures Reaches(start, t)
    ensures t == s.(dog := Blocked, sec := t.sec, nsec := t.nsec, signalled := false)
    ensures t.sec * SECOND + t.nsec == s.clockUs * 1000 + s.ms * 1_000_000
  {
    hide Reaches, Deadline;
    t := DogActs(start, s);
    t := DogActs(start, t);
    t := DogActs(start, t);
  }

  lemma DogAlerts(start: State, s: State) returns (t: State)
    requires Reaches(start, s) && s.dog == Blocked && s.owner == Free && s.keepRunning
    requires s.time >= s.sec * SECOND + s.nsec
    ensures Reaches(start, t) && t == s.(dog := Alerting(0), owner := Dog)
  {
    hide Reaches, Deadline;
    t := Reach(start, s, TimesOut);
    t := DogActs(start, t);
    t := DogActs(start, t);
  }

  /** From reading the timeout to the deadline, when nobody else holds the mutex. */
  lemma DogComputes(start: State, s: State) returns (t: State)
    requires Reaches(start, s) && s.keepRunning && s.owner == Free && s.timeoutMs > 0
    requires s.dog == TimeoutTest || s.dog == TimeoutLock || (s.dog == ComputeDeadline && s.ms > 0)
    ensures Reaches(start, t) && t.ms > 0 && t == s.(dog := ComputeDeadline, ms := t.ms)
  {
    hide Reaches, Deadline;
    t := s;
    if t.dog == TimeoutTest {
      t := DogActs(start, t);
    }
    if t.dog == TimeoutLock {
      t := DogActs(start, t);
      t := DogActs(start, t);
      t := DogActs(start, t);
    }
  }

  lemma DogWaits(start: State, s: State) returns (t: State)
    requires Reaches(start, s) && Timed(s) && s.keepRunning && s.owner == Free && HasClock(s.dog) && !Heeds(s.dog)
    requires !s.dog.Waking? && DogHolds(s.dog, s.owner, s.keepRunning)
    ensures Reaches(start, t) && t.ms > 0
    ensures t == s.(dog := Blocked, ms := t.ms, sec := t.sec, nsec := t.nsec, signalled := false)
    ensures t.sec * SECOND + t.nsec == s.clockUs * 1000 + t.ms * 1_000_000
  {
    hide Reaches, Deadline;
    if s.dog == Lock {
      t := DogActs(start, s);
      t := DogActs(start, t);
    } else {
      t := DogComputes(start, s);
      t := DogBlocks(start, t);
    }
  }

  /** The callback starts as soon as the deadline has passed. */
  lemma AlertsAtDeadline(start: State, s: State) returns (t: State)
    requires Reaches(start, s) && s.dog == Blocked && s.owner == Free && s.keepRunning
    ensures Reaches(start, t) && t == s.(dog := Alerting(0), owner := Dog, time := t.time)
    ensures var deadline := s.sec * SECOND + s.nsec;
            t.time == if s.time < deadline then deadline else s.time
  {
    hide Reaches;
    var deadline := s.sec * SECOND + s.nsec;
    t := Reach(start, s, TimePasses(if s.time < deadline then deadline - s.time else 0));
    t := DogAlerts(start, t);
  }

  lemma AlertsNow(start: State, s: State) returns (t: State)
    requires Reaches(start, s) && s.dog == Waking(true) && s.owner == Free && s.keepRunning
    ensures Reaches(start, t) && t == s.(dog := Alerting(0), owner := Dog)
  {
    hide Reaches, Deadline;
    t := DogActs(start, s);
    t := DogActs(start, t);
  }

  // ---------- All callbacks, and the timeout that was set ----------

  /** From the first callback of a timeout on, a run leads to each further one and to the end. */
  lemma {:induction false} CallsAll(start: State, s: State, k: nat)
    requires Reaches(start, s) && s.dog == Alerting(0) && k <= s.listeners
    ensures Reaches(start, s.(dog := Alerting(k)))
  {
    hide Reaches, Deadline;
    if k > 0 {
      CallsAll(start, s, k - 1);
      var t := DogActs(start, s.(dog := Alerting(k - 1)));
    }
  }

  /** The numbers of the callbacks that start in a run. */
  function Calls(s: State, actions: seq<Action>): seq<nat>
    decreases |actions|
  {
    if actions == [] then []
    else
      match Next(s, actions[0])
      case None => []
      case Some(t) => (if StartsCallback(s, actions[0]) then [s.dog.next] else []) + Calls(t, actions[1..])
  }

  /** The callback that is due when the last one was this or none has started yet. */
  function Due(calls: seq<nat>, listeners: nat): nat {
    if calls == [] || calls[|calls| - 1] + 1 == listeners then 0 else calls[|calls| - 1] + 1
  }

  /** All callbacks are called in turn. */
  ghost predicate InTurn(calls: seq<nat>, listeners: nat) {
    forall i :: 0 <= i < |calls| ==> calls[i] == Due(calls[..i], listeners)
  }

  /** Where the thread is after these calls: only while it alerts is a round unfinished. */
  predicate Called(d: DogAt, due: nat, listeners: nat) {
    if d.Alerting? then d.next <= listeners && due == (if d.next == listeners then 0 else d.next) else due == 0
  }

  lemma NextCalls(s: State, a: Action, t: State, due: nat)
    requires Called(s.dog, due, s.listeners) && Next(s, a) == Some(t)
    ensures t.listeners == s.listeners
    ensures StartsCallback(s, a) ==> s.dog.next == due
    ensures Called(t.dog, if !StartsCallback(s, a) then due else if due + 1 == s.listeners then 0 else due + 1,
                   s.listeners)
  {
    if a == Dogs {
      hide OwnerAfter, Deadline, ClientStep;
    } else {
      hide OwnerAfter, DogStep, ClientGoes;
    }
  }

  lemma InTurnLast(calls: seq<nat>, next: nat, listeners: nat)
    requires InTurn(calls, listeners) && next == Due(calls, listeners)
    ensures InTurn(calls + [next], listeners)
    ensures Due(calls + [next], listeners) == if next + 1 == listeners then 0 else next + 1
  {
    hide Due;
    var all := calls + [next];
    forall i | 0 <= i < |all| ensures all[i] == Due(all[..i], listeners) {
      if i < |calls| {
        assert all[..i] == calls[..i] && calls[i] == Due(calls[..i], listeners);
      } else {
        assert all[..i] == calls;
      }
    }
    DueAfter(calls, next, listeners);
  }

  lemma DueAfter(calls: seq<nat>, next: nat, listeners: nat)
    ensures Due(calls + [next], listeners) == if next + 1 == listeners then 0 else next + 1
  {}

  lemma {:induction false} RunCalls(s: State, actions: seq<Action>, before: seq<nat>)
    requires InTurn(before, s.listeners) && Called(s.dog, Due(before, s.listeners), s.listeners)
    requires Run(s, actions).Some?
    ensures var calls, t := before + Calls(s, actions), Run(s, actions).value;
            t.listeners == s.listeners && InTurn(calls, s.listeners) &&
            Called(t.dog, Due(calls, s.listeners), s.listeners)
    decreases |actions|
  {
    hide Next, InTurn, Due, Called;
    if actions == [] {
      assert before + [] == before;
    } else {
      var t := Next(s, actions[0]).value;
      NextCalls(s, actions[0], t, Due(before, s.listeners));
      if StartsCallback(s, actions[0]) {
        InTurnLast(before, s.dog.next, s.listeners);
        RunCalls(t, actions[1..], before + [s.dog.next]);
        assert (before + [s.dog.next]) + Calls(t, actions[1..]) == before + ([s.dog.next] + Calls(t, actions[1..]));
      } else {
        RunCalls(t, actions[1..], before);
        assert [] + Calls(t, actions[1..]) == Calls(t, actions[1..]);
      }
    }
  }

  /** In every run each timeout calls the callbacks one after the other, and all of them before
      the thread goes on. */
  lemma CallbacksInTurn(time: nat, timeoutMs: int, listeners: nat, actions: seq<Action>, i: nat)
    requires Run(Started(time, timeoutMs, listeners), actions).Some?
    ensures var start := Started(time, timeoutMs, listeners);
            var calls, d := Calls(start, actions), Run(start, actions).value.dog;
            && (i < |calls| ==>
                  calls[i] == if i == 0 || calls[i - 1] + 1 == listeners then 0 else calls[i - 1] + 1)
            && (if d.Alerting? && 0 < d.next < listeners then calls != [] && calls[|calls| - 1] + 1 == d.next
                else calls == [] || calls[|calls| - 1] + 1 == listeners)
  {
    hide Run, Calls, Called, InTurn, Started;
    var start := Started(time, timeoutMs, listeners);
    NothingCalled(time, timeoutMs, listeners);
    RunCalls(start, actions, []);
    var calls := Calls(start, actions);
    assert [] + calls == calls;
    TurnMeans(Run(start, actions).value.dog, calls, listeners, i);
  }

  lemma NothingCalled(time: nat, timeoutMs: int, listeners: nat)
    ensures var start := Started(time, timeoutMs, listeners);
            InTurn([], listeners) && Called(start.dog, Due([], listeners), listeners) && start.listeners == listeners
  {}

  lemma TurnMeans(d: DogAt, calls: seq<nat>, listeners: nat, i: nat)
    requires InTurn(calls, listeners) && Called(d, Due(calls, listeners), listeners)
    ensures i < |calls| ==>
              calls[i] == if i == 0 || calls[i - 1] + 1 == listeners then 0 else calls[i - 1] + 1
    ensures if d.Alerting? && 0 < d.next < listeners then calls != [] && calls[|calls| - 1] + 1 == d.next
            else calls == [] || calls[|calls| - 1] + 1 == listeners
  {
    if i < |calls| {
      assert calls[i] == Due(calls[..i], listeners);
    }
  }

  /** What a run does to the timeouts: the one that each client last asked for, the one that was
      last stored, and the one that the thread last read. */
  datatype Timeouts = Timeouts(asked: map<nat, int>, stored: int, read: int)

  /** Only the actions and where they find the clients and the thread count. */
  function TimeoutsAfter(s: State, a: Action, o: Timeouts): Timeouts {
    match a
    case Sets(id, ms) => o.(asked := o.asked[id := ms])
    case Clients(id) => if s.At(id).SetStore? && id in o.asked then o.(stored := o.asked[id]) else o
    case Dogs => if s.dog == TimeoutRead then o.(read := o.stored) else o
    case _ => o
  }

  function TimeoutsOf(s: State, actions: seq<Action>, o: Timeouts): Timeouts
    decreases |actions|
  {
    if actions == [] then o
    else
      match Next(s, actions[0])
      case None => o
      case Some(t) => TimeoutsOf(t, actions[1..], TimeoutsAfter(s, actions[0], o))
  }

  predicate IsSetting(at: ClientAt) { at.SetTest? || at.SetLock? || at.SetStore? }

  predicate AskedFits(at: ClientAt, id: nat, asked: map<nat, int>) {
    IsSetting(at) ==> id in asked && asked[id] == at.ms
  }

  ghost predicate TimeoutsFit(s: State, o: Timeouts) {
    && s.timeoutMs == o.stored && s.ms == o.read
    && forall id: nat :: AskedFits(s.At(id), id, o.asked)
  }

  lemma DogTimeouts(s: State, t: State, o: Timeouts)
    requires TimeoutsFit(s, o) && DogStep(s) == Some(t)
    ensures TimeoutsFit(t, TimeoutsAfter(s, Dogs, o))
  {
    hide OwnerAfter, Deadline, IsSetting, DogGoes;
    assert forall id: nat :: AskedFits(s.At(id), id, o.asked) ==> AskedFits(t.At(id), id, o.asked);
  }

  lemma ClientTimeouts(s: State, id: nat, t: State, o: Timeouts)
    requires TimeoutsFit(s, o) && ClientStep(s, id) == Some(t)
    ensures TimeoutsFit(t, TimeoutsAfter(s, Clients(id), o))
  {
    hide OwnerAfter;
    assert AskedFits(s.At(id), id, o.asked);
    forall other: nat ensures AskedFits(t.At(other), other, o.asked) {
      assert AskedFits(s.At(other), other, o.asked);
      hide IsSetting;
    }
  }

  lemma CallTimeouts(s: State, a: Action, t: State, o: Timeouts)
    requires !a.Dogs? && !a.Clients?
    requires TimeoutsFit(s, o) && Next(s, a) == Some(t)
    ensures TimeoutsFit(t, TimeoutsAfter(s, a, o))
  {
    hide DogStep, ClientStep;
    var asked := TimeoutsAfter(s, a, o).asked;
    forall id: nat ensures AskedFits(t.At(id), id, asked) {
      assert AskedFits(s.At(id), id, o.asked);
    }
  }

  lemma NextTimeouts(s: State, a: Action, t: State, o: Timeouts)
    requires TimeoutsFit(s, o) && Next(s, a) == Some(t)
    ensures TimeoutsFit(t, TimeoutsAfter(s, a, o))
  {
    hide DogStep, ClientStep, TimeoutsFit;
    match a
    case Dogs => DogTimeouts(s, t, o);
    case Clients(id) => ClientTimeouts(s, id, t, o);
    case _ => CallTimeouts(s, a, t, o);
  }

  lemma {:induction false} RunTimeouts(s: State, actions: seq<Action>, o: Timeouts)
    requires TimeoutsFit(s, o) && Run(s, actions).Some?
    ensures TimeoutsFit(Run(s, actions).value, TimeoutsOf(s, actions, o))
    decreases |actions|
  {
    hide Next, TimeoutsFit, TimeoutsAfter;
    if actions != [] {
      NextTimeouts(s, actions[0], Next(s, actions[0]).value, o);
      RunTimeouts(Next(s, actions[0]).value, actions[1..], TimeoutsAfter(s, actions[0], o));
    }
  }

  /** In every run the timeout is the one of the last call of `SetTimeoutMillis` that has stored
      it, or that of the start, and a wait uses the one that was stored when the thread read it. */
  lemma WaitUsesLastStored(time: nat, timeoutMs: int, listeners: nat, actions: seq<Action>)
    requires Run(Started(time, timeoutMs, listeners), actions).Some?
    ensures var start := Started(time, timeoutMs, listeners);
            var o, s := TimeoutsOf(start, actions, Timeouts(map[], timeoutMs, 0)), Run(start, actions).value;
            s.timeoutMs == o.stored && s.ms == o.read
  {
    hide Run, TimeoutsOf;
    RunTimeouts(Started(time, timeoutMs, listeners), actions, Timeouts(map[], timeoutMs, 0));
  }

  lemma SetCalled(start: State, s: State, id: nat, ms: int) returns (t: State)
    requires Reaches(start, s) && s.At(id) == Idle && ms > 0
    ensures Reaches(start, t) && t == s.(clients := t.clients)
    ensures t.At(id) == if s.keepRunning then SetLock(ms) else SetStore(ms)
  {
    hide Reaches;
    t := Reach(start, s, Sets(id, ms));
    t := ClientActs(start, t, id);
  }

  lemma SetComes(start: State, s: State, id: nat, ms: int) returns (t: State)
    requires Reaches(start, s) && s.At(id) == Idle && s.owner == Free && ms > 0
    ensures Reaches(start, t) && t.At(id) == SetStore(ms)
    ensures t == s.(owner := if s.keepRunning then Client(id) else Free, clients := t.clients)
  {
    hide Reaches;
    t := SetCalled(start, s, id, ms);
    if s.keepRunning {
      t := ClientActs(start, t, id);
    }
  }

  /** A call of `SetTimeoutMillis` that nobody disturbs sets the timeout. */
  lemma SetTakesEffect(start: State, s: State, id: nat, ms: int) returns (t: State)
    requires Reaches(start, s) && s.At(id) == Idle && s.owner == Free && ms > 0
    ensures Reaches(start, t) && t == s.(timeoutMs := ms, clients := t.clients) && t.At(id) == Idle
  {
    hide Reaches;
    t := SetComes(start, s, id, ms);
    t := ClientActs(start, t, id);
    t := ClientActs(start, t, id);
  }

  /** A kick that the thread does not heed does not put off the timeout: in some continuation a
      callback starts at the old deadline, or at once if that has passed. */
  lemma UnheededKickFails(s: State, id: nat, signalled: State) returns (t: State)
    requires Inv(s) && s.keepRunning && s.listeners > 0
    requires s.At(id) == KickSignal && !Heeds(s.dog) && ClientStep(s, id) == Some(signalled)
    ensures Reaches(signalled, t) && StartsCallback(t, Dogs) && t.ms > 0
    ensures var deadline := s.clockUs * 1000 + t.ms * 1_000_000;
            t.time == if s.time < deadline then deadline else s.time
  {
    assert ClientGood(s, id);
    assert signalled == s.(clients := signalled.clients) && signalled.At(id) == KickUnlock;
    hide Reaches, Deadline, ClientStep, Inv, ClientsGood;
    ReachesItself(signalled);
    t := KickReturns(signalled, signalled, id);
    if s.dog == Waking(true) {
      t := AlertsNow(signalled, t);
    } else {
      t := DogWaits(signalled, t);
      t := AlertsAtDeadline(signalled, t);
    }
  }

  // ---------- When a kick puts off the timeout ----------

  /** In some continuation a callback starts before the timeout has passed since then, by more
      than the resolution of the clock. */
  ghost predicate CanAlertEarly(s: State, since: nat) {
    exists t :: Reaches(s, t) && StartsCallback(t, Dogs) && t.time + 999 < since + t.ms * 1_000_000
  }

  /** No callback can start early: there is none or none will start, or the clock was or will be
      read at that time or later, as far as its resolution tells. */
  predicate Late(s: State, since: nat) {
    s.listeners == 0 || !s.keepRunning || (s.time >= since && (HasClock(s.dog) ==> s.clockUs * 1000 + 999 >= since))
  }

  lemma NextKeepsLate(s: State, a: Action, t: State, since: nat)
    requires Late(s, since) && Next(s, a) == Some(t)
    ensures Late(t, since)
  {
    hide OwnerAfter, Deadline;
  }

  lemma {:induction false} RunKeepsLate(s: State, actions: seq<Action>, since: nat)
    requires Late(s, since) && Run(s, actions).Some?
    ensures Late(Run(s, actions).value, since)
    decreases |actions|
  {
    hide Next, Late;
    if actions != [] {
      NextKeepsLate(s, actions[0], Next(s, actions[0]).value, since);
      RunKeepsLate(Next(s, actions[0]).value, actions[1..], since);
    }
  }

  lemma LateAlert(t: State, since: nat)
    requires Inv(t) && Late(t, since) && StartsCallback(t, Dogs)
    ensures t.time + 999 >= since + t.ms * 1_000_000
  {}

  lemma LateHolds(s: State, since: nat)
    requires Inv(s) && Late(s, since)
    ensures !CanAlertEarly(s, since)
  {
    hide Inv, Late;
    forall t | Reaches(s, t) && StartsCallback(t, Dogs) ensures t.time + 999 >= since + t.ms * 1_000_000 {
      var actions :| Run(s, actions) == Some(t);
      RunInv(s, actions);
      RunKeepsLate(s, actions, since);
      LateAlert(t, since);
    }
  }

  /** The last signal that the thread heeded came at this time or later. */
  predicate HeededSince(s: State, time: nat) { s.heeded.Some? && s.heeded.value >= time && s.time >= time }

  lemma NextKeepsHeeded(s: State, a: Action, t: State, time: nat)
    requires HeededSince(s, time) && Next(s, a) == Some(t)
    ensures HeededSince(t, time)
  {
    hide DogGoes, ClientGoes, OwnerAfter, Deadline;
  }

  lemma {:induction false} RunKeepsHeeded(s: State, actions: seq<Action>, time: nat)
    requires HeededSince(s, time) && Run(s, actions).Some?
    ensures HeededSince(Run(s, actions).value, time)
    decreases |actions|
  {
    hide Next, HeededSince;
    if actions != [] {
      NextKeepsHeeded(s, actions[0], Next(s, actions[0]).value, time);
      RunKeepsHeeded(Next(s, actions[0]).value, actions[1..], time);
    }
  }

  /** A kick that the thread heeds puts off the timeout: in every continuation a callback starts
      only when the timeout has passed since the signal, up to the resolution of the clock. */
  lemma HeededKickHolds(s: State, id: nat, signalled: State, t: State)
    requires Inv(s) && s.At(id) == KickSignal && Heeds(s.dog) && ClientStep(s, id) == Some(signalled)
    requires Reaches(signalled, t) && StartsCallback(t, Dogs)
    ensures t.time + 999 >= s.time + t.ms * 1_000_000
  {
    assert Next(s, Clients(id)) == Some(signalled);
    NextInv(s, Clients(id), signalled);
    assert HeededSince(signalled, s.time);
    hide Inv, ClientStep;
    var actions :| Run(signalled, actions) == Some(t);
    RunInv(signalled, actions);
    RunKeepsHeeded(signalled, actions, s.time);
    AlertsAfterHeeded(t);
  }

  lemma AlertsAfterHeeded(t: State)
    requires Inv(t) && t.dog.Alerting? && t.heeded.Some?
    ensures t.time + 999 >= t.heeded.value + t.ms * 1_000_000
  {}

  /** Whether a signal comes too late to put off the timeout: the thread, whose callbacks can still
      start, has read the clock, is not waiting, and the clock has moved on. */
  predicate TooLate(s: State) {
    !Heeds(s.dog) && s.keepRunning && s.listeners > 0 && s.clockUs * 1000 + 999 < s.time
  }

  lemma EarlyAlert(s: State, t: State, since: nat)
    requires Reaches(s, t) && StartsCallback(t, Dogs) && t.time + 999 < since + t.ms * 1_000_000
    ensures CanAlertEarly(s, since)
  {}

  lemma HeededIsNotEarly(s: State, id: nat, signalled: State)
    requires Inv(s) && s.At(id) == KickSignal && Heeds(s.dog) && ClientStep(s, id) == Some(signalled)
    ensures !CanAlertEarly(signalled, s.time)
  {
    hide Inv, Heeds, ClientStep, Reaches;
    forall t | Reaches(signalled, t) && StartsCallback(t, Dogs) ensures t.time + 999 >= s.time + t.ms * 1_000_000 {
      HeededKickHolds(s, id, signalled, t);
    }
  }

  lemma KickSignalled(s: State, id: nat, signalled: State)
    requires Inv(s) && s.At(id) == KickSignal && ClientStep(s, id) == Some(signalled)
    ensures Inv(signalled) && (!TooLate(s) && !Heeds(s.dog) ==> Late(signalled, s.time))
  {
    assert Next(s, Clients(id)) == Some(signalled);
    NextInv(s, Clients(id), signalled);
  }

  /** After the signal of a kick a callback can start before the timeout has passed since the
      signal if and only if the signal came too late. */
  lemma KickFailsExactly(s: State, id: nat) returns (signalled: State)
    requires Inv(s) && s.At(id) == KickSignal
    ensures ClientStep(s, id) == Some(signalled)
    ensures CanAlertEarly(signalled, s.time) <==> TooLate(s)
  {
    signalled := ClientStep(s, id).value;
    hide Inv, ClientStep, CanAlertEarly, Reaches;
    if TooLate(s) {
      var t := UnheededKickFails(s, id, signalled);
      EarlyAlert(signalled, t, s.time);
    } else if Heeds(s.dog) {
      HeededIsNotEarly(s, id, signalled);
    } else {
      KickSignalled(s, id, signalled);
      LateHolds(signalled, s.time);
    }
  }

  /** There are such kicks: one that comes a microsecond after the clock was read and before the
      thread waits. */
  lemma KickCanBeLost(time: nat, timeoutMs: int, listeners: nat) returns (s: State, signalled: State)
    requires timeoutMs > 0 && listeners > 0
    ensures Reaches(Started(time, timeoutMs, listeners), s) && s.At(0) == KickSignal
    ensures ClientStep(s, 0) == Some(signalled) && CanAlertEarly(signalled, s.time)
  {
    hide Reaches, CanAlertEarly;
    var start := Started(time, timeoutMs, listeners);
    ReachesItself(start);
    s := DogReads(start, start);
    s := Reach(start, s, TimePasses(1000));
    s := KickTakes(start, s, 0);
    StartedInv(time, timeoutMs, listeners);
    ReachesInv(start, s);
    assert TooLate(s);
    signalled := KickFailsExactly(s, 0);
  }
}
