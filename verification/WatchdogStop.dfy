/** When `Stop` of the watchdog can fail to return: a client or the thread that tests the flag
    before `Stop` clears it and locks the mutex afterwards never unlocks it. */
module WatchdogStop {
  import opened Text
  import opened Watchdog

  // ---------- One call of Stop ----------

  predicate BeforeClear(at: ClientAt) { at == StopTest || at == StopLock || at == StopClear }

  predicate AfterClear(at: ClientAt) { at == StopSignal || at == StopUnlock || at == StopJoin }

  predicate InStop(at: ClientAt) { BeforeClear(at) || AfterClear(at) }

  predicate StopFits(s: State, id: nat) {
    && (InStop(s.At(id)) ==> s.stopCalled)
    && (BeforeClear(s.At(id)) ==> s.keepRunning) && (AfterClear(s.At(id)) ==> !s.keepRunning)
  }

  /** At most one client is in `Stop`, and the flag tells how far it is. */
  ghost predicate OneStop(s: State) {
    && (forall id: nat :: StopFits(s, id))
    && (forall c: nat, d: nat :: InStop(s.At(c)) && InStop(s.At(d)) ==> c == d)
    && (s.dog == Exited ==> !s.keepRunning) && (!s.keepRunning ==> s.stopCalled)
  }

  lemma DogStepOneStop(s: State, t: State)
    requires OneStop(s) && DogStep(s) == Some(t)
    ensures OneStop(t)
  {
    hide Deadline, OwnerAfter, DogTakes, DogGives;
    SameClients(s, t);
  }

  /** A step that leaves the clients, the flag and the record of calls alone. */
  lemma SameClients(s: State, t: State)
    requires OneStop(s) && t.clients == s.clients && t.keepRunning == s.keepRunning && t.stopCalled == s.stopCalled
    requires t.dog == Exited ==> !t.keepRunning
    ensures OneStop(t)
  {
    forall id: nat ensures StopFits(t, id) {
      assert StopFits(s, id);
    }
    forall c: nat, d: nat | InStop(t.At(c)) && InStop(t.At(d)) ensures c == d {
      assert InStop(s.At(c)) && InStop(s.At(d));
    }
  }

  /** A call begins. */
  lemma CallOneStop(s: State, id: nat, to: ClientAt, t: State)
    requires OneStop(s) && s.At(id) == Idle && t == s.Move(id, to).(stopCalled := t.stopCalled)
    requires if InStop(to) then to == StopTest && !s.stopCalled && t.stopCalled else t.stopCalled == s.stopCalled
    ensures OneStop(t)
  {
    forall c: nat ensures StopFits(t, c) && (c != id ==> t.At(c) == s.At(c)) && (to == StopTest ==> !InStop(s.At(c))) {
      assert StopFits(s, c);
    }
    hide StopFits;
  }

  lemma ClientStepStop(s: State, id: nat, t: State)
    requires StopFits(s, id) && ClientStep(s, id) == Some(t)
    ensures StopFits(t, id) && (InStop(t.At(id)) ==> InStop(s.At(id)))
    ensures t.stopCalled == s.stopCalled && (t.keepRunning != s.keepRunning ==> BeforeClear(s.At(id)))
    ensures t.keepRunning ==> s.keepRunning
    ensures t.dog == s.dog || (s.dog == Blocked && t.dog == Waking(false))
  {
    hide OwnerAfter, ClientTakes, ClientGives;
  }

  lemma ClientStepOthers(s: State, id: nat, t: State, other: nat)
    requires ClientStep(s, id) == Some(t) && other != id
    ensures t.At(other) == s.At(other)
  {
    hide OwnerAfter, ClientGoes;
  }

  lemma ClientStepOneStop(s: State, id: nat, t: State)
    requires OneStop(s) && ClientStep(s, id) == Some(t)
    ensures OneStop(t)
  {
    assert StopFits(s, id);
    ClientStepStop(s, id, t);
    forall other: nat ensures StopFits(t, other) && (InStop(t.At(other)) ==> InStop(s.At(other))) {
      assert StopFits(s, other);
      if other != id {
        ClientStepOthers(s, id, t, other);
      }
    }
    hide ClientStep, StopFits;
  }

  lemma NextOneStop(s: State, a: Action, t: State)
    requires OneStop(s) && Next(s, a) == Some(t)
    ensures OneStop(t)
  {
    hide DogStep, ClientStep, OneStop;
    match a
    case Dogs => DogStepOneStop(s, t);
    case Clients(id) => ClientStepOneStop(s, id, t);
    case Kicks(id) => CallOneStop(s, id, KickTest, t);
    case Sets(id, ms) => CallOneStop(s, id, SetTest(ms), t);
    case Gets(id) => CallOneStop(s, id, GetTest, t);
    case Stops(id) => CallOneStop(s, id, StopTest, t);
    case _ => WaitOneStop(s, a, t);
  }

  lemma WaitOneStop(s: State, a: Action, t: State)
    requires a == TimesOut || a == WakesSpuriously || a.TimePasses?
    requires OneStop(s) && Next(s, a) == Some(t)
    ensures OneStop(t)
  {
    SameClients(s, t);
  }

  /** What holds in every state of a run. */
  ghost predicate Sound(s: State) { Inv(s) && OneStop(s) }

  lemma NextSound(s: State, a: Action, t: State)
    requires Sound(s) && Next(s, a) == Some(t)
    ensures Sound(t)
  {
    hide Inv, OneStop, Next;
    NextInv(s, a, t);
    NextOneStop(s, a, t);
  }

  lemma {:induction false} RunSound(s: State, actions: seq<Action>)
    requires Sound(s) && Run(s, actions).Some?
    ensures Sound(Run(s, actions).value)
    decreases |actions|
  {
    hide Next, Sound;
    if actions != [] {
      NextSound(s, actions[0], Next(s, actions[0]).value);
      RunSound(Next(s, actions[0]).value, actions[1..]);
    }
  }

  lemma ReachesSound(s: State, t: State)
    requires Sound(s) && Reaches(s, t)
    ensures Sound(t)
  {
    hide Sound;
    var actions :| Run(s, actions) == Some(t);
    RunSound(s, actions);
  }

  lemma StartedSound(time: nat, timeoutMs: int, listeners: nat)
    requires timeoutMs > 0
    ensures Sound(Started(time, timeoutMs, listeners))
  {
    StartedInv(time, timeoutMs, listeners);
    hide Inv;
  }

  // ---------- Stop that never returns ----------

  /** In every continuation the client is still in its call of `Stop`. */
  ghost predicate NeverReturns(s: State, id: nat) {
    forall t :: Reaches(s, t) ==> InStop(t.At(id))
  }

  /** The thread has the mutex before it locks it for its wait, which is never again unlocked. */
  predicate DogKeeps(d: DogAt) {
    d == TimeoutRead || d == TimeoutTestAgain || d == ComputeDeadline || d == Lock
  }

  /** The thread has a lock of the mutex ahead of it and does not hold it. */
  predicate NeedsMutex(d: DogAt) {
    d == ReadClock || d == TimeoutTest || d == TimeoutLock || DogKeeps(d) || d == Blocked || d.Waking?
  }

  /** A client at these points does not unlock the mutex when the flag is clear. */
  predicate ClientKeeps(at: ClientAt) {
    || at == Idle || at == KickTest || at.SetTest? || at.SetStore? || at == SetTestAgain
    || at == GetTest || at == GetRead || at == GetTestAgain
  }

  /** The flag is clear, and the mutex is or will be held by the thread itself or is held by
      another client, who will not unlock it. */
  predicate Stuck(s: State, id: nat, holder: Owner) {
    && !s.keepRunning && AfterClear(s.At(id))
    && match holder
       case Free => s.dog == TimeoutLock
       case Dog => s.owner == Dog && DogKeeps(s.dog)
       case Client(c) => c != id && s.owner == Client(c) && ClientKeeps(s.At(c)) && NeedsMutex(s.dog)
  }

  ghost predicate IsStuck(s: State, id: nat) { exists holder :: Stuck(s, id, holder) }

  lemma DogStepStuck(s: State, id: nat, holder: Owner, t: State)
    requires Stuck(s, id, holder) && DogStep(s) == Some(t)
    ensures IsStuck(t, id)
  {
    hide Deadline;
    assert Stuck(t, id, if holder == Free then Dog else holder);
  }

  /** Where a client goes that holds the mutex without unlocking it, and what others can do. */
  lemma ClientStepStuckHolder(at: ClientAt, id: nat, owner: Owner, exited: bool)
    requires ClientGoes(at, false, owner, exited).Some? && owner != Free
    requires ClientHolds(at, owner == Client(id), false)
    ensures OwnerAfter(Client(id), ClientTakes(at), ClientGives(at, false), owner) == owner ||
            (owner == Client(id) && !ClientKeeps(at))
    ensures ClientKeeps(at) ==> ClientKeeps(ClientGoes(at, false, owner, exited).value)
    ensures AfterClear(at) && !exited ==> AfterClear(ClientGoes(at, false, owner, exited).value)
  {}

  lemma ClientStepStuck(s: State, id: nat, holder: Owner, other: nat, t: State)
    requires Sound(s) && Stuck(s, id, holder) && ClientStep(s, other) == Some(t)
    ensures IsStuck(t, id)
  {
    ClientIsGood(s, other);
    hide Sound;
    if holder == Free {
      FreeStuckStays(s, id, other, t);
    } else {
      HeldStuckStays(s, id, holder, other, t);
    }
  }

  lemma ClientIsGood(s: State, id: nat)
    requires Sound(s)
    ensures ClientGood(s, id)
  {}

  lemma HeldStuckStays(s: State, id: nat, holder: Owner, other: nat, t: State)
    requires Stuck(s, id, holder) && holder != Free && ClientGood(s, other) && ClientStep(s, other) == Some(t)
    ensures IsStuck(t, id)
  {
    ClientStepStuckHolder(s.At(other), other, s.owner, s.dog == Exited);
    ClientStepParts(s, other, t);
    hide ClientStep, ClientGoes, ClientHolds, OwnerAfter, ClientTakes, ClientGives, State.At;
    hide NeedsMutex, DogKeeps, ClientKeeps, AfterClear, IsStuck;
    NeedsMutexAwake(s.dog);
    StillStuck(s, t, id, other, holder);
  }

  lemma NeedsMutexAwake(d: DogAt)
    ensures d == Blocked ==> NeedsMutex(Waking(false)) && !DogKeeps(d)
  {}

  /** Nobody in a stuck state changes who holds the mutex. */
  lemma StillStuck(s: State, t: State, id: nat, other: nat, holder: Owner)
    requires Stuck(s, id, holder) && holder != Free && !t.keepRunning && t.owner == s.owner
    requires ClientKeeps(s.At(other)) ==> ClientKeeps(t.At(other))
    requires AfterClear(s.At(other)) ==> AfterClear(t.At(other))
    requires forall c: nat :: c != other ==> t.At(c) == s.At(c)
    requires t.dog == s.dog || (!DogKeeps(s.dog) && NeedsMutex(t.dog))
    ensures IsStuck(t, id)
  {
    hide NeedsMutex, DogKeeps, ClientKeeps, AfterClear, State.At;
    assert Stuck(t, id, holder);
  }

  lemma ClientStepParts(s: State, id: nat, t: State)
    requires ClientStep(s, id) == Some(t) && !s.keepRunning
    ensures ClientGoes(s.At(id), false, s.owner, s.dog == Exited) == Some(t.At(id)) && !t.keepRunning
    ensures t.owner == OwnerAfter(Client(id), ClientTakes(s.At(id)), ClientGives(s.At(id), false), s.owner)
    ensures forall c: nat :: c != id ==> t.At(c) == s.At(c)
    ensures t.dog == s.dog || (s.dog == Blocked && t.dog == Waking(false))
  {
    hide ClientGoes, OwnerAfter, ClientTakes, ClientGives;
  }

  /** While the thread has not yet locked the mutex nobody can help it. */
  lemma FreeStuckStays(s: State, id: nat, other: nat, t: State)
    requires Stuck(s, id, Free) && ClientStep(s, other) == Some(t)
    ensures IsStuck(t, id)
  {
    hide OwnerAfter;
    assert Stuck(t, id, Free);
  }

  lemma StuckStays(s: State, id: nat, a: Action, t: State)
    requires Sound(s) && IsStuck(s, id) && Next(s, a) == Some(t)
    ensures IsStuck(t, id)
  {
    var holder :| Stuck(s, id, holder);
    hide DogStep, ClientStep, Sound, Stuck;
    match a
    case Dogs => DogStepStuck(s, id, holder, t);
    case Clients(other) => ClientStepStuck(s, id, holder, other, t);
    case Kicks(other) => CallStuck(s, id, holder, other, KickTest, t);
    case Sets(other, ms) => CallStuck(s, id, holder, other, SetTest(ms), t);
    case Gets(other) => CallStuck(s, id, holder, other, GetTest, t);
    case Stops(other) => NoSecondStop(s, id, holder);
    case _ => WaitStuck(s, id, holder, a, t);
  }

  lemma CallStuck(s: State, id: nat, holder: Owner, other: nat, to: ClientAt, t: State)
    requires Stuck(s, id, holder) && s.At(other) == Idle && t == s.Move(other, to)
    requires to == KickTest || to.SetTest? || to == GetTest
    ensures IsStuck(t, id)
  {
    assert Stuck(t, id, holder);
  }

  lemma NoSecondStop(s: State, id: nat, holder: Owner)
    requires Sound(s) && Stuck(s, id, holder)
    ensures s.stopCalled
  {
    assert StopFits(s, id);
  }

  lemma WaitStuck(s: State, id: nat, holder: Owner, a: Action, t: State)
    requires a == TimesOut || a == WakesSpuriously || a.TimePasses?
    requires Stuck(s, id, holder) && Next(s, a) == Some(t)
    ensures IsStuck(t, id)
  {
    assert Stuck(t, id, holder);
  }

  /** A stuck call of `Stop` never returns. */
  lemma {:induction false} StuckForever(s: State, id: nat, actions: seq<Action>)
    requires Sound(s) && IsStuck(s, id) && Run(s, actions).Some?
    ensures IsStuck(Run(s, actions).value, id)
    decreases |actions|
  {
    hide Next, Sound, IsStuck;
    if actions != [] {
      var t := Next(s, actions[0]).value;
      StuckStays(s, id, actions[0], t);
      NextSound(s, actions[0], t);
      StuckForever(t, id, actions[1..]);
    }
  }

  lemma StuckNeverReturns(s: State, id: nat)
    requires Sound(s) && IsStuck(s, id)
    ensures NeverReturns(s, id)
  {
    hide Sound, Run;
    forall t | Reaches(s, t) ensures InStop(t.At(id)) {
      var actions :| Run(s, actions) == Some(t);
      StuckForever(s, id, actions);
    }
  }

  // ---------- Stop that can return ----------

  /** The mutex is free or held by someone who will unlock it. */
  predicate OwnerGives(s: State) {
    match s.owner
    case Free => true
    case Dog => s.dog == Wait || s.dog.Woken? || s.dog == Unlock
    case Client(c) => var at := s.At(c); at == KickSignal || at == KickUnlock || at == StopSignal || at == StopUnlock
  }

  /** A client that has tested the flag for its access to the timeout and not yet locked. */
  predicate Between(at: ClientAt) { at.SetLock? || at == GetLock }

  /** Nobody has tested the flag before it was cleared and locks the mutex afterwards. */
  ghost predicate NoneBetween(s: State) {
    && s.dog != TimeoutLock && !s.dog.Alerting? && OwnerGives(s)
    && forall c: nat :: !Between(s.At(c))
  }

  /** The flag is clear, and the thread ends without the mutex or can have it. */
  ghost predicate CanEnd(s: State) {
    !s.keepRunning && (s.dog == TestRunning || s.dog == Exited || NoneBetween(s))
  }

  lemma DogStepCanEnd(s: State, t: State)
    requires CanEnd(s) && DogStep(s) == Some(t)
    ensures CanEnd(t)
  {
    hide Deadline;
    assert forall c: nat :: t.At(c) == s.At(c);
  }

  /** With a clear flag a client does not come to the lock of the timeout, and the mutex it takes
      or keeps it will unlock. */
  lemma ClientGoesOn(at: ClientAt, id: nat, owner: Owner, exited: bool)
    requires ClientGoes(at, false, owner, exited).Some? && !Between(at) && !BeforeClear(at)
    requires ClientHolds(at, owner == Client(id), false)
    ensures var to := ClientGoes(at, false, owner, exited).value;
            var after := OwnerAfter(Client(id), ClientTakes(at), ClientGives(at, false), owner);
            && !Between(to)
            && (after == owner || (owner == Free && after == Client(id)) || (owner == Client(id) && after == Free))
            && (after == Client(id) && (owner == Client(id) ==> Unlocks(at)) ==> Unlocks(to))
  {}

  predicate Unlocks(at: ClientAt) { at == KickSignal || at == KickUnlock || at == StopSignal || at == StopUnlock }

  lemma ClientStepCanEnd(s: State, id: nat, t: State)
    requires Sound(s) && CanEnd(s) && ClientStep(s, id) == Some(t)
    ensures CanEnd(t)
  {
    assert ClientGood(s, id) && StopFits(s, id);
    if s.dog != TestRunning && s.dog != Exited {
      ClientGoesOn(s.At(id), id, s.owner, s.dog == Exited);
      hide ClientGoes, ClientHolds, OwnerAfter, Inv, OneStop, ClientTakes, ClientGives;
      assert forall c: nat :: c != id ==> t.At(c) == s.At(c);
    }
  }

  lemma CallCanEnd(s: State, id: nat, to: ClientAt, t: State)
    requires CanEnd(s) && s.At(id) == Idle && t == s.Move(id, to) && (to == KickTest || to.SetTest? || to == GetTest)
    ensures CanEnd(t)
  {
    assert forall c: nat :: c != id ==> t.At(c) == s.At(c);
  }

  lemma WaitCanEnd(s: State, a: Action, t: State)
    requires a == TimesOut || a == WakesSpuriously || a.TimePasses?
    requires CanEnd(s) && Next(s, a) == Some(t)
    ensures CanEnd(t)
  {
    assert forall c: nat :: t.At(c) == s.At(c);
  }

  lemma StopWasCalled(s: State)
    requires OneStop(s) && !s.keepRunning
    ensures s.stopCalled
  {}

  lemma NextCanEnd(s: State, a: Action, t: State)
    requires Sound(s) && CanEnd(s) && Next(s, a) == Some(t)
    ensures CanEnd(t)
  {
    StopWasCalled(s);
    hide DogStep, ClientStep, Sound, CanEnd;
    match a
    case Dogs => DogStepCanEnd(s, t);
    case Clients(id) => ClientStepCanEnd(s, id, t);
    case Kicks(id) => CallCanEnd(s, id, KickTest, t);
    case Sets(id, ms) => CallCanEnd(s, id, SetTest(ms), t);
    case Gets(id) => CallCanEnd(s, id, GetTest, t);
    case Stops(_) =>
    case _ => WaitCanEnd(s, a, t);
  }

  lemma {:induction false} RunCanEnd(s: State, actions: seq<Action>)
    requires Sound(s) && CanEnd(s) && Run(s, actions).Some?
    ensures CanEnd(Run(s, actions).value)
    decreases |actions|
  {
    hide Next, Sound, CanEnd;
    if actions != [] {
      var t := Next(s, actions[0]).value;
      NextCanEnd(s, actions[0], t);
      NextSound(s, actions[0], t);
      RunCanEnd(t, actions[1..]);
    }
  }

  /** Up to the point where `Stop` waits for the thread. */
  lemma StopReleases(start: State, s: State, id: nat) returns (t: State)
    requires Reaches(start, s) && AfterClear(s.At(id)) && Sound(s) && CanEnd(s)
    ensures Reaches(start, t) && t.At(id) == StopJoin && Sound(t) && CanEnd(t)
  {
    hide Reaches, CanEnd, Sound, ClientStep;
    t := s;
    if t.At(id) == StopSignal {
      t := Acts(start, t, id);
    }
    if t.At(id) == StopUnlock {
      t := Acts(start, t, id);
    }
  }

  /** A step of a client, with all that it keeps. */
  lemma Acts(start: State, s: State, id: nat) returns (t: State)
    requires Reaches(start, s) && Sound(s) && CanEnd(s)
    requires ClientGoes(s.At(id), s.keepRunning, s.owner, s.dog == Exited).Some?
    ensures Reaches(start, t) && Sound(t) && CanEnd(t)
    ensures Some(t) == ClientStep(s, id)
    ensures t.At(id) == ClientGoes(s.At(id), s.keepRunning, s.owner, s.dog == Exited).value
    ensures forall c: nat :: c != id ==> t.At(c) == s.At(c)
    ensures t.dog == s.dog || (s.dog == Blocked && t.dog == Waking(false))
  {
    hide Reaches, CanEnd, Sound, ClientGoes, OwnerAfter;
    t := ClientActs(start, s, id);
    assert Next(s, Clients(id)) == Some(t);
    NextCanEnd(s, Clients(id), t);
    NextSound(s, Clients(id), t);
  }

  predicate DogWillGive(d: DogAt) { d == Wait || d.Woken? || d == Unlock }

  /** The flag is clear, and only the thread takes the mutex. */
  predicate DogAlone(s: State) {
    && !s.keepRunning && s.dog != TimeoutLock && !s.dog.Alerting?
    && s.owner == if DogWillGive(s.dog) then Dog else Free
  }

  function StepsToEnd(d: DogAt): nat {
    match d
    case Exited => 0
    case TestRunning => 1
    case Unlock => 2
    case Alerting(_) => 3
    case Woken(_) => 3
    case Waking(_) => 4
    case Blocked => 5
    case Wait => 6
    case Lock => 7
    case ComputeDeadline => 8
    case TimeoutTestAgain => 9
    case TimeoutRead => 10
    case TimeoutLock => 11
    case TimeoutTest => 11
    case ReadClock => 12
  }

  lemma DogNext(start: State, s: State) returns (t: State)
    requires Reaches(start, s) && DogAlone(s) && s.dog != Exited && s.dog != Blocked
    ensures Reaches(start, t) && DogAlone(t) && t.clients == s.clients && StepsToEnd(t.dog) < StepsToEnd(s.dog)
  {
    hide Reaches, Deadline;
    t := DogActs(start, s);
  }

  lemma DogTimesOut(start: State, s: State) returns (t: State)
    requires Reaches(start, s) && DogAlone(s) && s.dog == Blocked
    ensures Reaches(start, t) && DogAlone(t) && t.clients == s.clients && StepsToEnd(t.dog) < StepsToEnd(s.dog)
  {
    hide Reaches;
    var deadline := s.sec * SECOND + s.nsec;
    t := Reach(start, s, TimePasses(if s.time < deadline then deadline - s.time else 0));
    t := Reach(start, t, TimesOut);
  }

  /** The thread runs to its end. */
  lemma {:induction false} DogEnds(start: State, s: State) returns (t: State)
    requires Reaches(start, s) && DogAlone(s)
    ensures Reaches(start, t) && t.dog == Exited && t.clients == s.clients
    decreases StepsToEnd(s.dog)
  {
    hide Reaches, DogAlone;
    if s.dog == Exited {
      t := s;
    } else {
      if s.dog == Blocked {
        t := DogTimesOut(start, s);
      } else {
        t := DogNext(start, s);
      }
      t := DogEnds(start, t);
    }
  }

  /** A client that holds the mutex gives it back. */
  lemma MutexIsFreed(start: State, s: State, id: nat) returns (t: State)
    requires Reaches(start, s) && s.At(id) == StopJoin && Sound(s) && NoneBetween(s) && !s.keepRunning
    ensures Reaches(start, t) && t.At(id) == StopJoin && !t.keepRunning
    ensures DogAlone(t) || t.dog == TestRunning || t.dog == Exited
  {
    t := s;
    if s.owner.Client? {
      var c := s.owner.id;
      OnlyOneInStop(s, id, c);
      hide Reaches, Sound, CanEnd, ClientStep;
      assert CanEnd(s) by { BetweenCanEnd(s); }
      if t.At(c) == KickSignal {
        t := Acts(start, t, c);
      }
      t := KickGives(start, t, c);
    }
    SoundHolds(t);
  }

  lemma BetweenCanEnd(s: State)
    requires NoneBetween(s) && !s.keepRunning
    ensures CanEnd(s)
  {}

  lemma OnlyOneInStop(s: State, id: nat, c: nat)
    requires Sound(s) && s.At(id) == StopJoin
    ensures InStop(s.At(c)) ==> c == id
  {}

  lemma SoundHolds(s: State)
    requires Sound(s)
    ensures DogHolds(s.dog, s.owner, s.keepRunning) && (s.dog == Exited ==> !s.keepRunning)
  {}

  lemma KickGives(start: State, s: State, c: nat) returns (t: State)
    requires Reaches(start, s) && s.At(c) == KickUnlock && Sound(s) && CanEnd(s)
    ensures Reaches(start, t) && Sound(t) && CanEnd(t) && t.owner == Free && t.dog == s.dog
    ensures forall d: nat :: d != c ==> t.At(d) == s.At(d)
  {
    hide Reaches, Sound, CanEnd;
    t := Acts(start, s, c);
  }

  /** The thread ends, and `Stop` returns. */
  lemma JoinReturns(start: State, s: State, id: nat) returns (t: State)
    requires Reaches(start, s) && s.At(id) == StopJoin && !s.keepRunning
    requires DogAlone(s) || s.dog == TestRunning || s.dog == Exited
    ensures Reaches(start, t) && t.At(id) == Idle
  {
    hide Reaches, Deadline, DogAlone;
    t := s;
    if t.dog == TestRunning {
      t := DogActs(start, t);
    } else if t.dog != Exited {
      t := DogEnds(start, t);
    }
    assert t.dog == Exited && t.At(id) == StopJoin;
    t := ClientActs(start, t, id);
  }

  /** A run in which the call of `Stop` returns. */
  lemma StopReturns(s: State, id: nat) returns (t: State)
    requires Sound(s) && CanEnd(s) && AfterClear(s.At(id))
    ensures Reaches(s, t) && t.At(id) == Idle
  {
    hide Reaches, Sound, CanEnd, NoneBetween, DogAlone;
    ReachesItself(s);
    t := StopReleases(s, s, id);
    EndOrBetween(t);
    if t.dog != TestRunning && t.dog != Exited {
      t := MutexIsFreed(s, t, id);
    }
    t := JoinReturns(s, t, id);
  }

  lemma RunFirst(s: State, a: Action, more: seq<Action>, t: State)
    requires Next(s, a) == Some(t)
    ensures Run(s, [a] + more) == Run(t, more)
  {
    hide Next;
    assert ([a] + more)[1..] == more;
  }

  /** The thread that is woken by the signal ends without waiting for the mutex or for time. */
  lemma WokenEnds(s: State, id: nat)
    requires s.dog == Waking(false) && s.owner == Free && !s.keepRunning && s.At(id) == StopJoin
    ensures var t := Run(s, [Dogs] + ([Dogs] + ([Dogs] + ([Dogs] + ([Clients(id)] + [])))));
            t.Some? && t.value.At(id) == Idle && t.value.time == s.time
  {
    hide Run, DogStep, ClientStep;
    var a := s.(dog := Woken(false), owner := Dog);
    var b := s.(dog := Unlock, owner := Dog);
    var c := s.(dog := TestRunning);
    var d := s.(dog := Exited);
    DogMoves(s, Woken(false), a);
    DogMoves(a, Unlock, b);
    DogMoves(b, TestRunning, c);
    DogMoves(c, Exited, d);
    var e := JoinEnds(d, id);
    RunDogs(s, a, b, c, d, Clients(id), e);
  }

  lemma RunDogs(s: State, a: State, b: State, c: State, d: State, last: Action, e: State)
    requires Next(s, Dogs) == Some(a) && Next(a, Dogs) == Some(b) && Next(b, Dogs) == Some(c)
    requires Next(c, Dogs) == Some(d) && Next(d, last) == Some(e)
    ensures Run(s, [Dogs] + ([Dogs] + ([Dogs] + ([Dogs] + ([last] + []))))) == Some(e)
  {
    hide Run, Next;
    RunFirst(s, Dogs, [Dogs] + ([Dogs] + ([Dogs] + ([last] + []))), a);
    RunFirst(a, Dogs, [Dogs] + ([Dogs] + ([last] + [])), b);
    RunFirst(b, Dogs, [Dogs] + ([last] + []), c);
    RunFirst(c, Dogs, [last] + [], d);
    RunFirst(d, last, [], e);
    NoActions(e);
  }

  /** A step of the thread that only moves on and takes or gives up the mutex. */
  lemma DogMoves(s: State, to: DogAt, t: State)
    requires DogGoes(s.dog, s.keepRunning, s.owner, s.listeners) == Some(to)
    requires s.dog != ReadClock && s.dog != TimeoutRead && s.dog != ComputeDeadline && s.dog != Wait
    requires t == s.(dog := to, owner := OwnerAfter(Dog, DogTakes(s.dog), DogGives(s.dog, s.keepRunning), s.owner))
    ensures DogStep(s) == Some(t)
  {
    hide Deadline, DogGoes, OwnerAfter;
  }

  lemma JoinEnds(s: State, id: nat) returns (t: State)
    requires s.At(id) == StopJoin && s.dog == Exited
    ensures ClientStep(s, id) == Some(t) && t.At(id) == Idle && t.time == s.time
  {
    t := ClientStep(s, id).value;
  }

  lemma NoActions(s: State)
    ensures Run(s, []) == Some(s)
  {}

  /** `Stop` wakes the waiting thread: the two alone get the call to return, before any time
      passes. */
  lemma StopWakes(s: State, id: nat)
    requires s.At(id) == StopSignal && s.dog == Blocked && s.owner == Client(id) && !s.keepRunning
    ensures var ending := [Dogs] + ([Dogs] + ([Dogs] + ([Dogs] + ([Clients(id)] + []))));
            var alone := [Clients(id)] + ([Clients(id)] + ending);
            Run(s, alone).Some? && Run(s, alone).value.At(id) == Idle && Run(s, alone).value.time == s.time
  {
    hide Run;
    var a := ClientStep(s, id).value;
    var b := ClientStep(a, id).value;
    assert b.dog == Waking(false) && b.owner == Free && b.At(id) == StopJoin && b.time == s.time;
    var rest := [Dogs] + ([Dogs] + ([Dogs] + ([Dogs] + ([Clients(id)] + []))));
    RunFirst(s, Clients(id), [Clients(id)] + rest, a);
    RunFirst(a, Clients(id), rest, b);
    WokenEnds(b, id);
  }

  lemma EndOrBetween(s: State)
    requires CanEnd(s)
    ensures !s.keepRunning && (s.dog == TestRunning || s.dog == Exited || NoneBetween(s))
  {}

  // ---------- The exact condition ----------

  /** When the flag is about to be cleared: the thread, or another client, is between its test of
      the flag and its lock of the mutex; the client only matters if the thread still needs the
      mutex. */
  ghost predicate SomeoneBetween(s: State) {
    s.dog == TimeoutLock || (NeedsMutex(s.dog) && exists c: nat :: Between(s.At(c)))
  }

  ghost predicate CanHang(s: State, id: nat) { exists t :: Reaches(s, t) && NeverReturns(t, id) }

  /** The step that clears the flag. */
  lemma ClearStep(s: State, id: nat) returns (r: State)
    requires Sound(s) && s.At(id) == StopClear
    ensures ClientStep(s, id) == Some(r) && Sound(r)
    ensures r == s.(keepRunning := false, clients := r.clients) && r.At(id) == StopSignal
    ensures r.owner == Client(id) && s.keepRunning && forall c: nat :: c != id ==> r.At(c) == s.At(c)
  {
    assert ClientGood(s, id) && StopFits(s, id);
    r := ClientStep(s, id).value;
    assert Next(s, Clients(id)) == Some(r);
    hide Sound;
    NextSound(s, Clients(id), r);
  }

  lemma ThreadBetweenHangs(r: State, id: nat)
    requires Sound(r) && !r.keepRunning && r.At(id) == StopSignal && r.dog == TimeoutLock
    ensures CanHang(r, id)
  {
    assert Stuck(r, id, Free);
    hide Sound;
    StuckNeverReturns(r, id);
    ReachesItself(r);
  }

  lemma BetweenCanLock(r: State, id: nat, c: nat) returns (t: State)
    requires c != id && !r.keepRunning && r.At(id) == StopSignal && Between(r.At(c)) && NeedsMutex(r.dog)
    ensures Reaches(r, t) && t.At(c) == r.At(c) && t.owner == Free
    ensures !t.keepRunning && t.At(id) == StopJoin && NeedsMutex(t.dog)
  {
    hide Reaches;
    ReachesItself(r);
    t := ClientActs(r, r, id);
    assert t.At(c) == r.At(c) && NeedsMutex(t.dog) && t.At(id) == StopUnlock && !t.keepRunning;
    t := ClientActs(r, t, id);
  }

  lemma BetweenLocks(r: State, id: nat, c: nat) returns (t: State)
    requires c != id && !r.keepRunning && r.At(id) == StopSignal && Between(r.At(c)) && NeedsMutex(r.dog)
    ensures Reaches(r, t) && Stuck(t, id, Client(c))
  {
    hide Reaches;
    t := BetweenCanLock(r, id, c);
    t := ClientActs(r, t, c);
  }

  lemma ClientBetweenHangs(r: State, id: nat, c: nat)
    requires Sound(r) && !r.keepRunning && r.At(id) == StopSignal && Between(r.At(c)) && NeedsMutex(r.dog)
    ensures CanHang(r, id)
  {
    hide Sound, Stuck;
    var t := BetweenLocks(r, id, c);
    ReachesSound(r, t);
    StuckNeverReturns(t, id);
  }

  lemma NobodyBetweenReturns(r: State, id: nat)
    requires Sound(r) && CanEnd(r)
    ensures !CanHang(r, id)
  {
    forall t | Reaches(r, t) ensures !NeverReturns(t, id) {
      ReachesSound(r, t);
      ReachesCanEnd(r, t);
      AfterOrNotInStop(t, id);
      if AfterClear(t.At(id)) {
        var u := StopReturns(t, id);
        assert !InStop(u.At(id));
      } else {
        ReachesItself(t);
      }
    }
  }

  lemma ReachesCanEnd(s: State, t: State)
    requires Sound(s) && CanEnd(s) && Reaches(s, t)
    ensures CanEnd(t)
  {
    hide Sound, CanEnd;
    var actions :| Run(s, actions) == Some(t);
    RunCanEnd(s, actions);
  }

  lemma AfterOrNotInStop(s: State, id: nat)
    requires Sound(s) && CanEnd(s)
    ensures InStop(s.At(id)) ==> AfterClear(s.At(id))
  {
    assert StopFits(s, id);
  }

  lemma NobodyBetweenCanEnd(s: State, id: nat, r: State)
    requires Sound(s) && s.At(id) == StopClear && !SomeoneBetween(s)
    requires r == s.(keepRunning := false, clients := r.clients) && r.At(id) == StopSignal
    requires r.owner == Client(id) && s.keepRunning && forall c: nat :: c != id ==> r.At(c) == s.At(c)
    ensures CanEnd(r)
  {
    SoundHolds(s);
    hide Sound;
    assert s.dog.Alerting? || s.dog.Woken? || s.dog == Wait || s.dog == Unlock ==> s.owner == Dog;
  }

  /** After it has cleared the flag, `Stop` can fail to return, in some continuation, if and only
      if someone was between the test of the flag and the lock. */
  lemma StopHangsExactly(s: State, id: nat) returns (r: State)
    requires Sound(s) && s.At(id) == StopClear
    ensures ClientStep(s, id) == Some(r)
    ensures CanHang(r, id) <==> SomeoneBetween(s)
  {
    r := ClearStep(s, id);
    hide ClientStep, Sound, CanHang, CanEnd;
    if s.dog == TimeoutLock {
      ThreadBetweenHangs(r, id);
    } else if c: nat :| Between(s.At(c)) && NeedsMutex(s.dog) {
      ClientBetweenHangs(r, id, c);
    } else {
      NobodyBetweenCanEnd(s, id, r);
      NobodyBetweenReturns(r, id);
    }
  }

  /** Every state of a run from the start is sound, so that the condition is exact in all of them. */
  lemma StopOfARunHangsExactly(time: nat, timeoutMs: int, listeners: nat, s: State, id: nat) returns (r: State)
    requires timeoutMs > 0 && Reaches(Started(time, timeoutMs, listeners), s) && s.At(id) == StopClear
    ensures ClientStep(s, id) == Some(r)
    ensures CanHang(r, id) <==> SomeoneBetween(s)
  {
    hide Sound, CanHang, SomeoneBetween;
    StartedSound(time, timeoutMs, listeners);
    ReachesSound(Started(time, timeoutMs, listeners), s);
    r := StopHangsExactly(s, id);
  }

  // ---------- Runs that lead there ----------

  lemma StopTakes(start: State, s: State, id: nat) returns (t: State)
    requires Reaches(start, s) && s.At(id) == Idle && !s.stopCalled && s.keepRunning && s.owner == Free
    ensures Reaches(start, t) && t.At(id) == StopClear
    ensures t == s.(stopCalled := true, owner := Client(id), clients := t.clients)
    ensures forall c: nat :: c != id ==> t.At(c) == s.At(c)
  {
    hide Reaches;
    t := Reach(start, s, Stops(id));
    t := ClientActs(start, t, id);
    t := ClientActs(start, t, id);
  }

  /** `Stop` between the first test of the flag and the lock in the thread's reading of the
      timeout. */
  lemma StopCanHang(time: nat, timeoutMs: int, listeners: nat) returns (s: State)
    requires timeoutMs > 0
    ensures Reaches(Started(time, timeoutMs, listeners), s) && s.At(0) == StopClear && s.dog == TimeoutLock
  {
    hide Deadline, Reaches;
    var start := Started(time, timeoutMs, listeners);
    ReachesItself(start);
    s := DogActs(start, start);
    s := DogActs(start, s);
    s := DogActs(start, s);
    s := StopTakes(start, s, 0);
  }

  /** `Stop` between the first test of the flag and the lock in another client's setting of the
      timeout, while the thread waits. */
  lemma StopCanHangInWait(time: nat, timeoutMs: int, listeners: nat) returns (s: State)
    requires timeoutMs > 0
    ensures Reaches(Started(time, timeoutMs, listeners), s) && s.At(0) == StopClear
    ensures s.dog == Blocked && s.At(1) == SetLock(timeoutMs)
  {
    hide Deadline, Reaches;
    var start := Started(time, timeoutMs, listeners);
    ReachesItself(start);
    s := DogReads(start, start);
    s := DogBlocks(start, s);
    s := Reach(start, s, Sets(1, timeoutMs));
    s := ClientActs(start, s, 1);
    s := StopTakes(start, s, 0);
  }

  /** The same in another client's reading of the timeout. */
  lemma StopCanHangInGet(time: nat, timeoutMs: int, listeners: nat) returns (s: State)
    requires timeoutMs > 0
    ensures Reaches(Started(time, timeoutMs, listeners), s) && s.At(0) == StopClear
    ensures s.dog == Blocked && s.At(1) == GetLock
  {
    hide Deadline, Reaches;
    var start := Started(time, timeoutMs, listeners);
    ReachesItself(start);
    s := DogReads(start, start);
    s := DogBlocks(start, s);
    s := Reach(start, s, Gets(1));
    s := ClientActs(start, s, 1);
    s := StopTakes(start, s, 0);
  }

  /** Before the flag is cleared it is never too late: as long as some other client is idle, it
      can come between. */
  lemma BeforeClearCanHang(s: State, id: nat, c: nat)
    requires Sound(s) && s.At(id) == StopClear && s.At(c) == Idle
    ensures CanHang(s, id)
  {
    SoundHolds(s);
    ClientIsGood(s, id);
    assert StopFits(s, id);
    hide Sound, CanHang, SomeoneBetween, Reaches;
    var t := ComesBetween(s, id, c);
    SomeoneIsBetween(t, c);
    ReachesSound(s, t);
    var r := StopHangsExactly(t, id);
    var u := Reach(s, t, Clients(id));
    HangsFromBefore(s, r, id);
  }

  lemma ComesBetween(s: State, id: nat, c: nat) returns (t: State)
    requires s.keepRunning && s.owner == Client(id) && s.At(id) == StopClear && s.At(c) == Idle
    requires DogHolds(s.dog, s.owner, s.keepRunning) && s.dog != Exited
    ensures Reaches(s, t) && NeedsMutex(t.dog) && t.At(c).SetLock? && t.At(id) == StopClear
  {
    hide Reaches, Deadline;
    ReachesItself(s);
    t := Reach(s, s, Sets(c, 1));
    t := ClientActs(s, t, c);
    if t.dog == TestRunning {
      t := DogActs(s, t);
    }
  }

  lemma SomeoneIsBetween(s: State, c: nat)
    requires NeedsMutex(s.dog) && Between(s.At(c))
    ensures SomeoneBetween(s)
  {}

  lemma HangsFromBefore(s: State, r: State, id: nat)
    requires Reaches(s, r) && CanHang(r, id)
    ensures CanHang(s, id)
  {
    var t :| Reaches(r, t) && NeverReturns(t, id);
    ReachesTogether(s, r, t);
  }

  lemma ReachesTogether(s: State, t: State, u: State)
    requires Reaches(s, t) && Reaches(t, u)
    ensures Reaches(s, u)
  {
    var first :| Run(s, first) == Some(t);
    var second :| Run(t, second) == Some(u);
    RunBoth(s, first, second);
  }

  lemma {:induction false} RunBoth(s: State, first: seq<Action>, second: seq<Action>)
    requires Run(s, first).Some?
    ensures Run(s, first + second) == Run(Run(s, first).value, second)
    decreases |first|
  {
    hide Next;
    if first == [] {
      assert first + second == second;
    } else {
      assert (first + second)[1..] == first[1..] + second;
      RunBoth(Next(s, first[0]).value, first[1..], second);
    }
  }
}
