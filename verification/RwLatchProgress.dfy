/** What the latch promises over whole runs: exclusion, no lost wakeup, no deadlock, draining. */
module RwLatchProgress {
  import opened RwLatch

  /** No reader who sleeps on reader_ has been forgotten. */
  ghost predicate ReaderAwaited(s: State) {
    Somewhere(s, RSleep) ==>
      || s.writerEntered || Somewhere(s, WReleasing) || s.readerCount == MAX_READERS
      || (Somewhere(s, RReleasing) && s.readerCount == MAX_READERS - 1)
  }

  // ---------------------------------------------------------------- safety

  /**
   In every reachable state at most one thread is between writer entry and exit, a writer that has
   the latch excludes every reader, and `reader_count_` is the number of readers: it never exceeds
   MAX_READERS and is positive whenever RUnlock is about to decrement it.
   */
  lemma MutualExclusion(s0: State, acts: seq<Action>, i: nat, j: nat)
    requires Init(s0) && EnabledRun(s0, acts) && i < |s0.pcs| && j < |s0.pcs|
    ensures var s := Run(s0, acts);
      && |s.pcs| == |s0.pcs|
      && (Entered(s.pcs[i]) && Entered(s.pcs[j]) ==> i == j && s.writerEntered)
      && (s.pcs[i].WHold? ==> !Reading(s.pcs[j]))
      && (OwnsMutex(s.pcs[i]) && OwnsMutex(s.pcs[j]) ==> i == j)
      && (s.pcs[i].RRelease? ==> s.readerCount > 0)
      && s.readerCount == Count(s.pcs, Reading) <= MAX_READERS
  {
    InitHasInv(s0);
    RunKeepsInv(s0, acts);
    var s := Run(s0, acts);
    if Entered(s.pcs[i]) && Entered(s.pcs[j]) {
      EnteredIsUnique(s, i, j);
    }
    if Reading(s.pcs[j]) {
      ReaderIsCounted(s, j);
    }
    if Reading(s.pcs[i]) {
      ReaderIsCounted(s, i);
    }
  }

  // ---------------------------------------------------------------- no lost wakeup

  lemma ThirdThread(s: State, i: nat, j: nat)
    requires FieldsOk(s) && i < |s.pcs| && j < |s.pcs| && i != j && |s.pcs| <= MAX_READERS + 1
    requires !Reading(s.pcs[i]) && !Reading(s.pcs[j])
    ensures s.readerCount < MAX_READERS
    ensures forall k | 0 <= k < |s.pcs| && k != i && k != j && !Reading(s.pcs[k]) :: s.readerCount < MAX_READERS - 1
  {
    CountUpdate(s.pcs, i, RHold, Reading);
    CountUpdate(s.pcs[i := RHold], j, RHold, Reading);
    CountAtMost(s.pcs[i := RHold][j := RHold], Reading);
    forall k: nat | k < |s.pcs| && k != i && k != j && !Reading(s.pcs[k]) ensures s.readerCount < MAX_READERS - 1 {
      ThreeNotReading(s.pcs, i, j, k);
    }
  }

  lemma MoveKeepsReaderAwaited(s: State, a: Action)
    requires OneMoves(s, a) && MutexOk(s) && CountFitsIn(s) && ReaderAwaited(s)
    ensures ReaderAwaited(Next(s, a))
  {
    hide Somewhere;
    MoveIsOne(s, a);
    var s' := Next(s, a);
    StillSomewhere(s, a.t, s'.pcs[a.t], RSleep);
    StillSomewhere(s, a.t, s'.pcs[a.t], WReleasing);
    StillSomewhere(s, a.t, s'.pcs[a.t], RReleasing);
    SamePlaces(s', At(s, a.t, s'.pcs[a.t]));
    if a.Lock? || a.Test? {
      NobodyElseInside(s, a);
    }
  }

  ghost predicate CountFitsIn(s: State) {
    s.readerCount <= MAX_READERS && forall i | 0 <= i < |s.pcs| && Reading(s.pcs[i]) :: s.readerCount > 0
  }

  lemma FieldsGiveFit(s: State)
    requires FieldsOk(s)
    ensures CountFitsIn(s)
  {
    forall i | 0 <= i < |s.pcs| && Reading(s.pcs[i]) ensures s.readerCount > 0 {
      ReaderIsCounted(s, i);
    }
  }

  /** While a thread takes or holds the mutex nobody else is between unlocking and notifying. */
  lemma NobodyElseInside(s: State, a: Action)
    requires Enabled(s, a) && (a.Lock? || a.Test?) && MutexOk(s)
    ensures !Somewhere(s, RReleasing) && !Somewhere(s, WReleasing)
  {
  }

  lemma NotifyOneKeepsReaderAwaited(s: State, t: nat, woken: Owner)
    requires Inv(s) && Enabled(s, NotifyOne(t, woken)) && |s.pcs| <= MAX_READERS + 1 && ReaderAwaited(s)
    ensures ReaderAwaited(Next(s, NotifyOne(t, woken)))
  {
    var s' := Next(s, NotifyOne(t, woken));
    if Somewhere(s', RSleep) && !s.writerEntered {
      var i :| 0 <= i < |s'.pcs| && s'.pcs[i] == RSleep;
      assert s.pcs[i] == RSleep && i != t;
      ThirdThread(s, t, i);
    }
  }

  lemma StepKeepsReaderAwaited(s: State, a: Action)
    requires Inv(s) && Enabled(s, a) && |s.pcs| <= MAX_READERS + 1 && ReaderAwaited(s)
    ensures ReaderAwaited(Next(s, a))
  {
    hide Next, Enabled, MutexOk, OwnerExists, FieldsOk, Exclusion, WriterAwaited, EntryAwaited, ReaderAwaited;
    match a
    case NotifyAll(t) => NotifyAllKeepsReaderAwaited(s, t);
    case NotifyOne(t, woken) => NotifyOneKeepsReaderAwaited(s, t, woken);
    case _ =>
      FieldsGiveFit(s);
      MoveKeepsReaderAwaited(s, a);
  }

  lemma NotifyAllKeepsReaderAwaited(s: State, t: nat)
    requires Enabled(s, NotifyAll(t))
    ensures ReaderAwaited(Next(s, NotifyAll(t)))
  {
    assert !Somewhere(Next(s, NotifyAll(t)), RSleep);
  }

  lemma {:induction false} RunKeepsReaderAwaited(s: State, acts: seq<Action>)
    requires Inv(s) && EnabledRun(s, acts) && |s.pcs| <= MAX_READERS + 1 && ReaderAwaited(s)
    ensures Inv(Run(s, acts)) && ReaderAwaited(Run(s, acts)) && |Run(s, acts).pcs| == |s.pcs|
    decreases |acts|
  {
    hide Inv, Next, Enabled, ReaderAwaited;
    if acts != [] {
      StepKeepsInv(s, acts[0]);
      SameThreads(s, acts[0]);
      StepKeepsReaderAwaited(s, acts[0]);
      RunKeepsReaderAwaited(Next(s, acts[0]), acts[1..]);
    }
  }

  /** Whenever the mutex is free, whoever sleeps has something to wait for. */
  ghost predicate NobodyForgotten(s: State) {
    s.mutex.Free? ==>
      forall i | 0 <= i < |s.pcs| ::
        && (OnReader(s.pcs[i]) ==> s.writerEntered || s.readerCount == MAX_READERS)
        && (OnWriter(s.pcs[i]) ==> s.readerCount > 0)
  }

  lemma AwaitedMeansNotForgotten(s: State)
    requires Inv(s) && ReaderAwaited(s)
    ensures NobodyForgotten(s)
  {
    if s.mutex.Free? {
      forall i | 0 <= i < |s.pcs|
        ensures OnReader(s.pcs[i]) ==> s.writerEntered || s.readerCount == MAX_READERS
        ensures OnWriter(s.pcs[i]) ==> s.readerCount > 0
      {
        assert Somewhere(s, s.pcs[i]);
        assert !Somewhere(s, RReleasing) && !Somewhere(s, WReleasing);
      }
    }
  }

  /** With at most MAX_READERS + 1 threads no wakeup is ever lost. */
  lemma NoLostWakeup(s0: State, acts: seq<Action>)
    requires Init(s0) && EnabledRun(s0, acts) && |s0.pcs| <= MAX_READERS + 1
    ensures NobodyForgotten(Run(s0, acts))
  {
    InitHasInv(s0);
    RunKeepsReaderAwaited(s0, acts);
    AwaitedMeansNotForgotten(Run(s0, acts));
  }

  // ---------------------------------------------------------------- no deadlock

  /** A step that goes on with a call that has begun; not a new call, not a spurious wakeup. */
  predicate Proceeds(a: Action) {
    !a.CallWLock? && !a.CallRLock? && !a.Spurious?
  }

  lemma OwnerCanStep(s: State, t: nat)
    requires t < |s.pcs| && OwnsMutex(s.pcs[t])
    ensures exists a :: Proceeds(a) && Enabled(s, a)
  {
    var a := if s.pcs[t].WReleasing? then NotifyAll(t)
             else if s.pcs[t].RReleasing? then NotifyOne(t, ChooseWoken(s))
             else Test(t);
    assert Proceeds(a) && Enabled(s, a);
  }

  /** There is always an outcome of notify_one. */
  ghost function ChooseWoken(s: State): (woken: Owner)
    ensures MayWake(s, woken)
  {
    assert forall u | 0 <= u < |s.pcs| :: NotifiesWriter(s) && OnWriter(s.pcs[u]) ==> Wakeable(s, u);
    assert forall u | 0 <= u < |s.pcs| :: NotifiesReader(s) && OnReader(s.pcs[u]) ==> Wakeable(s, u);
    if exists u :: 0 <= u < |s.pcs| && Wakeable(s, u) then
      var u :| 0 <= u < |s.pcs| && Wakeable(s, u); By(u)
    else Free
  }

  ghost predicate Wakeable(s: State, u: nat)
    requires u < |s.pcs|
  {
    (NotifiesWriter(s) && OnWriter(s.pcs[u])) || (NotifiesReader(s) && OnReader(s.pcs[u]))
  }

  lemma WaiterHasSomeoneToWaitFor(s: State, i: nat)
    requires Inv(s) && ReaderAwaited(s) && s.mutex.Free? && i < |s.pcs|
    requires OnReader(s.pcs[i]) || OnWriter(s.pcs[i])
    ensures exists j: nat :: j < |s.pcs| && (WantsMutex(s.pcs[j]) || s.pcs[j].WHold? || s.pcs[j].RHold?)
  {
    AwaitedMeansNotForgotten(s);
    CountPositive(s.pcs, Reading);
    CountPositive(s.pcs, Entered);
    if s.readerCount > 0 {
      var j :| 0 <= j < |s.pcs| && Reading(s.pcs[j]);
      assert s.pcs[j].RHold? || WantsMutex(s.pcs[j]);
    } else {
      var k :| 0 <= k < |s.pcs| && Entered(s.pcs[k]);
      assert !s.pcs[k].WDrain? by {
        assert s.mutex != By(k);
      }
      assert !OnWriter(s.pcs[k]);
    }
  }

  /**
   No deadlock: in every reachable state in which some thread is inside a call or holds the latch,
   some thread can go on (or a holder can unlock) without a spurious wakeup.
   */
  lemma NoDeadlock(s: State, i: nat)
    requires Inv(s) && ReaderAwaited(s) && i < |s.pcs| && s.pcs[i] != Idle
    ensures exists a :: Proceeds(a) && Enabled(s, a)
  {
    if s.mutex.By? {
      OwnerCanStep(s, s.mutex.t);
    } else {
      var j: nat := i;
      if OnReader(s.pcs[i]) || OnWriter(s.pcs[i]) {
        WaiterHasSomeoneToWaitFor(s, i);
        j :| j < |s.pcs| && (WantsMutex(s.pcs[j]) || s.pcs[j].WHold? || s.pcs[j].RHold?);
      }
      assert !OwnsMutex(s.pcs[j]);
      if WantsMutex(s.pcs[j]) {
        assert Proceeds(Lock(j)) && Enabled(s, Lock(j));
      } else {
        assert Proceeds(CallUnlock(j)) && Enabled(s, CallUnlock(j));
      }
    }
  }

  // ---------------------------------------------------------------- draining

  /** Assignments to the latch's fields and notifications that a thread still has before it. */
  function Major(p: Pc): nat {
    match p
    case Idle => 0
    case WWant => 4
    case WTest => 4
    case WSleep => 4
    case WWoken => 4
    case WDrain => 3
    case WSleepDrain => 3
    case WWokenDrain => 3
    case WHold => 2
    case WRelease => 2
    case WReleasing => 1
    case RWant => 3
    case RTest => 3
    case RSleep => 3
    case RWoken => 3
    case RHold => 2
    case RRelease => 2
    case RReleasing => 1
  }

  /** Progress between two of them. */
  function Minor(p: Pc): nat {
    match p
    case WWant => 3
    case WWoken => 3
    case WWokenDrain => 3
    case RWant => 3
    case RWoken => 3
    case WTest => 2
    case WDrain => 2
    case RTest => 2
    case WSleep => 1
    case WSleepDrain => 1
    case RSleep => 1
    case WHold => 1
    case RHold => 1
    case _ => 0
  }

  ghost function Sum(pcs: seq<Pc>, f: Pc -> nat): nat {
    if pcs == [] then 0 else f(pcs[0]) + Sum(pcs[1..], f)
  }

  lemma {:induction false} SumUpdate(pcs: seq<Pc>, t: nat, p: Pc, f: Pc -> nat)
    requires t < |pcs|
    ensures Sum(pcs[t := p], f) + f(pcs[t]) == Sum(pcs, f) + f(p)
  {
    if t == 0 {
      assert pcs[t := p][1..] == pcs[1..];
    } else {
      assert pcs[t := p][1..] == pcs[1..][t - 1 := p];
      SumUpdate(pcs[1..], t - 1, p, f);
    }
  }

  lemma {:induction false} SumSame(pcs: seq<Pc>, pcs': seq<Pc>, f: Pc -> nat)
    requires |pcs| == |pcs'| && forall i | 0 <= i < |pcs| :: f(pcs[i]) == f(pcs'[i])
    ensures Sum(pcs, f) == Sum(pcs', f)
  {
    if pcs != [] {
      SumSame(pcs[1..], pcs'[1..], f);
    }
  }

  lemma {:induction false} SumBound(pcs: seq<Pc>)
    ensures Sum(pcs, Minor) <= 3 * |pcs|
  {
    if pcs != [] {
      SumBound(pcs[1..]);
    }
  }

  /** Majors weigh more than all minors together. */
  ghost function Remaining(s: State): nat {
    Sum(s.pcs, Major) * (3 * |s.pcs| + 1) + Sum(s.pcs, Minor)
  }

  lemma MajorFalls(s: State, s': State)
    requires |s.pcs| == |s'.pcs| && Sum(s'.pcs, Major) < Sum(s.pcs, Major)
    ensures Remaining(s') < Remaining(s)
  {
    SumBound(s'.pcs);
    Heavier(Sum(s'.pcs, Major), Sum(s.pcs, Major), 3 * |s.pcs| + 1);
  }

  lemma {:induction false} Heavier(a: nat, b: nat, k: nat)
    requires a < b
    ensures a * k + k <= b * k
  {
    if a + 1 < b {
      Heavier(a, b - 1, k);
    }
    assert b * k == (b - 1) * k + k;
  }

  lemma MoveRemaining(s: State, a: Action)
    requires OneMoves(s, a) && Proceeds(a)
    ensures Remaining(Next(s, a)) < Remaining(s)
  {
    MoveIsOne(s, a);
    var p := Next(s, a).pcs[a.t];
    SumUpdate(s.pcs, a.t, p, Major);
    SumUpdate(s.pcs, a.t, p, Minor);
    MoveLowersRank(s, a);
    if Major(p) < Major(s.pcs[a.t]) {
      MajorFalls(s, Next(s, a));
    }
  }

  lemma MoveLowersRank(s: State, a: Action)
    requires OneMoves(s, a) && Proceeds(a)
    ensures var p, q := s.pcs[a.t], Next(s, a).pcs[a.t];
      Major(q) < Major(p) || (Major(q) == Major(p) && Minor(q) < Minor(p))
  {
  }

  lemma NotifyRemaining(s: State, a: Action)
    requires Enabled(s, a) && (a.NotifyAll? || a.NotifyOne?)
    ensures Remaining(Next(s, a)) < Remaining(s)
  {
    var s' := Next(s, a);
    if a.NotifyAll? {
      var woken := WakeAll(s.pcs);
      SumSame(s.pcs, woken, Major);
      SumUpdate(woken, a.t, Idle, Major);
    } else {
      var mid := if a.woken.By? then s.pcs[a.woken.t := Wake(s.pcs[a.woken.t])] else s.pcs;
      if a.woken.By? {
        SumUpdate(s.pcs, a.woken.t, Wake(s.pcs[a.woken.t]), Major);
      }
      SumUpdate(mid, a.t, Idle, Major);
    }
    MajorFalls(s, s');
  }

  /**
   While no new calls arrive and nobody wakes spuriously, every run, in whatever order the threads
   are scheduled, is over after at most Remaining(s) steps.
   */
  lemma {:induction false} DrainingEnds(s: State, acts: seq<Action>)
    requires EnabledRun(s, acts) && forall a <- acts :: Proceeds(a)
    ensures |acts| + Remaining(Run(s, acts)) <= Remaining(s)
    decreases |acts|
  {
    hide Next, Enabled, Remaining;
    if acts != [] {
      assert Proceeds(acts[0]);
      StepRemaining(s, acts[0]);
      DrainingEnds(Next(s, acts[0]), acts[1..]);
    }
  }

  lemma StepRemaining(s: State, a: Action)
    requires Enabled(s, a) && Proceeds(a)
    ensures Remaining(Next(s, a)) < Remaining(s)
  {
    hide Next, Remaining;
    if a.NotifyAll? || a.NotifyOne? {
      NotifyRemaining(s, a);
    } else {
      MoveRemaining(s, a);
    }
  }

  /** No call that has begun can go on, and nobody holds the latch. */
  ghost predicate Over(s: State) {
    forall a :: Proceeds(a) ==> !Enabled(s, a)
  }

  ghost predicate AllIdle(s: State) {
    forall i | 0 <= i < |s.pcs| :: s.pcs[i] == Idle
  }

  /**
   Everybody is served: from any reachable state with at most MAX_READERS + 1 threads, a drain run
   that cannot be continued has brought every call to its end, and drain runs do end.
   */
  lemma EverybodyIsServed(s0: State, before: seq<Action>, acts: seq<Action>)
    requires Init(s0) && EnabledRun(s0, before) && |s0.pcs| <= MAX_READERS + 1
    requires EnabledRun(Run(s0, before), acts) && forall a <- acts :: Proceeds(a)
    ensures |acts| <= Remaining(Run(s0, before))
    ensures Over(Run(Run(s0, before), acts)) ==> AllIdle(Run(Run(s0, before), acts))
  {
    hide Inv, ReaderAwaited, Next, Enabled, Remaining;
    InitHasInv(s0);
    InitIsAwaited(s0);
    RunKeepsReaderAwaited(s0, before);
    RunKeepsReaderAwaited(Run(s0, before), acts);
    DrainingEnds(Run(s0, before), acts);
    var s := Run(Run(s0, before), acts);
    if Over(s) {
      forall i | 0 <= i < |s.pcs| ensures s.pcs[i] == Idle {
        if s.pcs[i] != Idle {
          NoDeadlock(s, i);
        }
      }
    }
  }

  lemma InitIsAwaited(s: State)
    requires Init(s)
    ensures ReaderAwaited(s)
  {
  }

  // ---------------------------------------------------------------- a writer drains the readers

  /** Some thread has entered as writer in every state of the run. */
  ghost predicate EnteredThroughout(s: State, acts: seq<Action>)
    requires EnabledRun(s, acts)
    decreases |acts|
  {
    s.writerEntered && (acts != [] ==> EnteredThroughout(Next(s, acts[0]), acts[1..]))
  }

  /** How often a run decrements `reader_count_`. */
  ghost function Unlocks(s: State, acts: seq<Action>): nat
    requires EnabledRun(s, acts)
    decreases |acts|
  {
    if acts == [] then 0
    else (if acts[0].Lock? && s.pcs[acts[0].t].RRelease? then 1 else 0) + Unlocks(Next(s, acts[0]), acts[1..])
  }

  /** Once a writer has entered, `reader_count_` only falls, by one for every RUnlock. */
  lemma {:induction false} CountOnlyFalls(s: State, acts: seq<Action>)
    requires Inv(s) && EnabledRun(s, acts) && EnteredThroughout(s, acts)
    ensures Run(s, acts).readerCount + Unlocks(s, acts) == s.readerCount
    decreases |acts|
  {
    if acts != [] {
      CountFallsByOne(s, acts[0]);
      StepKeepsInv(s, acts[0]);
      CountOnlyFalls(Next(s, acts[0]), acts[1..]);
    }
  }

  lemma CountFallsByOne(s: State, a: Action)
    requires Inv(s) && Enabled(s, a) && s.writerEntered
    ensures Next(s, a).readerCount + (if a.Lock? && s.pcs[a.t].RRelease? then 1 else 0) == s.readerCount
  {
    if a.Lock? && s.pcs[a.t].RRelease? {
      ReaderIsCounted(s, a.t);
    }
  }

  // ---------------------------------------------------------------- and with one thread more

  lemma {:induction false} RunConcat(s: State, a: seq<Action>, b: seq<Action>)
    requires EnabledRun(s, a) && EnabledRun(Run(s, a), b)
    ensures EnabledRun(s, a + b) && Run(s, a + b) == Run(Run(s, a), b)
    decreases |a|
  {
    hide Next, Enabled;
    if a == [] {
      assert a + b == b;
    } else {
      assert (a + b)[0] == a[0] && (a + b)[1..] == a[1..] + b;
      RunConcat(Next(s, a[0]), a[1..], b);
    }
  }

  lemma ThreeSteps(s: State, a: Action, b: Action, c: Action)
    requires Enabled(s, a) && Enabled(Next(s, a), b) && Enabled(Next(Next(s, a), b), c)
    ensures EnabledRun(s, [a, b, c]) && Run(s, [a, b, c]) == Next(Next(Next(s, a), b), c)
  {
    hide Next, Enabled;
    assert [a, b, c][1..] == [b, c] && [b, c][1..] == [c] && [c][1..] == [];
    assert EnabledRun(Next(Next(s, a), b), [c]) && Run(Next(Next(s, a), b), [c]) == Next(Next(Next(s, a), b), c);
    assert EnabledRun(Next(s, a), [b, c]);
  }

  /** The whole of RLock by one thread with nobody in its way but, maybe, MAX_READERS readers. */
  lemma ReadAttempt(s: State, t: nat)
    requires t < |s.pcs| && s.pcs[t] == Idle && s.mutex.Free? && !s.writerEntered && s.readerCount <= MAX_READERS
    ensures var acts := [CallRLock(t), Lock(t), Test(t)];
      && EnabledRun(s, acts)
      && Run(s, acts) == if s.readerCount == MAX_READERS then At(s, t, RSleep)
                         else At(s, t, RHold).(readerCount := s.readerCount + 1)
  {
    var s1 := Next(s, CallRLock(t));
    var s2 := Next(s1, Lock(t));
    ThreeSteps(s, CallRLock(t), Lock(t), Test(t));
    assert s2.pcs[t] == RTest && s2.pcs == s.pcs[t := RTest];
  }

  /** The whole of RUnlock. */
  lemma ReadExit(s: State, t: nat, woken: Owner)
    requires t < |s.pcs| && s.pcs[t] == RHold && s.mutex.Free? && s.readerCount > 0
    requires MayWake(At(s, t, RReleasing).(readerCount := s.readerCount - 1), woken)
    ensures var acts := [CallUnlock(t), Lock(t), NotifyOne(t, woken)];
      && EnabledRun(s, acts)
      && Run(s, acts) == (if woken.By? then At(At(s, woken.t, Wake(s.pcs[woken.t])), t, Idle) else At(s, t, Idle))
                         .(readerCount := s.readerCount - 1)
  {
    var s1 := Next(s, CallUnlock(t));
    var s2 := Next(s1, Lock(t));
    var away := At(s, t, RReleasing).(readerCount := s.readerCount - 1);
    assert s2 == away.(mutex := By(t));
    assert MayWake(s2, woken);
    if woken.By? {
      assert s2.pcs[woken.t] == s.pcs[woken.t] && woken.t != t;
      assert s2.pcs[woken.t := Wake(s.pcs[woken.t])][t := Idle] == s.pcs[woken.t := Wake(s.pcs[woken.t])][t := Idle];
    } else {
      assert s2.pcs[t := Idle] == s.pcs[t := Idle];
    }
    ThreeSteps(s, CallUnlock(t), Lock(t), NotifyOne(t, woken));
  }

  /** The first k of n threads read. */
  ghost function Readers(n: nat, k: nat): State
    requires k <= MAX_READERS
  {
    State(seq(n, i => if i < k then RHold else Idle), Free, k, false)
  }

  ghost predicate Leads(s: State, s': State) {
    exists acts :: EnabledRun(s, acts) && Run(s, acts) == s'
  }

  lemma LeadsThen(s: State, m: State, acts: seq<Action>)
    requires Leads(s, m) && EnabledRun(m, acts)
    ensures Leads(s, Run(m, acts))
  {
    hide Next, Enabled;
    var first :| EnabledRun(s, first) && Run(s, first) == m;
    RunConcat(s, first, acts);
  }

  lemma {:induction false} ReadersArrive(n: nat, k: nat)
    requires k <= n && k <= MAX_READERS
    ensures Leads(Readers(n, 0), Readers(n, k))
  {
    if k == 0 {
      assert EnabledRun(Readers(n, 0), []) && Run(Readers(n, 0), []) == Readers(n, 0);
    } else {
      ReadersArrive(n, k - 1);
      var s := Readers(n, k - 1);
      ReadAttempt(s, k - 1);
      LeadsThen(Readers(n, 0), s, [CallRLock(k - 1), Lock(k - 1), Test(k - 1)]);
      assert Readers(n, k).pcs == s.pcs[k - 1 := RHold];
    }
  }

  /**
   The latch after the lost wakeup, when k readers have left: one sleeper has been woken, the other
   sleeps on.
   */
  ghost function Forgotten(n: nat, k: nat): State
    requires k <= MAX_READERS
  {
    State(seq(n, i => if k <= i < MAX_READERS then RHold else if i == MAX_READERS then RWoken
                      else if i == MAX_READERS + 1 then RSleep else Idle),
      Free, MAX_READERS - k, false)
  }

  /**
   With two threads more than MAX_READERS: two readers find the latch at MAX_READERS and go to sleep;
   of the next two RUnlocks only the first notifies.
   */
  lemma ForgottenIsReached(n: nat)
    requires n >= MAX_READERS + 2
    ensures Leads(Readers(n, 0), Forgotten(n, 2))
  {
    var m := MAX_READERS;
    ReadersArrive(n, m);
    var s0 := Readers(n, m);
    var s1 := At(s0, m, RSleep);
    var s2 := At(s1, m + 1, RSleep);
    TwoFallAsleep(n, s0, s1, s2);
    var s3 := At(At(s2, m, RWoken), 0, Idle).(readerCount := m - 1);
    var s4 := At(s3, 1, Idle).(readerCount := m - 2);
    TwoLeave(n, s2, s3, s4);
    assert s4.pcs == Forgotten(n, 2).pcs;
  }

  /** So the second sleeper sleeps on, though no writer has entered and there is room for readers. */
  lemma LostWakeup(n: nat)
    requires n >= MAX_READERS + 2
    ensures exists acts :: EnabledRun(Readers(n, 0), acts) && !NobodyForgotten(Run(Readers(n, 0), acts))
    ensures Init(Readers(n, 0))
  {
    ForgottenIsReached(n);
    var s := Forgotten(n, 2);
    assert s.pcs[MAX_READERS + 1] == RSleep;
    assert !NobodyForgotten(s);
  }

  lemma TwoFallAsleep(n: nat, s0: State, s1: State, s2: State)
    requires n >= MAX_READERS + 2 && s0 == Readers(n, MAX_READERS) && Leads(Readers(n, 0), s0)
    requires s1 == At(s0, MAX_READERS, RSleep) && s2 == At(s1, MAX_READERS + 1, RSleep)
    ensures Leads(Readers(n, 0), s2)
  {
    hide Next, Enabled, Run, EnabledRun, Leads;
    var m := MAX_READERS;
    ReadAttempt(s0, m);
    LeadsThen(Readers(n, 0), s0, [CallRLock(m), Lock(m), Test(m)]);
    ReadAttempt(s1, m + 1);
    LeadsThen(Readers(n, 0), s1, [CallRLock(m + 1), Lock(m + 1), Test(m + 1)]);
  }

  lemma TwoLeave(n: nat, s2: State, s3: State, s4: State)
    requires n >= MAX_READERS + 2 && Leads(Readers(n, 0), s2)
    requires s2 == At(At(Readers(n, MAX_READERS), MAX_READERS, RSleep), MAX_READERS + 1, RSleep)
    requires s3 == At(At(s2, MAX_READERS, RWoken), 0, Idle).(readerCount := MAX_READERS - 1)
    requires s4 == At(s3, 1, Idle).(readerCount := MAX_READERS - 2)
    ensures Leads(Readers(n, 0), s4)
  {
    hide Next, Enabled, Run, EnabledRun, Leads;
    var m := MAX_READERS;
    ReadExit(s2, 0, By(m));
    LeadsThen(Readers(n, 0), s2, [CallUnlock(0), Lock(0), NotifyOne(0, By(m))]);
    ReadExit(s3, 1, Free);
    LeadsThen(Readers(n, 0), s3, [CallUnlock(1), Lock(1), NotifyOne(1, Free)]);
  }

  /** The latch never loses a wakeup exactly when it has at most MAX_READERS + 1 users. */
  lemma NoLostWakeupIff(n: nat)
    ensures (forall s0: State, acts :: Init(s0) && |s0.pcs| == n && EnabledRun(s0, acts)
              ==> NobodyForgotten(Run(s0, acts)))
        <==> n <= 0x1_0000_0000
  {
    if n <= MAX_READERS + 1 {
      forall s0: State, acts | Init(s0) && |s0.pcs| == n && EnabledRun(s0, acts)
        ensures NobodyForgotten(Run(s0, acts))
      {
        NoLostWakeup(s0, acts);
      }
    } else {
      LostWakeup(n);
      var s0 := Readers(n, 0);
      var acts :| EnabledRun(s0, acts) && !NobodyForgotten(Run(s0, acts));
      assert Init(s0) && |s0.pcs| == n;
    }
  }

  // ---------------------------------------------------------------- and nobody wakes the sleeper

  /** The other readers leave, one after the other, and none of them notifies. */
  lemma {:induction false} ReadersLeave(n: nat, k: nat)
    requires n >= MAX_READERS + 2 && 2 <= k <= MAX_READERS
    ensures Leads(Readers(n, 0), Forgotten(n, k))
    decreases k
  {
    if k == 2 {
      ForgottenIsReached(n);
    } else {
      ReadersLeave(n, k - 1);
      var s := Forgotten(n, k - 1);
      ReadExit(s, k - 1, Free);
      LeadsThen(Readers(n, 0), s, [CallUnlock(k - 1), Lock(k - 1), NotifyOne(k - 1, Free)]);
      assert Forgotten(n, k).pcs == s.pcs[k - 1 := Idle];
    }
  }

  /** Everybody has gone home but the sleeper. */
  ghost function Abandoned(n: nat): State {
    State(seq(n, i => if i == MAX_READERS + 1 then RSleep else Idle), Free, 0, false)
  }

  lemma AbandonedIsReached(n: nat)
    requires n >= MAX_READERS + 2
    ensures Leads(Readers(n, 0), Abandoned(n))
  {
    var m := MAX_READERS;
    ReadersLeave(n, m);
    var s := Forgotten(n, m);
    TwoSteps(s, Lock(m), Test(m));
    LeadsThen(Readers(n, 0), s, [Lock(m), Test(m)]);
    var s' := At(s, m, RHold).(readerCount := 1);
    assert Next(s, Lock(m)).pcs[m := RHold] == s'.pcs;
    ReadExit(s', m, Free);
    LeadsThen(Readers(n, 0), s', [CallUnlock(m), Lock(m), NotifyOne(m, Free)]);
    assert Abandoned(n).pcs == s'.pcs[m := Idle];
  }

  lemma TwoSteps(s: State, a: Action, b: Action)
    requires Enabled(s, a) && Enabled(Next(s, a), b)
    ensures EnabledRun(s, [a, b]) && Run(s, [a, b]) == Next(Next(s, a), b)
  {
    hide Next, Enabled;
    assert [a, b][1..] == [b] && [b][1..] == [];
    assert EnabledRun(Next(s, a), [b]) && Run(Next(s, a), [b]) == Next(Next(s, a), b);
  }

  lemma OverIsServed(s0: State, acts: seq<Action>)
    requires Init(s0) && |s0.pcs| <= MAX_READERS + 1 && EnabledRun(s0, acts) && Over(Run(s0, acts))
    ensures AllIdle(Run(s0, acts))
  {
    hide Over, AllIdle;
    EverybodyIsServed(s0, acts, []);
  }

  lemma LeftAsleep(n: nat) returns (acts: seq<Action>)
    requires n >= MAX_READERS + 2
    ensures Init(Readers(n, 0)) && |Readers(n, 0).pcs| == n && EnabledRun(Readers(n, 0), acts)
    ensures Over(Run(Readers(n, 0), acts)) && !AllIdle(Run(Readers(n, 0), acts))
  {
    hide Run, EnabledRun;
    AbandonedIsReached(n);
    var s := Abandoned(n);
    assert s.pcs[MAX_READERS + 1] == RSleep;
    assert Over(s) && !AllIdle(s);
    acts :| EnabledRun(Readers(n, 0), acts) && Run(Readers(n, 0), acts) == s;
  }

  /**
   Whenever it is over everybody has been served, exactly when the latch has at most MAX_READERS + 1
   users. With more of them it can be over with a reader asleep that only a new call, or a spurious
   wakeup, could ever wake.
   */
  lemma EverybodyIsServedIff(n: nat)
    ensures (forall s0: State, acts :: Init(s0) && |s0.pcs| == n && EnabledRun(s0, acts) && Over(Run(s0, acts))
              ==> AllIdle(Run(s0, acts)))
        <==> n <= 0x1_0000_0000
  {
    hide Run, EnabledRun, Init;
    if n <= MAX_READERS + 1 {
      forall s0: State, acts | Init(s0) && |s0.pcs| == n && EnabledRun(s0, acts) && Over(Run(s0, acts))
        ensures AllIdle(Run(s0, acts))
      {
        OverIsServed(s0, acts);
      }
    } else {
      var acts := LeftAsleep(n);
    }
  }
}
