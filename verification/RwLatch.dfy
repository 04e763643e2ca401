/**
 The reader-writer latch as a state machine: one mutex, two condition variables, any number of
 threads. A step is one acquisition of the mutex, one loop test, or one notification; a thread
 asleep on a condition variable may also wake up for no reason.
 */
module RwLatch {
  const MAX_READERS: nat := 0xFFFF_FFFF

  type u32 = n: nat | n < 0x1_0000_0000

  /** Where a thread is. The states marked * hold the mutex. */
  datatype Pc =
    | Idle
    | WWant          // WLock wants the mutex
    | WTest          // * at the test of writer_entered_
    | WSleep         // asleep on reader_
    | WWoken         // woken, wants the mutex again
    | WDrain         // * has set writer_entered_, at the test of reader_count_
    | WSleepDrain    // asleep on writer_
    | WWokenDrain    // woken, wants the mutex again
    | WHold          // WLock has returned
    | WRelease       // WUnlock wants the mutex
    | WReleasing     // * writer_entered_ is cleared, about to notify_all
    | RWant          // RLock wants the mutex
    | RTest          // * at its test
    | RSleep         // asleep on reader_
    | RWoken         // woken, wants the mutex again
    | RHold          // RLock has returned
    | RRelease       // RUnlock wants the mutex
    | RReleasing     // * reader_count_ is decremented, about to notify

  datatype Owner = Free | By(t: nat)

  datatype State = State(pcs: seq<Pc>, mutex: Owner, readerCount: u32, writerEntered: bool)

  datatype Action =
    | CallWLock(t: nat)
    | CallRLock(t: nat)
    | CallUnlock(t: nat)
    | Lock(t: nat)
    | Test(t: nat)
    | NotifyAll(t: nat)                  // the end of WUnlock
    | NotifyOne(t: nat, woken: Owner)    // the end of RUnlock; whom it wakes, if anyone
    | Spurious(t: nat)

  predicate OwnsMutex(p: Pc) { p.WTest? || p.WDrain? || p.WReleasing? || p.RTest? || p.RReleasing? }

  predicate WantsMutex(p: Pc) {
    p.WWant? || p.WWoken? || p.WWokenDrain? || p.WRelease? || p.RWant? || p.RWoken? || p.RRelease?
  }

  predicate OnReader(p: Pc) { p.WSleep? || p.RSleep? }

  predicate OnWriter(p: Pc) { p.WSleepDrain? }

  /** Between `writer_entered_ = true` and `writer_entered_ = false`. */
  predicate Entered(p: Pc) { p.WDrain? || p.WSleepDrain? || p.WWokenDrain? || p.WHold? || p.WRelease? }

  /** Between `reader_count_++` and `reader_count_--`. */
  predicate Reading(p: Pc) { p.RHold? || p.RRelease? }

  function Wake(p: Pc): Pc {
    match p
    case WSleep => WWoken
    case RSleep => RWoken
    case WSleepDrain => WWokenDrain
    case _ => p
  }

  function WakeAll(pcs: seq<Pc>): (r: seq<Pc>)
    ensures |r| == |pcs|
    ensures forall i | 0 <= i < |pcs| :: r[i] == if OnReader(pcs[i]) then Wake(pcs[i]) else pcs[i]
  {
    if pcs == [] then []
    else [if OnReader(pcs[0]) then Wake(pcs[0]) else pcs[0]] + WakeAll(pcs[1..])
  }

  /** Does RUnlock notify, and on which condition variable. */
  predicate NotifiesWriter(s: State) { s.writerEntered && s.readerCount == 0 }

  predicate NotifiesReader(s: State) { !s.writerEntered && s.readerCount == MAX_READERS - 1 }

  /** notify_one wakes one sleeper of the notified variable if there is one, and nobody otherwise. */
  ghost predicate MayWake(s: State, woken: Owner) {
    match woken
    case By(u) => u < |s.pcs|
      && ((NotifiesWriter(s) && OnWriter(s.pcs[u])) || (NotifiesReader(s) && OnReader(s.pcs[u])))
    case Free =>
      && (NotifiesWriter(s) ==> forall u | 0 <= u < |s.pcs| :: !OnWriter(s.pcs[u]))
      && (NotifiesReader(s) ==> forall u | 0 <= u < |s.pcs| :: !OnReader(s.pcs[u]))
  }

  function Thread(a: Action): nat { a.t }

  ghost predicate Enabled(s: State, a: Action) {
    && Thread(a) < |s.pcs|
    && var p := s.pcs[Thread(a)];
    match a
    case CallWLock(t) => p.Idle?
    case CallRLock(t) => p.Idle?
    case CallUnlock(t) => p.WHold? || p.RHold?
    case Lock(t) => WantsMutex(p) && s.mutex.Free?
    case Test(t) => p.WTest? || p.WDrain? || p.RTest?
    case NotifyAll(t) => p.WReleasing?
    case NotifyOne(t, woken) => p.RReleasing? && MayWake(s, woken)
    case Spurious(t) => OnReader(p) || OnWriter(p)
  }

  function At(s: State, t: nat, p: Pc): State
    requires t < |s.pcs|
  {
    s.(pcs := s.pcs[t := p])
  }

  /** The mutex is acquired; the unlocking calls make their first assignment at once. */
  function AfterLock(s: State, t: nat): State
    requires t < |s.pcs|
  {
    var s' := s.(mutex := By(t));
    match s.pcs[t]
    case WWant => At(s', t, WTest)
    case WWoken => At(s', t, WTest)
    case WWokenDrain => At(s', t, WDrain)
    case RWant => At(s', t, RTest)
    case RWoken => At(s', t, RTest)
    case WRelease => At(s', t, WReleasing).(writerEntered := false)
    case RRelease => At(s', t, RReleasing).(readerCount := (s.readerCount + 0xFFFF_FFFF) % 0x1_0000_0000)
    case _ => s
  }

  /** A loop test: go to sleep (which gives the mutex back) or go on. */
  function AfterTest(s: State, t: nat): State
    requires t < |s.pcs|
  {
    var out := s.(mutex := Free);
    match s.pcs[t]
    case WTest =>
      if s.writerEntered then At(out, t, WSleep) else At(s, t, WDrain).(writerEntered := true)
    case WDrain =>
      if s.readerCount > 0 then At(out, t, WSleepDrain) else At(out, t, WHold)
    case RTest =>
      if s.writerEntered || s.readerCount == MAX_READERS then At(out, t, RSleep)
      else At(out, t, RHold).(readerCount := (s.readerCount + 1) % 0x1_0000_0000)
    case _ => s
  }

  ghost function Next(s: State, a: Action): State
    requires Enabled(s, a)
  {
    match a
    case CallWLock(t) => At(s, t, WWant)
    case CallRLock(t) => At(s, t, RWant)
    case CallUnlock(t) => At(s, t, if s.pcs[t].WHold? then WRelease else RRelease)
    case Lock(t) => AfterLock(s, t)
    case Test(t) => AfterTest(s, t)
    case NotifyAll(t) => s.(pcs := WakeAll(s.pcs)[t := Idle], mutex := Free)
    case NotifyOne(t, woken) =>
      var s' := if woken.By? then At(s, woken.t, Wake(s.pcs[woken.t])) else s;
      At(s', t, Idle).(mutex := Free)
    case Spurious(t) => At(s, t, Wake(s.pcs[t]))
  }

  ghost predicate EnabledRun(s: State, acts: seq<Action>)
    decreases |acts|
  {
    acts == [] || (Enabled(s, acts[0]) && EnabledRun(Next(s, acts[0]), acts[1..]))
  }

  ghost function Run(s: State, acts: seq<Action>): State
    requires EnabledRun(s, acts)
    decreases |acts|
  {
    if acts == [] then s else Run(Next(s, acts[0]), acts[1..])
  }

  ghost predicate Init(s: State) {
    && (forall i | 0 <= i < |s.pcs| :: s.pcs[i] == Idle)
    && s.mutex.Free? && s.readerCount == 0 && !s.writerEntered
  }

  // ---------------------------------------------------------------- counting threads

  ghost function Count(pcs: seq<Pc>, f: Pc -> bool): nat {
    if pcs == [] then 0 else (if f(pcs[0]) then 1 else 0) + Count(pcs[1..], f)
  }

  lemma {:induction false} CountUpdate(pcs: seq<Pc>, t: nat, p: Pc, f: Pc -> bool)
    requires t < |pcs|
    ensures Count(pcs[t := p], f) + (if f(pcs[t]) then 1 else 0) == Count(pcs, f) + (if f(p) then 1 else 0)
  {
    if t == 0 {
      assert pcs[t := p][1..] == pcs[1..];
    } else {
      assert pcs[t := p][1..] == pcs[1..][t - 1 := p];
      CountUpdate(pcs[1..], t - 1, p, f);
    }
  }

  lemma {:induction false} CountSame(pcs: seq<Pc>, pcs': seq<Pc>, f: Pc -> bool)
    requires |pcs| == |pcs'| && forall i | 0 <= i < |pcs| :: f(pcs[i]) == f(pcs'[i])
    ensures Count(pcs, f) == Count(pcs', f)
  {
    if pcs != [] {
      CountSame(pcs[1..], pcs'[1..], f);
    }
  }

  lemma {:induction false} CountAtMost(pcs: seq<Pc>, f: Pc -> bool)
    ensures Count(pcs, f) <= |pcs|
  {
    if pcs != [] {
      CountAtMost(pcs[1..], f);
    }
  }

  /** Three threads that are not readers leave at most n - 3 that are. */
  lemma ThreeNotReading(pcs: seq<Pc>, i: nat, j: nat, k: nat)
    requires i < |pcs| && j < |pcs| && k < |pcs| && i != j && i != k && j != k
    requires !Reading(pcs[i]) && !Reading(pcs[j]) && !Reading(pcs[k])
    ensures Count(pcs, Reading) + 3 <= |pcs|
  {
    CountUpdate(pcs, i, RHold, Reading);
    CountUpdate(pcs[i := RHold], j, RHold, Reading);
    CountUpdate(pcs[i := RHold][j := RHold], k, RHold, Reading);
    CountAtMost(pcs[i := RHold][j := RHold][k := RHold], Reading);
  }

  lemma {:induction false} CountPositive(pcs: seq<Pc>, f: Pc -> bool)
    ensures Count(pcs, f) > 0 <==> exists i | 0 <= i < |pcs| :: f(pcs[i])
  {
    if pcs != [] {
      CountPositive(pcs[1..], f);
      if exists i | 0 <= i < |pcs| :: f(pcs[i]) {
        var i :| 0 <= i < |pcs| && f(pcs[i]);
        assert i == 0 || f(pcs[1..][i - 1]);
      }
    }
  }

  lemma {:induction false} CountOne(pcs: seq<Pc>, i: nat, j: nat, f: Pc -> bool)
    requires i < j < |pcs| && f(pcs[i]) && f(pcs[j])
    ensures Count(pcs, f) >= 2
  {
    if i == 0 {
      assert f(pcs[1..][j - 1]);
      CountPositive(pcs[1..], f);
    } else {
      CountOne(pcs[1..], i - 1, j - 1, f);
    }
  }

  // ---------------------------------------------------------------- the invariant

  ghost predicate MutexOk(s: State) {
    forall i | 0 <= i < |s.pcs| :: OwnsMutex(s.pcs[i]) <==> s.mutex == By(i)
  }

  ghost predicate OwnerExists(s: State) {
    s.mutex.By? ==> s.mutex.t < |s.pcs| && OwnsMutex(s.pcs[s.mutex.t])
  }

  /** The two fields say how many threads read and whether one has entered as writer. */
  ghost predicate FieldsOk(s: State) {
    && s.readerCount == Count(s.pcs, Reading) <= MAX_READERS
    && Count(s.pcs, Entered) == (if s.writerEntered then 1 else 0)
  }

  /** A writer that has the latch excludes every reader. */
  ghost predicate Exclusion(s: State) {
    forall i | 0 <= i < |s.pcs| :: s.pcs[i].WHold? || s.pcs[i].WRelease? ==> s.readerCount == 0
  }

  ghost predicate Somewhere(s: State, p: Pc) {
    exists i | 0 <= i < |s.pcs| :: s.pcs[i] == p
  }

  /** Nobody who sleeps on writer_ has been forgotten. */
  ghost predicate WriterAwaited(s: State) {
    Somewhere(s, WSleepDrain) ==> s.readerCount > 0 || Somewhere(s, RReleasing)
  }

  /** No writer who sleeps on reader_ has been forgotten. */
  ghost predicate EntryAwaited(s: State) {
    Somewhere(s, WSleep) ==> s.writerEntered || Somewhere(s, WReleasing)
  }

  ghost predicate Inv(s: State) {
    MutexOk(s) && OwnerExists(s) && FieldsOk(s) && Exclusion(s) && WriterAwaited(s) && EntryAwaited(s)
  }

  lemma {:induction false} CountNone(pcs: seq<Pc>, f: Pc -> bool)
    requires forall i | 0 <= i < |pcs| :: !f(pcs[i])
    ensures Count(pcs, f) == 0
  {
    CountPositive(pcs, f);
  }

  lemma InitHasInv(s: State)
    requires Init(s)
    ensures Inv(s)
  {
    CountNone(s.pcs, Reading);
    CountNone(s.pcs, Entered);
  }

  /** Moving thread t leaves every other thread where it is. */
  lemma StillSomewhere(s: State, t: nat, p: Pc, q: Pc)
    requires t < |s.pcs|
    ensures Somewhere(s, q) ==> q == s.pcs[t] || Somewhere(At(s, t, p), q)
    ensures Somewhere(At(s, t, p), q) ==> q == p || Somewhere(s, q)
    ensures Somewhere(At(s, t, p), p)
  {
    var s' := At(s, t, p);
    assert s'.pcs[t] == p;
    if Somewhere(s, q) {
      var i :| 0 <= i < |s.pcs| && s.pcs[i] == q;
      assert i == t || s'.pcs[i] == q;
    }
    if Somewhere(s', q) {
      var i :| 0 <= i < |s'.pcs| && s'.pcs[i] == q;
      assert i == t || s.pcs[i] == q;
    }
  }

  /** Two states with the threads at the same places. */
  lemma SamePlaces(s: State, s': State)
    requires s.pcs == s'.pcs
    ensures forall q :: Somewhere(s, q) <==> Somewhere(s', q)
  {
  }

  /** One thread moves, as in every step but the two notifications. */
  ghost predicate OneMoves(s: State, a: Action) {
    Enabled(s, a) && !a.NotifyAll? && !a.NotifyOne?
  }

  lemma MoveIsOne(s: State, a: Action)
    requires OneMoves(s, a)
    ensures a.t < |s.pcs| && Next(s, a).pcs == s.pcs[a.t := Next(s, a).pcs[a.t]]
  {
  }

  lemma MoveKeepsMutex(s: State, a: Action)
    requires OneMoves(s, a) && MutexOk(s) && OwnerExists(s)
    ensures MutexOk(Next(s, a)) && OwnerExists(Next(s, a))
  {
  }

  lemma MoveKeepsFields(s: State, a: Action)
    requires OneMoves(s, a) && FieldsOk(s)
    ensures FieldsOk(Next(s, a))
  {
    MoveIsOne(s, a);
    var p := Next(s, a).pcs[a.t];
    CountUpdate(s.pcs, a.t, p, Reading);
    CountUpdate(s.pcs, a.t, p, Entered);
  }

  lemma EnteredIsUnique(s: State, i: nat, j: nat)
    requires FieldsOk(s) && i < |s.pcs| && j < |s.pcs| && Entered(s.pcs[i]) && Entered(s.pcs[j])
    ensures i == j && s.writerEntered
  {
    CountPositive(s.pcs, Entered);
    if i != j {
      CountOne(s.pcs, if i < j then i else j, if i < j then j else i, Entered);
    }
  }

  lemma ReaderIsCounted(s: State, i: nat)
    requires FieldsOk(s) && i < |s.pcs| && Reading(s.pcs[i])
    ensures s.readerCount > 0
  {
    CountPositive(s.pcs, Reading);
  }

  lemma MoveKeepsExclusion(s: State, a: Action)
    requires OneMoves(s, a) && FieldsOk(s) && Exclusion(s)
    ensures Exclusion(Next(s, a))
  {
    hide FieldsOk;
    if a.Lock? && s.pcs[a.t].RRelease? {
      ReaderIsCounted(s, a.t);
    }
    forall i | 0 <= i < |s.pcs| && Entered(s.pcs[i]) ensures s.writerEntered {
      EnteredIsUnique(s, i, i);
    }
  }

  lemma MoveKeepsWriterAwaited(s: State, a: Action)
    requires OneMoves(s, a) && FieldsOk(s) && MutexOk(s) && WriterAwaited(s)
    ensures WriterAwaited(Next(s, a))
  {
    hide FieldsOk, Somewhere, MutexOk;
    MoveIsOne(s, a);
    var s' := Next(s, a);
    StillSomewhere(s, a.t, s'.pcs[a.t], WSleepDrain);
    StillSomewhere(s, a.t, s'.pcs[a.t], RReleasing);
    SamePlaces(s', At(s, a.t, s'.pcs[a.t]));
    if a.Test? && s.pcs[a.t].RTest? {
      CountFits(s);
    }
  }

  lemma CountFits(s: State)
    requires FieldsOk(s)
    ensures s.readerCount <= MAX_READERS
  {
  }

  lemma MoveKeepsEntryAwaited(s: State, a: Action)
    requires OneMoves(s, a) && EntryAwaited(s)
    ensures EntryAwaited(Next(s, a))
  {
    hide Somewhere;
    MoveIsOne(s, a);
    var s' := Next(s, a);
    StillSomewhere(s, a.t, s'.pcs[a.t], WSleep);
    StillSomewhere(s, a.t, s'.pcs[a.t], WReleasing);
    SamePlaces(s', At(s, a.t, s'.pcs[a.t]));
  }

  lemma MoveKeepsInv(s: State, a: Action)
    requires OneMoves(s, a) && Inv(s)
    ensures Inv(Next(s, a))
  {
    hide MutexOk, OwnerExists, FieldsOk, Exclusion, WriterAwaited, EntryAwaited, Next, Enabled;
    MoveKeepsMutex(s, a);
    MoveKeepsFields(s, a);
    MoveKeepsExclusion(s, a);
    MoveKeepsWriterAwaited(s, a);
    MoveKeepsEntryAwaited(s, a);
  }

  // ---------------------------------------------------------------- the notifications

  lemma NotifyAllKeepsFields(s: State, t: nat)
    requires Enabled(s, NotifyAll(t)) && FieldsOk(s)
    ensures FieldsOk(Next(s, NotifyAll(t)))
  {
    var woken := WakeAll(s.pcs);
    CountSame(s.pcs, woken, Reading);
    CountSame(s.pcs, woken, Entered);
    CountUpdate(woken, t, Idle, Reading);
    CountUpdate(woken, t, Idle, Entered);
  }

  lemma NotifyAllKeepsPlaces(s: State, t: nat)
    requires Enabled(s, NotifyAll(t)) && MutexOk(s) && OwnerExists(s) && Exclusion(s)
    ensures var s' := Next(s, NotifyAll(t));
      MutexOk(s') && OwnerExists(s') && Exclusion(s') && !Somewhere(s', WSleep)
  {
  }

  lemma NotifyAllKeepsAwaited(s: State, t: nat)
    requires Enabled(s, NotifyAll(t)) && WriterAwaited(s)
    ensures WriterAwaited(Next(s, NotifyAll(t)))
  {
    var s' := Next(s, NotifyAll(t));
    if Somewhere(s', WSleepDrain) {
      var i :| 0 <= i < |s'.pcs| && s'.pcs[i] == WSleepDrain;
      assert s.pcs[i] == WSleepDrain;
      if s.readerCount == 0 {
        var j :| 0 <= j < |s.pcs| && s.pcs[j] == RReleasing;
        assert s'.pcs[j] == RReleasing;
      }
    }
  }

  lemma NotifyAllKeepsInv(s: State, t: nat)
    requires Enabled(s, NotifyAll(t)) && Inv(s)
    ensures Inv(Next(s, NotifyAll(t)))
  {
    hide Next, Enabled, MutexOk, OwnerExists, FieldsOk, Exclusion, WriterAwaited, Somewhere;
    NotifyAllKeepsFields(s, t);
    NotifyAllKeepsPlaces(s, t);
    NotifyAllKeepsAwaited(s, t);
  }

  /** The waking half of notify_one. */
  lemma WakeKeepsCounts(s: State, u: nat)
    requires u < |s.pcs|
    ensures Count(s.pcs[u := Wake(s.pcs[u])], Reading) == Count(s.pcs, Reading)
    ensures Count(s.pcs[u := Wake(s.pcs[u])], Entered) == Count(s.pcs, Entered)
  {
    CountUpdate(s.pcs, u, Wake(s.pcs[u]), Reading);
    CountUpdate(s.pcs, u, Wake(s.pcs[u]), Entered);
  }

  lemma NotifyOneKeepsFields(s: State, t: nat, woken: Owner)
    requires Enabled(s, NotifyOne(t, woken)) && FieldsOk(s)
    ensures FieldsOk(Next(s, NotifyOne(t, woken)))
  {
    hide MayWake;
    var mid := if woken.By? && woken.t < |s.pcs| then s.pcs[woken.t := Wake(s.pcs[woken.t])] else s.pcs;
    WakesAThread(s, woken);
    if woken.By? {
      WakeKeepsCounts(s, woken.t);
    }
    assert mid[t] == RReleasing;
    CountUpdate(mid, t, Idle, Reading);
    CountUpdate(mid, t, Idle, Entered);
  }

  lemma WakesAThread(s: State, woken: Owner)
    requires MayWake(s, woken)
    ensures woken.By? ==> woken.t < |s.pcs| && s.pcs[woken.t] != RReleasing
  {
  }

  lemma NotifyOneKeepsPlaces(s: State, t: nat, woken: Owner)
    requires Enabled(s, NotifyOne(t, woken)) && MutexOk(s) && OwnerExists(s) && Exclusion(s)
    ensures var s' := Next(s, NotifyOne(t, woken));
      MutexOk(s') && OwnerExists(s') && Exclusion(s')
  {
  }

  lemma NotifyOneKeepsAwaited(s: State, t: nat, woken: Owner)
    requires Enabled(s, NotifyOne(t, woken)) && Inv(s)
    ensures WriterAwaited(Next(s, NotifyOne(t, woken))) && EntryAwaited(Next(s, NotifyOne(t, woken)))
  {
    var s' := Next(s, NotifyOne(t, woken));
    forall i | 0 <= i < |s'.pcs|
      ensures s'.pcs[i] == s.pcs[i] || (woken == By(i) && s'.pcs[i] == Wake(s.pcs[i])) || i == t
    {
    }
    if Somewhere(s', WSleepDrain) && s.readerCount == 0 {
      var i :| 0 <= i < |s'.pcs| && s'.pcs[i] == WSleepDrain;
      assert s.pcs[i] == WSleepDrain;
      EnteredIsUnique(s, i, i);
      EnteredIsUnique(s, i, woken.t);
      assert false;
    }
    if Somewhere(s', WSleep) {
      var i :| 0 <= i < |s'.pcs| && s'.pcs[i] == WSleep;
      assert s.pcs[i] == WSleep;
    }
  }

  lemma StepKeepsInv(s: State, a: Action)
    requires Inv(s) && Enabled(s, a)
    ensures Inv(Next(s, a))
  {
    hide Inv, Next, Enabled;
    match a
    case NotifyAll(t) => NotifyAllKeepsInv(s, t);
    case NotifyOne(t, woken) => NotifyOneKeepsInv(s, t, woken);
    case _ => MoveKeepsInv(s, a);
  }

  lemma NotifyOneKeepsInv(s: State, t: nat, woken: Owner)
    requires Enabled(s, NotifyOne(t, woken)) && Inv(s)
    ensures Inv(Next(s, NotifyOne(t, woken)))
  {
    hide Next, Enabled, MutexOk, OwnerExists, FieldsOk, Exclusion, WriterAwaited, EntryAwaited;
    NotifyOneKeepsFields(s, t, woken);
    NotifyOneKeepsPlaces(s, t, woken);
    NotifyOneKeepsAwaited(s, t, woken);
  }

  lemma {:induction false} RunKeepsInv(s: State, acts: seq<Action>)
    requires Inv(s) && EnabledRun(s, acts)
    ensures Inv(Run(s, acts)) && |Run(s, acts).pcs| == |s.pcs|
    decreases |acts|
  {
    hide Inv, Next, Enabled;
    if acts != [] {
      StepKeepsInv(s, acts[0]);
      SameThreads(s, acts[0]);
      RunKeepsInv(Next(s, acts[0]), acts[1..]);
    }
  }

  lemma SameThreads(s: State, a: Action)
    requires Enabled(s, a)
    ensures |Next(s, a).pcs| == |s.pcs|
  {
  }
}
