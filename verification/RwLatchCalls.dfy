/**
 The latch as its callers see it: what a thread that has called WLock, RLock or an unlock may rely
 on, in every run of the state machine, and how one such call goes from its beginning to its end.
 */
module RwLatchCalls {
  import opened RwLatch
  import opened RwLatchProgress

  /** A call of WLock or RLock by the thread has returned, and the thread has not unlocked since. */
  ghost predicate Holds(s: State, t: nat) {
    Enabled(s, CallUnlock(t))
  }

  /** The thread's last call begins at position k of the run. */
  predicate LastCallAt(acts: seq<Action>, k: nat, t: nat) {
    && k < |acts| && CallBy(acts[k], t)
    && NoCalls(acts[k + 1..], t)
  }

  predicate CallBy(a: Action, t: nat) {
    a == CallWLock(t) || a == CallRLock(t) || a == CallUnlock(t)
  }

  predicate NoCalls(acts: seq<Action>, t: nat) {
    forall a <- acts :: !CallBy(a, t)
  }

  predicate InWLock(p: Pc) {
    p.WWant? || p.WTest? || p.WSleep? || p.WWoken? || p.WDrain? || p.WSleepDrain? || p.WWokenDrain? || p.WHold?
  }

  predicate InRLock(p: Pc) { p.RWant? || p.RTest? || p.RSleep? || p.RWoken? || p.RHold? }

  predicate InUnlock(p: Pc) { p.WRelease? || p.WReleasing? || p.RRelease? || p.RReleasing? || p.Idle? }

  lemma StepStaysInCall(s: State, a: Action, t: nat)
    requires t < |s.pcs| && Enabled(s, a) && !CallBy(a, t)
    ensures var p, q := s.pcs[t], Next(s, a).pcs[t];
      && (InWLock(p) ==> InWLock(q))
      && (InRLock(p) ==> InRLock(q))
      && (InUnlock(p) ==> InUnlock(q))
  {
    hide MayWake;
    if a.NotifyOne? {
      WakesAThread(s, a.woken);
    }
  }

  /** Until its next call a thread stays in the call it is in, or behind it. */
  lemma {:induction false} StaysInCall(s: State, acts: seq<Action>, t: nat)
    requires t < |s.pcs| && EnabledRun(s, acts) && NoCalls(acts, t)
    ensures |Run(s, acts).pcs| == |s.pcs|
    ensures var p, q := s.pcs[t], Run(s, acts).pcs[t];
      && (InWLock(p) ==> InWLock(q))
      && (InRLock(p) ==> InRLock(q))
      && (InUnlock(p) ==> InUnlock(q))
    decreases |acts|
  {
    hide Next, Enabled, InWLock, InRLock, InUnlock;
    if acts != [] {
      SameThreads(s, acts[0]);
      assert !CallBy(acts[0], t);
      StepStaysInCall(s, acts[0], t);
      StaysInCall(Next(s, acts[0]), acts[1..], t);
    }
  }

  /** A run up to position k and from there on. */
  lemma {:induction false} RunSplit(s: State, acts: seq<Action>, k: nat)
    requires EnabledRun(s, acts) && k <= |acts|
    ensures EnabledRun(s, acts[..k]) && EnabledRun(Run(s, acts[..k]), acts[k..])
    ensures Run(s, acts) == Run(Run(s, acts[..k]), acts[k..])
    decreases k
  {
    hide Next, Enabled;
    if k > 0 {
      assert acts[..k][0] == acts[0] && acts[..k][1..] == acts[1..][..k - 1] && acts[1..][k - 1..] == acts[k..];
      RunSplit(Next(s, acts[0]), acts[1..], k - 1);
    } else {
      assert acts[0..] == acts;
    }
  }

  lemma CallBegins(s: State, a: Action, t: nat)
    requires CallBy(a, t) && Enabled(s, a)
    ensures t < |s.pcs| && |Next(s, a).pcs| == |s.pcs|
    ensures var q := Next(s, a).pcs[t];
      && (a.CallWLock? ==> InWLock(q))
      && (a.CallRLock? ==> InRLock(q))
      && (a.CallUnlock? ==> InUnlock(q))
  {
  }

  /** Where a thread is after its last call. */
  lemma AfterTheCall(s0: State, acts: seq<Action>, k: nat, t: nat)
    requires EnabledRun(s0, acts) && LastCallAt(acts, k, t)
    ensures t < |Run(s0, acts).pcs|
    ensures var q := Run(s0, acts).pcs[t];
      && (acts[k] == CallWLock(t) ==> InWLock(q))
      && (acts[k] == CallRLock(t) ==> InRLock(q))
      && (acts[k] == CallUnlock(t) ==> InUnlock(q))
  {
    hide Next, Enabled, InWLock, InRLock, InUnlock;
    RunSplit(s0, acts, k);
    var m := Run(s0, acts[..k]);
    assert acts[k..][0] == acts[k] && acts[k..][1..] == acts[k + 1..];
    CallBegins(m, acts[k], t);
    StaysInCall(Next(m, acts[k]), acts[k + 1..], t);
  }

  /**
   A thread whose last call was WLock has, once the call has returned, the latch for itself: it has
   entered as writer, no reader is counted, and no other thread holds the latch in any way.
   */
  lemma WriterIsAlone(s0: State, acts: seq<Action>, k: nat, i: nat, j: nat)
    requires Init(s0) && EnabledRun(s0, acts) && LastCallAt(acts, k, i) && acts[k] == CallWLock(i)
    ensures var s := Run(s0, acts);
      Holds(s, i) ==> s.writerEntered && s.readerCount == 0 && (Holds(s, j) ==> j == i)
  {
    hide EnabledRun, Run, LastCallAt;
    AfterTheCall(s0, acts, k, i);
    InitHasInv(s0);
    RunKeepsInv(s0, acts);
    var s := Run(s0, acts);
    if Holds(s, i) {
      EnteredIsUnique(s, i, i);
      if Holds(s, j) {
        WriterExcludes(s, i, j);
      }
    }
  }

  lemma WriterExcludes(s: State, i: nat, j: nat)
    requires FieldsOk(s) && Exclusion(s) && i < |s.pcs| && s.pcs[i].WHold? && Holds(s, j)
    ensures j == i
  {
    if s.pcs[j].WHold? {
      EnteredIsUnique(s, i, j);
    } else {
      ReaderIsCounted(s, j);
    }
  }

  /**
   A thread whose last call was RLock never has the latch as a writer; once the call has returned it
   is counted, and every other holder is there by RLock as well.
   */
  lemma ReadersShare(s0: State, acts: seq<Action>, k: nat, i: nat, m: nat, j: nat)
    requires Init(s0) && EnabledRun(s0, acts) && LastCallAt(acts, k, i) && acts[k] == CallRLock(i)
    requires LastCallAt(acts, m, j)
    ensures var s := Run(s0, acts);
      && i < |s.pcs| && !Entered(s.pcs[i])
      && (Holds(s, i) ==> s.readerCount > 0)
      && (Holds(s, i) && Holds(s, j) ==> acts[m] == CallRLock(j))
  {
    hide EnabledRun, Run, NoCalls;
    AfterTheCall(s0, acts, k, i);
    AfterTheCall(s0, acts, m, j);
    InitHasInv(s0);
    RunKeepsInv(s0, acts);
    var s := Run(s0, acts);
    if Holds(s, i) {
      ReaderIsCounted(s, i);
      if Holds(s, j) && acts[m] == CallWLock(j) {
        WriterExcludes(s, j, i);
      }
    }
  }

  /** A thread whose last call was an unlock holds nothing. */
  lemma UnlockedHoldsNothing(s0: State, acts: seq<Action>, k: nat, t: nat)
    requires EnabledRun(s0, acts) && LastCallAt(acts, k, t) && acts[k] == CallUnlock(t)
    ensures !Holds(Run(s0, acts), t)
  {
    AfterTheCall(s0, acts, k, t);
  }

  // ---------------------------------------------------------------- one call from beginning to end

  lemma FourSteps(s: State, a: Action, b: Action, c: Action, d: Action)
    requires Enabled(s, a) && Enabled(Next(s, a), b) && Enabled(Next(Next(s, a), b), c)
    requires Enabled(Next(Next(Next(s, a), b), c), d)
    ensures EnabledRun(s, [a, b, c, d]) && Run(s, [a, b, c, d]) == Next(Next(Next(Next(s, a), b), c), d)
  {
    hide Next, Enabled;
    ThreeSteps(Next(s, a), b, c, d);
    assert [a, b, c, d][1..] == [b, c, d];
  }

  /** A thread with nothing to do can call, and it can take the mutex whenever that is free. */
  lemma CallAndLock(s: State, t: nat, write: bool)
    requires t < |s.pcs| && s.pcs[t] == Idle && s.mutex.Free?
    ensures var call := if write then CallWLock(t) else CallRLock(t);
      && Enabled(s, call) && Enabled(Next(s, call), Lock(t))
      && Next(Next(s, call), Lock(t)) == At(s, t, if write then WTest else RTest).(mutex := By(t))
  {
  }

  /** WLock on a free latch returns with it; with readers inside it has entered and sleeps on writer_. */
  lemma WriteAttempt(s: State, t: nat)
    requires t < |s.pcs| && s.pcs[t] == Idle && s.mutex.Free? && !s.writerEntered
    ensures var acts := [CallWLock(t), Lock(t), Test(t), Test(t)];
      && EnabledRun(s, acts)
      && Run(s, acts) == At(s, t, if s.readerCount == 0 then WHold else WSleepDrain).(writerEntered := true)
  {
    CallAndLock(s, t, true);
    var s2 := At(s, t, WTest).(mutex := By(t));
    assert Next(s2, Test(t)) == At(s, t, WDrain).(mutex := By(t), writerEntered := true);
    FourSteps(s, CallWLock(t), Lock(t), Test(t), Test(t));
  }

  /** With another writer entered, WLock and RLock both sleep on reader_. */
  lemma EnteredMakesWait(s: State, t: nat)
    requires t < |s.pcs| && s.pcs[t] == Idle && s.mutex.Free? && s.writerEntered
    ensures var acts := [CallWLock(t), Lock(t), Test(t)];
      EnabledRun(s, acts) && Run(s, acts) == At(s, t, WSleep)
    ensures var acts := [CallRLock(t), Lock(t), Test(t)];
      EnabledRun(s, acts) && Run(s, acts) == At(s, t, RSleep)
  {
    CallAndLock(s, t, true);
    CallAndLock(s, t, false);
    ThreeSteps(s, CallWLock(t), Lock(t), Test(t));
    ThreeSteps(s, CallRLock(t), Lock(t), Test(t));
  }

  /** A thread woken on reader_ can try again, and gets in as if it had just called. */
  lemma SecondAttempt(s: State, t: nat)
    requires t < |s.pcs| && s.mutex.Free? && !s.writerEntered && s.readerCount == 0
    ensures s.pcs[t] == RWoken ==>
      EnabledRun(s, [Lock(t), Test(t)]) && Run(s, [Lock(t), Test(t)]) == At(s, t, RHold).(readerCount := 1)
    ensures s.pcs[t] == WWoken ==>
      && EnabledRun(s, [Lock(t), Test(t), Test(t)])
      && Run(s, [Lock(t), Test(t), Test(t)]) == At(s, t, WHold).(writerEntered := true)
  {
    if s.pcs[t] == RWoken {
      assert Next(s, Lock(t)) == At(s, t, RTest).(mutex := By(t));
      TwoSteps(s, Lock(t), Test(t));
    } else if s.pcs[t] == WWoken {
      var s1 := At(s, t, WTest).(mutex := By(t));
      assert Next(s, Lock(t)) == s1;
      assert Next(s1, Test(t)) == At(s, t, WDrain).(mutex := By(t), writerEntered := true);
      ThreeSteps(s, Lock(t), Test(t), Test(t));
    }
  }

  /** The whole of WUnlock: nobody has entered any more, and everybody who slept on reader_ is awake. */
  lemma WriteExit(s: State, t: nat)
    requires t < |s.pcs| && s.pcs[t] == WHold && s.mutex.Free?
    ensures var acts := [CallUnlock(t), Lock(t), NotifyAll(t)];
      EnabledRun(s, acts)
      && var r := Run(s, acts);
      && r.mutex.Free? && !r.writerEntered && r.readerCount == s.readerCount
      && |r.pcs| == |s.pcs| && r.pcs[t] == Idle
      && forall i | 0 <= i < |s.pcs| && i != t ::
           r.pcs[i] == if s.pcs[i] == WSleep then WWoken else if s.pcs[i] == RSleep then RWoken else s.pcs[i]
  {
    hide MayWake, Run, EnabledRun;
    UnlockAndLock(s, t);
    ThreeSteps(s, CallUnlock(t), Lock(t), NotifyAll(t));
  }

  lemma UnlockAndLock(s: State, t: nat)
    requires t < |s.pcs| && s.pcs[t] == WHold && s.mutex.Free?
    ensures Enabled(s, CallUnlock(t)) && Enabled(Next(s, CallUnlock(t)), Lock(t))
    ensures Next(Next(s, CallUnlock(t)), Lock(t)) == At(s, t, WReleasing).(mutex := By(t), writerEntered := false)
  {
  }

  /** The last reader to leave wakes the writer that waits for it, nobody else, and the writer has the latch. */
  lemma LastReaderLeaves(s: State, t: nat, u: nat)
    requires t < |s.pcs| && s.pcs[t] == RHold && u < |s.pcs| && s.pcs[u] == WSleepDrain
    requires s.mutex.Free? && s.writerEntered && s.readerCount == 1
    ensures var acts := [CallUnlock(t), Lock(t), NotifyOne(t, By(u))];
      && EnabledRun(s, acts)
      && Run(s, acts) == At(At(s, t, Idle), u, WWokenDrain).(readerCount := 0)
      && EnabledRun(Run(s, acts), [Lock(u), Test(u)])
      && Run(Run(s, acts), [Lock(u), Test(u)]) == At(At(s, t, Idle), u, WHold).(readerCount := 0)
  {
    ReadExit(s, t, By(u));
    var s3 := At(At(s, t, Idle), u, WWokenDrain).(readerCount := 0);
    assert s3.pcs == s.pcs[u := WWokenDrain][t := Idle];
    var s4 := At(s3, u, WDrain).(mutex := By(u));
    assert Next(s3, Lock(u)) == s4;
    TwoSteps(s3, Lock(u), Test(u));
    assert s4.pcs[u := WHold] == At(At(s, t, Idle), u, WHold).pcs;
  }

  /** RUnlock wakes somebody in two situations only, and in those nobody only if nobody sleeps there. */
  lemma WhoIsWoken(s: State, t: nat, woken: Owner)
    requires Enabled(s, NotifyOne(t, woken))
    ensures woken.By? ==> woken.t < |s.pcs|
    ensures woken.By? && s.writerEntered ==> s.readerCount == 0 && s.pcs[woken.t] == WSleepDrain
    ensures woken.By? && !s.writerEntered ==>
      s.readerCount == 0xFFFF_FFFE && (s.pcs[woken.t] == RSleep || s.pcs[woken.t] == WSleep)
    ensures woken.Free? && s.writerEntered && s.readerCount == 0 ==> WSleepDrain !in s.pcs
    ensures woken.Free? && !s.writerEntered && s.readerCount == 0xFFFF_FFFE ==> RSleep !in s.pcs && WSleep !in s.pcs
  {
  }

  lemma OnlyTheWriterIsWoken(s: State, t: nat, woken: Owner, u: nat)
    requires Inv(s) && Enabled(s, NotifyOne(t, woken)) && s.writerEntered && s.readerCount == 0
    requires u < |s.pcs| && s.pcs[u] == WSleepDrain
    ensures woken == By(u)
  {
    if woken.By? {
      EnteredIsUnique(s, u, woken.t);
    }
  }
}
