/**
 The latch object and the threads that call it. Each method is one stretch of code that runs with
 the mutex held; `Execute` runs the threads in the order of any schedule. What it does is a run of
 the state machine of RwLatch.
 */
module RwLatchObject {
  import opened RwLatch
  import opened RwLatchProgress

  /** Who goes next; what an idle thread asks for, and whether a sleeper wakes up by itself. */
  datatype Turn = Turn(t: nat, write: bool, spurious: bool)

  class ReaderWriterLatch {
    var readerCount: u32
    var writerEntered: bool
    var mutex: Owner
    var pcs: seq<Pc>

    ghost function View(): State
      reads this
    {
      State(pcs, mutex, readerCount, writerEntered)
    }

    ghost predicate Valid()
      reads this
    {
      Inv(View())
    }

    constructor (threads: nat)
      ensures Valid() && Init(View()) && |pcs| == threads
    {
      readerCount, writerEntered, mutex := 0, false, Free;
      pcs := seq(threads, _ => Idle);
      new;
      InitHasInv(View());
    }

    /** Take the mutex; an unlocking call makes its first assignment. */
    method Acquire(t: nat)
      requires Valid() && Enabled(View(), Lock(t))
      modifies this
      ensures Valid() && View() == Next(old(View()), Lock(t))
    {
      hide Inv;
      StepKeepsInv(View(), Lock(t));
      mutex := By(t);
      var p := pcs[t];
      if p.WRelease? {
        writerEntered := false;
        pcs := pcs[t := WReleasing];
      } else if p.RRelease? {
        readerCount := (readerCount + 0xFFFF_FFFF) % 0x1_0000_0000;
        pcs := pcs[t := RReleasing];
      } else {
        pcs := pcs[t := if p.WWokenDrain? then WDrain else if p.RWant? || p.RWoken? then RTest else WTest];
      }
    }

    /** The first loop of WLock, once around. */
    method WLockEnter(t: nat)
      requires Valid() && t < |pcs| && pcs[t].WTest?
      modifies this
      ensures Valid() && View() == Next(old(View()), Test(t))
    {
      hide Inv;
      StepKeepsInv(View(), Test(t));
      if writerEntered {
        pcs, mutex := pcs[t := WSleep], Free;
      } else {
        writerEntered := true;
        pcs := pcs[t := WDrain];
      }
    }

    /** The second loop of WLock, once around. */
    method WLockDrain(t: nat)
      requires Valid() && t < |pcs| && pcs[t].WDrain?
      modifies this
      ensures Valid() && View() == Next(old(View()), Test(t))
    {
      hide Inv;
      StepKeepsInv(View(), Test(t));
      if readerCount > 0 {
        pcs := pcs[t := WSleepDrain];
      } else {
        pcs := pcs[t := WHold];
      }
      mutex := Free;
    }

    /** The loop of RLock, once around. */
    method RLockEnter(t: nat)
      requires Valid() && t < |pcs| && pcs[t].RTest?
      modifies this
      ensures Valid() && View() == Next(old(View()), Test(t))
    {
      hide Inv;
      StepKeepsInv(View(), Test(t));
      if writerEntered || readerCount == MAX_READERS {
        pcs := pcs[t := RSleep];
      } else {
        readerCount := (readerCount + 1) % 0x1_0000_0000;
        pcs := pcs[t := RHold];
      }
      mutex := Free;
    }

    /** The end of WUnlock: notify_all goes through the sleepers. */
    method WUnlockNotify(t: nat)
      requires Valid() && t < |pcs| && pcs[t].WReleasing?
      modifies this
      ensures Valid() && View() == Next(old(View()), NotifyAll(t))
    {
      hide Inv;
      StepKeepsInv(View(), NotifyAll(t));
      ghost var before := pcs;
      var i := 0;
      while i < |pcs|
        modifies this`pcs
        invariant i <= |pcs| == |before|
        invariant forall k | 0 <= k < i :: pcs[k] == WakeAll(before)[k]
        invariant forall k | i <= k < |pcs| :: pcs[k] == before[k]
      {
        if OnReader(pcs[i]) {
          pcs := pcs[i := Wake(pcs[i])];
        }
        i := i + 1;
      }
      assert pcs == WakeAll(before);
      pcs, mutex := pcs[t := Idle], Free;
    }

    /** The end of RUnlock: the two tests, and notify_one if they say so. */
    method RUnlockNotify(t: nat) returns (woken: Owner)
      requires Valid() && t < |pcs| && pcs[t].RReleasing?
      modifies this
      ensures Enabled(old(View()), NotifyOne(t, woken))
      ensures Valid() && View() == Next(old(View()), NotifyOne(t, woken))
    {
      woken := Free;
      if writerEntered {
        if readerCount == 0 {
          woken := FindSleeper(true);
        }
      } else if readerCount == MAX_READERS - 1 {
        woken := FindSleeper(false);
      }
      hide Inv;
      StepKeepsInv(View(), NotifyOne(t, woken));
      if woken.By? {
        pcs := pcs[woken.t := Wake(pcs[woken.t])];
      }
      pcs, mutex := pcs[t := Idle], Free;
    }

    /** Some sleeper of the condition variable writer_ (or reader_), if there is one. */
    method FindSleeper(onWriter: bool) returns (u: Owner)
      ensures u.By? ==> u.t < |pcs| && (if onWriter then OnWriter(pcs[u.t]) else OnReader(pcs[u.t]))
      ensures u.Free? ==> forall i | 0 <= i < |pcs| :: !(if onWriter then OnWriter(pcs[i]) else OnReader(pcs[i]))
    {
      if i :| 0 <= i < |pcs| && (if onWriter then OnWriter(pcs[i]) else OnReader(pcs[i])) {
        u := By(i);
      } else {
        u := Free;
      }
    }

    /** A thread outside the critical sections: calls, unlocks, wakes up by itself. */
    method Outside(a: Action)
      requires Valid() && Enabled(View(), a) && (a.CallWLock? || a.CallRLock? || a.CallUnlock? || a.Spurious?)
      modifies this
      ensures Valid() && View() == Next(old(View()), a)
    {
      hide Inv;
      StepKeepsInv(View(), a);
      var p := pcs[a.t];
      pcs := pcs[a.t := if p.WHold? then WRelease else if p.RHold? then RRelease
                        else if a.CallWLock? then WWant else if a.CallRLock? then RWant else Wake(p)];
    }

    /** One turn of a thread; it may have to wait. */
    method TakeTurn(turn: Turn) returns (ghost acts: seq<Action>)
      requires Valid()
      modifies this
      ensures Takes(old(View()), turn, acts)
      ensures Valid() && EnabledRun(old(View()), acts) && Run(old(View()), acts) == View()
    {
      acts := [];
      var t := turn.t;
      if t >= |pcs| {
        return;
      }
      ghost var s := View();
      var p := pcs[t];
      if OwnsMutex(p) {
        if p.WTest? {
          WLockEnter(t);
          acts := [Test(t)];
        } else if p.WDrain? {
          WLockDrain(t);
          acts := [Test(t)];
        } else if p.RTest? {
          RLockEnter(t);
          acts := [Test(t)];
        } else if p.WReleasing? {
          WUnlockNotify(t);
          acts := [NotifyAll(t)];
        } else {
          var woken := RUnlockNotify(t);
          acts := [NotifyOne(t, woken)];
        }
      } else if WantsMutex(p) {
        if mutex.Free? {
          Acquire(t);
          acts := [Lock(t)];
        }
      } else if p.Idle? || p.WHold? || p.RHold? || turn.spurious {
        var a := if p.Idle? then (if turn.write then CallWLock(t) else CallRLock(t))
                 else if p.WHold? || p.RHold? then CallUnlock(t) else Spurious(t);
        Outside(a);
        acts := [a];
      }
      assert |acts| <= 1 && (acts != [] ==> acts[1..] == []);
    }

    /** The threads take turns as the schedule says; `states` and `steps` tell what each turn did. */
    method Execute(schedule: seq<Turn>) returns (ghost states: seq<State>, ghost steps: seq<seq<Action>>)
      requires Valid()
      modifies this
      ensures |steps| == |schedule| && |states| == |schedule| + 1
      ensures states[0] == old(View()) && states[|schedule|] == View()
      ensures forall i | 0 <= i < |schedule| :: TurnTaken(states[i], schedule[i], steps[i], states[i + 1])
      ensures Valid() && EnabledRun(old(View()), Flat(steps)) && Run(old(View()), Flat(steps)) == View()
    {
      hide *;
      states, steps := [View()], [];
      NoSteps(View());
      var i := 0;
      while i < |schedule|
        invariant i <= |schedule| && |steps| == i && |states| == i + 1
        invariant states[0] == old(View()) && states[i] == View()
        invariant forall k | 0 <= k < i :: TurnTaken(states[k], schedule[k], steps[k], states[k + 1])
        invariant Valid() && EnabledRun(old(View()), Flat(steps)) && Run(old(View()), Flat(steps)) == View()
      {
        ghost var more := TakeTurn(schedule[i]);
        RunConcat(old(View()), Flat(steps), more);
        FlatMore(steps, more);
        TurnWasTaken(states[i], schedule[i], more, View());
        states, steps := states + [View()], steps + [more];
        i := i + 1;
      }
    }
  }

  /** What a turn does: one step of the thread unless it has to wait. */
  ghost predicate Takes(s: State, turn: Turn, acts: seq<Action>) {
    var t := turn.t;
    if t >= |s.pcs| then
      acts == []
    else if s.pcs[t].Idle? then
      acts == [if turn.write then CallWLock(t) else CallRLock(t)]
    else if s.pcs[t].WHold? || s.pcs[t].RHold? then
      acts == [CallUnlock(t)]
    else if WantsMutex(s.pcs[t]) then
      acts == if s.mutex.Free? then [Lock(t)] else []
    else if OnReader(s.pcs[t]) || OnWriter(s.pcs[t]) then
      acts == if turn.spurious then [Spurious(t)] else []
    else
      |acts| == 1 && (acts[0].Test? || acts[0].NotifyAll? || acts[0].NotifyOne?) && acts[0].t == t
  }

  /** A turn of a thread passes without a step exactly when the thread waits. */
  lemma TurnIsIdleIff(s: State, turn: Turn, acts: seq<Action>)
    requires turn.t < |s.pcs| && Takes(s, turn, acts)
    ensures |acts| <= 1 && (acts != [] ==> acts[0].t == turn.t)
    ensures
      acts == [] <==>
        var p := s.pcs[turn.t];
        || ((p.WSleep? || p.RSleep? || p.WSleepDrain?) && !turn.spurious)
        || ((p.WWant? || p.WWoken? || p.WWokenDrain? || p.WRelease? || p.RWant? || p.RWoken? || p.RRelease?)
            && s.mutex.By?)
  {
  }

  ghost predicate TurnTaken(s: State, turn: Turn, acts: seq<Action>, s': State) {
    Takes(s, turn, acts) && EnabledRun(s, acts) && Run(s, acts) == s'
  }

  lemma TurnWasTaken(s: State, turn: Turn, acts: seq<Action>, s': State)
    requires Takes(s, turn, acts) && EnabledRun(s, acts) && Run(s, acts) == s'
    ensures TurnTaken(s, turn, acts, s')
  {
    hide Takes, EnabledRun, Run;
  }

  ghost function Flat(steps: seq<seq<Action>>): seq<Action> {
    if steps == [] then [] else Flat(steps[..|steps| - 1]) + steps[|steps| - 1]
  }

  lemma FlatMore(steps: seq<seq<Action>>, more: seq<Action>)
    ensures Flat(steps + [more]) == Flat(steps) + more
  {
    assert (steps + [more])[..|steps|] == steps;
  }

  lemma NoSteps(s: State)
    ensures EnabledRun(s, []) && Run(s, []) == s && Flat([]) == []
  {
  }
}
