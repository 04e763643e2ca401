/**
 Where the ring stops being a queue for its two sides: at the end of its life, when the capacity test
 wraps; when a process has been refused as a reader; and in the day5 form when a second reader attaches.
 All of it is reached by runs that start at creation.
 */
module SpscLimits {
  import opened Arith64
  import opened SpscRing
  import opened SpscFifo
  import opened SpscCalls

  // ---------------------------------------------------------------- the capacity test wraps

  /**
   Once the reader index that the producer has seen is so large that the capacity test wraps,
   nothing is accepted any more, however empty the queue is.
   */
  lemma {:induction false} JamsForever(s: State, acts: seq<Action>)
    requires Inv(s) && EnabledRun(s, acts) && s.localReader + s.capacity >= TWO_64 && !s.producer.PCopy?
    ensures AcceptedIn(Events(s, acts)) == [] && Run(s, acts).enq == s.enq
    decreases |acts|
  {
    if acts != [] {
      var s' := Next(s, acts[0]);
      StepKeepsInv(s, acts[0]);
      JamStays(s, acts[0]);
      JamsForever(s', acts[1..]);
    }
  }

  lemma JamStays(s: State, a: Action)
    requires Inv(s) && Enabled(s, a) && s.localReader + s.capacity >= TWO_64 && !s.producer.PCopy?
    ensures var s' := Next(s, a);
      && s'.localReader + s'.capacity >= TWO_64 && !s'.producer.PCopy?
      && !EventOf(s, a).Accepted? && s'.enq == s.enq
  {
    hide Inv, TestFull;
    JamIsFull(s, s.localReader);
    if a.LoadReader? {
      JamIsFull(s, a.seen);
    }
  }

  lemma JamIsFull(s: State, seen: u64)
    requires Inv(s) && s.localReader <= seen && s.localReader + s.capacity >= TWO_64
    ensures seen <= s.reader ==> TestFull(s, s.writer, seen)
    ensures s.localReader <= s.reader && (s.producer.PRefresh? ==> s.producer.w == s.writer)
  {
    if seen <= s.reader {
      FullTestExact(s, seen);
    }
  }

  /** Between two calls of either side, with everything consumed and n elements so far. */
  ghost predicate Quiet(s: State, n: nat) {
    && Inv(s) && s.producer.PIdle? && s.consumer.CIdle? && s.connected
    && s.writer == s.reader == n && s.localReader % s.capacity == 0
  }

  lemma FirstAttach(s0: State)
    requires Init(s0)
    ensures Leads(s0, Next(s0, Attach)) && Quiet(Next(s0, Attach), 0)
  {
    InitHasInv(s0);
    StepKeepsInv(s0, Attach);
    LeadsNowhere(s0);
    LeadsThen(s0, s0, Attach);
  }

  /** One element in, the same element out. */
  lemma Round(s0: State, s: State, n: nat, src: Element) returns (s': State)
    requires Inv(s0) && Leads(s0, s) && Quiet(s, n) && n + s.capacity < TWO_64 && |src| == s.elementSize
    ensures Leads(s0, s') && Quiet(s', n + 1) && InSlotLies(s', n, src)
    ensures s'.capacity == s.capacity && s'.elementSize == s.elementSize
    ensures s'.enq == s.enq + [src] && s'.deq == s.deq + [src]
  {
    hide Leads;
    var s1 := Enqueue(s0, s, src);
    LeadsKeepsInv(s0, s1);
    var x;
    s', x := Dequeue(s0, s1);
    LeadsKeepsInv(s0, s');
    SlotOfQueued(s1, n, x);
    SameSlots(s1, s');
    if s.writer >= s.localReader + s.capacity {
      NextMultiple(s.localReader, s.capacity);
    }
  }

  lemma NextMultiple(a: nat, c: nat)
    requires c > 0 && a % c == 0
    ensures (a + c) % c == 0
  {
    ModUnique(a + c, c, a / c + 1, 0);
  }

  /** What lies in the slot of a queued element is that element. */
  lemma SlotOfQueued(s: State, i: nat, x: Element)
    requires Inv(s) && s.reader <= i < s.writer && InSlotLies(s, i, x)
    ensures x == s.enq[i]
  {
    assert SlotHolds(s, i);
  }

  lemma {:induction false} Rounds(s0: State, n: nat) returns (s: State)
    requires Init(s0) && n + s0.capacity <= TWO_64
    ensures Leads(s0, s) && Quiet(s, n) && s.capacity == s0.capacity && s.elementSize == s0.elementSize
    decreases n
  {
    hide Leads, Quiet;
    InitHasInv(s0);
    FirstAttach(s0);
    s := Next(s0, Attach);
    if n > 0 {
      var was := Rounds(s0, n - 1);
      s := Round(s0, was, n - 1, seq(s0.elementSize, _ => 0));
    }
  }

  /** Two multiples of c that are less than c apart are equal. */
  lemma NearMultiples(a: nat, b: nat, c: nat)
    requires c > 0 && a % c == 0 && b % c == 0 && a <= b < a + c
    ensures a == b
  {
    var q := a / c;
    assert a == q * c;
    ModUnique(b, c, q, b - a);
  }

  /**
   From creation on, 2^64 - capacity elements can be accepted and delivered, one at a time; then the
   queue is empty, the producer has loaded that reader index, and no run accepts anything any more.
   */
  lemma JamIsReached(s0: State) returns (acts: seq<Action>)
    requires Init(s0)
    ensures EnabledRun(s0, acts)
    ensures var s := Run(s0, acts);
      && |s.enq| == |s.deq| == TWO_64 - s0.capacity
      && s.connected && s.producer.PIdle? && s.consumer.CIdle?
      && (forall more :: EnabledRun(s, more) ==> AcceptedIn(Events(s, more)) == [])
  {
    InitHasInv(s0);
    Pow2Divides(s0.capacity);
    var n: nat := TWO_64 - s0.capacity;
    var s := Rounds(s0, n);
    if s.localReader < n {
      s := LastRefusal(s0, s, n);
    }
    LeadsKeepsInv(s0, s);
    acts :| EnabledRun(s0, acts) && Run(s0, acts) == s;
    forall more | EnabledRun(s, more) ensures AcceptedIn(Events(s, more)) == [] {
      JamsForever(s, more);
    }
  }

  /** The enqueue that loads the fatal reader index is itself refused. */
  lemma LastRefusal(s0: State, s: State, n: nat) returns (s': State)
    requires Inv(s0) && Leads(s0, s) && Quiet(s, n) && n + s.capacity == TWO_64 && s.localReader < n
    ensures Leads(s0, s') && Quiet(s', n) && s'.localReader == n && s'.capacity == s.capacity
  {
    Pow2Divides(s.capacity);
    ModUnique(n, s.capacity, TWO_64 / s.capacity - 1, 0);
    if n < s.localReader + s.capacity {
      NearMultiples(s.localReader, n, s.capacity);
    }
    var src: Element := seq(s.elementSize, _ => 0);
    hide Leads;
    LeadsThen(s0, s, StartEnqueue(src));
    var s1 := Next(s, StartEnqueue(src));
    LeadsThen(s0, s1, LoadFlag);
    var s2 := Next(s1, LoadFlag);
    LeadsThen(s0, s2, TestCachedReader);
    var s3 := Next(s2, TestCachedReader);
    LeadsThen(s0, s3, LoadReader(s.reader));
    s' := Next(s3, LoadReader(s.reader));
    LeadsKeepsInv(s0, s');
  }

  // ---------------------------------------------------------------- refused readers

  /** Has a reader been refused since the last one was attached (or, before that, `was`)? */
  ghost predicate RefusedSinceAttach(acts: seq<Action>, was: bool) {
    if acts == [] then was
    else RefusedSinceAttach(acts[1..], if acts[0].Attach? then false else was || acts[0].Refuse?)
  }

  /** The flag is right about the reader that is there, but for refusals. */
  ghost predicate FlagOk(s: State, refused: bool) {
    !s.consumer.CGone? ==> (s.connected <==> !refused)
  }

  lemma {:induction false} FlagIsKept(s: State, acts: seq<Action>, was: bool)
    requires EnabledRun(s, acts) && FlagOk(s, was)
    ensures FlagOk(Run(s, acts), RefusedSinceAttach(acts, was))
    decreases |acts|
  {
    if acts != [] {
      var a := acts[0];
      FlagStep(s, a, was);
      FlagIsKept(Next(s, a), acts[1..], if a.Attach? then false else was || a.Refuse?);
    }
  }

  lemma FlagStep(s: State, a: Action, was: bool)
    requires Enabled(s, a) && FlagOk(s, was)
    ensures FlagOk(Next(s, a), if a.Attach? then false else was || a.Refuse?)
  {
  }

  /**
   In every reachable state with a reader there, the reader is connected, and an enqueue gets past the
   flag, exactly when no process has been refused as a reader since that reader was attached.
   */
  lemma ReaderStaysConnectedIff(s0: State, acts: seq<Action>)
    requires Init(s0) && EnabledRun(s0, acts) && !Run(s0, acts).consumer.CGone?
    ensures var s := Run(s0, acts);
      && (s.connected <==> !RefusedSinceAttach(acts, false))
      && (s.producer.PFlag? ==> (EventOf(s, LoadFlag) == RefusedNoClient <==> RefusedSinceAttach(acts, false)))
  {
    FlagIsKept(s0, acts, false);
  }

  /** Until the next attach nothing gets past the flag. */
  lemma {:induction false} NothingWithoutFlag(s: State, acts: seq<Action>)
    requires !s.connected && (s.producer.PIdle? || s.producer.PFlag?)
    requires EnabledRun(s, acts) && Attach !in acts
    ensures AcceptedIn(Events(s, acts)) == [] && Run(s, acts).enq == s.enq
    decreases |acts|
  {
    if acts != [] {
      assert acts[0] in acts;
      NothingWithoutFlag(Next(s, acts[0]), acts[1..]);
    }
  }

  /**
   And it comes to that: a reader is there, the queue is empty, another process is refused, and from then
   on, until some reader attaches, no element is accepted. The first enqueue is told that there is no client.
   */
  lemma ReaderIsCutOff(s0: State, x: Element) returns (acts: seq<Action>)
    requires Init(s0) && |x| == s0.elementSize
    ensures EnabledRun(s0, acts) && Events(s0, acts) == [Attached, ReaderRefused, Internal, RefusedNoClient]
    ensures var s := Run(s0, acts);
      && s.consumer.CIdle? && s.producer.PIdle? && s.enq == s.deq == []
      && (forall more :: EnabledRun(s, more) && Attach !in more ==> AcceptedIn(Events(s, more)) == [])
  {
    var s1 := Next(s0, Attach);
    var s2 := Next(s1, Refuse);
    var s3 := Next(s2, StartEnqueue(x));
    assert EnabledRun(s0, []);
    RunThen(s0, [], Attach);
    RunThen(s0, [Attach], Refuse);
    RunThen(s0, [Attach, Refuse], StartEnqueue(x));
    RunThen(s0, [Attach, Refuse, StartEnqueue(x)], LoadFlag);
    acts := [Attach, Refuse, StartEnqueue(x), LoadFlag];
    assert acts == [Attach, Refuse, StartEnqueue(x)] + [LoadFlag];
    var s := Run(s0, acts);
    forall more | EnabledRun(s, more) && Attach !in more ensures AcceptedIn(Events(s, more)) == [] {
      NothingWithoutFlag(s, more);
    }
  }

  // ---------------------------------------------------------------- the day5 attach

  /** The day5 reader also resets both reader indices when it attaches. */
  ghost function AttachWithReset(s: State): State {
    s.(connected := true, consumer := CIdle, localReader := 0, reader := 0)
  }

  /** After a reset any number of elements up to the writer index can be taken out, queued or not. */
  lemma {:induction false} Redeliver(s: State, n: nat) returns (s': State)
    requires Configured(s) && s.capacity > 0 && s.consumer.CIdle?
    requires s.reader == 0 && n <= s.writer && s.localWriter <= s.writer
    ensures Leads(s, s') && s'.localWriter <= s.writer && |s'.deq| == |s.deq| + n
    ensures s' == s.(localWriter := s'.localWriter, reader := n, deq := s'.deq)
    decreases n
  {
    hide Leads;
    if n == 0 {
      LeadsNowhere(s);
      s' := s;
    } else {
      var was := Redeliver(s, n - 1);
      var x;
      s', x := Dequeue(s, was);
    }
  }

  /** Every history that follows is one of the queue that the reader finds. */
  ghost predicate HarmlessReset(s: State)
    requires Inv(s)
  {
    forall acts :: EnabledRun(AttachWithReset(s), acts) ==>
      Legal(s.capacity, View(s).(client := true), Events(AttachWithReset(s), acts), false)
  }

  /** The reset is harmless exactly when nothing has been consumed. */
  lemma ResetHarmlessIff(s: State)
    requires Inv(s) && s.consumer.CGone?
    ensures HarmlessReset(s) <==> s.reader == 0
  {
    if s.reader == 0 {
      assert AttachWithReset(s) == Next(s, Attach);
      StepKeepsInv(s, Attach);
      forall acts | EnabledRun(AttachWithReset(s), acts)
        ensures Legal(s.capacity, View(s).(client := true), Events(AttachWithReset(s), acts), false)
      {
        RunRefinesFifo(Next(s, Attach), acts);
        LegalWeakens(s.capacity, View(Next(s, Attach)), Events(Next(s, Attach), acts), FreshRun(Next(s, Attach), acts));
      }
    } else {
      OneTooMany(s);
    }
  }

  /** A reader that resets the indices can be given more elements than are queued. */
  lemma OneTooMany(s: State)
    requires Inv(s) && s.consumer.CGone? && s.reader > 0
    ensures !HarmlessReset(s)
  {
    var r := AttachWithReset(s);
    var n := |View(s).items| + 1;
    var s' := Redeliver(r, n);
    var acts :| EnabledRun(r, acts) && Run(r, acts) == s';
    var es := Events(r, acts);
    HistoryIsEvents(r, acts);
    assert |DeliveredIn(es)| == n && AcceptedIn(es) == [];
    if Legal(s.capacity, View(s).(client := true), es, false) {
      FifoConserves(s.capacity, View(s).(client := true), es, false);
    }
  }

  /**
   And it comes to that: an element goes through the queue, the reader goes away, and the next one
   is given the same element again.
   */
  lemma DeliveredTwice(s0: State, x: Element) returns (acts: seq<Action>, more: seq<Action>)
    requires Init(s0) && |x| == s0.elementSize
    ensures EnabledRun(s0, acts)
    ensures var s := Run(s0, acts);
      && s.consumer.CGone? && Inv(s) && !HarmlessReset(s)
      && EnabledRun(AttachWithReset(s), more)
      && Run(AttachWithReset(s), more).enq == [x] && Run(AttachWithReset(s), more).deq == [x, x]
  {
    InitHasInv(s0);
    Pow2Divides(s0.capacity);
    FirstAttach(s0);
    var s1 := Round(s0, Next(s0, Attach), 0, x);
    LeadsThen(s0, s1, Crash);
    var s := Next(s1, Crash);
    LeadsKeepsInv(s0, s);
    ResetHarmlessIff(s);
    acts :| EnabledRun(s0, acts) && Run(s0, acts) == s;
    var r := AttachWithReset(s);
    LeadsNowhere(r);
    var s', y := Dequeue(r, r);
    SameSlots(s1, r);
    assert y == x;
    more :| EnabledRun(r, more) && Run(r, more) == s';
  }

  /** Before the first attach nothing is accepted, so the first reset changes nothing. */
  lemma {:induction false} NothingBeforeFirstAttach(s: State, acts: seq<Action>)
    requires Inv(s) && !s.connected && s.consumer.CGone? && s.writer == 0
    requires s.producer.PIdle? || s.producer.PFlag?
    requires EnabledRun(s, acts) && Attach !in acts
    ensures var s' := Run(s, acts);
      && s'.consumer.CGone? && s'.reader == s'.writer == 0 && AttachWithReset(s') == Next(s', Attach)
    decreases |acts|
  {
    if acts == [] {
    } else {
      StepKeepsInv(s, acts[0]);
      assert acts[0] in acts;
      NothingBeforeFirstAttach(Next(s, acts[0]), acts[1..]);
    }
  }
}
