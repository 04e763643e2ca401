/** The ring against its specification, a bounded first-in first-out queue. */
module SpscFifo {
  import opened Arith64
  import opened SpscRing

  /** The specification's state: what is queued, how much has been taken, is a client announced. */
  datatype Fifo = Fifo(items: seq<Element>, taken: nat, client: bool)

  function FifoNext(f: Fifo, e: Event): Fifo {
    match e
    case Accepted(x) => f.(items := f.items + [x])
    case Delivered(x) => if f.items == [] then f else f.(items := f.items[1..], taken := f.taken + 1)
    case Attached => f.(client := true)
    case Detached => f.(client := false)
    case ReaderRefused => f.(client := false)
    case _ => f
  }

  /**
   When the specification allows an answer. With old loads (`exact` false) a refusal only says
   that the queue was full or empty as far as the loaded index goes; with fresh loads it is so now.
   The one exception is a queue so far into its life that `reader_idx + capacity` wraps.
   */
  ghost predicate FifoAllows(capacity: nat, f: Fifo, e: Event, exact: bool) {
    match e
    case Accepted(x) => |f.items| < capacity
    case RefusedNoClient => !f.client
    case RefusedFull(seen) =>
      && seen <= f.taken && (exact ==> seen == f.taken)
      && (f.taken + |f.items| == seen + capacity || seen + capacity >= TWO_64)
    case Delivered(x) => f.items != [] && x == f.items[0]
    case FoundEmpty(seen) => seen == f.taken && (exact ==> f.items == [])
    case _ => true
  }

  function FifoAfter(f: Fifo, es: seq<Event>): Fifo
    decreases |es|
  {
    if es == [] then f else FifoAfter(FifoNext(f, es[0]), es[1..])
  }

  ghost predicate Legal(capacity: nat, f: Fifo, es: seq<Event>, exact: bool)
    decreases |es|
  {
    es == [] || (FifoAllows(capacity, f, es[0], exact) && Legal(capacity, FifoNext(f, es[0]), es[1..], exact))
  }

  /** The elements for which try_enqueue returned true, in order. */
  function AcceptedIn(es: seq<Event>): seq<Element> {
    if es == [] then []
    else (if es[0].Accepted? then [es[0].x] else []) + AcceptedIn(es[1..])
  }

  /** The elements for which try_dequeue returned true, in order. */
  function DeliveredIn(es: seq<Event>): seq<Element> {
    if es == [] then []
    else (if es[0].Delivered? then [es[0].x] else []) + DeliveredIn(es[1..])
  }

  /** The abstraction of a ring state. */
  ghost function View(s: State): Fifo
    requires Inv(s)
  {
    Fifo(s.enq[s.reader..], s.reader, s.connected)
  }

  // ---------------------------------------------------------------- refinement

  /** One step of the ring is one event of the specification. */
  ghost predicate Refines(s: State, a: Action) {
    && Inv(s) && Enabled(s, a) && Inv(Next(s, a)) && Next(s, a).capacity == s.capacity
    && FifoAllows(s.capacity, View(s), EventOf(s, a), Fresh(s, a))
    && View(Next(s, a)) == FifoNext(View(s), EventOf(s, a))
  }

  lemma PublishWriterRefines(s: State)
    requires Inv(s) && Enabled(s, PublishWriter) && Inv(Next(s, PublishWriter))
    ensures Refines(s, PublishWriter)
  {
    assert Next(s, PublishWriter).enq[s.reader..] == s.enq[s.reader..] + [s.producer.src];
  }

  lemma PublishReaderRefines(s: State)
    requires Inv(s) && Enabled(s, PublishReader) && Inv(Next(s, PublishReader))
    ensures Refines(s, PublishReader)
  {
    assert s.consumer.dst == s.enq[s.reader];
    assert s.enq[s.reader..][1..] == s.enq[s.reader + 1..];
  }

  lemma LoadReaderRefines(s: State, seen: u64)
    requires Inv(s) && Enabled(s, LoadReader(seen)) && Inv(Next(s, LoadReader(seen)))
    ensures Refines(s, LoadReader(seen))
  {
    FullTestExact(s, seen);
  }

  lemma LoadWriterRefines(s: State, seen: u64)
    requires Inv(s) && Enabled(s, LoadWriter(seen)) && Inv(Next(s, LoadWriter(seen)))
    ensures Refines(s, LoadWriter(seen))
  {
  }

  lemma OtherStepRefines(s: State, a: Action)
    requires Inv(s) && Enabled(s, a) && Inv(Next(s, a))
    requires !a.PublishWriter? && !a.PublishReader? && !a.LoadReader? && !a.LoadWriter?
    ensures Refines(s, a)
  {
    hide Inv;
    var s' := Next(s, a);
    assert s'.enq == s.enq && s'.reader == s.reader;
  }

  lemma StepRefinesFifo(s: State, a: Action)
    requires Inv(s) && Enabled(s, a)
    ensures Refines(s, a)
  {
    hide Inv, Refines, Next;
    StepKeepsInv(s, a);
    match a
    case PublishWriter => PublishWriterRefines(s);
    case PublishReader => PublishReaderRefines(s);
    case LoadReader(seen) => LoadReaderRefines(s, seen);
    case LoadWriter(seen) => LoadWriterRefines(s, seen);
    case _ => OtherStepRefines(s, a);
  }

  /** The capacity test is right exactly while `reader + capacity` does not wrap. */
  lemma FullTestExact(s: State, seen: u64)
    requires Inv(s) && s.localReader <= seen <= s.reader
    ensures TestFull(s, s.writer, seen) <==> (s.writer == seen + s.capacity || seen + s.capacity >= TWO_64)
    ensures (TestFull(s, s.writer, s.reader) <==> |View(s).items| == s.capacity) <==> s.reader + s.capacity < TWO_64
  {
  }

  /**
   Every interleaved run of the two sides, whatever old values their loads return, is a legal
   history of a bounded FIFO queue; each call takes effect at the step that returns its answer.
   */
  lemma {:induction false} RunRefinesFifo(s: State, acts: seq<Action>)
    requires Inv(s) && EnabledRun(s, acts)
    ensures Inv(Run(s, acts))
    ensures Legal(s.capacity, View(s), Events(s, acts), FreshRun(s, acts))
    ensures FifoAfter(View(s), Events(s, acts)) == View(Run(s, acts))
    decreases |acts|
  {
    hide Inv, Next, EventOf, Enabled, FifoAllows, FifoNext;
    if acts != [] {
      var s' := Next(s, acts[0]);
      StepRefinesFifo(s, acts[0]);
      RunRefinesFifo(s', acts[1..]);
      if !FreshRun(s, acts) {
        AllowsWeakens(s.capacity, View(s), EventOf(s, acts[0]));
        LegalWeakens(s.capacity, View(s'), Events(s', acts[1..]), FreshRun(s', acts[1..]));
      }
    }
  }

  lemma AllowsWeakens(capacity: nat, f: Fifo, e: Event)
    ensures FifoAllows(capacity, f, e, true) ==> FifoAllows(capacity, f, e, false)
  {
  }

  lemma {:induction false} LegalWeakens(capacity: nat, f: Fifo, es: seq<Event>, exact: bool)
    requires Legal(capacity, f, es, exact)
    ensures Legal(capacity, f, es, false)
    decreases |es|
  {
    if es != [] {
      LegalWeakens(capacity, FifoNext(f, es[0]), es[1..], exact);
    }
  }

  lemma FifoStepConserves(capacity: nat, f: Fifo, e: Event, exact: bool)
    requires FifoAllows(capacity, f, e, exact) && |f.items| <= capacity
    ensures f.items + AcceptedIn([e]) == DeliveredIn([e]) + FifoNext(f, e).items
    ensures |FifoNext(f, e).items| <= capacity
  {
    assert AcceptedIn([e]) == if e.Accepted? then [e.x] else [];
    assert DeliveredIn([e]) == if e.Delivered? then [e.x] else [];
  }

  /** Conservation in the specification: what went in is what came out, then what is queued. */
  lemma {:induction false} FifoConserves(capacity: nat, f: Fifo, es: seq<Event>, exact: bool)
    requires Legal(capacity, f, es, exact) && |f.items| <= capacity
    ensures f.items + AcceptedIn(es) == DeliveredIn(es) + FifoAfter(f, es).items
    ensures |FifoAfter(f, es).items| <= capacity
    decreases |es|
  {
    if es == [] {
    } else {
      var e, f' := es[0], FifoNext(f, es[0]);
      FifoStepConserves(capacity, f, e, exact);
      FifoConserves(capacity, f', es[1..], exact);
      InOutSplit(es);
      Reassociate(f.items, AcceptedIn([e]), AcceptedIn(es[1..]), DeliveredIn([e]), f'.items,
        DeliveredIn(es[1..]), FifoAfter(f, es).items);
    }
  }

  lemma {:induction false} InOutSplit(es: seq<Event>)
    requires es != []
    ensures AcceptedIn(es) == AcceptedIn([es[0]]) + AcceptedIn(es[1..])
    ensures DeliveredIn(es) == DeliveredIn([es[0]]) + DeliveredIn(es[1..])
  {
    assert [es[0]][1..] == [];
  }

  lemma Reassociate<T>(q: seq<T>, a: seq<T>, ins: seq<T>, d: seq<T>, q': seq<T>, outs: seq<T>, rest: seq<T>)
    requires q + a == d + q' && q' + ins == outs + rest
    ensures q + (a + ins) == (d + outs) + rest
  {
    assert q + (a + ins) == (q + a) + ins;
    assert (d + q') + ins == d + (q' + ins);
    assert d + (outs + rest) == (d + outs) + rest;
  }

  /**
   Linearizability from the start: the elements delivered are, byte for byte, a prefix of the
   elements accepted, the rest is still queued, and at most `capacity` elements are queued. Reader
   processes that detach, crash and are replaced at any step neither lose nor repeat an element.
   */
  lemma Linearizable(s0: State, acts: seq<Action>)
    requires Init(s0) && EnabledRun(s0, acts)
    ensures var es := Events(s0, acts);
      && Legal(s0.capacity, Fifo([], 0, false), es, FreshRun(s0, acts))
      && (exists queued: seq<Element> ::
            |queued| <= s0.capacity && AcceptedIn(es) == DeliveredIn(es) + queued)
  {
    InitHasInv(s0);
    RunRefinesFifo(s0, acts);
    var es := Events(s0, acts);
    assert View(s0) == Fifo([], 0, false);
    FifoConserves(s0.capacity, View(s0), es, FreshRun(s0, acts));
    var queued := FifoAfter(View(s0), es).items;
    assert [] + AcceptedIn(es) == AcceptedIn(es);
    assert |queued| <= s0.capacity && AcceptedIn(es) == DeliveredIn(es) + queued;
  }

  // ---------------------------------------------------------------- in-flight copies

  /** The bytes that the copy of one element into or out of the slot of index i touches. */
  ghost predicate InSlot(s: State, i: u64, at: int)
    requires s.capacity > 0
  {
    Offset(s, i) <= at < Offset(s, i) + s.elementSize
  }

  /**
   In every reachable state the bytes of a store in flight and of a fetch in flight lie inside
   the region, and no byte is in both: a torn element is never read.
   */
  lemma CopiesDoNotOverlap(s0: State, acts: seq<Action>, at: int)
    requires Init(s0) && EnabledRun(s0, acts)
    ensures var s := Run(s0, acts);
      && s.capacity > 0
      && (s.producer.PCopy? && InSlot(s, s.producer.w, at) ==> 0 <= at < s.capacity * s.elementSize)
      && (s.consumer.CCopy? && InSlot(s, s.consumer.r, at) ==> 0 <= at < s.capacity * s.elementSize)
      && (s.producer.PCopy? && s.consumer.CCopy?
          ==> !(InSlot(s, s.producer.w, at) && InSlot(s, s.consumer.r, at)))
  {
    InitHasInv(s0);
    RunKeepsInv(s0, acts);
    var s := Run(s0, acts);
    if s.producer.PCopy? {
      MaskIsModulo(s.producer.w, s.capacity);
      SlotInside(s.capacity, s.elementSize, s.producer.w);
    }
    if s.consumer.CCopy? {
      MaskIsModulo(s.consumer.r, s.capacity);
      SlotInside(s.capacity, s.elementSize, s.consumer.r);
    }
    if s.producer.PCopy? && s.consumer.CCopy? {
      SlotsDisjoint(s.capacity, s.elementSize, s.consumer.r, s.producer.w);
    }
  }

  // ---------------------------------------------------------------- reader crashes

  lemma {:induction false} HistoryGrows(s: State, acts: seq<Action>)
    requires Inv(s) && EnabledRun(s, acts)
    ensures s.enq <= Run(s, acts).enq && s.deq <= Run(s, acts).deq
    decreases |acts|
  {
    hide Inv;
    if acts != [] {
      StepKeepsInv(s, acts[0]);
      assert s.enq <= Next(s, acts[0]).enq && s.deq <= Next(s, acts[0]).deq;
      HistoryGrows(Next(s, acts[0]), acts[1..]);
    }
  }

  /**
   A reader that dies after copying an element but before publishing its index: whatever runs
   afterwards, the next element any reader is given is that same one.
   */
  lemma CrashRedeliversCurrent(s: State, acts: seq<Action>)
    requires Inv(s) && s.consumer.CCopy? && s.consumer.left == {}
    requires EnabledRun(Next(s, Crash), acts)
    ensures var s' := Run(Next(s, Crash), acts);
      |s'.deq| > |s.deq| ==> s'.deq[|s.deq|] == s.consumer.dst
  {
    StepKeepsInv(s, Crash);
    RunKeepsInv(Next(s, Crash), acts);
    HistoryGrows(Next(s, Crash), acts);
    assert s.consumer.dst == s.enq[s.reader];
  }

  // ---------------------------------------------------------------- wait freedom

  predicate OfProducer(a: Action) {
    a.LoadFlag? || a.TestCachedReader? || a.LoadReader? || a.StoreByte? || a.PublishWriter?
  }

  predicate OfConsumer(a: Action) {
    a.TestCachedWriter? || a.LoadWriter? || a.FetchByte? || a.PublishReader?
  }

  /** How many own steps a call can still take before it returns. */
  ghost function ProducerRank(s: State): nat {
    match s.producer
    case PIdle => 0
    case PFlag(_) => s.elementSize + 4
    case PCheck(_) => s.elementSize + 3
    case PRefresh(_, _) => s.elementSize + 2
    case PCopy(_, _, left) => |left| + 1
  }

  ghost function ConsumerRank(s: State): nat {
    match s.consumer
    case CGone => 0
    case CIdle => 0
    case CCheck(_) => s.elementSize + 3
    case CRefresh(_, _) => s.elementSize + 2
    case CCopy(_, _, left) => |left| + 1
  }

  lemma {:induction false} AllBytesSize(n: nat)
    ensures |AllBytes(n)| == n
  {
    if n > 0 {
      AllBytesSize(n - 1);
    }
  }

  ghost function OwnSteps(acts: seq<Action>, producer: bool): nat {
    if acts == [] then 0
    else
      var own := if producer then OfProducer(acts[0]) else OfConsumer(acts[0]);
      (if own then 1 else 0) + OwnSteps(acts[1..], producer)
  }

  lemma ProducerRankFalls(s: State, a: Action)
    requires Inv(s) && Enabled(s, a) && !a.StartEnqueue?
    ensures ProducerRank(Next(s, a)) + (if OfProducer(a) then 1 else 0) <= ProducerRank(s)
  {
    AllBytesSize(s.elementSize);
    if a.StoreByte? {
      StoreInBounds(s, a.k);
    }
  }

  /**
   Wait freedom of try_enqueue: whatever the consumer does in between, a call returns within
   elementSize + 4 steps of its own, and it always has a step to take until it does.
   */
  lemma {:induction false} EnqueueIsWaitFree(s: State, acts: seq<Action>)
    requires Inv(s) && EnabledRun(s, acts)
    requires forall a <- acts :: !a.StartEnqueue?
    ensures OwnSteps(acts, true) + ProducerRank(Run(s, acts)) <= ProducerRank(s) <= s.elementSize + 4
    ensures !s.producer.PIdle? ==> exists a :: OfProducer(a) && Fresh(s, a) && Enabled(s, a)
    decreases |acts|
  {
    if !s.producer.PIdle? {
      ProducerCanStep(s);
    }
    ProducerRankBound(s);
    hide Inv, Next, Enabled, ProducerRank, OfProducer;
    if acts != [] {
      assert !acts[0].StartEnqueue?;
      StepKeepsInv(s, acts[0]);
      ProducerRankFalls(s, acts[0]);
      EnqueueIsWaitFree(Next(s, acts[0]), acts[1..]);
    }
  }

  lemma SubsetSize(a: set<nat>, b: set<nat>)
    requires a <= b
    ensures |a| <= |b|
  {
    assert b == a + (b - a);
  }

  lemma ProducerRankBound(s: State)
    requires Inv(s)
    ensures ProducerRank(s) <= s.elementSize + 4
  {
    AllBytesSize(s.elementSize);
    if s.producer.PCopy? {
      SubsetSize(s.producer.left, AllBytes(s.elementSize));
    }
  }

  lemma ConsumerRankFalls(s: State, a: Action)
    requires Inv(s) && Enabled(s, a) && !a.StartDequeue?
    ensures ConsumerRank(Next(s, a)) + (if OfConsumer(a) then 1 else 0) <= ConsumerRank(s)
  {
    AllBytesSize(s.elementSize);
    if a.FetchByte? {
      FetchInBounds(s, a.k);
    }
  }

  lemma ConsumerRankBound(s: State)
    requires Inv(s)
    ensures ConsumerRank(s) <= s.elementSize + 3
  {
    AllBytesSize(s.elementSize);
    if s.consumer.CCopy? {
      SubsetSize(s.consumer.left, AllBytes(s.elementSize));
    }
  }

  lemma ConsumerCanStep(s: State)
    requires Inv(s) && !s.consumer.CIdle? && !s.consumer.CGone?
    ensures exists a :: OfConsumer(a) && Fresh(s, a) && Enabled(s, a)
  {
    var a := match s.consumer
      case CRefresh(_, _) => LoadWriter(s.writer)
      case CCopy(_, _, left) =>
        if left == {} then PublishReader else var k :| k in left; FetchByte(k)
      case _ => TestCachedWriter;
    assert OfConsumer(a) && Fresh(s, a) && Enabled(s, a);
  }

  /** Wait freedom of try_dequeue, likewise, within elementSize + 3 steps. */
  lemma {:induction false} DequeueIsWaitFree(s: State, acts: seq<Action>)
    requires Inv(s) && EnabledRun(s, acts)
    requires forall a <- acts :: !a.StartDequeue?
    ensures OwnSteps(acts, false) + ConsumerRank(Run(s, acts)) <= ConsumerRank(s) <= s.elementSize + 3
    ensures !s.consumer.CIdle? && !s.consumer.CGone? ==> exists a :: OfConsumer(a) && Fresh(s, a) && Enabled(s, a)
    decreases |acts|
  {
    if !s.consumer.CIdle? && !s.consumer.CGone? {
      ConsumerCanStep(s);
    }
    ConsumerRankBound(s);
    hide Inv, Next, Enabled, ConsumerRank, OfConsumer;
    if acts != [] {
      assert !acts[0].StartDequeue?;
      StepKeepsInv(s, acts[0]);
      ConsumerRankFalls(s, acts[0]);
      DequeueIsWaitFree(Next(s, acts[0]), acts[1..]);
    }
  }

  lemma ProducerCanStep(s: State)
    requires Inv(s) && !s.producer.PIdle?
    ensures exists a :: OfProducer(a) && Fresh(s, a) && Enabled(s, a)
  {
    var a := match s.producer
      case PFlag(_) => LoadFlag
      case PCheck(_) => TestCachedReader
      case PRefresh(_, _) => LoadReader(s.reader)
      case PCopy(_, _, left) =>
        if left == {} then PublishWriter else var k :| k in left; StoreByte(k);
    assert OfProducer(a) && Fresh(s, a) && Enabled(s, a);
  }
}
