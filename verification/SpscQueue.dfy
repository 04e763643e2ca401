/**
 The queue object over its mapped region. `TryEnqueue` and `TryDequeue` have the shape of the
 code, and between any two accesses to shared memory the other process may take any number of its
 own steps. Whatever it does, the call is a run of the state machine of SpscRing, so every theorem
 about runs holds of it.
 */
module SpscQueue {
  import opened Arith64
  import opened SpscRing
  import opened SpscFifo
  import opened SpscCalls

  datatype AttachResult = Connected | InvalidArguments | CapacityMismatch | ElementSizeMismatch

  /** From s, step a leads to s' and answers e; if it is a load, and `now`, it loads what is there. */
  ghost predicate Took(s: State, a: Action, s': State, e: Event, now: bool) {
    Enabled(s, a) && Next(s, a) == s' && EventOf(s, a) == e && (now ==> Fresh(s, a))
  }

  /** The full test lets an element in: there is room, and the sum of index and capacity does not wrap. */
  predicate HasRoom(writer: u64, reader: u64, capacity: u64) {
    writer < reader + capacity < TWO_64
  }

  /** Runs that leave one side where it is, because only the other side moves. */
  ghost predicate ConsumerSide(a: Action) {
    OfConsumer(a) || a.StartDequeue? || a.Attach? || a.Detach? || a.Crash? || a.Refuse?
  }

  ghost predicate ProducerSide(a: Action) {
    OfProducer(a) || a.StartEnqueue? || a.Refuse?
  }

  /** The answers that the producer (or the consumer) was given during a run. */
  ghost function ProducerAnswers(es: seq<Event>): seq<Event> {
    if es == [] then []
    else (if es[0].Accepted? || es[0].RefusedFull? || es[0].RefusedNoClient? then [es[0]] else [])
         + ProducerAnswers(es[1..])
  }

  ghost function ConsumerAnswers(es: seq<Event>): seq<Event> {
    if es == [] then []
    else (if es[0].Delivered? || es[0].FoundEmpty? then [es[0]] else []) + ConsumerAnswers(es[1..])
  }

  /**
   A run from s to s' during which the producer is given exactly the answers `out`; unless loads may be
   `stale`, they all return what is in memory.
   */
  ghost predicate ProducerRun(s: State, acts: seq<Action>, s': State, out: seq<Event>, stale: bool) {
    && EnabledRun(s, acts) && Run(s, acts) == s' && ProducerAnswers(Events(s, acts)) == out
    && (!stale ==> FreshRun(s, acts))
  }

  ghost predicate ConsumerRun(s: State, acts: seq<Action>, s': State, out: seq<Event>, stale: bool) {
    && EnabledRun(s, acts) && Run(s, acts) == s' && ConsumerAnswers(Events(s, acts)) == out
    && (!stale ==> FreshRun(s, acts))
  }

  lemma {:induction false} FreshThen(s: State, acts: seq<Action>, a: Action)
    requires EnabledRun(s, acts) && FreshRun(s, acts) && Enabled(Run(s, acts), a) && Fresh(Run(s, acts), a)
    ensures EnabledRun(s, acts + [a]) && FreshRun(s, acts + [a])
    decreases |acts|
  {
    hide Next, Enabled, Fresh;
    RunThen(s, acts, a);
    var all := acts + [a];
    if acts == [] {
      assert all[1..] == [] && all[0] == a;
    } else {
      assert all[0] == acts[0] && all[1..] == acts[1..] + [a];
      FreshThen(Next(s, acts[0]), acts[1..], a);
    }
  }

  lemma {:induction false} ProducerAnswersThen(es: seq<Event>, e: Event)
    ensures ProducerAnswers(es + [e]) == ProducerAnswers(es) + ProducerAnswers([e])
  {
    if es == [] {
      assert es + [e] == [e];
    } else {
      assert (es + [e])[0] == es[0] && (es + [e])[1..] == es[1..] + [e];
      ProducerAnswersThen(es[1..], e);
    }
  }

  lemma {:induction false} ConsumerAnswersThen(es: seq<Event>, e: Event)
    ensures ConsumerAnswers(es + [e]) == ConsumerAnswers(es) + ConsumerAnswers([e])
  {
    if es == [] {
      assert es + [e] == [e];
    } else {
      assert (es + [e])[0] == es[0] && (es + [e])[1..] == es[1..] + [e];
      ConsumerAnswersThen(es[1..], e);
    }
  }

  lemma ProducerRunThen(s0: State, acts: seq<Action>, s: State, a: Action, s': State, e: Event, stale: bool)
    requires ProducerRun(s0, acts, s, [], stale) && Took(s, a, s', e, !stale)
    ensures ProducerRun(s0, acts + [a], s', ProducerAnswers([e]), stale)
  {
    hide Next, Enabled, Fresh, EventOf;
    RunThen(s0, acts, a);
    ProducerAnswersThen(Events(s0, acts), e);
    if !stale {
      FreshThen(s0, acts, a);
    }
  }

  lemma ConsumerRunThen(s0: State, acts: seq<Action>, s: State, a: Action, s': State, e: Event, stale: bool)
    requires ConsumerRun(s0, acts, s, [], stale) && Took(s, a, s', e, !stale)
    ensures ConsumerRun(s0, acts + [a], s', ConsumerAnswers([e]), stale)
  {
    hide Next, Enabled, Fresh, EventOf;
    RunThen(s0, acts, a);
    ConsumerAnswersThen(Events(s0, acts), e);
    if !stale {
      FreshThen(s0, acts, a);
    }
  }

  lemma ProducerAnswersOne(e: Event)
    ensures ProducerAnswers([e]) == if e.Accepted? || e.RefusedFull? || e.RefusedNoClient? then [e] else []
  {
  }

  lemma ConsumerAnswersOne(e: Event)
    ensures ConsumerAnswers([e]) == if e.Delivered? || e.FoundEmpty? then [e] else []
  {
  }

  lemma ConsumerStepSilent(s: State, a: Action, s': State, e: Event, now: bool)
    requires ConsumerSide(a) && Took(s, a, s', e, now)
    ensures ProducerAnswers([e]) == []
  {
  }

  lemma ProducerStepSilent(s: State, a: Action, s': State, e: Event, now: bool)
    requires ProducerSide(a) && Took(s, a, s', e, now)
    ensures ConsumerAnswers([e]) == []
  {
  }

  lemma EmptyRun(s: State, stale: bool)
    ensures ProducerRun(s, [], s, [], stale) && ConsumerRun(s, [], s, [], stale)
  {
  }

  lemma IndexOrder(s: State)
    requires Inv(s)
    ensures s.localReader <= s.reader <= s.localWriter <= s.writer && s.capacity > 0
    ensures s.producer.PCheck? || s.producer.PRefresh? ==> |s.producer.src| == s.elementSize
    ensures s.consumer.CCheck? || s.consumer.CRefresh? ==> |s.consumer.dst| == s.elementSize
  {
  }

  /** What the wrapping test says. */
  lemma TestFullIs(s: State, seen: u64)
    requires Inv(s) && s.localReader <= seen <= s.reader
    ensures TestFull(s, s.writer, seen) <==> !HasRoom(s.writer, seen, s.capacity)
  {
    FullTestExact(s, seen);
  }

  /** What the invariant says of the program counters. */
  lemma CounterFacts(s: State)
    requires Inv(s)
    ensures s.producer.PRefresh? || s.producer.PCopy? ==> s.producer.w == s.writer
    ensures s.consumer.CRefresh? || s.consumer.CCopy? ==> s.consumer.r == s.reader
    ensures s.producer.PCopy? ==> s.writer + 1 < TWO_64
    ensures s.consumer.CCopy? ==> s.reader + 1 < TWO_64
    ensures s.deq == s.enq[..s.reader] && s.reader <= |s.enq| == s.writer
  {
  }

  /** Where a queued element lies in the region, byte for byte. */
  lemma QueuedBytes(s: State, i: nat, k: nat)
    requires Inv(s) && s.reader <= i < s.writer && k < s.elementSize
    ensures s.capacity > 0 && i < |s.enq| && |s.enq[i]| == s.elementSize
    ensures (i % s.capacity) * s.elementSize + k < |s.data|
    ensures s.data[(i % s.capacity) * s.elementSize + k] == s.enq[i][k]
  {
    SlotInside(s.capacity, s.elementSize, i);
    assert SlotHolds(s, i);
    assert ByteAt(s, i, k) == s.enq[i][k];
  }

  class SpscShared {
    const elementCapacity: u64
    const elementSize: nat
    var clientConnected: bool
    var localWriterIdx: u64
    var localReaderIdx: u64
    var writerIdx: u64
    var readerIdx: u64
    const data: array<Byte>

    // where the two processes are
    var producer: Producer
    var consumer: Consumer

    // what has been published so far
    ghost var enq: seq<Element>
    ghost var deq: seq<Element>

    ghost function View(): State
      reads this, data
    {
      State(elementCapacity, elementSize, clientConnected, localWriterIdx, localReaderIdx,
        writerIdx, readerIdx, data[..], producer, consumer, enq, deq)
    }

    ghost predicate Valid()
      reads this, data
    {
      Inv(View())
    }

    /** `create` for the writer: nothing is created for arguments it refuses. */
    static method Create(size: nat, capacity: u64) returns (q: SpscShared?)
      ensures q == null <==> size == 0 || !IsPow2(capacity)
      ensures q != null ==> fresh(q) && fresh(q.data) && Init(q.View())
      ensures q != null ==> q.elementSize == size && q.elementCapacity == capacity
    {
      SingleBitIffPow2(capacity);
      if size == 0 || capacity == 0 || PopCount(capacity) != 1 {
        if IsPow2(capacity) {
          Pow2Positive(capacity);
        }
        return null;
      }
      q := new SpscShared(size, capacity);
    }

    /** The region as the writer initialises it; Create has checked the arguments. */
    constructor (elementSize: nat, elementCapacity: u64)
      requires elementSize > 0 && elementCapacity > 0 && PopCount(elementCapacity) == 1
      ensures Init(View()) && Valid() && fresh(data)
      ensures this.elementSize == elementSize && this.elementCapacity == elementCapacity
    {
      this.elementSize := elementSize;
      this.elementCapacity := elementCapacity;
      clientConnected := false;
      localWriterIdx, localReaderIdx, writerIdx, readerIdx := 0, 0, 0, 0;
      data := new Byte[elementCapacity * elementSize];
      producer, consumer := PIdle, CGone;
      enq, deq := [], [];
      new;
      SingleBitIffPow2(elementCapacity);
      InitHasInv(View());
    }

    /**
     A reader process creates its side; if it is going to be attached, no other reader is there. When
     the arguments do not match the queue, the object that has been made is destroyed again.
     */
    method AttachReader(size: nat, capacity: u64) returns (r: AttachResult)
      requires Valid()
      requires size > 0 && IsPow2(capacity) && capacity == elementCapacity && size <= elementSize ==> consumer.CGone?
      modifies this`clientConnected, this`consumer
      ensures Valid()
      ensures r == if size == 0 || !IsPow2(capacity) then InvalidArguments
                   else if capacity != elementCapacity then CapacityMismatch
                   else if size > elementSize then ElementSizeMismatch
                   else Connected
      ensures View() == if r.Connected? then Next(old(View()), Attach)
                        else if r.InvalidArguments? then old(View())
                        else Next(old(View()), Refuse)
      ensures clientConnected == (r.Connected? || (r.InvalidArguments? && old(clientConnected)))
    {
      SingleBitIffPow2(capacity);
      StepKeepsInv(View(), Refuse);
      if consumer.CGone? {
        StepKeepsInv(View(), Attach);
      }
      if IsPow2(capacity) {
        Pow2Positive(capacity);
      }
      if size == 0 || capacity == 0 || PopCount(capacity) != 1 {
        return InvalidArguments;
      }
      if elementCapacity != capacity {
        clientConnected := false;
        return CapacityMismatch;
      }
      if elementSize < size {
        clientConnected := false;
        return ElementSizeMismatch;
      }
      consumer := CIdle;
      clientConnected := true;
      return Connected;
    }

    /** The reader's destructor. */
    method DestroyReader()
      requires Valid() && consumer.CIdle?
      modifies this`clientConnected, this`consumer
      ensures Valid() && View() == Next(old(View()), Detach) && !clientConnected
    {
      StepKeepsInv(View(), Detach);
      consumer := CGone;
      clientConnected := false;
    }

    // -------------------------------------------------------------- single accesses

    /** `if (!client_connected.load())`. */
    method LoadConnected() returns (connected: bool)
      requires Valid() && producer.PFlag?
      modifies this`producer
      ensures Valid()
      ensures Took(old(View()), LoadFlag, View(), if connected then Internal else RefusedNoClient, true)
      ensures connected == clientConnected && producer == if connected then PCheck(old(producer).src) else PIdle
    {
      StepKeepsInv(View(), LoadFlag);
      hide Inv;
      connected := clientConnected;
      producer := if connected then PCheck(producer.src) else PIdle;
    }

    /** The full test on the producer's cached copy of the reader index. */
    method TestCachedReaderIdx() returns (full: bool)
      requires Valid() && producer.PCheck?
      modifies this`producer
      ensures Valid() && Took(old(View()), TestCachedReader, View(), Internal, true)
      ensures full == !HasRoom(writerIdx, localReaderIdx, elementCapacity)
      ensures producer == if full then PRefresh(old(producer).src, writerIdx)
                          else PCopy(old(producer).src, writerIdx, AllBytes(elementSize))
    {
      IndexOrder(View());
      TestFullIs(View(), localReaderIdx);
      StepKeepsInv(View(), TestCachedReader);
      hide Inv;
      full := writerIdx >= Add(localReaderIdx, elementCapacity);
      producer := if full then PRefresh(producer.src, writerIdx)
                  else PCopy(producer.src, writerIdx, AllBytes(elementSize));
    }

    /** Load `reader_idx`, keep it in the cache, and test again. A `stale` load may return an older value. */
    method LoadReaderIdx(stale: bool) returns (seen: u64, full: bool)
      requires Valid() && producer.PRefresh?
      modifies this`producer, this`localReaderIdx
      ensures Valid()
      ensures Took(old(View()), LoadReader(seen), View(), if full then RefusedFull(seen) else Internal, !stale)
      ensures localReaderIdx == seen && old(localReaderIdx) <= seen <= readerIdx && (!stale ==> seen == readerIdx)
      ensures full == !HasRoom(writerIdx, seen, elementCapacity)
      ensures producer == if full then PIdle else PCopy(old(producer).src, writerIdx, AllBytes(elementSize))
    {
      IndexOrder(View());
      CounterFacts(View());
      seen := readerIdx;
      if stale {
        seen :| localReaderIdx <= seen <= readerIdx;
      }
      TestFullIs(View(), seen);
      StepKeepsInv(View(), LoadReader(seen));
      hide Inv;
      localReaderIdx := seen;
      full := producer.w >= Add(seen, elementCapacity);
      producer := if full then PIdle else PCopy(producer.src, producer.w, AllBytes(elementSize));
    }

    /** One byte of the `memcpy` into the slot. */
    method StoreOneByte(k: nat)
      requires Valid() && producer.PCopy? && k in producer.left
      modifies this`producer, data
      ensures Valid() && Took(old(View()), StoreByte(k), View(), Internal, true)
      ensures producer == PCopy(old(producer).src, old(producer).w, old(producer).left - {k})
      ensures elementCapacity > 0 && k < |producer.src|
      ensures forall j | 0 <= j < data.Length ::
        data[j] == if j == Slot(writerIdx) + k then producer.src[k] else old(data[j])
    {
      StoreInBounds(View(), k);
      CounterFacts(View());
      StepKeepsInv(View(), StoreByte(k));
      hide Inv;
      var PCopy(src, w, left) := producer;
      var at := And(w, elementCapacity - 1) * elementSize + k;
      data[at] := src[k];
      producer := PCopy(src, w, left - {k});
    }

    /** `writer_idx.store(writer_idx + 1)`. */
    method StoreWriterIdx()
      requires Valid() && producer.PCopy? && producer.left == {}
      modifies this`producer, this`writerIdx, this`enq
      ensures Valid() && Took(old(View()), PublishWriter, View(), Accepted(old(producer).src), true)
      ensures producer.PIdle? && writerIdx == old(writerIdx) + 1 && enq == old(enq) + [old(producer).src]
    {
      CounterFacts(View());
      StepKeepsInv(View(), PublishWriter);
      hide Inv;
      enq := enq + [producer.src];
      writerIdx := Add(producer.w, 1);
      producer := PIdle;
    }

    /** The empty test on the consumer's cached copy of the writer index. */
    method TestCachedWriterIdx() returns (empty: bool)
      requires Valid() && consumer.CCheck?
      modifies this`consumer
      ensures Valid() && Took(old(View()), TestCachedWriter, View(), Internal, true)
      ensures empty == (readerIdx >= localWriterIdx)
      ensures consumer == if empty then CRefresh(old(consumer).dst, readerIdx)
                          else CCopy(old(consumer).dst, readerIdx, AllBytes(elementSize))
    {
      StepKeepsInv(View(), TestCachedWriter);
      hide Inv;
      empty := readerIdx >= localWriterIdx;
      consumer := if empty then CRefresh(consumer.dst, readerIdx)
                  else CCopy(consumer.dst, readerIdx, AllBytes(elementSize));
    }

    /** Load `writer_idx`, keep it in the cache, and test again. A `stale` load may return an older value. */
    method LoadWriterIdx(stale: bool) returns (seen: u64, empty: bool)
      requires Valid() && consumer.CRefresh?
      modifies this`consumer, this`localWriterIdx
      ensures Valid()
      ensures Took(old(View()), LoadWriter(seen), View(), if empty then FoundEmpty(seen) else Internal, !stale)
      ensures localWriterIdx == seen && old(localWriterIdx) <= seen <= writerIdx && (!stale ==> seen == writerIdx)
      ensures empty == (readerIdx >= seen)
      ensures consumer == if empty then CIdle else CCopy(old(consumer).dst, readerIdx, AllBytes(elementSize))
    {
      IndexOrder(View());
      CounterFacts(View());
      seen := writerIdx;
      if stale {
        seen :| localWriterIdx <= seen <= writerIdx;
      }
      StepKeepsInv(View(), LoadWriter(seen));
      hide Inv;
      localWriterIdx := seen;
      empty := consumer.r >= seen;
      consumer := if empty then CIdle else CCopy(consumer.dst, consumer.r, AllBytes(elementSize));
    }

    /** One byte of the `memcpy` out of the slot. */
    method FetchOneByte(k: nat)
      requires Valid() && consumer.CCopy? && k in consumer.left
      modifies this`consumer
      ensures Valid() && Took(old(View()), FetchByte(k), View(), Internal, true)
      ensures consumer.CCopy? && consumer.left == old(consumer).left - {k}
    {
      FetchInBounds(View(), k);
      StepKeepsInv(View(), FetchByte(k));
      hide Inv;
      var CCopy(dst, r, left) := consumer;
      var at := And(r, elementCapacity - 1) * elementSize + k;
      consumer := CCopy(dst[k := data[at]], r, left - {k});
    }

    /** `reader_idx.store(reader_idx + 1)`. */
    method StoreReaderIdx() returns (dst: Element)
      requires Valid() && consumer.CCopy? && consumer.left == {}
      modifies this`consumer, this`readerIdx, this`deq
      ensures Valid() && Took(old(View()), PublishReader, View(), Delivered(dst), true)
      ensures consumer.CIdle? && dst == old(consumer).dst && deq == old(deq) + [dst]
      ensures readerIdx == old(readerIdx) + 1 <= |enq| && dst == enq[old(readerIdx)]
    {
      CounterFacts(View());
      StepKeepsInv(View(), PublishReader);
      hide Inv;
      dst := consumer.dst;
      deq := deq + [dst];
      readerIdx := Add(consumer.r, 1);
      consumer := CIdle;
      CounterFacts(View());
      assert deq[readerIdx - 1] == dst;
    }

    // -------------------------------------------------------------- the other processes

    /**
     One arbitrary step of the reader side; a reader may also go away, or die, at any point, and other
     processes may try to become readers and be refused.
     */
    method ConsumerStep(stale: bool) returns (ghost a: Action, ghost e: Event)
      requires Valid()
      modifies this`clientConnected, this`localWriterIdx, this`readerIdx, this`consumer, this`deq
      ensures Valid() && old(readerIdx) <= readerIdx
      ensures ConsumerSide(a) && Took(old(View()), a, View(), e, !stale)
    {
      var die: bool, refused: bool := *, *;
      if refused {
        a, e := RefuseAReader();
      } else if die && !consumer.CGone? {
        a, e := Crash, Internal;
        StepKeepsInv(View(), a);
        consumer := CGone;
      } else if consumer.CGone? || consumer.CIdle? {
        a, e := ConsumerArrivesOrLeaves();
      } else if consumer.CCheck? {
        a, e := TestCachedWriter, Internal;
        var _ := TestCachedWriterIdx();
      } else if consumer.CRefresh? {
        var w, empty := LoadWriterIdx(stale);
        a, e := LoadWriter(w), if empty then FoundEmpty(w) else Internal;
      } else if consumer.left == {} {
        var dst := StoreReaderIdx();
        a, e := PublishReader, Delivered(dst);
      } else {
        var k :| k in consumer.left;
        a, e := FetchByte(k), Internal;
        FetchOneByte(k);
      }
    }

    /** What the destructor of a refused reader leaves behind. */
    method RefuseAReader() returns (ghost a: Action, ghost e: Event)
      requires Valid()
      modifies this`clientConnected
      ensures Valid() && a == Refuse && Took(old(View()), a, View(), e, true)
    {
      a, e := Refuse, ReaderRefused;
      StepKeepsInv(View(), a);
      hide Inv;
      clientConnected := false;
    }

    method ConsumerArrivesOrLeaves() returns (ghost a: Action, ghost e: Event)
      requires Valid() && (consumer.CGone? || consumer.CIdle?)
      modifies this`clientConnected, this`consumer
      ensures Valid()
      ensures ConsumerSide(a) && Took(old(View()), a, View(), e, true)
    {
      var leave: bool := *;
      var dst: Element := *;
      if |dst| != elementSize {
        dst := seq(elementSize, _ => 0);
      }
      a := if consumer.CGone? then Attach else if leave then Detach else StartDequeue(dst);
      e := EventOf(View(), a);
      StepKeepsInv(View(), a);
      hide Inv;
      if consumer.CGone? {
        consumer, clientConnected := CIdle, true;
      } else if leave {
        consumer, clientConnected := CGone, false;
      } else {
        consumer := CCheck(dst);
      }
    }

    /**
     One arbitrary step of the writer side, which offers elements of its own choosing, or of a process
     that is refused as a reader.
     */
    method ProducerStep(offer: Element, stale: bool) returns (ghost a: Action, ghost e: Event)
      requires Valid() && |offer| == elementSize
      modifies this`clientConnected, this`localReaderIdx, this`writerIdx, this`producer, this`enq, data
      ensures Valid() && old(writerIdx) <= writerIdx && old(enq) <= enq
      ensures ProducerSide(a) && Took(old(View()), a, View(), e, !stale)
    {
      var refused: bool := *;
      if refused {
        a, e := RefuseAReader();
      } else if producer.PIdle? {
        a, e := StartEnqueue(offer), Internal;
        StepKeepsInv(View(), a);
        producer := PFlag(offer);
      } else if producer.PFlag? {
        var connected := LoadConnected();
        a, e := LoadFlag, if connected then Internal else RefusedNoClient;
      } else if producer.PCheck? {
        a, e := TestCachedReader, Internal;
        var _ := TestCachedReaderIdx();
      } else if producer.PRefresh? {
        var r, full := LoadReaderIdx(stale);
        a, e := LoadReader(r), if full then RefusedFull(r) else Internal;
      } else if producer.left == {} {
        a, e := PublishWriter, Accepted(producer.src);
        StoreWriterIdx();
      } else {
        var k :| k in producer.left;
        a, e := StoreByte(k), Internal;
        StoreOneByte(k);
      }
    }

    /** Between two accesses of the producer the reader side runs for as long as it likes, unless it is `alone`. */
    method ConsumerRunsOn(ghost s0: State, ghost before: seq<Action>, alone: bool, stale: bool)
      returns (ghost acts: seq<Action>)
      requires Valid() && ProducerRun(s0, before, View(), [], stale)
      modifies this`clientConnected, this`localWriterIdx, this`readerIdx, this`consumer, this`deq
      ensures Valid() && ProducerRun(s0, acts, View(), [], stale) && old(readerIdx) <= readerIdx
      ensures alone ==> clientConnected == old(clientConnected) && readerIdx == old(readerIdx)
    {
      acts := before;
      var n: nat := *;
      hide *;
      while !alone && n > 0
        invariant Valid() && ProducerRun(s0, acts, View(), [], stale) && old(readerIdx) <= readerIdx
        invariant alone ==> clientConnected == old(clientConnected) && readerIdx == old(readerIdx)
        decreases n
      {
        ghost var s := View();
        ghost var a, e := ConsumerStep(stale);
        ConsumerStepSilent(s, a, View(), e, !stale);
        ProducerRunThen(s0, acts, s, a, View(), e, stale);
        acts := acts + [a];
        n := n - 1;
      }
    }

    /** Between two accesses of the consumer the writer side runs for as long as it likes, unless it is `alone`. */
    method ProducerRunsOn(ghost s0: State, ghost before: seq<Action>, alone: bool, stale: bool)
      returns (ghost acts: seq<Action>)
      requires Valid() && ConsumerRun(s0, before, View(), [], stale)
      modifies this`clientConnected, this`localReaderIdx, this`writerIdx, this`producer, this`enq, data
      ensures Valid() && ConsumerRun(s0, acts, View(), [], stale) && old(writerIdx) <= writerIdx && old(enq) <= enq
      ensures alone ==> writerIdx == old(writerIdx)
    {
      acts := before;
      var n: nat := *;
      hide *;
      while !alone && n > 0
        invariant Valid() && ConsumerRun(s0, acts, View(), [], stale) && old(writerIdx) <= writerIdx && old(enq) <= enq
        invariant alone ==> writerIdx == old(writerIdx)
        decreases n
      {
        ghost var s := View();
        var offer: Element := *;
        if |offer| != elementSize {
          offer := seq(elementSize, _ => 0);
        }
        ghost var a, e := ProducerStep(offer, stale);
        ProducerStepSilent(s, a, View(), e, !stale);
        ConsumerRunThen(s0, acts, s, a, View(), e, stale);
        acts := acts + [a];
        n := n - 1;
      }
    }

    // -------------------------------------------------------------- the two calls

    method BeginEnqueue(src: Element)
      requires Valid() && producer.PIdle? && |src| == elementSize
      modifies this`producer
      ensures Valid() && producer == PFlag(src) && Took(old(View()), StartEnqueue(src), View(), Internal, true)
    {
      StepKeepsInv(View(), StartEnqueue(src));
      hide Inv;
      producer := PFlag(src);
    }

    method BeginDequeue(dst: Element)
      requires Valid() && consumer.CIdle? && |dst| == elementSize
      modifies this`consumer
      ensures Valid() && consumer == CCheck(dst) && Took(old(View()), StartDequeue(dst), View(), Internal, true)
    {
      StepKeepsInv(View(), StartDequeue(dst));
      hide Inv;
      consumer := CCheck(dst);
    }

    /** First byte of the slot that the next element goes to, or comes from. */
    function Slot(i: u64): nat
      requires elementCapacity > 0
    {
      (i % elementCapacity) * elementSize
    }

    /**
     `try_enqueue`. The whole call, with everything the reader side does meanwhile, is a run of
     the ring in which the producer is told once: accepted, full, or no client. When it is `alone`,
     nobody else moves; when loads are not `stale`, they return what is in memory.
     */
    method TryEnqueue(src: Element, alone: bool, stale: bool)
      returns (ok: bool, ghost acts: seq<Action>, ghost answer: Event)
      requires Valid() && producer.PIdle? && |src| == elementSize
      modifies this`clientConnected, this`localWriterIdx, this`readerIdx, this`consumer, this`deq,
               this`localReaderIdx, this`writerIdx, this`producer, this`enq, data
      ensures Valid() && producer.PIdle?
      ensures ProducerRun(old(View()), acts, View(), [answer], stale)
      ensures ok <==> answer == Accepted(src)
      ensures !ok ==> answer.RefusedFull? || answer.RefusedNoClient?
      ensures enq == (if ok then old(enq) + [src] else old(enq)) && writerIdx == old(writerIdx) + (if ok then 1 else 0)
      ensures elementCapacity > 0
      ensures data[..] == if ok then Overwritten(old(data[..]), Slot(old(writerIdx)), src) else old(data[..])
      ensures old(HasRoom(writerIdx, localReaderIdx, elementCapacity)) ==>
        !answer.RefusedFull? && localReaderIdx == old(localReaderIdx)
      ensures answer.RefusedFull? ==>
        && answer.seen == localReaderIdx && !HasRoom(writerIdx, localReaderIdx, elementCapacity)
        && (!stale ==> old(readerIdx) <= answer.seen)
      ensures alone ==> (answer.RefusedNoClient? <==> !old(clientConnected))
      ensures alone && !stale ==>
        (ok <==> old(clientConnected && (HasRoom(writerIdx, localReaderIdx, elementCapacity)
                                         || HasRoom(writerIdx, readerIdx, elementCapacity))))
    {
      hide *;
      ghost var s0 := View();
      Indices(this);
      var connected;
      connected, acts, answer := PassFlag(src, alone, stale);
      if !connected {
        return false, acts, answer;
      }
      var room;
      room, acts, answer := FindRoom(s0, acts, src, alone, stale);
      if !room {
        return false, acts, answer;
      }
      acts := CopyIn(s0, acts, src, alone, stale);
      ghost var s := View();
      StoreWriterIdx();
      answer := Accepted(src);
      acts := Told(s0, acts, s, PublishWriter, View(), answer, true, stale);
      return true, acts, answer;
    }

    /** The start of `try_enqueue`: is there a client? */
    method PassFlag(src: Element, alone: bool, stale: bool)
      returns (connected: bool, ghost acts: seq<Action>, ghost answer: Event)
      requires Valid() && producer.PIdle? && |src| == elementSize
      modifies this`clientConnected, this`localWriterIdx, this`readerIdx, this`consumer, this`deq, this`producer
      ensures Valid() && old(readerIdx) <= readerIdx
      ensures ProducerRun(old(View()), acts, View(), if connected then [] else [answer], stale)
      ensures if connected then producer == PCheck(src) else answer == RefusedNoClient && producer.PIdle?
      ensures alone ==> connected == old(clientConnected) && readerIdx == old(readerIdx)
    {
      ghost var s0 := View();
      EmptyRun(s0, stale);
      BeginEnqueue(src);
      hide *;
      acts := Silent(s0, [], s0, StartEnqueue(src), View(), true, stale);
      acts := ConsumerRunsOn(s0, acts, alone, stale);
      ghost var s := View();
      connected := LoadConnected();
      answer := RefusedNoClient;
      if connected {
        acts := Silent(s0, acts, s, LoadFlag, View(), true, stale);
        acts := ConsumerRunsOn(s0, acts, alone, stale);
      } else {
        acts := Told(s0, acts, s, LoadFlag, View(), answer, true, stale);
      }
    }

    /** The two full tests of `try_enqueue`, on the cached index and then on the loaded one. */
    method FindRoom(ghost s0: State, ghost before: seq<Action>, src: Element, alone: bool, stale: bool)
      returns (room: bool, ghost acts: seq<Action>, ghost answer: Event)
      requires Valid() && ProducerRun(s0, before, View(), [], stale) && producer == PCheck(src)
      modifies this`clientConnected, this`localWriterIdx, this`readerIdx, this`consumer, this`deq,
               this`localReaderIdx, this`producer
      ensures Valid() && room == HasRoom(writerIdx, localReaderIdx, elementCapacity)
      ensures if room then ProducerRun(s0, acts, View(), [], stale)
              else answer == RefusedFull(localReaderIdx) && ProducerRun(s0, acts, View(), [answer], stale)
      ensures producer == if room then PCopy(src, writerIdx, AllBytes(elementSize)) else PIdle
      ensures if old(HasRoom(writerIdx, localReaderIdx, elementCapacity))
              then localReaderIdx == old(localReaderIdx)
              else !stale ==> old(readerIdx) <= localReaderIdx && (alone ==> localReaderIdx == old(readerIdx))
    {
      hide *;
      ghost var s := View();
      answer := Internal;
      var full := TestCachedReaderIdx();
      acts := Silent(s0, before, s, TestCachedReader, View(), true, stale);
      if full {
        acts := ConsumerRunsOn(s0, acts, alone, stale);
        s := View();
        var seen, reallyFull := LoadReaderIdx(stale);
        if reallyFull {
          answer := RefusedFull(seen);
          acts := Told(s0, acts, s, LoadReader(seen), View(), answer, !stale, stale);
          return false, acts, answer;
        }
        acts := Silent(s0, acts, s, LoadReader(seen), View(), !stale, stale);
      }
      room := true;
    }

    /** The `memcpy` of `try_enqueue`: the bytes of the slot become those of the element. */
    method CopyIn(ghost s0: State, ghost before: seq<Action>, src: Element, alone: bool, stale: bool)
      returns (ghost acts: seq<Action>)
      requires Valid() && ProducerRun(s0, before, View(), [], stale) && |src| == elementSize
      requires producer == PCopy(src, writerIdx, AllBytes(elementSize))
      modifies this`clientConnected, this`localWriterIdx, this`readerIdx, this`consumer, this`deq,
               this`producer, data
      ensures Valid() && ProducerRun(s0, acts, View(), [], stale)
      ensures producer == PCopy(src, writerIdx, {})
      ensures elementCapacity > 0 && data[..] == Overwritten(old(data[..]), Slot(writerIdx), src)
    {
      hide *;
      Indices(this);
      NoBytes();
      acts := before;
      ghost var at := Slot(writerIdx);
      SlotIs(this, writerIdx);
      var k := 0;
      while k < elementSize
        invariant k <= elementSize
        invariant producer == PCopy(src, writerIdx, AllBytes(elementSize) - AllBytes(k))
        invariant Valid() && ProducerRun(s0, acts, View(), [], stale)
        invariant forall j | 0 <= j < data.Length :: data[j] == if 0 <= j - at < k then src[j - at] else old(data[j])
      {
        acts := ConsumerRunsOn(s0, acts, alone, stale);
        ghost var s := View();
        StillLeft(elementSize, k);
        StoreOneByte(k);
        acts := Silent(s0, acts, s, StoreByte(k), View(), true, stale);
        k := k + 1;
      }
      acts := ConsumerRunsOn(s0, acts, alone, stale);
      assert AllBytes(elementSize) - AllBytes(k) == {};
    }

    /**
     `try_dequeue`. The whole call, with everything the writer side does meanwhile, is a run of
     the ring in which the consumer is told once: delivered with these bytes, or empty.
     */
    method TryDequeue(dst: Element, alone: bool, stale: bool)
      returns (ok: bool, out: Element, ghost acts: seq<Action>, ghost answer: Event)
      requires Valid() && consumer.CIdle? && |dst| == elementSize
      modifies this`clientConnected, this`localReaderIdx, this`writerIdx, this`producer, this`enq, data,
               this`localWriterIdx, this`readerIdx, this`consumer, this`deq
      ensures Valid() && consumer.CIdle?
      ensures ConsumerRun(old(View()), acts, View(), [answer], stale)
      ensures if ok then answer == Delivered(out) else answer.FoundEmpty? && out == dst
      ensures deq == (if ok then old(deq) + [out] else old(deq)) && readerIdx == old(readerIdx) + (if ok then 1 else 0)
      ensures ok ==> readerIdx <= |enq| && out == enq[old(readerIdx)]
      ensures ok && old(readerIdx < writerIdx) ==>
        elementCapacity > 0 && Slot(old(readerIdx)) + elementSize <= data.Length
        && out == old(data[Slot(readerIdx)..Slot(readerIdx) + elementSize])
      ensures old(readerIdx < localWriterIdx) ==> ok && localWriterIdx == old(localWriterIdx)
      ensures !stale && old(readerIdx < writerIdx) ==> ok
      ensures answer.FoundEmpty? ==>
        answer.seen == localWriterIdx && localWriterIdx <= readerIdx && (!stale ==> old(writerIdx) <= answer.seen)
      ensures alone && !stale ==> (ok <==> old(readerIdx < writerIdx))
    {
      hide *;
      ghost var s0 := View();
      ghost var was := enq;
      Indices(this);
      if readerIdx < writerIdx {
        FirstInSlot(this);
      }
      var there;
      there, acts, answer := FindElement(dst, alone, stale);
      if !there {
        return false, dst, acts, answer;
      }
      acts := CopyOut(s0, acts, alone, stale);
      ghost var s := View();
      out := StoreReaderIdx();
      answer := Delivered(out);
      acts := ToldC(s0, acts, s, PublishReader, View(), answer, true, stale);
      ok := true;
      assert was <= enq;
    }

    /** The start of `try_dequeue`: the two empty tests, on the cached index and then on the loaded one. */
    method FindElement(dst: Element, alone: bool, stale: bool)
      returns (there: bool, ghost acts: seq<Action>, ghost answer: Event)
      requires Valid() && consumer.CIdle? && |dst| == elementSize
      modifies this`clientConnected, this`localReaderIdx, this`writerIdx, this`producer, this`enq, data,
               this`localWriterIdx, this`consumer
      ensures Valid() && there == (readerIdx < localWriterIdx) && old(enq) <= enq
      ensures if there then ConsumerRun(old(View()), acts, View(), [], stale)
              else answer == FoundEmpty(localWriterIdx) && ConsumerRun(old(View()), acts, View(), [answer], stale)
      ensures consumer == if there then CCopy(dst, readerIdx, AllBytes(elementSize)) else CIdle
      ensures if readerIdx < old(localWriterIdx) then localWriterIdx == old(localWriterIdx)
              else !stale ==> old(writerIdx) <= localWriterIdx && (alone ==> localWriterIdx == old(writerIdx))
    {
      hide *;
      ghost var s0 := View();
      EmptyRun(s0, stale);
      BeginDequeue(dst);
      acts := SilentC(s0, [], s0, StartDequeue(dst), View(), true, stale);
      acts := ProducerRunsOn(s0, acts, alone, stale);
      ghost var s := View();
      answer := Internal;
      var empty := TestCachedWriterIdx();
      acts := SilentC(s0, acts, s, TestCachedWriter, View(), true, stale);
      if empty {
        acts := ProducerRunsOn(s0, acts, alone, stale);
        s := View();
        var seen, reallyEmpty := LoadWriterIdx(stale);
        if reallyEmpty {
          answer := FoundEmpty(seen);
          acts := ToldC(s0, acts, s, LoadWriter(seen), View(), answer, !stale, stale);
          return false, acts, answer;
        }
        acts := SilentC(s0, acts, s, LoadWriter(seen), View(), !stale, stale);
      }
      there := true;
    }

    /** The `memcpy` of `try_dequeue`. */
    method CopyOut(ghost s0: State, ghost before: seq<Action>, alone: bool, stale: bool)
      returns (ghost acts: seq<Action>)
      requires Valid() && ConsumerRun(s0, before, View(), [], stale) && consumer.CCopy?
      requires consumer.left == AllBytes(elementSize)
      modifies this`clientConnected, this`localReaderIdx, this`writerIdx, this`producer, this`enq, data, this`consumer
      ensures Valid() && ConsumerRun(s0, acts, View(), [], stale) && old(enq) <= enq
      ensures consumer.CCopy? && consumer.left == {}
    {
      hide *;
      NoBytes();
      acts := before;
      var k := 0;
      while k < elementSize
        invariant k <= elementSize && consumer.CCopy? && old(enq) <= enq
        invariant consumer.left == AllBytes(elementSize) - AllBytes(k)
        invariant Valid() && ConsumerRun(s0, acts, View(), [], stale)
      {
        acts := ProducerRunsOn(s0, acts, alone, stale);
        ghost var s := View();
        StillLeft(elementSize, k);
        FetchOneByte(k);
        acts := SilentC(s0, acts, s, FetchByte(k), View(), true, stale);
        k := k + 1;
      }
      acts := ProducerRunsOn(s0, acts, alone, stale);
      assert AllBytes(elementSize) - AllBytes(k) == {};
    }
  }

  /** The bytes from `at` on are replaced. */
  function Overwritten(bytes: seq<Byte>, at: nat, src: Element): (r: seq<Byte>)
    ensures |r| == |bytes|
    ensures forall j | 0 <= j < |bytes| :: r[j] == if at <= j < at + |src| then src[j - at] else bytes[j]
  {
    seq(|bytes|, j requires 0 <= j < |bytes| => if at <= j < at + |src| then src[j - at] else bytes[j])
  }

  lemma Indices(q: SpscShared)
    requires q.Valid()
    ensures q.elementCapacity > 0 && q.localReaderIdx <= q.readerIdx <= q.localWriterIdx <= q.writerIdx
  {
  }

  lemma SlotIs(q: SpscShared, i: u64)
    requires q.elementCapacity > 0
    ensures q.Slot(i) == (i % q.elementCapacity) * q.elementSize
  {
  }

  lemma NoBytes()
    ensures AllBytes(0) == {}
  {
  }

  lemma StillLeft(n: nat, k: nat)
    requires k < n
    ensures k in AllBytes(n) - AllBytes(k)
    ensures AllBytes(n) - AllBytes(k) - {k} == AllBytes(n) - AllBytes(k + 1)
  {
  }

  /** What lies in the slot of the next element, if there is one. */
  lemma FirstInSlot(q: SpscShared)
    requires q.Valid() && q.readerIdx < q.writerIdx
    ensures q.elementCapacity > 0 && q.readerIdx < |q.enq| && q.Slot(q.readerIdx) + q.elementSize <= q.data.Length
    ensures q.data[q.Slot(q.readerIdx)..q.Slot(q.readerIdx) + q.elementSize] == q.enq[q.readerIdx]
  {
    var s := q.View();
    SlotInside(s.capacity, s.elementSize, s.reader);
    assert SlotHolds(s, s.reader);
    forall k: nat | k < s.elementSize ensures q.data[q.Slot(q.readerIdx) + k] == s.enq[s.reader][k] {
      QueuedBytes(s, s.reader, k);
    }
  }

  /** The run with one more step of the producer, which answers nothing (or, Told, e). */
  ghost method Silent(s0: State, acts: seq<Action>, s: State, a: Action, s': State, now: bool, stale: bool)
    returns (acts': seq<Action>)
    requires ProducerRun(s0, acts, s, [], stale) && Took(s, a, s', Internal, now) && (now || stale)
    ensures ProducerRun(s0, acts', s', [], stale)
  {
    assert Took(s, a, s', Internal, !stale);
    ProducerRunThen(s0, acts, s, a, s', Internal, stale);
    ProducerAnswersOne(Internal);
    acts' := acts + [a];
  }

  ghost method Told(s0: State, acts: seq<Action>, s: State, a: Action, s': State, e: Event, now: bool, stale: bool)
    returns (acts': seq<Action>)
    requires ProducerRun(s0, acts, s, [], stale) && Took(s, a, s', e, now) && (now || stale)
    requires e.Accepted? || e.RefusedFull? || e.RefusedNoClient?
    ensures ProducerRun(s0, acts', s', [e], stale)
  {
    assert Took(s, a, s', e, !stale);
    ProducerRunThen(s0, acts, s, a, s', e, stale);
    ProducerAnswersOne(e);
    acts' := acts + [a];
  }

  ghost method SilentC(s0: State, acts: seq<Action>, s: State, a: Action, s': State, now: bool, stale: bool)
    returns (acts': seq<Action>)
    requires ConsumerRun(s0, acts, s, [], stale) && Took(s, a, s', Internal, now) && (now || stale)
    ensures ConsumerRun(s0, acts', s', [], stale)
  {
    assert Took(s, a, s', Internal, !stale);
    ConsumerRunThen(s0, acts, s, a, s', Internal, stale);
    ConsumerAnswersOne(Internal);
    acts' := acts + [a];
  }

  ghost method ToldC(s0: State, acts: seq<Action>, s: State, a: Action, s': State, e: Event, now: bool, stale: bool)
    returns (acts': seq<Action>)
    requires ConsumerRun(s0, acts, s, [], stale) && Took(s, a, s', e, now) && (now || stale)
    requires e.Delivered? || e.FoundEmpty?
    ensures ConsumerRun(s0, acts', s', [e], stale)
  {
    assert Took(s, a, s', e, !stale);
    ConsumerRunThen(s0, acts, s, a, s', e, stale);
    ConsumerAnswersOne(e);
    acts' := acts + [a];
  }
}
