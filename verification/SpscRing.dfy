/**
 The shared-memory ring of the day6 queue as a state machine. One producer and one consumer
 take their steps in any order; a step is one access to shared memory (or to the cached index
 a side keeps for itself), and `memcpy` is one step per byte, in any order of the bytes.
 */
module SpscRing {
  import opened Arith64

  type Element = seq<Byte>

  /** Where the producer is inside `try_enqueue`; `left` are the bytes still to be copied. */
  datatype Producer =
    | PIdle
    | PFlag(src: Element)
    | PCheck(src: Element)
    | PRefresh(src: Element, w: u64)
    | PCopy(src: Element, w: u64, left: set<nat>)

  /** Where the consumer is inside `try_dequeue`; CGone when no reader process is attached. */
  datatype Consumer =
    | CGone
    | CIdle
    | CCheck(dst: Element)
    | CRefresh(dst: Element, r: u64)
    | CCopy(dst: Element, r: u64, left: set<nat>)

  /**
   The mapped region, the two program counters, and what has been published so far:
   `enq` the elements accepted, `deq` the elements delivered.
   */
  datatype State = State(
    capacity: u64, elementSize: nat,
    connected: bool,
    localWriter: u64, localReader: u64,
    writer: u64, reader: u64,
    data: seq<Byte>,
    producer: Producer, consumer: Consumer,
    enq: seq<Element>, deq: seq<Element>)

  /**
   The steps. `seen` is the value that a load of the other side's index returns, which
   under acquire/release ordering may be an old one.
   */
  datatype Action =
    | StartEnqueue(src: Element)
    | LoadFlag
    | TestCachedReader
    | LoadReader(seen: u64)
    | StoreByte(k: nat)
    | PublishWriter
    | StartDequeue(dst: Element)
    | TestCachedWriter
    | LoadWriter(seen: u64)
    | FetchByte(k: nat)
    | PublishReader
    | Attach
    | Detach
    | Crash
    | Refuse    // a reader process is refused, and its destructor clears the flag on the way out

  /** What a step tells the caller; every call of the queue returns at exactly one of these. */
  datatype Event =
    | Internal
    | Accepted(x: Element)      // try_enqueue returned true
    | RefusedNoClient           // try_enqueue returned false
    | RefusedFull(seen: u64)    // try_enqueue returned false
    | Delivered(x: Element)     // try_dequeue returned true
    | FoundEmpty(seen: u64)     // try_dequeue returned false
    | Attached                  // a reader was created
    | Detached                  // a reader was destroyed
    | ReaderRefused             // a reader was not created

  function AllBytes(n: nat): (s: set<nat>)
    ensures forall k: nat :: k in s <==> k < n
  {
    if n == 0 then {} else AllBytes(n - 1) + {n - 1}
  }

  /** Byte offset of the slot for index i, computed with the mask. */
  function Offset(s: State, i: u64): nat
    requires s.capacity > 0
  {
    And(i, s.capacity - 1) * s.elementSize
  }

  /** The capacity test of both full checks: the addition is unsigned and wraps. */
  predicate TestFull(s: State, writer: u64, reader: u64) {
    writer >= Add(reader, s.capacity)
  }

  ghost predicate Configured(s: State) {
    && IsPow2(s.capacity)
    && s.elementSize > 0
    && |s.data| == s.capacity * s.elementSize
  }

  /** The region as the writer process creates it; the data bytes may hold anything. */
  ghost predicate Init(s: State) {
    && Configured(s)
    && !s.connected
    && s.localWriter == s.localReader == s.writer == s.reader == 0
    && s.producer == PIdle && s.consumer == CGone
    && s.enq == s.deq == []
  }

  ghost predicate Enabled(s: State, a: Action) {
    match a
    case StartEnqueue(src) => s.producer.PIdle? && |src| == s.elementSize
    case LoadFlag => s.producer.PFlag?
    case TestCachedReader => s.producer.PCheck?
    case LoadReader(seen) => s.producer.PRefresh? && s.localReader <= seen <= s.reader
    case StoreByte(k) => s.producer.PCopy? && k in s.producer.left
    case PublishWriter => s.producer.PCopy? && s.producer.left == {}
    case StartDequeue(dst) => s.consumer.CIdle? && |dst| == s.elementSize
    case TestCachedWriter => s.consumer.CCheck?
    case LoadWriter(seen) => s.consumer.CRefresh? && s.localWriter <= seen <= s.writer
    case FetchByte(k) => s.consumer.CCopy? && k in s.consumer.left
    case PublishReader => s.consumer.CCopy? && s.consumer.left == {}
    case Attach => s.consumer.CGone?
    case Detach => s.consumer.CIdle?
    case Crash => !s.consumer.CGone?
    case Refuse => true
  }

  /** A load is fresh when it returns the value that is in memory at that moment. */
  predicate Fresh(s: State, a: Action) {
    (a.LoadReader? ==> a.seen == s.reader) && (a.LoadWriter? ==> a.seen == s.writer)
  }

  function BeginStore(s: State, src: Element, w: u64): State {
    s.(producer := PCopy(src, w, AllBytes(s.elementSize)))
  }

  function BeginFetch(s: State, dst: Element, r: u64): State {
    s.(consumer := CCopy(dst, r, AllBytes(s.elementSize)))
  }

  /** The producer's byte store, where it is in bounds; StoreInBounds shows that it always is. */
  ghost function StoreAt(s: State, k: nat): State
    requires s.producer.PCopy?
  {
    var PCopy(src, w, left) := s.producer;
    if s.capacity > 0 && Offset(s, w) + k < |s.data| && k < |src| then
      s.(data := s.data[Offset(s, w) + k := src[k]], producer := PCopy(src, w, left - {k}))
    else s
  }

  ghost function FetchAt(s: State, k: nat): State
    requires s.consumer.CCopy?
  {
    var CCopy(dst, r, left) := s.consumer;
    if s.capacity > 0 && Offset(s, r) + k < |s.data| && k < |dst| then
      s.(consumer := CCopy(dst[k := s.data[Offset(s, r) + k]], r, left - {k}))
    else s
  }

  ghost function Next(s: State, a: Action): State
    requires Enabled(s, a)
  {
    match a
    case StartEnqueue(src) => s.(producer := PFlag(src))
    case LoadFlag =>
      if s.connected then s.(producer := PCheck(s.producer.src)) else s.(producer := PIdle)
    case TestCachedReader =>
      if TestFull(s, s.writer, s.localReader)
      then s.(producer := PRefresh(s.producer.src, s.writer))
      else BeginStore(s, s.producer.src, s.writer)
    case LoadReader(seen) =>
      var s' := s.(localReader := seen);
      if TestFull(s, s.producer.w, seen) then s'.(producer := PIdle)
      else BeginStore(s', s.producer.src, s.producer.w)
    case StoreByte(k) => StoreAt(s, k)
    case PublishWriter =>
      s.(writer := Add(s.producer.w, 1), producer := PIdle, enq := s.enq + [s.producer.src])
    case StartDequeue(dst) => s.(consumer := CCheck(dst))
    case TestCachedWriter =>
      if s.reader >= s.localWriter
      then s.(consumer := CRefresh(s.consumer.dst, s.reader))
      else BeginFetch(s, s.consumer.dst, s.reader)
    case LoadWriter(seen) =>
      var s' := s.(localWriter := seen);
      if s.consumer.r >= seen then s'.(consumer := CIdle)
      else BeginFetch(s', s.consumer.dst, s.consumer.r)
    case FetchByte(k) => FetchAt(s, k)
    case PublishReader =>
      s.(reader := Add(s.consumer.r, 1), consumer := CIdle, deq := s.deq + [s.consumer.dst])
    case Attach => s.(connected := true, consumer := CIdle)
    case Detach => s.(connected := false, consumer := CGone)
    case Crash => s.(consumer := CGone)
    case Refuse => s.(connected := false)
  }

  ghost function EventOf(s: State, a: Action): Event
    requires Enabled(s, a)
  {
    match a
    case LoadFlag => if s.connected then Internal else RefusedNoClient
    case LoadReader(seen) => if TestFull(s, s.producer.w, seen) then RefusedFull(seen) else Internal
    case PublishWriter => Accepted(s.producer.src)
    case LoadWriter(seen) => if s.consumer.r >= seen then FoundEmpty(seen) else Internal
    case PublishReader => Delivered(s.consumer.dst)
    case Attach => Attached
    case Detach => Detached
    case Refuse => ReaderRefused
    case _ => Internal
  }

  // ---------------------------------------------------------------- runs

  ghost predicate EnabledRun(s: State, acts: seq<Action>)
    decreases |acts|
  {
    acts == [] || (Enabled(s, acts[0]) && EnabledRun(Next(s, acts[0]), acts[1..]))
  }

  ghost function Run(s: State, acts: seq<Action>): State
    requires EnabledRun(s, acts)
    decreases |acts|
  {
    if acts == [] then s else Run(Next(s, acts[0]), acts[1..])
  }

  ghost function Events(s: State, acts: seq<Action>): seq<Event>
    requires EnabledRun(s, acts)
    decreases |acts|
  {
    if acts == [] then [] else [EventOf(s, acts[0])] + Events(Next(s, acts[0]), acts[1..])
  }

  /** Every load of the run returns the value that is in memory. */
  ghost predicate FreshRun(s: State, acts: seq<Action>)
    requires EnabledRun(s, acts)
    decreases |acts|
  {
    acts == [] || (Fresh(s, acts[0]) && FreshRun(Next(s, acts[0]), acts[1..]))
  }

  // ---------------------------------------------------------------- the invariant

  /** The chain of indices; a slot is reused only after its element has been consumed. */
  ghost predicate IndexChain(s: State) {
    && s.localReader <= s.reader <= s.localWriter <= s.writer
    && s.writer <= s.localReader + s.capacity
    && |s.enq| == s.writer && |s.deq| == s.reader
  }

  /** The slot of index i holds the i-th accepted element, byte for byte. */
  ghost predicate SlotHolds(s: State, i: nat)
    requires s.capacity > 0 && i < |s.enq|
  {
    && |s.enq[i]| == s.elementSize
    && forall k: nat :: k < s.elementSize ==> ByteAt(s, i, k) == s.enq[i][k]
  }

  ghost function ByteAt(s: State, i: nat, k: nat): int
    requires s.capacity > 0
  {
    var at := Position(s.capacity, s.elementSize, i, k);
    if at < |s.data| then s.data[at] else -1
  }

  /** Where byte k of the i-th element lies, with the modulo of the day4 ring. */
  function Position(capacity: nat, size: nat, i: nat, k: nat): nat
    requires capacity > 0
  {
    (i % capacity) * size + k
  }

  ghost predicate ProducerInv(s: State)
    requires s.capacity > 0
  {
    match s.producer
    case PIdle => true
    case PFlag(src) => |src| == s.elementSize
    case PCheck(src) => |src| == s.elementSize
    case PRefresh(src, w) => |src| == s.elementSize && w == s.writer
    case PCopy(src, w, left) =>
      && |src| == s.elementSize && w == s.writer < s.localReader + s.capacity < TWO_64
      && left <= AllBytes(s.elementSize)
      && forall k: nat :: k < s.elementSize && k !in left ==> ByteAt(s, w, k) == src[k]
  }

  ghost predicate ConsumerInv(s: State)
    requires s.capacity > 0
  {
    match s.consumer
    case CGone => true
    case CIdle => true
    case CCheck(dst) => |dst| == s.elementSize
    case CRefresh(dst, r) => |dst| == s.elementSize && r == s.reader
    case CCopy(dst, r, left) =>
      && |dst| == s.elementSize && r == s.reader < s.localWriter
      && left <= AllBytes(s.elementSize)
      && r < |s.enq| && |s.enq[r]| == s.elementSize
      && forall k: nat :: k < s.elementSize && k !in left ==> dst[k] == s.enq[r][k]
  }

  ghost predicate Inv(s: State) {
    && Configured(s) && s.capacity > 0
    && IndexChain(s)
    && (forall i: nat :: s.reader <= i < s.writer ==> SlotHolds(s, i))
    && s.deq == s.enq[..s.reader]
    && ProducerInv(s)
    && ConsumerInv(s)
  }

  // ---------------------------------------------------------------- slots

  lemma Pow2Positive(n: nat)
    requires IsPow2(n)
    ensures n > 0
  {
  }

  lemma MulMonotone(a: nat, b: nat, m: nat)
    requires a <= b
    ensures a * m <= b * m
  {
  }

  /** A slot lies inside the data region. */
  lemma SlotInside(capacity: nat, size: nat, i: nat)
    requires capacity > 0
    ensures (i % capacity) * size + size <= capacity * size
  {
    MulMonotone(i % capacity + 1, capacity, size);
  }

  /** Slots of two indices less than one capacity apart do not share a byte. */
  lemma SlotsDisjoint(capacity: nat, size: nat, i: nat, j: nat)
    requires i < j < i + capacity
    ensures (i % capacity) * size + size <= (j % capacity) * size
         || (j % capacity) * size + size <= (i % capacity) * size
  {
    var a, b := i % capacity, j % capacity;
    if a == b {
      var d := j / capacity - i / capacity;
      assert d * capacity == j - i;
      MulAtLeast(d, capacity);
      assert false;
    } else if a < b {
      MulMonotone(a + 1, b, size);
    } else {
      MulMonotone(b + 1, a, size);
    }
  }

  lemma InitHasInv(s: State)
    requires Init(s)
    ensures Inv(s)
  {
    Pow2Positive(s.capacity);
  }

  /** The capacity test lets the producer through only where nothing has wrapped. */
  lemma PassedTest(s: State, reader: u64)
    requires s.capacity > 0 && reader <= s.writer
    requires !TestFull(s, s.writer, reader)
    ensures s.writer < reader + s.capacity < TWO_64
  {
  }

  // ---------------------------------------------------------------- every step keeps it

  /** A byte store stays inside the region and inside the producer's own slot. */
  lemma StoreInBounds(s: State, k: nat)
    requires Inv(s) && s.producer.PCopy? && k in s.producer.left
    ensures s.capacity > 0
    ensures Offset(s, s.producer.w) + k == Position(s.capacity, s.elementSize, s.producer.w, k)
    ensures k < s.elementSize == |s.producer.src| && Offset(s, s.producer.w) + k < |s.data|
  {
    MaskIsModulo(s.producer.w, s.capacity);
    SlotInside(s.capacity, s.elementSize, s.producer.w);
    assert k in AllBytes(s.elementSize);
  }

  lemma FetchInBounds(s: State, k: nat)
    requires Inv(s) && s.consumer.CCopy? && k in s.consumer.left
    ensures s.capacity > 0
    ensures Offset(s, s.consumer.r) + k == Position(s.capacity, s.elementSize, s.consumer.r, k)
    ensures k < s.elementSize == |s.consumer.dst| && Offset(s, s.consumer.r) + k < |s.data|
  {
    MaskIsModulo(s.consumer.r, s.capacity);
    SlotInside(s.capacity, s.elementSize, s.consumer.r);
    assert k in AllBytes(s.elementSize);
  }

  /** A store into the producer's slot changes one byte of it and no byte of any queued slot. */
  lemma StoreTouchesOneByte(s: State, k: nat, i: nat, j: nat)
    requires Inv(s) && Enabled(s, StoreByte(k))
    requires s.reader <= i <= s.writer && j < s.elementSize
    ensures ByteAt(Next(s, StoreByte(k)), i, j)
         == if i == s.writer && j == k then s.producer.src[k] else ByteAt(s, i, j)
  {
    StoreInBounds(s, k);
    DistinctBytes(s.capacity, s.elementSize, i, j, s.writer, k);
    hide Position, Offset;
    assert Position(s.capacity, s.elementSize, i, j) < |s.data|;
  }

  lemma DistinctBytes(capacity: nat, size: nat, i: nat, j: nat, w: nat, k: nat)
    requires i <= w < i + capacity && j < size && k < size
    ensures Position(capacity, size, i, j) < capacity * size
    ensures Position(capacity, size, i, j) == Position(capacity, size, w, k) <==> i == w && j == k
  {
    SlotInside(capacity, size, i);
    if i < w {
      SlotsDisjoint(capacity, size, i, w);
    }
  }

  lemma StoreKeepsSlot(s: State, k: nat, i: nat)
    requires Inv(s) && Enabled(s, StoreByte(k)) && s.reader <= i < s.writer
    ensures SlotHolds(Next(s, StoreByte(k)), i)
  {
    assert SlotHolds(s, i);
    forall j: nat | j < s.elementSize
      ensures ByteAt(Next(s, StoreByte(k)), i, j) == ByteAt(s, i, j)
    {
      StoreTouchesOneByte(s, k, i, j);
    }
  }

  lemma StoreByteKeepsInv(s: State, k: nat)
    requires Inv(s) && Enabled(s, StoreByte(k))
    ensures Inv(Next(s, StoreByte(k)))
  {
    StoreInBounds(s, k);
    var s' := Next(s, StoreByte(k));
    forall i: nat | s.reader <= i < s.writer ensures SlotHolds(s', i) {
      StoreKeepsSlot(s, k, i);
    }
    forall j: nat | j < s.elementSize && j !in s'.producer.left
      ensures ByteAt(s', s.writer, j) == s.producer.src[j]
    {
      StoreTouchesOneByte(s, k, s.writer, j);
    }
    assert ConsumerInv(s');
  }

  lemma PublishWriterKeepsInv(s: State)
    requires Inv(s) && Enabled(s, PublishWriter)
    ensures Inv(Next(s, PublishWriter))
  {
    var s' := Next(s, PublishWriter);
    assert s'.writer == s.writer + 1;
    forall i: nat | s'.reader <= i < s'.writer ensures SlotHolds(s', i) {
      if i < s.writer {
        assert SlotHolds(s, i);
        assert s'.enq[i] == s.enq[i];
      }
      forall k: nat | k < s.elementSize ensures ByteAt(s', i, k) == ByteAt(s, i, k) {}
    }
  }

  lemma FetchByteKeepsInv(s: State, k: nat)
    requires Inv(s) && Enabled(s, FetchByte(k))
    ensures Inv(Next(s, FetchByte(k)))
  {
    FetchInBounds(s, k);
    var s' := Next(s, FetchByte(k));
    assert SlotHolds(s, s.consumer.r);
    assert ByteAt(s, s.consumer.r, k) == s.enq[s.consumer.r][k];
    SameSlots(s, s');
  }

  /** Steps that leave data and accepted elements alone leave every slot alone. */
  lemma SameSlots(s: State, s': State)
    requires s.capacity > 0 && s'.capacity == s.capacity && s'.elementSize == s.elementSize
    requires s'.data == s.data && s'.enq == s.enq
    ensures forall i: nat, k: nat :: ByteAt(s', i, k) == ByteAt(s, i, k)
    ensures forall i: nat :: i < |s.enq| && SlotHolds(s, i) ==> SlotHolds(s', i)
  {
    forall i: nat, k: nat ensures ByteAt(s', i, k) == ByteAt(s, i, k) {}
    forall i: nat | i < |s.enq| && SlotHolds(s, i) ensures SlotHolds(s', i) {}
  }

  lemma PublishReaderKeepsInv(s: State)
    requires Inv(s) && Enabled(s, PublishReader)
    ensures Inv(Next(s, PublishReader))
  {
    var s' := Next(s, PublishReader);
    assert s'.reader == s.reader + 1;
    assert s.consumer.dst == s.enq[s.reader];
    assert s'.deq == s'.enq[..s'.reader];
    SameSlots(s, s');
    forall i: nat | s'.reader <= i < s'.writer ensures SlotHolds(s', i) {
      assert SlotHolds(s, i);
    }
  }

  lemma BeginStoreKeepsInv(s: State, seen: u64)
    requires Inv(s) && (s.producer.PCheck? || s.producer.PRefresh?)
    requires s.localReader <= seen <= s.reader && !TestFull(s, s.writer, seen)
    ensures Inv(BeginStore(s.(localReader := seen), s.producer.src, s.writer))
  {
    PassedTest(s, seen);
    SameSlots(s, BeginStore(s.(localReader := seen), s.producer.src, s.writer));
  }

  lemma BeginFetchKeepsInv(s: State, seen: u64)
    requires Inv(s) && (s.consumer.CCheck? || s.consumer.CRefresh?)
    requires s.localWriter <= seen <= s.writer && s.reader < seen
    ensures Inv(BeginFetch(s.(localWriter := seen), s.consumer.dst, s.reader))
  {
    assert SlotHolds(s, s.reader);
    SameSlots(s, BeginFetch(s.(localWriter := seen), s.consumer.dst, s.reader));
  }

  lemma ControlStepKeepsInv(s: State, a: Action)
    requires Inv(s) && Enabled(s, a)
    requires a.StartEnqueue? || a.LoadFlag? || a.StartDequeue?
          || a.Attach? || a.Detach? || a.Crash? || a.Refuse?
    ensures Inv(Next(s, a))
  {
    SameSlots(s, Next(s, a));
  }

  lemma ReaderTestKeepsInv(s: State, a: Action)
    requires Inv(s) && Enabled(s, a) && (a.TestCachedReader? || a.LoadReader?)
    ensures Inv(Next(s, a))
  {
    var seen := if a.TestCachedReader? then s.localReader else a.seen;
    assert s.(localReader := s.localReader) == s;
    if TestFull(s, s.writer, seen) {
      SameSlots(s, Next(s, a));
    } else {
      BeginStoreKeepsInv(s, seen);
    }
  }

  lemma WriterTestKeepsInv(s: State, a: Action)
    requires Inv(s) && Enabled(s, a) && (a.TestCachedWriter? || a.LoadWriter?)
    ensures Inv(Next(s, a))
  {
    var seen := if a.TestCachedWriter? then s.localWriter else a.seen;
    assert s.(localWriter := s.localWriter) == s;
    if s.reader >= seen {
      SameSlots(s, Next(s, a));
    } else {
      BeginFetchKeepsInv(s, seen);
    }
  }

  lemma StepKeepsInv(s: State, a: Action)
    requires Inv(s) && Enabled(s, a)
    ensures Inv(Next(s, a))
  {
    hide Inv, Next;
    match a
    case StoreByte(k) => StoreByteKeepsInv(s, k);
    case PublishWriter => PublishWriterKeepsInv(s);
    case FetchByte(k) => FetchByteKeepsInv(s, k);
    case PublishReader => PublishReaderKeepsInv(s);
    case TestCachedReader => ReaderTestKeepsInv(s, a);
    case LoadReader(seen) => ReaderTestKeepsInv(s, a);
    case TestCachedWriter => WriterTestKeepsInv(s, a);
    case LoadWriter(seen) => WriterTestKeepsInv(s, a);
    case _ => ControlStepKeepsInv(s, a);
  }

  lemma {:induction false} RunKeepsInv(s: State, acts: seq<Action>)
    requires Inv(s) && EnabledRun(s, acts)
    ensures Inv(Run(s, acts))
    decreases |acts|
  {
    if acts != [] {
      StepKeepsInv(s, acts[0]);
      RunKeepsInv(Next(s, acts[0]), acts[1..]);
    }
  }
}
