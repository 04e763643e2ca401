/** Whole calls, one after the other, as runs of the ring; used to reach states worth knowing about. */
module SpscCalls {
  import opened Arith64
  import opened SpscRing
  import opened SpscFifo

  lemma {:induction false} RunThen(s: State, acts: seq<Action>, a: Action)
    requires EnabledRun(s, acts) && Enabled(Run(s, acts), a)
    ensures EnabledRun(s, acts + [a]) && Run(s, acts + [a]) == Next(Run(s, acts), a)
    ensures Events(s, acts + [a]) == Events(s, acts) + [EventOf(Run(s, acts), a)]
    decreases |acts|
  {
    hide Next, Enabled, EventOf;
    var all := acts + [a];
    if acts == [] {
      assert all[1..] == [] && all[0] == a;
    } else {
      assert all[0] == acts[0] && all[1..] == acts[1..] + [a];
      RunThen(Next(s, acts[0]), acts[1..], a);
    }
  }

  /** Some run of the two sides leads from s to s'. */
  ghost predicate Leads(s: State, s': State) {
    exists acts :: EnabledRun(s, acts) && Run(s, acts) == s'
  }

  lemma LeadsNowhere(s: State)
    ensures Leads(s, s)
  {
    assert EnabledRun(s, []) && Run(s, []) == s;
  }

  lemma LeadsThen(s0: State, s: State, a: Action)
    requires Leads(s0, s) && Enabled(s, a)
    ensures Leads(s0, Next(s, a))
  {
    hide Next, Enabled;
    var acts :| EnabledRun(s0, acts) && Run(s0, acts) == s;
    RunThen(s0, acts, a);
  }

  lemma LeadsKeepsInv(s0: State, s: State)
    requires Inv(s0) && Leads(s0, s)
    ensures Inv(s)
  {
    var acts :| EnabledRun(s0, acts) && Run(s0, acts) == s;
    RunKeepsInv(s0, acts);
  }

  /** The histories grow by exactly what the callers are told. */
  lemma {:induction false} HistoryIsEvents(s: State, acts: seq<Action>)
    requires EnabledRun(s, acts)
    ensures Run(s, acts).enq == s.enq + AcceptedIn(Events(s, acts))
    ensures Run(s, acts).deq == s.deq + DeliveredIn(Events(s, acts))
    decreases |acts|
  {
    hide Next, EventOf, Enabled;
    if acts == [] {
      assert s.enq + [] == s.enq && s.deq + [] == s.deq;
    } else {
      var s', es := Next(s, acts[0]), Events(s, acts);
      HistoryIsEvents(s', acts[1..]);
      StepHistory(s, acts[0]);
      assert es[0] == EventOf(s, acts[0]) && es[1..] == Events(s', acts[1..]);
      var a, d := AcceptedIn(es[1..]), DeliveredIn(es[1..]);
      assert s'.enq + a == s.enq + AcceptedIn(es);
      assert s'.deq + d == s.deq + DeliveredIn(es);
    }
  }

  lemma StepHistory(s: State, a: Action)
    requires Enabled(s, a)
    ensures Next(s, a).enq == s.enq + (if EventOf(s, a).Accepted? then [EventOf(s, a).x] else [])
    ensures Next(s, a).deq == s.deq + (if EventOf(s, a).Delivered? then [EventOf(s, a).x] else [])
  {
    assert s.enq + [] == s.enq && s.deq + [] == s.deq;
  }

  // ---------------------------------------------------------------- a dequeue

  lemma OffsetIsPosition(s: State, i: u64, k: nat)
    requires Configured(s) && s.capacity > 0 && k < s.elementSize
    ensures Offset(s, i) + k == Position(s.capacity, s.elementSize, i, k) < |s.data|
  {
    MaskIsModulo(i, s.capacity);
    SlotInside(s.capacity, s.elementSize, i);
  }

  /** The element that lies in the slot of index i. */
  ghost predicate InSlotLies(s: State, i: u64, x: Element)
    requires s.capacity > 0
  {
    |x| == s.elementSize && forall k: nat :: k < |x| ==> x[k] == ByteAt(s, i, k)
  }

  /** The copy out of the slot, last byte first. */
  lemma {:induction false} FetchAll(s0: State, s: State, n: nat) returns (x: Element)
    requires Leads(s0, s) && Configured(s) && s.capacity > 0
    requires s.consumer.CCopy? && s.consumer.left == AllBytes(n) && n <= s.elementSize == |s.consumer.dst|
    ensures |x| == s.elementSize && Leads(s0, s.(consumer := CCopy(x, s.consumer.r, {})))
    ensures forall k: nat :: k < |x| ==> x[k] == if k < n then ByteAt(s, s.consumer.r, k) else s.consumer.dst[k]
    decreases n
  {
    if n == 0 {
      assert s == s.(consumer := CCopy(s.consumer.dst, s.consumer.r, {}));
      x := s.consumer.dst;
    } else {
      var r, dst := s.consumer.r, s.consumer.dst;
      OffsetIsPosition(s, r, n - 1);
      LeadsThen(s0, s, FetchByte(n - 1));
      var s' := Next(s, FetchByte(n - 1));
      assert AllBytes(n) - {n - 1} == AllBytes(n - 1);
      assert s' == s.(consumer := CCopy(dst[n - 1 := ByteAt(s, r, n - 1)], r, AllBytes(n - 1)));
      x := FetchAll(s0, s', n - 1);
      forall k: nat ensures ByteAt(s', r, k) == ByteAt(s, r, k) {}
    }
  }

  /** A dequeue with nobody in its way. It needs no more than its own test: the invariant may be broken. */
  lemma Dequeue(s0: State, s: State) returns (s': State, x: Element)
    requires Leads(s0, s) && Configured(s) && s.capacity > 0
    requires s.consumer.CIdle? && s.reader < s.writer && s.localWriter <= s.writer
    ensures Leads(s0, s') && s'.localWriter <= s.writer && InSlotLies(s, s.reader, x)
    ensures s' == s.(localWriter := s'.localWriter, reader := s.reader + 1, deq := s.deq + [x])
  {
    hide Leads, InSlotLies;
    var dst := seq(s.elementSize, _ => 0);
    var s1 := BeginDequeue(s0, s, dst);
    x := FetchAll(s0, s1, s.elementSize);
    var s2 := s1.(consumer := CCopy(x, s.reader, {}));
    LeadsThen(s0, s2, PublishReader);
    s' := Next(s2, PublishReader);
    SlotOf(s, s1, x);
  }

  lemma SlotOf(s: State, s1: State, x: Element)
    requires s.capacity > 0 && s1.capacity == s.capacity && s1.elementSize == s.elementSize && s1.data == s.data
    requires |x| == s.elementSize && forall k: nat :: k < |x| ==> x[k] == ByteAt(s1, s.reader, k)
    ensures InSlotLies(s, s.reader, x)
  {
    forall k: nat ensures ByteAt(s1, s.reader, k) == ByteAt(s, s.reader, k) {}
  }

  /** The tests before the copy. */
  lemma BeginDequeue(s0: State, s: State, dst: Element) returns (s': State)
    requires Leads(s0, s) && s.consumer.CIdle? && |dst| == s.elementSize
    requires s.reader < s.writer && s.localWriter <= s.writer
    ensures Leads(s0, s') && s.localWriter <= s'.localWriter <= s.writer
    ensures s' == s.(localWriter := s'.localWriter, consumer := CCopy(dst, s.reader, AllBytes(s.elementSize)))
  {
    hide Leads;
    LeadsThen(s0, s, StartDequeue(dst));
    var s1 := Next(s, StartDequeue(dst));
    LeadsThen(s0, s1, TestCachedWriter);
    s' := Next(s1, TestCachedWriter);
    if s.reader >= s.localWriter {
      LeadsThen(s0, s', LoadWriter(s.writer));
      s' := Next(s', LoadWriter(s.writer));
    }
  }

  // ---------------------------------------------------------------- an enqueue

  /** The copy into the slot, last byte first. */
  lemma {:induction false} StoreAll(s0: State, s: State, n: nat) returns (data: seq<Byte>)
    requires Leads(s0, s) && Configured(s) && s.capacity > 0
    requires s.producer.PCopy? && s.producer.left == AllBytes(n) && n <= s.elementSize == |s.producer.src|
    ensures |data| == |s.data|
    ensures Leads(s0, s.(data := data, producer := PCopy(s.producer.src, s.producer.w, {})))
    decreases n
  {
    if n == 0 {
      assert s == s.(data := s.data, producer := PCopy(s.producer.src, s.producer.w, {}));
      data := s.data;
    } else {
      var PCopy(src, w, left) := s.producer;
      OffsetIsPosition(s, w, n - 1);
      LeadsThen(s0, s, StoreByte(n - 1));
      var s' := Next(s, StoreByte(n - 1));
      assert AllBytes(n) - {n - 1} == AllBytes(n - 1);
      data := StoreAll(s0, s', n - 1);
      assert s'.(data := data, producer := PCopy(src, w, {})) == s.(data := data, producer := PCopy(src, w, {}));
    }
  }

  /** An enqueue with nobody in its way, when there is room. */
  lemma Enqueue(s0: State, s: State, src: Element) returns (s': State)
    requires Leads(s0, s) && Configured(s) && s.capacity > 0
    requires s.producer.PIdle? && s.connected && |src| == s.elementSize
    requires s.localReader <= s.reader <= s.writer < s.reader + s.capacity < TWO_64
    ensures Leads(s0, s') && s'.localReader == if s.writer < s.localReader + s.capacity then s.localReader else s.reader
    ensures s' == s.(localReader := s'.localReader, writer := s.writer + 1, enq := s.enq + [src], data := s'.data)
  {
    hide Leads, AllBytes;
    var s1 := BeginEnqueue(s0, s, src);
    var data := StoreAll(s0, s1, s.elementSize);
    var s2 := s1.(data := data, producer := PCopy(src, s.writer, {}));
    LeadsThen(s0, s2, PublishWriter);
    s' := Next(s2, PublishWriter);
  }

  /** The tests before the copy. */
  lemma BeginEnqueue(s0: State, s: State, src: Element) returns (s': State)
    requires Leads(s0, s) && s.producer.PIdle? && s.connected && |src| == s.elementSize
    requires s.localReader <= s.reader <= s.writer < s.reader + s.capacity < TWO_64
    ensures Leads(s0, s') && s'.localReader == if s.writer < s.localReader + s.capacity then s.localReader else s.reader
    ensures s' == s.(localReader := s'.localReader, producer := PCopy(src, s.writer, AllBytes(s.elementSize)))
  {
    hide Leads, AllBytes;
    LeadsThen(s0, s, StartEnqueue(src));
    var s1 := Next(s, StartEnqueue(src));
    LeadsThen(s0, s1, LoadFlag);
    var s2 := Next(s1, LoadFlag);
    LeadsThen(s0, s2, TestCachedReader);
    s' := Next(s2, TestCachedReader);
    if s.writer >= s.localReader + s.capacity {
      LeadsThen(s0, s', LoadReader(s.reader));
      s' := Next(s', LoadReader(s.reader));
    }
  }
}
