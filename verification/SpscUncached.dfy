/**
 The day4 ring: no cached indices, modulo instead of mask. It loads the other side's index on
 every call. The day5 ring, which caches and masks, is shown to refine it.
 */
module SpscUncached {
  import opened Arith64
  import opened SpscRing
  import opened SpscFifo

  /** The day4 indices are `int64_t`; beyond this the C code has no defined behaviour. */
  const INT64_LIMIT: nat := 0x8000_0000_0000_0000

  /**
   The same region and program counters, but the code never reads `localReader` and `localWriter`;
   here they only record the last value each side has loaded, below which no later load can fall.
   A call goes from PCheck (or CCheck) straight to its copy.
   */
  ghost predicate Enabled4(s: State, a: Action) {
    match a
    case StartEnqueue(src) => s.producer.PIdle? && |src| == s.elementSize
    case LoadFlag => s.producer.PFlag?
    case LoadReader(seen) => s.producer.PCheck? && s.localReader <= seen <= s.reader
    case StoreByte(k) => s.producer.PCopy? && k in s.producer.left
    case PublishWriter => s.producer.PCopy? && s.producer.left == {} && s.producer.w + 1 < INT64_LIMIT
    case StartDequeue(dst) => s.consumer.CIdle? && |dst| == s.elementSize
    case LoadWriter(seen) => s.consumer.CCheck? && s.localWriter <= seen <= s.writer
    case FetchByte(k) => s.consumer.CCopy? && k in s.consumer.left
    case PublishReader => s.consumer.CCopy? && s.consumer.left == {} && s.consumer.r + 1 < INT64_LIMIT
    case Attach => s.consumer.CGone?
    case _ => false
  }

  ghost function StoreModulo(s: State, k: nat): State
    requires s.producer.PCopy?
  {
    var PCopy(src, w, left) := s.producer;
    if s.capacity > 0 && Position(s.capacity, s.elementSize, w, k) < |s.data| && k < |src| then
      s.(data := s.data[Position(s.capacity, s.elementSize, w, k) := src[k]], producer := PCopy(src, w, left - {k}))
    else s
  }

  ghost function FetchModulo(s: State, k: nat): State
    requires s.consumer.CCopy?
  {
    var CCopy(dst, r, left) := s.consumer;
    if s.capacity > 0 && Position(s.capacity, s.elementSize, r, k) < |s.data| && k < |dst| then
      s.(consumer := CCopy(dst[k := s.data[Position(s.capacity, s.elementSize, r, k)]], r, left - {k}))
    else s
  }

  ghost function Next4(s: State, a: Action): State
    requires Enabled4(s, a)
  {
    match a
    case StartEnqueue(src) => s.(producer := PFlag(src))
    case LoadFlag =>
      if s.connected then s.(producer := PCheck(s.producer.src)) else s.(producer := PIdle)
    case LoadReader(seen) =>
      var s' := s.(localReader := seen);
      if TestFull(s, s.writer, seen) then s'.(producer := PIdle)
      else BeginStore(s', s.producer.src, s.writer)
    case StoreByte(k) => StoreModulo(s, k)
    case PublishWriter =>
      s.(writer := s.producer.w + 1, producer := PIdle, enq := s.enq + [s.producer.src])
    case StartDequeue(dst) => s.(consumer := CCheck(dst))
    case LoadWriter(seen) =>
      var s' := s.(localWriter := seen);
      if s.reader >= seen then s'.(consumer := CIdle)
      else BeginFetch(s', s.consumer.dst, s.reader)
    case FetchByte(k) => FetchModulo(s, k)
    case PublishReader =>
      s.(reader := s.consumer.r + 1, consumer := CIdle, deq := s.deq + [s.consumer.dst])
    case Attach => s.(connected := true, consumer := CIdle, reader := 0)
    case _ => assert false; s
  }

  ghost function EventOf4(s: State, a: Action): Event
    requires Enabled4(s, a)
  {
    match a
    case LoadFlag => if s.connected then Internal else RefusedNoClient
    case LoadReader(seen) => if TestFull(s, s.writer, seen) then RefusedFull(seen) else Internal
    case PublishWriter => Accepted(s.producer.src)
    case LoadWriter(seen) => if s.reader >= seen then FoundEmpty(seen) else Internal
    case PublishReader => Delivered(s.consumer.dst)
    case Attach => Attached
    case _ => Internal
  }

  ghost predicate EnabledRun4(s: State, acts: seq<Action>)
    decreases |acts|
  {
    acts == [] || (Enabled4(s, acts[0]) && EnabledRun4(Next4(s, acts[0]), acts[1..]))
  }

  ghost function Run4(s: State, acts: seq<Action>): State
    requires EnabledRun4(s, acts)
    decreases |acts|
  {
    if acts == [] then s else Run4(Next4(s, acts[0]), acts[1..])
  }

  /** The answers of a run, in order, without the steps that answer nothing. */
  ghost function Answers4(s: State, acts: seq<Action>): seq<Event>
    requires EnabledRun4(s, acts)
    decreases |acts|
  {
    if acts == [] then []
    else Answer(EventOf4(s, acts[0])) + Answers4(Next4(s, acts[0]), acts[1..])
  }

  ghost predicate FreshRun4(s: State, acts: seq<Action>)
    requires EnabledRun4(s, acts)
    decreases |acts|
  {
    acts == [] || (Fresh(s, acts[0]) && FreshRun4(Next4(s, acts[0]), acts[1..]))
  }

  function Answer(e: Event): seq<Event> {
    if e == Internal then [] else [e]
  }

  function Answers(es: seq<Event>): seq<Event> {
    if es == [] then [] else Answer(es[0]) + Answers(es[1..])
  }

  // ---------------------------------------------------------------- simulation

  function UncachedProducer(p: Producer): Producer {
    if p.PRefresh? then PCheck(p.src) else p
  }

  function UncachedConsumer(c: Consumer): Consumer {
    if c.CRefresh? then CCheck(c.dst) else c
  }

  /**
   The simulation relation between a caching state s and an uncached state t. With `exact` the
   uncached side loads current values where the caching side relies on its cache.
   */
  ghost predicate Simulates(s: State, t: State, exact: bool) {
    && Inv(s)
    && (s.consumer.CGone? ==> s.reader == 0)
    && t == s.(localReader := t.localReader, localWriter := t.localWriter,
               producer := UncachedProducer(s.producer), consumer := UncachedConsumer(s.consumer))
    && s.localReader <= t.localReader <= s.reader
    && s.localWriter <= t.localWriter <= s.writer
    && (!exact ==> t.localReader == s.localReader && t.localWriter == s.localWriter)
  }

  /** The uncached step that a step of the caching ring stands for; a failed cache test is none. */
  ghost function MapAction(s: State, a: Action, exact: bool): seq<Action>
    requires Enabled(s, a)
  {
    match a
    case TestCachedReader =>
      if TestFull(s, s.writer, s.localReader) then []
      else [LoadReader(if exact then s.reader else s.localReader)]
    case TestCachedWriter =>
      if s.reader >= s.localWriter then []
      else [LoadWriter(if exact then s.writer else s.localWriter)]
    case _ => [a]
  }

  /** The day5 queue never clears `client_connected` again. */
  predicate OfDay5(a: Action) {
    !a.Detach? && !a.Crash? && !a.Refuse?
  }

  ghost predicate StepSimulated(s: State, t: State, a: Action, exact: bool)
    requires Enabled(s, a)
  {
    var m := MapAction(s, a, exact);
    if m == [] then Simulates(Next(s, a), t, exact) && EventOf(s, a) == Internal
    else
      && Enabled4(t, m[0]) && Simulates(Next(s, a), Next4(t, m[0]), exact)
      && EventOf4(t, m[0]) == EventOf(s, a)
      && (exact ==> Fresh(t, m[0]))
  }

  /** A pass of the cached test is a pass of the test on any newer index. */
  lemma CachedPassIsPass(s: State, seen: u64)
    requires Inv(s) && s.writer < INT64_LIMIT && s.localReader <= seen <= s.reader
    requires !TestFull(s, s.writer, s.localReader)
    ensures !TestFull(s, s.writer, seen)
  {
    Pow2Divides(s.capacity);
    PassedTest(s, s.localReader);
    assert Add(seen, s.capacity) == seen + s.capacity;
  }

  lemma CachedReaderTestSimulated(s: State, t: State, exact: bool)
    requires Simulates(s, t, exact) && s.producer.PCheck? && s.writer < INT64_LIMIT
    requires Inv(Next(s, TestCachedReader))
    ensures StepSimulated(s, t, TestCachedReader, exact)
  {
    if !TestFull(s, s.writer, s.localReader) {
      CachedPassIsPass(s, s.reader);
    }
    hide Inv, TestFull;
  }

  lemma LoadReaderSimulated(s: State, t: State, seen: u64, exact: bool)
    requires Simulates(s, t, exact) && Enabled(s, LoadReader(seen))
    requires exact ==> Fresh(s, LoadReader(seen))
    requires Inv(Next(s, LoadReader(seen)))
    ensures StepSimulated(s, t, LoadReader(seen), exact)
  {
    assert s.producer.w == s.writer;
    hide Inv, TestFull;
  }

  lemma CachedWriterTestSimulated(s: State, t: State, exact: bool)
    requires Simulates(s, t, exact) && s.consumer.CCheck?
    requires Inv(Next(s, TestCachedWriter))
    ensures StepSimulated(s, t, TestCachedWriter, exact)
  {
    assert IndexChain(s);
    hide Inv;
  }

  lemma LoadWriterSimulated(s: State, t: State, seen: u64, exact: bool)
    requires Simulates(s, t, exact) && Enabled(s, LoadWriter(seen))
    requires exact ==> Fresh(s, LoadWriter(seen))
    requires Inv(Next(s, LoadWriter(seen)))
    ensures StepSimulated(s, t, LoadWriter(seen), exact)
  {
    assert s.consumer.r == s.reader;
    hide Inv;
  }

  lemma StoreSimulated(s: State, t: State, k: nat, exact: bool)
    requires Simulates(s, t, exact) && Enabled(s, StoreByte(k))
    requires Inv(Next(s, StoreByte(k)))
    ensures StepSimulated(s, t, StoreByte(k), exact)
  {
    hide Inv, Position, Offset;
    StoreInBounds(s, k);
    assert StoreModulo(t, k).data == StoreAt(s, k).data;
  }

  lemma FetchSimulated(s: State, t: State, k: nat, exact: bool)
    requires Simulates(s, t, exact) && Enabled(s, FetchByte(k))
    requires Inv(Next(s, FetchByte(k)))
    ensures StepSimulated(s, t, FetchByte(k), exact)
  {
    hide Inv, Position, Offset;
    FetchInBounds(s, k);
    assert FetchModulo(t, k).consumer == FetchAt(s, k).consumer;
  }

  lemma PublishSimulated(s: State, t: State, a: Action, exact: bool)
    requires Simulates(s, t, exact) && Enabled(s, a) && (a.PublishWriter? || a.PublishReader?)
    requires Inv(Next(s, a)) && Next(s, a).writer < INT64_LIMIT && s.writer < INT64_LIMIT
    ensures StepSimulated(s, t, a, exact)
  {
    assert a.PublishWriter? ==> s.producer.w == s.writer;
    assert a.PublishReader? ==> s.consumer.r == s.reader < s.writer;
    hide Inv;
  }

  lemma ControlSimulated(s: State, t: State, a: Action, exact: bool)
    requires Simulates(s, t, exact) && Enabled(s, a)
    requires a.StartEnqueue? || a.LoadFlag? || a.StartDequeue? || a.Attach?
    requires Inv(Next(s, a))
    ensures StepSimulated(s, t, a, exact)
  {
    hide Inv;
  }

  lemma StepIsSimulated(s: State, t: State, a: Action, exact: bool)
    requires Simulates(s, t, exact) && Enabled(s, a) && OfDay5(a)
    requires exact ==> Fresh(s, a)
    requires s.writer < INT64_LIMIT && Next(s, a).writer < INT64_LIMIT
    ensures StepSimulated(s, t, a, exact)
  {
    StepKeepsInv(s, a);
    hide Inv, Next, StepSimulated;
    match a
    case TestCachedReader => CachedReaderTestSimulated(s, t, exact);
    case LoadReader(seen) => LoadReaderSimulated(s, t, seen, exact);
    case TestCachedWriter => CachedWriterTestSimulated(s, t, exact);
    case LoadWriter(seen) => LoadWriterSimulated(s, t, seen, exact);
    case StoreByte(k) => StoreSimulated(s, t, k, exact);
    case FetchByte(k) => FetchSimulated(s, t, k, exact);
    case PublishWriter => PublishSimulated(s, t, a, exact);
    case PublishReader => PublishSimulated(s, t, a, exact);
    case _ => ControlSimulated(s, t, a, exact);
  }

  /** The uncached run that a caching run stands for. */
  ghost function MapRun(s: State, acts: seq<Action>, exact: bool): seq<Action>
    requires EnabledRun(s, acts)
    decreases |acts|
  {
    if acts == [] then []
    else MapAction(s, acts[0], exact) + MapRun(Next(s, acts[0]), acts[1..], exact)
  }

  /**
   Every run of the cached, masked ring (any interleaving, fresh or old loads) is a run of the
   uncached modulo ring with the same answers, accepting and delivering the same elements.
   */
  lemma {:induction false} CachedRunIsUncachedRun(s: State, t: State, acts: seq<Action>, exact: bool)
    requires Simulates(s, t, exact) && EnabledRun(s, acts)
    requires forall a <- acts :: OfDay5(a)
    requires exact ==> FreshRun(s, acts)
    requires Run(s, acts).writer < INT64_LIMIT
    ensures var m := MapRun(s, acts, exact);
      && EnabledRun4(t, m)
      && Simulates(Run(s, acts), Run4(t, m), exact)
      && Answers4(t, m) == Answers(Events(s, acts))
      && (exact ==> FreshRun4(t, m))
    decreases |acts|
  {
    if acts == [] {
      assert MapRun(s, acts, exact) == [];
    } else {
      var a, rest := acts[0], acts[1..];
      WriterOnlyGrows(s, a, rest);
      assert OfDay5(a);
      StepIsSimulated(s, t, a, exact);
      hide Inv, Next, Next4, EventOf, EventOf4, Enabled, Enabled4, Simulates, MapAction;
      var m := MapAction(s, a, exact);
      var t' := if m == [] then t else Next4(t, m[0]);
      CachedRunIsUncachedRun(Next(s, a), t', rest, exact);
      MapHasAtMostOne(s, a, exact);
      var all := MapRun(s, acts, exact);
      assert Events(s, acts)[0] == EventOf(s, a) && Events(s, acts)[1..] == Events(Next(s, a), rest);
      if m == [] {
        assert all == MapRun(Next(s, a), rest, exact);
      } else {
        assert all[0] == m[0] && all[1..] == MapRun(Next(s, a), rest, exact);
      }
    }
  }

  lemma MapHasAtMostOne(s: State, a: Action, exact: bool)
    requires Enabled(s, a)
    ensures |MapAction(s, a, exact)| <= 1
  {
  }

  lemma WriterOnlyGrows(s: State, a: Action, rest: seq<Action>)
    requires Inv(s) && Enabled(s, a) && EnabledRun(Next(s, a), rest)
    ensures s.writer <= Next(s, a).writer <= Run(Next(s, a), rest).writer
  {
    StepKeepsInv(s, a);
    RunKeepsInv(Next(s, a), rest);
    HistoryGrows(s, [a]);
    HistoryGrows(Next(s, a), rest);
    assert Run(s, [a]) == Next(s, a);
  }

  /** From creation on: same configuration, same region, same elements accepted and delivered. */
  lemma CachedRingRefinesUncached(s0: State, acts: seq<Action>)
    requires Init(s0) && EnabledRun(s0, acts) && (forall a <- acts :: OfDay5(a))
    requires Run(s0, acts).writer < INT64_LIMIT
    ensures exists m: seq<Action> ::
      && EnabledRun4(s0, m)
      && Answers4(s0, m) == Answers(Events(s0, acts))
      && Run4(s0, m).enq == Run(s0, acts).enq && Run4(s0, m).deq == Run(s0, acts).deq
      && Run4(s0, m).data == Run(s0, acts).data
      && (FreshRun(s0, acts) ==> FreshRun4(s0, m))
  {
    InitHasInv(s0);
    var exact := FreshRun(s0, acts);
    CachedRunIsUncachedRun(s0, s0, acts, exact);
    var m := MapRun(s0, acts, exact);
    assert EnabledRun4(s0, m) && Answers4(s0, m) == Answers(Events(s0, acts));
  }
}
