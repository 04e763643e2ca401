/**
 Whole programs over shared pointers, against a plain table that says which object each handle
 points to: an object lives exactly as long as some handle points to it.
 */
module SharedPointerRuns {
  import opened SharedPointer

  /** What a program does with its handles, which it numbers in the order of their construction. */
  datatype Op =
    | NewNull
    | NewObj
    | Copy(from: nat)
    | Steal(from: nat)
    | Assign(to: nat, from: nat)
    | AssignMove(to: nat, from: nat)
    | Drop(at: nat)

  /** For every handle the number of its object, or -1; objects are numbered as they are created. */
  datatype Table = Table(slots: seq<int>, created: nat)

  const EMPTY := Table([], 0)

  predicate Sole(m: Table, i: nat)
    requires i < |m.slots|
  {
    forall k | 0 <= k < |m.slots| && k != i :: m.slots[k] != m.slots[i]
  }

  /**
   The operations that the code gets right: a new handle is not made from a null one, and a null
   one is not assigned to a handle that shares its object with others.
   */
  predicate Supported(m: Table, op: Op) {
    match op
    case NewNull => true
    case NewObj => true
    case Copy(j) => j < |m.slots| && m.slots[j] >= 0
    case Steal(j) => j < |m.slots| && m.slots[j] >= 0
    case Assign(i, j) => i < |m.slots| && j < |m.slots| && (m.slots[j] >= 0 || m.slots[i] < 0 || Sole(m, i))
    case AssignMove(i, j) => i < |m.slots| && j < |m.slots| && (m.slots[j] >= 0 || m.slots[i] < 0 || Sole(m, i))
    case Drop(i) => i < |m.slots|
  }

  /** A handle that is copied to itself loses its object if nobody else has it. */
  function After(m: Table, op: Op): Table
    requires Supported(m, op)
  {
    var s := m.slots;
    match op
    case NewNull => m.(slots := s + [-1])
    case NewObj => Table(s + [m.created], m.created + 1)
    case Copy(j) => m.(slots := s + [s[j]])
    case Steal(j) => m.(slots := s[j := -1] + [s[j]])
    case Assign(i, j) => m.(slots := s[i := if i == j && Sole(m, i) then -1 else s[j]])
    case AssignMove(i, j) => m.(slots := s[i := s[j]][j := -1])
    case Drop(i) => m.(slots := s[..i] + s[i + 1..])
  }

  ghost predicate RunSupported(m: Table, ops: seq<Op>)
    decreases |ops|
  {
    ops == [] || (Supported(m, ops[0]) && RunSupported(After(m, ops[0]), ops[1..]))
  }

  ghost function AfterAll(m: Table, ops: seq<Op>): Table
    requires RunSupported(m, ops)
    decreases |ops|
  {
    if ops == [] then m else AfterAll(After(m, ops[0]), ops[1..])
  }

  /** The handles of the program are the handles of the world. */
  ghost predicate Tracks(held: set<SharedPtr>, hs: seq<SharedPtr>) {
    && (forall i | 0 <= i < |hs| :: hs[i] in held)
    && (forall h <- held :: h in hs)
    && (forall i, j | 0 <= i < j < |hs| :: hs[i] != hs[j])
  }

  function Ptrs(hs: seq<SharedPtr>): (r: seq<Obj?>)
    reads hs
    ensures |r| == |hs| && forall i | 0 <= i < |hs| :: r[i] == hs[i].ptr
  {
    if hs == [] then [] else [hs[0].ptr] + Ptrs(hs[1..])
  }

  function Target(n: int, objs: seq<Obj>): Obj?
    requires n < |objs|
  {
    if n < 0 then null else objs[n]
  }

  ghost predicate PointAs(ptrs: seq<Obj?>, m: Table, objs: seq<Obj>) {
    && |m.slots| == |ptrs| && |objs| == m.created
    && (forall i | 0 <= i < |ptrs| :: -1 <= m.slots[i] < m.created && ptrs[i] == Target(m.slots[i], objs))
    && (forall i, j | 0 <= i < j < |objs| :: objs[i] != objs[j])
  }

  /** The table describes the handles; `objs` are all the objects ever created. */
  ghost predicate Depicts(w: World, hs: seq<SharedPtr>, m: Table, objs: seq<Obj>)
    reads w, hs
  {
    Tracks(w.books.held.Keys, hs) && PointAs(Ptrs(hs), m, objs) && Known(w.books) == set o | o in objs
  }

  // ---------------------------------------------------------------- what a table says

  lemma KnownAfterGiveUp(b: Books, h: SharedPtr)
    requires Balanced(b) && h in b.held && HoldsLive(b, h)
    ensures Known(GiveUp(b, h)) == Known(b)
  {
    var b' := GiveUp(b, h);
    OthersHoldOthers(b, h);
    var c := b.held[h];
    if c != null && b.counts[c] == 1 {
      forall o ensures o in Known(b') <==> o in Known(b) {
        if o in b.managed.Values {
          var d :| d in b.managed && b.managed[d] == o;
          assert d == c || (d in b'.managed && b'.managed[d] == o);
        }
        assert b'.managed.Values <= b.managed.Values;
        assert b'.deleted == b.deleted + [b.managed[c]];
      }
    }
  }

  /** The holders of a handle's counter are the handles that the table gives the same object. */
  lemma HoldersAreSharers(w: World, hs: seq<SharedPtr>, m: Table, objs: seq<Obj>, i: nat, k: nat)
    requires w.Valid() && Depicts(w, hs, m, objs) && i < |hs| && k < |hs| && m.slots[i] >= 0
    ensures hs[i].counter != null && hs[i].counter in w.books.counts && w.books.held[hs[i]] == hs[i].counter
    ensures w.books.held[hs[k]] == hs[i].counter <==> m.slots[k] == m.slots[i]
  {
    hide Balanced;
    assert w.HandleOk(hs[i]) && w.HandleOk(hs[k]);
    OthersHoldOthers(w.books, hs[i]);
    if m.slots[k] == m.slots[i] {
      OneCounter(w.books, hs[i].counter, hs[k].counter);
    }
  }

  lemma OneCounter(b: Books, c: Counter, d: Counter)
    requires Balanced(b) && c in b.managed && d in b.managed && b.managed[c] == b.managed[d]
    ensures c == d
  {
  }

  /** A sole owner is one whose counter says one. */
  lemma SoleIffOne(w: World, hs: seq<SharedPtr>, m: Table, objs: seq<Obj>, i: nat)
    requires w.Valid() && Depicts(w, hs, m, objs) && i < |hs| && m.slots[i] >= 0
    ensures hs[i].counter != null && hs[i].counter in w.books.counts
    ensures Sole(m, i) <==> w.books.counts[hs[i].counter] == 1
  {
    hide Balanced, Depicts;
    HoldersAreSharers(w, hs, m, objs, i, i);
    var c := hs[i].counter;
    CountOfHolders(w.books, c);
    SameHandles(w, hs, m, objs);
    forall k: nat | k < |hs| ensures w.books.held[hs[k]] == c <==> m.slots[k] == m.slots[i] {
      HoldersAreSharers(w, hs, m, objs, i, k);
    }
    if Sole(m, i) {
      forall h | h in Holders(w.books.held, c) ensures h == hs[i] {
        var k :| 0 <= k < |hs| && hs[k] == h;
      }
      assert Holders(w.books.held, c) == {hs[i]};
    } else {
      var k :| 0 <= k < |hs| && k != i && m.slots[k] == m.slots[i];
      assert hs[k] in Holders(w.books.held, c) && hs[i] in Holders(w.books.held, c);
      if w.books.counts[c] == 1 {
        SoleHolder(w.books.held, hs[i], c, hs[k]);
      }
    }
  }

  lemma CountOfHolders(b: Books, c: Counter)
    requires Balanced(b) && c in b.counts
    ensures b.counts[c] == |Holders(b.held, c)| > 0
  {
    assert CountsHolders(b, c);
  }

  lemma SameHandles(w: World, hs: seq<SharedPtr>, m: Table, objs: seq<Obj>)
    requires w.Valid() && Depicts(w, hs, m, objs)
    ensures Balanced(w.books) && Tracks(w.books.held.Keys, hs) && PointAs(Ptrs(hs), m, objs)
    ensures Known(w.books) == set o | o in objs
    ensures |m.slots| == |hs| && |objs| == m.created && (forall h <- w.books.held :: h in hs)
    ensures forall i | 0 <= i < |hs| :: hs[i] in w.books.held && -1 <= m.slots[i] < m.created
    ensures forall i | 0 <= i < |hs| :: hs[i].ptr == Target(m.slots[i], objs)
    ensures forall i, j | 0 <= i < j < |hs| :: hs[i] != hs[j]
  {
  }

  /** The counter of a handle is the number of handles that the table gives the same object. */
  lemma CountIsSharers(w: World, hs: seq<SharedPtr>, m: Table, objs: seq<Obj>, i: nat)
    requires w.Valid() && Depicts(w, hs, m, objs) && i < |hs| && m.slots[i] >= 0
    ensures hs[i].counter != null && hs[i].counter.count == multiset(m.slots)[m.slots[i]]
  {
    hide Balanced, Depicts;
    HoldersAreSharers(w, hs, m, objs, i, i);
    var c := hs[i].counter;
    CountOfHolders(w.books, c);
    SameHandles(w, hs, m, objs);
    forall k: nat | k < |hs| ensures w.books.held[hs[k]] == c <==> m.slots[k] == m.slots[i] {
      HoldersAreSharers(w, hs, m, objs, i, k);
    }
    SameSize(hs, m.slots, m.slots[i], Holders(w.books.held, c));
  }

  /** As many handles are in the set as slots hold n. */
  lemma {:induction false} SameSize(hs: seq<SharedPtr>, slots: seq<int>, n: int, these: set<SharedPtr>)
    requires |slots| == |hs| && forall i, j | 0 <= i < j < |hs| :: hs[i] != hs[j]
    requires forall i | 0 <= i < |hs| :: hs[i] in these <==> slots[i] == n
    requires forall h <- these :: h in hs
    ensures |these| == multiset(slots)[n]
    decreases |hs|
  {
    if hs == [] {
      assert these == {};
    } else {
      var last := |hs| - 1;
      assert slots == slots[..last] + [slots[last]];
      var rest := these - {hs[last]};
      RestInRest(hs, these, rest);
      SameSize(hs[..last], slots[..last], n, rest);
      CountWithout(these, hs[last]);
    }
  }

  lemma RestInRest(hs: seq<SharedPtr>, these: set<SharedPtr>, rest: set<SharedPtr>)
    requires hs != [] && (forall h <- these :: h in hs) && rest == these - {hs[|hs| - 1]}
    ensures forall h <- rest :: h in hs[..|hs| - 1]
  {
    var last := |hs| - 1;
    forall h | h in rest ensures h in hs[..last] {
      var k :| 0 <= k < |hs| && hs[k] == h;
      assert hs[..last][k] == h;
    }
  }

  /** An object is deleted exactly when no handle points to it any more. */
  lemma DeletedIffUnheld(w: World, hs: seq<SharedPtr>, m: Table, objs: seq<Obj>, n: nat)
    requires w.Valid() && Depicts(w, hs, m, objs) && n < m.created
    ensures objs[n] in w.deleted <==> n !in m.slots
  {
    hide Balanced, Depicts;
    var b := w.books;
    SameHandles(w, hs, m, objs);
    assert objs[n] in Known(b);
    ValidIsDeletedOnce(w);
    if n in m.slots {
      var i :| 0 <= i < |m.slots| && m.slots[i] == n;
      assert w.HandleOk(hs[i]);
    }
    if objs[n] !in b.deleted {
      HeldByHandle(w, hs, m, objs, n);
    }
  }

  lemma HeldByHandle(w: World, hs: seq<SharedPtr>, m: Table, objs: seq<Obj>, n: nat)
    requires w.Valid() && Depicts(w, hs, m, objs) && n < m.created == |objs| && objs[n] in w.books.managed.Values
    ensures n in m.slots
  {
    hide Balanced, Known;
    var c :| c in w.books.managed && w.books.managed[c] == objs[n];
    ManagedIsHeld(w.books, c);
    var h :| h in w.books.held && w.books.held[h] == c;
    assert w.HandleOk(h);
    var i :| 0 <= i < |hs| && hs[i] == h;
    assert m.slots[i] == n;
  }

  lemma ManagedIsHeld(b: Books, c: Counter)
    requires Balanced(b) && c in b.managed
    ensures exists h :: h in b.held && b.held[h] == c
  {
    CountOfHolders(b, c);
    var h :| h in Holders(b.held, c);
  }

  // ---------------------------------------------------------------- one operation

  /** One operation does to the handles what the table says. */
  method Perform(w: World, hs: seq<SharedPtr>, op: Op, ghost m: Table, ghost objs: seq<Obj>)
    returns (after: seq<SharedPtr>, ghost objs': seq<Obj>)
    requires w.Valid() && Depicts(w, hs, m, objs) && Supported(m, op)
    modifies w, hs, w.books.counts.Keys
    ensures w.Valid() && Depicts(w, after, After(m, op), objs') && objs <= objs'
    ensures forall i | 0 <= i < |after| :: after[i] in hs || fresh(after[i])
    ensures fresh(w.books.counts.Keys - old(w.books.counts.Keys))
  {
    hide Balanced, Depicts, Unwrapped, Sole;
    objs' := objs;
    if op.Assign? {
      PerformAssign(w, hs, op.to, op.from, m, objs);
      after := hs;
    } else if op.AssignMove? {
      PerformAssignMove(w, hs, op.to, op.from, m, objs);
      after := hs;
    } else if op.Drop? {
      after := PerformDrop(w, hs, op.at, m, objs);
    } else if op.NewObj? {
      after, objs' := PerformNew(w, hs, m, objs);
    } else {
      after := PerformConstruct(w, hs, op, m, objs);
    }
  }

  lemma SharesAreLive(w: World, hs: seq<SharedPtr>)
    requires w.Valid() && Tracks(w.books.held.Keys, hs)
    ensures forall h <- hs :: Share(h) <= w.books.counts.Keys
  {
    hide Balanced;
    forall h | h in hs ensures Share(h) <= w.books.counts.Keys {
      assert w.HandleOk(h);
      OthersHoldOthers(w.books, h);
    }
  }

  /** What the two tests on null and on sharing say about the table. */
  lemma ForgetsIff(w: World, hs: seq<SharedPtr>, m: Table, objs: seq<Obj>, i: nat, j: nat)
    requires w.Valid() && Depicts(w, hs, m, objs) && i < |hs| && j < |hs|
    ensures hs[i] in w.books.held && hs[j] in w.books.held
    ensures ForgetsToReset(w.books, hs[i], hs[j]) <==> m.slots[j] < 0 && m.slots[i] >= 0 && !Sole(m, i)
  {
    hide Balanced;
    assert w.HandleOk(hs[i]) && w.HandleOk(hs[j]);
    if m.slots[i] >= 0 {
      SoleIffOne(w, hs, m, objs, i);
      CountOfHolders(w.books, hs[i].counter);
    }
  }

  /** What the assignments do to the pointers is what they do to the table. */
  lemma AssignPoints(ptrs: seq<Obj?>, m: Table, objs: seq<Obj>, i: nat, n: int)
    requires PointAs(ptrs, m, objs) && i < |ptrs| && -1 <= n < m.created
    ensures PointAs(ptrs[i := Target(n, objs)], m.(slots := m.slots[i := n]), objs)
  {
  }

  lemma DropPoints(ptrs: seq<Obj?>, m: Table, objs: seq<Obj>, i: nat)
    requires PointAs(ptrs, m, objs) && i < |ptrs|
    ensures PointAs(ptrs[..i] + ptrs[i + 1..], m.(slots := m.slots[..i] + m.slots[i + 1..]), objs)
  {
  }

  lemma MorePoints(ptrs: seq<Obj?>, m: Table, objs: seq<Obj>, n: int)
    requires PointAs(ptrs, m, objs) && -1 <= n < m.created
    ensures PointAs(ptrs + [Target(n, objs)], m.(slots := m.slots + [n]), objs)
  {
  }

  lemma DropTracks(held: set<SharedPtr>, hs: seq<SharedPtr>, i: nat)
    requires Tracks(held, hs) && i < |hs|
    ensures Tracks(held - {hs[i]}, hs[..i] + hs[i + 1..])
  {
    var after := hs[..i] + hs[i + 1..];
    forall h | h in held - {hs[i]} ensures h in after {
      var k :| 0 <= k < |hs| && hs[k] == h;
      assert k < i ==> after[k] == h;
      assert k > i ==> after[k - 1] == h;
    }
  }

  lemma MoreTracks(held: set<SharedPtr>, hs: seq<SharedPtr>, h: SharedPtr)
    requires Tracks(held, hs) && h !in held
    ensures Tracks(held + {h}, hs + [h])
  {
  }

  /** An assignment leaves the handles and the objects that there are. */
  lemma AssignBooks(b: Books, b': Books, lhs: SharedPtr, rhs: SharedPtr)
    requires Balanced(b) && lhs in b.held && rhs in b.held && HoldsLive(b, lhs)
    requires var mid := GiveUp(b, lhs);
      || b' == mid || b' == b
      || (b.held[rhs] != null && b.held[rhs] in mid.counts && b' == Take(mid, lhs, b.held[rhs]))
      || (b.held[rhs] != null && b' == Move(mid, lhs, rhs, b.held[rhs]))
    ensures b'.held.Keys == b.held.Keys && Known(b') == Known(b) && b'.counts.Keys <= b.counts.Keys
  {
    hide Balanced, Known, HoldsLive;
    KnownAfterGiveUp(b, lhs);
    OthersHoldOthers(b, lhs);
    SameKnown(b', GiveUp(b, lhs));
  }

  lemma SameKnown(b: Books, b': Books)
    ensures b.managed == b'.managed && b.deleted == b'.deleted ==> Known(b) == Known(b')
  {
  }

  lemma Redraw(w: World, hs: seq<SharedPtr>, m: Table, objs: seq<Obj>)
    requires Tracks(w.books.held.Keys, hs) && PointAs(Ptrs(hs), m, objs) && Known(w.books) == set o | o in objs
    ensures Depicts(w, hs, m, objs)
  {
  }

  lemma AssignSupported(m: Table, op: Op)
    requires Supported(m, op) && (op.Assign? || op.AssignMove?)
    ensures op.to < |m.slots| && op.from < |m.slots|
    ensures !(m.slots[op.from] < 0 && m.slots[op.to] >= 0 && !Sole(m, op.to))
    ensures After(m, op).slots
         == if op.AssignMove? then m.slots[op.to := m.slots[op.from]][op.from := -1]
            else m.slots[op.to := if op.to == op.from && Sole(m, op.to) then -1 else m.slots[op.from]]
    ensures After(m, op).created == m.created
  {
  }

  method PerformAssign(w: World, hs: seq<SharedPtr>, i: nat, j: nat, ghost m: Table, ghost objs: seq<Obj>)
    requires w.Valid() && Depicts(w, hs, m, objs) && Supported(m, Assign(i, j))
    modifies w, hs, w.books.counts.Keys
    ensures w.Valid() && Depicts(w, hs, After(m, Assign(i, j)), objs)
    ensures w.books.counts.Keys <= old(w.books.counts.Keys)
  {
    hide *;
    ghost var ptrs, b := Ptrs(hs), w.books;
    AssignSupported(m, Assign(i, j));
    SameHandles(w, hs, m, objs);
    SharesAreLive(w, hs);
    ForgetsIff(w, hs, m, objs, i, j);
    ghost var n := if i == j && Sole(m, i) then -1 else m.slots[j];
    AssignPoints(ptrs, m, objs, i, n);
    if i == j {
      SelfAssignOutcome(w, hs, m, objs, i);
      CopyAssignSelf(w, hs[i]);
    } else {
      CopyAssign(w, hs[i], hs[j]);
    }
    AssignBooks(b, w.books, hs[i], hs[j]);
    assert Ptrs(hs) == ptrs[i := Target(n, objs)];
    Redraw(w, hs, After(m, Assign(i, j)), objs);
  }

  /** Whether a copy to itself costs a handle its object. */
  lemma SelfAssignOutcome(w: World, hs: seq<SharedPtr>, m: Table, objs: seq<Obj>, i: nat)
    requires w.Valid() && Depicts(w, hs, m, objs) && i < |hs|
    ensures |m.slots| == |hs| && m.slots[i] < m.created == |objs| && Balanced(w.books)
    ensures Target(if Sole(m, i) then -1 else m.slots[i], objs)
         == if hs[i].ptr != null && hs[i].counter != null && hs[i].counter.count == 1 then null else hs[i].ptr
    ensures hs[i].ptr != null ==> hs[i].counter != null
  {
    hide Balanced;
    assert w.HandleOk(hs[i]);
    if m.slots[i] >= 0 {
      SoleIffOne(w, hs, m, objs, i);
    }
  }

  method PerformAssignMove(w: World, hs: seq<SharedPtr>, i: nat, j: nat, ghost m: Table, ghost objs: seq<Obj>)
    requires w.Valid() && Depicts(w, hs, m, objs) && Supported(m, AssignMove(i, j))
    modifies w, hs, w.books.counts.Keys
    ensures w.Valid() && Depicts(w, hs, After(m, AssignMove(i, j)), objs)
    ensures w.books.counts.Keys <= old(w.books.counts.Keys)
  {
    hide *;
    ghost var ptrs, b := Ptrs(hs), w.books;
    AssignSupported(m, AssignMove(i, j));
    SameHandles(w, hs, m, objs);
    SharesAreLive(w, hs);
    ForgetsIff(w, hs, m, objs, i, j);
    AssignPoints(ptrs, m, objs, i, m.slots[j]);
    AssignPoints(ptrs[i := ptrs[j]], m.(slots := m.slots[i := m.slots[j]]), objs, j, -1);
    NullTarget(objs);
    if i == j {
      MoveAssignSelf(w, hs[i]);
    } else {
      MoveAssign(w, hs[i], hs[j]);
    }
    AssignBooks(b, w.books, hs[i], hs[j]);
    assert Ptrs(hs) == ptrs[i := ptrs[j]][j := null];
    Redraw(w, hs, After(m, AssignMove(i, j)), objs);
  }

  lemma NullTarget(objs: seq<Obj>)
    ensures Target(-1, objs) == null
  {
  }

  method PerformDrop(w: World, hs: seq<SharedPtr>, i: nat, ghost m: Table, ghost objs: seq<Obj>)
    returns (after: seq<SharedPtr>)
    requires w.Valid() && Depicts(w, hs, m, objs) && Supported(m, Drop(i))
    modifies w, w.books.counts.Keys
    ensures w.Valid() && Depicts(w, after, After(m, Drop(i)), objs)
    ensures |m.slots| == |hs| && i < |hs| && after == hs[..i] + hs[i + 1..]
    ensures w.books.counts.Keys <= old(w.books.counts.Keys)
  {
    hide *;
    ghost var ptrs, b := Ptrs(hs), w.books;
    DropSupported(m, i);
    SameHandles(w, hs, m, objs);
    SharesAreLive(w, hs);
    DropPoints(ptrs, m, objs, i);
    DropTracks(b.held.Keys, hs, i);
    HandleReady(w, hs[i]);
    Destroy(w, hs[i]);
    after := hs[..i] + hs[i + 1..];
    DropBooks(b, w.books, hs[i]);
    assert Ptrs(after) == ptrs[..i] + ptrs[i + 1..];
    Redraw(w, after, After(m, Drop(i)), objs);
  }

  lemma HandleReady(w: World, h: SharedPtr)
    requires w.Valid() && h in w.books.held
    ensures w.Orderly() && w.HandleOk(h)
  {
  }

  lemma DropSupported(m: Table, i: nat)
    requires Supported(m, Drop(i))
    ensures i < |m.slots| && After(m, Drop(i)) == m.(slots := m.slots[..i] + m.slots[i + 1..])
  {
  }

  lemma DropBooks(b: Books, b': Books, h: SharedPtr)
    requires Balanced(b) && h in b.held && HoldsLive(b, h) && b' == Close(GiveUp(b, h), h)
    ensures b'.held.Keys == b.held.Keys - {h} && Known(b') == Known(b) && b'.counts.Keys <= b.counts.Keys
  {
    hide Balanced, Known, HoldsLive;
    KnownAfterGiveUp(b, h);
    OthersHoldOthers(b, h);
    SameKnown(b', GiveUp(b, h));
  }

  method PerformNew(w: World, hs: seq<SharedPtr>, ghost m: Table, ghost objs: seq<Obj>)
    returns (after: seq<SharedPtr>, ghost objs': seq<Obj>)
    requires w.Valid() && Depicts(w, hs, m, objs)
    modifies w
    ensures Supported(m, NewObj) && w.Valid() && Depicts(w, after, After(m, NewObj), objs') && objs <= objs'
    ensures forall i | 0 <= i < |after| :: after[i] in hs || fresh(after[i])
    ensures fresh(w.books.counts.Keys - old(w.books.counts.Keys))
  {
    hide *;
    ghost var ptrs, b := Ptrs(hs), w.books;
    SameHandles(w, hs, m, objs);
    var h, o := WrapNew(w);
    objs' := objs + [o];
    NewPoints(ptrs, m, objs, o);
    MoreTracks(b.held.Keys, hs, h);
    NewBooks(b, w.books, h, h.counter, o, objs);
    after := hs + [h];
    PtrsThen(hs, h);
    Redraw(w, after, After(m, NewObj), objs');
  }

  /** A new object and its first handle. */
  method WrapNew(w: World) returns (h: SharedPtr, o: Obj)
    requires w.Valid()
    modifies w
    ensures w.Valid() && fresh(h) && fresh(o) && h.ptr == o && h.counter != null && fresh(h.counter)
    ensures o !in Known(old(w.books)) && h !in old(w.books.held) && h.counter !in old(w.books.managed)
    ensures w.books == NewObject(Open(old(w.books), h), h, h.counter, o)
  {
    hide Balanced, NewObject;
    o := new Obj();
    FreshIsUnwrapped(w.books, o);
    h := FromRaw(w, o);
  }

  lemma NewPoints(ptrs: seq<Obj?>, m: Table, objs: seq<Obj>, o: Obj)
    requires PointAs(ptrs, m, objs) && o !in objs
    ensures Supported(m, NewObj) && PointAs(ptrs + [o], After(m, NewObj), objs + [o])
  {
  }

  lemma NewBooks(b: Books, b': Books, h: SharedPtr, c: Counter, o: Obj, objs: seq<Obj>)
    requires h !in b.held && c !in b.managed && b' == NewObject(Open(b, h), h, c, o)
    requires Known(b) == set x | x in objs
    ensures b'.held.Keys == b.held.Keys + {h} && b'.counts.Keys == b.counts.Keys + {c}
    ensures Known(b') == set x | x in objs + [o]
  {
    forall x ensures x in Known(b') <==> x in Known(b) || x == o {
      KnownAfterNew(b, b', c, o, x);
    }
  }

  lemma KnownAfterNew(b: Books, b': Books, c: Counter, o: Obj, x: Obj)
    requires c !in b.managed && b'.managed == b.managed[c := o] && b'.deleted == b.deleted
    ensures x in Known(b') <==> x in Known(b) || x == o
  {
    assert c in b'.managed && b'.managed[c] == o;
    if x in b.managed.Values {
      var d :| d in b.managed && b.managed[d] == x;
      assert d in b'.managed && b'.managed[d] == x;
    }
  }

  lemma FreshIsUnwrapped(b: Books, o: Obj)
    requires o !in Known(b)
    ensures Unwrapped(b, o)
  {
  }

  method PerformConstruct(w: World, hs: seq<SharedPtr>, op: Op, ghost m: Table, ghost objs: seq<Obj>)
    returns (after: seq<SharedPtr>)
    requires w.Valid() && Depicts(w, hs, m, objs) && Supported(m, op)
    requires op.NewNull? || op.Copy? || op.Steal?
    modifies w, hs, w.books.counts.Keys
    ensures w.Valid() && Depicts(w, after, After(m, op), objs)
    ensures forall i | 0 <= i < |after| :: after[i] in hs || fresh(after[i])
    ensures fresh(w.books.counts.Keys - old(w.books.counts.Keys))
  {
    hide *;
    ghost var ptrs, b := Ptrs(hs), w.books;
    SameHandles(w, hs, m, objs);
    ConstructPoints(ptrs, m, objs, op);
    var h := Construct(w, hs, op);
    MoreTracks(b.held.Keys, hs, h);
    after := hs + [h];
    PtrsThen(hs, h);
    Redraw(w, after, After(m, op), objs);
  }

  lemma PtrsThen(hs: seq<SharedPtr>, h: SharedPtr)
    ensures Ptrs(hs + [h]) == Ptrs(hs) + [h.ptr]
  {
  }

  /** The three constructors that wrap nothing. */
  method Construct(w: World, hs: seq<SharedPtr>, op: Op) returns (h: SharedPtr)
    requires w.Valid() && Tracks(w.books.held.Keys, hs) && (op.NewNull? || op.Copy? || op.Steal?)
    requires !op.NewNull? ==> op.from < |hs| && hs[op.from].ptr != null
    modifies w, hs, w.books.counts.Keys
    ensures w.Valid() && fresh(h)
    ensures w.books.held.Keys == old(w.books.held.Keys) + {h} && w.books.counts.Keys == old(w.books.counts.Keys)
    ensures Known(w.books) == Known(old(w.books))
    ensures h.ptr == if op.NewNull? then null else old(hs[op.from].ptr)
    ensures Ptrs(hs) == if op.Steal? then old(Ptrs(hs))[op.from := null] else old(Ptrs(hs))
  {
    hide *;
    ghost var b, ptrs := w.books, Ptrs(hs);
    LiveHandles(w, hs);
    SharesAreLive(w, hs);
    if op.NewNull? {
      h := FromNull(w);
    } else if op.Copy? {
      h := CopyConstruct(w, hs[op.from], null, null);
    } else {
      h := MoveConstruct(w, hs[op.from], null, null);
    }
    assert Ptrs(hs) == if op.Steal? then ptrs[op.from := null] else ptrs;
    ConstructBooks(b, w.books, h, op, hs, h.counter);
  }

  lemma LiveHandles(w: World, hs: seq<SharedPtr>)
    requires w.Valid() && Tracks(w.books.held.Keys, hs)
    ensures forall i, j | 0 <= i < j < |hs| :: hs[i] != hs[j]
    ensures forall i | 0 <= i < |hs| :: hs[i] in w.books.held
    ensures forall i | 0 <= i < |hs| && hs[i].ptr != null :: hs[i].counter != null && hs[i].counter in w.books.counts
  {
    hide Balanced;
    forall i | 0 <= i < |hs| ensures hs[i].ptr != null ==> hs[i].counter != null && hs[i].counter in w.books.counts {
      assert w.HandleOk(hs[i]);
      OthersHoldOthers(w.books, hs[i]);
    }
  }

  lemma ConstructPoints(ptrs: seq<Obj?>, m: Table, objs: seq<Obj>, op: Op)
    requires PointAs(ptrs, m, objs) && Supported(m, op) && (op.NewNull? || op.Copy? || op.Steal?)
    ensures !op.NewNull? ==> op.from < |ptrs| && ptrs[op.from] != null
    ensures PointAs((if op.Steal? then ptrs[op.from := null] else ptrs)
                    + [if op.NewNull? then null else ptrs[op.from]], After(m, op), objs)
  {
    var n := if op.NewNull? then -1 else m.slots[op.from];
    MorePoints(ptrs, m, objs, n);
    if op.Steal? {
      AssignPoints(ptrs, m, objs, op.from, -1);
      MorePoints(ptrs[op.from := null], m.(slots := m.slots[op.from := -1]), objs, n);
    }
  }

  lemma ConstructBooks(b: Books, b': Books, h: SharedPtr, op: Op, hs: seq<SharedPtr>, c: Counter?)
    requires h !in b.held && (op.Steal? ==> op.from < |hs| && hs[op.from] in b.held)
    requires
      || b' == Open(b, h)
      || (c != null && c in b.counts && b' == Take(Open(b, h), h, c))
      || (op.Steal? && c != null && b' == Move(Open(b, h), h, hs[op.from], c))
    ensures b'.held.Keys == b.held.Keys + {h} && b'.counts.Keys == b.counts.Keys && Known(b') == Known(b)
  {
    SameKnown(b, b');
  }

  // ---------------------------------------------------------------- whole programs

  lemma {:induction false} RunThen(m: Table, ops: seq<Op>, n: nat)
    requires RunSupported(m, ops) && n < |ops|
    ensures RunSupported(m, ops[..n]) && Supported(AfterAll(m, ops[..n]), ops[n])
    ensures RunSupported(m, ops[..n + 1]) && AfterAll(m, ops[..n + 1]) == After(AfterAll(m, ops[..n]), ops[n])
    decreases |ops|
  {
    hide Supported, After;
    assert ops[..n + 1][0] == ops[0] && ops[..n + 1][1..] == ops[1..][..n];
    if n == 0 {
      assert ops[..n] == [] && ops[1..][..n] == [];
    } else {
      assert ops[..n][0] == ops[0] && ops[..n][1..] == ops[1..][..n - 1];
      RunThen(After(m, ops[0]), ops[1..], n - 1);
    }
  }

  /** What the table says of counters and of deleted objects. */
  ghost predicate AsTable(w: World, hs: seq<SharedPtr>, m: Table, objs: seq<Obj>)
    requires |m.slots| == |hs| && |objs| == m.created
    reads w, hs, set i | 0 <= i < |hs| && hs[i].counter != null :: hs[i].counter
  {
    && (forall i | 0 <= i < |hs| && m.slots[i] >= 0 ::
          hs[i].counter != null && hs[i].counter.count == multiset(m.slots)[m.slots[i]])
    && (forall n | 0 <= n < m.created :: objs[n] in w.deleted <==> n !in m.slots)
    && (forall i, j | 0 <= i < j < |w.deleted| :: w.deleted[i] != w.deleted[j])
  }

  lemma DepictedIsAsTable(w: World, hs: seq<SharedPtr>, m: Table, objs: seq<Obj>)
    requires w.Valid() && Depicts(w, hs, m, objs)
    ensures |m.slots| == |hs| && |objs| == m.created && AsTable(w, hs, m, objs)
  {
    hide Balanced, Depicts;
    SameHandles(w, hs, m, objs);
    forall i | 0 <= i < |hs| && m.slots[i] >= 0
      ensures hs[i].counter != null && hs[i].counter.count == multiset(m.slots)[m.slots[i]]
    {
      CountIsSharers(w, hs, m, objs, i);
    }
    forall n | 0 <= n < m.created ensures objs[n] in w.deleted <==> n !in m.slots {
      DeletedIffUnheld(w, hs, m, objs, n);
    }
    ValidIsDeletedOnce(w);
  }

  /**
   Every program of supported operations does to its handles what the table says; each counter is
   the number of handles on its object, and exactly the objects without a handle are deleted, once.
   */
  method PerformAll(ops: seq<Op>) returns (w: World, hs: seq<SharedPtr>, ghost objs: seq<Obj>)
    requires RunSupported(EMPTY, ops)
    ensures fresh(w) && w.Valid() && Depicts(w, hs, AfterAll(EMPTY, ops), objs)
    ensures |AfterAll(EMPTY, ops).slots| == |hs| && |objs| == AfterAll(EMPTY, ops).created
    ensures AsTable(w, hs, AfterAll(EMPTY, ops), objs)
  {
    hide *;
    w, hs, objs := Begin();
    var k := 0;
    assert ops[..0] == [];
    NoOps();
    while k < |ops|
      invariant k <= |ops| && RunSupported(EMPTY, ops[..k]) && w.Valid()
      invariant fresh(w) && (forall i | 0 <= i < |hs| :: fresh(hs[i])) && fresh(w.books.counts.Keys)
      invariant Depicts(w, hs, AfterAll(EMPTY, ops[..k]), objs)
    {
      RunThen(EMPTY, ops, k);
      hs, objs := Perform(w, hs, ops[k], AfterAll(EMPTY, ops[..k]), objs);
      k := k + 1;
    }
    assert ops[..k] == ops;
    DepictedIsAsTable(w, hs, AfterAll(EMPTY, ops), objs);
  }

  lemma NoOps()
    ensures RunSupported(EMPTY, []) && AfterAll(EMPTY, []) == EMPTY
  {
  }

  lemma ValidIsDeletedOnce(w: World)
    requires w.Valid()
    ensures DeletedOnce(w.books) && w.deleted == w.books.deleted
  {
  }

  method Begin() returns (w: World, hs: seq<SharedPtr>, ghost objs: seq<Obj>)
    ensures fresh(w) && w.Valid() && hs == [] && w.books.counts == map[] && Depicts(w, hs, EMPTY, objs)
  {
    w := new World();
    hs, objs := [], [];
  }

  lemma FirstCanGo(m: Table)
    ensures |m.slots| > 0 ==> Supported(m, Drop(0))
  {
  }

  lemma KnownIsDeleted(b: Books)
    ensures b.managed == map[] ==> Known(b) == set o | o in b.deleted
  {
  }

  /** The end of a program: every handle is destroyed, and then every object is deleted, each once. */
  method DestroyAll(w: World, hs: seq<SharedPtr>, ghost m: Table, ghost objs: seq<Obj>)
    requires w.Valid() && Depicts(w, hs, m, objs)
    modifies w, hs, w.books.counts.Keys
    ensures w.Valid() && w.books.held == map[] && w.live == {}
    ensures (set o | o in w.deleted) == (set o | o in objs)
    ensures forall i, j | 0 <= i < j < |w.deleted| :: w.deleted[i] != w.deleted[j]
  {
    hide *;
    var left := hs;
    ghost var now := m;
    while left != []
      invariant w.Valid() && Depicts(w, left, now, objs)
      invariant forall c <- w.books.counts.Keys :: c in old(w.books.counts.Keys)
      decreases |left|
    {
      SameHandles(w, left, now, objs);
      FirstCanGo(now);
      left := PerformDrop(w, left, 0, now, objs);
      now := After(now, Drop(0));
    }
    SameHandles(w, left, now, objs);
    assert w.books.held.Keys == {};
    EverythingDeleted(w);
    ValidIsDeletedOnce(w);
    KnownIsDeleted(w.books);
  }
}
