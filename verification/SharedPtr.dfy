/**
 The reference-counted pointer: handles, counters and the objects they manage. What must hold
 between them is stated on the books, a snapshot of who holds what and what the counters say.
 */
module SharedPointer {
  /** An object that a program manages with shared pointers. */
  class Obj {
    constructor () {}
  }

  class Counter {
    var count: nat

    constructor ()
      ensures count == 1
    {
      count := 1;
    }
  }

  /** `counter_` means nothing while `ptr_` is null: the code leaves it unset then. */
  class SharedPtr {
    var ptr: Obj?
    var counter: Counter?

    constructor ()
      ensures ptr == null && counter == null
    {
      ptr := null;
      counter := null;
    }
  }

  type Holdings = map<SharedPtr, Counter?>

  /**
   Who holds which counter, what the live counters say, for which object each counts, and which
   objects have been deleted, in order.
   */
  datatype Books = Books(held: Holdings, counts: map<Counter, nat>, managed: map<Counter, Obj>, deleted: seq<Obj>)

  ghost function Holders(m: Holdings, c: Counter): set<SharedPtr> {
    set h | h in m && m[h] == c
  }

  /**
   Every non-null handle holds a live counter; every live counter is the number of its handles,
   of which there is at least one; no object has two counters, and none is deleted twice or too soon.
   */
  ghost predicate Balanced(b: Books) {
    && b.counts.Keys == b.managed.Keys
    && (forall h {:trigger HoldsLive(b, h)} | h in b.held :: HoldsLive(b, h))
    && (forall c {:trigger CountsHolders(b, c)} | c in b.counts :: CountsHolders(b, c))
    && (forall c <- b.managed, d <- b.managed :: b.managed[c] == b.managed[d] ==> c == d)
    && DeletedOnce(b)
  }

  ghost predicate DeletedOnce(b: Books) {
    && (forall c <- b.managed :: b.managed[c] !in b.deleted)
    && (forall i, j | 0 <= i < j < |b.deleted| :: b.deleted[i] != b.deleted[j])
  }

  /** Every object that has ever been wrapped. */
  ghost function Known(b: Books): set<Obj> {
    b.managed.Values + set o | o in b.deleted
  }

  ghost predicate HoldsLive(b: Books, h: SharedPtr)
    requires h in b.held
  {
    b.held[h] != null ==> b.held[h] in b.counts
  }

  ghost predicate CountsHolders(b: Books, c: Counter)
    requires c in b.counts
  {
    b.counts[c] == |Holders(b.held, c)| > 0
  }

  // ---------------------------------------------------------------- entries in the books

  ghost function Open(b: Books, h: SharedPtr): Books {
    b.(held := b.held[h := null])
  }

  ghost function Close(b: Books, h: SharedPtr): Books {
    b.(held := b.held - {h})
  }

  /** h takes a share of c. */
  ghost function Take(b: Books, h: SharedPtr, c: Counter): Books
    requires c in b.counts
  {
    b.(held := b.held[h := c], counts := b.counts[c := b.counts[c] + 1])
  }

  /** h gives its share up; the last share takes counter and object along. */
  ghost function GiveUp(b: Books, h: SharedPtr): Books
    requires h in b.held && (b.held[h] != null ==> b.held[h] in b.counts)
  {
    var c := b.held[h];
    if c == null then b
    else if b.counts[c] == 1 then
      Books(b.held[h := null], b.counts - {c}, b.managed - {c},
        if c in b.managed then b.deleted + [b.managed[c]] else b.deleted)
    else b.(held := b.held[h := null], counts := b.counts[c := (if b.counts[c] > 0 then b.counts[c] - 1 else 0)])
  }

  /** The share of `from` goes to h. */
  ghost function Move(b: Books, h: SharedPtr, from: SharedPtr, c: Counter): Books {
    b.(held := b.held[h := c][from := null])
  }

  ghost function NewObject(b: Books, h: SharedPtr, c: Counter, o: Obj): Books {
    Books(b.held[h := c], b.counts[c := 1], b.managed[c := o], b.deleted)
  }

  /** No counter counts, or has counted, for the object. */
  ghost predicate Unwrapped(b: Books, o: Obj) {
    o !in b.deleted && forall c <- b.managed :: b.managed[c] != o
  }

  lemma HoldersUpdate(m: Holdings, h: SharedPtr, c': Counter?, c: Counter)
    ensures var was := h in m && m[h] == c;
      |Holders(m[h := c'], c)| + (if was then 1 else 0) == |Holders(m, c)| + (if c' == c then 1 else 0)
  {
    var before, after := Holders(m, c), Holders(m[h := c'], c);
    assert before - {h} == after - {h};
    CountWithout(before, h);
    CountWithout(after, h);
  }

  lemma CountWithout(s: set<SharedPtr>, h: SharedPtr)
    ensures |s| == |s - {h}| + if h in s then 1 else 0
  {
    if h in s {
      assert s == (s - {h}) + {h};
    } else {
      assert s == s - {h};
    }
  }

  /** A counter at one has one holder. */
  lemma SoleHolder(m: Holdings, h: SharedPtr, c: Counter, k: SharedPtr)
    requires h in m && m[h] == c && |Holders(m, c)| == 1 && k in m && m[k] == c
    ensures k == h
  {
    var all := Holders(m, c);
    assert {h} <= all;
    assert |all - {h}| == 0;
    assert k in all;
  }

  lemma OpenKeepsBalance(b: Books, h: SharedPtr)
    requires Balanced(b) && h !in b.held
    ensures Balanced(Open(b, h))
  {
    hide CountsHolders;
    var b' := Open(b, h);
    forall c | c in b'.counts ensures CountsHolders(b', c) {
      assert CountsHolders(b, c);
      PositiveCount(b, c);
      OneCount(b, b', h, c);
    }
    forall k | k in b'.held ensures HoldsLive(b', k) {
      assert k in b.held ==> HoldsLive(b, k);
    }
  }

  lemma OneCount(b: Books, b': Books, h: SharedPtr, c: Counter)
    requires c in b.counts && c in b'.counts && CountsHolders(b, c)
    requires h in b'.held && b'.held == b.held[h := b'.held[h]]
    requires b'.counts[c] + (if h in b.held && b.held[h] == c then 1 else 0)
          == b.counts[c] + (if b'.held[h] == c then 1 else 0)
    requires b'.counts[c] > 0
    ensures CountsHolders(b', c)
  {
    HoldersUpdate(b.held, h, b'.held[h], c);
  }

  lemma CloseKeepsBalance(b: Books, h: SharedPtr)
    requires Balanced(b) && h in b.held && b.held[h] == null
    ensures Balanced(Close(b, h))
  {
    var b' := Close(b, h);
    forall c | c in b'.counts ensures CountsHolders(b', c) {
      assert CountsHolders(b, c);
      assert Holders(b'.held, c) == Holders(b.held, c);
    }
    forall k | k in b'.held ensures HoldsLive(b', k) {
      assert HoldsLive(b, k);
    }
  }

  lemma TakeKeepsBalance(b: Books, h: SharedPtr, c: Counter)
    requires Balanced(b) && h in b.held && b.held[h] == null && c in b.counts
    ensures Balanced(Take(b, h, c))
  {
    hide CountsHolders;
    var b' := Take(b, h, c);
    forall d | d in b'.counts ensures CountsHolders(b', d) {
      PositiveCount(b, d);
      OneCount(b, b', h, d);
    }
    forall k | k in b'.held ensures HoldsLive(b', k) {
      assert k in b.held ==> HoldsLive(b, k);
    }
  }

  lemma PositiveCount(b: Books, c: Counter)
    requires c in b.counts && CountsHolders(b, c)
    ensures b.counts[c] > 0
  {
  }

  lemma GiveUpKeepsBalance(b: Books, h: SharedPtr)
    requires Balanced(b) && h in b.held
    ensures HoldsLive(b, h) && Balanced(GiveUp(b, h))
  {
    hide CountsHolders;
    assert HoldsLive(b, h);
    var b' := GiveUp(b, h);
    if b.held[h] != null {
      forall d | d in b'.counts ensures CountsHolders(b', d) {
        PositiveCount(b, d);
        OneCount(b, b', h, d);
      }
      forall k | k in b'.held ensures HoldsLive(b', k) {
        assert HoldsLive(b, k);
        if b.held[k] == b.held[h] && b.counts[b.held[h]] == 1 {
          LastHolder(b, h, k);
        }
      }
    }
  }

  lemma LastHolder(b: Books, h: SharedPtr, k: SharedPtr)
    requires Balanced(b) && h in b.held && k in b.held && b.held[h] != null && b.held[k] == b.held[h]
    requires b.held[h] in b.counts && b.counts[b.held[h]] == 1
    ensures k == h
  {
    assert CountsHolders(b, b.held[h]);
    SoleHolder(b.held, h, b.held[h], k);
  }

  lemma NewObjectKeepsBalance(b: Books, h: SharedPtr, c: Counter, o: Obj)
    requires Balanced(b) && h in b.held && b.held[h] == null && c !in b.counts && Unwrapped(b, o)
    ensures Balanced(NewObject(b, h, c, o))
  {
    var b' := NewObject(b, h, c, o);
    forall d | d in b'.counts ensures CountsHolders(b', d) {
      HoldersUpdate(b.held, h, c, d);
      if d == c {
        forall k | k in b.held ensures b.held[k] != c {
          assert HoldsLive(b, k);
        }
        assert Holders(b.held, c) == {};
      } else {
        assert CountsHolders(b, d);
      }
    }
    forall k | k in b'.held ensures HoldsLive(b', k) {
      assert k in b.held ==> HoldsLive(b, k);
    }
  }

  lemma MoveKeepsBalance(b: Books, h: SharedPtr, from: SharedPtr, c: Counter)
    requires Balanced(b) && h in b.held && from in b.held && h != from && b.held[h] == null && b.held[from] == c
    ensures Balanced(Move(b, h, from, c))
  {
    hide CountsHolders;
    assert HoldsLive(b, from);
    var b' := Move(b, h, from, c);
    forall d | d in b'.counts ensures CountsHolders(b', d) {
      MovedCount(b, h, from, c, d);
    }
    forall k | k in b'.held ensures HoldsLive(b', k) {
      assert HoldsLive(b, k);
    }
  }

  lemma MovedCount(b: Books, h: SharedPtr, from: SharedPtr, c: Counter, d: Counter)
    requires h in b.held && from in b.held && h != from && b.held[h] == null && b.held[from] == c
    requires d in b.counts && CountsHolders(b, d)
    ensures CountsHolders(Move(b, h, from, c), d)
  {
    var mid: Holdings := b.held[h := c];
    HoldersUpdate(b.held, h, c, d);
    HoldersUpdate(mid, from, null, d);
  }

  /** When no handle is left everything has been deleted. */
  lemma NothingLeaks(b: Books)
    requires Balanced(b) && b.held == map[]
    ensures b.counts == map[] && b.managed == map[]
  {
    NobodyHolds(b);
  }

  lemma NobodyHolds(b: Books)
    requires b.held == map[]
    ensures forall c <- b.counts :: !CountsHolders(b, c)
  {
    forall c | c in b.counts ensures !CountsHolders(b, c) {
      assert Holders(b.held, c) == {};
    }
  }

  // ---------------------------------------------------------------- the handles themselves

  /** The handle is as the books say. */
  ghost predicate HandleIn(b: Books, h: SharedPtr)
    requires h in b.held
    reads h
  {
    && (h.ptr == null <==> b.held[h] == null)
    && (h.ptr != null ==> h.counter == b.held[h] && h.counter in b.managed && b.managed[h.counter] == h.ptr)
  }

  /** These books describe the handles and the counters as they are. */
  ghost predicate Describes(b: Books)
    reads b.held.Keys, b.counts.Keys
  {
    && Balanced(b)
    && (forall h <- b.held :: HandleIn(b, h))
    && (forall c <- b.counts :: c.count == b.counts[c])
  }

  /** The heap that the handles share: what has been deleted, and which counters there are. */
  class World {
    var deleted: seq<Obj>
    var live: set<Counter>
    ghost var books: Books

    constructor ()
      ensures Valid() && books == Books(map[], map[], map[], [])
    {
      deleted, live := [], {};
      books := Books(map[], map[], map[], []);
    }

    ghost predicate HandleOk(h: SharedPtr)
      requires h in books.held
      reads this, h
    {
      HandleIn(books, h)
    }

    /** The books balance, and the counters and what has been deleted are as they say. */
    ghost predicate Orderly()
      reads this, books.counts.Keys
    {
      && Balanced(books)
      && (forall c <- books.counts :: c.count == books.counts[c])
      && deleted == books.deleted && live == books.counts.Keys
    }

    ghost predicate Valid()
      reads this, books.held.Keys, books.counts.Keys
    {
      Orderly() && forall h <- books.held :: HandleOk(h)
    }
  }

  /** The counter that a handle may touch, if it holds one. */
  ghost function Share(h: SharedPtr): set<Counter>
    reads h
  {
    if h.ptr != null && h.counter != null then {h.counter} else {}
  }

  /** The handles that point to an object. */
  ghost function Pointing(hs: set<SharedPtr>, o: Obj): set<SharedPtr>
    reads hs
  {
    set h | h in hs && h.ptr == o
  }

  /** If any books describe the handles, a counter is the number of handles on its object. */
  lemma CountIsPointing(b: Books, h: SharedPtr)
    requires Describes(b) && h in b.held && h.ptr != null
    ensures h.counter != null && h.counter.count == |Pointing(b.held.Keys, h.ptr)|
  {
    assert HandleIn(b, h);
    assert CountsHolders(b, h.counter);
    forall k | k in b.held ensures k.ptr == h.ptr <==> b.held[k] == h.counter {
      assert HandleIn(b, k);
    }
    assert Holders(b.held, h.counter) == Pointing(b.held.Keys, h.ptr);
  }

  /** A counter that is not the number of its handles cannot be described by any books. */
  lemma NoBooksFit(b: Books, h: SharedPtr)
    requires h in b.held && h.ptr != null && h.counter != null
    requires h.counter.count != |Pointing(b.held.Keys, h.ptr)|
    ensures !Describes(b)
  {
    if Describes(b) {
      CountIsPointing(b, h);
    }
  }

  /** What `use_count` says is the number of handles on the object. */
  lemma UseCountIsHolders(w: World, h: SharedPtr)
    requires w.Valid() && h in w.books.held && h.ptr != null
    ensures h.counter != null && h.counter.count == |Pointing(w.books.held.Keys, h.ptr)|
  {
    hide Balanced;
    ValidIsDescribed(w);
    CountIsPointing(w.books, h);
  }

  lemma ValidIsDescribed(w: World)
    requires w.Valid()
    ensures Describes(w.books)
  {
    hide Balanced;
    forall h | h in w.books.held ensures HandleIn(w.books, h) {
      assert w.HandleOk(h);
    }
  }

  /** When the last handle is gone no object and no counter is left. */
  lemma EverythingDeleted(w: World)
    requires w.Valid() && w.books.held == map[]
    ensures w.books.managed == map[] && w.books.counts == map[] && w.live == {}
  {
    NothingLeaks(w.books);
  }

  /** The constructor from null. */
  method FromNull(w: World) returns (h: SharedPtr)
    requires w.Valid()
    modifies w
    ensures w.Valid() && fresh(h) && h.ptr == null && w.books == Open(old(w.books), h)
  {
    hide Balanced;
    h := new SharedPtr();
    OpenKeepsBalance(w.books, h);
    SameKeys(w.books);
    w.books := Open(w.books, h);
  }

  /**
   The constructor from a raw pointer. All stays in order exactly when it has not been wrapped before.
   If it is wrapped by others, every counter of the object is then short.
   */
  method FromRaw(w: World, p: Obj) returns (h: SharedPtr)
    requires w.Valid()
    modifies w
    ensures w.Valid() <==> Unwrapped(old(w.books), p)
    ensures fresh(h) && h in w.books.held && h.ptr == p && h.counter != null && fresh(h.counter)
    ensures h.counter.count == 1 && w.live == old(w.live) + {h.counter} && w.deleted == old(w.deleted)
    ensures w.books == NewObject(Open(old(w.books), h), h, h.counter, p)
    ensures p in old(w.books.managed.Values) ==> forall k <- w.books.held | k.ptr == p ::
      k.counter != null && k.counter.count < |Pointing(w.books.held.Keys, p)|
  {
    hide Balanced, Unwrapped, NewObject, Pointing;
    ghost var keys, pointing := w.books.held.Keys, Pointing(w.books.held.Keys, p);
    CountsBefore(w, p);
    h := FromNull(w);
    StillUnwrapped(old(w.books), h, p);
    var c := Wrap(w, h, p);
    OneMorePoints(keys, h, p, pointing);
    assert w.books.held.Keys == keys + {h};
    if p in old(w.books.managed.Values) {
      forall k | k in w.books.held && k.ptr == p
        ensures k.counter != null && k.counter.count < |Pointing(w.books.held.Keys, p)|
      {
        assert k == h || (k in keys && old(k.ptr) == p && k.counter.count == old(k.counter.count));
      }
    }
  }

  lemma CountsBefore(w: World, p: Obj)
    requires w.Valid()
    ensures forall k <- w.books.held | k.ptr == p ::
      k.counter != null && k.counter.count == |Pointing(w.books.held.Keys, p)|
    ensures p in w.books.managed.Values ==> |Pointing(w.books.held.Keys, p)| > 0
  {
    hide Balanced;
    forall k | k in w.books.held && k.ptr == p
      ensures k.counter != null && k.counter.count == |Pointing(w.books.held.Keys, p)|
    {
      UseCountIsHolders(w, k);
    }
    if p in w.books.managed.Values {
      var c :| c in w.books.managed && w.books.managed[c] == p;
      LiveIsHeld(w.books, c);
      var h :| h in w.books.held && w.books.held[h] == c;
      assert w.HandleOk(h);
      assert h in Pointing(w.books.held.Keys, p);
    }
  }

  lemma LiveIsHeld(b: Books, c: Counter)
    requires Balanced(b) && c in b.managed
    ensures exists h :: h in b.held && b.held[h] == c
  {
    assert CountsHolders(b, c);
    var h :| h in Holders(b.held, c);
  }

  lemma OneMorePoints(keys: set<SharedPtr>, h: SharedPtr, p: Obj, pointing: set<SharedPtr>)
    requires h !in keys && h.ptr == p && pointing == Pointing(keys, p)
    ensures |Pointing(keys + {h}, p)| == |pointing| + 1
  {
    assert Pointing(keys + {h}, p) == pointing + {h};
  }

  /** The first handle of an object: a counter at one. */
  method Wrap(w: World, h: SharedPtr, p: Obj) returns (c: Counter)
    requires w.Valid() && h in w.books.held && h.ptr == null
    modifies w, h
    ensures w.Valid() <==> Unwrapped(old(w.books), p)
    ensures fresh(c) && h in w.books.held && h.ptr == p && h.counter == c && c.count == 1
    ensures w.live == old(w.live) + {c} && w.deleted == old(w.deleted)
    ensures w.books == NewObject(old(w.books), h, c, p) && w.books.held.Keys == old(w.books.held.Keys)
  {
    hide Balanced, Unwrapped;
    assert w.HandleOk(h);
    SameKeys(w.books);
    ghost var b := w.books;
    c := new Counter();
    w.live := w.live + {c};
    NewObjectBalancedIff(b, h, c, p);
    h.ptr := p;
    h.counter := c;
    w.books := NewObject(b, h, c, p);
    forall k | k in w.books.held ensures w.HandleOk(k) {
      if k != h {
        assert b.held[k] != null ==> b.held[k] in b.managed;
      }
    }
  }

  /** An object that is wrapped twice has two counters, or comes back from the dead. */
  lemma NewObjectBalancedIff(b: Books, h: SharedPtr, c: Counter, o: Obj)
    requires Balanced(b) && h in b.held && b.held[h] == null && c !in b.counts && c !in b.managed
    ensures Balanced(NewObject(b, h, c, o)) <==> Unwrapped(b, o)
  {
    if Unwrapped(b, o) {
      NewObjectKeepsBalance(b, h, c, o);
    } else {
      var b' := NewObject(b, h, c, o);
      assert b'.managed[c] == o;
      if d :| d in b.managed && b.managed[d] == o {
        assert b'.managed[d] == o && d != c;
      }
    }
  }

  lemma StillUnwrapped(b: Books, h: SharedPtr, o: Obj)
    ensures Unwrapped(Open(b, h), o) <==> Unwrapped(b, o)
  {
  }

  lemma SameKeys(b: Books)
    requires Balanced(b)
    ensures b.counts.Keys == b.managed.Keys
  {
  }

  /**
   The copy constructor. From a null handle it leaves both members as they happen to be: `junk` and
   `junkCounter` are what the memory held.
   */
  method CopyConstruct(w: World, rhs: SharedPtr, junk: Obj?, junkCounter: Counter?) returns (h: SharedPtr)
    requires w.Valid() && rhs in w.books.held
    modifies w, Share(rhs)
    ensures w.Orderly() && (w.Valid() <==> rhs.ptr != null || junk == null)
    ensures fresh(h) && rhs.ptr == old(rhs.ptr) && rhs.counter == old(rhs.counter)
    ensures rhs.ptr == null ==> h.ptr == junk && h.counter == junkCounter && w.books == Open(old(w.books), h)
    ensures rhs.ptr != null ==> h.ptr == rhs.ptr && rhs.counter != null && h.counter == rhs.counter
    ensures rhs.ptr != null ==>
      rhs.counter in old(w.books.counts) && w.books == Take(Open(old(w.books), h), h, rhs.counter)
  {
    hide Balanced;
    if rhs.ptr == null {
      h := LeftUnset(w, junk, junkCounter);
    } else {
      h := new SharedPtr();
      assert w.HandleOk(rhs);
      SameKeys(w.books);
      OpenKeepsBalance(w.books, h);
      TakeKeepsBalance(Open(w.books, h), h, rhs.counter);
      rhs.counter.count := rhs.counter.count + 1;
      h.ptr := rhs.ptr;
      h.counter := rhs.counter;
      w.books := Take(Open(w.books, h), h, rhs.counter);
    }
  }

  /** A handle whose constructor has set nothing: all is in order only if the memory held null. */
  method LeftUnset(w: World, junk: Obj?, junkCounter: Counter?) returns (h: SharedPtr)
    requires w.Valid()
    modifies w
    ensures w.Orderly() && (w.Valid() <==> junk == null)
    ensures fresh(h) && h.ptr == junk && h.counter == junkCounter && w.books == Open(old(w.books), h)
  {
    hide Balanced;
    h := new SharedPtr();
    OpenKeepsBalance(w.books, h);
    SameKeys(w.books);
    h.ptr, h.counter := junk, junkCounter;
    w.books := Open(w.books, h);
    assert w.HandleOk(h) <==> h.ptr == null;
  }

  /** The move constructor: the share changes hands. From a null handle it sets nothing either. */
  method MoveConstruct(w: World, rhs: SharedPtr, junk: Obj?, junkCounter: Counter?) returns (h: SharedPtr)
    requires w.Valid() && rhs in w.books.held
    modifies w, rhs
    ensures w.Orderly() && (w.Valid() <==> old(rhs.ptr) != null || junk == null)
    ensures fresh(h) && rhs.ptr == null
    ensures old(rhs.ptr) == null ==> h.ptr == junk && h.counter == junkCounter && w.books == Open(old(w.books), h)
    ensures old(rhs.ptr) != null ==> h.ptr == old(rhs.ptr) && h.counter != null && h.counter == old(rhs.counter)
    ensures old(rhs.ptr) != null ==> w.books == Move(Open(old(w.books), h), h, rhs, h.counter)
  {
    hide Balanced;
    if rhs.ptr == null {
      h := LeftUnset(w, junk, junkCounter);
    } else {
      h := new SharedPtr();
      assert w.HandleOk(rhs);
      OpenKeepsBalance(w.books, h);
      MoveKeepsBalance(Open(w.books, h), h, rhs, rhs.counter);
      h.ptr := rhs.ptr;
      h.counter := rhs.counter;
      rhs.ptr := null;
      rhs.counter := null;
      w.books := Move(Open(w.books, h), h, rhs, h.counter);
    }
  }

  /** The destructor, whatever state the handles are in, as long as the handle's counter still exists. */
  method Destruct(w: World, h: SharedPtr)
    requires h.ptr != null ==> h.counter != null && h.counter in w.live && h.counter.count > 0
    modifies w, Share(h)
    ensures w.books == old(w.books)
    ensures h.ptr != null ==> h.counter.count == old(h.counter.count) - 1
    ensures var last := h.ptr != null && h.counter.count == 0;
      && w.deleted == (if last then old(w.deleted) + [h.ptr] else old(w.deleted))
      && w.live == (if last then old(w.live) - {h.counter} else old(w.live))
  {
    if h.ptr != null {
      h.counter.count := h.counter.count - 1;
      if h.counter.count == 0 {
        w.deleted := w.deleted + [h.ptr];
        w.live := w.live - {h.counter};
      }
    }
  }

  /**
   The destructor of a handle that is in order: object and counter go with the last share, and only
   then. It does not matter whether the other handles are in order.
   */
  method Destroy(w: World, h: SharedPtr)
    requires w.Orderly() && h in w.books.held && w.HandleOk(h)
    modifies w, Share(h)
    ensures w.Orderly() && (old(w.Valid()) ==> w.Valid())
    ensures HoldsLive(old(w.books), h) && w.books == Close(GiveUp(old(w.books), h), h)
  {
    hide Balanced;
    GiveUpKeepsBalance(w.books, h);
    CloseKeepsBalance(GiveUp(w.books, h), h);
    OthersHoldOthers(w.books, h);
    ghost var b := w.books;
    Destruct(w, h);
    w.books := Close(GiveUp(b, h), h);
  }

  /** A counter at one is held by nobody else, and a live counter is positive. */
  lemma OthersHoldOthers(b: Books, h: SharedPtr)
    requires Balanced(b) && h in b.held
    ensures b.held[h] != null ==> b.held[h] in b.counts && b.held[h] in b.managed && b.counts[b.held[h]] > 0
    ensures b.held[h] != null && b.counts[b.held[h]] == 1 ==> forall k <- b.held :: b.held[k] == b.held[h] ==> k == h
  {
    assert HoldsLive(b, h);
    if b.held[h] != null {
      PositiveCount(b, b.held[h]);
      if b.counts[b.held[h]] == 1 {
        forall k | k in b.held && b.held[k] == b.held[h] ensures k == h {
          LastHolder(b, h, k);
        }
      }
    }
  }

  /** Assigning from null to a handle that shares its object: the one case the code gets wrong. */
  ghost predicate ForgetsToReset(b: Books, lhs: SharedPtr, rhs: SharedPtr)
    requires lhs in b.held && rhs in b.held
  {
    b.held[rhs] == null && b.held[lhs] != null && b.held[lhs] in b.counts && b.counts[b.held[lhs]] > 1
  }

  /** The first half of both assignments: give up what the handle holds. */
  method LetGo(w: World, lhs: SharedPtr) returns (ghost dangling: bool)
    requires w.Valid() && lhs in w.books.held
    modifies w, lhs, Share(lhs)
    ensures HoldsLive(old(w.books), lhs) && w.books == GiveUp(old(w.books), lhs) && w.Orderly()
    ensures forall h <- w.books.held :: h != lhs ==> w.HandleOk(h)
    ensures dangling == (old(lhs.ptr != null) && old(lhs.counter != null && lhs.counter.count > 1))
    ensures if dangling
            then lhs.ptr == old(lhs.ptr) && lhs.counter == old(lhs.counter)
              && lhs.counter != null && lhs.counter.count + 1 == old(lhs.counter.count)
            else w.HandleOk(lhs) && lhs.ptr == null
  {
    hide Balanced;
    assert w.HandleOk(lhs);
    GiveUpKeepsBalance(w.books, lhs);
    OthersHoldOthers(w.books, lhs);
    dangling := lhs.ptr != null && lhs.counter != null && lhs.counter.count > 1;
    ghost var b := w.books;
    if lhs.ptr != null {
      lhs.counter.count := lhs.counter.count - 1;
      if lhs.counter.count == 0 {
        w.deleted := w.deleted + [lhs.ptr];
        w.live := w.live - {lhs.counter};
        lhs.ptr := null;
        lhs.counter := null;
      }
    }
    w.books := GiveUp(b, lhs);
  }

  /** All is well but for lhs, which the books say holds nothing. */
  ghost predicate ValidBut(w: World, lhs: SharedPtr)
    reads w, w.books.held.Keys, w.books.counts.Keys
  {
    && w.Orderly() && lhs in w.books.held && w.books.held[lhs] == null
    && (forall h <- w.books.held :: h != lhs ==> w.HandleOk(h))
  }

  /** The second half of the copy assignment. */
  method TakeShare(w: World, lhs: SharedPtr, rhs: SharedPtr)
    requires ValidBut(w, lhs) && rhs.ptr != null && rhs.counter != null
    requires rhs.counter in w.books.counts && rhs.counter in w.books.managed && w.books.managed[rhs.counter] == rhs.ptr
    modifies w, lhs, rhs.counter
    ensures w.Valid() && w.books == Take(old(w.books), lhs, old(rhs.counter))
    ensures lhs.ptr == rhs.ptr == old(rhs.ptr)
  {
    hide Balanced;
    TakeKeepsBalance(w.books, lhs, rhs.counter);
    rhs.counter.count := rhs.counter.count + 1;
    w.books := Take(w.books, lhs, rhs.counter);
    lhs.ptr := rhs.ptr;
    lhs.counter := rhs.counter;
  }

  /** The second half of the move assignment. */
  method TakeOver(w: World, lhs: SharedPtr, rhs: SharedPtr)
    requires ValidBut(w, lhs) && lhs != rhs && rhs in w.books.held && w.HandleOk(rhs) && rhs.ptr != null
    modifies w, lhs, rhs
    ensures w.Valid() && old(rhs.counter) != null && w.books == Move(old(w.books), lhs, rhs, old(rhs.counter))
    ensures lhs.ptr == old(rhs.ptr) && rhs.ptr == null
  {
    hide Balanced;
    MoveKeepsBalance(w.books, lhs, rhs, rhs.counter);
    lhs.ptr := rhs.ptr;
    lhs.counter := rhs.counter;
    rhs.ptr := null;
    rhs.counter := null;
    w.books := Move(w.books, lhs, rhs, lhs.counter);
  }

  /** What giving up leaves to others. */
  lemma GiveUpFacts(b: Books, lhs: SharedPtr, rhs: SharedPtr)
    requires Balanced(b) && lhs in b.held && rhs in b.held && HoldsLive(b, lhs)
    ensures var mid := GiveUp(b, lhs);
      && mid.held.Keys == b.held.Keys && mid.held[lhs] == null
      && (b.held[rhs] != null && (rhs != lhs || (b.held[lhs] in b.counts && b.counts[b.held[lhs]] > 1)) ==>
            && b.held[rhs] in mid.counts && b.held[rhs] in mid.managed
            && mid.managed[b.held[rhs]] == b.managed[b.held[rhs]])
      && (rhs != lhs ==> mid.held[rhs] == b.held[rhs])
  {
    OthersHoldOthers(b, lhs);
    OthersHoldOthers(b, rhs);
  }

  /** The counter says one less than there are handles on the object: by NoBooksFit, no books describe them. */
  ghost predicate CountedShort(w: World, h: SharedPtr)
    reads w, h, w.books.held.Keys, Share(h)
  {
    && h in w.books.held && h.ptr != null && h.counter != null
    && h.counter.count + 1 == |Pointing(w.books.held.Keys, h.ptr)|
  }

  /** Whatever books one keeps on these handles. */
  lemma ForgottenForGood(w: World, h: SharedPtr, b: Books)
    requires CountedShort(w, h) && b.held.Keys == w.books.held.Keys
    ensures !Describes(b)
  {
    NoBooksFit(b, h);
  }

  /**
   Copy assignment. The world stays in order exactly when the source is not null or the target
   does not share its object with others; then the target gets a share of the source's object.
   */
  method CopyAssign(w: World, lhs: SharedPtr, rhs: SharedPtr)
    requires w.Valid() && lhs in w.books.held && rhs in w.books.held && lhs != rhs
    modifies w, lhs, Share(lhs), Share(rhs)
    ensures w.Valid() <==> !ForgetsToReset(old(w.books), lhs, rhs)
    ensures w.Valid() ==> lhs.ptr == rhs.ptr == old(rhs.ptr)
    ensures w.Orderly() && forall h <- w.books.held :: h != lhs ==> w.HandleOk(h)
    ensures !w.Valid() ==> lhs.ptr == old(lhs.ptr) && CountedShort(w, lhs)
    ensures !w.Valid() ==> forall b: Books :: b.held.Keys == w.books.held.Keys ==> !Describes(b)
    ensures HoldsLive(old(w.books), lhs)
    ensures var mid := GiveUp(old(w.books), lhs);
      if old(w.books).held[rhs] == null then w.books == mid
      else old(w.books).held[rhs] in mid.counts && w.books == Take(mid, lhs, old(w.books).held[rhs])
  {
    hide Balanced, GiveUp, Take;
    assert w.HandleOk(rhs) && w.HandleOk(lhs);
    OthersHoldOthers(w.books, lhs);
    GiveUpFacts(w.books, lhs, rhs);
    ghost var pointing := if lhs.ptr == null then {} else Pointing(w.books.held.Keys, lhs.ptr);
    if lhs.ptr != null {
      UseCountIsHolders(w, lhs);
    }
    var _ := LetGo(w, lhs);
    if rhs.ptr != null {
      TakeShare(w, lhs, rhs);
    } else {
      assert w.Valid() <==> w.HandleOk(lhs);
      assert lhs.ptr != null ==> Pointing(w.books.held.Keys, lhs.ptr) == pointing;
      forall b: Books | CountedShort(w, lhs) && b.held.Keys == w.books.held.Keys ensures !Describes(b) {
        ForgottenForGood(w, lhs, b);
      }
    }
  }

  /** Move assignment, likewise; the source is left null. */
  method MoveAssign(w: World, lhs: SharedPtr, rhs: SharedPtr)
    requires w.Valid() && lhs in w.books.held && rhs in w.books.held && lhs != rhs
    modifies w, lhs, Share(lhs), rhs
    ensures w.Valid() <==> !ForgetsToReset(old(w.books), lhs, rhs)
    ensures w.Valid() ==> lhs.ptr == old(rhs.ptr) && rhs.ptr == null
    ensures w.Orderly() && forall h <- w.books.held :: h != lhs ==> w.HandleOk(h)
    ensures !w.Valid() ==> lhs.ptr == old(lhs.ptr) && CountedShort(w, lhs)
    ensures !w.Valid() ==> forall b: Books :: b.held.Keys == w.books.held.Keys ==> !Describes(b)
    ensures HoldsLive(old(w.books), lhs)
    ensures var mid := GiveUp(old(w.books), lhs);
      if old(w.books).held[rhs] == null then w.books == mid
      else w.books == Move(mid, lhs, rhs, old(w.books).held[rhs])
  {
    hide Balanced, GiveUp, Move;
    assert w.HandleOk(rhs) && w.HandleOk(lhs);
    OthersHoldOthers(w.books, lhs);
    GiveUpFacts(w.books, lhs, rhs);
    ghost var pointing := if lhs.ptr == null then {} else Pointing(w.books.held.Keys, lhs.ptr);
    if lhs.ptr != null {
      UseCountIsHolders(w, lhs);
    }
    var _ := LetGo(w, lhs);
    if rhs.ptr != null {
      assert w.HandleOk(rhs);
      TakeOver(w, lhs, rhs);
    } else {
      assert w.Valid() <==> w.HandleOk(lhs);
      assert lhs.ptr != null ==> Pointing(w.books.held.Keys, lhs.ptr) == pointing;
      forall b: Books | CountedShort(w, lhs) && b.held.Keys == w.books.held.Keys ensures !Describes(b) {
        ForgottenForGood(w, lhs, b);
      }
    }
  }

  /**
   Assigning a handle to itself: the world stays in order, but a sole owner deletes the object
   that it is asked to keep, and so becomes null.
   */
  method CopyAssignSelf(w: World, h: SharedPtr)
    requires w.Valid() && h in w.books.held
    modifies w, h, Share(h)
    ensures w.Valid() && HoldsLive(old(w.books), h)
    ensures h.ptr == if old(h.ptr != null && h.counter.count == 1) then null else old(h.ptr)
    ensures old(h.ptr != null && h.counter.count == 1) ==> w.books == GiveUp(old(w.books), h)
    ensures !old(h.ptr != null && h.counter.count == 1) ==> w.books == old(w.books)
  {
    hide Balanced;
    assert w.HandleOk(h);
    OthersHoldOthers(w.books, h);
    GiveUpFacts(w.books, h, h);
    ghost var b := w.books;
    var _ := LetGo(w, h);
    if h.ptr != null {
      ghost var c: Counter := h.counter;
      TakeShare(w, h, h);
      TakeUndoesGiveUp(b, h, c);
    }
  }

  lemma TakeUndoesGiveUp(b: Books, h: SharedPtr, c: Counter)
    requires h in b.held && b.held[h] == c && c in b.counts && b.counts[c] > 1
    ensures c in GiveUp(b, h).counts && Take(GiveUp(b, h), h, c) == b
  {
    var b' := Take(GiveUp(b, h), h, c);
    assert b'.held == b.held && b'.counts == b.counts;
  }

  /** Moving a handle to itself gives its share up and leaves it null. */
  method MoveAssignSelf(w: World, h: SharedPtr)
    requires w.Valid() && h in w.books.held
    modifies w, h, Share(h)
    ensures w.Valid() && h.ptr == null
    ensures HoldsLive(old(w.books), h) && w.books == GiveUp(old(w.books), h)
  {
    hide Balanced;
    assert w.HandleOk(h);
    OthersHoldOthers(w.books, h);
    GiveUpFacts(w.books, h, h);
    var _ := LetGo(w, h);
    if h.ptr != null {
      h.ptr := null;
      h.counter := null;
    }
  }

  /**
   It comes to that: two handles share an object, null is assigned to the first, and the second goes.
   The object is deleted, and the first handle still points to it.
   */
  method ForgottenReset() returns (w: World, first: SharedPtr, o: Obj)
    ensures fresh(w) && first in w.books.held
    ensures first.ptr == o && first.counter != null && w.deleted == [o] && w.live == {}
    ensures forall b: Books :: first in b.held && o in b.deleted ==> !Describes(b)
  {
    hide Balanced;
    var second, none, c;
    w, first, second, none, c, o := TwoAndNone();
    CopyAssign(w, first, none);
    Destroy(w, second);
    forall b: Books | first in b.held && o in b.deleted ensures !Describes(b) {
      DeletedIsUnheld(b, first, o);
    }
  }

  /** Two handles on one object, and one on none. */
  method TwoAndNone() returns (w: World, first: SharedPtr, second: SharedPtr, none: SharedPtr, c: Counter, o: Obj)
    ensures fresh(w) && fresh(first) && fresh(second) && fresh(none) && fresh(c)
    ensures w.Valid() && first != second && first != none && second != none
    ensures first.ptr == second.ptr == o && first.counter == second.counter == c && none.ptr == null
    ensures w.books == Books(map[first := c, second := c, none := null], map[c := 2], map[c := o], [])
  {
    hide *;
    w := new World();
    o := new Obj();
    NothingWrapped(w.books, o);
    first := FromRaw(w, o);
    c := first.counter;
    ShareIsCounter(first);
    second := CopyConstruct(w, first, null, null);
    none := FromNull(w);
    TwoAndNoneBooks(first, second, none, c, o);
  }

  lemma ShareIsCounter(h: SharedPtr)
    ensures forall c <- Share(h) :: c == h.counter
  {
  }

  lemma TwoAndNoneBooks(first: SharedPtr, second: SharedPtr, none: SharedPtr, c: Counter, o: Obj)
    requires first != second && first != none && second != none
    ensures var one := NewObject(Open(Books(map[], map[], map[], []), first), first, c, o);
      && c in Open(one, second).counts
      && Open(Take(Open(one, second), second, c), none)
         == Books(map[first := c, second := c, none := null], map[c := 2], map[c := o], [])
  {
    var one := NewObject(Open(Books(map[], map[], map[], []), first), first, c, o);
    var all := Open(Take(Open(one, second), second, c), none);
    assert all.held == map[first := c, second := c, none := null];
    assert all.counts == map[c := 2];
  }

  lemma NothingWrapped(b: Books, o: Obj)
    requires b.managed == map[] && b.deleted == []
    ensures Unwrapped(b, o)
  {
  }

  /** No handle points to a deleted object where books describe the handles. */
  lemma DeletedIsUnheld(b: Books, h: SharedPtr, o: Obj)
    requires h in b.held && h.ptr == o && o in b.deleted
    ensures !Describes(b)
  {
    assert Describes(b) ==> HandleIn(b, h);
  }

  /**
   A handle is copied or moved from a null one, where the memory holds what another handle has. The counter
   of that one is then short.
   */
  method UnsetHandle(move: bool) returns (w: World, first: SharedPtr, copy: SharedPtr, o: Obj)
    ensures fresh(w) && fresh(first) && fresh(copy) && first != copy
    ensures first.ptr == copy.ptr == o && first.counter != null && copy.counter == first.counter
    ensures fresh(first.counter) && first.counter.count == 1 && w.live == {first.counter} && w.deleted == []
    ensures CountedShort(w, first)
    ensures forall b: Books :: b.held.Keys == w.books.held.Keys ==> !Describes(b)
  {
    hide Balanced, Unwrapped;
    var none;
    w, first, none, o := OneAndNone();
    if move {
      copy := MoveConstruct(w, none, first.ptr, first.counter);
    } else {
      copy := CopyConstruct(w, none, first.ptr, first.counter);
    }
    assert Pointing(w.books.held.Keys, o) == {first, copy};
    forall b: Books | b.held.Keys == w.books.held.Keys ensures !Describes(b) {
      ForgottenForGood(w, first, b);
    }
  }

  /** A handle on an object, and one on none. */
  method OneAndNone() returns (w: World, first: SharedPtr, none: SharedPtr, o: Obj)
    ensures fresh(w) && fresh(first) && fresh(none) && first != none
    ensures w.Valid() && first.ptr == o && none.ptr == null
    ensures first.counter != null && fresh(first.counter) && first.counter.count == 1
    ensures w.books.held == map[first := first.counter, none := null]
    ensures w.live == {first.counter} && w.deleted == []
  {
    hide Balanced, Unwrapped;
    w := new World();
    o := new Obj();
    NothingWrapped(w.books, o);
    first := FromRaw(w, o);
    none := FromNull(w);
  }

  /** When that handle goes it takes the object along, and the first handle still points to it. */
  method UnsetHandleDeletes(move: bool) returns (w: World, first: SharedPtr, o: Obj)
    ensures fresh(w) && first.ptr == o && first.counter != null && w.deleted == [o] && w.live == {}
  {
    hide *;
    var copy;
    w, first, copy, o := UnsetHandle(move);
    ShareIsCounter(copy);
    Destruct(w, copy);
  }

  /** An object that is wrapped twice has two counters, both short, and is deleted twice. */
  method WrappedTwice() returns (w: World, o: Obj)
    ensures fresh(w) && w.deleted == [o, o] && w.live == {}
  {
    hide *;
    var first, second;
    w, first, second, o := TwoWrappers();
    ShareIsCounter(first);
    ShareIsCounter(second);
    Destruct(w, first);
    Destruct(w, second);
  }

  method TwoWrappers() returns (w: World, first: SharedPtr, second: SharedPtr, o: Obj)
    ensures fresh(w) && fresh(first) && fresh(second) && first.ptr == second.ptr == o
    ensures first.counter != null && second.counter != null && first.counter != second.counter
    ensures fresh(first.counter) && fresh(second.counter)
    ensures w.live == {first.counter, second.counter} && w.deleted == []
    ensures first.counter.count == second.counter.count == 1
    ensures CountedShort(w, first) && CountedShort(w, second)
  {
    hide Balanced, Unwrapped;
    w := new World();
    o := new Obj();
    NothingWrapped(w.books, o);
    first := FromRaw(w, o);
    assert w.books.held.Keys == {first};
    second := FromRaw(w, o);
    assert Pointing(w.books.held.Keys, o) == {first, second};
  }
}
