/** The skip list itself, against a plain sorted map from keys to values. */
module SkipListStore {
  import opened Arith64
  import opened SkipGraph

  /** floor(log2(n)). */
  function Log2Floor(n: nat): nat
    requires n > 0
  {
    if n == 1 then 0 else 1 + Log2Floor(n / 2)
  }

  function Max(a: int, b: int): (m: int)
    ensures a <= m && b <= m && (m == a || m == b)
  {
    if a >= b then a else b
  }

  /** `ExpectedHeight`: two more than the logarithm of the height (not of the size). */
  function ExpectedHeight(height: nat): nat
    requires height > 0
  {
    Log2Floor(height) + 2
  }

  /** It is the logarithm rounded down: k + 2 for a height from 2^k up to the next power of two. */
  lemma {:induction false} ExpectedHeightIs(height: nat, k: nat)
    requires Pow2(k) <= height < Pow2(k + 1)
    ensures ExpectedHeight(height) == k + 2
  {
    if k > 0 {
      Pow2Monotone(1, k);
      ExpectedHeightIs(height / 2, k - 1);
    }
  }

  lemma {:induction false} Log2Small(n: nat)
    requires n > 0
    ensures Log2Floor(n) + 2 <= Max(n, 3)
  {
    if n >= 4 {
      Log2Small(n / 2);
    } else if n >= 2 {
      assert Log2Floor(n) == 1 + Log2Floor(1);
    }
  }

  /** The remainder of a number that is not negative has its sign, whatever the sign of the divisor. */
  function GrownHeight(height: nat, maxHeight: int, rand: nat): (h: nat)
    requires maxHeight != 0
    ensures height <= h && rand % maxHeight < h && (h == height || h == rand % maxHeight + 1)
  {
    Max(height, rand % maxHeight + 1)
  }

  /** The heights of a list: within the bound, and the maximum one that rand() can be taken modulo. */
  predicate HeightsWithin(height: nat, maxHeight: int, bound: nat) {
    1 <= height <= bound && maxHeight != 0 && 0 <= maxHeight + bound && maxHeight <= bound
  }

  /** Every height from the current one up to the maximum can come out. */
  lemma EveryHeightIsReached(height: nat, maxHeight: int, h: nat)
    requires 1 <= height <= h <= maxHeight
    ensures exists rand: nat :: GrownHeight(height, maxHeight, rand) == h
  {
    ModUnique(h - 1, maxHeight, 0, h - 1);
    assert GrownHeight(height, maxHeight, h - 1) == h;
  }

  /** Self-adjustment never lets the heights grow beyond what they were, or three. */
  lemma HeightsStayBounded(height: nat, maxHeight: int, rand: nat, bound: nat)
    requires HeightsWithin(height, maxHeight, bound) && bound >= 3
    ensures var h := GrownHeight(height, maxHeight, rand);
      && HeightsWithin(h, Max(maxHeight, ExpectedHeight(h)), bound)
      && (height <= maxHeight ==> h <= maxHeight <= Max(maxHeight, ExpectedHeight(h)))
  {
    Log2Small(GrownHeight(height, maxHeight, rand));
  }

  class SkipList {
    var maxHeight: int
    var currHeight: nat
    var currSize: nat
    var head: SkipNode
    ghost var live: set<SkipNode>           // allocated and not yet deleted
    ghost var heads: seq<SkipNode>          // the left sentinels, bottom row first
    ghost var bottom: map<int, SkipNode>    // the bottom node of each key

    ghost predicate Links()
      reads this, live
    {
      && currHeight >= 1
      && |heads| == currHeight && Heads(live, heads) && head == heads[currHeight - 1]
      && Shape(Snapshot(live), currHeight, null)
    }

    ghost predicate Valid()
      reads this, live
    {
      Links() && OneValue(Snapshot(live), null) && Bottoms(Snapshot(live), bottom)
    }

    /** The sorted map that the list stands for. */
    ghost function Entries(): map<int, int>
      requires Valid()
      reads this, live
    {
      Contents(Snapshot(live), bottom)
    }

    constructor (maxHeight: int := 10)
      ensures Valid() && fresh(live) && Entries() == map[]
      ensures this.maxHeight == maxHeight && currHeight == 1 && currSize == 0
    {
      this.maxHeight := maxHeight;
      var h := new SkipNode(0, 0, true, Left, 0);
      var t := new SkipNode(0, 0, true, Right, 0);
      h.after := t;
      t.before := h;
      head := h;
      currHeight, currSize := 1, 0;
      live, heads, bottom := {h, t}, [h], map[];
      new;
      FirstRow(Snapshot(live), h, t);
    }

    /** `SkipSearch`: the node with the largest key not above the argument, or the head sentinel. */
    method SkipSearch(key: int) returns (found: SkipNode, path: seq<SkipNode>)
      requires Valid()
      ensures found in live && found.level == 0 && IsPredecessor(Snapshot(live), found, key)
      ensures |path| == currHeight && path[currHeight - 1] == found && IsPath(Snapshot(live), path, key)
      ensures !found.isSentinel ==> IsFloor(Entries().Keys, key, found.key) && found.value == Entries()[found.key]
      ensures found.isSentinel ==> forall k <- Entries() :: k > key
      ensures key in Entries() <==> found.key == key && !found.isSentinel
      ensures currHeight >= 1 && (key in Entries() <==> key in bottom)
    {
      hide Shape;
      SentinelFacts(Snapshot(live), currHeight, null, head);
      found, path := head.SkipSearch(key, live, currHeight);
      BottomPredecessorIsFloor(Snapshot(live), currHeight, found, key, bottom);
      SentinelFacts(Snapshot(live), currHeight, null, found);
    }

    /** Insert, branch 1: the whole column takes the new value. */
    method ReplaceColumn(match_: SkipNode, value: int)
      requires Valid() && match_ in live && match_.level == 0 && !match_.isSentinel
      modifies live`value
      ensures Valid() && Entries() == old(Entries())[match_.key := value]
    {
      hide Shape, OneValue, Bottoms, Snapshot, Contents;
      KeyAt(live, currHeight, match_);
      var c: SkipNode? := match_;
      ghost var was := Entries();
      SentinelFacts(Snapshot(live), currHeight, null, match_);
      HeightFacts(Snapshot(live), currHeight, null, match_);
      while c != null
        invariant Replacing(Snapshot(live), currHeight, bottom, c, match_.pos.key, value, was)
        decreases currHeight - if c == null then currHeight else Snapshot(live)[c].level
      {
        ReplaceStep(Snapshot(live), currHeight, bottom, c, match_.pos.key, value, was);
        var temp := c.above;
        SnapshotCell(live, c);
        c.SetValue(value, live);
        c := temp;
      }
    }

    /** Insert, branch 2: a new node in every row, bottom row first. */
    method BuildTower(path: seq<SkipNode>, key: int, value: int)
      requires Valid() && |path| == currHeight && IsPath(Snapshot(live), path, key) && key !in bottom
      modifies this`live, this`bottom, live`after, live`before, live`above
      ensures Valid() && fresh(live - old(live)) && old(live) <= live
      ensures Entries() == old(Entries())[key := value]
      ensures forall h | 0 <= h < currHeight :: RowHas(live, h, key)
    {
      hide Shape, OneValue, Bottoms, Contents, Snapshot, IsPath;
      ghost var was := Entries();
      BuildStart(Snapshot(live), currHeight, path, key, value, bottom);
      var top := BuildRows(path, key, value, was);
      FullTower(live, currHeight, top, key);
    }

    /** The loop of branch 2. */
    method BuildRows(path: seq<SkipNode>, key: int, value: int, ghost was: map<int, int>) returns (last: SkipNode?)
      requires Building(Snapshot(live), |path|, path, key, value, bottom, |path|, null, was)
      modifies this`live, this`bottom, live`after, live`before, live`above
      ensures Building(Snapshot(live), |path|, path, key, value, bottom, 0, last, was)
      ensures fresh(live - old(live)) && old(live) <= live
    {
      hide *;
      last := null;
      var i := |path|;
      while i > 0
        invariant 0 <= i <= |path| && old(live) <= live && fresh(live - old(live))
        invariant Building(Snapshot(live), |path|, path, key, value, bottom, i, last, was)
      {
        ghost var g := Snapshot(live);
        BuildSpot(g, |path|, path, key, value, bottom, i, last, was);
        var node := InsertAfter(path[i - 1], key, value, last, live, |path|);
        BuildStep(g, Snapshot(live + {node}), |path|, path, key, value, bottom, i, last, was, node);
        bottom := if last == null then bottom[key := node] else bottom;
        live := live + {node};
        last := node;
        i := i - 1;
      }
    }

    /** `BuildExtraLayer`: two new sentinels over the old top ones. */
    method BuildExtraLayer()
      requires Valid()
      modifies this`head, this`currHeight, this`live, this`heads, live`above
      ensures Valid() && fresh(live - old(live)) && old(live) <= live
      ensures Entries() == old(Entries()) && currHeight == old(currHeight) + 1
    {
      hide Shape, OneValue, Bottoms, Contents, Snapshot, AddLayer, CanAddLayer;
      ghost var g := Snapshot(live);
      var newHead, tail, newTail := NewLayer(head, live, currHeight);
      LayerKeepsAll(g, currHeight, head, tail, newHead, newTail, bottom);
      live := live + {newHead, newTail};
      heads := heads + [newHead];
      currHeight := currHeight + 1;
      head := newHead;
    }

    /**
     `SkipInsert`; `rand` is what rand() returned. For a new key it is taken modulo the maximum height.
     */
    method SkipInsert(key: int, value: int, rand: nat) returns (isNew: bool)
      requires Valid() && (key in Entries() || maxHeight != 0)
      modifies this, live
      ensures Valid() && fresh(live - old(live)) && old(live) <= live
      ensures isNew <==> key !in old(Entries())
      ensures Entries() == old(Entries())[key := value]
      ensures currSize == old(currSize) + (if isNew then 1 else 0)
      ensures isNew ==> old(maxHeight) != 0
      ensures isNew ==> currHeight == GrownHeight(old(currHeight), old(maxHeight), rand)
      ensures isNew && old(currHeight) <= rand % old(maxHeight) ==> currHeight == rand % old(maxHeight) + 1
      ensures isNew && old(currHeight) > rand % old(maxHeight) ==> currHeight == old(currHeight)
      ensures isNew ==> currHeight > 0 && maxHeight == Max(old(maxHeight), ExpectedHeight(currHeight))
      ensures !isNew ==> currHeight == old(currHeight) && maxHeight == old(maxHeight) && live == old(live)
      ensures isNew ==> forall h | 0 <= h < currHeight :: RowHas(live, h, key)
    {
      hide Valid, Entries, IsPath, IsPredecessor, RowHas, Snapshot, IsFloor;
      var found, path := SkipSearch(key);
      if found.key == key && !found.isSentinel {
        ReplaceColumn(found, value);
        isNew := false;
      } else {
        var extendHeight := rand % maxHeight + 1;
        if extendHeight > currHeight {
          Grow(extendHeight);
          found, path := SkipSearch(key);
        }
        BuildTower(path, key, value);
        AdjustAfterInsert();
        isNew := true;
      }
    }

    /** The end of `SkipInsert`: count the key and self-adjust the maximum height. */
    method AdjustAfterInsert()
      requires Valid()
      modifies this`currSize, this`maxHeight
      ensures Valid() && Entries() == old(Entries())
      ensures currSize == old(currSize) + 1 && maxHeight == Max(old(maxHeight), ExpectedHeight(currHeight))
    {
      hide Shape, OneValue, Bottoms, Snapshot, Contents;
      currSize := currSize + 1;
      maxHeight := Max(maxHeight, ExpectedHeight(currHeight));
    }

    /** `SetMaxHeight`. */
    method SetMaxHeight(height: int)
      requires Valid()
      modifies this`maxHeight
      ensures Valid() && Entries() == old(Entries()) && maxHeight == height
    {
      hide Shape, OneValue, Bottoms, Snapshot, Contents;
      maxHeight := height;
    }

    /** The growing loop of `SkipInsert`. */
    method Grow(height: nat)
      requires Valid() && height > currHeight
      modifies this`head, this`currHeight, this`live, this`heads, live`above
      ensures Valid() && fresh(live - old(live)) && old(live) <= live
      ensures Entries() == old(Entries()) && currHeight == height
    {
      hide *;
      var diff := height - currHeight;
      while diff > 0
        invariant 0 <= diff && currHeight + diff == height
        invariant Valid() && fresh(live - old(live)) && old(live) <= live && Entries() == old(Entries())
      {
        BuildExtraLayer();
        diff := diff - 1;
      }
    }

    /** `SkipRemove`. */
    method SkipRemove(key: int) returns (removed: bool)
      requires Valid()
      modifies this`live, this`bottom, live`after, live`before
      ensures Valid() && live <= old(live)
      ensures removed <==> key in old(Entries())
      ensures Entries() == old(Entries()) - {key}
      ensures forall n <- old(live) :: n in live <==> n.pos != At(key)
    {
      hide Shape, OneValue, Bottoms, Snapshot, Contents, IsPath, IsPredecessor;
      var found, _ := SkipSearch(key);
      if found.key != key || found.isSentinel {
        removed := false;
        NoTower(live, currHeight, bottom, key);
      } else {
        RemoveColumn(found);
        removed := true;
      }
    }

    /** The removal loop: every node of the tower is unlinked and deleted, bottom first. */
    method RemoveColumn(match_: SkipNode)
      requires Valid() && match_ in live && match_.level == 0 && !match_.isSentinel
      modifies this`live, this`bottom, live`after, live`before
      ensures Valid() && live <= old(live)
      ensures Entries() == old(Entries()) - {match_.key}
      ensures forall n <- old(live) :: n in live <==> n.pos != At(match_.key)
    {
      hide Shape, OneValue, Bottoms, Snapshot, Contents, Unlink, Heads;
      KeyAt(live, currHeight, match_);
      ghost var was := Entries();
      SentinelFacts(Snapshot(live), currHeight, null, match_);
      HeightFacts(Snapshot(live), currHeight, null, match_);
      RemoveRows(match_, was);
      HeadsSurvive(old(live), live, heads, match_.pos);
      NoTower(live, currHeight, bottom, match_.pos.key);
    }

    method RemoveRows(match_: SkipNode, ghost was: map<int, int>)
      requires match_.pos.At? && Removing(Snapshot(live), currHeight, bottom, match_, match_.pos.key, was)
      modifies this`live, this`bottom, live`after, live`before
      ensures Removing(Snapshot(live), currHeight, bottom, null, match_.pos.key, was)
      ensures live <= old(live) && forall n <- old(live) - live :: n.pos == match_.pos
    {
      hide *;
      ghost var key := match_.pos.key;
      var curr: SkipNode? := match_;
      while curr != null
        invariant live <= old(live) && forall n <- old(live) - live :: n.pos == match_.pos
        invariant Removing(Snapshot(live), currHeight, bottom, curr, key, was)
        decreases live
      {
        ghost var c: SkipNode := curr;
        RemoveReady(live, currHeight, bottom, c, key, was);
        RemoveStep(Snapshot(live), currHeight, bottom, c, key, was);
        ghost var atBottom := Snapshot(live)[c].level == 0;
        var temp := curr.above;
        RemoveNode(curr, live);
        live := live - {c};
        bottom := if atBottom then bottom - {key} else bottom;
        curr := temp;
      }
    }

    /** The destructor, row by row from the top: every node is deleted, and none twice. */
    method Release() returns (freed: seq<SkipNode>)
      requires Valid()
      modifies this`live
      ensures live == {}
      ensures forall n :: n in old(live) <==> n in freed
      ensures forall i, j | 0 <= i < j < |freed| :: freed[i] != freed[j]
    {
      hide Shape, OneValue, Bottoms, Snapshot, Contents;
      ghost var g := Snapshot(live);
      ghost var h := currHeight;
      freed := [];
      var curr: SkipNode? := head;
      SentinelFacts(g, currHeight, null, head);
      AllLevels(g, currHeight);
      while curr != null
        invariant curr == null ==> h == 0
        invariant curr != null ==> h > 0 && curr in g && g[curr].level == h - 1 && g[curr].pos == Left
        invariant live == FromOn(g, null, h) && Freed(g, live, freed)
        decreases h
      {
        ReleaseStart(g, currHeight, curr, h - 1);
        OldLinks(old(live), curr);
        var temp := curr.below;
        freed := ReleaseLevel(curr, freed, g, h - 1);
        curr := temp;
        h := h - 1;
      }
    }

    /** `ReleaseLevel`: delete a row from its left sentinel to its end. */
    method ReleaseLevel(from: SkipNode, done: seq<SkipNode>, ghost g: Graph, ghost h: nat)
      returns (freed: seq<SkipNode>)
      requires Shape(g, currHeight, null) && from in g && g[from].level == h
      requires live == FromOn(g, from, h) && Freed(g, live, done)
      requires forall n <- g :: n.after == g[n].after
      modifies this`live
      ensures live == FromOn(g, null, h) && Freed(g, live, freed)
    {
      hide Shape, FromOn;
      freed := done;
      var node: SkipNode? := from;
      while node != null
        invariant node != null ==> node in g && g[node].level == h
        invariant live == FromOn(g, node, h) && Freed(g, live, freed)
        decreases live
      {
        ReleaseStep(g, currHeight, node, h);
        assert node in live;
        var temp := node.after;
        live := live - {node};
        freed := freed + [node];
        node := temp;
      }
    }
  }

  /** Exactly the nodes that are not alive any more have been freed, each once. */
  ghost predicate Freed(g: Graph, live: set<SkipNode>, freed: seq<SkipNode>) {
    && live <= g.Keys
    && (forall n <- g :: n in freed <==> n !in live)
    && (forall n <- freed :: n in g)
    && (forall i, j | 0 <= i < j < |freed| :: freed[i] != freed[j])
  }

  lemma AllLevels(g: Graph, height: nat)
    requires Shape(g, height, null)
    ensures FromOn(g, null, height) == g.Keys
  {
    hide Shape;
    forall n | n in g ensures n in FromOn(g, null, height) {
      NodeFacts(g, height, null, n);
    }
  }

  lemma OldLinks(live: set<SkipNode>, n: SkipNode)
    requires n in live
    ensures Snapshot(live)[n].below == n.below && forall m <- live :: m.after == Snapshot(live)[m].after
  {
  }

  lemma RemoveReady(live: set<SkipNode>, height: nat, bottom: map<int, SkipNode>, c: SkipNode, key: int,
      was: map<int, int>)
    requires Removing(Snapshot(live), height, bottom, c, key, was)
    ensures c in live && c.pos == At(key)
    ensures Snapshot(live)[c] == Cell(c.pos, c.level, c.before, c.after, c.below, c.above, c.value)
  {
    hide OneValue, Bottoms;
  }

  lemma KeyAt(live: set<SkipNode>, height: nat, n: SkipNode)
    requires Shape(Snapshot(live), height, null) && n in live && !n.isSentinel
    ensures n.pos == At(n.key)
  {
    hide Shape;
    SentinelFacts(Snapshot(live), height, null, n);
  }

  lemma NoTower(live: set<SkipNode>, height: nat, bottom: map<int, SkipNode>, key: int)
    requires Shape(Snapshot(live), height, null) && Bottoms(Snapshot(live), bottom) && key !in bottom
    ensures forall n <- live :: n.pos != At(key)
  {
    hide Shape, Bottoms;
    forall n | n in live ensures n.pos != At(key) {
      AbsentEverywhere(Snapshot(live), height, bottom, key, n);
    }
  }

  lemma HeadsSurvive(before: set<SkipNode>, live: set<SkipNode>, heads: seq<SkipNode>, gone: Pos)
    requires Heads(before, heads) && gone.At? && forall n <- before - live :: n.pos == gone
    ensures Heads(live, heads)
  {
  }

  ghost predicate IsLayer(g: Graph, g': Graph, height: nat, h: SkipNode, t: SkipNode, nh: SkipNode, nt: SkipNode) {
    CanAddLayer(g, height, h, t, nh, nt) && g' == AddLayer(g, height, h, t, nh, nt)
  }

  /** The new sentinels, linked to the old ones; the old tail is found by walking the old row. */
  method NewLayer(head: SkipNode, ghost live: set<SkipNode>, height: nat)
    returns (newHead: SkipNode, tail: SkipNode, newTail: SkipNode)
    requires height > 0 && Shape(Snapshot(live), height, null)
    requires head in live && head.pos == Left && head.level == height - 1
    modifies live`above
    ensures fresh({newHead, newTail}) && newHead.level == height && newHead.pos == Left
    ensures IsLayer(old(Snapshot(live)), Snapshot(live + {newHead, newTail}), height, head, tail, newHead, newTail)
  {
    hide Shape, AddLayer;
    ghost var g := Snapshot(live);
    newHead, newTail := NewSentinels(head, live, height);
    tail := TailOf(head, g, height);
    newTail.below := tail;
    tail.above := newTail;
    LayerReady(g, height, head, tail, newHead, newTail);
    LayerCells(g, height, head, tail, newHead, newTail);
    LayeredSnapshot(g, Snapshot(live + {newHead, newTail}), height, head, tail, newHead, newTail);
  }

  method NewSentinels(head: SkipNode, ghost live: set<SkipNode>, height: nat)
    returns (newHead: SkipNode, newTail: SkipNode)
    requires head in live
    modifies live`above
    ensures fresh({newHead, newTail}) && newHead != newTail
    ensures newHead.isSentinel && newHead.pos == Left && newHead.level == height
    ensures newTail.isSentinel && newTail.pos == Right && newTail.level == height
    ensures newHead.before == null && newHead.after == newTail && newHead.below == head && newHead.above == null
    ensures newTail.before == newHead && newTail.after == newTail.above == null
    ensures newHead.value == newTail.value == 0
    ensures head.above == newHead && forall n <- live :: n != head ==> n.above == old(n.above)
  {
    newHead := new SkipNode(0, 0, true, Left, height);
    newTail := new SkipNode(0, 0, true, Right, height);
    head.above := newHead;
    newHead.below := head;
    newHead.after := newTail;
    newTail.before := newHead;
  }

  /** Walk to the end of a row; `g` is what the links were before the new layer was begun. */
  method TailOf(from: SkipNode, ghost g: Graph, ghost height: nat) returns (curr: SkipNode)
    requires Shape(g, height, null) && from in g
    requires forall n <- g :: n.after == g[n].after
    ensures curr in g && g[curr].pos == Right && g[curr].level == g[from].level
  {
    hide Shape;
    curr := from;
    while curr.after != null
      invariant curr in g && g[curr].level == g[from].level
      decreases RightOf(g, curr)
    {
      AfterHasLessRight(g, height, curr);
      curr := curr.after;
    }
    NodeFacts(g, height, null, curr);
  }

  lemma LayerReady(g: Graph, height: nat, h: SkipNode, t: SkipNode, nh: SkipNode, nt: SkipNode)
    requires height > 0 && Shape(g, height, null) && h in g && h.pos == Left && h.level == height - 1
    requires t in g && g[t].pos == Right && g[t].level == g[h].level
    requires nh !in g && nt !in g && nh != nt
    requires nh.isSentinel && nh.pos == Left && nh.level == height
    requires nt.isSentinel && nt.pos == Right && nt.level == height
    ensures CanAddLayer(g, height, h, t, nh, nt)
  {
    hide Shape;
    SentinelFacts(g, height, null, h);
  }

  lemma LayerKeepsAll(g: Graph, height: nat, h: SkipNode, t: SkipNode, nh: SkipNode, nt: SkipNode,
      bottom: map<int, SkipNode>)
    requires CanAddLayer(g, height, h, t, nh, nt) && OneValue(g, null) && Bottoms(g, bottom)
    ensures var g' := AddLayer(g, height, h, t, nh, nt);
      && Shape(g', height + 1, null) && OneValue(g', null) && Bottoms(g', bottom)
      && Contents(g', bottom) == Contents(g, bottom)
  {
    hide *;
    LayerKeepsShape(g, height, h, t, nh, nt);
    LayerKeepsOneValue(g, height, h, t, nh, nt);
    LayerKeepsContents(g, height, h, t, nh, nt, bottom);
  }

  lemma FullTower(live: set<SkipNode>, height: nat, top: SkipNode, key: int)
    requires Shape(Snapshot(live), height, null) && top in live
    requires Snapshot(live)[top].pos == At(key) && Snapshot(live)[top].level == height - 1
    ensures forall h | 0 <= h < height :: RowHas(live, h, key)
  {
    hide Shape;
    forall h | 0 <= h < height ensures RowHas(live, h, key) {
      TowerReachesDown(Snapshot(live), height, top, h);
    }
  }

  lemma SnapshotCell(live: set<SkipNode>, n: SkipNode)
    requires n in live
    ensures Snapshot(live)[n] == Cell(n.pos, n.level, n.before, n.after, n.below, n.above, n.value)
  {
  }

  lemma HeightFacts(g: Graph, height: nat, hole: SkipNode?, n: SkipNode)
    requires Shape(g, height, hole) && n in g
    ensures g[n].level < height
  {
    NodeFacts(g, height, hole, n);
  }

  // ---------------------------------------------------------------- whole runs

  datatype Op =
    | Insert(key: int, value: int, rand: nat)
    | Remove(key: int)
    | Search(key: int)
    | Limit(height: int)  // SetMaxHeight

  datatype Answer =
    | Inserted(isNew: bool)
    | Removed(was: bool)
    | Found(key: int, value: int)
    | NothingBelow
    | Limited

  /** What a sorted map answers. */
  ghost predicate MapAnswers(m: map<int, int>, op: Op, a: Answer) {
    match op
    case Insert(k, _, _) => a == Inserted(k !in m)
    case Remove(k) => a == Removed(k in m)
    case Limit(_) => a == Limited
    case Search(k) =>
      match a
      case Found(f, v) => IsFloor(m.Keys, k, f) && v == m[f]
      case NothingBelow => forall j <- m :: j > k
      case _ => false
  }

  function MapAfter(m: map<int, int>, op: Op): map<int, int> {
    match op
    case Insert(k, v, _) => m[k := v]
    case Remove(k) => m - {k}
    case _ => m
  }

  function MapAfterAll(m: map<int, int>, ops: seq<Op>): map<int, int> {
    if ops == [] then m else MapAfter(MapAfterAll(m, ops[..|ops| - 1]), ops[|ops| - 1])
  }

  ghost predicate AnswersOfMap(m: map<int, int>, ops: seq<Op>, answers: seq<Answer>) {
    |answers| == |ops| && forall i | 0 <= i < |ops| :: MapAnswers(MapAfterAll(m, ops[..i]), ops[i], answers[i])
  }

  /** The answers of a sorted map leave no choice. */
  lemma MapAnswersUnique(m: map<int, int>, op: Op, a: Answer, b: Answer)
    requires MapAnswers(m, op, a) && MapAnswers(m, op, b)
    ensures a == b
  {
    if a.Found? && b.Found? {
      assert a.key <= b.key && b.key <= a.key;
    }
  }

  lemma {:induction false} AnswersThen(m: map<int, int>, ops: seq<Op>, n: nat, answers: seq<Answer>, a: Answer)
    requires n < |ops| && AnswersOfMap(m, ops[..n], answers) && MapAnswers(MapAfterAll(m, ops[..n]), ops[n], a)
    ensures AnswersOfMap(m, ops[..n + 1], answers + [a])
    ensures MapAfterAll(m, ops[..n + 1]) == MapAfter(MapAfterAll(m, ops[..n]), ops[n])
  {
    assert ops[..n + 1][..n] == ops[..n];
    forall i | 0 <= i < n + 1
      ensures MapAnswers(MapAfterAll(m, ops[..n + 1][..i]), ops[..n + 1][i], (answers + [a])[i])
    {
      assert ops[..n + 1][..i] == ops[..i];
      if i < n {
        assert ops[..n][..i] == ops[..i];
      }
    }
  }

  method Perform(list: SkipList, op: Op) returns (a: Answer)
    requires list.Valid() && list.maxHeight != 0
    modifies list, list.live
    ensures list.Valid() && fresh(list.live - old(list.live))
    ensures MapAnswers(old(list.Entries()), op, a)
    ensures list.Entries() == MapAfter(old(list.Entries()), op)
    ensures op.Insert? && op.key !in old(list.Entries()) ==>
      && list.currHeight == GrownHeight(old(list.currHeight), old(list.maxHeight), op.rand)
      && list.maxHeight == Max(old(list.maxHeight), ExpectedHeight(list.currHeight))
    ensures (op.Insert? && op.key in old(list.Entries())) || op.Remove? || op.Search? ==>
      list.currHeight == old(list.currHeight) && list.maxHeight == old(list.maxHeight)
    ensures op.Limit? ==> list.currHeight == old(list.currHeight) && list.maxHeight == op.height
  {
    hide Shape, OneValue, Bottoms, Snapshot, Contents, IsPath, IsPredecessor, RowHas;
    match op
    case Insert(k, v, rand) =>
      var isNew := list.SkipInsert(k, v, rand);
      a := Inserted(isNew);
    case Remove(k) =>
      var was := list.SkipRemove(k);
      a := Removed(was);
    case Search(k) =>
      var found, _ := list.SkipSearch(k);
      a := if found.isSentinel then NothingBelow else Found(found.key, found.value);
    case Limit(height) =>
      list.SetMaxHeight(height);
      a := Limited;
  }

  /** No height that is asked for is zero or beyond the bound. */
  ghost predicate LimitsWithin(ops: seq<Op>, bound: nat) {
    forall op <- ops :: op.Limit? ==> HeightsWithin(1, op.height, bound)
  }

  /**
   Every run of inserts, removals, searches and changes of the maximum height on a new list, with every
   outcome of rand(), gives the answers of a sorted map; and the heights never leave a bound that covers
   the maximum heights that are asked for, and three. As long as none is, the height stays within the maximum.
   */
  method PerformAll(maxHeight: int, ops: seq<Op>, ghost bound: nat) returns (list: SkipList, answers: seq<Answer>)
    requires HeightsWithin(1, maxHeight, bound) && bound >= 3 && LimitsWithin(ops, bound)
    ensures fresh(list) && list.Valid()
    ensures AnswersOfMap(map[], ops, answers)
    ensures list.Entries() == MapAfterAll(map[], ops)
    ensures HeightsWithin(list.currHeight, list.maxHeight, bound)
    ensures maxHeight >= 1 && (forall op <- ops :: !op.Limit?) ==> list.currHeight <= list.maxHeight
  {
    list := new SkipList(maxHeight);
    hide Shape, OneValue, Bottoms, Snapshot, Contents, AnswersOfMap, MapAfterAll, LimitsWithin;
    answers := PerformOn(list, ops, bound, maxHeight >= 1 && forall op <- ops :: !op.Limit?);
  }

  /** The run, on a list that is still empty. */
  method PerformOn(list: SkipList, ops: seq<Op>, ghost bound: nat, ghost below: bool) returns (answers: seq<Answer>)
    requires list.Valid() && list.Entries() == map[]
    requires HeightsWithin(list.currHeight, list.maxHeight, bound) && bound >= 3 && LimitsWithin(ops, bound)
    requires below ==> list.currHeight <= list.maxHeight && forall op <- ops :: !op.Limit?
    modifies list, list.live
    ensures list.Valid() && AnswersOfMap(map[], ops, answers) && list.Entries() == MapAfterAll(map[], ops)
    ensures HeightsWithin(list.currHeight, list.maxHeight, bound)
    ensures below ==> list.currHeight <= list.maxHeight
  {
    hide *;
    answers := [];
    var n := 0;
    assert ops[..0] == [];
    EmptyRun(ops);
    while n < |ops|
      invariant n <= |ops| && list.Valid() && fresh(list.live - old(list.live))
      invariant AnswersOfMap(map[], ops[..n], answers)
      invariant list.Entries() == MapAfterAll(map[], ops[..n])
      invariant HeightsWithin(list.currHeight, list.maxHeight, bound)
      invariant below ==> list.currHeight <= list.maxHeight
    {
      NotZero(list.currHeight, list.maxHeight, bound);
      assert ops[n] in ops;
      if ops[n].Insert? {
        HeightsStayBounded(list.currHeight, list.maxHeight, ops[n].rand, bound);
      } else if ops[n].Limit? {
        LimitWithin(list.currHeight, list.maxHeight, ops, ops[n], bound);
      }
      var a := Perform(list, ops[n]);
      AnswersThen(map[], ops, n, answers, a);
      answers := answers + [a];
      n := n + 1;
    }
    assert ops[..n] == ops;
  }

  lemma LimitWithin(height: nat, maxHeight: int, ops: seq<Op>, op: Op, bound: nat)
    requires HeightsWithin(height, maxHeight, bound) && LimitsWithin(ops, bound) && op in ops && op.Limit?
    ensures HeightsWithin(height, op.height, bound)
  {
  }

  lemma NotZero(height: nat, maxHeight: int, bound: nat)
    requires HeightsWithin(height, maxHeight, bound)
    ensures maxHeight != 0 && height >= 1
  {
  }

  lemma EmptyRun(ops: seq<Op>)
    ensures AnswersOfMap(map[], ops[..0], []) && MapAfterAll(map[], ops[..0]) == map[]
  {
  }

  /** Each row's keys are among those of the row below it. */
  lemma RowsAreNested(list: SkipList, h: nat, key: int)
    requires list.Valid() && h > 0 && RowHas(list.live, h, key)
    ensures RowHas(list.live, h - 1, key) && key in list.Entries()
  {
    hide Shape, OneValue, Bottoms;
    var g := Snapshot(list.live);
    var n :| n in list.live && n.level == h && n.pos == At(key);
    SentinelFacts(g, list.currHeight, null, n);
    TowerReachesDown(g, list.currHeight, n, h - 1);
    if key !in list.bottom {
      AbsentEverywhere(g, list.currHeight, list.bottom, key, n);
    }
  }
}
