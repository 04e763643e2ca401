/**
 The linked nodes of the skip list. What the links must satisfy is stated on a snapshot of the
 nodes that are alive, so that the reasoning about one splice does not mention the heap.
 */
module SkipGraph {

  /** Position in a row: the left sentinel, a key, or the right sentinel. */
  datatype Pos = Left | At(key: int) | Right

  predicate Lt(a: Pos, b: Pos) {
    match (a, b)
    case (Left, Left) => false
    case (Left, _) => true
    case (At(x), At(y)) => x < y
    case (At(_), Right) => true
    case (_, _) => false
  }

  class SkipNode {
    const key: int
    const isSentinel: bool
    var value: int
    var before: SkipNode?
    var after: SkipNode?
    var below: SkipNode?
    var above: SkipNode?
    ghost const pos: Pos    // where in its row the node belongs
    ghost const level: nat  // its row, counted from the bottom

    constructor (key: int, value: int, isSentinel: bool, ghost pos: Pos, ghost level: nat)
      requires isSentinel <==> !pos.At?
      requires pos.At? ==> pos.key == key
      ensures this.key == key && this.value == value && this.isSentinel == isSentinel
      ensures this.pos == pos && this.level == level
      ensures before == after == below == above == null
    {
      this.key, this.value, this.isSentinel := key, value, isSentinel;
      this.pos, this.level := pos, level;
      before, after, below, above := null, null, null, null;
    }

    /** `ShouldSkipRight`. */
    predicate ShouldSkipRight(key: int)
      reads this, after
    {
      after != null && !after.isSentinel && after.key <= key
    }

    /** `SetValue`, and what it does to the snapshot. */
    method SetValue(value: int, ghost live: set<SkipNode>)
      requires this in live
      modifies this`value
      ensures this.value == value
      ensures Snapshot(live) == WithValue(old(Snapshot(live)), this, value)
    {
      this.value := value;
    }

    /**
     `SkipNode::SkipSearch`: right as far as possible, then down, recording the last node of each
     row. Every node it looks at is alive.
     */
    method SkipSearch(key: int, ghost live: set<SkipNode>, ghost height: nat)
      returns (found: SkipNode, path: seq<SkipNode>)
      requires Shape(Snapshot(live), height, null) && this in live && !Lt(At(key), pos)
      ensures |path| == level + 1 && IsPath(Snapshot(live), path, key)
      ensures found == path[level]
    {
      hide Shape;
      ghost var g := Snapshot(live);
      path := [];
      var curr: SkipNode := this;
      while true
        invariant curr in live && curr.level + |path| == level && !Lt(At(key), curr.pos)
        invariant forall i | 0 <= i < |path| :: IsPredecessor(g, path[i], key) && path[i].level == level - i
        decreases curr.level
      {
        SameLevelAndPos(live, height, curr);
        while curr.ShouldSkipRight(key)
          invariant curr in live && curr.level + |path| == level && !Lt(At(key), curr.pos)
          decreases RightOf(g, curr)
        {
          StepRight(live, height, curr, key);
          AfterHasLessRight(g, height, curr);
          curr := curr.after;
        }
        StopsAtPredecessor(live, height, curr, key);
        path := path + [curr];
        if curr.below != null {
          curr := curr.below;
        } else {
          break;
        }
      }
      found := curr;
      SameLevelAndPos(live, height, curr);
    }
  }

  /** The links and the value of one node. */
  datatype Cell = Cell(
    pos: Pos, level: nat,
    before: SkipNode?, after: SkipNode?, below: SkipNode?, above: SkipNode?, value: int)

  type Graph = map<SkipNode, Cell>

  ghost function Snapshot(live: set<SkipNode>): (g: Graph)
    reads live
    ensures g.Keys == live
  {
    map n | n in live :: Cell(n.pos, n.level, n.before, n.after, n.below, n.above, n.value)
  }

  ghost predicate Sentinels(g: Graph) {
    forall n <- g :: n.pos == g[n].pos && n.level == g[n].level
      && (n.isSentinel <==> !n.pos.At?) && (n.pos.At? ==> n.key == n.pos.key)
  }

  /** Neighbours in a row: mutual, in order. */
  ghost predicate RowOk(g: Graph, n: SkipNode)
    requires n in g
  {
    var c := g[n];
    && (if c.pos == Right then c.after == null
        else c.after != null && c.after in g && g[c.after].level == c.level
             && Lt(c.pos, g[c.after].pos) && g[c.after].before == n)
    && (if c.pos == Left then c.before == null
        else c.before != null && c.before in g && g[c.before].after == n)
  }

  /** Neighbours in a tower: mutual, same position; `hole` has lost what was below it. */
  ghost predicate TowerOk(g: Graph, n: SkipNode, hole: SkipNode?)
    requires n in g
  {
    var c := g[n];
    && (if c.level == 0 then c.below == null
        else if n == hole then c.below == null || c.below !in g
        else c.below != null && c.below in g && g[c.below].level == c.level - 1
             && g[c.below].pos == c.pos && g[c.below].above == n)
    && (c.above != null ==> c.above in g && g[c.above].below == n && c.above != hole)
  }

  /** A row has one node for a position, and no node between two neighbours. */
  ghost predicate Apart(g: Graph, m: SkipNode, n: SkipNode)
    requires m in g && n in g
  {
    g[m].level == g[n].level ==>
      && (g[m].pos == g[n].pos ==> m == n)
      && (g[m].after != null && g[m].after in g ==> !(Lt(g[m].pos, g[n].pos) && Lt(g[n].pos, g[g[m].after].pos)))
  }

  ghost predicate NodeOk(g: Graph, height: nat, hole: SkipNode?, n: SkipNode)
    requires n in g
  {
    g[n].level < height && RowOk(g, n) && TowerOk(g, n, hole)
  }

  ghost predicate Shape(g: Graph, height: nat, hole: SkipNode?) {
    && Sentinels(g)
    && (forall n {:trigger NodeOk(g, height, hole, n)} | n in g :: NodeOk(g, height, hole, n))
    && (forall m, n {:trigger Apart(g, m, n)} | m in g && n in g :: Apart(g, m, n))
  }

  /** The whole tower carries one value; sentinels keep the default one. */
  ghost predicate OneValue(g: Graph, hole: SkipNode?) {
    forall n {:trigger ValueOk(g, n, hole)} | n in g :: ValueOk(g, n, hole)
  }

  ghost predicate ValueOk(g: Graph, n: SkipNode, hole: SkipNode?)
    requires n in g
  {
    && (!g[n].pos.At? ==> g[n].value == 0)
    && (g[n].level > 0 && n != hole ==>
          g[n].below != null && g[n].below in g && g[n].value == g[g[n].below].value)
  }

  /** `bottom` finds the bottom node of every key. */
  ghost predicate Bottoms(g: Graph, bottom: map<int, SkipNode>) {
    && (forall n <- g :: g[n].level == 0 && g[n].pos.At? ==> g[n].pos.key in bottom && bottom[g[n].pos.key] == n)
    && (forall k <- bottom :: bottom[k] in g && g[bottom[k]].level == 0 && g[bottom[k]].pos == At(k))
  }

  /** Each row has its left sentinel. */
  ghost predicate Heads(live: set<SkipNode>, heads: seq<SkipNode>) {
    forall h | 0 <= h < |heads| :: heads[h] in live && heads[h].level == h && heads[h].pos == Left
  }

  /** Row h has a node for the key. */
  ghost predicate RowHas(live: set<SkipNode>, h: nat, key: int) {
    exists n <- live :: n.level == h && n.pos == At(key)
  }

  /** The key-value pairs held. */
  ghost function Contents(g: Graph, bottom: map<int, SkipNode>): (m: map<int, int>)
    requires Bottoms(g, bottom)
    ensures m.Keys == bottom.Keys
  {
    map k | k in bottom :: g[bottom[k]].value
  }

  // ---------------------------------------------------------------- splicing a node in

  /** x placed after p in p's row and on top of `below`. */
  ghost function Splice(g: Graph, p: SkipNode, x: SkipNode, below: SkipNode?, value: int): Graph
    requires p in g && g[p].after != null && g[p].after in g
  {
    var a := g[p].after;
    var g1 := g[p := g[p].(after := x)];
    var g2 := g1[a := g1[a].(before := x)];
    var g3 := g2[x := Cell(x.pos, g[p].level, p, a, below, null, value)];
    if below != null && below in g3 then g3[below := g3[below].(above := x)] else g3
  }

  ghost predicate CanSplice(g: Graph, height: nat, p: SkipNode, x: SkipNode, below: SkipNode?) {
    && Shape(g, height, null)
    && p in g && g[p].pos != Right && x !in g
    && x.level == g[p].level && x.pos.At? && !x.isSentinel && x.key == x.pos.key
    && Lt(g[p].pos, x.pos) && g[p].after != null && g[p].after in g && Lt(x.pos, g[g[p].after].pos)
    && (if x.level == 0 then below == null
        else below != null && below in g && g[below].level == x.level - 1 && g[below].pos == x.pos
             && g[below].above == null)
  }

  lemma NodeFacts(g: Graph, height: nat, hole: SkipNode?, n: SkipNode)
    requires Shape(g, height, hole) && n in g
    ensures g[n].level < height && RowOk(g, n) && TowerOk(g, n, hole)
  {
    assert NodeOk(g, height, hole, n);
  }

  lemma ApartFacts(g: Graph, height: nat, hole: SkipNode?, m: SkipNode, n: SkipNode)
    requires Shape(g, height, hole) && m in g && n in g
    ensures Apart(g, m, n) && Apart(g, n, m)
  {
  }

  /** What the four pointer writes of a splice change, node by node. */
  ghost predicate SplicedCells(g: Graph, g': Graph, p: SkipNode, x: SkipNode, a: SkipNode,
      below: SkipNode?, value: int)
  {
    && g'.Keys == g.Keys + {x} && p in g && a in g && p != a && x !in g
    && g'[p] == g[p].(after := x)
    && g'[a] == g[a].(before := x)
    && g'[x] == Cell(x.pos, g[p].level, p, a, below, null, value)
    && (below != null ==> below in g && below != p && below != a && g'[below] == g[below].(above := x))
    && forall n <- g :: n != p && n != a && n != below ==> g'[n] == g[n]
  }

  lemma SpliceCells(g: Graph, height: nat, p: SkipNode, x: SkipNode, below: SkipNode?, value: int)
    requires CanSplice(g, height, p, x, below)
    ensures SplicedCells(g, Splice(g, p, x, below, value), p, x, g[p].after, below, value)
  {
    hide Shape;
    NodeFacts(g, height, null, p);
  }

  lemma SpliceKeepsRows(g: Graph, height: nat, p: SkipNode, x: SkipNode, below: SkipNode?, value: int, n: SkipNode)
    requires CanSplice(g, height, p, x, below) && n in Splice(g, p, x, below, value)
    ensures RowOk(Splice(g, p, x, below, value), n)
  {
    hide Shape, Splice;
    SpliceCells(g, height, p, x, below, value);
    NodeFacts(g, height, null, p);
    if n in g {
      NodeFacts(g, height, null, n);
    }
  }

  lemma SpliceKeepsTowers(g: Graph, height: nat, p: SkipNode, x: SkipNode, below: SkipNode?, value: int, n: SkipNode)
    requires CanSplice(g, height, p, x, below) && n in Splice(g, p, x, below, value)
    ensures TowerOk(Splice(g, p, x, below, value), n, null)
  {
    hide Shape, Splice, RowOk;
    SpliceCells(g, height, p, x, below, value);
    if n in g {
      NodeFacts(g, height, null, n);
    }
  }

  lemma SpliceKeepsApart(g: Graph, height: nat, p: SkipNode, x: SkipNode, below: SkipNode?, value: int,
      m: SkipNode, n: SkipNode)
    requires CanSplice(g, height, p, x, below)
    requires m in Splice(g, p, x, below, value) && n in Splice(g, p, x, below, value)
    ensures Apart(Splice(g, p, x, below, value), m, n)
  {
    hide Shape, Splice, TowerOk;
    SpliceCells(g, height, p, x, below, value);
    NodeFacts(g, height, null, p);
    if m in g {
      ApartFacts(g, height, null, m, p);
      NodeFacts(g, height, null, m);
    }
    if n in g {
      ApartFacts(g, height, null, n, p);
      NodeFacts(g, height, null, n);
    }
    if m in g && n in g {
      ApartFacts(g, height, null, m, n);
    }
  }

  lemma SpliceKeepsShape(g: Graph, height: nat, p: SkipNode, x: SkipNode, below: SkipNode?, value: int)
    requires CanSplice(g, height, p, x, below)
    ensures Shape(Splice(g, p, x, below, value), height, null)
  {
    hide RowOk, TowerOk, Apart, Splice;
    var g' := Splice(g, p, x, below, value);
    SpliceCells(g, height, p, x, below, value);
    forall n | n in g' ensures g'[n].level < height && RowOk(g', n) && TowerOk(g', n, null) {
      SpliceKeepsRows(g, height, p, x, below, value, n);
      SpliceKeepsTowers(g, height, p, x, below, value, n);
      if n in g {
        NodeFacts(g, height, null, n);
      }
      NodeFacts(g, height, null, p);
      hide *;
    }
    forall m, n | m in g' && n in g' ensures Apart(g', m, n) {
      SpliceKeepsApart(g, height, p, x, below, value, m, n);
    }
  }

  lemma SpliceKeepsOneValue(g: Graph, height: nat, p: SkipNode, x: SkipNode, below: SkipNode?, value: int)
    requires CanSplice(g, height, p, x, below) && OneValue(g, null)
    requires below != null ==> g[below].value == value
    ensures OneValue(Splice(g, p, x, below, value), null)
  {
    hide Shape, Splice, RowOk, TowerOk;
    SpliceCells(g, height, p, x, below, value);
    var g' := Splice(g, p, x, below, value);
    forall n | n in g' ensures ValueOk(g', n, null) {
      assert n in g ==> ValueOk(g, n, null);
    }
  }

  lemma SpliceKeepsBottoms(g: Graph, height: nat, p: SkipNode, x: SkipNode, below: SkipNode?,
      value: int, bottom: map<int, SkipNode>)
    requires CanSplice(g, height, p, x, below) && Bottoms(g, bottom)
    requires below == null ==> x.pos.key !in bottom
    ensures var g' := Splice(g, p, x, below, value);
      var bottom' := if below == null then bottom[x.pos.key := x] else bottom;
      && Bottoms(g', bottom')
      && Contents(g', bottom') == if below == null then Contents(g, bottom)[x.pos.key := value] else Contents(g, bottom)
  {
    hide Shape, Splice, RowOk, TowerOk;
    SpliceCells(g, height, p, x, below, value);
    var g' := Splice(g, p, x, below, value);
    var bottom' := if below == null then bottom[x.pos.key := x] else bottom;
    forall n | n in g' && g'[n].level == 0 && g'[n].pos.At?
      ensures g'[n].pos.key in bottom' && bottom'[g'[n].pos.key] == n
    {
    }
    assert Bottoms(g', bottom');
    assert forall k <- bottom :: g'[bottom[k]].value == g[bottom[k]].value;
  }

  // ---------------------------------------------------------------- taking a node out

  ghost function Unlink(g: Graph, c: SkipNode): Graph
    requires c in g && g[c].before != null && g[c].before in g && g[c].after != null && g[c].after in g
  {
    var p, a := g[c].before, g[c].after;
    var g1 := g[p := g[p].(after := a)];
    var g2 := g1[a := g1[a].(before := p)];
    g2 - {c}
  }

  /** c is the lowest node that is left of its tower. */
  ghost predicate CanUnlink(g: Graph, height: nat, hole: SkipNode?, c: SkipNode) {
    && Shape(g, height, hole) && c in g && g[c].pos.At?
    && (if hole == null then g[c].level == 0 else hole == c && g[c].level > 0)
    && g[c].before != null && g[c].before in g && g[c].after != null && g[c].after in g
  }

  ghost predicate UnlinkedCells(g: Graph, g': Graph, p: SkipNode, c: SkipNode, a: SkipNode) {
    && g'.Keys == g.Keys - {c} && p in g' && a in g' && p != a && c in g
    && g'[p] == g[p].(after := a)
    && g'[a] == g[a].(before := p)
    && forall n <- g' :: n != p && n != a ==> g'[n] == g[n]
  }

  lemma UnlinkCells(g: Graph, height: nat, hole: SkipNode?, c: SkipNode)
    requires CanUnlink(g, height, hole, c)
    ensures UnlinkedCells(g, Unlink(g, c), g[c].before, c, g[c].after)
    ensures g[g[c].before].level == g[c].level == g[g[c].after].level
    ensures Lt(g[g[c].before].pos, g[c].pos) && Lt(g[c].pos, g[g[c].after].pos)
    ensures g[g[c].before].after == c && g[g[c].after].before == c
  {
    hide Shape;
    NodeFacts(g, height, hole, c);
    NodeFacts(g, height, hole, g[c].before);
  }

  lemma UnlinkKeepsRows(g: Graph, height: nat, hole: SkipNode?, c: SkipNode, n: SkipNode)
    requires CanUnlink(g, height, hole, c) && n in Unlink(g, c)
    ensures RowOk(Unlink(g, c), n)
  {
    hide Shape, Unlink, TowerOk;
    UnlinkCells(g, height, hole, c);
    NodeFacts(g, height, hole, n);
    NodeFacts(g, height, hole, c);
    NodeFacts(g, height, hole, g[c].before);
    NodeFacts(g, height, hole, g[c].after);
  }

  lemma UnlinkKeepsTowers(g: Graph, height: nat, hole: SkipNode?, c: SkipNode, n: SkipNode)
    requires CanUnlink(g, height, hole, c) && n in Unlink(g, c)
    ensures TowerOk(Unlink(g, c), n, g[c].above)
  {
    hide Shape, Unlink, RowOk;
    UnlinkCells(g, height, hole, c);
    NodeFacts(g, height, hole, n);
    NodeFacts(g, height, hole, c);
  }

  lemma UnlinkKeepsApart(g: Graph, height: nat, hole: SkipNode?, c: SkipNode, m: SkipNode, n: SkipNode)
    requires CanUnlink(g, height, hole, c) && m in Unlink(g, c) && n in Unlink(g, c)
    ensures Apart(Unlink(g, c), m, n)
  {
    hide Shape, Unlink, TowerOk;
    UnlinkCells(g, height, hole, c);
    ApartFacts(g, height, hole, m, n);
    ApartFacts(g, height, hole, c, n);
    ApartFacts(g, height, hole, c, m);
    NodeFacts(g, height, hole, m);
  }

  lemma UnlinkKeepsShape(g: Graph, height: nat, hole: SkipNode?, c: SkipNode)
    requires CanUnlink(g, height, hole, c)
    ensures Shape(Unlink(g, c), height, g[c].above)
  {
    hide RowOk, TowerOk, Apart, Unlink;
    var g' := Unlink(g, c);
    UnlinkCells(g, height, hole, c);
    forall n | n in g' ensures g'[n].level < height && RowOk(g', n) && TowerOk(g', n, g[c].above) {
      UnlinkKeepsRows(g, height, hole, c, n);
      UnlinkKeepsTowers(g, height, hole, c, n);
      NodeFacts(g, height, hole, n);
    }
    forall m, n | m in g' && n in g' ensures Apart(g', m, n) {
      UnlinkKeepsApart(g, height, hole, c, m, n);
    }
  }

  lemma UnlinkKeepsValues(g: Graph, height: nat, hole: SkipNode?, c: SkipNode, n: SkipNode)
    requires CanUnlink(g, height, hole, c) && OneValue(g, hole) && n in Unlink(g, c)
    ensures ValueOk(Unlink(g, c), n, g[c].above)
  {
    hide Shape, Unlink, RowOk;
    UnlinkCells(g, height, hole, c);
    NodeFacts(g, height, hole, n);
    assert ValueOk(g, n, hole);
  }

  lemma UnlinkKeepsOneValue(g: Graph, height: nat, hole: SkipNode?, c: SkipNode)
    requires CanUnlink(g, height, hole, c) && OneValue(g, hole)
    ensures OneValue(Unlink(g, c), g[c].above)
  {
    hide Shape, Unlink;
    var g' := Unlink(g, c);
    UnlinkCells(g, height, hole, c);
    forall n | n in g' ensures ValueOk(g', n, g[c].above) {
      UnlinkKeepsValues(g, height, hole, c, n);
    }
  }

  lemma UnlinkKeepsBottoms(g: Graph, height: nat, hole: SkipNode?, c: SkipNode, bottom: map<int, SkipNode>)
    requires CanUnlink(g, height, hole, c) && Bottoms(g, bottom)
    ensures var g' := Unlink(g, c);
      var bottom' := if hole == null then bottom - {g[c].pos.key} else bottom;
      && Bottoms(g', bottom')
      && Contents(g', bottom') == if hole == null then Contents(g, bottom) - {g[c].pos.key} else Contents(g, bottom)
  {
    hide Shape, Unlink;
    var g' := Unlink(g, c);
    var bottom' := if hole == null then bottom - {g[c].pos.key} else bottom;
    UnlinkCells(g, height, hole, c);
    forall k | k in bottom' ensures bottom'[k] in g' && g'[bottom'[k]].value == g[bottom[k]].value {
      assert g[bottom[k]].pos == At(k);
    }
    assert Bottoms(g', bottom');
    var was := Contents(g, bottom);
    assert forall k <- bottom' :: Contents(g', bottom')[k] == was[k];
  }

  // ---------------------------------------------------------------- a new top row

  /** nh and nt as a new row over the old top sentinels h and t. */
  ghost function AddLayer(g: Graph, height: nat, h: SkipNode, t: SkipNode, nh: SkipNode, nt: SkipNode): Graph
    requires h in g && t in g
  {
    g[h := g[h].(above := nh)][t := g[t].(above := nt)]
     [nh := Cell(Left, height, null, nt, h, null, 0)]
     [nt := Cell(Right, height, nh, null, t, null, 0)]
  }

  ghost predicate CanAddLayer(g: Graph, height: nat, h: SkipNode, t: SkipNode, nh: SkipNode, nt: SkipNode) {
    && height > 0 && Shape(g, height, null)
    && h in g && g[h].level == height - 1 && g[h].pos == Left
    && t in g && g[t].level == height - 1 && g[t].pos == Right
    && nh !in g && nt !in g && nh != nt
    && nh.isSentinel && nh.pos == Left && nh.level == height
    && nt.isSentinel && nt.pos == Right && nt.level == height
  }

  ghost predicate LayeredCells(g: Graph, g': Graph, height: nat, h: SkipNode, t: SkipNode, nh: SkipNode, nt: SkipNode) {
    && g'.Keys == g.Keys + {nh, nt} && h in g && t in g && h != t && nh !in g && nt !in g && nh != nt
    && g'[h] == g[h].(above := nh)
    && g'[t] == g[t].(above := nt)
    && g'[nh] == Cell(Left, height, null, nt, h, null, 0)
    && g'[nt] == Cell(Right, height, nh, null, t, null, 0)
    && forall n <- g :: n != h && n != t ==> g'[n] == g[n]
  }

  lemma LayerCells(g: Graph, height: nat, h: SkipNode, t: SkipNode, nh: SkipNode, nt: SkipNode)
    requires CanAddLayer(g, height, h, t, nh, nt)
    ensures LayeredCells(g, AddLayer(g, height, h, t, nh, nt), height, h, t, nh, nt)
    ensures g[h].above == null && g[t].above == null
  {
    hide Shape;
    TopHasNoAbove(g, height, h);
    TopHasNoAbove(g, height, t);
  }

  lemma TopHasNoAbove(g: Graph, height: nat, n: SkipNode)
    requires Shape(g, height, null) && n in g && g[n].level == height - 1
    ensures g[n].above == null
  {
    hide Shape;
    NodeFacts(g, height, null, n);
    if g[n].above != null {
      NodeFacts(g, height, null, g[n].above);
    }
  }

  lemma LayerKeepsNode(g: Graph, height: nat, h: SkipNode, t: SkipNode, nh: SkipNode, nt: SkipNode, n: SkipNode)
    requires CanAddLayer(g, height, h, t, nh, nt) && n in AddLayer(g, height, h, t, nh, nt)
    ensures RowOk(AddLayer(g, height, h, t, nh, nt), n) && TowerOk(AddLayer(g, height, h, t, nh, nt), n, null)
    ensures AddLayer(g, height, h, t, nh, nt)[n].level < height + 1
  {
    hide Shape, AddLayer;
    LayerCells(g, height, h, t, nh, nt);
    if n in g {
      NodeFacts(g, height, null, n);
    }
  }

  lemma LayerKeepsApart(g: Graph, height: nat, h: SkipNode, t: SkipNode, nh: SkipNode, nt: SkipNode,
      m: SkipNode, n: SkipNode)
    requires CanAddLayer(g, height, h, t, nh, nt)
    requires m in AddLayer(g, height, h, t, nh, nt) && n in AddLayer(g, height, h, t, nh, nt)
    ensures Apart(AddLayer(g, height, h, t, nh, nt), m, n)
  {
    hide Shape, AddLayer;
    LayerCells(g, height, h, t, nh, nt);
    if m in g {
      NodeFacts(g, height, null, m);
    }
    if n in g {
      NodeFacts(g, height, null, n);
    }
    if m in g && n in g {
      ApartFacts(g, height, null, m, n);
    }
  }

  lemma LayerKeepsShape(g: Graph, height: nat, h: SkipNode, t: SkipNode, nh: SkipNode, nt: SkipNode)
    requires CanAddLayer(g, height, h, t, nh, nt)
    ensures Shape(AddLayer(g, height, h, t, nh, nt), height + 1, null)
  {
    hide RowOk, TowerOk, Apart, AddLayer;
    var g' := AddLayer(g, height, h, t, nh, nt);
    LayerCells(g, height, h, t, nh, nt);
    forall n | n in g' ensures g'[n].level < height + 1 && RowOk(g', n) && TowerOk(g', n, null) {
      LayerKeepsNode(g, height, h, t, nh, nt, n);
    }
    forall m, n | m in g' && n in g' ensures Apart(g', m, n) {
      LayerKeepsApart(g, height, h, t, nh, nt, m, n);
    }
  }

  lemma LayerKeepsContents(g: Graph, height: nat, h: SkipNode, t: SkipNode, nh: SkipNode, nt: SkipNode,
      bottom: map<int, SkipNode>)
    requires CanAddLayer(g, height, h, t, nh, nt) && Bottoms(g, bottom)
    ensures var g' := AddLayer(g, height, h, t, nh, nt);
      Bottoms(g', bottom) && Contents(g', bottom) == Contents(g, bottom)
  {
    hide Shape, AddLayer;
    LayerCells(g, height, h, t, nh, nt);
    var g' := AddLayer(g, height, h, t, nh, nt);
    assert forall k <- bottom :: g'[bottom[k]].value == g[bottom[k]].value;
  }

  lemma LayerKeepsOneValue(g: Graph, height: nat, h: SkipNode, t: SkipNode, nh: SkipNode, nt: SkipNode)
    requires CanAddLayer(g, height, h, t, nh, nt) && OneValue(g, null)
    ensures OneValue(AddLayer(g, height, h, t, nh, nt), null)
  {
    hide Shape, AddLayer;
    LayerCells(g, height, h, t, nh, nt);
    var g' := AddLayer(g, height, h, t, nh, nt);
    forall n | n in g' ensures ValueOk(g', n, null) {
      assert n in g ==> ValueOk(g, n, null);
      assert ValueOk(g, h, null) && ValueOk(g, t, null);
    }
  }

  /** The two sentinels of an empty list. */
  lemma FirstRow(g: Graph, h: SkipNode, t: SkipNode)
    requires h != t && h.isSentinel && h.pos == Left && h.level == 0
    requires t.isSentinel && t.pos == Right && t.level == 0
    requires g == map[h := Cell(Left, 0, null, t, null, null, 0), t := Cell(Right, 0, h, null, null, null, 0)]
    ensures Shape(g, 1, null) && OneValue(g, null) && Bottoms(g, map[])
  {
  }

  /** If the heap looks like the layered cells, its snapshot is the layered graph. */
  lemma LayeredSnapshot(g: Graph, now: Graph, height: nat, h: SkipNode, t: SkipNode, nh: SkipNode, nt: SkipNode)
    requires h in g && t in g && LayeredCells(g, now, height, h, t, nh, nt)
    requires LayeredCells(g, AddLayer(g, height, h, t, nh, nt), height, h, t, nh, nt)
    ensures now == AddLayer(g, height, h, t, nh, nt)
  {
    hide AddLayer;
  }

  // ---------------------------------------------------------------- a new value for a tower

  ghost function WithValue(g: Graph, c: SkipNode, value: int): Graph
    requires c in g
  {
    g[c := g[c].(value := value)]
  }

  lemma SetValueKeepsNode(g: Graph, height: nat, c: SkipNode, value: int, n: SkipNode)
    requires Shape(g, height, null) && c in g && n in g
    ensures RowOk(WithValue(g, c, value), n) && TowerOk(WithValue(g, c, value), n, null)
    ensures WithValue(g, c, value)[n].level < height
  {
    hide Shape;
    NodeFacts(g, height, null, n);
  }

  lemma SetValueKeepsShape(g: Graph, height: nat, c: SkipNode, value: int)
    requires Shape(g, height, null) && c in g
    ensures Shape(WithValue(g, c, value), height, null)
  {
    hide RowOk, TowerOk;
    var g' := WithValue(g, c, value);
    forall n | n in g' ensures g'[n].level < height && RowOk(g', n) && TowerOk(g', n, null) {
      SetValueKeepsNode(g, height, c, value, n);
    }
    forall m, n | m in g' && n in g' ensures Apart(g', m, n) {
      assert Apart(g, m, n);
    }
  }

  /** Setting the value of c, the lowest node of its tower that has the old value. */
  lemma SetValueMovesHole(g: Graph, height: nat, c: SkipNode, value: int)
    requires Shape(g, height, null) && c in g && g[c].pos.At?
    requires if g[c].level == 0 then OneValue(g, null)
             else OneValue(g, c) && g[c].below != null && g[c].below in g && g[g[c].below].value == value
    ensures OneValue(WithValue(g, c, value), g[c].above)
  {
    hide Shape;
    var g' := WithValue(g, c, value);
    forall n | n in g' ensures ValueOk(g', n, g[c].above) {
      NodeFacts(g, height, null, n);
      assert ValueOk(g, n, if g[c].level == 0 then null else c);
    }
  }

  lemma SetValueContents(g: Graph, c: SkipNode, value: int, bottom: map<int, SkipNode>)
    requires c in g && g[c].pos.At? && Bottoms(g, bottom)
    ensures var g' := WithValue(g, c, value);
      Bottoms(g', bottom) && Contents(g', bottom)
        == if g[c].level == 0 then Contents(g, bottom)[g[c].pos.key := value] else Contents(g, bottom)
  {
    var g' := WithValue(g, c, value);
    assert g[c].level == 0 ==> bottom[g[c].pos.key] == c;
    forall k | k in bottom ensures g[bottom[k]].pos == At(k) && g[bottom[k]].level == 0 {}
    assert Bottoms(g', bottom);
    var was, now := Contents(g, bottom), Contents(g', bottom);
    forall k | k in bottom
      ensures now[k] == if g[c].level == 0 && k == g[c].pos.key then value else was[k]
    {
    }
  }

  /** A column whose nodes below c have the new value already; c is null when all have it. */
  ghost predicate Replacing(g: Graph, height: nat, bottom: map<int, SkipNode>, c: SkipNode?, key: int,
      value: int, was: map<int, int>)
  {
    && Shape(g, height, null) && Bottoms(g, bottom)
    && if c == null then OneValue(g, null) && Contents(g, bottom) == was[key := value]
       else
         && c in g && g[c].pos == At(key) && g[c].level < height
         && if g[c].level == 0 then OneValue(g, null) && Contents(g, bottom) == was
            else
              && OneValue(g, c) && Contents(g, bottom) == was[key := value]
              && g[c].below != null && g[c].below in g && g[g[c].below].value == value
  }

  lemma ReplaceStep(g: Graph, height: nat, bottom: map<int, SkipNode>, c: SkipNode, key: int,
      value: int, was: map<int, int>)
    requires Replacing(g, height, bottom, c, key, value, was)
    ensures c in g && Replacing(WithValue(g, c, value), height, bottom, g[c].above, key, value, was)
    ensures g[c].level < height && (g[c].above != null ==> g[c].above in g && g[g[c].above].level == g[c].level + 1)
  {
    hide Shape, OneValue, Bottoms;
    SetValueKeepsShape(g, height, c, value);
    SetValueMovesHole(g, height, c, value);
    SetValueContents(g, c, value, bottom);
    if g[c].above != null {
      AboveFacts(g, height, null, c);
    }
  }

  lemma AboveFacts(g: Graph, height: nat, hole: SkipNode?, c: SkipNode)
    requires Shape(g, height, hole) && c in g && g[c].above != null
    ensures var a := g[c].above;
      a in g && g[a].below == c && g[a].pos == g[c].pos && g[a].level == g[c].level + 1 && g[c].level + 1 < height
  {
    hide Shape;
    NodeFacts(g, height, hole, c);
    NodeFacts(g, height, hole, g[c].above);
  }

  // ---------------------------------------------------------------- searching

  /** The nodes of n's row that lie to its right. */
  ghost function RightOf(g: Graph, n: SkipNode): set<SkipNode>
    requires n in g
  {
    set m | m in g && g[m].level == g[n].level && Lt(g[n].pos, g[m].pos)
  }

  lemma AfterHasLessRight(g: Graph, height: nat, n: SkipNode)
    requires Shape(g, height, null) && n in g && g[n].after != null
    ensures g[n].after in g && g[g[n].after].level == g[n].level && RightOf(g, g[n].after) < RightOf(g, n)
    ensures Lt(g[n].pos, g[g[n].after].pos) && g[n].pos != Right
  {
    hide Shape;
    NodeFacts(g, height, null, n);
    var a := g[n].after;
    assert a in RightOf(g, n) && a !in RightOf(g, a);
  }

  /** n is where the search for `key` leaves its row: the last node not beyond it. */
  ghost predicate IsPredecessor(g: Graph, n: SkipNode, key: int) {
    && n in g && !Lt(At(key), g[n].pos)
    && g[n].after != null && g[n].after in g && Lt(At(key), g[g[n].after].pos)
  }

  /** The search path: one node a row, from the top row to the bottom. */
  ghost predicate IsPath(g: Graph, path: seq<SkipNode>, key: int) {
    forall i | 0 <= i < |path| :: IsPredecessor(g, path[i], key) && g[path[i]].level == |path| - 1 - i
  }

  /** The largest key that is not above the argument. */
  ghost predicate IsFloor(keys: set<int>, key: int, k: int) {
    k in keys && k <= key && forall j <- keys :: j <= key ==> j <= k
  }

  lemma PredecessorIsMaximal(g: Graph, height: nat, n: SkipNode, key: int, m: SkipNode)
    requires Shape(g, height, null) && IsPredecessor(g, n, key)
    requires m in g && g[m].level == g[n].level && !Lt(At(key), g[m].pos)
    ensures g[m].pos == g[n].pos || Lt(g[m].pos, g[n].pos)
  {
    hide Shape;
    ApartFacts(g, height, null, n, m);
  }

  /** The node that the search returns holds the floor of the key, or is the left sentinel. */
  lemma BottomPredecessorIsFloor(g: Graph, height: nat, n: SkipNode, key: int, bottom: map<int, SkipNode>)
    requires Shape(g, height, null) && IsPredecessor(g, n, key) && g[n].level == 0 && Bottoms(g, bottom)
    ensures g[n].pos.At? ==> IsFloor(bottom.Keys, key, g[n].pos.key) && bottom[g[n].pos.key] == n
    ensures g[n].pos == Left ==> forall k <- bottom :: k > key
    ensures g[n].pos != Right
  {
    hide Shape;
    forall k | k in bottom && k <= key ensures g[n].pos.At? && k <= g[n].pos.key {
      PredecessorIsMaximal(g, height, n, key, bottom[k]);
    }
  }

  /** A place for `key` after `pre`, and the top of its tower so far. */
  ghost predicate SpliceSpot(g: Graph, pre: SkipNode, key: int, last: SkipNode?) {
    && IsPredecessor(g, pre, key) && Lt(g[pre].pos, At(key))
    && (if g[pre].level == 0 then last == null
        else last != null && last in g && g[last].level == g[pre].level - 1 && g[last].pos == At(key)
             && g[last].above == null)
  }

  ghost predicate IsSplice(g: Graph, g': Graph, height: nat, p: SkipNode, x: SkipNode, below: SkipNode?, value: int) {
    CanSplice(g, height, p, x, below) && g' == Splice(g, p, x, below, value)
  }

  /** One round of the loop that builds a tower: a new node after `pre`, on top of `last`. */
  method InsertAfter(pre: SkipNode, key: int, value: int, last: SkipNode?, ghost live: set<SkipNode>, ghost height: nat)
    returns (node: SkipNode)
    requires Shape(Snapshot(live), height, null) && pre in live && SpliceSpot(Snapshot(live), pre, key, last)
    modifies live`after, live`before, live`above
    ensures fresh(node) && node !in live && node.pos == At(key) && node.level == pre.level && node.value == value
    ensures node.above == null
    ensures IsSplice(old(Snapshot(live)), Snapshot(live + {node}), height, pre, node, last, value)
  {
    hide Shape, Splice;
    ghost var g := Snapshot(live);
    var after := pre.after;
    node := new SkipNode(key, value, false, At(key), pre.level);
    SpliceReady(g, height, pre, node, key, last);
    SpliceCells(g, height, pre, node, last, value);
    pre.after := node;
    after.before := node;
    node.before := pre;
    node.after := after;
    node.below := last;
    if last != null {
      last.above := node;
    }
    SplicedSnapshot(g, live, pre, node, after, last, value);
  }

  lemma SpliceReady(g: Graph, height: nat, pre: SkipNode, node: SkipNode, key: int, last: SkipNode?)
    requires Shape(g, height, null) && SpliceSpot(g, pre, key, last)
    requires node !in g && node.pos == At(key) && !node.isSentinel && node.key == key && node.level == pre.level
    ensures CanSplice(g, height, pre, node, last)
  {
    hide Shape;
    NodeFacts(g, height, null, pre);
    SentinelFacts(g, height, null, pre);
  }

  /** If the heap looks like the spliced cells, its snapshot is the splice. */
  lemma SplicedSnapshot(g: Graph, live: set<SkipNode>, p: SkipNode, x: SkipNode, a: SkipNode,
      below: SkipNode?, value: int)
    requires p in g && g[p].after == a && a in g && p != a && x !in g && g.Keys == live
    requires below != null ==> below in g && below != p && below != a
    requires x.level == g[p].level
    requires var now := Snapshot(live + {x});
      && now[p] == g[p].(after := x) && now[a] == g[a].(before := x)
      && now[x] == Cell(x.pos, x.level, p, a, below, null, value)
      && (below != null ==> now[below] == g[below].(above := x))
      && forall n <- g :: n != p && n != a && n != below ==> now[n] == g[n]
    ensures Snapshot(live + {x}) == Splice(g, p, x, below, value)
  {
  }

  lemma SameLevelAndPos(live: set<SkipNode>, height: nat, n: SkipNode)
    requires Shape(Snapshot(live), height, null) && n in live
    ensures Snapshot(live)[n].pos == n.pos && Snapshot(live)[n].level == n.level
  {
  }

  lemma StepRight(live: set<SkipNode>, height: nat, n: SkipNode, key: int)
    requires Shape(Snapshot(live), height, null) && n in live && n.ShouldSkipRight(key)
    ensures n.after in live && n.after.level == n.level && !Lt(At(key), n.after.pos)
  {
    hide Shape;
    NodeFacts(Snapshot(live), height, null, n);
    SentinelFacts(Snapshot(live), height, null, n.after);
  }

  lemma SentinelFacts(g: Graph, height: nat, hole: SkipNode?, n: SkipNode)
    requires Shape(g, height, hole) && n in g
    ensures n.pos == g[n].pos && n.level == g[n].level && (n.isSentinel <==> !n.pos.At?)
    ensures n.pos.At? ==> n.key == n.pos.key
  {
  }

  /** Where the search stops going right it is at its row's predecessor, and the row below is in reach. */
  lemma StopsAtPredecessor(live: set<SkipNode>, height: nat, n: SkipNode, key: int)
    requires Shape(Snapshot(live), height, null) && n in live && !Lt(At(key), n.pos) && !n.ShouldSkipRight(key)
    ensures IsPredecessor(Snapshot(live), n, key)
    ensures if n.level == 0 then n.below == null
            else n.below != null && n.below in live && n.below.level == n.level - 1 && n.below.pos == n.pos
  {
    hide Shape;
    NodeFacts(Snapshot(live), height, null, n);
    SentinelFacts(Snapshot(live), height, null, n);
    SentinelFacts(Snapshot(live), height, null, n.after);
    if n.below != null {
      SentinelFacts(Snapshot(live), height, null, n.below);
    }
  }

  // ---------------------------------------------------------------- building a tower

  /** A tower has a node in every row from its top down to the bottom. */
  lemma {:induction false} TowerReachesDown(g: Graph, height: nat, n: SkipNode, h: nat)
    requires Shape(g, height, null) && n in g && h <= g[n].level
    ensures exists m <- g :: g[m].level == h && g[m].pos == g[n].pos
    decreases g[n].level
  {
    hide Shape;
    if h < g[n].level {
      NodeFacts(g, height, null, n);
      TowerReachesDown(g, height, g[n].below, h);
    }
  }

  /** A key that the bottom row does not have is in no row. */
  lemma AbsentEverywhere(g: Graph, height: nat, bottom: map<int, SkipNode>, key: int, n: SkipNode)
    requires Shape(g, height, null) && Bottoms(g, bottom) && key !in bottom && n in g
    ensures g[n].pos != At(key)
  {
    hide Shape;
    TowerReachesDown(g, height, n, 0);
  }

  /** The rows from the bottom up have the new node, the rows of path[..i] do not yet. */
  ghost predicate Building(g: Graph, height: nat, path: seq<SkipNode>, key: int, value: int,
    bottom: map<int, SkipNode>, i: nat, last: SkipNode?, was: map<int, int>)
  {
    && Shape(g, height, null) && OneValue(g, null) && Bottoms(g, bottom) && |path| == height && i <= height
    && (forall j | 0 <= j < i :: IsPredecessor(g, path[j], key)
          && g[path[j]].level == height - 1 - j && Lt(g[path[j]].pos, At(key)))
    && (if i == height then last == null && key !in bottom && Contents(g, bottom) == was
        else
          && last != null && last in g && g[last].level == height - 1 - i && g[last].pos == At(key)
          && g[last].above == null && g[last].value == value && Contents(g, bottom) == was[key := value])
  }

  lemma BuildStart(g: Graph, height: nat, path: seq<SkipNode>, key: int, value: int, bottom: map<int, SkipNode>)
    requires Shape(g, height, null) && OneValue(g, null) && Bottoms(g, bottom)
    requires |path| == height && IsPath(g, path, key) && key !in bottom
    ensures Building(g, height, path, key, value, bottom, height, null, Contents(g, bottom))
  {
    hide Shape, OneValue, Bottoms;
    forall j | 0 <= j < height ensures IsPredecessor(g, path[j], key)
      && g[path[j]].level == height - 1 - j && Lt(g[path[j]].pos, At(key))
    {
      AbsentEverywhere(g, height, bottom, key, path[j]);
    }
  }

  lemma BuildSpot(g: Graph, height: nat, path: seq<SkipNode>, key: int, value: int,
    bottom: map<int, SkipNode>, i: nat, last: SkipNode?, was: map<int, int>)
    requires Building(g, height, path, key, value, bottom, i, last, was) && i > 0
    ensures Shape(g, height, null) && path[i - 1] in g && SpliceSpot(g, path[i - 1], key, last)
  {
    hide Shape, OneValue, Bottoms;
  }

  lemma BuildStep(g: Graph, g': Graph, height: nat, path: seq<SkipNode>, key: int, value: int,
    bottom: map<int, SkipNode>, i: nat, last: SkipNode?, was: map<int, int>, x: SkipNode)
    requires Building(g, height, path, key, value, bottom, i, last, was) && i > 0
    requires IsSplice(g, g', height, path[i - 1], x, last, value) && x.pos == At(key)
    ensures Building(g', height, path, key, value, if last == null then bottom[key := x] else bottom, i - 1, x, was)
  {
    hide Shape, OneValue, Bottoms, Splice;
    SpliceKeepsShape(g, height, path[i - 1], x, last, value);
    SpliceKeepsOneValue(g, height, path[i - 1], x, last, value);
    SpliceKeepsBottoms(g, height, path[i - 1], x, last, value, bottom);
    SpliceCells(g, height, path[i - 1], x, last, value);
    forall j | 0 <= j < i - 1 ensures IsPredecessor(g', path[j], key)
      && g'[path[j]].level == height - 1 - j && Lt(g'[path[j]].pos, At(key))
    {
      NodeFacts(g, height, null, path[j]);
      NodeFacts(g, height, null, path[i - 1]);
    }
  }

  // ---------------------------------------------------------------- taking a tower down

  /** A tower whose nodes below c are gone already; c is null when all of it is. */
  ghost predicate Removing(g: Graph, height: nat, bottom: map<int, SkipNode>, c: SkipNode?, key: int,
      was: map<int, int>)
  {
    && Bottoms(g, bottom)
    && (c != null ==> c in g && g[c].pos == At(key) && g[c].level < height)
    && if c != null && c in g && g[c].level == 0
       then Shape(g, height, null) && OneValue(g, null) && Contents(g, bottom) == was
       else Shape(g, height, c) && OneValue(g, c) && Contents(g, bottom) == was - {key} && key !in bottom
  }

  lemma RemoveStep(g: Graph, height: nat, bottom: map<int, SkipNode>, c: SkipNode, key: int, was: map<int, int>)
    requires Removing(g, height, bottom, c, key, was)
    ensures c in g && g[c].before != null && g[c].before in g && g[c].after != null && g[c].after in g
    ensures g[c].before != g[c].after && g[c].before != c && g[c].after != c && g[c].level < height
    ensures Removing(Unlink(g, c), height, if g[c].level == 0 then bottom - {key} else bottom, g[c].above, key, was)
    ensures g[c].above != null ==> g[c].above in Unlink(g, c) && Unlink(g, c)[g[c].above].level == g[c].level + 1
  {
    hide Shape, OneValue, Bottoms, Unlink;
    var hole := if g[c].level == 0 then null else c;
    NodeFacts(g, height, hole, c);
    UnlinkCells(g, height, hole, c);
    UnlinkKeepsShape(g, height, hole, c);
    UnlinkKeepsOneValue(g, height, hole, c);
    UnlinkKeepsBottoms(g, height, hole, c, bottom);
    if g[c].above != null {
      AboveFacts(g, height, hole, c);
    }
  }

  ghost predicate IsUnlink(g: Graph, g': Graph, c: SkipNode) {
    && c in g && g[c].before != null && g[c].before in g && g[c].after != null && g[c].after in g
    && g' == Unlink(g, c)
  }

  /** One round of the removal loop: connect the neighbours of c past it, then delete it. */
  method RemoveNode(c: SkipNode, ghost live: set<SkipNode>)
    requires c in live && c.before != null && c.before in live && c.after != null && c.after in live
    requires c.before != c.after && c.before != c && c.after != c
    modifies live`after, live`before
    ensures IsUnlink(old(Snapshot(live)), Snapshot(live - {c}), c)
  {
    ghost var g := Snapshot(live);
    var prev, next := c.before, c.after;
    prev.after := next;
    next.before := prev;
    assert Snapshot(live - {c}) == Unlink(g, c);
  }

  // ---------------------------------------------------------------- leaving a row

  /** What is left of a row, from n on, while the row is being released. */
  ghost function FromOn(g: Graph, n: SkipNode?, h: nat): set<SkipNode>
    requires n != null ==> n in g
  {
    set m | m in g && (g[m].level < h || (g[m].level == h && n != null && !Lt(g[m].pos, g[n].pos)))
  }

  lemma ReleaseStep(g: Graph, height: nat, n: SkipNode, h: nat)
    requires Shape(g, height, null) && n in g && g[n].level == h
    ensures n in FromOn(g, n, h)
    ensures g[n].after != null ==> g[n].after in g && g[g[n].after].level == h
                                   && RightOf(g, g[n].after) < RightOf(g, n)
    ensures FromOn(g, n, h) - {n} == FromOn(g, g[n].after, h)
  {
    hide Shape;
    NodeFacts(g, height, null, n);
    if g[n].after != null {
      AfterHasLessRight(g, height, n);
    }
    forall m | m in g ensures m in FromOn(g, n, h) - {n} <==> m in FromOn(g, g[n].after, h) {
      ApartFacts(g, height, null, n, m);
    }
  }

  /** Starting at the left sentinel, everything is left of rows up to h. */
  lemma ReleaseStart(g: Graph, height: nat, n: SkipNode, h: nat)
    requires Shape(g, height, null) && n in g && g[n].level == h && g[n].pos == Left
    ensures FromOn(g, n, h) == FromOn(g, null, h + 1)
    ensures if h == 0 then g[n].below == null
            else g[n].below != null && g[n].below in g && g[g[n].below].level == h - 1 && g[g[n].below].pos == Left
  {
    hide Shape;
    NodeFacts(g, height, null, n);
  }
}
