/** The growing and shrinking array of poll descriptors, with what it costs to reallocate it. */
module PollArrays {
  import opened Arith64

  const INIT_POLL_ARRAY_CAPACITY: nat := 8

  datatype PollFd = PollFd(fd: int, events: int, revents: int)

  datatype Outcome = Done | IndexOutOfBound

  /** Entries a removal leaves: the last one takes the place of the removed one. */
  function SwapRemove<T>(s: seq<T>, i: nat): (r: seq<T>)
    requires i < |s|
    ensures |r| == |s| - 1
    ensures forall k | 0 <= k < |s| - 1 :: r[k] == if k == i then s[|s| - 1] else s[k]
  {
    s[i := s[|s| - 1]][..|s| - 1]
  }

  /** Nothing but the removed entry is lost. */
  lemma SwapRemoveMultiset<T>(s: seq<T>, i: nat)
    requires i < |s|
    ensures multiset(SwapRemove(s, i)) == multiset(s) - multiset{s[i]}
  {
    var n := |s| - 1;
    if i == n {
      assert SwapRemove(s, i) == s[..n];
      assert s == s[..n] + [s[n]];
    } else {
      assert SwapRemove(s, i) == s[..i] + [s[n]] + s[i + 1..n];
      assert s == s[..i] + [s[i]] + s[i + 1..n] + [s[n]];
    }
  }

  /** What has been saved up for the next reallocation. */
  function Potential(count: nat, capacity: nat): nat {
    if 2 * count >= capacity then 2 * count - capacity else capacity / 2 - count
  }

  class PollArray {
    var pfds: array<PollFd>
    var count: nat
    ghost var closed: seq<int>  // descriptors closed so far
    ghost var moved: nat        // live entries moved by reallocation so far
    ghost var ops: nat          // successful calls so far

    ghost function Entries(): seq<PollFd>
      reads this, pfds
      requires count <= pfds.Length
    {
      pfds[..count]
    }

    /** The space bound and the amortised cost bound are part of what every call keeps. */
    ghost predicate Valid()
      reads this, pfds
    {
      && count <= pfds.Length
      && IsPow2(pfds.Length) && pfds.Length >= 2
      && (pfds.Length <= 8 || pfds.Length <= 4 * count)
      && moved + Potential(count, pfds.Length) <= 2 * ops + 4
    }

    /** `init_poll_array`. */
    constructor ()
      ensures Valid() && fresh(pfds) && Entries() == [] && closed == [] && moved == 0 && ops == 0
      ensures pfds.Length == 8
    {
      pfds := new PollFd[INIT_POLL_ARRAY_CAPACITY](_ => PollFd(0, 0, 0));
      count := 0;
      closed, moved, ops := [], 0, 0;
      new;
      assert Pow2(3) == 8;
    }

    /** `realloc`, which moves the live entries. */
    method Realloc(capacity: nat)
      requires count <= pfds.Length && count <= capacity
      modifies this`pfds, this`moved
      ensures fresh(pfds) && pfds.Length == capacity
      ensures Entries() == old(Entries()) && moved == old(moved) + count
    {
      var space := new PollFd[capacity](_ => PollFd(0, 0, 0));
      var i := 0;
      while i < count
        modifies space
        invariant i <= count && space[..i] == pfds[..i]
      {
        space[i] := pfds[i];
        i := i + 1;
      }
      pfds := space;
      moved := moved + count;
    }

    /** `add_to_poll_array`. */
    method Add(fd: int, flag: int)
      requires Valid()
      modifies this, pfds
      ensures Valid() && (pfds == old(pfds) || fresh(pfds))
      ensures Entries() == old(Entries()) + [PollFd(fd, flag, 0)] && closed == old(closed) && ops == old(ops) + 1
      ensures pfds.Length == old(if count == pfds.Length then 2 * pfds.Length else pfds.Length)
      ensures moved == old(moved) + old(if count == pfds.Length then count else 0)
    {
      if count == pfds.Length {
        DoubleIsPow2(pfds.Length);
        Realloc(pfds.Length * 2);
      }
      pfds[count] := PollFd(fd, flag, 0);
      count := count + 1;
      ops := ops + 1;
    }

    /** `remove_from_poll_array`: closes the descriptor, moves the last entry into its place. */
    method Remove(removeIdx: int) returns (r: Outcome)
      requires Valid()
      modifies this, pfds
      ensures Valid() && (pfds == old(pfds) || fresh(pfds))
      ensures r == Done <==> 0 <= removeIdx < old(count)
      ensures r != Done ==> Entries() == old(Entries()) && closed == old(closed)
      ensures r != Done ==> ops == old(ops) && moved == old(moved)
      ensures r == Done ==> 0 <= removeIdx < |old(Entries())|
      ensures r == Done ==> Entries() == SwapRemove(old(Entries()), removeIdx)
      ensures r == Done ==> closed == old(closed) + [old(Entries())[removeIdx].fd] && ops == old(ops) + 1
      ensures r == Done ==> count == old(count) - 1
      ensures r == Done ==> pfds.Length == old(if count - 1 < pfds.Length / 4 then pfds.Length / 2 else pfds.Length)
    {
      hide IsPow2, Potential;
      if removeIdx < 0 || removeIdx >= count {
        return IndexOutOfBound;
      }
      closed := closed + [pfds[removeIdx].fd];
      pfds[removeIdx] := pfds[count - 1];
      count := count - 1;
      assert Entries() == SwapRemove(old(Entries()), removeIdx);
      ops := ops + 1;
      PotentialRises(count, pfds.Length);
      if count < pfds.Length / 4 {
        Realloc(pfds.Length / 2);
      }
      return Done;
    }

    /** `release_poll_array`: every descriptor that is left is closed, each once. */
    method Release()
      requires Valid()
      modifies this, pfds
      ensures count == 0
      ensures exists rest: seq<int> :: closed == old(closed) + rest && multiset(rest) == multiset(Fds(old(Entries())))
    {
      ghost var all := Entries();
      var i := count - 1;
      while i >= 0
        invariant Valid() && count == i + 1 && (pfds == old(pfds) || fresh(pfds))
        invariant Entries() == all[..count]
        invariant closed == old(closed) + LastFirst(all, count)
      {
        assert all[..count][..count - 1] == all[..count - 1];
        RemoveLast(Entries());
        var _ := Remove(i);
        i := i - 1;
      }
      LastFirstIsAll(all, 0);
      assert all[0..] == all;
      assert closed == old(closed) + LastFirst(all, 0);
    }
  }

  /** The descriptors from the end down to position n. */
  function LastFirst(s: seq<PollFd>, n: nat): (r: seq<int>)
    requires n <= |s|
    ensures |r| == |s| - n
    decreases |s| - n
  {
    if n == |s| then [] else LastFirst(s, n + 1) + [s[n].fd]
  }

  lemma {:induction false} LastFirstIsAll(s: seq<PollFd>, n: nat)
    requires n <= |s|
    ensures multiset(LastFirst(s, n)) == multiset(Fds(s[n..]))
    decreases |s| - n
  {
    if n < |s| {
      LastFirstIsAll(s, n + 1);
      assert s[n..] == [s[n]] + s[n + 1..];
    }
  }

  lemma RemoveLast(s: seq<PollFd>)
    requires s != []
    ensures SwapRemove(s, |s| - 1) == s[..|s| - 1]
  {
  }

  function Fds(s: seq<PollFd>): (r: seq<int>)
    ensures |r| == |s| && forall i | 0 <= i < |s| :: r[i] == s[i].fd
  {
    if s == [] then [] else [s[0].fd] + Fds(s[1..])
  }

  lemma DoubleIsPow2(n: nat)
    requires IsPow2(n)
    ensures IsPow2(2 * n)
  {
    var k: nat :| n == Pow2(k);
    assert Pow2(k + 1) == 2 * n;
  }

  /** A removal saves up enough for the shrinking that it may cause. */
  lemma PotentialRises(count: nat, capacity: nat)
    requires IsPow2(capacity) && capacity >= 2 && count < capacity
    requires capacity <= 8 || capacity <= 4 * (count + 1)
    ensures Potential(count, capacity) <= Potential(count + 1, capacity) + 2
    ensures count >= capacity / 4 ==> capacity <= 8 || capacity <= 4 * count
    ensures count < capacity / 4 ==>
      && IsPow2(capacity / 2) && capacity / 2 >= 2 && (capacity / 2 <= 8 || capacity / 2 <= 4 * count)
      && count + Potential(count, capacity / 2) <= Potential(count + 1, capacity) + 2
  {
    if capacity >= 4 {
      HalfIsPow2(capacity);
      if capacity / 2 >= 4 {
        HalfIsPow2(capacity / 2);
      }
    }
  }

  lemma HalfIsPow2(n: nat)
    requires IsPow2(n) && n >= 4
    ensures n % 4 == 0 && IsPow2(n / 2) && n / 2 >= 2
  {
    HalveIsPow2(n);
    HalveIsPow2(n / 2);
  }

  // ---------------------------------------------------------------- whole runs

  datatype Op = AddFd(fd: int, flag: int) | RemoveAt(index: int)

  /** The entries after some operations; a removal out of bounds ends the program. */
  function EntriesAfter(s: seq<PollFd>, op: Op): seq<PollFd> {
    match op
    case AddFd(fd, flag) => s + [PollFd(fd, flag, 0)]
    case RemoveAt(i) => if 0 <= i < |s| then SwapRemove(s, i) else s
  }

  function EntriesAfterAll(ops: seq<Op>): seq<PollFd> {
    if ops == [] then [] else EntriesAfter(EntriesAfterAll(ops[..|ops| - 1]), ops[|ops| - 1])
  }

  /**
   Over any run the array holds the entries it should, its capacity is a power of two and at
   most max(8, 4 * count), and reallocation has moved at most two entries a call, and four.
   */
  method PerformAll(ops: seq<Op>) returns (a: PollArray)
    ensures fresh(a) && a.Valid() && a.Entries() == EntriesAfterAll(ops)
    ensures IsPow2(a.pfds.Length) && 2 <= a.pfds.Length && (a.pfds.Length <= 8 || a.pfds.Length <= 4 * a.count)
    ensures a.moved <= 2 * |ops| + 4
  {
    a := new PollArray();
    var n := 0;
    assert ops[..0] == [];
    while n < |ops|
      invariant n <= |ops| && fresh(a) && fresh(a.pfds) && a.Valid() && a.ops <= n
      invariant a.Entries() == EntriesAfterAll(ops[..n])
    {
      assert ops[..n + 1][..n] == ops[..n];
      match ops[n] {
        case AddFd(fd, flag) => a.Add(fd, flag);
        case RemoveAt(i) => var _ := a.Remove(i);
      }
      n := n + 1;
    }
    assert ops[..n] == ops;
  }
}
