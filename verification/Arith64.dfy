/** Machine arithmetic of the queue code: 64-bit `size_t`, bitwise and, powers of two. */
module Arith64 {
  const TWO_64: nat := 0x1_0000_0000_0000_0000

  /** A `size_t` on the platforms the queue supports. */
  type u64 = n: nat | n < 0x1_0000_0000_0000_0000

  type Byte = b: int | 0 <= b < 256

  /** Unsigned addition wraps around. */
  function Add(a: u64, b: u64): u64 {
    (a + b) % TWO_64
  }

  /** Bitwise and, bit by bit from the least significant one. */
  function And(a: nat, b: nat): nat {
    if a == 0 || b == 0 then 0
    else 2 * And(a / 2, b / 2) + (a % 2) * (b % 2)
  }

  /** The number of one bits, as `std::has_single_bit` looks at it. */
  function PopCount(n: nat): nat {
    if n == 0 then 0 else n % 2 + PopCount(n / 2)
  }

  function Pow2(k: nat): (p: nat)
    ensures p > 0
  {
    if k == 0 then 1 else 2 * Pow2(k - 1)
  }

  ghost predicate IsPow2(n: nat) {
    exists k: nat :: n == Pow2(k)
  }

  lemma {:induction false} HalveIsPow2(n: nat)
    requires n > 1
    ensures IsPow2(n) <==> n % 2 == 0 && IsPow2(n / 2)
  {
    if IsPow2(n) {
      var k: nat :| n == Pow2(k);
      assert k > 0 && n / 2 == Pow2(k - 1);
    }
    if n % 2 == 0 && IsPow2(n / 2) {
      var k: nat :| n / 2 == Pow2(k);
      assert n == Pow2(k + 1);
    }
  }

  /** The argument test of the C++ queue accepts exactly the powers of two. */
  lemma {:induction false} SingleBitIffPow2(n: nat)
    ensures PopCount(n) == 1 <==> IsPow2(n)
  {
    if n == 0 {
    } else if n == 1 {
      assert n == Pow2(0);
      assert PopCount(1) == 1 + PopCount(0);
    } else {
      SingleBitIffPow2(n / 2);
      HalveIsPow2(n);
      PopCountPositive(n / 2);
    }
  }

  lemma {:induction false} PopCountPositive(n: nat)
    requires n > 0
    ensures PopCount(n) > 0
  {
    if n % 2 == 0 {
      PopCountPositive(n / 2);
    }
  }

  lemma ModUnique(i: nat, m: nat, q: nat, r: nat)
    requires r < m && i == q * m + r
    ensures i % m == r && i / m == q
  {
    var q', r' := i / m, i % m;
    assert i == q' * m + r';
    assert (q' - q) * m == r - r';
    MulAtLeast(q' - q, m);
    MulAtLeast(q - q', m);
  }

  lemma MulAtLeast(d: int, m: nat)
    ensures d > 0 ==> d * m >= m
  {
  }

  lemma ModOfDouble(i: nat, d: nat)
    requires d > 0
    ensures i % (2 * d) == 2 * ((i / 2) % d) + i % 2
  {
    var q, r := (i / 2) / d, (i / 2) % d;
    assert i / 2 == q * d + r;
    assert i == q * (2 * d) + (2 * r + i % 2) by {
      assert q * (2 * d) == 2 * (q * d);
    }
    ModUnique(i, 2 * d, q, 2 * r + i % 2);
  }

  /** Masking with a power of two minus one is the modulo it replaced. */
  lemma {:induction false} MaskIsModulo(i: nat, c: nat)
    requires IsPow2(c)
    ensures And(i, c - 1) == i % c
  {
    if c > 1 {
      HalveIsPow2(c);
      MaskIsModulo(i / 2, c / 2);
      ModOfDouble(i, c / 2);
      assert (c - 1) / 2 == c / 2 - 1 && (c - 1) % 2 == 1;
      assert And(0, c / 2 - 1) == 0;
    }
  }

  /** What `round_up_power_of_2` has in `pow` after k rounds of its loop, on wrapping numbers. */
  function PowAfter(k: nat): u64 {
    if k == 0 then 1 else Double(PowAfter(k - 1))
  }

  /** `pow *= 2` on a `size_t`. */
  function Double(p: u64): u64 {
    (p * 2) % TWO_64
  }

  lemma {:induction false} Pow2Monotone(i: nat, j: nat)
    requires i <= j
    ensures Pow2(i) <= Pow2(j)
  {
    if i < j {
      Pow2Monotone(i, j - 1);
    }
  }

  lemma {:induction false} Pow2Add(i: nat, j: nat)
    ensures Pow2(i + j) == Pow2(i) * Pow2(j)
  {
    if i > 0 {
      Pow2Add(i - 1, j);
    }
  }

  lemma Pow2Of63()
    ensures Pow2(63) == 0x8000_0000_0000_0000 && Pow2(64) == TWO_64
  {
    assert Pow2(8) == 0x100;
    Pow2Add(8, 8);
    Pow2Add(16, 16);
    Pow2Add(32, 32);
  }

  /** A power of two that fits in 64 bits is at most 2^63 and divides 2^64. */
  lemma Pow2Divides(c: u64)
    requires IsPow2(c)
    ensures 0 < c <= 0x8000_0000_0000_0000 && TWO_64 % c == 0
  {
    var k: nat :| c == Pow2(k);
    Pow2Of63();
    if k > 63 {
      Pow2Monotone(64, k);
    } else {
      Pow2Monotone(k, 63);
      Pow2Add(64 - k, k);
      ModUnique(TWO_64, c, Pow2(64 - k), 0);
    }
  }

  /** The doubling is right for 63 rounds; then `pow` is zero and stays so. */
  lemma {:induction false} PowAfterIs(k: nat)
    ensures PowAfter(k) == if k < 64 then Pow2(k) else 0
  {
    hide Pow2, Double;
    Pow2Of63();
    Pow2Step(k);
    if k > 0 {
      PowAfterIs(k - 1);
      if k <= 64 {
        Pow2Monotone(k - 1, 63);
      }
      DoubleIs(PowAfter(k - 1));
      if k < 64 {
        Pow2Monotone(k, 63);
      }
    }
  }

  lemma DoubleIs(p: u64)
    requires p <= 0x8000_0000_0000_0000
    ensures Double(p) == if p == 0x8000_0000_0000_0000 then 0 else 2 * p
  {
  }

  lemma Pow2Step(k: nat)
    ensures Pow2(k) == if k == 0 then 1 else 2 * Pow2(k - 1)
  {
  }

  /** The rounding loop comes to an end exactly for arguments up to 2^63. */
  lemma RoundUpTerminatesIff(n: u64)
    ensures (exists k: nat :: PowAfter(k) >= n) <==> n <= 0x8000_0000_0000_0000
  {
    Pow2Of63();
    if n <= 0x8000_0000_0000_0000 {
      PowAfterIs(63);
      assert PowAfter(63) >= n;
    } else {
      forall k: nat ensures PowAfter(k) < n {
        PowAfterIs(k);
        if k < 64 {
          Pow2Monotone(k, 63);
        }
      }
    }
  }

  /**
   `round_up_power_of_2`, watched for some rounds of its loop, because for some arguments it goes on
   for ever: at an end it has the least power of two that is not below n, and 63 rounds show whether
   it will end.
   */
  method RoundUpPowerOf2(n: u64, rounds: nat) returns (ended: bool, pow: u64)
    ensures ended <==> exists k: nat :: k <= rounds && PowAfter(k) >= n
    ensures ended ==> IsPow2(pow) && n <= pow && forall k: nat :: Pow2(k) >= n ==> pow <= Pow2(k)
    ensures rounds >= 63 ==> (ended <==> n <= 0x8000_0000_0000_0000)
  {
    pow := 1;
    var j := 0;
    while pow < n && j < rounds
      invariant j <= rounds && pow == PowAfter(j)
      invariant forall k: nat :: k < j ==> PowAfter(k) < n
      decreases rounds - j
    {
      pow := Double(pow);
      j := j + 1;
    }
    ended := pow >= n;
    if rounds >= 63 {
      RoundsEnough(n, rounds);
    }
    if ended {
      LeastPower(n, j);
    }
  }

  lemma RoundsEnough(n: u64, rounds: nat)
    requires rounds >= 63
    ensures (exists k: nat :: k <= rounds && PowAfter(k) >= n) <==> n <= 0x8000_0000_0000_0000
  {
    RoundUpTerminatesIff(n);
    if n <= 0x8000_0000_0000_0000 {
      Pow2Of63();
      PowAfterIs(63);
    }
  }

  /** The first round whose value is not below n has the least power of two that is not. */
  lemma LeastPower(n: u64, j: nat)
    requires PowAfter(j) >= n && forall k: nat :: k < j ==> PowAfter(k) < n
    ensures IsPow2(PowAfter(j)) && forall k: nat :: Pow2(k) >= n ==> PowAfter(j) <= Pow2(k)
  {
    PowAfterIs(j);
    assert j > 0 ==> PowAfter(0) < n;
    forall k: nat | Pow2(k) >= n ensures Pow2(j) <= Pow2(k) {
      if k < j {
        PowAfterIs(k);
      } else {
        Pow2Monotone(j, k);
      }
    }
  }

  /** The argument test of the C queue, `capacity == round_up_power_of_2(capacity)`. */
  method CapacityAccepted(capacity: u64, rounds: nat) returns (ended: bool, ok: bool)
    ensures ended ==> (ok <==> IsPow2(capacity))
    ensures rounds >= 63 ==> (ended <==> capacity <= 0x8000_0000_0000_0000)
  {
    if capacity == 0 {
      return true, false;
    }
    var pow;
    ended, pow := RoundUpPowerOf2(capacity, rounds);
    ok := capacity == pow;
    if ended && IsPow2(capacity) {
      var k: nat :| capacity == Pow2(k);
    }
  }
}
