// Unsigned 64-bit arithmetic on naturals: the shifts, masks and wrap-around of `uint64_t`,
// each described by the bits of its result.
module Bits {

  function Pow2(n: nat): (p: nat)
    ensures p >= 1
  {
    if n == 0 then 1 else 2 * Pow2(n - 1)
  }

  const TWO_64: nat := 0x1_0000_0000_0000_0000

  type u64 = x: nat | x < 0x1_0000_0000_0000_0000

  // Bit i of x, bit 0 being the least significant one.
  predicate Bit(x: nat, i: nat) {
    if i == 0 then x % 2 == 1 else Bit(x / 2, i - 1)
  }

  function And(x: nat, y: nat): nat {
    if x == 0 || y == 0 then 0
    else 2 * And(x / 2, y / 2) + (if x % 2 == 1 && y % 2 == 1 then 1 else 0)
  }

  function Or(x: nat, y: nat): nat {
    if x == 0 && y == 0 then 0
    else 2 * Or(x / 2, y / 2) + (if x % 2 == 1 || y % 2 == 1 then 1 else 0)
  }

  // `~x`
  function Not64(x: u64): u64 {
    TWO_64 - 1 - x
  }

  // `x >> k`
  function Shr(x: nat, k: nat): nat {
    Quotient(x, Pow2(k))
  }

  function Quotient(x: nat, d: nat): nat
    requires d > 0
  {
    x / d
  }

  // `x << k`, the bits pushed beyond bit 63 being lost
  function Shl(x: nat, k: nat): u64 {
    Wrap64(x * Pow2(k))
  }

  // The result of an operation with the wrap-around of the machine
  function Wrap64(x: int): (r: u64)
    ensures 0 <= x < TWO_64 ==> r == x
  {
    if 0 <= x < TWO_64 then x else x % 0x1_0000_0000_0000_0000
  }

  // The same bit operations, on machine words
  function And64(x: u64, y: u64): u64 {
    AndBound(x, y);
    And(x, y)
  }

  function Or64(x: u64, y: u64): u64 {
    Pow2Values();
    OrBound(x, y, 64);
    Or(x, y)
  }

  function Shr64(x: u64, k: nat): u64 {
    ShrBound(x, k);
    Shr(x, k)
  }

  function Add64(x: u64, y: u64): u64 { Wrap64(x + y) }

  function Sub64(x: u64, y: u64): u64 { Wrap64(x - y) }

  function Mul64(x: u64, y: u64): u64 { Wrap64(x * y) }

  // The number whose bit i is bits[i].
  function FromBits(bits: seq<bool>): (x: nat) {
    if bits == [] then 0 else 2 * FromBits(bits[1..]) + (if bits[0] then 1 else 0)
  }

  //
  // Powers of two
  //

  lemma {:induction false} Pow2Add(a: nat, b: nat)
    ensures Pow2(a + b) == Pow2(a) * Pow2(b)
  {
    if a == 0 {
    } else {
      Pow2Add(a - 1, b);
      assert Pow2(a + b) == 2 * Pow2(a - 1 + b);
      assert 2 * (Pow2(a - 1) * Pow2(b)) == (2 * Pow2(a - 1)) * Pow2(b);
    }
  }

  lemma {:induction false} Pow2Mono(a: nat, b: nat)
    requires a <= b
    ensures Pow2(a) <= Pow2(b)
    ensures a < b ==> 2 * Pow2(a) <= Pow2(b)
  {
    if a == b {
    } else {
      Pow2Mono(a, b - 1);
    }
  }

  lemma Pow2Values()
    ensures Pow2(8) == 256 && Pow2(16) == 65536 && Pow2(32) == 0x1_0000_0000
    ensures Pow2(64) == TWO_64
  {
    assert Pow2(4) == 16;
    Pow2Add(4, 4);
    Pow2Add(8, 8);
    Pow2Add(16, 16);
    Pow2Add(32, 32);
  }

  //
  // Reading the bits of a number determines it
  //

  lemma {:induction false} BitsEqual(x: nat, y: nat, n: nat)
    requires x < Pow2(n) && y < Pow2(n)
    requires forall i: nat | i < n :: Bit(x, i) == Bit(y, i)
    ensures x == y
  {
    if n == 0 {
    } else {
      forall i: nat | i < n - 1 ensures Bit(x / 2, i) == Bit(y / 2, i) {
        assert Bit(x, i + 1) == Bit(y, i + 1);
      }
      BitsEqual(x / 2, y / 2, n - 1);
      assert Bit(x, 0) == Bit(y, 0);
    }
  }

  lemma {:induction false} NoHighBits(x: nat, n: nat, i: nat)
    requires x < Pow2(n) && n <= i
    ensures !Bit(x, i)
  {
    if n == 0 {
      if i > 0 { NoHighBits(0, 0, i - 1); }
    } else {
      NoHighBits(x / 2, n - 1, i - 1);
    }
  }

  lemma {:induction false} FromBitsAt(bits: seq<bool>, i: nat)
    ensures FromBits(bits) < Pow2(|bits|)
    ensures Bit(FromBits(bits), i) == (i < |bits| && bits[i])
  {
    if bits == [] {
      NoHighBits(0, 0, i);
    } else {
      FromBitsAt(bits[1..], if i == 0 then 0 else i - 1);
    }
  }

  //
  // The bits of each operation
  //

  lemma {:induction false} AndBit(x: nat, y: nat, i: nat)
    ensures Bit(And(x, y), i) == (Bit(x, i) && Bit(y, i))
  {
    if x == 0 || y == 0 {
      NoHighBits(0, 0, i);
    } else if i > 0 {
      AndBit(x / 2, y / 2, i - 1);
    }
  }

  lemma {:induction false} OrBit(x: nat, y: nat, i: nat)
    ensures Bit(Or(x, y), i) == (Bit(x, i) || Bit(y, i))
  {
    if x == 0 && y == 0 {
      NoHighBits(0, 0, i);
    } else if i > 0 {
      OrBit(x / 2, y / 2, i - 1);
    }
  }

  lemma {:induction false} AndBound(x: nat, y: nat)
    ensures And(x, y) <= x && And(x, y) <= y
  {
    if x == 0 || y == 0 {
    } else {
      AndBound(x / 2, y / 2);
    }
  }

  lemma {:induction false} OrBound(x: nat, y: nat, n: nat)
    requires x < Pow2(n) && y < Pow2(n)
    ensures Or(x, y) < Pow2(n)
  {
    if n == 0 || (x == 0 && y == 0) {
    } else {
      OrBound(x / 2, y / 2, n - 1);
    }
  }

  lemma {:induction false} ComplementBit(x: nat, n: nat, i: nat)
    requires x < Pow2(n) && i < n
    ensures Bit(Pow2(n) - 1 - x, i) == !Bit(x, i)
  {
    var y := Pow2(n) - 1 - x;
    assert y / 2 == Pow2(n - 1) - 1 - x / 2;
    if i == 0 {
    } else {
      ComplementBit(x / 2, n - 1, i - 1);
    }
  }

  lemma HalveQuotient(x: nat, d: nat)
    requires d > 0
    ensures x / (2 * d) == (x / 2) / d
    ensures x % (2 * d) == 2 * ((x / 2) % d) + x % 2
  {
    var q, r := (x / 2) / d, (x / 2) % d;
    assert x / 2 == q * d + r;
    assert x == q * (2 * d) + (2 * r + x % 2) by {
      assert q * (2 * d) == 2 * (q * d);
    }
    QuotientUnique(x, 2 * d, q, 2 * r + x % 2);
  }

  lemma QuotientUnique(x: int, d: nat, q: int, r: int)
    requires x == q * d + r && 0 <= r < d
    ensures x / d == q && x % d == r
  {
    var q', r' := x / d, x % d;
    assert x == q' * d + r' && 0 <= r' < d;
    MultipleGap(q, q', d, r' - r);
  }

  lemma MultipleGap(a: int, b: int, d: int, gap: int)
    requires a * d - b * d == gap && 0 - d < gap < d
    ensures a == b
  {
    assert (a - b) * d == gap && (b - a) * d == -gap;
    if a > b {
      AtLeastOnce(a - b, d);
    } else if a < b {
      AtLeastOnce(b - a, d);
    }
  }

  lemma AtLeastOnce(m: int, d: int)
    requires m >= 1 && d >= 0
    ensures m * d >= d
  {
    assert (m - 1) * d >= 0;
  }

  lemma {:induction false} ShrBit(x: nat, k: nat, i: nat)
    ensures Bit(Shr(x, k), i) == Bit(x, i + k)
  {
    if k == 0 {
    } else {
      HalveQuotient(x, Pow2(k - 1));
      ShrBit(x / 2, k - 1, i);
    }
  }

  lemma {:induction false} ModBit(x: nat, n: nat, i: nat)
    ensures Bit(x % Pow2(n), i) == (i < n && Bit(x, i))
  {
    if n == 0 {
      NoHighBits(0, 0, i);
    } else {
      HalveQuotient(x, Pow2(n - 1));
      if i > 0 { ModBit(x / 2, n - 1, i - 1); }
    }
  }

  lemma {:induction false} TimesPow2Bit(x: nat, k: nat, i: nat)
    ensures Bit(x * Pow2(k), i) == (k <= i && Bit(x, i - k))
  {
    if k == 0 {
    } else {
      var y := x * Pow2(k - 1);
      assert x * Pow2(k) == 2 * y;
      if i > 0 { TimesPow2Bit(x, k - 1, i - 1); }
    }
  }

  lemma ShlBit(x: nat, k: nat, i: nat)
    ensures Bit(Shl(x, k), i) == (k <= i < 64 && Bit(x, i - k))
  {
    WrapIsMod(x * Pow2(k));
    ModBit(x * Pow2(k), 64, i);
    TimesPow2Bit(x, k, i);
  }

  lemma WrapIsMod(x: nat)
    ensures Wrap64(x) == x % Pow2(64)
  {
    Pow2Values();
  }

  lemma ShrBound(x: nat, k: nat)
    ensures Shr(x, k) <= x
  {
    var q := Shr(x, k);
    assert x == q * Pow2(k) + x % Pow2(k);
    assert q * Pow2(k) >= q;
  }

  // The mask of the n low bits keeps exactly the bits below n.
  lemma {:induction false} LowMaskBit(n: nat, i: nat)
    ensures Bit(Pow2(n) - 1, i) == (i < n)
  {
    if n == 0 {
      NoHighBits(0, 0, i);
    } else if i > 0 {
      assert (Pow2(n) - 1) / 2 == Pow2(n - 1) - 1;
      LowMaskBit(n - 1, i - 1);
    }
  }

  // `x & (1 << k)` is non-zero exactly when bit k of x is set.
  lemma OneBit(k: nat, i: nat)
    requires k < 64
    ensures Shl(1, k) == Pow2(k)
    ensures Bit(Shl(1, k), i) == (i == k)
  {
    assert Pow2(k) < TWO_64 by { Pow2Mono(k, 64); Pow2Values(); }
    ShlOne(k);
    TimesPow2Bit(1, k, i);
    if k < i { NoHighBits(1, 1, i - k); }
  }

  lemma ShlOne(k: nat)
    requires Pow2(k) < TWO_64
    ensures Shl(1, k) == 1 * Pow2(k) == Pow2(k)
  {
  }

  lemma {:induction false} NonZeroHasBit(x: nat)
    requires x > 0
    ensures exists i: nat :: Bit(x, i)
  {
    if x % 2 == 1 {
      assert Bit(x, 0);
    } else {
      NonZeroHasBit(x / 2);
      var i: nat :| Bit(x / 2, i);
      assert Bit(x, i + 1);
    }
  }

  lemma TestBit(x: nat, k: nat)
    requires k < 64
    ensures (And(x, Shl(1, k)) != 0) == Bit(x, k)
  {
    OneBit(k, k);
    AndBit(x, Shl(1, k), k);
    if And(x, Shl(1, k)) != 0 {
      NonZeroHasBit(And(x, Shl(1, k)));
      var i: nat :| Bit(And(x, Shl(1, k)), i);
      AndBit(x, Shl(1, k), i);
      OneBit(k, i);
    } else {
      NoHighBits(0, 0, k);
    }
  }

  lemma {:induction false} TopBit(x: nat, n: nat)
    requires 0 < n && x < Pow2(n)
    ensures Bit(x, n - 1) == (x >= Pow2(n - 1))
  {
    if n == 1 {
    } else {
      TopBit(x / 2, n - 1);
    }
  }

  //
  // The masks of the codec
  //

  // `((1 << (n - 1)) << 1) - 1`: no shift reaches 64, and for n == 64 the wrap-around gives all ones.
  lemma FullMask(n: nat)
    requires 1 <= n <= 64
    ensures Sub64(Shl(Shl(1, n - 1), 1), 1) == Pow2(n) - 1
  {
    OneBit(n - 1, 0);
    ShlByOne(Pow2(n - 1));
    Pow2Values();
    Pow2Mono(n, 64);
  }

  lemma ShlByOne(x: nat)
    ensures Shl(x, 1) == Wrap64(2 * x)
  {
    assert Pow2(1) == 2;
    assert x * Pow2(1) == 2 * x;
  }

  // `(1 << n) - 1`
  lemma LowMask(n: nat)
    requires n < 64
    ensures Sub64(Shl(1, n), 1) == Pow2(n) - 1
  {
    OneBit(n, 0);
  }

  // `~((1 << (n - 1)) - 1)`: the sign bit and everything above it.
  lemma SignMaskBit(n: nat, i: nat)
    requires 1 <= n <= 64
    ensures Bit(Not64(Sub64(Shl(1, n - 1), 1)), i) == (n - 1 <= i < 64)
  {
    LowMask(n - 1);
    Pow2Values();
    Pow2Mono(n - 1, 64);
    if i < 64 {
      ComplementBit(Pow2(n - 1) - 1, 64, i);
      LowMaskBit(n - 1, i);
    } else {
      NoHighBits(Not64(Pow2(n - 1) - 1), 64, i);
    }
  }
}
