/**
  Bit arithmetic on unbounded integers, the way Python's `int` has it: masking the low n
  bits is `v % Pow2(n)` and shifting right by n is `v / Pow2(n)` for negative `v` too, since Dafny's
  `/` and `%` round down for a positive divisor. `|` of non-negative integers is `Or`.
 */
module Bits {
  function Pow2(n: nat): (p: int)
    ensures 0 < p
  {
    if n == 0 then 1 else 2 * Pow2(n - 1)
  }

  /** The two's complement reading of `v` in a field whose sign bit weighs `half`. */
  function Wrap(v: int, half: int): (r: int)
    requires 0 < half
    ensures -half <= r < half
  {
    (v + half) % (2 * half) - half
  }

  /** Sign extension as Python spells it: mask to the field, flip the top bit, subtract its weight. */
  function FlipExtend(v: int, top: int): (r: int)
    requires 0 < top
    ensures r == Wrap(v, top)
  {
    var u := v % (2 * top);
    assert Wrap(v, top) == if u < top then u else u - 2 * top by {
      var q := v / (2 * top);
      if u < top {
        DivModUnique(v + top, 2 * top, q, u + top);
      } else {
        assert (q + 1) * (2 * top) == q * (2 * top) + 2 * top;
        DivModUnique(v + top, 2 * top, q + 1, u - top);
      }
    }
    (if u < top then u + top else u - top) - top
  }

  // ----- Addresses -----

  /** Addresses are numbers of 64 bits: a sum that leaves the space wraps around. */
  predicate SameAddress(a: int, b: int)
  {
    (a - b) % 0x1_0000_0000_0000_0000 == 0
  }

  /** The number of the same address that is the shorter way round from `place`. */
  function Nearest(target: int, place: int): (near: int)
    ensures SameAddress(near, target)
    ensures -0x8000_0000_0000_0000 <= near - place < 0x8000_0000_0000_0000
    ensures -0x8000_0000_0000_0000 <= target - place < 0x8000_0000_0000_0000 ==> near == target
  {
    var n := target - place;
    DivModUnique(Wrap(n, 0x8000_0000_0000_0000) - n, 0x1_0000_0000_0000_0000,
                 -((n + 0x8000_0000_0000_0000) / 0x1_0000_0000_0000_0000), 0);
    place + Wrap(n, 0x8000_0000_0000_0000)
  }

  lemma SameIsEqual(a: int, b: int)
    requires SameAddress(a, b) && -0x1_0000_0000_0000_0000 < a - b < 0x1_0000_0000_0000_0000
    ensures a == b
  {
  }

  lemma SameTrans(a: int, b: int, c: int)
    requires SameAddress(a, b) && SameAddress(b, c)
    ensures SameAddress(a, c) && SameAddress(c, a)
  {
    var m := 0x1_0000_0000_0000_0000;
    var p, q := (a - b) / m, (b - c) / m;
    assert a - b == p * m && b - c == q * m;
    DivModUnique(a - c, m, p + q, 0);
    DivModUnique(c - a, m, -(p + q), 0);
  }

  /** Contents that reach the address at all reach the nearest number of it. */
  lemma ReachesNearest(address: int, target: int, place: int)
    requires SameAddress(address, target) && -0x8000_0000_0000_0000 < address - place < 0x8000_0000_0000_0000
    ensures address == Nearest(target, place)
  {
    SameTrans(Nearest(target, place), target, target);
    SameTrans(address, target, Nearest(target, place));
    SameIsEqual(address, Nearest(target, place));
  }

  predicate Bit(v: nat, i: nat)
    decreases i
  {
    if i == 0 then v % 2 == 1 else Bit(v / 2, i - 1)
  }

  function Or(a: nat, b: nat): nat
  {
    if a == 0 then b
    else if b == 0 then a
    else (if a % 2 == 1 || b % 2 == 1 then 1 else 0) + 2 * Or(a / 2, b / 2)
  }

  function And(a: nat, b: nat): nat
  {
    if a == 0 || b == 0 then 0 else (if a % 2 == 1 && b % 2 == 1 then 1 else 0) + 2 * And(a / 2, b / 2)
  }

  // ----- Powers of two -----

  lemma {:induction false} PowAdd(m: nat, n: nat)
    ensures Pow2(m + n) == Pow2(m) * Pow2(n)
  {
    if m == 0 {
    } else {
      PowAdd(m - 1, n);
      assert Pow2(m + n) == 2 * Pow2((m - 1) + n);
      DoubleProduct(Pow2(m - 1), Pow2(n));
    }
  }

  lemma DoubleProduct(a: int, b: int)
    ensures 2 * (a * b) == (2 * a) * b
  {
  }

  lemma {:induction false} PowMonotone(m: nat, n: nat)
    requires m <= n
    ensures Pow2(m) <= Pow2(n)
    ensures m < n ==> 2 * Pow2(m) <= Pow2(n)
  {
    if m < n {
      PowMonotone(m, n - 1);
    }
  }

  lemma PowTable()
    ensures Pow2(0) == 0x1 && Pow2(1) == 0x2 && Pow2(2) == 0x4 && Pow2(3) == 0x8 && Pow2(4) == 0x10
    ensures Pow2(5) == 0x20 && Pow2(6) == 0x40 && Pow2(7) == 0x80 && Pow2(8) == 0x100 && Pow2(9) == 0x200
    ensures Pow2(10) == 0x400 && Pow2(11) == 0x800 && Pow2(12) == 0x1000 && Pow2(13) == 0x2000 && Pow2(14) == 0x4000
    ensures Pow2(15) == 0x8000 && Pow2(16) == 0x1_0000 && Pow2(17) == 0x2_0000 && Pow2(18) == 0x4_0000
      && Pow2(19) == 0x8_0000
    ensures Pow2(20) == 0x10_0000 && Pow2(21) == 0x20_0000 && Pow2(22) == 0x40_0000 && Pow2(23) == 0x80_0000
      && Pow2(24) == 0x100_0000
    ensures Pow2(25) == 0x200_0000 && Pow2(26) == 0x400_0000 && Pow2(27) == 0x800_0000 && Pow2(28) == 0x1000_0000
      && Pow2(29) == 0x2000_0000
    ensures Pow2(30) == 0x4000_0000 && Pow2(31) == 0x8000_0000 && Pow2(32) == 0x1_0000_0000
    ensures Pow2(52) == 0x10_0000_0000_0000 && Pow2(63) == 0x8000_0000_0000_0000 && Pow2(64) == 0x1_0000_0000_0000_0000
  {
    assert Pow2(8) == 0x100;
    assert Pow2(16) == 0x1_0000 by { PowAdd(8, 8); }
    assert Pow2(24) == 0x100_0000 by { PowAdd(16, 8); }
    assert Pow2(32) == 0x1_0000_0000 by { PowAdd(24, 8); }
    assert Pow2(48) == 0x1_0000_0000_0000 by { PowAdd(32, 16); }
    assert Pow2(56) == 0x100_0000_0000_0000 by { PowAdd(48, 8); }
    assert Pow2(64) == 0x1_0000_0000_0000_0000 by { PowAdd(56, 8); }
  }

  /** `x` split at `d`: the quotient and remainder are the only pair that recombine to `x`. */
  lemma DivModUnique(x: int, d: int, q: int, r: int)
    requires 0 <= r < d
    requires x == q * d + r
    ensures x / d == q && x % d == r
  {
    var k := q - x / d;
    assert x == (x / d) * d + x % d;
    assert k * d == x % d - r;
    assert k >= 1 ==> k * d >= d;
    assert k <= -1 ==> k * d <= -d;
  }

  lemma AddMod(x: int, y: int, m: int)
    requires 0 < m
    ensures (x % m + y) % m == (x + y) % m
  {
    var q, z := x / m, x % m + y;
    assert x + y == (q + z / m) * m + z % m by { assert (q + z / m) * m == q * m + z / m * m; }
    DivModUnique(x + y, m, q + z / m, z % m);
  }

  lemma ModMod(x: int, n: int, m: int)
    requires 0 < m && 0 < n
    ensures 0 < n * m && x % (n * m) % m == x % m
  {
    var q, r := x / (n * m), x % (n * m);
    assert x == (q * n + r / m) * m + r % m by { assert (q * n + r / m) * m == q * (n * m) + r / m * m; }
    DivModUnique(x, m, q * n + r / m, r % m);
  }

  /** Halving commutes with splitting at a higher power of two. */
  lemma HalveSplit(x: int, k: nat)
    requires 0 < k
    ensures x / Pow2(k) == (x / 2) / Pow2(k - 1)
    ensures x % Pow2(k) == x % 2 + 2 * ((x / 2) % Pow2(k - 1))
  {
    var p := Pow2(k - 1);
    var q, r := (x / 2) / p, (x / 2) % p;
    assert x / 2 == q * p + r;
    assert x == 2 * (q * p + r) + x % 2;
    assert x == q * (2 * p) + (2 * r + x % 2);
    DivModUnique(x, 2 * p, q, 2 * r + x % 2);
  }

  // ----- Bits of shifts, remainders and unions -----

  lemma {:induction false} BitShl(x: nat, k: nat, i: nat)
    ensures x * Pow2(k) >= 0
    ensures Bit(x * Pow2(k), i) == (i >= k && Bit(x, i - k))
  {
    if k > 0 {
      var y := x * Pow2(k - 1);
      assert x * Pow2(k) == 2 * y;
      if i > 0 {
        BitShl(x, k - 1, i - 1);
      }
    }
  }

  lemma {:induction false} BitShr(x: nat, k: nat, i: nat)
    ensures x / Pow2(k) >= 0
    ensures Bit(x / Pow2(k), i) == Bit(x, i + k)
  {
    if k > 0 {
      HalveSplit(x, k);
      BitShr(x / 2, k - 1, i);
    }
  }

  lemma {:induction false} BitMod(x: nat, k: nat, i: nat)
    ensures Bit(x % Pow2(k), i) == (i < k && Bit(x, i))
  {
    if k == 0 {
      BitOfZero(i);
    } else {
      HalveSplit(x, k);
      var y, m := x % Pow2(k), (x / 2) % Pow2(k - 1);
      assert y % 2 == x % 2 && y / 2 == m;
      if i > 0 {
        BitMod(x / 2, k - 1, i - 1);
        assert Bit(y, i) == Bit(m, i - 1);
      }
    }
  }

  lemma {:induction false} BitOfZero(i: nat)
    ensures !Bit(0, i)
  {
    if i > 0 {
      BitOfZero(i - 1);
    }
  }

  lemma {:induction false} BitAbove(x: nat, n: nat, i: nat)
    requires x < Pow2(n) && n <= i
    ensures !Bit(x, i)
  {
    if n == 0 {
      BitOfZero(i);
    } else {
      BitAbove(x / 2, n - 1, i - 1);
    }
  }

  lemma {:induction false} BitOr(a: nat, b: nat, i: nat)
    ensures Bit(Or(a, b), i) == (Bit(a, i) || Bit(b, i))
  {
    BitOfZero(i);
    if a != 0 && b != 0 && i > 0 {
      BitOr(a / 2, b / 2, i - 1);
    }
  }

  lemma {:induction false} BitAnd(a: nat, b: nat, i: nat)
    ensures Bit(And(a, b), i) == (Bit(a, i) && Bit(b, i))
  {
    BitOfZero(i);
    if a != 0 && b != 0 && i > 0 {
      BitAnd(a / 2, b / 2, i - 1);
    }
  }

  /** Numbers below 2**n with the same low n bits are equal. */
  lemma {:induction false} BitsEqual(a: nat, b: nat, n: nat)
    requires a < Pow2(n) && b < Pow2(n)
    requires forall i: nat | i < n :: Bit(a, i) == Bit(b, i)
    ensures a == b
  {
    if n > 0 {
      forall i: nat | i < n - 1
        ensures Bit(a / 2, i) == Bit(b / 2, i)
      {
        assert Bit(a, i + 1) == Bit(b, i + 1);
      }
      BitsEqual(a / 2, b / 2, n - 1);
      assert Bit(a, 0) == Bit(b, 0);
    }
  }

  // ----- Or -----

  lemma {:induction false} OrBound(a: nat, b: nat, n: nat)
    requires a < Pow2(n) && b < Pow2(n)
    ensures Or(a, b) < Pow2(n)
  {
    if a != 0 && b != 0 {
      OrBound(a / 2, b / 2, n - 1);
    }
  }

  /** Or of a multiple of 2**k and a number below 2**k is their sum. */
  lemma {:induction false} OrIsSum(a: nat, b: nat, k: nat)
    requires a % Pow2(k) == 0 && b < Pow2(k)
    ensures Or(a, b) == a + b
  {
    if a != 0 && b != 0 {
      HalveSplit(a, k);
      OrIsSum(a / 2, b / 2, k - 1);
    }
  }

  /** A bit field of a union is the union of the bit fields. */
  lemma {:induction false} OrField(a: nat, b: nat, lo: nat, len: nat)
    ensures (Or(a, b) / Pow2(lo)) % Pow2(len)
         == Or((a / Pow2(lo)) % Pow2(len), (b / Pow2(lo)) % Pow2(len))
  {
    var x := (Or(a, b) / Pow2(lo)) % Pow2(len);
    var fa, fb := (a / Pow2(lo)) % Pow2(len), (b / Pow2(lo)) % Pow2(len);
    OrBound(fa, fb, len);
    forall i: nat | i < len
      ensures Bit(x, i) == Bit(Or(fa, fb), i)
    {
      BitShr(Or(a, b), lo, i); BitShr(a, lo, i); BitShr(b, lo, i);
      BitMod(Or(a, b) / Pow2(lo), len, i); BitMod(a / Pow2(lo), len, i); BitMod(b / Pow2(lo), len, i);
      BitOr(a, b, i + lo);
      BitOr(fa, fb, i);
    }
    BitsEqual(x, Or(fa, fb), len);
  }

  /** `|` into the clear low k bits of a word, given p = 2**k, as instruction formats use it. */
  lemma OrAligned(a: nat, b: nat, k: nat, p: int)
    requires p == Pow2(k) && a % p == 0 && b < p
    ensures Or(a, b) == a + b
  {
    OrIsSum(a, b, k);
  }

  /** The same for a = q * p. */
  lemma OrOnto(q: nat, a: nat, b: nat, k: nat, p: int)
    requires p == Pow2(k) && a == q * p && b < p
    ensures Or(a, b) == a + b
  {
    DivModUnique(a, p, q, 0);
    OrIsSum(a, b, k);
  }
}
